/** `FlightRepository`: the flight table's finders, its persist, and its remove,
    which takes the flight's bookings with it. */
module FlightRepository {
  import opened Common
  import opened Flights
  import opened Bookings
  import opened Store

  /** The order of `ORDER BY f.number ASC`: strings compared character by
      character on their codes, a proper prefix first. */
  predicate LexLeq(a: string, b: string)
  {
    a == [] || (b != [] && (a[0] < b[0] || (a[0] == b[0] && LexLeq(a[1..], b[1..]))))
  }

  lemma {:induction false} LexLeqTotal(a: string, b: string)
    ensures LexLeq(a, b) || LexLeq(b, a)
    decreases |a|
  {
    if a != [] && b != [] && a[0] == b[0] {
      LexLeqTotal(a[1..], b[1..]);
    }
  }

  lemma {:induction false} LexLeqTransitive(a: string, b: string, c: string)
    requires LexLeq(a, b) && LexLeq(b, c)
    ensures LexLeq(a, c)
    decreases |a|
  {
    if a != [] && a[0] == b[0] && b[0] == c[0] {
      LexLeqTransitive(a[1..], b[1..], c[1..]);
    }
  }

  predicate SortedByNumber(s: seq<Flight>)
  {
    forall i, j | 0 <= i < j < |s| :: LexLeq(s[i].number, s[j].number)
  }

  /** A number no greater than the first of a sorted list is no greater than any. */
  lemma BelowAll(a: string, s: seq<Flight>)
    requires SortedByNumber(s) && s != [] && LexLeq(a, s[0].number)
    ensures forall j | 0 <= j < |s| :: LexLeq(a, s[j].number)
  {
    forall j | 0 < j < |s| ensures LexLeq(a, s[j].number) {
      LexLeqTransitive(a, s[0].number, s[j].number);
    }
  }

  /** Every flight after the first of a sorted list is no smaller than the first. */
  lemma AboveHead(s: seq<Flight>, x: Flight)
    requires SortedByNumber(s) && s != [] && x in multiset(s[1..])
    ensures LexLeq(s[0].number, x.number)
  {
    var i :| 0 <= i < |s[1..]| && s[1..][i] == x;
    assert s[i + 1] == x;
  }

  /** Places `f` into a list ordered by number. */
  function Insert(f: Flight, s: seq<Flight>): (r: seq<Flight>)
    requires SortedByNumber(s)
    ensures SortedByNumber(r)
    ensures multiset(r) == multiset(s) + multiset{f}
  {
    if s == [] then [f]
    else if LexLeq(f.number, s[0].number) then
      BelowAll(f.number, s);
      [f] + s
    else
      var rest := Insert(f, s[1..]);
      LexLeqTotal(f.number, s[0].number);
      assert s == [s[0]] + s[1..];
      forall j | 0 <= j < |rest| ensures LexLeq(s[0].number, rest[j].number) {
        assert rest[j] in multiset(rest);
        if rest[j] != f {
          AboveHead(s, rest[j]);
        }
      }
      [s[0]] + rest
  }

  lemma {:induction false} HasLeast(keys: set<Id>)
    requires keys != {}
    ensures exists k :: k in keys && forall j | j in keys :: k <= j
    decreases keys
  {
    var x :| x in keys;
    var others := keys - {x};
    var least := x;
    if others != {} {
      HasLeast(others);
      var m :| m in others && forall j | j in others :: m <= j;
      least := if x < m then x else m;
    }
    forall j | j in keys ensures least <= j {
      if j != x { assert j in others; }
    }
    assert least in keys;
  }

  function Least(keys: set<Id>): (k: Id)
    requires keys != {}
    ensures k in keys && forall j | j in keys :: k <= j
  {
    HasLeast(keys);
    var k :| k in keys && forall j | j in keys :: k <= j;
    k
  }

  /** The members of `Insert(f, s)` are `f` and the members of `s`. */
  lemma MembersOfInsert(f: Flight, s: seq<Flight>)
    requires SortedByNumber(s)
    ensures |Insert(f, s)| == |s| + 1
    ensures forall x :: x in Insert(f, s) <==> x == f || x in s
  {
    var r := Insert(f, s);
    assert |multiset(r)| == |multiset(s)| + 1;
    forall x ensures x in r <==> x == f || x in s {
      assert x in r <==> x in multiset(r);
      assert x in s <==> x in multiset(s);
    }
  }

  /** Inserting the flight under `k` into a list of the other flights gives a
      list of all of them. */
  lemma InsertCovers(flights: map<Id, Flight>, k: Id, tail: seq<Flight>)
    requires k in flights && SortedByNumber(tail)
    requires forall x :: x in tail <==> x in (flights - {k}).Values
    ensures forall x :: x in Insert(flights[k], tail) <==> x in flights.Values
  {
    MembersOfInsert(flights[k], tail);
    var rest := flights - {k};
    forall x ensures x in Insert(flights[k], tail) <==> x in flights.Values {
      if x in flights.Values && x != flights[k] {
        var j :| j in flights && flights[j] == x;
        assert j in rest && rest[j] == x;
      }
      if x in rest.Values {
        var j :| j in rest && rest[j] == x;
        assert flights[j] == x;
      }
    }
  }

  /** `findAll`: every stored flight, ordered by number. */
  function FindAll(flights: map<Id, Flight>): (r: seq<Flight>)
    ensures SortedByNumber(r)
    ensures |r| == |flights|
    ensures forall x :: x in r <==> x in flights.Values
    decreases flights.Keys
  {
    if flights == map[] then []
    else
      var k := Least(flights.Keys);
      var rest := flights - {k};
      assert rest.Keys == flights.Keys - {k};
      var tail := FindAll(rest);
      MembersOfInsert(flights[k], tail);
      InsertCovers(flights, k, tail);
      Insert(flights[k], tail)
  }

  /** `findByNumber`: the flight whose number is exactly `number` (case
      included); null when there is none, `NonUniqueResultException` when there
      are several. */
  function FindByNumber(flights: map<Id, Flight>, number: string): (r: Lookup<Flight>)
    ensures r.NoResult? <==> forall k | k in flights :: flights[k].number != number
    ensures NumbersUnique(flights) ==> !r.NonUnique?
    ensures r.Single? ==> r.value.number == number && r.value in flights.Values
  {
    Query(flights, (f: Flight) => f.number == number)
  }

  /** `findById`: the flight stored under `id`, or null. */
  function FindById(t: Tables, id: Id): (r: Option<Flight>)
    ensures r.Some? <==> id in t.flights
    ensures KeysAreIds(t) && r.Some? ==> r.value.id == Some(id)
  {
    if id in t.flights then Some(t.flights[id]) else None
  }

  /** Whether a flight with exactly this number is stored. */
  predicate NumberTaken(flights: map<Id, Flight>, number: string)
  {
    exists k | k in flights :: flights[k].number == number
  }

  /** `create` (`em.persist`): a flight that already carries an id is refused as
      detached, one whose number is stored breaks the unique constraint;
      otherwise it is stored under a fresh id and returned with it. */
  function CreateStep(t: Tables, f: Flight): (r: Step<Flight>)
    ensures r.result.Failure? <==> f.id.Some? || NumberTaken(t.flights, f.number)
    ensures r.result.Failure? ==>
      r.state == t &&
      r.result.error == (if f.id.Some? then DetachedEntity else StoreConstraint)
    ensures r.result.Success? ==>
      r.result.value.id.Some? &&
      var k := r.result.value.id.value;
      r.result.value == f.(id := Some(k)) &&
      (KeysAreIds(t) ==> k !in t.flights) &&
      r.state == t.(flights := t.flights[k := r.result.value], nextId := r.state.nextId)
    ensures WellFormed(t) ==> WellFormed(r.state)
  {
    if f.id.Some? then Step(t, Failure(DetachedEntity))
    else if NumberTaken(t.flights, f.number) then Step(t, Failure(StoreConstraint))
    else
      var stored := f.(id := Some(t.nextId));
      Step(t.(flights := t.flights[t.nextId := stored], nextId := t.nextId + 1), Success(stored))
  }

  method Create(db: Database, f: Flight) returns (r: Result<Flight, Error>)
    requires db.Valid()
    modifies db
    ensures db.Valid()
    ensures Step(db.State(), r) == CreateStep(old(db.State()), f)
  {
    if f.id.Some? {
      return Failure(DetachedEntity);
    }
    if exists k | k in db.flights :: db.flights[k].number == f.number {
      return Failure(StoreConstraint);
    }
    var stored := f.(id := Some(db.nextId));
    db.flights := db.flights[db.nextId := stored];
    db.nextId := db.nextId + 1;
    r := Success(stored);
  }

  /** The bookings that do not reference the flight stored under `k`. */
  function Unbooked(bookings: map<Id, Booking>, k: Id): (r: map<Id, Booking>)
    ensures forall b | b in r :: b in bookings && r[b] == bookings[b] && r[b].flight.id != Some(k)
    ensures forall b | b in bookings && bookings[b].flight.id != Some(k) :: b in r
  {
    Where(bookings, (b: Booking) => b.flight.id != Some(k))
  }

  /** `delete` (`em.remove(em.merge(f))`): a flight without an id, or whose id is
      not stored, leaves the store as it is; a stored flight is removed together
      with every booking that references it (`orphanRemoval`). The argument is
      returned. */
  function DeleteStep(t: Tables, f: Flight): (r: Step<Flight>)
    ensures r.result == Success(f)
    ensures !(f.id.Some? && f.id.value in t.flights) ==> r.state == t
    ensures f.id.Some? && f.id.value in t.flights ==>
      r.state == t.(flights := t.flights - {f.id.value}, bookings := Unbooked(t.bookings, f.id.value))
    ensures f.id.Some? && f.id.value in t.flights ==>
      (forall b | b in r.state.bookings :: r.state.bookings[b].flight.id != f.id) &&
      (forall b | b in t.bookings && t.bookings[b].flight.id != f.id ::
         b in r.state.bookings && r.state.bookings[b] == t.bookings[b])
    ensures WellFormed(t) ==> WellFormed(r.state)
  {
    if f.id.None? || f.id.value !in t.flights then Step(t, Success(f))
    else
      var k := f.id.value;
      Step(t.(flights := t.flights - {k}, bookings := Unbooked(t.bookings, k)), Success(f))
  }

  method Delete(db: Database, f: Flight) returns (r: Result<Flight, Error>)
    requires db.Valid()
    modifies db
    ensures db.Valid()
    ensures Step(db.State(), r) == DeleteStep(old(db.State()), f)
  {
    if f.id.Some? && f.id.value in db.flights {
      var k := f.id.value;
      db.bookings := Unbooked(db.bookings, k);
      db.flights := db.flights - {k};
    }
    r := Success(f);
  }
}
