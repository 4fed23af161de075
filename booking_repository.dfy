/** `BookingRepository`: the booking table's finders and its persist and remove
    operations. */
module BookingRepository {
  import opened Common
  import opened Customers
  import opened Flights
  import opened Bookings
  import opened Store

  /** `findById`: the booking stored under `id`, or null. */
  function FindById(t: Tables, id: Id): (r: Option<Booking>)
    ensures r.Some? <==> id in t.bookings
    ensures KeysAreIds(t) && r.Some? ==> r.value.id == Some(id)
  {
    if id in t.bookings then Some(t.bookings[id]) else None
  }

  /** `findByCustomer`: the bookings whose customer id is the id of `c`. A
      customer without an id matches nothing, since `= null` never holds. */
  function FindByCustomer(bookings: map<Id, Booking>, c: Customer): (r: map<Id, Booking>)
    ensures forall b | b in r ::
      b in bookings && r[b] == bookings[b] && c.id.Some? && r[b].customer.id == c.id
    ensures forall b | b in bookings && c.id.Some? && bookings[b].customer.id == c.id :: b in r
  {
    Where(bookings, (b: Booking) => c.id.Some? && b.customer.id == c.id)
  }

  /** `findByFlight`: the booking of flight `f` on `date`; null when there is none
      (always so when the flight has no id or the date is null),
      `NonUniqueResultException` when there are several. */
  function FindByFlight(bookings: map<Id, Booking>, f: Flight, date: Option<Day>): (r: Lookup<Booking>)
    ensures f.id.None? || date.None? ==> r.NoResult?
    ensures f.id.Some? && date.Some? ==>
      (r.NoResult? <==> forall b | b in bookings :: Slot(bookings[b]) != (f.id, date))
    ensures SlotsUnique(bookings) ==> !r.NonUnique?
    ensures r.Single? ==> Slot(r.value) == (f.id, date) && r.value in bookings.Values
  {
    Query(bookings, (b: Booking) => f.id.Some? && date.Some? && Slot(b) == (f.id, date))
  }

  /** Whether a stored booking already holds the (flight, date) slot of `b`. */
  predicate SlotTaken(bookings: map<Id, Booking>, b: Booking)
  {
    exists k | k in bookings :: Slot(bookings[k]) == Slot(b)
  }

  /** What the booking table's columns demand of a new row: a date, stored
      flight and customer rows, and a free (flight, date) slot. */
  predicate Insertable(t: Tables, b: Booking)
  {
    b.bookingDate.Some? &&
    b.flight.id.Some? && b.flight.id.value in t.flights &&
    b.customer.id.Some? && b.customer.id.value in t.customers &&
    !SlotTaken(t.bookings, b)
  }

  /** `create` (`em.persist`): a booking that already carries an id is refused as
      detached, one the table's constraints reject is refused by the store;
      otherwise it is stored under a fresh id and returned with it. */
  function CreateStep(t: Tables, b: Booking): (r: Step<Booking>)
    ensures r.result.Failure? <==> b.id.Some? || !Insertable(t, b)
    ensures r.result.Failure? ==>
      r.state == t &&
      r.result.error == (if b.id.Some? then DetachedEntity else StoreConstraint)
    ensures r.result.Success? ==>
      r.result.value.id.Some? &&
      var k := r.result.value.id.value;
      r.result.value == b.(id := Some(k)) &&
      (KeysAreIds(t) ==> k !in t.bookings) &&
      r.state == t.(bookings := t.bookings[k := r.result.value], nextId := r.state.nextId)
    ensures WellFormed(t) ==> WellFormed(r.state)
  {
    if b.id.Some? then Step(t, Failure(DetachedEntity))
    else if !Insertable(t, b) then Step(t, Failure(StoreConstraint))
    else
      var stored := b.(id := Some(t.nextId));
      Step(t.(bookings := t.bookings[t.nextId := stored], nextId := t.nextId + 1), Success(stored))
  }

  method Create(db: Database, b: Booking) returns (r: Result<Booking, Error>)
    requires db.Valid()
    modifies db
    ensures db.Valid()
    ensures Step(db.State(), r) == CreateStep(old(db.State()), b)
  {
    if b.id.Some? {
      return Failure(DetachedEntity);
    }
    if !Insertable(db.State(), b) {
      return Failure(StoreConstraint);
    }
    var stored := b.(id := Some(db.nextId));
    db.bookings := db.bookings[db.nextId := stored];
    db.nextId := db.nextId + 1;
    r := Success(stored);
  }

  /** Adding a row under a new key adds it to the bookings of its own customer
      and to no other customer's. */
  lemma CountAfterInsert(bookings: map<Id, Booking>, k: Id, stored: Booking, c: Customer)
    requires k !in bookings
    ensures |FindByCustomer(bookings[k := stored], c)| ==
      |FindByCustomer(bookings, c)| + (if c.id.Some? && stored.customer.id == c.id then 1 else 0)
  {
    var before := FindByCustomer(bookings, c);
    var after := FindByCustomer(bookings[k := stored], c);
    if c.id.Some? && stored.customer.id == c.id {
      assert after == before[k := stored];
    } else {
      assert after == before;
    }
  }

  /** A booking stored for customer `b.customer` counts once more among that
      customer's bookings and leaves every other customer's bookings as they
      were. */
  lemma CreateCountsForItsCustomer(t: Tables, b: Booking, c: Customer)
    requires WellFormed(t) && CreateStep(t, b).result.Success?
    ensures |FindByCustomer(CreateStep(t, b).state.bookings, c)| ==
      |FindByCustomer(t.bookings, c)| + (if c.id.Some? && c.id == b.customer.id then 1 else 0)
  {
    var s := CreateStep(t, b);
    var stored := s.result.value;
    CountAfterInsert(t.bookings, stored.id.value, stored, c);
  }

  /** `delete` (`em.remove(em.merge(b))`): a booking without an id, or whose id
      is not stored, leaves the store as it is; otherwise exactly that booking
      is removed, its customer and flight stay. The argument is returned. */
  function DeleteStep(t: Tables, b: Booking): (r: Step<Booking>)
    ensures r.result == Success(b)
    ensures r.state.customers == t.customers && r.state.flights == t.flights
    ensures r.state.nextId == t.nextId
    ensures b.id.None? ==> r.state == t
    ensures b.id.Some? ==> r.state.bookings == t.bookings - {b.id.value}
    ensures WellFormed(t) ==> WellFormed(r.state)
  {
    if b.id.None? then Step(t, Success(b))
    else Step(t.(bookings := t.bookings - {b.id.value}), Success(b))
  }

  method Delete(db: Database, b: Booking) returns (r: Result<Booking, Error>)
    requires db.Valid()
    modifies db
    ensures db.Valid()
    ensures Step(db.State(), r) == DeleteStep(old(db.State()), b)
  {
    if b.id.Some? {
      db.bookings := db.bookings - {b.id.value};
    }
    r := Success(b);
  }
}
