/** `CustomerRepository`: the customer table's finders and its persist, merge and
    remove operations. */
module CustomerRepository {
  import opened Common
  import opened Customers
  import opened Store

  /** `findByEmail`: the customer whose email is exactly `email`; null when there
      is none, `NonUniqueResultException` when there are several. */
  function FindByEmail(customers: map<Id, Customer>, email: string): (r: Lookup<Customer>)
    ensures r.NoResult? <==> forall k | k in customers :: customers[k].email != email
    ensures r.NonUnique? <==>
      exists j, k | j in customers && k in customers ::
        j != k && customers[j].email == email && customers[k].email == email
    ensures r.Single? ==> r.value.email == email && r.value in customers.Values
  {
    Query(customers, (c: Customer) => c.email == email)
  }

  /** `findById`: the customer stored under `id`, or null. */
  function FindById(t: Tables, id: Id): (r: Option<Customer>)
    ensures r.Some? <==> id in t.customers
    ensures KeysAreIds(t) && r.Some? ==> r.value.id == Some(id)
  {
    if id in t.customers then Some(t.customers[id]) else None
  }

  /** `create` (`em.persist`): a customer that already carries an id is refused
      as detached; otherwise it is stored under a fresh id and returned with it. */
  function CreateStep(t: Tables, c: Customer): (r: Step<Customer>)
    ensures r.result.Failure? <==> c.id.Some?
    ensures r.result.Failure? ==> r.result == Failure(DetachedEntity) && r.state == t
    ensures r.result.Success? ==>
      r.result.value.id.Some? &&
      var k := r.result.value.id.value;
      r.result.value == c.(id := Some(k)) &&
      (KeysAreIds(t) ==> k !in t.customers) &&
      r.state == t.(customers := t.customers[k := r.result.value], nextId := r.state.nextId)
    ensures KeysAreIds(t) && r.result.Success? ==> |r.state.customers| == |t.customers| + 1
    ensures WellFormed(t) ==> WellFormed(r.state)
  {
    if c.id.Some? then Step(t, Failure(DetachedEntity))
    else
      var stored := c.(id := Some(t.nextId));
      Step(t.(customers := t.customers[t.nextId := stored], nextId := t.nextId + 1), Success(stored))
  }

  method Create(db: Database, c: Customer) returns (r: Result<Customer, Error>)
    requires db.Valid()
    modifies db
    ensures db.Valid()
    ensures Step(db.State(), r) == CreateStep(old(db.State()), c)
  {
    if c.id.Some? {
      return Failure(DetachedEntity);
    }
    var stored := c.(id := Some(db.nextId));
    db.customers := db.customers[db.nextId := stored];
    db.nextId := db.nextId + 1;
    r := Success(stored);
  }

  /** `update` (`em.merge`): a customer whose id is stored replaces that row;
      any other customer is copied in under a fresh id. Either way the argument
      itself is returned. */
  function UpdateStep(t: Tables, c: Customer): (r: Step<Customer>)
    ensures r.result == Success(c)
    ensures r.state.flights == t.flights && r.state.bookings == t.bookings
    ensures c.id.Some? && c.id.value in t.customers ==>
      r.state == t.(customers := t.customers[c.id.value := c])
    ensures !(c.id.Some? && c.id.value in t.customers) ==>
      var k := t.nextId;
      (KeysAreIds(t) ==> k !in t.customers) &&
      r.state == t.(customers := t.customers[k := c.(id := Some(k))], nextId := k + 1)
    ensures WellFormed(t) ==> WellFormed(r.state)
  {
    if c.id.Some? && c.id.value in t.customers then
      Step(t.(customers := t.customers[c.id.value := c]), Success(c))
    else
      var k := t.nextId;
      Step(t.(customers := t.customers[k := c.(id := Some(k))], nextId := k + 1), Success(c))
  }

  method Update(db: Database, c: Customer) returns (r: Result<Customer, Error>)
    requires db.Valid()
    modifies db
    ensures db.Valid()
    ensures Step(db.State(), r) == UpdateStep(old(db.State()), c)
  {
    if c.id.Some? && c.id.value in db.customers {
      db.customers := db.customers[c.id.value := c];
    } else {
      var k := db.nextId;
      db.customers := db.customers[k := c.(id := Some(k))];
      db.nextId := k + 1;
    }
    r := Success(c);
  }

  /** Whether some stored booking references the customer stored under `k`. */
  predicate Booked(t: Tables, k: Id)
  {
    exists b | b in t.bookings :: t.bookings[b].customer.id == Some(k)
  }

  /** `delete` (`em.remove(em.merge(c))`): a customer without an id, or whose id
      is not stored, leaves the store as it is; a stored customer is removed,
      unless a booking still references it, which the booking table's foreign
      key refuses. The argument is returned. */
  function DeleteStep(t: Tables, c: Customer): (r: Step<Customer>)
    ensures c.id.None? ==> r == Step(t, Success(c))
    ensures r.result.Failure? <==> c.id.Some? && c.id.value in t.customers && Booked(t, c.id.value)
    ensures r.result.Failure? ==> r.result.error == StoreConstraint && r.state == t
    ensures r.result.Success? ==>
      r.result.value == c &&
      r.state == t.(customers := t.customers - (if c.id.Some? then {c.id.value} else {}))
    ensures WellFormed(t) ==> WellFormed(r.state)
  {
    if c.id.None? || c.id.value !in t.customers then Step(t, Success(c))
    else if Booked(t, c.id.value) then Step(t, Failure(StoreConstraint))
    else Step(t.(customers := t.customers - {c.id.value}), Success(c))
  }

  method Delete(db: Database, c: Customer) returns (r: Result<Customer, Error>)
    requires db.Valid()
    modifies db
    ensures db.Valid()
    ensures Step(db.State(), r) == DeleteStep(old(db.State()), c)
  {
    if c.id.None? || c.id.value !in db.customers {
      return Success(c);
    }
    var k := c.id.value;
    if exists b | b in db.bookings :: db.bookings[b].customer.id == Some(k) {
      return Failure(StoreConstraint);
    }
    db.customers := db.customers - {k};
    r := Success(c);
  }
}
