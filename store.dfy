/** The persistent store behind the three repositories: one table per record
    kind, keyed by generated id, and the identity counter. The constraints the
    record classes declare on their tables are the store's invariant. */
module Store {
  import opened Common
  import opened Customers
  import opened Flights
  import opened Bookings

  datatype Tables = Tables(
    customers: map<Id, Customer>,
    flights: map<Id, Flight>,
    bookings: map<Id, Booking>,
    nextId: Id)

  /** What a store operation leaves behind: the new tables and what it returned
      or raised. */
  datatype Step<+T> = Step(state: Tables, result: Result<T, Error>)

  /** The empty store. */
  function Empty(): Tables
  {
    Tables(map[], map[], map[], 0)
  }

  /** Every row is stored under its own generated id, and the counter is past
      every id handed out. */
  ghost predicate KeysAreIds(t: Tables)
  {
    (forall k | k in t.customers :: t.customers[k].id == Some(k) && k < t.nextId) &&
    (forall k | k in t.flights :: t.flights[k].id == Some(k) && k < t.nextId) &&
    (forall k | k in t.bookings :: t.bookings[k].id == Some(k) && k < t.nextId)
  }

  /** The unique constraint on the `number` column of the flight table. */
  predicate NumbersUnique(flights: map<Id, Flight>)
  {
    forall j, k | j in flights && k in flights && flights[j].number == flights[k].number :: j == k
  }

  /** The (flight_id, booking_date) key of a booking. */
  function Slot(b: Booking): (Option<Id>, Option<Day>)
  {
    (b.flight.id, b.bookingDate)
  }

  /** The unique constraint on the `flight_id` and `booking_date` columns of the
      booking table. */
  predicate SlotsUnique(bookings: map<Id, Booking>)
  {
    forall j, k | j in bookings && k in bookings && Slot(bookings[j]) == Slot(bookings[k]) :: j == k
  }

  /** The booking columns: `booking_date` is not null, and `flight_id` and
      `customer_id` are foreign keys to stored rows. */
  predicate Referenced(t: Tables)
  {
    forall k | k in t.bookings ::
      t.bookings[k].bookingDate.Some? &&
      t.bookings[k].flight.id.Some? && t.bookings[k].flight.id.value in t.flights &&
      t.bookings[k].customer.id.Some? && t.bookings[k].customer.id.value in t.customers
  }

  ghost predicate WellFormed(t: Tables)
  {
    KeysAreIds(t) && NumbersUnique(t.flights) && SlotsUnique(t.bookings) && Referenced(t)
  }

  /** The persistence context all repositories share. */
  class Database {
    var customers: map<Id, Customer>
    var flights: map<Id, Flight>
    var bookings: map<Id, Booking>
    var nextId: Id

    function State(): Tables
      reads this
    {
      Tables(customers, flights, bookings, nextId)
    }

    ghost predicate Valid()
      reads this
    {
      WellFormed(State())
    }

    constructor ()
      ensures State() == Empty()
      ensures Valid()
    {
      customers, flights, bookings, nextId := map[], map[], map[], 0;
    }
  }
}
