/** Client runs against an empty store, as the endpoint tests drive the system. */
module Scenarios {
  import opened Common
  import opened Customers
  import opened Flights
  import opened Bookings
  import opened Store
  import CustomerService
  import FlightService
  import FlightRepository
  import BookingService
  import BookingRepository
  import BookingValidator

  /** Flight GR999 is created once; the second attempt is a duplicate. */
  method FlightNumberTwice() returns (first: Result<Flight, Error>, second: Result<Flight, Error>)
    ensures first.Success? && first.value.number == "GR999" && first.value.id.Some?
    ensures second == Failure(FlightExists)
  {
    var db := new Database();
    var gr999 := Flight(None, "GR999", "NCL", "ATH");
    ValidTestFlight();
    first := FlightService.Create(db, gr999);
    second := FlightService.Create(db, gr999);
  }

  /** A customer registers; a second one with the same email is refused. */
  method Register(db: Database, bean: CustomerBean, guest: Customer, other: Customer)
    returns (registered: Result<Customer, Error>, refused: Result<Customer, Error>)
    requires db.Valid()
    requires EqualWhenEmailsMatch(bean)
    requires guest.id.None? && other.id.None? && other.email == guest.email
    requires bean.violations(guest) == {} && bean.violations(other) == {}
    requires db.customers == map[]
    modifies db
    ensures db.Valid()
    ensures registered.Success? && registered.value.id.Some?
    ensures db.customers == map[registered.value.id.value := registered.value]
    ensures refused == Failure(CustomerExists)
    ensures db.flights == old(db.flights) && db.bookings == old(db.bookings)
  {
    registered := CustomerService.Create(db, bean, guest);
    assert registered.Success?;
    CustomerService.DuplicateEmailConflicts(db.State(), bean, other, registered.value.id.value);
    refused := CustomerService.Create(db, bean, other);
  }

  /** A valid flight is created in a store without flights. */
  method OpenFlight(db: Database, route: Flight) returns (flight: Result<Flight, Error>)
    requires db.Valid()
    requires route.id.None? && Flights.Violations(route) == {}
    requires db.flights == map[]
    modifies db
    ensures db.Valid()
    ensures flight.Success? && flight.value.id.Some?
    ensures db.flights == map[flight.value.id.value := flight.value]
    ensures db.customers == old(db.customers) && db.bookings == old(db.bookings)
  {
    flight := FlightService.Create(db, route);
  }

  /** A stored customer books a stored flight for tomorrow; the same booking
      again is refused. */
  method BookTwice(db: Database, check: BookingValidator.Check, now: Day, c: Customer, f: Flight)
    returns (booked: Result<Booking, Error>, again: Result<Booking, Error>)
    requires db.Valid()
    requires BookingValidator.AcceptsInsertable(check, now)
    requires BookingValidator.RejectsTakenSlots(check, now)
    requires c.id.Some? && c.id.value in db.customers
    requires f.id.Some? && f.id.value in db.flights
    requires db.bookings == map[]
    modifies db
    ensures db.Valid()
    ensures booked.Success? && booked.value.id.Some? && booked.value.id.value in db.bookings
    ensures db.bookings[booked.value.id.value].flight == f
    ensures again == Failure(BookingExists)
  {
    var booking := Booking(None, c, f, Some(now + 1));
    booked := BookingService.Create(db, check, booking);
    assert booked.Success?;
    var k := booked.value.id.value;
    assert Slot(db.bookings[k]) == Slot(booking);
    again := BookingService.Create(db, check, booking);
  }

  /** The lifecycle of a booking, from an empty store: registration, a
      duplicate registration, a flight, a booking, a duplicate booking, and the
      flight's deletion, after which its booking is gone too. */
  method BookingLifecycle(bean: CustomerBean, check: BookingValidator.Check, now: Day,
                          guest: Customer, other: Customer, route: Flight)
    returns (registered: Result<Customer, Error>, refused: Result<Customer, Error>,
             flight: Result<Flight, Error>, booked: Result<Booking, Error>,
             again: Result<Booking, Error>, afterDelete: Option<Booking>)
    requires EqualWhenEmailsMatch(bean)
    requires guest.id.None? && other.id.None? && other.email == guest.email
    requires bean.violations(guest) == {} && bean.violations(other) == {}
    requires route.id.None? && Flights.Violations(route) == {}
    requires BookingValidator.AcceptsInsertable(check, now)
    requires BookingValidator.RejectsTakenSlots(check, now)
    ensures registered.Success? && refused == Failure(CustomerExists)
    ensures flight.Success? && booked.Success? && again == Failure(BookingExists)
    ensures booked.value.id.Some? && afterDelete == None
  {
    var db := new Database();
    registered, refused := Register(db, bean, guest, other);
    flight := OpenFlight(db, route);
    booked, again := BookTwice(db, check, now, registered.value, flight.value);
    var removed := FlightRepository.Delete(db, flight.value);
    afterDelete := BookingRepository.FindById(db.State(), booked.value.id.value);
  }
}
