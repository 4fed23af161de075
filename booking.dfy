/** The booking record: a customer, a flight and a date that must lie in the
    future; two bookings are the same booking when flight and date agree. */
module Bookings {
  import opened Common
  import opened Customers
  import Flights

  /** The constructor `Booking(customer, flight, date)` leaves the id unset. The
      referenced customer and flight are held as the records they were when the
      booking was made; their ids are what the store keeps as foreign keys. */
  datatype Booking = Booking(
    id: Option<Id>,
    customer: Customer,
    flight: Flights.Flight,
    bookingDate: Option<Day>)

  /** The not-null and future-date constraints on `bookingDate`, judged against
      the current day `now`. */
  function Violations(b: Booking, now: Day): (vs: set<Violation>)
    ensures vs == {} <==> b.bookingDate.Some? && b.bookingDate.value > now
  {
    match b.bookingDate
    case None => {Violation("bookingDate", "NotNull")}
    case Some(d) => if d > now then {} else {Violation("bookingDate", "Future")}
  }

  /** `equals`: same date and `equals` flights; id and customer play no part. A
      booking without a date throws on `equals`, hence the precondition. */
  predicate Equals(a: Booking, b: Booking)
    requires a.bookingDate.Some?
  {
    a.bookingDate == b.bookingDate && Flights.Equals(a.flight, b.flight)
  }

  /** The natural key: (flight, date) with flight compared by `equals`, so id and
      customer do not matter, and the relation is an equivalence. */
  lemma EqualsIsNaturalKey(a: Booking, b: Booking, c: Booking, id: Option<Id>, customer: Customer)
    requires a.bookingDate.Some? && b.bookingDate.Some?
    ensures Equals(a, a)
    ensures Equals(a, b) ==> Equals(b, a)
    ensures Equals(a, b) && Equals(b, c) ==> Equals(a, c)
    ensures Equals(a, b) <==> Equals(a.(id := id, customer := customer), b)
  {
    Flights.EqualsIsEquivalence(a.flight, b.flight, c.flight);
    Flights.EqualsIsEquivalence(b.flight, a.flight, c.flight);
  }

  /** `hashCode`: 17, times 31 plus the hash of the date, times 31 plus the hash
      of the flight, in 32-bit arithmetic (read as unsigned). `Date.hashCode` is
      not part of this model and is given as `dateHash`. */
  function HashCode(b: Booking, dateHash: Day -> nat): (h: nat)
    requires b.bookingDate.Some?
    ensures h < 0x1_0000_0000
  {
    ((17 * 31 + dateHash(b.bookingDate.value)) * 31 + Flights.HashCode(b.flight)) % 0x1_0000_0000
  }

  /** As for flights, equal bookings need not hash alike: the flight's hash is
      case-sensitive while `equals` on flights is not. */
  lemma EqualBookingsMayHashApart(dateHash: Day -> nat, d: Day, c: Customer)
    ensures Equals(Booking(None, c, Flights.Flight(None, "GR999", "NCL", "ATH"), Some(d)),
                   Booking(None, c, Flights.Flight(None, "gr999", "NCL", "ATH"), Some(d)))
    ensures HashCode(Booking(None, c, Flights.Flight(None, "GR999", "NCL", "ATH"), Some(d)), dateHash) !=
            HashCode(Booking(None, c, Flights.Flight(None, "gr999", "NCL", "ATH"), Some(d)), dateHash)
  {
    var upper := Booking(None, c, Flights.Flight(None, "GR999", "NCL", "ATH"), Some(d));
    var lower := Booking(None, c, Flights.Flight(None, "gr999", "NCL", "ATH"), Some(d));
    Flights.EqualsWithoutEqualHash();
    var base := (17 * 31 + dateHash(d)) * 31;
    SumsApart(base, Flights.HashCode(upper.flight), Flights.HashCode(lower.flight));
  }

  /** Adding two different 32-bit values to the same number gives different
      32-bit results. */
  lemma SumsApart(base: int, a: nat, b: nat)
    requires a < 0x1_0000_0000 && b < 0x1_0000_0000 && a != b
    ensures (base + a) % 0x1_0000_0000 != (base + b) % 0x1_0000_0000
  {
  }
}
