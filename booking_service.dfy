/** `BookingService`: the booking check, then persist. Its `findById`,
    `findByCustomer`, `findByFlight` and `delete` hand the call to the
    repository unchanged (`BookingRepository.FindById`,
    `BookingRepository.FindByCustomer`, `BookingRepository.FindByFlight`,
    `BookingRepository.Delete`). */
module BookingService {
  import opened Common
  import opened Bookings
  import opened Store
  import BookingValidator
  import BookingRepository

  /** `create`: the booking check, then `BookingRepository.create`. */
  function CreateStep(t: Tables, check: BookingValidator.Check, b: Booking): (r: Step<Booking>)
    ensures r.result.Failure? ==> r.state == t
    ensures check(t, b).Fail? ==> r.result == Failure(check(t, b).error)
    ensures r.result.Success? <==> check(t, b).Pass? && b.id.None? && BookingRepository.Insertable(t, b)
    ensures r.result.Success? ==> r == BookingRepository.CreateStep(t, b)
    ensures WellFormed(t) ==> WellFormed(r.state)
  {
    match check(t, b)
    case Fail(e) => Step(t, Failure(e))
    case Pass => BookingRepository.CreateStep(t, b)
  }

  method Create(db: Database, check: BookingValidator.Check, b: Booking) returns (r: Result<Booking, Error>)
    requires db.Valid()
    modifies db
    ensures db.Valid()
    ensures Step(db.State(), r) == CreateStep(old(db.State()), check, b)
  {
    var v := check(db.State(), b);
    if v.Fail? {
      return Failure(v.error);
    }
    r := BookingRepository.Create(db, b);
  }

  /** A second booking of the same flight on the same date is refused whatever
      the check does, since the store's unique key backs it; a check that
      rejects taken slots reports it as `BookingExists`. */
  lemma SecondBookingRefused(t: Tables, check: BookingValidator.Check, now: Day, b: Booking, b': Booking)
    requires CreateStep(t, check, b).result.Success?
    requires Slot(b') == Slot(b)
    ensures var s := CreateStep(t, check, b).state;
      CreateStep(s, check, b').result.Failure? &&
      CreateStep(s, check, b').state == s &&
      (BookingValidator.RejectsTakenSlots(check, now) && Violations(b', now) == {} ==>
         CreateStep(s, check, b').result == Failure(BookingExists))
  {
    var created := CreateStep(t, check, b);
    var k := created.result.value.id.value;
    assert Slot(created.state.bookings[k]) == Slot(b');
    assert BookingRepository.SlotTaken(created.state.bookings, b');
  }
}
