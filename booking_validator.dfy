/** `BookingValidator`, whose class is not part of this model: a check of a
    booking against the store that returns or raises. The hypotheses below name
    what the lemmas and scenarios require of it. */
module BookingValidator {
  import opened Common
  import opened Bookings
  import opened Store
  import BookingRepository

  /** `BookingValidator.validate`, with the current day fixed inside it. */
  type Check = (Tables, Booking) -> Outcome<Error>

  /** It raises the bean violations of a booking, judged on day `now`, first. */
  ghost predicate ChecksConstraintsFirst(check: Check, now: Day)
  {
    forall t: Tables, b: Booking | Violations(b, now) != {} ::
      check(t, b) == Fail(ConstraintViolation(Violations(b, now)))
  }

  /** It raises `BookingExists` for a violation-free booking whose (flight, date)
      slot is already held. */
  ghost predicate RejectsTakenSlots(check: Check, now: Day)
  {
    forall t: Tables, b: Booking | Violations(b, now) == {} && BookingRepository.SlotTaken(t.bookings, b) ::
      check(t, b) == Fail(BookingExists)
  }

  /** It lets through a violation-free booking the store would accept. */
  ghost predicate AcceptsInsertable(check: Check, now: Day)
  {
    forall t: Tables, b: Booking | Violations(b, now) == {} && BookingRepository.Insertable(t, b) ::
      check(t, b) == Pass
  }
}
