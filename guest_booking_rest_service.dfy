/** `GuestBookingRestService.createGuestBooking`: a new customer and a booking
    for it, stored together inside one user transaction, rolled back when
    either create or the commit fails. */
module GuestBookingRestService {
  import opened Common
  import opened Customers
  import opened Bookings
  import opened Store
  import opened Responses
  import opened Transaction
  import CustomerValidator
  import CustomerService
  import BookingService
  import BookingValidator
  import BookingRepository

  /** The answer for an exception caught inside the transaction. */
  function FailureResponse(e: Error): (r: Response<Booking>)
    ensures r.Conflict? <==> e == CustomerExists || e == BookingExists
    ensures r.NotFound? <==> e == FlightInvalid
    ensures r.BadRequest? <==> e.ConstraintViolation?
    ensures r.BadRequest? ==> r.fields == Fields(e.violations)
    ensures r.Conflict? || r.NotFound? ==> r.fields == {}
    ensures r.Conflict? || r.NotFound? || r.BadRequest? || r.ServerError?
  {
    match e
    case CustomerExists => Conflict({})
    case BookingExists => Conflict({})
    case FlightInvalid => NotFound({})
    case ConstraintViolation(vs) => BadRequest(Fields(vs))
    case _ => ServerError
  }

  /** The two creates inside the transaction: the customer first, then the
      booking, which by then refers to the stored customer. */
  function Work(t: Tables, bean: CustomerBean, check: BookingValidator.Check, b: Booking): (r: Step<Booking>)
    ensures r.result.Success? ==>
      var c := r.result.value.customer;
      c.id.Some? && c == b.customer.(id := c.id) &&
      r.result.value == b.(customer := c, id := r.result.value.id)
    ensures WellFormed(t) && r.result.Success? ==>
      var booking := r.result.value;
      var c := booking.customer;
      booking.id.Some? && c.id.value !in t.customers && booking.id.value !in t.bookings &&
      r.state == t.(customers := t.customers[c.id.value := c],
                    bookings := t.bookings[booking.id.value := booking],
                    nextId := r.state.nextId)
    ensures WellFormed(t) ==> WellFormed(r.state)
  {
    var created := CustomerService.CreateStep(t, bean, b.customer);
    match created.result
    case Failure(e) => Step(created.state, Failure(e))
    case Success(c) => BookingService.CreateStep(created.state, check, b.(customer := c))
  }

  /** The whole call: the store it leaves, its answer, and the transaction it
      leaves behind. A failed `rollback` leaves the transaction open over the
      partial work. */
  datatype Reply = Reply(state: Tables, response: Response<Booking>, status: Status)

  function Guest(t: Tables, bean: CustomerBean, check: BookingValidator.Check, request: Option<Booking>,
                 commitFault: bool, rollbackFault: bool): (r: Reply)
    // a missing guest booking, booking or customer never opens a transaction
    ensures request.None? ==> r == Reply(t, BadRequest({}), NoTransaction)
    // 201 exactly when both creates and the commit succeed
    ensures r.response.Created? <==>
      request.Some? && Work(t, bean, check, request.value).result.Success? && !commitFault
    // all or nothing, unless rollback itself fails: a new customer and a booking
    // that refers to it, or the store exactly as it was
    ensures WellFormed(t) && r.response.Created? ==>
      var booking := r.response.entity;
      var c := booking.customer;
      c.id.Some? && booking.id.Some? &&
      c.id.value !in t.customers && booking.id.value !in t.bookings &&
      c == request.value.customer.(id := c.id) &&
      booking == request.value.(customer := c, id := booking.id) &&
      r.state == t.(customers := t.customers[c.id.value := c],
                    bookings := t.bookings[booking.id.value := booking],
                    nextId := r.state.nextId)
    // a create that failed and was rolled back: the answer its exception maps to
    ensures request.Some? && Work(t, bean, check, request.value).result.Failure? && !rollbackFault ==>
      r.response == FailureResponse(Work(t, bean, check, request.value).result.error)
    // a failed commit: 500, and nothing of the work is kept
    ensures request.Some? && Work(t, bean, check, request.value).result.Success? && commitFault ==>
      r == Reply(t, ServerError, NoTransaction)
    // a failed rollback: 500, with the partial work left in the open transaction
    ensures request.Some? && Work(t, bean, check, request.value).result.Failure? && rollbackFault ==>
      r == Reply(Work(t, bean, check, request.value).state, ServerError, Active(t))
    ensures !rollbackFault ==> r.status == NoTransaction
    ensures !rollbackFault && !r.response.Created? ==> r.state == t
    ensures WellFormed(t) ==> WellFormed(r.state)
  {
    match request
    case None => Reply(t, BadRequest({}), NoTransaction)
    case Some(b) =>
      var w := Work(t, bean, check, b);
      if w.result.Success? then
        if commitFault then Reply(t, ServerError, NoTransaction)
        else Reply(w.state, Created(w.result.value), NoTransaction)
      else if rollbackFault then Reply(w.state, ServerError, Active(t))
      else Reply(t, FailureResponse(w.result.error), NoTransaction)
  }

  method CreateGuestBooking(db: Database, tx: UserTransaction, bean: CustomerBean, check: BookingValidator.Check,
                            request: Option<Booking>, commitFault: bool, rollbackFault: bool)
    returns (r: Response<Booking>)
    requires tx.db == db && tx.status == NoTransaction && db.Valid()
    modifies db, tx
    ensures db.Valid() && tx.Valid()
    ensures Reply(db.State(), r, tx.status) ==
      Guest(old(db.State()), bean, check, request, commitFault, rollbackFault)
  {
    if request.None? {
      return BadRequest({});
    }
    var b := request.value;
    tx.Begin();
    var failure: Error;
    var c := CustomerService.Create(db, bean, b.customer);
    if c.Success? {
      var s := BookingService.Create(db, check, b.(customer := c.value));
      if s.Success? {
        var committed := tx.Commit(commitFault);
        if committed {
          return Created(s.value);
        }
        failure := TransactionFailure;
      } else {
        failure := s.error;
      }
    } else {
      failure := c.error;
    }
    var rolledBack := tx.Rollback(rollbackFault);
    if rolledBack != RolledBack {
      return ServerError;
    }
    r := FailureResponse(failure);
  }

  /** A guest whose email is already stored gets 409, and nothing is stored. */
  lemma KnownEmailConflicts(t: Tables, bean: CustomerBean, check: BookingValidator.Check, b: Booking,
                            commitFault: bool, k: Id)
    requires EqualWhenEmailsMatch(bean) && bean.violations(b.customer) == {}
    requires k in t.customers && t.customers[k].email == b.customer.email
    ensures Guest(t, bean, check, Some(b), commitFault, false) == Reply(t, Conflict({}), NoTransaction)
  {
    CustomerService.DuplicateEmailConflicts(t, bean, b.customer, k);
  }

  /** A booking of a taken (flight, date) slot gets 409, and the customer created
      for it is rolled back. */
  lemma TakenSlotConflicts(t: Tables, bean: CustomerBean, check: BookingValidator.Check, now: Day,
                           b: Booking, commitFault: bool)
    requires BookingValidator.RejectsTakenSlots(check, now)
    requires CustomerService.CreateStep(t, bean, b.customer).result.Success?
    requires Violations(b, now) == {} && BookingRepository.SlotTaken(t.bookings, b)
    ensures Guest(t, bean, check, Some(b), commitFault, false) == Reply(t, Conflict({}), NoTransaction)
  {
    var created := CustomerService.CreateStep(t, bean, b.customer);
    var b' := b.(customer := created.result.value);
    assert Violations(b', now) == Violations(b, now);
    var k :| k in t.bookings && Slot(t.bookings[k]) == Slot(b);
    assert created.state.bookings == t.bookings;
    assert BookingRepository.SlotTaken(created.state.bookings, b');
  }

  /** A booking date that is not in the future gets 400 naming `bookingDate`,
      and the customer created for it is rolled back. */
  lemma PastDateRefused(t: Tables, bean: CustomerBean, check: BookingValidator.Check, now: Day,
                        b: Booking, commitFault: bool)
    requires BookingValidator.ChecksConstraintsFirst(check, now)
    requires CustomerService.CreateStep(t, bean, b.customer).result.Success?
    requires b.bookingDate.Some? && b.bookingDate.value <= now
    ensures Guest(t, bean, check, Some(b), commitFault, false) == Reply(t, BadRequest({"bookingDate"}), NoTransaction)
  {
    var created := CustomerService.CreateStep(t, bean, b.customer);
    var b' := b.(customer := created.result.value);
    assert Violations(b', now) == {Violation("bookingDate", "Future")};
    assert Fields({Violation("bookingDate", "Future")}) == {"bookingDate"};
  }
}
