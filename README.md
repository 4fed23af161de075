# Flight booking middleware — a Dafny model

This project models the validate-then-persist core of a flight booking
service built on Java EE. The service has three records: customers, flights and
bookings of a customer on a flight for a day. Each record has a repository over
a JPA store, a validator that runs bean validation and then a duplicate check
on the natural key, and a service that validates and then persists, merges or
removes. On top of these sit two REST endpoints:
- a guest-booking endpoint that creates a customer and a booking inside one
  user transaction;
- the customer endpoint, with guards on get, create, update and delete.

The model is built as follows.

- **Store.** It is `Store.Tables`: one map per table, from a generated id to a
  record, plus the identity counter. `Store.Database` is the mutable persistence
  context that the repository and service methods change. The constraints the
  record classes declare are the store's invariant, `Store.WellFormed`:
  - flight numbers are unique;
  - the (flight, date) slot of a booking is unique;
  - a booking's date is not null;
  - a booking's foreign keys refer to stored rows;
  - every row is stored under its own id.
- **Operations.** Every mutating operation `X` has two parts:
  - a pure step function `XStep`, which gives the new tables and the returned
    value or raised exception;
  - a method `X` on the `Database`, proved to leave exactly the state and
    result that `XStep` describes and to keep the invariant.

  The properties are stated about the step functions, in their contracts and in
  lemmas.
- **Lookups.** A single-result query (`getSingleResult`) is `Common.Query`,
  whose answer is `NoResult`, `Single` or `NonUnique`.
- **Records.** Customer, flight and booking are values. A setter becomes a
  record update.
- **Unseen classes.** Some classes the core depends on are not part of this
  model: `Customer`'s bean constraints and `equals`, and `BookingValidator`.
  They are parameters, and the lemmas that need them state what they assume
  about them as named hypotheses:
  - `Customers.EqualWhenEmailsMatch`;
  - `BookingValidator.ChecksConstraintsFirst`;
  - `BookingValidator.RejectsTakenSlots`;
  - `BookingValidator.AcceptsInsertable`.
- **Dates and now.** A date is an integer day. The current day `now` is a
  parameter.
- **Transaction.** `Transaction.UserTransaction` is a class that holds the
  snapshot taken at `begin`.
- **Failures from outside.** Failures of commit and rollback are boolean
  parameters.

One inconsistency inside the code is modelled as written. `Flight.equals`
compares flight numbers ignoring case (flight/Flight.java:129), and
`flightAlreadyExists` uses it to compare the stored flight with the new one
(flight/FlightValidator.java:50-52). The stored flight, however, is fetched by
the named query `Flight.findByNumber`, which matches the number with an exact
`=` (flight/Flight.java:38). A stored flight that differs only in case is
therefore never fetched, and the case-insensitive comparison never sees it.
`FlightValidator.CaseVariantIsNotDuplicate` shows that `gr999` is `equals` to a
stored `GR999` and still passes validation. The store itself would also accept
it, because the unique constraint on `number` is modelled as exact equality.

## Model

| member | source | states |
|---|---|---|
| ConstraintValidatorHelper.IsValid | src/main/java/org/jboss/quickstarts/wfk/util/ConstraintValidatorHelper.java:45-74 | the verdict is `Holds`: in the IGNORE_CASE modes values are lower-cased first; EQUAL modes need at least one value and all equal, NOT_EQUAL modes need pairwise distinct values; the loop and set-size tests are proved to compute exactly that |
| ConstraintValidatorHelper.SingleValueIffAllEqual | src/main/java/org/jboss/quickstarts/wfk/util/ConstraintValidatorHelper.java:63-66 | the set of values has exactly one element iff the list is non-empty and all its values are equal (so an empty collection fails EQUAL) |
| ConstraintValidatorHelper.DistinctIffNoSmallerSet | src/main/java/org/jboss/quickstarts/wfk/util/ConstraintValidatorHelper.java:67-70 | the set of values is as large as the list iff the values are pairwise distinct |
| ConstraintValidatorHelper.ElementsBound | src/main/java/org/jboss/quickstarts/wfk/util/ConstraintValidatorHelper.java:65-69 | the set of values is never larger than the list |
| ConstraintValidatorHelper.OrderIndependent | src/main/java/org/jboss/quickstarts/wfk/util/ConstraintValidatorHelper.java:45-74 | any rearrangement of the values gives the same verdict, in every mode |
| ConstraintValidatorHelper.ConcatPropertyNames | src/main/java/org/jboss/quickstarts/wfk/util/ConstraintValidatorHelper.java:93-106 | succeeds iff there is at least one name and none is empty (otherwise `charAt(0)` or `delete` throws); the result is `[` + capitalised names joined by `, ` + `]` |
| ConstraintValidatorHelper.TerminatedIsJoinedThenSep | src/main/java/org/jboss/quickstarts/wfk/util/ConstraintValidatorHelper.java:96-103 | appending each name followed by the separator is the joined names followed by one separator, which the final `delete` strips |
| ConstraintValidatorHelper.ResolveMessage | src/main/java/org/jboss/quickstarts/wfk/util/ConstraintValidatorHelper.java:76-91 | the message is the bracketed names, ` should`, ` be equal` (EQUAL modes) or ` not be equal` (NOT_EQUAL modes), and `.`; it fails exactly when the names do |
| ConstraintValidatorHelper.FlightRuleNames | src/main/java/org/jboss/quickstarts/wfk/flight/Flight.java:42-44 | the flight's route rule names its properties as `[Departure, Destination]` |
| Common.Query | src/main/java/org/jboss/quickstarts/wfk/customer/CustomerRepository.java:22-31 | `getSingleResult`: no row iff nothing matches, non-unique iff two different rows match, otherwise the stored row that is the only match |
| Common.EqualsIgnoreCaseIsLowerEquality | src/main/java/org/jboss/quickstarts/wfk/flight/Flight.java:129 | `Common.EqualsIgnoreCase`, the model of `equalsIgnoreCase` over ASCII, holds iff the lower-cased strings are equal |
| Flights.ViolationFree | src/main/java/org/jboss/quickstarts/wfk/flight/Flight.java:42-73 | `Flights.Violations` (the bean constraints on number, departure and destination, and the route rule) is empty iff the number is 5 letters or digits, both airport codes are 3 upper-case letters, and the codes differ ignoring case |
| Flights.ViolationFreeWhenCodesDiffer | src/main/java/org/jboss/quickstarts/wfk/flight/Flight.java:42-73 | a well-formed number and airport codes whose first letters differ give no violations |
| Flights.ValidTestFlight | src/test/java/org/jboss/quickstarts/wfk/flight/FlightTest.java:83-93 | flight GR999 from NCL to ATH has no violations |
| Flights.InvalidTestFlights | src/test/java/org/jboss/quickstarts/wfk/flight/FlightTest.java:63-80 | an empty number, a 4-letter departure or destination, and the route NCL to NCL each raise their own violation |
| Flights.EqualsIsEquivalence | src/main/java/org/jboss/quickstarts/wfk/flight/Flight.java:124-131 | `Flights.Equals` (numbers equal ignoring case, nothing else compared) is reflexive, symmetric and transitive |
| Flights.StringHashCode | src/main/java/org/jboss/quickstarts/wfk/flight/Flight.java:133-136 | `String.hashCode` taken modulo 2^32 always fits in 32 bits |
| Flights.EqualsWithoutEqualHash | src/main/java/org/jboss/quickstarts/wfk/flight/Flight.java:124-136 | GR999 and gr999 are `Flights.Equals` yet `Flights.HashCode` (the number's `String.hashCode`) gives 68069454 and 98575438: the hash depends on the number's case, `equals` does not |
| Bookings.Violations | src/main/java/org/jboss/quickstarts/wfk/booking/Booking.java:64-68 | a booking has no violations iff its date is set and lies strictly after `now` |
| Bookings.EqualsIsNaturalKey | src/main/java/org/jboss/quickstarts/wfk/booking/Booking.java:110-120 | `Bookings.Equals` (same date and `equals` flights) is an equivalence and ignores id and customer |
| Bookings.HashCode | src/main/java/org/jboss/quickstarts/wfk/booking/Booking.java:122-128 | the hash built from 17, the date's hash and the flight's hash always fits in 32 bits |
| Bookings.EqualBookingsMayHashApart | src/main/java/org/jboss/quickstarts/wfk/booking/Booking.java:110-128 | two `equals` bookings whose flight numbers differ in case hash apart, whatever the date hash |
| Store.Database.constructor | src/main/java/org/jboss/quickstarts/wfk/customer/CustomerRepository.java:13-15 | the persistence context starts empty and satisfies `Store.WellFormed`: rows keyed by their own ids, unique flight numbers (flight/Flight.java:41), unique (flight, date) slots and non-null dates (booking/Booking.java:43, :64), bookings referring to stored rows (booking/Booking.java:57-61) |
| CustomerRepository.FindByEmail | src/main/java/org/jboss/quickstarts/wfk/customer/CustomerRepository.java:22-31 | null iff no stored email matches exactly; non-unique iff two stored customers have it; otherwise a stored customer with that email |
| CustomerRepository.FindById | src/main/java/org/jboss/quickstarts/wfk/customer/CustomerRepository.java:33-35 | found iff the id is stored, and then the row carries that id |
| CustomerRepository.CreateStep | src/main/java/org/jboss/quickstarts/wfk/customer/CustomerRepository.java:37-42 | fails (detached, store unchanged) iff the customer already has an id; otherwise it is stored under a fresh id, returned with it, the table grows by one, and the invariant holds |
| CustomerRepository.UpdateStep | src/main/java/org/jboss/quickstarts/wfk/customer/CustomerRepository.java:44-49 | returns its argument; a stored id is replaced; any other customer is inserted as a copy under a fresh id; other tables untouched |
| CustomerRepository.DeleteStep | src/main/java/org/jboss/quickstarts/wfk/customer/CustomerRepository.java:51-62 | no id or an unstored id changes nothing; it fails (store unchanged) iff the stored customer still has bookings; otherwise exactly that customer is removed |
| CustomerRepository.Create | src/main/java/org/jboss/quickstarts/wfk/customer/CustomerRepository.java:37-42 | the new state and result are those of `CreateStep`, invariant kept |
| CustomerRepository.Update | src/main/java/org/jboss/quickstarts/wfk/customer/CustomerRepository.java:44-49 | the new state and result are those of `UpdateStep`, invariant kept |
| CustomerRepository.Delete | src/main/java/org/jboss/quickstarts/wfk/customer/CustomerRepository.java:51-62 | the new state and result are those of `DeleteStep`, invariant kept |
| FlightRepository.LexLeqTotal | src/main/java/org/jboss/quickstarts/wfk/flight/Flight.java:37 | the `ORDER BY number` order relates any two numbers |
| FlightRepository.LexLeqTransitive | src/main/java/org/jboss/quickstarts/wfk/flight/Flight.java:37 | the `ORDER BY number` order is transitive |
| FlightRepository.Insert | src/main/java/org/jboss/quickstarts/wfk/flight/Flight.java:37 | inserting into a list sorted by number keeps it sorted and adds exactly that flight |
| FlightRepository.FindAll | src/main/java/org/jboss/quickstarts/wfk/flight/FlightRepository.java:17-20 | one entry per stored row, containing exactly the stored flights, sorted by number ascending |
| FlightRepository.FindByNumber | src/main/java/org/jboss/quickstarts/wfk/flight/FlightRepository.java:22-31 | null iff no number matches exactly (case included); never non-unique while numbers are unique; otherwise a stored flight with that number |
| FlightRepository.FindById | src/main/java/org/jboss/quickstarts/wfk/flight/FlightRepository.java:33-35 | found iff the id is stored, and then the row carries that id |
| FlightRepository.CreateStep | src/main/java/org/jboss/quickstarts/wfk/flight/FlightRepository.java:47-52 | fails (store unchanged) iff the flight has an id (detached) or its number is stored (unique constraint); otherwise stored under a fresh id; invariant kept |
| FlightRepository.Unbooked | src/main/java/org/jboss/quickstarts/wfk/flight/Flight.java:75-77 | exactly the bookings that do not reference the flight, unchanged |
| FlightRepository.DeleteStep | src/main/java/org/jboss/quickstarts/wfk/flight/FlightRepository.java:54-61 | no id or an unstored id changes nothing; otherwise the flight and every booking referencing it go (orphan removal), all other bookings stay as they were; invariant kept |
| FlightRepository.Create | src/main/java/org/jboss/quickstarts/wfk/flight/FlightRepository.java:47-52 | the new state and result are those of `CreateStep`, invariant kept |
| FlightRepository.Delete | src/main/java/org/jboss/quickstarts/wfk/flight/FlightRepository.java:54-61 | the new state and result are those of `DeleteStep`, invariant kept |
| BookingRepository.FindById | src/main/java/org/jboss/quickstarts/wfk/booking/BookingRepository.java:26-28 | found iff the id is stored, and then the row carries that id |
| BookingRepository.FindByCustomer | src/main/java/org/jboss/quickstarts/wfk/booking/BookingRepository.java:30-33 | exactly the stored bookings whose customer id is the customer's id; none for a customer without id |
| BookingRepository.FindByFlight | src/main/java/org/jboss/quickstarts/wfk/booking/BookingRepository.java:35-44 | null when flight id or date is null, or no booking holds that (flight, date); never non-unique while slots are unique; otherwise a stored booking in that slot |
| BookingRepository.CreateStep | src/main/java/org/jboss/quickstarts/wfk/booking/BookingRepository.java:46-51 | fails (store unchanged) iff the booking has an id (detached) or the store refuses it (no date, unknown flight or customer, slot taken); otherwise stored under a fresh id; invariant kept |
| BookingRepository.CreateCountsForItsCustomer | src/test/java/org/jboss/quickstarts/wfk/booking/BookingTest.java:175-183 | after a booking is created its customer has one more booking and every other customer the same number |
| BookingRepository.DeleteStep | src/main/java/org/jboss/quickstarts/wfk/booking/BookingRepository.java:53-60 | no id changes nothing; otherwise only that booking is removed; customers, flights and the counter stay; invariant kept |
| BookingRepository.Create | src/main/java/org/jboss/quickstarts/wfk/booking/BookingRepository.java:46-51 | the new state and result are those of `CreateStep`, invariant kept |
| BookingRepository.Delete | src/main/java/org/jboss/quickstarts/wfk/booking/BookingRepository.java:53-60 | the new state and result are those of `DeleteStep`, invariant kept |
| CustomerValidator.CommonValidate | src/main/java/org/jboss/quickstarts/wfk/customer/CustomerValidator.java:27-34 | passes iff the customer has no bean violations, and otherwise raises exactly those |
| CustomerValidator.EmailAlreadyExists | src/main/java/org/jboss/quickstarts/wfk/customer/CustomerValidator.java:57-73 | false for null; true when the email lookup is non-unique; for a single match, true iff the unseen `equals` holds between it and the customer; true only if some stored customer has that email |
| CustomerValidator.EmailAlreadyExistsIffStored | src/main/java/org/jboss/quickstarts/wfk/customer/CustomerValidator.java:57-73 | when `equals` identifies customers by email, "already exists" holds iff the email is stored |
| CustomerValidator.Validate | src/main/java/org/jboss/quickstarts/wfk/customer/CustomerValidator.java:36-42 | bean violations are raised first; a violation-free customer is refused as existing iff `emailAlreadyExists`, and passes otherwise |
| CustomerValidator.ValidateExisting | src/main/java/org/jboss/quickstarts/wfk/customer/CustomerValidator.java:44-54 | bean violations first; a non-unique email lookup propagates; a conflict iff the one customer with the email has another id |
| CustomerValidator.PassMeansEmailIsOwn | src/main/java/org/jboss/quickstarts/wfk/customer/CustomerValidator.java:44-54 | when `validateExisting` passes, every stored customer with the candidate's email carries the candidate's id |
| CustomerValidator.NeverConflictsWithItself | src/main/java/org/jboss/quickstarts/wfk/customer/CustomerValidator.java:48-53 | a stored customer keeping its own email never conflicts with itself |
| CustomerValidator.ConflictsWithAnother | src/main/java/org/jboss/quickstarts/wfk/customer/CustomerValidator.java:48-53 | taking the email of another stored customer is a conflict |
| FlightValidator.FlightAlreadyExists | src/main/java/org/jboss/quickstarts/wfk/flight/FlightValidator.java:41-57 | false for null; otherwise true iff a flight with exactly that number is stored (the non-unique fallback included) |
| FlightValidator.Validate | src/main/java/org/jboss/quickstarts/wfk/flight/FlightValidator.java:28-39 | bean violations are raised first; a violation-free flight is refused as existing iff its number is stored, and passes otherwise |
| FlightValidator.CaseVariantIsNotDuplicate | src/main/java/org/jboss/quickstarts/wfk/flight/FlightValidator.java:41-57 | with GR999 stored, gr999 is `equals` to it and still passes validation |
| CustomerService.CreateStep | src/main/java/org/jboss/quickstarts/wfk/customer/CustomerService.java:24-30 | a failure leaves the store unchanged; violations first; a conflict iff violation-free and the email exists; success iff validation passes and the customer has no id, and then it is the repository's create |
| CustomerService.CreateAddsOne | src/main/java/org/jboss/quickstarts/wfk/customer/CustomerService.java:29 | a successful create adds exactly one customer under the returned id and changes no other table |
| CustomerService.CreateKeepsEmailsDistinct | src/main/java/org/jboss/quickstarts/wfk/customer/CustomerService.java:24-30 | when `equals` identifies customers by email, create keeps stored emails distinct |
| CustomerService.DuplicateEmailConflicts | src/test/java/org/jboss/quickstarts/wfk/customer/CustomerTest.java:83-93 | a second violation-free customer with a stored email is refused as existing and the store is unchanged |
| CustomerService.UpdateStep | src/main/java/org/jboss/quickstarts/wfk/customer/CustomerService.java:32-37 | fails with the error of `validateExisting`, store unchanged; succeeds iff it passes, and then it is the repository's merge |
| CustomerService.UpdateKeepsEmailsDistinct | src/main/java/org/jboss/quickstarts/wfk/customer/CustomerService.java:32-37 | update keeps stored emails distinct, whatever `equals` is |
| CustomerService.Create | src/main/java/org/jboss/quickstarts/wfk/customer/CustomerService.java:24-30 | the new state and result are those of `CreateStep`, invariant kept |
| CustomerService.Update | src/main/java/org/jboss/quickstarts/wfk/customer/CustomerService.java:32-37 | the new state and result are those of `UpdateStep`, invariant kept |
| FlightService.CreateStep | src/main/java/org/jboss/quickstarts/wfk/flight/FlightService.java:25-31 | a failure leaves the store unchanged; violations first; a conflict iff violation-free and the number is stored; success iff valid, new and without id, and then it is the repository's create |
| FlightService.SecondCreateConflicts | src/test/java/org/jboss/quickstarts/wfk/flight/FlightTest.java:83-93 | after one flight is created, a valid flight with the same number is refused as existing and changes nothing |
| FlightService.Create | src/main/java/org/jboss/quickstarts/wfk/flight/FlightService.java:25-31 | the new state and result are those of `CreateStep`, invariant kept |
| BookingService.CreateStep | src/main/java/org/jboss/quickstarts/wfk/booking/BookingService.java:37-43 | a failure leaves the store unchanged; a failing check's error is raised; success iff the check passes and the store accepts the booking, and then it is the repository's create |
| BookingService.SecondBookingRefused | src/test/java/org/jboss/quickstarts/wfk/booking/BookingTest.java:82-101 | a second booking of the same flight and date is refused and changes nothing, whatever the check; a check that rejects taken slots raises `BookingExists` |
| BookingService.Create | src/main/java/org/jboss/quickstarts/wfk/booking/BookingService.java:37-43 | the new state and result are those of `CreateStep`, invariant kept |
| Transaction.UserTransaction.Begin | src/main/java/org/jboss/quickstarts/wfk/booking/GuestBookingRestService.java:70 | the transaction becomes active over a snapshot of the store |
| Transaction.UserTransaction.Commit | src/main/java/org/jboss/quickstarts/wfk/booking/GuestBookingRestService.java:75 | the transaction ends; without a fault the changes stay, with one the store is back at the snapshot |
| Transaction.UserTransaction.Rollback | src/main/java/org/jboss/quickstarts/wfk/booking/GuestBookingRestService.java:76-100 | without a transaction it refuses and nothing changes; a manager failure changes nothing; otherwise the store is back at the snapshot and the transaction ends |
| Responses.Fields | src/main/java/org/jboss/quickstarts/wfk/booking/GuestBookingRestService.java:84-88 | the error map's keys are exactly the property paths of the violations |
| GuestBookingRestService.FailureResponse | src/main/java/org/jboss/quickstarts/wfk/booking/GuestBookingRestService.java:76-97 | conflict iff customer or booking exists; not found iff the flight is invalid; bad request with the violation fields iff bean validation failed; a generic error otherwise |
| GuestBookingRestService.Work | src/main/java/org/jboss/quickstarts/wfk/booking/GuestBookingRestService.java:72-73 | on success a new customer and a booking referring to that stored customer are added, nothing else; invariant kept |
| GuestBookingRestService.Guest | src/main/java/org/jboss/quickstarts/wfk/booking/GuestBookingRestService.java:59-104 | a missing request is a bad request with no transaction; created iff both creates and the commit succeed, and then exactly the new customer and its booking are added; a create that fails and is rolled back answers as its exception maps (409 for an existing customer or booking, 404 for an invalid flight, 400 naming the violated fields); a failed commit is a generic error with nothing kept; a failed rollback is a generic error with the partial work left in an open transaction; unless rollback fails, every outcome but 201 leaves the store as it was and no transaction open |
| GuestBookingRestService.CreateGuestBooking | src/main/java/org/jboss/quickstarts/wfk/booking/GuestBookingRestService.java:59-104 | the new store, the answer and the transaction status are those of `Guest` |
| GuestBookingRestService.KnownEmailConflicts | src/main/java/org/jboss/quickstarts/wfk/booking/GuestBookingRestService.java:76-78 | a guest whose email is stored gets a conflict and nothing is stored |
| GuestBookingRestService.TakenSlotConflicts | src/main/java/org/jboss/quickstarts/wfk/booking/GuestBookingRestService.java:76-78 | a booking of a taken slot gets a conflict and the new customer is rolled back |
| GuestBookingRestService.PastDateRefused | src/main/java/org/jboss/quickstarts/wfk/booking/GuestBookingRestService.java:82-92 | a date not in the future gets a bad request naming `bookingDate` and the new customer is rolled back |
| CustomerRestService.PathParam | src/main/java/org/jboss/quickstarts/wfk/customer/CustomerRestService.java:55-62 | a parameter is injected iff its name is the template's `id` |
| CustomerRestService.Find | src/main/java/org/jboss/quickstarts/wfk/customer/CustomerRestService.java:66-70 | the stored customer iff the id is set and stored, otherwise not found |
| CustomerRestService.GetCustomerAsWritten | src/main/java/org/jboss/quickstarts/wfk/customer/CustomerRestService.java:62-71 | as written, every call answers not found |
| CustomerRestService.GetCustomerNeverFinds | src/main/java/org/jboss/quickstarts/wfk/customer/CustomerRestService.java:55-71 | for a stored id the code as written answers not found while the corrected endpoint returns the customer |
| CustomerRestService.GetCustomer | src/main/java/org/jboss/quickstarts/wfk/customer/CustomerRestService.java:62-71 | corrected: the customer stored under the path id, which carries that id, or not found |
| CustomerRestService.FailureResponse | src/main/java/org/jboss/quickstarts/wfk/customer/CustomerRestService.java:98-118 | bad request with the violation fields iff bean validation failed; conflict on `email` iff the customer exists; a generic error otherwise |
| CustomerRestService.CreateCustomerStep | src/main/java/org/jboss/quickstarts/wfk/customer/CustomerRestService.java:82-121 | a missing body is a bad request; created iff the service create succeeds, and then the body is stored under a fresh id; a failed create answers as its exception maps (400 naming the violated fields, 409 on `email`, otherwise a generic error) and leaves the store unchanged |
| CustomerRestService.CreateCustomer | src/main/java/org/jboss/quickstarts/wfk/customer/CustomerRestService.java:82-121 | the new state and answer are those of `CreateCustomerStep`, invariant kept |
| CustomerRestService.UpdateCustomerStep | src/main/java/org/jboss/quickstarts/wfk/customer/CustomerRestService.java:133-183 | a missing body is a bad request; a body id other than the path id is not found on `id`; an unknown path id is not found; all three before any change; past these guards a successful service update answers 200 with the body and leaves the store as that update does, and a failed one answers as its exception maps with the store unchanged; only a 200 changes the store |
| CustomerRestService.UpdateCustomer | src/main/java/org/jboss/quickstarts/wfk/customer/CustomerRestService.java:133-183 | the new state and answer are those of `UpdateCustomerStep`, invariant kept |
| CustomerRestService.UpdateWithoutIdMisses | src/main/java/org/jboss/quickstarts/wfk/customer/CustomerRestService.java:143-157 | as written, a body without id either inserts one more customer and leaves the addressed one untouched, or is refused as a conflict with that very customer |
| CustomerRestService.UpdateCustomerAtPath | src/main/java/org/jboss/quickstarts/wfk/customer/CustomerRestService.java:133-183 | corrected: any answer but 200 leaves the store unchanged; invariant kept |
| CustomerRestService.UpdateAtPathReplaces | src/main/java/org/jboss/quickstarts/wfk/customer/CustomerRestService.java:133-183 | corrected: a valid update keeping or freeing the email replaces exactly the addressed customer and adds none |
| CustomerRestService.DeleteCustomerStep | src/main/java/org/jboss/quickstarts/wfk/customer/CustomerRestService.java:201-222 | null or unknown id is not found; no content iff the customer is stored and has no bookings, and then exactly it is removed; a stored customer who still has bookings gets a generic error and the store is unchanged; only no content changes the store |
| CustomerRestService.DeleteCustomer | src/main/java/org/jboss/quickstarts/wfk/customer/CustomerRestService.java:201-222 | the new state and answer are those of `DeleteCustomerStep`, invariant kept |
| Scenarios.FlightNumberTwice | src/test/java/org/jboss/quickstarts/wfk/flight/FlightTest.java:83-93 | from an empty store GR999 is created, and creating it again is refused as existing |
| Scenarios.BookingLifecycle | src/test/java/org/jboss/quickstarts/wfk/booking/BookingTest.java:82-101 | from an empty store: register, duplicate refused, flight created, booked, duplicate booking refused, and after the flight's deletion its booking is gone |

## Left out

- The HTTP, JAX-RS and Swagger layer: status codes are outcome constructors, and error messages are not modelled.
- `BookingRestService` and `FlightRestService`: they only translate statuses and list records.
- JPA internals (flush timing, managed and detached state, container-managed transactions). The store is three maps and a counter, and one counter numbers all three tables.
- The store's refusal of a customer delete while bookings reference it is the `customer_id` foreign key declared in `Booking`. `Customer.java` is not part of this model, so the model assumes no cascade from customers.
- `CustomerRepository.delete` catches `IllegalArgumentException` and returns null. In this model `remove(merge(c))` never raises it, so that branch is not modelled. The foreign-key refusal above is raised as the store's error instead.
- Bean validation on `persist`: the validators already ran it. Bean violations of `Customer` are a parameter, because `Customer.java` is not part of this model.
- `BookingValidator` is a parameter, because its class is not part of this model. Lemmas that need its behaviour state it as a hypothesis.
- `StringComparisonMode`, `CompareStrings`, the `*InvalidException` and `*ExistsException` classes, and `RestServiceException` appear only as datatype constructors.
- `ConstraintValidatorHelper.getPropertyValue`: it is reflection.
- Concurrency: the gap between the validator's lookup and `persist` is a race between requests. The model is single-threaded, and the table constraints are the store's invariant.
- Real clocks and `java.util.Date`: dates are integer days with `now` given. `Date.hashCode` is a parameter of `Bookings.HashCode`.
- Unicode case mapping and the regex engine: character classes and case mapping are ASCII.
- Bookings hold the customer and flight records as they were when the booking was made. The store relates them through their ids.
- Setters are record updates. The `bookings` collection that the `Flight` constructor starts empty is not a field: a flight's bookings are the stored bookings whose flight id is its id.
- `GuestBooking`: a missing guest booking, booking or booking customer is one `None` request.
- Logging and `printStackTrace`.
- The passthrough finders and `delete` of the three services are the repository members themselves (`FlightService.findAll` is `FlightRepository.FindAll`, and so on). `findAll` of customers and bookings is not in this core.
- The service `create` methods leave store refusals (`DetachedEntity`, `StoreConstraint`) unmapped, as the code does.
- `begin` failures (`NotSupportedException`, `SystemException` at `begin`) are not modelled.
- A failed commit ends in a generic error. The code's follow-up `rollback` after a failed commit is not modelled separately: the transaction has already ended and the store is at the snapshot.
- A rollback restores the identity counter too; a real database would not reuse those ids.
- ConstraintValidatorHelper.IsValid: the values are never null. In the IGNORE_CASE modes the code's `toLowerCase` on a null value throws `NullPointerException`, and in the exact modes a null takes part in the comparison; neither is modelled.
- Flights.Violations: a flight's strings are never null, so the `NotNull` violations of `number`, `departure` and `destination` are never raised, and neither is the `NullPointerException` the route rule's `toLowerCase` would throw on a null code.
- Customers.Customer: name, email and phone are never null, so a null email reaching `findByEmail` (a query that matches nothing) and `emailAlreadyExists` is not modelled.
- Bookings.Equals: requires a booking date, because `equals` dereferences it and throws otherwise.
- Flights.HashCode and Bookings.HashCode: 32-bit `int` arithmetic is modelled as the unsigned value modulo 2^32, not as a signed `int`.
- FlightRepository.FindAll: the order is lexicographic on character codes, which is how the database compares these ASCII numbers; database collations are not modelled.
- CustomerRestService.UpdateCustomerAtPath: its own contract states only that non-200 answers change nothing; what a 200 does is stated by `UpdateAtPathReplaces`, for the updates that keep or free the email.

## Findings

| source | as written | input that shows it | evidently intended | confidence | as-written member | corrected member |
|---|---|---|---|---|---|---|
| src/main/java/org/jboss/quickstarts/wfk/customer/CustomerRestService.java:62 | `getCustomer` binds its parameter with `@PathParam("ID")`, but the path template at line 55 names the segment `id`, so the parameter is always null | GET `/customers/k` with a customer stored under `k` | the customer stored under `k` with 200 | high, not executed | CustomerRestService.GetCustomerAsWritten | CustomerRestService.GetCustomer |
| src/main/java/org/jboss/quickstarts/wfk/customer/CustomerRestService.java:143-157 | `updateCustomer` checks the path id but passes the body on unchanged; a body without an id is merged as a new row | PUT `/customers/k` with a stored `k` and a valid body whose id is null: a new email inserts a second customer and leaves `k` untouched, while `k`'s own email is refused with 409 | the customer under `k` is replaced by the body | medium, not executed | CustomerRestService.UpdateWithoutIdMisses | CustomerRestService.UpdateAtPathReplaces |
