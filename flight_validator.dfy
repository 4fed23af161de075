/** `FlightValidator`: bean validation first, then the duplicate-number
    decision. It only reads the store. */
module FlightValidator {
  import opened Common
  import opened Flights
  import opened Store
  import FlightRepository

  /** `flightAlreadyExists`: false for null; true when the number lookup is not
      unique; otherwise whether the flight found is `equals` to `f`. Because the
      lookup matches the number exactly, this holds exactly when a flight with
      exactly that number is stored. */
  function FlightAlreadyExists(t: Tables, f: Option<Flight>): (r: bool)
    ensures f.None? ==> !r
    ensures f.Some? ==> (r <==> FlightRepository.NumberTaken(t.flights, f.value.number))
  {
    match f
    case None => false
    case Some(x) =>
      match FlightRepository.FindByNumber(t.flights, x.number)
      case NoResult => false
      case Single(d) =>
        assert EqualsIgnoreCase(d.number, x.number);
        Flights.Equals(d, x)
      case NonUnique => true
  }

  /** `validate`: bean violations are raised first; a violation-free flight is
      refused when its number already exists. */
  function Validate(t: Tables, f: Flight): (r: Outcome<Error>)
    ensures Violations(f) != {} ==> r == Fail(ConstraintViolation(Violations(f)))
    ensures Violations(f) == {} ==>
      (r == Fail(FlightExists) <==> FlightRepository.NumberTaken(t.flights, f.number)) &&
      (r.Pass? <==> !FlightRepository.NumberTaken(t.flights, f.number))
  {
    var vs := Violations(f);
    if vs != {} then Fail(ConstraintViolation(vs))
    else if FlightAlreadyExists(t, Some(f)) then Fail(FlightExists)
    else Pass
  }

  /** Flight gr999 from NCL to ATH passes bean validation. */
  lemma LowerCaseNumberValid()
    ensures Violations(Flight(None, "gr999", "NCL", "ATH")) == {}
  {
    assert ValidNumber("gr999") && ValidAirportCode("NCL") && ValidAirportCode("ATH");
    ViolationFreeWhenCodesDiffer(Flight(None, "gr999", "NCL", "ATH"));
  }

  /** A number differing from a stored one only in case is not a duplicate,
      although the two flights are `equals`. */
  lemma CaseVariantIsNotDuplicate(t: Tables, k: Id)
    requires t.flights == map[k := Flight(Some(k), "GR999", "NCL", "ATH")]
    ensures Flights.Equals(t.flights[k], Flight(None, "gr999", "NCL", "ATH"))
    ensures Validate(t, Flight(None, "gr999", "NCL", "ATH")) == Pass
  {
    assert ToUpper('g') == 'G' && ToUpper('r') == 'R';
    assert "GR999"[0] != "gr999"[0];
    assert !FlightRepository.NumberTaken(t.flights, "gr999");
    LowerCaseNumberValid();
  }
}
