/** `FlightService`: validate, then persist. Its `findAll`, `findById` and
    `delete` hand the call to the repository unchanged
    (`FlightRepository.FindAll`, `FlightRepository.FindById`,
    `FlightRepository.Delete` with its booking cascade); flights have no update. */
module FlightService {
  import opened Common
  import opened Flights
  import opened Store
  import FlightValidator
  import FlightRepository

  /** `create`: `validate`, then `FlightRepository.create`. */
  function CreateStep(t: Tables, f: Flight): (r: Step<Flight>)
    ensures r.result.Failure? ==> r.state == t
    ensures Violations(f) != {} ==> r.result == Failure(ConstraintViolation(Violations(f)))
    ensures r.result == Failure(FlightExists) <==>
      Violations(f) == {} && FlightRepository.NumberTaken(t.flights, f.number)
    ensures r.result.Success? <==>
      Violations(f) == {} && !FlightRepository.NumberTaken(t.flights, f.number) && f.id.None?
    ensures r.result.Success? ==> r == FlightRepository.CreateStep(t, f)
    ensures WellFormed(t) ==> WellFormed(r.state)
  {
    match FlightValidator.Validate(t, f)
    case Fail(e) => Step(t, Failure(e))
    case Pass => FlightRepository.CreateStep(t, f)
  }

  method Create(db: Database, f: Flight) returns (r: Result<Flight, Error>)
    requires db.Valid()
    modifies db
    ensures db.Valid()
    ensures Step(db.State(), r) == CreateStep(old(db.State()), f)
  {
    var v := FlightValidator.Validate(db.State(), f);
    if v.Fail? {
      return Failure(v.error);
    }
    r := FlightRepository.Create(db, f);
  }

  /** Once a flight is created, creating another with the same number is refused
      as a duplicate and changes nothing. */
  lemma SecondCreateConflicts(t: Tables, f: Flight, g: Flight)
    requires CreateStep(t, f).result.Success?
    requires g.number == f.number && Violations(g) == {}
    ensures var s := CreateStep(t, f).state;
      CreateStep(s, g) == Step(s, Failure(FlightExists))
  {
    var created := CreateStep(t, f);
    var k := created.result.value.id.value;
    assert created.state.flights[k].number == g.number;
  }
}
