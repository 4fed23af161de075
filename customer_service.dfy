/** `CustomerService`: validate, then persist or merge. Its `findById` and
    `delete` hand the call to the repository unchanged
    (`CustomerRepository.FindById`, `CustomerRepository.Delete`). */
module CustomerService {
  import opened Common
  import opened Customers
  import opened Store
  import CustomerValidator
  import CustomerRepository

  /** `create`: `validate`, then `CustomerRepository.create`. */
  function CreateStep(t: Tables, bean: CustomerBean, c: Customer): (r: Step<Customer>)
    ensures r.result.Failure? ==> r.state == t
    ensures bean.violations(c) != {} ==> r.result == Failure(ConstraintViolation(bean.violations(c)))
    ensures r.result == Failure(CustomerExists) <==>
      bean.violations(c) == {} && CustomerValidator.EmailAlreadyExists(t, bean, Some(c))
    ensures r.result.Success? <==>
      CustomerValidator.Validate(t, bean, c).Pass? && c.id.None?
    ensures r.result.Success? ==> r == CustomerRepository.CreateStep(t, c)
    ensures WellFormed(t) ==> WellFormed(r.state)
  {
    match CustomerValidator.Validate(t, bean, c)
    case Fail(e) => Step(t, Failure(e))
    case Pass => CustomerRepository.CreateStep(t, c)
  }

  method Create(db: Database, bean: CustomerBean, c: Customer) returns (r: Result<Customer, Error>)
    requires db.Valid()
    modifies db
    ensures db.Valid()
    ensures Step(db.State(), r) == CreateStep(old(db.State()), bean, c)
  {
    var v := CustomerValidator.Validate(db.State(), bean, c);
    if v.Fail? {
      return Failure(v.error);
    }
    r := CustomerRepository.Create(db, c);
  }

  /** A successful `create` adds exactly one customer, under a fresh id, and
      changes nothing else. */
  lemma CreateAddsOne(t: Tables, bean: CustomerBean, c: Customer)
    requires WellFormed(t) && CreateStep(t, bean, c).result.Success?
    ensures var s := CreateStep(t, bean, c);
      |s.state.customers| == |t.customers| + 1 &&
      s.state.customers.Keys == t.customers.Keys + {s.result.value.id.value} &&
      s.state.flights == t.flights && s.state.bookings == t.bookings
  {
  }

  /** When the unseen `equals` identifies customers by email, `create` keeps
      stored emails distinct. */
  lemma {:induction false} CreateKeepsEmailsDistinct(t: Tables, bean: CustomerBean, c: Customer)
    requires WellFormed(t) && CustomerValidator.EmailsDistinct(t.customers)
    requires EqualWhenEmailsMatch(bean)
    ensures CustomerValidator.EmailsDistinct(CreateStep(t, bean, c).state.customers)
  {
    var s := CreateStep(t, bean, c);
    if s.result.Success? {
      CustomerValidator.EmailAlreadyExistsIffStored(t, bean, c);
      var k := s.result.value.id.value;
      assert s.state.customers == t.customers[k := s.result.value];
      assert forall j | j in t.customers :: t.customers[j].email != c.email;
    }
  }

  /** A second customer with an email already stored is refused, and the store
      is left as it was. */
  lemma DuplicateEmailConflicts(t: Tables, bean: CustomerBean, c: Customer, k: Id)
    requires EqualWhenEmailsMatch(bean) && bean.violations(c) == {}
    requires k in t.customers && t.customers[k].email == c.email
    ensures CreateStep(t, bean, c) == Step(t, Failure(CustomerExists))
  {
    CustomerValidator.EmailAlreadyExistsIffStored(t, bean, c);
  }

  /** `update`: `validateExisting`, then `CustomerRepository.update`. */
  function UpdateStep(t: Tables, bean: CustomerBean, c: Customer): (r: Step<Customer>)
    ensures r.result.Failure? ==>
      r.state == t && CustomerValidator.ValidateExisting(t, bean, c) == Fail(r.result.error)
    ensures r.result.Success? <==> CustomerValidator.ValidateExisting(t, bean, c).Pass?
    ensures r.result.Success? ==> r == CustomerRepository.UpdateStep(t, c)
    ensures WellFormed(t) ==> WellFormed(r.state)
  {
    match CustomerValidator.ValidateExisting(t, bean, c)
    case Fail(e) => Step(t, Failure(e))
    case Pass => CustomerRepository.UpdateStep(t, c)
  }

  method Update(db: Database, bean: CustomerBean, c: Customer) returns (r: Result<Customer, Error>)
    requires db.Valid()
    modifies db
    ensures db.Valid()
    ensures Step(db.State(), r) == UpdateStep(old(db.State()), bean, c)
  {
    var v := CustomerValidator.ValidateExisting(db.State(), bean, c);
    if v.Fail? {
      return Failure(v.error);
    }
    r := CustomerRepository.Update(db, c);
  }

  /** Storing a customer under `k` keeps emails distinct when no other stored
      customer has its email. */
  lemma PutKeepsEmailsDistinct(customers: map<Id, Customer>, k: Id, x: Customer)
    requires CustomerValidator.EmailsDistinct(customers)
    requires forall j | j in customers && j != k :: customers[j].email != x.email
    ensures CustomerValidator.EmailsDistinct(customers[k := x])
  {
  }

  /** `update` keeps stored emails distinct, whatever `equals` is: the email
      check of `validateExisting` compares ids only. */
  lemma {:induction false} UpdateKeepsEmailsDistinct(t: Tables, bean: CustomerBean, c: Customer)
    requires KeysAreIds(t) && CustomerValidator.EmailsDistinct(t.customers)
    ensures CustomerValidator.EmailsDistinct(UpdateStep(t, bean, c).state.customers)
  {
    var s := UpdateStep(t, bean, c);
    if s.result.Success? {
      CustomerValidator.PassMeansEmailIsOwn(t, bean, c);
      var k := if c.id.Some? && c.id.value in t.customers then c.id.value else t.nextId;
      var x := if c.id.Some? && c.id.value in t.customers then c else c.(id := Some(k));
      assert s.state.customers == t.customers[k := x];
      forall j | j in t.customers && j != k ensures t.customers[j].email != x.email {
        assert t.customers[j].id == Some(j);
      }
      PutKeepsEmailsDistinct(t.customers, k, x);
    }
  }
}
