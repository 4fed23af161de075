/** `CustomerValidator`: bean validation first, then the duplicate-email decision,
    for new customers (`validate`) and for updates (`validateExisting`). Both
    only read the store. */
module CustomerValidator {
  import opened Common
  import opened Customers
  import opened Store
  import CustomerRepository

  /** No two stored customers share an email. */
  predicate EmailsDistinct(customers: map<Id, Customer>)
  {
    forall j, k | j in customers && k in customers && customers[j].email == customers[k].email :: j == k
  }

  /** `commonValidate`: raises the customer's bean violations, if it has any. */
  function CommonValidate(bean: CustomerBean, c: Customer): (r: Outcome<Error>)
    ensures r.Pass? <==> bean.violations(c) == {}
    ensures r.Fail? ==> r.error == ConstraintViolation(bean.violations(c))
  {
    var vs := bean.violations(c);
    if vs == {} then Pass else Fail(ConstraintViolation(vs))
  }

  /** `emailAlreadyExists`: false for null; true when the email lookup is not
      unique; otherwise whether the customer found is `equals` to `c`. */
  function EmailAlreadyExists(t: Tables, bean: CustomerBean, c: Option<Customer>): (r: bool)
    ensures c.None? ==> !r
    ensures c.Some? && CustomerRepository.FindByEmail(t.customers, c.value.email).NonUnique? ==> r
    ensures c.Some? && CustomerRepository.FindByEmail(t.customers, c.value.email).Single? ==>
      (r <==> bean.equal(CustomerRepository.FindByEmail(t.customers, c.value.email).value, c.value))
    ensures r ==> c.Some? && exists k | k in t.customers :: t.customers[k].email == c.value.email
  {
    match c
    case None => false
    case Some(x) =>
      match CustomerRepository.FindByEmail(t.customers, x.email)
      case NoResult => false
      case Single(d) => bean.equal(d, x)
      case NonUnique => true
  }

  /** When the unseen `equals` identifies customers with the same email, a
      customer "already exists" exactly when its email is stored. */
  lemma EmailAlreadyExistsIffStored(t: Tables, bean: CustomerBean, c: Customer)
    requires EqualWhenEmailsMatch(bean)
    ensures EmailAlreadyExists(t, bean, Some(c)) <==>
      exists k | k in t.customers :: t.customers[k].email == c.email
  {
    var found := CustomerRepository.FindByEmail(t.customers, c.email);
    if found.Single? {
      assert bean.equal(found.value, c);
    }
  }

  /** `validate`: bean violations are raised first; only a violation-free
      customer is looked up, and it is refused when its email already exists. */
  function Validate(t: Tables, bean: CustomerBean, c: Customer): (r: Outcome<Error>)
    ensures bean.violations(c) != {} ==> r == Fail(ConstraintViolation(bean.violations(c)))
    ensures bean.violations(c) == {} ==>
      (r == Fail(CustomerExists) <==> EmailAlreadyExists(t, bean, Some(c))) &&
      (r.Pass? <==> !EmailAlreadyExists(t, bean, Some(c)))
  {
    match CommonValidate(bean, c)
    case Fail(e) => Fail(e)
    case Pass => if EmailAlreadyExists(t, bean, Some(c)) then Fail(CustomerExists) else Pass
  }

  /** `validateExisting`: bean violations first; then the email lookup, whose
      non-unique error is not caught; a customer found under another id is a
      conflict. */
  function ValidateExisting(t: Tables, bean: CustomerBean, c: Customer): (r: Outcome<Error>)
    ensures bean.violations(c) != {} ==> r == Fail(ConstraintViolation(bean.violations(c)))
    ensures bean.violations(c) == {} ==>
      (r == Fail(NonUniqueResult) <==> CustomerRepository.FindByEmail(t.customers, c.email).NonUnique?)
    ensures bean.violations(c) == {} ==>
      (r == Fail(CustomerExists) <==>
        CustomerRepository.FindByEmail(t.customers, c.email).Single? &&
        exists k | k in t.customers :: t.customers[k].email == c.email && t.customers[k].id != c.id)
    ensures r.Pass? || r == Fail(NonUniqueResult) || r == Fail(CustomerExists) ||
      r == Fail(ConstraintViolation(bean.violations(c)))
  {
    match CommonValidate(bean, c)
    case Fail(e) => Fail(e)
    case Pass =>
      match CustomerRepository.FindByEmail(t.customers, c.email)
      case NoResult => Pass
      case NonUnique => Fail(NonUniqueResult)
      case Single(d) => if d.id != c.id then Fail(CustomerExists) else Pass
  }

  /** `validateExisting` lets a customer through only when every stored customer
      with its email is the customer itself. */
  lemma PassMeansEmailIsOwn(t: Tables, bean: CustomerBean, c: Customer)
    requires ValidateExisting(t, bean, c).Pass?
    ensures forall j | j in t.customers && t.customers[j].email == c.email :: t.customers[j].id == c.id
  {
    forall j | j in t.customers && t.customers[j].email == c.email
      ensures t.customers[j].id == c.id
    {
      assert !CustomerRepository.FindByEmail(t.customers, c.email).NoResult?;
    }
  }

  /** A stored customer that keeps its own email never conflicts with itself. */
  lemma NeverConflictsWithItself(t: Tables, bean: CustomerBean, c: Customer)
    requires KeysAreIds(t)
    requires c.id.Some? && c.id.value in t.customers && t.customers[c.id.value].email == c.email
    ensures ValidateExisting(t, bean, c) != Fail(CustomerExists)
  {
    var found := CustomerRepository.FindByEmail(t.customers, c.email);
    if found.Single? && bean.violations(c) == {} {
      assert found.value == t.customers[c.id.value];
    }
  }

  /** Taking over the email of another stored customer is a conflict. */
  lemma ConflictsWithAnother(t: Tables, bean: CustomerBean, c: Customer, j: Id)
    requires KeysAreIds(t) && EmailsDistinct(t.customers)
    requires bean.violations(c) == {}
    requires j in t.customers && t.customers[j].email == c.email && c.id != Some(j)
    ensures ValidateExisting(t, bean, c) == Fail(CustomerExists)
  {
    var found := CustomerRepository.FindByEmail(t.customers, c.email);
    assert !found.NoResult?;
    assert !found.NonUnique?;
  }
}
