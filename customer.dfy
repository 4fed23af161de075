/** The customer record. Its class is not part of this model beyond the fields the
    rest of the system reads: its bean constraints and its `equals` are left
    abstract and passed in as a `CustomerBean`. */
module Customers {
  import opened Common

  datatype Customer = Customer(id: Option<Id>, name: string, email: string, phone: string)

  /** The two unseen behaviours of the customer class: the set of bean-validation
      violations of a customer, and `equals` (the receiver first). */
  datatype CustomerBean = CustomerBean(
    violations: Customer -> set<Violation>,
    equal: (Customer, Customer) -> bool)

  /** A hypothesis about the unseen `equals`: two customers with the same email are
      equal. The duplicate-email test of the customer endpoint relies on it. */
  ghost predicate EqualWhenEmailsMatch(bean: CustomerBean)
  {
    forall a: Customer, b: Customer :: a.email == b.email ==> bean.equal(a, b)
  }
}
