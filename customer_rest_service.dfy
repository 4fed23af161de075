/** `CustomerRestService`: the guards and error mapping of the customer
    endpoints, as outcomes. */
module CustomerRestService {
  import opened Common
  import opened Customers
  import opened Store
  import opened Responses
  import CustomerValidator
  import CustomerService
  import CustomerRepository

  /** The name of the path segment in the endpoint's path template `/{id:[0-9]+}`. */
  const PathTemplate := "id"

  /** What JAX-RS injects for a path parameter bound by `name`: the segment when the name is the
      template's, null otherwise. */
  function PathParam(name: string, segment: Id): (r: Option<Id>)
    ensures r.Some? <==> name == PathTemplate
  {
    if name == PathTemplate then Some(segment) else None
  }

  /** The body of `getCustomer` for the id it receives: 404 for null or an
      unknown id, otherwise the stored customer. */
  function Find(t: Tables, id: Option<Id>): (r: Response<Customer>)
    ensures r.Ok? <==> id.Some? && id.value in t.customers
    ensures r.Ok? ==> r.entity == t.customers[id.value]
    ensures !r.Ok? ==> r == NotFound({})
  {
    match id
    case None => NotFound({})
    case Some(k) =>
      match CustomerRepository.FindById(t, k)
      case None => NotFound({})
      case Some(c) => Ok(c)
  }

  /** `getCustomer` as written: its parameter is bound to the path parameter named `ID`. */
  function GetCustomerAsWritten(t: Tables, segment: Id): (r: Response<Customer>)
    ensures r == NotFound({})
  {
    assert "ID"[0] != PathTemplate[0];
    Find(t, PathParam("ID", segment))
  }

  /** The template names `id`, not `ID`, so the id is always null and even a
      stored customer is not found. */
  lemma GetCustomerNeverFinds(t: Tables, segment: Id)
    requires segment in t.customers
    ensures GetCustomerAsWritten(t, segment) == NotFound({})
    ensures GetCustomer(t, segment) == Ok(t.customers[segment])
  {
    assert "ID"[0] != PathTemplate[0];
  }

  /** `getCustomer` with the segment bound by its own name. */
  function GetCustomer(t: Tables, segment: Id): (r: Response<Customer>)
    ensures r.Ok? <==> segment in t.customers
    ensures r.Ok? ==> r.entity == t.customers[segment]
    ensures KeysAreIds(t) && r.Ok? ==> r.entity.id == Some(segment)
    ensures !r.Ok? ==> r == NotFound({})
  {
    Find(t, PathParam("id", segment))
  }

  /** The answer for an exception of `create` or `update`. */
  function FailureResponse(e: Error): (r: Response<Customer>)
    ensures r.BadRequest? <==> e.ConstraintViolation?
    ensures r.BadRequest? ==> r.fields == Fields(e.violations)
    ensures r.Conflict? <==> e == CustomerExists
    ensures r.Conflict? ==> r.fields == {"email"}
    ensures r.BadRequest? || r.Conflict? || r.ServerError?
  {
    match e
    case ConstraintViolation(vs) => BadRequest(Fields(vs))
    case CustomerExists => Conflict({"email"})
    case _ => ServerError
  }

  /** `createCustomer`: 400 for a missing body, 201 with the stored customer, or
      the answer for the exception `create` raised. */
  function CreateCustomerStep(t: Tables, bean: CustomerBean, request: Option<Customer>): (r: Exchange<Customer>)
    ensures request.None? ==> r == Exchange(t, BadRequest({}))
    ensures !r.response.Created? ==> r.state == t
    ensures r.response.Created? <==>
      request.Some? && CustomerService.CreateStep(t, bean, request.value).result.Success?
    ensures r.response.Created? ==>
      r.response.entity.id.Some? && r.response.entity == request.value.(id := r.response.entity.id) &&
      r.state.customers == t.customers[r.response.entity.id.value := r.response.entity]
    ensures request.Some? && CustomerService.CreateStep(t, bean, request.value).result.Failure? ==>
      r == Exchange(t, FailureResponse(CustomerService.CreateStep(t, bean, request.value).result.error))
    ensures WellFormed(t) ==> WellFormed(r.state)
  {
    match request
    case None => Exchange(t, BadRequest({}))
    case Some(c) =>
      var s := CustomerService.CreateStep(t, bean, c);
      match s.result
      case Success(stored) => Exchange(s.state, Created(stored))
      case Failure(e) => Exchange(s.state, FailureResponse(e))
  }

  method CreateCustomer(db: Database, bean: CustomerBean, request: Option<Customer>) returns (r: Response<Customer>)
    requires db.Valid()
    modifies db
    ensures db.Valid()
    ensures Exchange(db.State(), r) == CreateCustomerStep(old(db.State()), bean, request)
  {
    if request.None? {
      return BadRequest({});
    }
    var created := CustomerService.Create(db, bean, request.value);
    match created {
      case Success(stored) => r := Created(stored);
      case Failure(e) => r := FailureResponse(e);
    }
  }

  /** `updateCustomer` as written: 400 for a missing body; 404 naming `id` when
      the body carries another id; 404 when no customer is stored under the path
      id; then `update` of the body as it came, 200 with the body or the answer
      for the exception raised. */
  function UpdateCustomerStep(t: Tables, bean: CustomerBean, segment: Id, request: Option<Customer>): (r: Exchange<Customer>)
    ensures request.None? ==> r == Exchange(t, BadRequest({}))
    ensures request.Some? && request.value.id.Some? && request.value.id != Some(segment) ==>
      r == Exchange(t, NotFound({"id"}))
    ensures (request.Some? && (request.value.id.None? || request.value.id == Some(segment)) &&
             segment !in t.customers) ==>
      r == Exchange(t, NotFound({}))
    ensures !r.response.Ok? ==> r.state == t
    ensures r.response.Ok? ==>
      request.Some? && r.response.entity == request.value &&
      r == Exchange(CustomerService.UpdateStep(t, bean, request.value).state, Ok(request.value))
    // past both guards, the outcome of `update` decides the answer
    ensures (request.Some? && (request.value.id.None? || request.value.id == Some(segment)) &&
             segment in t.customers) ==>
      var s := CustomerService.UpdateStep(t, bean, request.value);
      (s.result.Success? ==> r == Exchange(s.state, Ok(request.value))) &&
      (s.result.Failure? ==> r == Exchange(t, FailureResponse(s.result.error)))
    ensures WellFormed(t) ==> WellFormed(r.state)
  {
    match request
    case None => Exchange(t, BadRequest({}))
    case Some(c) =>
      if c.id.Some? && c.id != Some(segment) then Exchange(t, NotFound({"id"}))
      else if CustomerRepository.FindById(t, segment).None? then Exchange(t, NotFound({}))
      else
        var s := CustomerService.UpdateStep(t, bean, c);
        match s.result
        case Success(_) => Exchange(s.state, Ok(c))
        case Failure(e) => Exchange(s.state, FailureResponse(e))
  }

  method UpdateCustomer(db: Database, bean: CustomerBean, segment: Id, request: Option<Customer>)
    returns (r: Response<Customer>)
    requires db.Valid()
    modifies db
    ensures db.Valid()
    ensures Exchange(db.State(), r) == UpdateCustomerStep(old(db.State()), bean, segment, request)
  {
    if request.None? {
      return BadRequest({});
    }
    var c := request.value;
    if c.id.Some? && c.id != Some(segment) {
      return NotFound({"id"});
    }
    if CustomerRepository.FindById(db.State(), segment).None? {
      return NotFound({});
    }
    var updated := CustomerService.Update(db, bean, c);
    match updated {
      case Success(_) => r := Ok(c);
      case Failure(e) => r := FailureResponse(e);
    }
  }

  /** A body without an id never updates the customer under the path id: with a
      new email it is stored as one more customer and the target is untouched,
      with the target's own email it is refused as a conflict. */
  lemma UpdateWithoutIdMisses(t: Tables, bean: CustomerBean, segment: Id, c: Customer)
    requires WellFormed(t) && CustomerValidator.EmailsDistinct(t.customers)
    requires segment in t.customers && c.id.None? && bean.violations(c) == {}
    ensures (forall k | k in t.customers :: t.customers[k].email != c.email) ==>
      var r := UpdateCustomerStep(t, bean, segment, Some(c));
      r.response == Ok(c) &&
      r.state.customers == t.customers[t.nextId := c.(id := Some(t.nextId))] &&
      r.state.customers[segment] == t.customers[segment]
    ensures t.customers[segment].email == c.email ==>
      UpdateCustomerStep(t, bean, segment, Some(c)) == Exchange(t, Conflict({"email"}))
  {
    if t.customers[segment].email == c.email {
      CustomerValidator.ConflictsWithAnother(t, bean, c, segment);
    }
  }

  /** `updateCustomer` with the path id given to the body before `update`, so the
      body always lands on the customer it addresses. */
  function UpdateCustomerAtPath(t: Tables, bean: CustomerBean, segment: Id, request: Option<Customer>): (r: Exchange<Customer>)
    ensures !r.response.Ok? ==> r.state == t
    ensures WellFormed(t) ==> WellFormed(r.state)
  {
    match request
    case None => Exchange(t, BadRequest({}))
    case Some(c) => UpdateCustomerStep(t, bean, segment, Some(c.(id := Some(segment))))
  }

  /** With the path id in the body, a violation-free update that keeps the
      customer's email, or moves it to an unused one, replaces exactly the
      addressed customer and adds none. */
  lemma UpdateAtPathReplaces(t: Tables, bean: CustomerBean, segment: Id, c: Customer)
    requires WellFormed(t) && CustomerValidator.EmailsDistinct(t.customers)
    requires segment in t.customers && (c.id.None? || c.id == Some(segment))
    requires bean.violations(c.(id := Some(segment))) == {}
    requires t.customers[segment].email == c.email ||
      forall k | k in t.customers :: t.customers[k].email != c.email
    ensures var r := UpdateCustomerAtPath(t, bean, segment, Some(c));
      r.response == Ok(c.(id := Some(segment))) &&
      r.state == t.(customers := t.customers[segment := c.(id := Some(segment))])
  {
    var body := c.(id := Some(segment));
    if t.customers[segment].email == c.email {
      CustomerValidator.NeverConflictsWithItself(t, bean, body);
      var found := CustomerRepository.FindByEmail(t.customers, c.email);
      assert !found.NonUnique?;
    }
  }

  /** `deleteCustomer`: 404 for a null or unknown id; otherwise `delete` of the
      stored customer, 204 when it is removed and 500 when the store refuses. */
  function DeleteCustomerStep(t: Tables, id: Option<Id>): (r: Exchange<Customer>)
    ensures id.None? || id.value !in t.customers ==> r == Exchange(t, NotFound({}))
    ensures KeysAreIds(t) ==>
      (r.response.NoContent? <==>
        id.Some? && id.value in t.customers && !CustomerRepository.Booked(t, id.value))
    ensures KeysAreIds(t) && r.response.NoContent? ==>
      r.state == t.(customers := t.customers - {id.value})
    // a customer who still has bookings is refused by the store: 500
    ensures KeysAreIds(t) && id.Some? && id.value in t.customers && CustomerRepository.Booked(t, id.value) ==>
      r == Exchange(t, ServerError)
    ensures !r.response.NoContent? ==> r.state == t
    ensures r.response.NoContent? || r.response == NotFound({}) || r.response.ServerError?
    ensures WellFormed(t) ==> WellFormed(r.state)
  {
    match id
    case None => Exchange(t, NotFound({}))
    case Some(k) =>
      match CustomerRepository.FindById(t, k)
      case None => Exchange(t, NotFound({}))
      case Some(c) =>
        var s := CustomerRepository.DeleteStep(t, c);
        if s.result.Success? then Exchange(s.state, NoContent) else Exchange(s.state, ServerError)
  }

  method DeleteCustomer(db: Database, id: Option<Id>) returns (r: Response<Customer>)
    requires db.Valid()
    modifies db
    ensures db.Valid()
    ensures Exchange(db.State(), r) == DeleteCustomerStep(old(db.State()), id)
  {
    if id.None? || CustomerRepository.FindById(db.State(), id.value).None? {
      return NotFound({});
    }
    var c := db.customers[id.value];
    var deleted := CustomerRepository.Delete(db, c);
    r := if deleted.Success? then NoContent else ServerError;
  }
}
