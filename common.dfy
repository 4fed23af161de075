/** Vocabulary shared by every part of the model: optional values, results,
    generated identifiers, calendar days, the exception kinds the services raise,
    the outcome of a single-result query, and the ASCII character classes and
    case mappings that the field constraints and comparisons use. */
module Common {

  datatype Option<+T> = None | Some(value: T)

  datatype Result<+T, +E> = Success(value: T) | Failure(error: E)

  /** The outcome of a check that returns nothing or raises. */
  datatype Outcome<+E> = Pass | Fail(error: E)

  /** A generated identifier (a `Long` assigned by the store on persist). */
  type Id = nat

  /** A calendar date as a day number: the column is a DATE and keeps no time of day. */
  type Day = int

  /** One bean-validation failure: the property path and the constraint that failed
      (`NotNull`, `NotEmpty`, `Size`, `Pattern`, `Future`, `CompareStrings`, ...).
      A class-level constraint has the empty property path. */
  datatype Violation = Violation(property: string, constraint: string)

  /** The exceptions that leave the validators, services and store. */
  datatype Error =
    | ConstraintViolation(violations: set<Violation>) // javax.validation.ConstraintViolationException
    | CustomerExists                                  // CustomerExistsException
    | FlightExists                                    // FlightExistsException
    | BookingExists                                   // BookingExistsException
    | CustomerInvalid                                 // CustomerInvalidException
    | FlightInvalid                                   // FlightInvalidException
    | NonUniqueResult                                 // javax.persistence.NonUniqueResultException
    | DetachedEntity                                  // persist of a record whose id is already set
    | StoreConstraint                                 // the store's own unique, not-null or foreign-key check
    | TransactionFailure                              // commit of the user transaction failed

  /** What `TypedQuery.getSingleResult` yields: no row (`NoResultException`,
      which every finder turns into null), exactly one row, or several rows
      (`NonUniqueResultException`). */
  datatype Lookup<+T> = NoResult | Single(value: T) | NonUnique

  lemma SingletonKeys<T>(rows: map<Id, T>)
    requires |rows| == 1
    ensures forall a, b :: a in rows && b in rows ==> a == b
  {
    var k :| k in rows;
    assert |rows.Keys - {k}| == 0;
  }

  /** The single-result reading of the rows a query matched. */
  function SingleResult<T>(rows: map<Id, T>): (r: Lookup<T>)
    ensures r.NoResult? <==> |rows| == 0
    ensures r.Single? <==> |rows| == 1
    ensures r.Single? ==> forall k :: k in rows ==> rows[k] == r.value
    ensures r.NonUnique? <==> exists j, k :: j in rows && k in rows && j != k
  {
    if |rows| == 0 then NoResult
    else if |rows| == 1 then
      SingletonKeys(rows);
      var k :| k in rows; Single(rows[k])
    else
      var j :| j in rows;
      assert |rows.Keys - {j}| > 0;
      var k :| k in rows.Keys - {j};
      NonUnique
  }

  /** The rows of a table that satisfy a query's condition. */
  function Where<T>(rows: map<Id, T>, p: T -> bool): (r: map<Id, T>)
    ensures r.Keys <= rows.Keys
    ensures forall k | k in rows :: k in r <==> p(rows[k])
    ensures forall k | k in r :: r[k] == rows[k]
  {
    map k | k in rows && p(rows[k]) :: rows[k]
  }

  /** `getSingleResult` of a query whose condition is `p`: no row when nothing
      matches, non-unique when two rows match, otherwise the one matching row. */
  function Query<T>(rows: map<Id, T>, p: T -> bool): (r: Lookup<T>)
    ensures r.NoResult? <==> forall k | k in rows :: !p(rows[k])
    ensures r.NonUnique? <==>
      exists j, k | j in rows && k in rows :: j != k && p(rows[j]) && p(rows[k])
    ensures r.Single? ==>
      p(r.value) && (exists k | k in rows :: rows[k] == r.value) &&
      forall k | k in rows && p(rows[k]) :: rows[k] == r.value
  {
    var matched := Where(rows, p);
    var r := SingleResult(matched);
    if r.Single? then
      var k :| k in matched;
      assert rows[k] == r.value;
      r
    else
      r
  }

  // ASCII character classes, as the regular expressions of the constraints spell them.

  predicate IsUpper(c: char) { 'A' <= c <= 'Z' }

  predicate IsLower(c: char) { 'a' <= c <= 'z' }

  predicate IsDigit(c: char) { '0' <= c <= '9' }

  predicate IsAlphanumeric(c: char) { IsUpper(c) || IsLower(c) || IsDigit(c) }

  /** `Character.toLowerCase` restricted to ASCII. */
  function ToLower(c: char): char
  {
    if IsUpper(c) then (c as int + 32) as char else c
  }

  /** `Character.toUpperCase` restricted to ASCII. */
  function ToUpper(c: char): char
  {
    if IsLower(c) then (c as int - 32) as char else c
  }

  /** `String.toLowerCase` restricted to ASCII. */
  function Lower(s: string): (r: string)
    ensures |r| == |s|
    ensures forall i | 0 <= i < |s| :: r[i] == ToLower(s[i])
  {
    seq(|s|, i requires 0 <= i < |s| => ToLower(s[i]))
  }

  /** `String.equalsIgnoreCase`: equal lengths, and each pair of characters equal
      as they are, after upper-casing, or after lower-casing. */
  predicate EqualsIgnoreCase(a: string, b: string)
  {
    |a| == |b| &&
    forall i | 0 <= i < |a| ::
      a[i] == b[i] || ToUpper(a[i]) == ToUpper(b[i]) || ToLower(a[i]) == ToLower(b[i])
  }

  lemma ToLowerMatchesToUpper(x: char, y: char)
    ensures ToUpper(x) == ToUpper(y) ==> ToLower(x) == ToLower(y)
  {
  }

  /** Comparing ignoring case is comparing the lower-cased strings. */
  lemma EqualsIgnoreCaseIsLowerEquality(a: string, b: string)
    ensures EqualsIgnoreCase(a, b) <==> Lower(a) == Lower(b)
  {
    if EqualsIgnoreCase(a, b) {
      forall i | 0 <= i < |a| ensures Lower(a)[i] == Lower(b)[i] {
        ToLowerMatchesToUpper(a[i], b[i]);
      }
    }
    if Lower(a) == Lower(b) {
      forall i | 0 <= i < |a| ensures ToLower(a[i]) == ToLower(b[i]) {
        assert Lower(a)[i] == Lower(b)[i];
      }
    }
  }
}
