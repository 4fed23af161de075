/** The flight record: field constraints, the class-level rule that departure and
    destination differ, natural-key equality on the number, and `hashCode`. */
module Flights {
  import opened Common
  import CVH = ConstraintValidatorHelper

  /** The constructor `Flight(id, number, departure, destination)` stores exactly
      these four fields; the bookings of a flight are the stored bookings that
      reference it (see the booking repository). */
  datatype Flight = Flight(id: Option<Id>, number: string, departure: string, destination: string)

  predicate AllAlphanumeric(s: string)
  {
    forall i | 0 <= i < |s| :: IsAlphanumeric(s[i])
  }

  predicate AllUpper(s: string)
  {
    forall i | 0 <= i < |s| :: IsUpper(s[i])
  }

  /** The constraints on `number`: not empty, exactly 5 characters, all ASCII
      letters or digits (the string is never null here). */
  function NumberViolations(number: string): set<Violation>
  {
    (if number == "" then {Violation("number", "NotEmpty")} else {}) +
    (if |number| != 5 then {Violation("number", "Size")} else {}) +
    (if number == "" || !AllAlphanumeric(number) then {Violation("number", "Pattern")} else {})
  }

  /** The constraints on an airport code: not empty, exactly 3 characters, all
      upper-case ASCII letters (the string is never null here). */
  function AirportViolations(property: string, code: string): set<Violation>
  {
    (if code == "" then {Violation(property, "NotEmpty")} else {}) +
    (if |code| != 3 then {Violation(property, "Size")} else {}) +
    (if code == "" || !AllUpper(code) then {Violation(property, "Pattern")} else {})
  }

  /** The class-level `CompareStrings` rule: departure and destination must
      differ, in the NOT_EQUAL_IGNORE_CASE mode. */
  function RouteViolations(f: Flight): set<Violation>
  {
    if CVH.Holds([f.departure, f.destination], CVH.NotEqualIgnoreCase) then {}
    else {Violation("", "CompareStrings")}
  }

  /** Everything bean validation reports for a flight. */
  function Violations(f: Flight): set<Violation>
  {
    NumberViolations(f.number) +
    AirportViolations("departure", f.departure) +
    AirportViolations("destination", f.destination) +
    RouteViolations(f)
  }

  predicate ValidNumber(number: string)
  {
    |number| == 5 && AllAlphanumeric(number)
  }

  predicate ValidAirportCode(code: string)
  {
    |code| == 3 && AllUpper(code)
  }

  /** A flight passes bean validation exactly when its number is five letters or
      digits, both airport codes are three upper-case letters, and the two codes
      differ ignoring case. */
  lemma ViolationFree(f: Flight)
    ensures Violations(f) == {} <==>
      ValidNumber(f.number) && ValidAirportCode(f.departure) &&
      ValidAirportCode(f.destination) && !EqualsIgnoreCase(f.departure, f.destination)
  {
    EqualsIgnoreCaseIsLowerEquality(f.departure, f.destination);
    var n := CVH.Normalized([f.departure, f.destination], CVH.NotEqualIgnoreCase);
    assert n[0] == Lower(f.departure) && n[1] == Lower(f.destination);
    assert CVH.AllDistinct(n) <==> n[0] != n[1];
    if Violations(f) == {} {
      assert Violation("number", "Size") !in Violations(f);
      assert Violation("number", "Pattern") !in Violations(f);
      assert Violation("departure", "Size") !in Violations(f);
      assert Violation("departure", "Pattern") !in Violations(f);
      assert Violation("destination", "Size") !in Violations(f);
      assert Violation("destination", "Pattern") !in Violations(f);
      assert Violation("", "CompareStrings") !in Violations(f);
    }
  }

  /** Well-formed airport codes that start with different letters make a route
      the class-level rule accepts, so such a flight has no violations. */
  lemma ViolationFreeWhenCodesDiffer(f: Flight)
    requires ValidNumber(f.number) && ValidAirportCode(f.departure) && ValidAirportCode(f.destination)
    requires f.departure[0] != f.destination[0]
    ensures Violations(f) == {}
  {
    var a, b := f.departure[0], f.destination[0];
    assert IsUpper(a) && IsUpper(b);
    assert !(a == b || ToUpper(a) == ToUpper(b) || ToLower(a) == ToLower(b));
    ViolationFree(f);
  }

  /** The flight the flight tests create passes bean validation. */
  lemma ValidTestFlight()
    ensures Violations(Flight(None, "GR999", "NCL", "ATH")) == {}
  {
    assert ValidNumber("GR999") && ValidAirportCode("NCL") && ValidAirportCode("ATH");
    ViolationFreeWhenCodesDiffer(Flight(None, "GR999", "NCL", "ATH"));
  }

  /** The invalid flights of the flight tests are all refused by bean validation:
      an empty number, a four-letter departure, a four-letter destination, and a
      route whose two ends are the same airport. */
  lemma InvalidTestFlights()
    ensures Violation("number", "NotEmpty") in Violations(Flight(None, "", "NCL", "ATH"))
    ensures Violation("departure", "Size") in Violations(Flight(None, "GR999", "NCLL", "ATH"))
    ensures Violation("destination", "Size") in Violations(Flight(None, "GR999", "NCL", "ATHH"))
    ensures Violation("", "CompareStrings") in Violations(Flight(None, "GR999", "NCL", "NCL"))
  {
    var f := Flight(None, "GR999", "NCL", "NCL");
    var n := CVH.Normalized([f.departure, f.destination], CVH.NotEqualIgnoreCase);
    assert n[0] == n[1];
    assert !CVH.AllDistinct(n);
  }

  /** `equals`: two flights are equal when their numbers are equal ignoring case;
      id, departure and destination play no part. */
  predicate Equals(a: Flight, b: Flight)
  {
    EqualsIgnoreCase(a.number, b.number)
  }

  /** `equals` is an equivalence relation. */
  lemma EqualsIsEquivalence(a: Flight, b: Flight, c: Flight)
    ensures Equals(a, a)
    ensures Equals(a, b) ==> Equals(b, a)
    ensures Equals(a, b) && Equals(b, c) ==> Equals(a, c)
  {
    EqualsIgnoreCaseIsLowerEquality(a.number, a.number);
    EqualsIgnoreCaseIsLowerEquality(a.number, b.number);
    EqualsIgnoreCaseIsLowerEquality(b.number, a.number);
    EqualsIgnoreCaseIsLowerEquality(b.number, c.number);
    EqualsIgnoreCaseIsLowerEquality(a.number, c.number);
  }

  /** `String.hashCode`: s[0]*31^(n-1) + ... + s[n-1], wrapped to 32 bits (the
      bit pattern of the Java `int`, read as unsigned). */
  function StringHashCode(s: string): (h: nat)
    ensures h < 0x1_0000_0000
  {
    if s == [] then 0
    else (31 * StringHashCode(s[..|s| - 1]) + s[|s| - 1] as int) % 0x1_0000_0000
  }

  /** `hashCode`: the hash of the number alone, case-sensitive. */
  function HashCode(f: Flight): nat
  {
    StringHashCode(f.number)
  }

  /** Equal flights need not hash alike: `hashCode` is case-sensitive while
      `equals` is not. */
  lemma EqualsWithoutEqualHash()
    ensures Equals(Flight(None, "GR999", "NCL", "ATH"), Flight(None, "gr999", "NCL", "ATH"))
    ensures HashCode(Flight(None, "GR999", "NCL", "ATH")) != HashCode(Flight(None, "gr999", "NCL", "ATH"))
  {
    var upper, lower := "GR999", "gr999";
    assert ToUpper('g') == 'G' && ToUpper('r') == 'R';
    assert upper[..4] == "GR99" && upper[..3] == "GR9" && upper[..2] == "GR" && upper[..1] == "G";
    assert lower[..4] == "gr99" && lower[..3] == "gr9" && lower[..2] == "gr" && lower[..1] == "g";
    assert "G"[..0] == [] && "g"[..0] == [];
    assert "GR"[..1] == "G" && "GR9"[..2] == "GR" && "GR99"[..3] == "GR9";
    assert "gr"[..1] == "g" && "gr9"[..2] == "gr" && "gr99"[..3] == "gr9";
    assert StringHashCode("G") == 71;
    assert StringHashCode("GR") == 2283;
    assert StringHashCode("GR9") == 70830;
    assert StringHashCode("GR99") == 2195787;
    assert StringHashCode(upper) == 68069454;
    assert StringHashCode("g") == 103;
    assert StringHashCode("gr") == 3307;
    assert StringHashCode("gr9") == 102574;
    assert StringHashCode("gr99") == 3179851;
    assert StringHashCode(lower) == 98575438;
  }
}
