/** The multi-field string comparison behind the `CompareStrings` class-level
    constraint: are the values of several properties all equal, or all different,
    optionally ignoring case; and the message that names the compared properties. */
module ConstraintValidatorHelper {
  import opened Common

  datatype StringComparisonMode = Equal | EqualIgnoreCase | NotEqual | NotEqualIgnoreCase

  predicate IgnoresCase(mode: StringComparisonMode)
  {
    mode == EqualIgnoreCase || mode == NotEqualIgnoreCase
  }

  predicate DemandsEqual(mode: StringComparisonMode)
  {
    mode == Equal || mode == EqualIgnoreCase
  }

  /** The form in which a value takes part in the comparison. */
  function Normalize(value: string, mode: StringComparisonMode): string
  {
    if IgnoresCase(mode) then Lower(value) else value
  }

  function Normalized(values: seq<string>, mode: StringComparisonMode): (r: seq<string>)
    ensures |r| == |values|
    ensures forall i | 0 <= i < |values| :: r[i] == Normalize(values[i], mode)
  {
    seq(|values|, i requires 0 <= i < |values| => Normalize(values[i], mode))
  }

  predicate AllEqual(s: seq<string>)
  {
    forall i, j | 0 <= i < |s| && 0 <= j < |s| :: s[i] == s[j]
  }

  predicate AllDistinct(s: seq<string>)
  {
    forall i, j | 0 <= i < j < |s| :: s[i] != s[j]
  }

  /** What the comparison promises: in the EQUAL modes there is at least one value
      and all normalised values agree; in the NOT_EQUAL modes the normalised values
      are pairwise different. */
  predicate Holds(values: seq<string>, mode: StringComparisonMode)
  {
    var n := Normalized(values, mode);
    if DemandsEqual(mode) then |n| > 0 && AllEqual(n) else AllDistinct(n)
  }

  function Elements(s: seq<string>): set<string>
  {
    set x | x in s
  }

  lemma {:induction false} ElementsBound(s: seq<string>)
    ensures |Elements(s)| <= |s|
  {
    if s != [] {
      ElementsBound(s[1..]);
      assert Elements(s) == {s[0]} + Elements(s[1..]);
    }
  }

  /** The NOT_EQUAL test of `isValid` (the set of values is as large as the list)
      means that the values are pairwise different. */
  lemma {:induction false} DistinctIffNoSmallerSet(s: seq<string>)
    ensures |Elements(s)| == |s| <==> AllDistinct(s)
  {
    if s != [] {
      var t := s[1..];
      DistinctIffNoSmallerSet(t);
      ElementsBound(t);
      assert Elements(s) == {s[0]} + Elements(t);
      if s[0] in t {
        var k :| 0 <= k < |t| && t[k] == s[0];
        assert s[0] == s[k + 1];
        assert Elements(s) == Elements(t);
      } else {
        assert s[0] !in Elements(t);
        if AllDistinct(t) {
          forall i, j | 0 <= i < j < |s| ensures s[i] != s[j] {
            if i > 0 {
              assert s[i] == t[i - 1] && s[j] == t[j - 1];
            } else {
              assert s[j] == t[j - 1];
            }
          }
        }
        if AllDistinct(s) {
          forall i, j | 0 <= i < j < |t| ensures t[i] != t[j] {
            assert t[i] == s[i + 1] && t[j] == s[j + 1];
          }
        }
      }
    }
  }

  /** The EQUAL test of `isValid` (exactly one distinct value) means that there is
      at least one value and all values agree; an empty collection fails it. */
  lemma SingleValueIffAllEqual(s: seq<string>)
    ensures |Elements(s)| == 1 <==> |s| > 0 && AllEqual(s)
  {
    if |s| > 0 && AllEqual(s) {
      assert Elements(s) == {s[0]};
    }
    if |Elements(s)| == 1 {
      var v :| v in Elements(s);
      assert |Elements(s) - {v}| == 0;
      assert Elements(s) == {v};
      forall i, j | 0 <= i < |s| && 0 <= j < |s| ensures s[i] == s[j] {
        assert s[i] in Elements(s) && s[j] in Elements(s);
      }
    }
  }

  /** `isValid`: collect the (lower-cased, in the IGNORE_CASE modes) values in a
      list, then compare the size of their set with 1 (EQUAL modes) or with the
      size of the list (NOT_EQUAL modes). */
  method IsValid(propertyValues: seq<string>, comparisonMode: StringComparisonMode)
    returns (valid: bool)
    ensures valid <==> Holds(propertyValues, comparisonMode)
  {
    var ignoreCase := false;
    if comparisonMode == EqualIgnoreCase || comparisonMode == NotEqualIgnoreCase {
      ignoreCase := true;
    }
    var values: seq<string> := [];
    for i := 0 to |propertyValues|
      invariant |values| == i
      invariant forall k | 0 <= k < i :: values[k] == Normalize(propertyValues[k], comparisonMode)
    {
      if ignoreCase {
        values := values + [Lower(propertyValues[i])];
      } else {
        values := values + [propertyValues[i]];
      }
    }
    assert values == Normalized(propertyValues, comparisonMode);
    var uniqueValues := set v | v in values;
    assert uniqueValues == Elements(values);
    match comparisonMode
    case Equal | EqualIgnoreCase =>
      SingleValueIffAllEqual(values);
      valid := |uniqueValues| == 1;
    case NotEqual | NotEqualIgnoreCase =>
      DistinctIffNoSmallerSet(values);
      valid := |uniqueValues| == |values|;
  }

  /** The verdict depends only on which values are compared, not on their order:
      any rearrangement of the collection gives the same answer. */
  lemma OrderIndependent(a: seq<string>, b: seq<string>, mode: StringComparisonMode)
    requires multiset(a) == multiset(b)
    ensures Holds(a, mode) <==> Holds(b, mode)
  {
    var na, nb := Normalized(a, mode), Normalized(b, mode);
    assert |a| == |multiset(a)| == |multiset(b)| == |b|;
    forall x | x in Elements(na) ensures x in Elements(nb) {
      var i :| 0 <= i < |na| && na[i] == x;
      assert a[i] in multiset(b);
      var j :| 0 <= j < |b| && b[j] == a[i];
      assert nb[j] == x;
    }
    forall x | x in Elements(nb) ensures x in Elements(na) {
      var j :| 0 <= j < |nb| && nb[j] == x;
      assert b[j] in multiset(a);
      var i :| 0 <= i < |a| && a[i] == b[j];
      assert na[i] == x;
    }
    assert Elements(na) == Elements(nb);
    SingleValueIffAllEqual(na);
    SingleValueIffAllEqual(nb);
    DistinctIffNoSmallerSet(na);
    DistinctIffNoSmallerSet(nb);
  }

  // --- the message ------------------------------------------------------------

  /** A property name with its first character upper-cased. */
  function Capitalize(name: string): string
    requires name != ""
  {
    [ToUpper(name[0])] + name[1..]
  }

  /** The names `concatPropertyNames` can handle: at least one, none empty. */
  predicate Nameable(names: seq<string>)
  {
    |names| > 0 && forall i | 0 <= i < |names| :: names[i] != ""
  }

  /** The parts joined by `sep`. */
  function Join(parts: seq<string>, sep: string): string
  {
    if |parts| <= 1 then (if parts == [] then "" else parts[0])
    else Join(parts[..|parts| - 1], sep) + sep + parts[|parts| - 1]
  }

  /** Each part followed by `sep`, as the loop of `concatPropertyNames` appends them. */
  function Terminated(parts: seq<string>, sep: string): string
  {
    if parts == [] then "" else Terminated(parts[..|parts| - 1], sep) + parts[|parts| - 1] + sep
  }

  lemma {:induction false} TerminatedIsJoinedThenSep(parts: seq<string>, sep: string)
    requires parts != []
    ensures Terminated(parts, sep) == Join(parts, sep) + sep
  {
    var init := parts[..|parts| - 1];
    if init != [] {
      TerminatedIsJoinedThenSep(init, sep);
    } else {
      assert Terminated(init, sep) == "";
    }
  }

  function Capitalized(names: seq<string>): (r: seq<string>)
    requires forall i | 0 <= i < |names| :: names[i] != ""
    ensures |r| == |names|
  {
    seq(|names|, i requires 0 <= i < |names| && names[i] != "" => Capitalize(names[i]))
  }

  /** `[Name1, Name2, ...]`: every name capitalised, joined by a comma and a blank. */
  function Bracketed(names: seq<string>): string
    requires Nameable(names)
  {
    "[" + Join(Capitalized(names), ", ") + "]"
  }

  /** `concatPropertyNames`: append each capitalised name and ", ", then delete the
      last two characters and close the bracket. An empty name (`charAt(0)`) or an
      empty array (`delete(-1, 1)`) raises StringIndexOutOfBoundsException, which
      the model reports as None. */
  method ConcatPropertyNames(propertyNames: seq<string>) returns (r: Option<string>)
    ensures r.Some? <==> Nameable(propertyNames)
    ensures r.Some? ==> r.value == Bracketed(propertyNames)
  {
    var buffer := "[";
    for i := 0 to |propertyNames|
      invariant forall k | 0 <= k < i :: propertyNames[k] != ""
      invariant buffer == "[" + Terminated(Capitalized(propertyNames[..i]), ", ")
    {
      var propertyName := propertyNames[i];
      if propertyName == "" {
        return None;
      }
      var firstChar := ToUpper(propertyName[0]);
      ghost var done := Capitalized(propertyNames[..i + 1]);
      assert done[..i] == Capitalized(propertyNames[..i]);
      assert done[i] == [firstChar] + propertyName[1..];
      buffer := buffer + [firstChar] + propertyName[1..] + ", ";
    }
    assert propertyNames[..|propertyNames|] == propertyNames;
    if |buffer| < 2 {
      return None;
    }
    ghost var parts := Capitalized(propertyNames);
    TerminatedIsJoinedThenSep(parts, ", ");
    assert buffer == "[" + Join(parts, ", ") + ", ";
    buffer := buffer[..|buffer| - 2] + "]";
    r := Some(buffer);
  }

  /** `resolveMessage`: the bracketed names, " should", " be equal" (EQUAL modes) or
      " not be equal" (NOT_EQUAL modes), and a full stop. */
  method ResolveMessage(propertyNames: seq<string>, comparisonMode: StringComparisonMode)
    returns (r: Option<string>)
    ensures r.Some? <==> Nameable(propertyNames)
    ensures r.Some? ==>
      r.value == Bracketed(propertyNames) + " should" +
        (if DemandsEqual(comparisonMode) then " be equal" else " not be equal") + "."
  {
    var buffer := ConcatPropertyNames(propertyNames);
    if buffer.None? {
      return None;
    }
    var message := buffer.value + " should";
    match comparisonMode {
      case Equal | EqualIgnoreCase =>
        message := message + " be equal";
      case NotEqual | NotEqualIgnoreCase =>
        message := message + " not be equal";
    }
    message := message + ".";
    r := Some(message);
  }

  /** The two airport-code properties of a flight, capitalised. */
  lemma FlightRuleCapitals()
    ensures Capitalized(["departure", "destination"]) == ["Departure", "Destination"]
  {
    assert Capitalize("departure") == "Departure" by {
      assert "departure"[1..] == "eparture";
    }
    assert Capitalize("destination") == "Destination" by {
      assert "destination"[1..] == "estination";
    }
  }

  /** The names Flight's rule on its two airport codes reports. */
  lemma FlightRuleNames()
    ensures Nameable(["departure", "destination"])
    ensures Bracketed(["departure", "destination"]) == "[Departure, Destination]"
  {
    FlightRuleCapitals();
    var caps := ["Departure", "Destination"];
    assert caps[..1] == ["Departure"];
    assert Join(caps, ", ") == "Departure" + ", " + "Destination";
  }
}
