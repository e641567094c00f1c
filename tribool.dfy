/**
 * Three-state logic (src/private/tribool.h). The manager uses it to cache the
 * outcome of a plugin's dependency check: Indeterminate until checked, then
 * True or False for good.
 */
module TriBools {

  /** The named states, with the byte values the source gives them. */
  datatype State = False | True | Indeterminate
  {
    function Value(): (v: nat)
      ensures v <= 2
      ensures this == Indeterminate <==> v == 2
    {
      match this
      case False => 0
      case True => 1
      case Indeterminate => 2
    }
  }

  /** The private byte `_d`: only the constructors write it, and they only write 0, 1 or 2. */
  type Digit = d: int | 0 <= d <= 2

  datatype TriBool = TriBool(d: Digit)
  {
    /** `indeterminate()` (member form). */
    predicate IsIndeterminate()
      ensures IsIndeterminate() <==> State() == Indeterminate
    {
      d == 2
    }

    /** `state()`: the byte read back as a State. */
    function State(): (s: State)
      ensures s.Value() == d
    {
      if d == 0 then False else if d == 1 then True else Indeterminate
    }

    /** `operator==(const TriBool&)`. */
    predicate EqualsTriBool(other: TriBool)
      ensures EqualsTriBool(other) <==> this == other
    {
      State() == other.State()
    }

    /** `operator==(const bool&)`: only the matching determinate state compares equal. */
    predicate EqualsBool(b: bool)
      ensures EqualsBool(b) ==> !IsIndeterminate()
      ensures EqualsBool(b) <==> State() == (if b then True else False)
    {
      (b && d == 1) || (!b && d == 0)
    }

    /** `operator==(const State&)`. */
    predicate EqualsState(s: State)
      ensures EqualsState(s) <==> State() == s
    {
      d == s.Value()
    }

    /** `operator==(const int&)`: a raw comparison of the byte. */
    predicate EqualsInt(i: int)
      ensures EqualsInt(i) ==> 0 <= i <= 2
      ensures EqualsInt(i) <==> State().Value() == i
    {
      d == i
    }

    /** `operator!=(const TriBool&)`. */
    predicate NotEqualsTriBool(other: TriBool)
      ensures NotEqualsTriBool(other) <==> this != other
    {
      !EqualsTriBool(other)
    }

    /** `operator!=(const bool&)`: Indeterminate differs from both booleans. */
    predicate NotEqualsBool(b: bool)
      ensures IsIndeterminate() ==> NotEqualsBool(b)
      ensures NotEqualsBool(b) <==> State() != (if b then True else False)
    {
      !EqualsBool(b)
    }

    /** `operator!=(const State&)`. */
    predicate NotEqualsState(s: State)
      ensures NotEqualsState(s) <==> State() != s
    {
      !EqualsState(s)
    }

    /** `operator!=(const int&)`. */
    predicate NotEqualsInt(i: int)
      ensures NotEqualsInt(i) <==> State().Value() != i
    {
      !EqualsInt(i)
    }
  }

  /** `TriBool()`: the default value is Indeterminate. */
  function Default(): (t: TriBool)
    ensures t.IsIndeterminate()
    ensures !t.EqualsBool(true) && !t.EqualsBool(false)
  {
    TriBool(2)
  }

  /** `TriBool(bool)`. */
  function FromBool(b: bool): (t: TriBool)
    ensures t.EqualsBool(b) && !t.EqualsBool(!b)
    ensures !t.IsIndeterminate()
  {
    if b then TriBool(1) else TriBool(0)
  }

  /** `TriBool(const State&)`: `state()` gives back the State it was built from. */
  function FromState(s: State): (t: TriBool)
    ensures t.State() == s
    ensures t.IsIndeterminate() <==> s == Indeterminate
  {
    TriBool(s.Value())
  }

  /** The static `indeterminate(TriBool&)`, written through `operator==(const State&)`. */
  predicate StaticIndeterminate(b: TriBool)
    ensures StaticIndeterminate(b) <==> b.IsIndeterminate()
  {
    b.EqualsState(Indeterminate)
  }

  /** Every value is in exactly one of the three states, and each state is reached by a constructor. */
  lemma ExactlyOneState(t: TriBool)
    ensures t.EqualsBool(true) || t.EqualsBool(false) || t.IsIndeterminate()
    ensures !(t.EqualsBool(true) && t.EqualsBool(false))
    ensures t == FromState(t.State())
  {
  }
}
