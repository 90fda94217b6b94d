/** A person's age, validated to lie between `MinAge` and `MaxAge` inclusive. */
module Ages {
  import opened Wrappers
  import opened Errors
  import Text

  const MinAge: int := 0
  const MaxAge: int := 120

  datatype Age = Age(value: int)

  /** What every Age built through the validating setter satisfies. */
  predicate Valid(a: Age) {
    MinAge <= a.value <= MaxAge
  }

  /** The setter's check: negative values are reported before over-limit ones. */
  function MakeAge(n: int): (r: Result<Age, ValidationError>)
    ensures r.Success? <==> MinAge <= n <= MaxAge
    ensures r.Success? ==> r.value.value == n && Valid(r.value)
    ensures n < MinAge ==> r == Failure(NegativeAge)
    ensures n > MaxAge ==> r == Failure(AgeOverLimit(n))
  {
    if n < MinAge then Failure(NegativeAge)
    else if n > MaxAge then Failure(AgeOverLimit(n))
    else Success(Age(n))
  }

  /** Assigning through the setter: the state after the call and the error it raised, if any.
      The error is raised before assignment, so a rejected value leaves the age as it was. */
  function SetAge(a: Age, n: int): (r: (Age, Option<ValidationError>))
    ensures r.1.None? <==> MinAge <= n <= MaxAge
    ensures r.1.None? ==> r.0.value == n
    ensures r.1.Some? ==> r.0 == a
    ensures Valid(a) ==> Valid(r.0)
  {
    match MakeAge(n)
    case Success(b) => (b, None)
    case Failure(e) => (a, Some(e))
  }

  /** `Age.__eq__`: compares the numeric values. */
  function AgeEq(a: Age, b: Age): (r: bool)
    ensures r <==> a == b
  {
    a.value == b.value
  }

  /** `Age.__str__`: "Idade: N ano", plus "s" when N > 1. */
  function AgeString(a: Age): string
  {
    "Idade: " + Text.IntToString(a.value) + " ano" + (if a.value > 1 then "s" else "")
  }

  /** Reads the number back out of an age rendering. */
  function ParseAgeString(s: string): Option<int>
  {
    if |s| < 7 || s[..7] != "Idade: " then None
    else
      var body := s[7..];
      var core := if |body| > 0 && body[|body| - 1] == 's' then body[..|body| - 1] else body;
      if |core| < 4 || core[|core| - 4..] != " ano" then None
      else
        var digits := core[..|core| - 4];
        if |digits| >= 1 && Text.AllDigits(digits) then Some(Text.ParseNat(digits)) else None
  }

  /** The rendering of a non-negative age keeps its value. */
  lemma AgeStringRoundTrip(a: Age)
    requires a.value >= 0
    ensures ParseAgeString(AgeString(a)) == Some(a.value)
  {
    var digits := Text.NatToString(a.value);
    var suffix := if a.value > 1 then "s" else "";
    var s := AgeString(a);
    assert s == "Idade: " + digits + " ano" + suffix;
    assert s[..7] == "Idade: ";
    var body := s[7..];
    assert body == digits + " ano" + suffix;
    var core := if |body| > 0 && body[|body| - 1] == 's' then body[..|body| - 1] else body;
    assert core == digits + " ano";
    assert core[|core| - 4..] == " ano";
    assert core[..|core| - 4] == digits;
    Text.ParseNatToString(a.value);
  }

  /** Distinct valid ages render differently. */
  lemma AgeStringInjective(a: Age, b: Age)
    requires Valid(a) && Valid(b)
    requires AgeString(a) == AgeString(b)
    ensures a == b
  {
    AgeStringRoundTrip(a);
    AgeStringRoundTrip(b);
  }

  /** No age rendering holds a line break. */
  lemma AgeStringNoBreak(a: Age)
    ensures forall i | 0 <= i < |AgeString(a)| :: AgeString(a)[i] != '\n'
  {
  }

  /** The plural "s" ends the rendering exactly when the age exceeds one year. */
  lemma AgeStringPlural(a: Age)
    ensures var s := AgeString(a); s[|s| - 1] == 's' <==> a.value > 1
  {
  }
}
