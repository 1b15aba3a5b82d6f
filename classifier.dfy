/** The delimiter classifier of `UDFSplitWithLimit.split`: decides from the pattern alone
    whether it denotes one literal code unit that can be found with `indexOf`. */
module Classifier {
  import opened JavaLang

  /** Where `split` sends a pattern: the literal fast path with the code unit to look for,
      or the regular-expression fallback. */
  datatype Route = Literal(ch: CodeUnit) | Pattern

  // The ASCII code units the classifier compares with.
  const Backslash: CodeUnit := 0x5C  // '\\'
  const Digit0: CodeUnit := 0x30     // '0'
  const Digit9: CodeUnit := 0x39     // '9'
  const LowerA: CodeUnit := 0x61     // 'a'
  const LowerZ: CodeUnit := 0x7A     // 'z'
  const UpperA: CodeUnit := 0x41     // 'A'
  const UpperZ: CodeUnit := 0x5A     // 'Z'

  /** The string `".$|()[{^?*+\\"` that the classifier searches a one-unit pattern in. */
  const MetaChars: JString :=
    [0x2E, 0x24, 0x7C, 0x28, 0x29, 0x5B, 0x7B, 0x5E, 0x3F, 0x2A, 0x2B, 0x5C]

  /** Java's `((c - lo) | (hi - c)) < 0`, evaluated on `int` words. */
  predicate OutsideByOr(c: CodeUnit, lo: CodeUnit, hi: CodeUnit)
  {
    IntNegative((c - lo) | (hi - c))
  }

  /** The classifier's condition, with `ch` bound to the unit it reads last. */
  function Classify(regex: JString): (route: Route)
    ensures route.Literal? ==>
      1 <= |regex| <= 2 && route.ch == regex[|regex| - 1] && !IsSurrogate(route.ch)
  {
    if |regex| == 1 && IndexOf(MetaChars, regex[0], 0) == -1
      && (regex[0] < MinHighSurrogate || regex[0] > MaxLowSurrogate)
    then Literal(regex[0])
    else if |regex| == 2 && regex[0] == Backslash
      && OutsideByOr(regex[1], Digit0, Digit9)
      && OutsideByOr(regex[1], LowerA, LowerZ)
      && OutsideByOr(regex[1], UpperA, UpperZ)
      && (regex[1] < MinHighSurrogate || regex[1] > MaxLowSurrogate)
    then Literal(regex[1])
    else Pattern
  }

  /** One of the twelve regular-expression metacharacters `. $ | ( ) [ { ^ ? * + \`. */
  predicate IsMeta(c: CodeUnit)
  {
    c == 0x2E || c == 0x24 || c == 0x7C || c == 0x28 || c == 0x29 || c == 0x5B
    || c == 0x7B || c == 0x5E || c == 0x3F || c == 0x2A || c == 0x2B || c == Backslash
  }

  /** An ASCII digit, lower-case letter or upper-case letter. */
  predicate IsAsciiAlnum(c: CodeUnit)
  {
    (Digit0 <= c <= Digit9) || (LowerA <= c <= LowerZ) || (UpperA <= c <= UpperZ)
  }

  /** Searching the metacharacter string fails exactly for non-metacharacters. */
  lemma MetaCharsIndex(c: CodeUnit)
    ensures IndexOf(MetaChars, c, 0) == -1 <==> !IsMeta(c)
  {
    assert MetaChars[0..] == MetaChars;
    assert c in MetaChars <==> IsMeta(c);
  }

  lemma NotDigitByOr(c: CodeUnit)
    ensures OutsideByOr(c, Digit0, Digit9) <==> !(Digit0 <= c <= Digit9)
  {
    OrNegative(c - Digit0, Digit9 - c);
  }

  lemma NotLowerByOr(c: CodeUnit)
    ensures OutsideByOr(c, LowerA, LowerZ) <==> !(LowerA <= c <= LowerZ)
  {
    OrNegative(c - LowerA, LowerZ - c);
  }

  lemma NotUpperByOr(c: CodeUnit)
    ensures OutsideByOr(c, UpperA, UpperZ) <==> !(UpperA <= c <= UpperZ)
  {
    OrNegative(c - UpperA, UpperZ - c);
  }

  /** A one-unit pattern is literal exactly when it is neither a metacharacter nor a
      surrogate, and the unit searched for is the pattern itself. */
  lemma ClassifySingle(regex: JString)
    requires |regex| == 1
    ensures Classify(regex) ==
      if !IsMeta(regex[0]) && !IsSurrogate(regex[0]) then Literal(regex[0]) else Pattern
  {
    MetaCharsIndex(regex[0]);
  }

  /** A two-unit pattern is literal exactly when it is a backslash followed by a unit that is
      no ASCII letter or digit and no surrogate; the unit searched for is the escaped one. */
  lemma ClassifyEscaped(regex: JString)
    requires |regex| == 2
    ensures Classify(regex) ==
      if regex[0] == Backslash && !IsAsciiAlnum(regex[1]) && !IsSurrogate(regex[1])
      then Literal(regex[1]) else Pattern
  {
    NotDigitByOr(regex[1]);
    NotLowerByOr(regex[1]);
    NotUpperByOr(regex[1]);
  }

  /** Empty patterns and patterns of three or more units always go to the fallback. */
  lemma ClassifyOtherLengths(regex: JString)
    requires |regex| == 0 || |regex| >= 3
    ensures Classify(regex) == Pattern
  {
  }

  /** `","` is a literal comma. */
  lemma ClassifyCommaExample()
    ensures Classify([0x2C]) == Literal(0x2C)
  {
    var comma: JString := [0x2C];
    ClassifySingle(comma);
    assert !IsMeta(comma[0]) && !IsSurrogate(comma[0]);
  }

  /** `"."` is a metacharacter, so it goes to the fallback. */
  lemma ClassifyDotExample()
    ensures Classify([0x2E]) == Pattern
  {
    ClassifySingle([0x2E]);
  }

  /** `"\\."` is a literal dot. */
  lemma ClassifyEscapedDotExample()
    ensures Classify([Backslash, 0x2E]) == Literal(0x2E)
  {
    ClassifyEscaped([Backslash, 0x2E]);
  }

  /** `"\\d"` is a character class, so it goes to the fallback. */
  lemma ClassifyEscapedLetterExample()
    ensures Classify([Backslash, 0x64]) == Pattern
  {
    ClassifyEscaped([Backslash, 0x64]);
  }

  /** `"[ABC]"` has five units and goes to the fallback. */
  lemma ClassifyClassExample()
    ensures Classify([0x5B, 0x41, 0x42, 0x43, 0x5D]) == Pattern
  {
  }
}
