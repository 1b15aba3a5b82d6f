/** The few pieces of Java's `java.lang` that the splitter relies on: the 16-bit `char`, the
    32-bit `int`, the surrogate range of `Character` and `String.indexOf(int, int)`. */
module JavaLang {

  /** A Java `char`: one UTF-16 code unit. It is held in the 32-bit word that Java widens a
      `char` to in `int` arithmetic, so that expressions such as `(ch - '0') | ('9' - ch)`
      can be evaluated exactly as the JVM evaluates them. */
  type CodeUnit = c: bv32 | c < 0x1_0000

  /** A Java `String`: a sequence of UTF-16 code units (not of Unicode scalar values). */
  type JString = seq<CodeUnit>

  /** The values of a Java `int`. */
  type Int32 = x: int | -0x8000_0000 <= x < 0x8000_0000

  /** `Character.MIN_HIGH_SURROGATE` and `Character.MAX_LOW_SURROGATE`. */
  const MinHighSurrogate: CodeUnit := 0xD800
  const MaxLowSurrogate: CodeUnit := 0xDFFF

  /** A code unit that only ever occurs as one half of a surrogate pair. */
  predicate IsSurrogate(c: CodeUnit)
  {
    MinHighSurrogate <= c <= MaxLowSurrogate
  }

  /** Java's `w < 0` for an `int` held as a two's-complement word: its sign bit is set. */
  predicate IntNegative(w: bv32)
  {
    w >= 0x8000_0000
  }

  /** The sign bit of a bitwise `|` is the `|` of the sign bits. */
  lemma OrNegative(a: bv32, b: bv32)
    ensures IntNegative(a | b) <==> IntNegative(a) || IntNegative(b)
  {
  }

  /** `s.indexOf(ch, from)` for a `char` argument: the first position at or after `from`
      that holds the code unit `ch`, or -1 when there is none. For any argument below
      0x10000, surrogates included, Java's search is this plain code-unit comparison. */
  function IndexOf(s: JString, ch: CodeUnit, from: nat): (r: int)
    ensures r == -1 || from <= r < |s|
    ensures from <= |s| ==> (r == -1 <==> ch !in s[from..])
    ensures r != -1 ==> s[r] == ch && ch !in s[from..r]
    decreases |s| - from
  {
    if from >= |s| then -1
    else
      assert s[from..] == [s[from]] + s[from + 1..];
      if s[from] == ch then from
      else
        var r := IndexOf(s, ch, from + 1);
        assert r != -1 ==> s[from..r] == [s[from]] + s[from + 1..r];
        r
  }
}
