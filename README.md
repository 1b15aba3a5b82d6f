# UDFSplitWithLimit.split, modelled in Dafny

This project models the static method `split(String str, String regex, int limit)` of Hive's
`split` user-defined function. The method splits `str` around the matches of `regex`, keeping
at most `limit` pieces when `limit` is positive. It returns every piece when `limit` is
negative. When `limit` is zero it drops empty pieces from the end. The method has two parts:

- **The classifier.** A single boolean condition decides whether the pattern denotes one
  literal UTF-16 code unit `ch`. That is the case for one unit that is not a regular-expression
  metacharacter, or a backslash followed by a unit that is not an ASCII letter or digit. In
  both cases `ch` must also lie outside the surrogate range `0xD800..0xDFFF`.
- **The literal fast path.** It scans `str` with `indexOf(ch, off)` and collects pieces in a
  list while the limit allows. At the limit it takes one last piece and stops, and adds no
  remainder. Otherwise, once no match is left, it adds the remainder. For a zero limit it then
  moves the result size back over trailing empty pieces.

Every other pattern is handed to `Pattern.compile(regex).split(str, limit)`.

Java strings are sequences of UTF-16 code units (`JavaLang.JString`). A code unit is held in a
32-bit word, so that Java's `((ch - '0') | ('9' - ch)) < 0` is evaluated on two's-complement
`int`s exactly as the JVM does. `limit` ranges over Java's `int`. The outcome is a
`SplitResult`: the pieces, the `StringIndexOutOfBoundsException` of `String.substring`, or the
`PatternSyntaxException` that only the regular-expression fallback can raise.

The model is organised as follows:

- `Pieces` specifies splitting a sequence at one delimiter element, generically:
  - `SplitAll` is the unlimited split, defined one element at a time;
  - `Join` is its inverse, and `SplitAllRebuilds` and `SplitAllUnique` prove the round trip in
    both directions;
  - `TrimTrailingEmpty` removes the empty pieces at the end.
- `LiteralSplit.FastPathResult` is a function that states what the fast path computes:
  - no match gives `[str]`;
  - a reached limit gives the first `limit - 1` pieces plus `str[off..regex.length()]`, or the
    index error;
  - otherwise the unlimited split, trimmed for a zero limit.
- The methods `LiteralSplit.Scan` (the `while` loop) and `LiteralSplit.FastPath` (the whole
  fast path) are imperative. They are proved to compute `FastPathResult`, and
  `LiteralSplit.TrimmedSize` is the trimming loop.
- `FastPathProperties` proves what the fast path promises.
- `SplitWithLimit.Split` is the routing.
- `CorrectedSplit` holds the fast path as evidently intended (see Findings).

Where the code and the usual description of this function differ, the model follows the
code:

- When `ch` does not occur in `str`, the result is `[str]` for every limit. That includes a
  zero limit with an empty `str`, which gives `[""]` rather than `[]`: the code returns before
  any trimming (lines 138–139).
- When the limit is reached, the last piece ends at the pattern's length, not at the end of the
  string (line 132), and it may throw.

## Model

| member | source | states |
|---|---|---|
| JavaLang.IndexOf | src/main/java/org/apache/hadoop/hive/ql/udf/generic/UDFSplitWithLimit.java:126 | `str.indexOf(ch, off)` is -1 exactly when `ch` does not occur from `off` on; otherwise it is a position at or after `off` holding `ch`, with no `ch` between `off` and it |
| JavaLang.OrNegative | src/main/java/org/apache/hadoop/hive/ql/udf/generic/UDFSplitWithLimit.java:116-118 | the bitwise or of two `int`s is negative exactly when one of them is |
| Classifier.Classify | src/main/java/org/apache/hadoop/hive/ql/udf/generic/UDFSplitWithLimit.java:111-120 | a literal route only comes from a pattern of one or two units; its code unit is the pattern's last unit and is not a surrogate |
| Classifier.MetaCharsIndex | src/main/java/org/apache/hadoop/hive/ql/udf/generic/UDFSplitWithLimit.java:113 | searching the metacharacter string fails exactly for a unit that is none of the twelve metacharacters: dot, dollar, vertical bar, both parentheses, opening bracket, opening brace, caret, question mark, star, plus and backslash |
| Classifier.NotDigitByOr | src/main/java/org/apache/hadoop/hive/ql/udf/generic/UDFSplitWithLimit.java:116 | the sign test on `(ch-'0')` or-ed with `('9'-ch)` holds exactly when `ch` is not an ASCII digit |
| Classifier.NotLowerByOr | src/main/java/org/apache/hadoop/hive/ql/udf/generic/UDFSplitWithLimit.java:117 | the sign test on `(ch-'a')` or-ed with `('z'-ch)` holds exactly when `ch` is not an ASCII lower-case letter |
| Classifier.NotUpperByOr | src/main/java/org/apache/hadoop/hive/ql/udf/generic/UDFSplitWithLimit.java:118 | the sign test on `(ch-'A')` or-ed with `('Z'-ch)` holds exactly when `ch` is not an ASCII upper-case letter |
| Classifier.ClassifySingle | src/main/java/org/apache/hadoop/hive/ql/udf/generic/UDFSplitWithLimit.java:112-120 | a one-unit pattern takes the fast path iff its unit is neither a metacharacter nor a surrogate, and then `ch` is that unit |
| Classifier.ClassifyEscaped | src/main/java/org/apache/hadoop/hive/ql/udf/generic/UDFSplitWithLimit.java:114-120 | a two-unit pattern takes the fast path iff it is a backslash followed by a unit that is no ASCII digit or letter and no surrogate, and then `ch` is the second unit |
| Classifier.ClassifyOtherLengths | src/main/java/org/apache/hadoop/hive/ql/udf/generic/UDFSplitWithLimit.java:112-120 | an empty pattern, or one of three or more units, always goes to the fallback |
| Classifier.ClassifyCommaExample | src/main/java/org/apache/hadoop/hive/ql/udf/generic/UDFSplitWithLimit.java:105-107 | `","` is the literal comma |
| Classifier.ClassifyDotExample | src/main/java/org/apache/hadoop/hive/ql/udf/generic/UDFSplitWithLimit.java:105-107 | `"."` is a metacharacter and goes to the fallback |
| Classifier.ClassifyEscapedDotExample | src/main/java/org/apache/hadoop/hive/ql/udf/generic/UDFSplitWithLimit.java:108-109 | `"\\."` is the literal dot |
| Classifier.ClassifyEscapedLetterExample | src/main/java/org/apache/hadoop/hive/ql/udf/generic/UDFSplitWithLimit.java:108-109 | `"\\d"` escapes a letter and goes to the fallback |
| Classifier.ClassifyClassExample | src/main/java/org/apache/hadoop/hive/ql/udf/generic/UDFSplitWithLimit.java:42 | the documented pattern `"[ABC]"` goes to the fallback |
| Pieces.SplitAll | src/main/java/org/apache/hadoop/hive/ql/udf/generic/UDFSplitWithLimit.java:126-145 | the unlimited split of a string with `k` occurrences of `ch` has `k + 1` pieces |
| Pieces.SplitAllRebuilds | src/main/java/org/apache/hadoop/hive/ql/udf/generic/UDFSplitWithLimit.java:126-145 | no piece of the unlimited split holds `ch`, and joining the pieces with `ch` gives the string back |
| Pieces.SplitAllUnique | src/main/java/org/apache/hadoop/hive/ql/udf/generic/UDFSplitWithLimit.java:126-145 | splitting the join of delimiter-free pieces gives those pieces back, so the unlimited split is the only such decomposition |
| Pieces.TrimTrailingEmpty | src/main/java/org/apache/hadoop/hive/ql/udf/generic/UDFSplitWithLimit.java:148-151 | trimming yields a prefix whose last piece, if any, is non-empty, and every piece it drops is empty |
| Pieces.SplitAllPrefix | src/main/java/org/apache/hadoop/hive/ql/udf/generic/UDFSplitWithLimit.java:126-129 | the first `m` pieces, each followed by `ch`, form a prefix of the string holding exactly `m` occurrences and ending with `ch` |
| Pieces.SplitAllLastEmpty | src/main/java/org/apache/hadoop/hive/ql/udf/generic/UDFSplitWithLimit.java:141-145 | a string ending with `ch` has an empty last piece |
| LiteralSplit.LimitOffset | src/main/java/org/apache/hadoop/hive/ql/udf/generic/UDFSplitWithLimit.java:127-131 | the value of `off` when the last-one branch is reached: the length of the first `limit - 1` pieces, each followed by `ch`, which never exceeds `str.length()` (`LimitOffsetAfterOccurrence` places it right after the `(limit - 1)`-th occurrence) |
| LiteralSplit.FastPathResult | src/main/java/org/apache/hadoop/hive/ql/udf/generic/UDFSplitWithLimit.java:122-153 | the fast path's outcome as written: no match gives `[str]`; a reached limit gives the first `limit - 1` pieces plus `str[off..regex.length()]`, or the index error; otherwise the unlimited split, trimmed for a zero limit. Its contract states that it never raises a pattern error, that it throws only when the limit is reached and `substring(off, regex.length())` is out of bounds, and that a positive limit yields between 1 and `limit` pieces |
| LiteralSplit.ScanStep | src/main/java/org/apache/hadoop/hive/ql/udf/generic/UDFSplitWithLimit.java:126-129 | appending `str[off..next]` and moving `off` past `next` keeps the scan invariant: the collected pieces are delimiter-free and, each followed by `ch`, spell out `str[..off]` |
| LiteralSplit.ScannedSplit | src/main/java/org/apache/hadoop/hive/ql/udf/generic/UDFSplitWithLimit.java:126-129 | under the scan invariant, the collected pieces followed by the unlimited split of `str[off..]` are the unlimited split of `str` |
| LiteralSplit.ScanAtLimit | src/main/java/org/apache/hadoop/hive/ql/udf/generic/UDFSplitWithLimit.java:130-131 | meeting an occurrence with `limit - 1` pieces collected means the limit is reached, the pieces are the first `limit - 1` of the unlimited split, and `off` is the offset after the `(limit - 1)`-th occurrence |
| LiteralSplit.ScanDone | src/main/java/org/apache/hadoop/hive/ql/udf/generic/UDFSplitWithLimit.java:126-139 | when no occurrence is left, the collected pieces plus `str[off..]` are the unlimited split, and `off == 0` exactly when `ch` never occurs |
| LiteralSplit.ThrowsAtLimit | src/main/java/org/apache/hadoop/hive/ql/udf/generic/UDFSplitWithLimit.java:132 | a reached limit with `off > regex.length()` or `regex.length() > str.length()` throws the index error |
| LiteralSplit.FinishScan | src/main/java/org/apache/hadoop/hive/ql/udf/generic/UDFSplitWithLimit.java:137-153 | from the state the scan leaves, the code after the loop produces `FastPathResult`, and the last-one branch was taken exactly when the limit is reached |
| LiteralSplit.Scan | src/main/java/org/apache/hadoop/hive/ql/udf/generic/UDFSplitWithLimit.java:122-136 | the scan loop either throws exactly when `FastPathResult` is the index error, or leaves `off` and the list from which each branch after the loop yields `FastPathResult`; the last-one branch is taken exactly when `str` holds at least `limit` occurrences of `ch` |
| LiteralSplit.FastPath | src/main/java/org/apache/hadoop/hive/ql/udf/generic/UDFSplitWithLimit.java:122-153 | the fast path, entered with what the classifier guarantees, returns `FastPathResult`: the no-match answer, the limited pieces or the index error, or the unlimited split trimmed for a zero limit |
| LiteralSplit.TrimmedSize | src/main/java/org/apache/hadoop/hive/ql/udf/generic/UDFSplitWithLimit.java:148-151 | the trimming loop stops at the size of `TrimTrailingEmpty(list)` |
| FastPathProperties.NoMatchIsWhole | src/main/java/org/apache/hadoop/hive/ql/udf/generic/UDFSplitWithLimit.java:137-139 | without an occurrence of `ch` the result is exactly `[str]` for every limit, including zero |
| FastPathProperties.BelowLimitRebuilds | src/main/java/org/apache/hadoop/hive/ql/udf/generic/UDFSplitWithLimit.java:126-145 | below the limit, `k` occurrences give `k + 1` pieces, none holds `ch`, and joining them with `ch` rebuilds `str` |
| FastPathProperties.NonZeroLimitKeepsTrailingEmpty | src/main/java/org/apache/hadoop/hive/ql/udf/generic/UDFSplitWithLimit.java:148-153 | under a non-zero limit that is not reached, a trailing empty piece survives |
| FastPathProperties.ZeroLimitTrims | src/main/java/org/apache/hadoop/hive/ql/udf/generic/UDFSplitWithLimit.java:148-153 | the zero-limit result is a prefix of the negative-limit result, all dropped pieces are empty, and for a non-empty string its last piece is non-empty |
| FastPathProperties.PositiveLimitBound | src/main/java/org/apache/hadoop/hive/ql/udf/generic/UDFSplitWithLimit.java:124-142 | a positive limit bounds the number of pieces; only a reached limit can throw; the fast path never raises a pattern error |
| FastPathProperties.LimitOffsetAfterOccurrence | src/main/java/org/apache/hadoop/hive/ql/udf/generic/UDFSplitWithLimit.java:127-129 | at the limit the scan stands right after the `(limit - 1)`-th occurrence of `ch`, or at 0 for a limit of 1 |
| FastPathProperties.AtLimitResult | src/main/java/org/apache/hadoop/hive/ql/udf/generic/UDFSplitWithLimit.java:130-142 | at the limit the call throws iff `off > regex.length()` or `regex.length() > str.length()`; otherwise it returns `limit` pieces: `limit - 1` delimiter-free pieces spelling `str[..off]`, then `str[off..regex.length()]`, and no remainder |
| FastPathProperties.LimitOneWithMatch | src/main/java/org/apache/hadoop/hive/ql/udf/generic/UDFSplitWithLimit.java:130-134 | a limit of 1 with a match yields `[str[..regex.length()]]`, or the index error when the pattern is longer than `str` |
| FastPathProperties.SplitOfJoin | src/main/java/org/apache/hadoop/hive/ql/udf/generic/UDFSplitWithLimit.java:126-145 | delimiter-free pieces joined with `ch` are split back into exactly those pieces under a negative limit or one not below their number |
| FastPathProperties.ZeroLimitSplitOfJoin | src/main/java/org/apache/hadoop/hive/ql/udf/generic/UDFSplitWithLimit.java:148-153 | under a zero limit, two or more joined pieces come back with their trailing empty pieces removed |
| CorrectedSplit.CorrectedRebuilds | src/main/java/org/apache/hadoop/hive/ql/udf/generic/UDFSplitWithLimit.java:130-134 | with the last piece running to the end of `str`, every non-zero limit gives pieces that rebuild `str`, of which only the last may hold `ch`, and no more than a positive limit |
| CorrectedSplit.CorrectedAtLimit | src/main/java/org/apache/hadoop/hive/ql/udf/generic/UDFSplitWithLimit.java:130-134 | the corrected split at a reached limit has exactly `limit` pieces and rebuilds `str` |
| CorrectedSplit.CorrectedAgreesBelowLimit | src/main/java/org/apache/hadoop/hive/ql/udf/generic/UDFSplitWithLimit.java:126-153 | the code as written and the corrected version agree whenever there is no match or the limit is not reached |
| CorrectedSplit.AsWrittenKeepsPatternLengthPrefix | src/main/java/org/apache/hadoop/hive/ql/udf/generic/UDFSplitWithLimit.java:132-133 | as written, a reached limit that does not throw returns pieces whose join is `str[..regex.length()]` |
| CorrectedSplit.AsWrittenThrowsAtLimitTwo | src/main/java/org/apache/hadoop/hive/ql/udf/generic/UDFSplitWithLimit.java:132 | with limit 2, a one-unit pattern and a non-empty first piece `p`, the code throws, while the intended result is `[p, rest]` |
| CorrectedSplit.AsWrittenTruncatesAtLimitTwo | src/main/java/org/apache/hadoop/hive/ql/udf/generic/UDFSplitWithLimit.java:132-133 | with limit 2 and a one-unit pattern, a string starting with `ch` gives `["", ""]`, while the intended result is `["", rest]` |
| CorrectedSplit.AsWrittenThrows | src/main/java/org/apache/hadoop/hive/ql/udf/generic/UDFSplitWithLimit.java:132 | `split("aXbXcXd", "X", 2)` throws as written; as intended it is `["a", "bXcXd"]` |
| CorrectedSplit.AsWrittenTruncates | src/main/java/org/apache/hadoop/hive/ql/udf/generic/UDFSplitWithLimit.java:132-133 | `split("XaXb", "X", 2)` is `["", ""]` as written; as intended it is `["", "aXb"]` |
| SplitWithLimit.Split | src/main/java/org/apache/hadoop/hive/ql/udf/generic/UDFSplitWithLimit.java:111-155 | a literal route returns the fast path's result for the classifier's code unit; any other pattern returns the fallback's answer for the same pattern, string and limit |
| SplitWithLimit.CommaNegativeLimitExample | src/main/java/org/apache/hadoop/hive/ql/udf/generic/UDFSplitWithLimit.java:126-145 | `split("a,b,,c", ",", -1)` is `["a", "b", "", "c"]` |
| SplitWithLimit.CommaZeroLimitExample | src/main/java/org/apache/hadoop/hive/ql/udf/generic/UDFSplitWithLimit.java:148-153 | `split("a,b,,", ",", 0)` is `["a", "b"]` |
| SplitWithLimit.EmptyStringZeroLimitExample | src/main/java/org/apache/hadoop/hive/ql/udf/generic/UDFSplitWithLimit.java:138-139 | `split("", ",", 0)` is `[""]` |

## Left out

- `initialize` (lines 50–65) is left out. It checks the argument count and sets up Hive's object-inspector converters, which is host type-system glue.
- `evaluate` (lines 68–91) is left out. It handles null arguments, converts `Text`, parses the limit with `Integer.parseInt` and defaults it to `Integer.MAX_VALUE`, wraps the pieces as `Text`, and turns exceptions into `HiveException`. All of this is adapter code over foreign classes.
- `toString(Exception)` (lines 92–96) is left out: it formats stack traces for `System.err`, which is diagnostic I/O.
- `getDisplayString` (lines 159–161) is left out: it only builds a display string for query plans.
- `Pattern.compile(regex).split(str, limit)` (line 155) is not specified. `java.util.regex` is not part of this model, so it is the function parameter `patternSplit` of `SplitWithLimit.Split`, and the only property stated is the routing to it.
- The Java `String[]` and `ArrayList` are sequences. The model does not capture the copy that `subList(0, resultSize).toArray(result)` makes, nor the list's capacity growth.
- `String.indexOf(int, int)` is modelled as the search for one UTF-16 code unit, surrogates included, which is what Java does for any `char` argument. Its search for a supplementary code point, taken only for an argument of 0x10000 or more, is left out: line 126 passes a `char`, which never reaches it.
- SplitWithLimit.Split: its contract states the routing and the fast path's result, but says nothing about what the fallback computes.

## Findings

| source | as written | input that shows it | evidently intended | confidence | as-written member | corrected member |
|---|---|---|---|---|---|---|
| src/main/java/org/apache/hadoop/hive/ql/udf/generic/UDFSplitWithLimit.java:132-133 | at the limit the last piece is `str.substring(off, regex.length())` and `off` becomes `regex.length()`: the end index is the pattern's length (1 or 2), so the call throws when `off > regex.length()` or `regex.length() > str.length()` (for instance `split(",", "\\,", 1)` asks for `substring(0, 2)`) and otherwise drops everything after `str[..regex.length()]` | `split("aXbXcXd", "X", 2)` throws `StringIndexOutOfBoundsException` (`substring(2, 1)`); `split("XaXb", "X", 2)` returns `["", ""]` | the end index is the string's own length, as in `String.split`, which this method adapts: `["a", "bXcXd"]` and `["", "aXb"]`, and the pieces always rebuild `str` | high; not executed | CorrectedSplit.AsWrittenThrows | CorrectedSplit.CorrectedRebuilds |
