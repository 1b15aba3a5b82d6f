/** The fast path as evidently intended: at the limit, the last piece is the whole rest of the
    string, `str.substring(off, str.length())`, as in the `String.split` the method was
    adapted from, instead of `str.substring(off, regex.length())`. */
module CorrectedSplit {
  import opened JavaLang
  import opened Pieces
  import opened LiteralSplit

  /** The corrected outcome: identical to `FastPathResult` except that a reached limit keeps
      everything after the (limit - 1)-th occurrence as the last piece, and cannot throw. */
  function CorrectedResult(str: JString, ch: CodeUnit, limit: Int32): SplitResult
  {
    if ch !in str then Ok([str])
    else if ReachesLimit(str, ch, limit) then
      Ok(SplitAll(str, ch)[..limit - 1] + [str[LimitOffset(str, ch, limit)..]])
    else if limit == 0 then Ok(TrimTrailingEmpty(SplitAll(str, ch)))
    else Ok(SplitAll(str, ch))
  }

  /** The first `limit - 1` pieces of the unlimited split hold no delimiter and, each
      followed by it, spell out the string up to `LimitOffset`. */
  lemma LimitFront(str: JString, ch: CodeUnit, limit: Int32)
    requires ReachesLimit(str, ch, limit)
    ensures var front := SplitAll(str, ch)[..limit - 1];
      AllFree(front, ch) && str[..LimitOffset(str, ch, limit)] == Terminated(front, ch)
  {
    var all := SplitAll(str, ch);
    var front := all[..limit - 1];
    SplitAllFree(str, ch);
    SplitAllPrefix(str, ch, limit - 1);
    forall i | 0 <= i < |front| ensures ch !in front[i] {
      assert front[i] == all[i];
    }
  }

  /** For every non-zero limit the corrected split loses nothing: joining its pieces with `ch`
      rebuilds the string, only the last piece may hold `ch`, and a positive limit bounds the
      number of pieces. */
  lemma CorrectedRebuilds(str: JString, ch: CodeUnit, limit: Int32)
    requires limit != 0
    ensures var r := CorrectedResult(str, ch, limit);
      r.Ok? && 1 <= |r.pieces| && (limit > 0 ==> |r.pieces| <= limit)
      && AllFree(r.pieces[..|r.pieces| - 1], ch) && Join(r.pieces, ch) == str
  {
    var r := CorrectedResult(str, ch, limit);
    if ch !in str {
      assert r.pieces[..0] == [];
    } else if ReachesLimit(str, ch, limit) {
      CorrectedAtLimit(str, ch, limit);
    } else {
      var all := SplitAll(str, ch);
      SplitAllRebuilds(str, ch);
      var front := all[..|all| - 1];
      assert AllFree(front, ch) by {
        forall i | 0 <= i < |front| ensures ch !in front[i] {
          assert front[i] == all[i];
        }
      }
    }
  }

  /** The case of `CorrectedRebuilds` where the limit is reached. */
  lemma CorrectedAtLimit(str: JString, ch: CodeUnit, limit: Int32)
    requires ReachesLimit(str, ch, limit) && ch in str
    ensures var r := CorrectedResult(str, ch, limit);
      r.Ok? && |r.pieces| == limit
      && AllFree(r.pieces[..limit - 1], ch) && Join(r.pieces, ch) == str
  {
    var front := SplitAll(str, ch)[..limit - 1];
    var off := LimitOffset(str, ch, limit);
    LimitFront(str, ch, limit);
    JoinAppend(front, str[off..], ch);
    assert str == str[..off] + str[off..];
    assert (front + [str[off..]])[..limit - 1] == front;
  }

  /** Below the limit, and without a match, the code as written already behaves as intended;
      the two differ only when the limit is reached. */
  lemma CorrectedAgreesBelowLimit(str: JString, ch: CodeUnit, regexLength: nat, limit: Int32)
    requires !ReachesLimit(str, ch, limit) || ch !in str
    ensures CorrectedResult(str, ch, limit) == FastPathResult(str, ch, regexLength, limit)
  {
  }

  /** As written, a split that reaches its limit and does not throw keeps only the first
      `regexLength` units of the string: joining its pieces gives `str[..regexLength]`, so text
      is lost whenever the string is longer than the pattern. */
  lemma AsWrittenKeepsPatternLengthPrefix(str: JString, ch: CodeUnit, regexLength: nat, limit: Int32)
    requires ReachesLimit(str, ch, limit)
    ensures var r := FastPathResult(str, ch, regexLength, limit);
      r.Ok? ==> regexLength <= |str| && Join(r.pieces, ch) == str[..regexLength]
  {
    var r := FastPathResult(str, ch, regexLength, limit);
    if r.Ok? {
      var front := SplitAll(str, ch)[..limit - 1];
      var off := LimitOffset(str, ch, limit);
      LimitFront(str, ch, limit);
      assert ch in str;
      JoinAppend(front, str[off..regexLength], ch);
      assert str[..regexLength] == str[..off] + str[off..regexLength];
    }
  }

  /** A string `p + [ch] + rest` with `ch` absent from `p` and present in `rest` reaches a
      limit of 2, its first piece is `p`, and the scan stops right after the first `ch`. */
  lemma LimitTwo(p: JString, rest: JString, ch: CodeUnit)
    requires ch !in p && ch in rest
    ensures var str := p + [ch] + rest;
      ReachesLimit(str, ch, 2) && ch in str && SplitAll(str, ch)[..1] == [p]
      && LimitOffset(str, ch, 2) == |p| + 1 && str[|p| + 1..] == rest
  {
    var str := p + [ch] + rest;
    SplitAllCons(p, rest, ch);
    assert str[|p|] == ch;
    assert SplitAll(str, ch)[..1] == [p];
    assert Terminated([p], ch) == p + [ch];
    assert str[|p| + 1..] == rest;
  }

  /** With a limit of 2 and a one-unit pattern, a first piece `p` of one unit or more makes
      the code as written throw (`substring(|p| + 1, 1)`), while the intended result is
      `[p, rest]`. */
  lemma AsWrittenThrowsAtLimitTwo(p: JString, rest: JString, ch: CodeUnit)
    requires ch !in p && ch in rest && |p| >= 1
    ensures FastPathResult(p + [ch] + rest, ch, 1, 2) == IndexOutOfBounds
    ensures CorrectedResult(p + [ch] + rest, ch, 2) == Ok([p, rest])
  {
    LimitTwo(p, rest, ch);
  }

  /** With a limit of 2 and a one-unit pattern, a string that starts with `ch` gives `["", ""]`
      as written, losing `rest`, while the intended result is `["", rest]`. */
  lemma AsWrittenTruncatesAtLimitTwo(rest: JString, ch: CodeUnit)
    requires ch in rest
    ensures FastPathResult([ch] + rest, ch, 1, 2) == Ok([[], []])
    ensures CorrectedResult([ch] + rest, ch, 2) == Ok([[], rest])
  {
    LimitTwo([], rest, ch);
    assert [] + [ch] + rest == [ch] + rest;
    assert ([ch] + rest)[1..1] == [];
  }

  /** `split("aXbXcXd", "X", 2)`: as written the last piece would be `substring(2, 1)`, which
      throws; as intended the result is `["a", "bXcXd"]`. */
  lemma AsWrittenThrows()
    ensures var str: JString := [0x61, 0x58, 0x62, 0x58, 0x63, 0x58, 0x64];
      FastPathResult(str, 0x58, 1, 2) == IndexOutOfBounds
      && CorrectedResult(str, 0x58, 2) == Ok([[0x61], [0x62, 0x58, 0x63, 0x58, 0x64]])
  {
    var p: JString := [0x61];
    var rest: JString := [0x62, 0x58, 0x63, 0x58, 0x64];
    assert rest[1] == 0x58;
    AsWrittenThrowsAtLimitTwo(p, rest, 0x58);
    assert p + [0x58] + rest == [0x61, 0x58, 0x62, 0x58, 0x63, 0x58, 0x64];
  }

  /** `split("XaXb", "X", 2)`: as written the result is `["", ""]`; as intended it is
      `["", "aXb"]`. */
  lemma AsWrittenTruncates()
    ensures var str: JString := [0x58, 0x61, 0x58, 0x62];
      FastPathResult(str, 0x58, 1, 2) == Ok([[], []])
      && CorrectedResult(str, 0x58, 2) == Ok([[], [0x61, 0x58, 0x62]])
  {
    var rest: JString := [0x61, 0x58, 0x62];
    assert rest[1] == 0x58;
    AsWrittenTruncatesAtLimitTwo(rest, 0x58);
    assert [0x58] + rest == [0x58, 0x61, 0x58, 0x62];
  }
}
