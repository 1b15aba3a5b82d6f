/** What the fast path of `split` promises, stated on `FastPathResult`, which the method
    `LiteralSplit.FastPath` is proved to compute. */
module FastPathProperties {
  import opened JavaLang
  import opened Pieces
  import opened LiteralSplit

  /** Without an occurrence of `ch` the result is the whole string as the only piece, for
      every limit: also for a zero limit and an empty string, where nothing is trimmed. */
  lemma NoMatchIsWhole(str: JString, ch: CodeUnit, regexLength: nat, limit: Int32)
    requires Count(str, ch) == 0
    ensures FastPathResult(str, ch, regexLength, limit) == Ok([str])
  {
  }

  /** Below the limit (a negative limit, or a positive one above the number of occurrences)
      the k occurrences give k + 1 pieces, none holds `ch`, and joining them with `ch`
      rebuilds the string, so they are the pieces between the occurrences, in order. */
  lemma BelowLimitRebuilds(str: JString, ch: CodeUnit, regexLength: nat, limit: Int32)
    requires ch in str && limit != 0 && !ReachesLimit(str, ch, limit)
    ensures var r := FastPathResult(str, ch, regexLength, limit);
      r.Ok? && |r.pieces| == Count(str, ch) + 1
      && AllFree(r.pieces, ch) && Join(r.pieces, ch) == str
  {
    SplitAllRebuilds(str, ch);
  }

  /** Under a non-zero limit that is not reached, a string ending with `ch` keeps its
      trailing empty piece. */
  lemma NonZeroLimitKeepsTrailingEmpty(str: JString, ch: CodeUnit, regexLength: nat, limit: Int32)
    requires limit != 0 && !ReachesLimit(str, ch, limit)
    requires |str| > 0 && str[|str| - 1] == ch
    ensures var r := FastPathResult(str, ch, regexLength, limit);
      r.Ok? && |r.pieces| >= 2 && r.pieces[|r.pieces| - 1] == []
  {
    assert ch in str;
    SplitAllLastEmpty(str, ch);
  }

  /** A zero limit only removes empty pieces from the end of the negative-limit result; what
      remains ends with a non-empty piece unless the string itself is empty. */
  lemma ZeroLimitTrims(str: JString, ch: CodeUnit, regexLength: nat, negative: Int32)
    requires negative < 0
    ensures var zero := FastPathResult(str, ch, regexLength, 0);
      var all := FastPathResult(str, ch, regexLength, negative);
      zero.Ok? && all.Ok? && zero.pieces <= all.pieces
      && (forall i :: |zero.pieces| <= i < |all.pieces| ==> all.pieces[i] == [])
      && (str != [] ==> zero.pieces == [] || zero.pieces[|zero.pieces| - 1] != [])
  {
  }

  /** A positive limit bounds the number of pieces, and only a reached limit can throw. */
  lemma PositiveLimitBound(str: JString, ch: CodeUnit, regexLength: nat, limit: Int32)
    requires limit > 0
    ensures var r := FastPathResult(str, ch, regexLength, limit);
      (r.Ok? ==> |r.pieces| <= limit)
      && (r.IndexOutOfBounds? ==> ReachesLimit(str, ch, limit))
      && !r.PatternSyntaxError?
  {
  }

  /** Where the scan stands when the limit is reached: right after the (limit - 1)-th
      occurrence of `ch`, or at 0 for a limit of 1. */
  lemma LimitOffsetAfterOccurrence(str: JString, ch: CodeUnit, limit: Int32)
    requires ReachesLimit(str, ch, limit)
    ensures var off := LimitOffset(str, ch, limit);
      off <= |str| && Count(str[..off], ch) == limit - 1
      && (limit == 1 ==> off == 0) && (limit > 1 ==> str[off - 1] == ch)
  {
    var t := Terminated(SplitAll(str, ch)[..limit - 1], ch);
    SplitAllPrefix(str, ch, limit - 1);
    assert str[..|t|] == t;
  }

  /** A reached limit: the first `limit - 1` pieces are those before the first `limit - 1`
      occurrences, the last piece is `str[off..regexLength]` and nothing follows it; the call
      throws exactly when `off > regexLength` or `regexLength > |str|`. */
  lemma AtLimitResult(str: JString, ch: CodeUnit, regexLength: nat, limit: Int32)
    requires ReachesLimit(str, ch, limit)
    ensures var off := LimitOffset(str, ch, limit);
      var r := FastPathResult(str, ch, regexLength, limit);
      (r.IndexOutOfBounds? <==> off > regexLength || regexLength > |str|)
      && (r.Ok? ==>
        |r.pieces| == limit && r.pieces[limit - 1] == str[off..regexLength]
        && AllFree(r.pieces[..limit - 1], ch)
        && Terminated(r.pieces[..limit - 1], ch) == str[..off])
  {
    var all := SplitAll(str, ch);
    SplitAllPrefix(str, ch, limit - 1);
    SplitAllRebuilds(str, ch);
    var front := all[..limit - 1];
    assert AllFree(front, ch) by {
      forall i | 0 <= i < |front| ensures ch !in front[i] {
        assert front[i] == all[i];
      }
    }
    var r := FastPathResult(str, ch, regexLength, limit);
    if r.Ok? {
      assert r.pieces[..limit - 1] == front;
    }
  }

  /** A limit of 1 with a match yields the first `regexLength` units of the string. */
  lemma LimitOneWithMatch(str: JString, ch: CodeUnit, regexLength: nat)
    requires ch in str
    ensures FastPathResult(str, ch, regexLength, 1)
      == if regexLength <= |str| then Ok([str[..regexLength]]) else IndexOutOfBounds
  {
    assert SplitAll(str, ch)[..0] == [];
  }

  /** Splitting a join: delimiter-free pieces joined with `ch` come back unchanged under any
      limit that is negative or not below their number. */
  lemma SplitOfJoin(ps: seq<JString>, ch: CodeUnit, regexLength: nat, limit: Int32)
    requires |ps| >= 1 && AllFree(ps, ch) && (limit < 0 || limit >= |ps|)
    ensures FastPathResult(Join(ps, ch), ch, regexLength, limit) == Ok(ps)
  {
    var str := Join(ps, ch);
    SplitAllUnique(ps, ch);
    if ch !in str {
      SplitAllNoDelimiter(str, ch);
    }
  }

  /** Under a zero limit, two or more delimiter-free pieces joined with `ch` come back with
      their trailing empty pieces removed. */
  lemma ZeroLimitSplitOfJoin(ps: seq<JString>, ch: CodeUnit, regexLength: nat)
    requires |ps| >= 2 && AllFree(ps, ch)
    ensures FastPathResult(Join(ps, ch), ch, regexLength, 0) == Ok(TrimTrailingEmpty(ps))
  {
    var str := Join(ps, ch);
    SplitAllUnique(ps, ch);
    assert Count(str, ch) >= 1;
  }
}
