/** The literal fast path of `UDFSplitWithLimit.split`: the string is scanned with
    `indexOf` for one code unit, the pieces are collected in a list under the limit, and for
    a zero limit trailing empty pieces are cut off. */
module LiteralSplit {
  import opened JavaLang
  import opened Pieces

  /** What `split` returns or throws. `IndexOutOfBounds` is the
      `StringIndexOutOfBoundsException` of `String.substring`; `PatternSyntaxError` is what
      `Pattern.compile` throws for a malformed pattern (only the fallback can raise it). */
  datatype SplitResult = Ok(pieces: seq<JString>) | IndexOutOfBounds | PatternSyntaxError

  /** A positive limit that the string's occurrences of `ch` reach: the scan meets the
      `limit`-th occurrence while the list already holds `limit - 1` pieces. */
  predicate ReachesLimit(str: JString, ch: CodeUnit, limit: Int32)
  {
    limit > 0 && Count(str, ch) >= limit
  }

  /** Where the scan stands when it reaches the limit: the units consumed by the first
      `limit - 1` pieces and their delimiters. */
  function LimitOffset(str: JString, ch: CodeUnit, limit: Int32): (off: nat)
    requires ReachesLimit(str, ch, limit)
    ensures off <= |str|
  {
    SplitAllPrefix(str, ch, limit - 1);
    |Terminated(SplitAll(str, ch)[..limit - 1], ch)|
  }

  /** The fast path's outcome, as the code is written. When the limit is reached the final
      piece is `str.substring(off, regexLength)`, which ends at the pattern's length and not
      at the string's. */
  function FastPathResult(str: JString, ch: CodeUnit, regexLength: nat, limit: Int32): (r: SplitResult)
    ensures !r.PatternSyntaxError?
    ensures r.IndexOutOfBounds? ==>
      ReachesLimit(str, ch, limit) && !(LimitOffset(str, ch, limit) <= regexLength <= |str|)
    ensures r.Ok? && limit > 0 ==> 1 <= |r.pieces| <= limit
  {
    if ch !in str then Ok([str])
    else if ReachesLimit(str, ch, limit) then
      var off := LimitOffset(str, ch, limit);
      if off <= regexLength <= |str|
      then Ok(SplitAll(str, ch)[..limit - 1] + [str[off..regexLength]])
      else IndexOutOfBounds
    else if limit == 0 then Ok(TrimTrailingEmpty(SplitAll(str, ch)))
    else Ok(SplitAll(str, ch))
  }

  /** The scan's invariant: the pieces collected so far hold no delimiter and, each followed
      by the delimiter, spell out `str[..off]`. */
  ghost predicate Scanned(str: JString, ch: CodeUnit, off: nat, list: seq<JString>)
  {
    off <= |str| && str[..off] == Terminated(list, ch) && AllFree(list, ch)
  }

  /** One ordinary step of the scan keeps the invariant: `next` is the first occurrence of
      `ch` at or after `off`, and the piece before it is cut off. */
  lemma ScanStep(str: JString, ch: CodeUnit, off: nat, next: nat, list: seq<JString>)
    requires Scanned(str, ch, off, list)
    requires off <= next < |str| && str[next] == ch && ch !in str[off..next]
    ensures Scanned(str, ch, next + 1, list + [str[off..next]])
  {
    var piece := str[off..next];
    TerminatedAppend(list, piece, ch);
    assert str[..next + 1] == str[..off] + piece + [ch];
    var list' := list + [piece];
    forall i | 0 <= i < |list'| ensures ch !in list'[i] {
      if i < |list| { assert list'[i] == list[i]; }
    }
  }

  /** The collected pieces followed by the unlimited split of the rest form the unlimited
      split of the whole string. */
  lemma ScannedSplit(str: JString, ch: CodeUnit, off: nat, list: seq<JString>)
    requires Scanned(str, ch, off, list)
    ensures list + SplitAll(str[off..], ch) == SplitAll(str, ch)
  {
    var tail := SplitAll(str[off..], ch);
    var ps := list + tail;
    SplitAllRebuilds(str[off..], ch);
    JoinSplitAt(ps, |list|, ch);
    assert ps[..|list|] == list && ps[|list|..] == tail;
    assert str == str[..off] + str[off..];
    forall i | 0 <= i < |ps| ensures ch !in ps[i] {
      if i < |list| { assert ps[i] == list[i]; } else { assert ps[i] == tail[i - |list|]; }
    }
    SplitAllUnique(ps, ch);
  }

  /** When the scan meets an occurrence with `limit - 1` pieces collected, the limit is
      reached, the pieces are the first `limit - 1` of the unlimited split, and the scan
      stands at `LimitOffset`. */
  lemma ScanAtLimit(str: JString, ch: CodeUnit, off: nat, list: seq<JString>, limit: Int32)
    requires Scanned(str, ch, off, list)
    requires ch in str[off..]
    requires limit > 0 && |list| == limit - 1
    ensures ReachesLimit(str, ch, limit)
    ensures list == SplitAll(str, ch)[..limit - 1]
    ensures off == LimitOffset(str, ch, limit)
    ensures ch in str
  {
    ScannedSplit(str, ch, off, list);
    assert Count(str[off..], ch) > 0;
    var all := SplitAll(str, ch);
    assert all[..|list|] == list;
  }

  /** When no occurrence is left, the rest of the string is the last piece of the unlimited
      split; the scan has not moved exactly when `ch` does not occur at all. */
  lemma ScanDone(str: JString, ch: CodeUnit, off: nat, list: seq<JString>)
    requires Scanned(str, ch, off, list)
    requires ch !in str[off..]
    ensures list + [str[off..]] == SplitAll(str, ch)
    ensures Count(str, ch) == |list|
    ensures off == 0 <==> ch !in str
  {
    ScannedSplit(str, ch, off, list);
    SplitAllNoDelimiter(str[off..], ch);
    if off == 0 {
      assert str[off..] == str;
    } else {
      assert list != [];
    }
  }

  /** A reached limit whose final substring is out of bounds makes the call throw. */
  lemma ThrowsAtLimit(str: JString, ch: CodeUnit, regexLength: nat, limit: Int32)
    requires ReachesLimit(str, ch, limit) && ch in str
    requires LimitOffset(str, ch, limit) > regexLength || regexLength > |str|
    ensures FastPathResult(str, ch, regexLength, limit) == IndexOutOfBounds
  {
  }

  /** The state after the scan: either it met the limit and appended the final piece, or it
      ran out of occurrences with the invariant intact. */
  ghost predicate ScanEnded(str: JString, ch: CodeUnit, regexLength: nat, limit: Int32,
                            off: nat, list: seq<JString>, lastOne: bool)
  {
    if lastOne then
      ReachesLimit(str, ch, limit) && LimitOffset(str, ch, limit) <= regexLength <= |str|
      && off == regexLength
      && list == SplitAll(str, ch)[..limit - 1] + [str[LimitOffset(str, ch, limit)..regexLength]]
    else
      Scanned(str, ch, off, list) && ch !in str[off..] && (limit > 0 ==> |list| <= limit - 1)
  }

  /** What the code after the scan makes of its state is `FastPathResult`. */
  lemma FinishScan(str: JString, ch: CodeUnit, regexLength: nat, limit: Int32,
                   off: nat, list: seq<JString>, lastOne: bool)
    requires regexLength >= 1
    requires ScanEnded(str, ch, regexLength, limit, off, list, lastOne)
    ensures lastOne <==> ReachesLimit(str, ch, limit)
    ensures off == 0 ==> FastPathResult(str, ch, regexLength, limit) == Ok([str])
    ensures off != 0 && limit == 0 ==>
      FastPathResult(str, ch, regexLength, limit) == Ok(TrimTrailingEmpty(list + [str[off..]]))
    ensures off != 0 && (limit < 0 || (0 < limit && |list| < limit)) ==>
      FastPathResult(str, ch, regexLength, limit) == Ok(list + [str[off..]])
    ensures off != 0 && 0 < limit <= |list| ==>
      FastPathResult(str, ch, regexLength, limit) == Ok(list)
  {
    if !lastOne {
      ScanDone(str, ch, off, list);
    }
  }

  /** The scan loop of the fast path: it cuts off the piece before each occurrence of `ch`
      while the limit allows, and at the limit takes `str.substring(off, regexLength)` as the
      last piece, which throws when out of bounds. Its outcome is stated as what it leaves
      `FastPathResult` to be; `lastOne` records whether the branch for the limit was taken. */
  method Scan(str: JString, ch: CodeUnit, regexLength: nat, limit: Int32)
    returns (thrown: bool, off: nat, list: seq<JString>, ghost lastOne: bool)
    requires regexLength >= 1
    ensures lastOne <==> ReachesLimit(str, ch, limit)
    ensures thrown ==> lastOne
    ensures thrown ==> FastPathResult(str, ch, regexLength, limit) == IndexOutOfBounds
    ensures !thrown && off == 0 ==> FastPathResult(str, ch, regexLength, limit) == Ok([str])
    ensures !thrown && off != 0 ==> off <= |str|
    ensures !thrown && off != 0 && limit == 0 ==>
      FastPathResult(str, ch, regexLength, limit) == Ok(TrimTrailingEmpty(list + [str[off..]]))
    ensures !thrown && off != 0 && (limit < 0 || (0 < limit && |list| < limit)) ==>
      FastPathResult(str, ch, regexLength, limit) == Ok(list + [str[off..]])
    ensures !thrown && off != 0 && 0 < limit <= |list| ==>
      FastPathResult(str, ch, regexLength, limit) == Ok(list)
  {
    thrown := false;
    off := 0;
    var limited := limit > 0;
    list := [];
    lastOne := false;
    var next := IndexOf(str, ch, off);
    while next != -1
      invariant Scanned(str, ch, off, list)
      invariant limited ==> |list| <= limit - 1
      invariant next == -1 ==> ch !in str[off..]
      invariant next != -1 ==> off <= next < |str| && str[next] == ch && ch !in str[off..next]
      invariant !lastOne
      decreases |str| - off
    {
      if !limited || |list| < limit - 1 {
        ScanStep(str, ch, off, next, list);
        list := list + [str[off..next]];
        off := next + 1;
      } else {
        // The last one: the list already holds limit - 1 pieces.
        ScanAtLimit(str, ch, off, list, limit);
        lastOne := true;
        if off > regexLength || regexLength > |str| {
          ThrowsAtLimit(str, ch, regexLength, limit);
          thrown := true;
          return;
        }
        list := list + [str[off..regexLength]];
        off := regexLength;
        break;
      }
      next := IndexOf(str, ch, off);
    }
    FinishScan(str, ch, regexLength, limit, off, list, lastOne);
  }

  /** The fast path of `split` (the body of the classifier's `if`): the scan, then the
      no-match case, the remainder and, for a zero limit, the trimming of empty pieces. It is
      entered with what `Classify` guarantees of a literal route. */
  method FastPath(str: JString, regex: JString, ch: CodeUnit, limit: Int32)
    returns (r: SplitResult)
    requires 1 <= |regex| <= 2 && ch == regex[|regex| - 1] && !IsSurrogate(ch)
    ensures r == FastPathResult(str, ch, |regex|, limit)
  {
    var limited := limit > 0;
    var thrown, off, list;
    ghost var lastOne;
    thrown, off, list, lastOne := Scan(str, ch, |regex|, limit);
    if thrown {
      return IndexOutOfBounds;
    }
    if off == 0 {
      return Ok([str]);
    }
    if !limited || |list| < limit {
      list := list + [str[off..]];
    }
    var resultSize := |list|;
    if limit == 0 {
      resultSize := TrimmedSize(list);
    } else {
      assert list[..resultSize] == list;
    }
    r := Ok(list[..resultSize]);
  }

  /** The loop that, for a zero limit, moves the result size back over the empty pieces at
      the end of the list. */
  method TrimmedSize(list: seq<JString>) returns (resultSize: nat)
    ensures resultSize <= |list| && list[..resultSize] == TrimTrailingEmpty(list)
  {
    resultSize := |list|;
    while resultSize > 0 && |list[resultSize - 1]| == 0
      invariant 0 <= resultSize <= |list|
      invariant TrimTrailingEmpty(list[..resultSize]) == TrimTrailingEmpty(list)
    {
      TrimDropEmpty(list, resultSize);
      resultSize := resultSize - 1;
    }
  }
}
