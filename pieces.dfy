/** Specification of splitting a sequence at a single delimiter element: the unlimited
    split, its inverse (joining with the delimiter) and the removal of trailing empty pieces. */
module Pieces {
  /** Number of occurrences of `ch` in `s`. */
  function Count<T(==)>(s: seq<T>, ch: T): (n: nat)
    ensures n == 0 <==> ch !in s
  {
    if s == [] then 0 else (if s[0] == ch then 1 else 0) + Count(s[1..], ch)
  }

  /** Counting distributes over concatenation. */
  lemma {:induction false} CountAppend<T>(a: seq<T>, b: seq<T>, ch: T)
    ensures Count(a + b, ch) == Count(a, ch) + Count(b, ch)
    decreases |a|
  {
    if a == [] {
      assert a + b == b;
    } else {
      assert (a + b)[1..] == a[1..] + b;
      CountAppend(a[1..], b, ch);
    }
  }

  /** No piece contains the delimiter. */
  predicate AllFree<T(==)>(ps: seq<seq<T>>, ch: T)
  {
    forall i :: 0 <= i < |ps| ==> ch !in ps[i]
  }

  /** The unlimited split: the pieces of `s` between consecutive occurrences of `ch`, in
      left-to-right order, empty pieces included. Defined one code unit at a time. */
  function SplitAll<T(==)>(s: seq<T>, ch: T): (r: seq<seq<T>>)
    ensures |r| == Count(s, ch) + 1
  {
    if s == [] then [[]]
    else
      var rest := SplitAll(s[1..], ch);
      if s[0] == ch then [[]] + rest
      else [[s[0]] + rest[0]] + rest[1..]
  }

  /** The pieces glued back together with `ch` between neighbours. */
  function Join<T(==)>(ps: seq<seq<T>>, ch: T): seq<T>
  {
    if |ps| == 0 then []
    else if |ps| == 1 then ps[0]
    else ps[0] + [ch] + Join(ps[1..], ch)
  }

  /** Each piece followed by `ch`: the part of the string consumed once these pieces have
      been cut off in front. */
  function Terminated<T(==)>(ps: seq<seq<T>>, ch: T): seq<T>
  {
    if ps == [] then [] else ps[0] + [ch] + Terminated(ps[1..], ch)
  }

  /** Drops the empty pieces at the end of `ps` and nothing else. */
  function TrimTrailingEmpty<T(==)>(ps: seq<seq<T>>): (r: seq<seq<T>>)
    ensures |r| <= |ps| && r == ps[..|r|]
    ensures r == [] || r[|r| - 1] != []
    ensures forall i :: |r| <= i < |ps| ==> ps[i] == []
  {
    if |ps| > 0 && ps[|ps| - 1] == [] then TrimTrailingEmpty(ps[..|ps| - 1]) else ps
  }

  /** Trimming is unaffected by first dropping an empty last piece. */
  lemma TrimDropEmpty<T>(ps: seq<seq<T>>, n: nat)
    requires 0 < n <= |ps| && ps[n - 1] == []
    ensures TrimTrailingEmpty(ps[..n]) == TrimTrailingEmpty(ps[..n - 1])
  {
    assert ps[..n][..n - 1] == ps[..n - 1];
  }

  /** Joining a piece in front of a non-empty list puts one delimiter between them. */
  lemma JoinCons<T>(p: seq<T>, ps: seq<seq<T>>, ch: T)
    requires |ps| >= 1
    ensures Join([p] + ps, ch) == p + [ch] + Join(ps, ch)
  {
    assert ([p] + ps)[1..] == ps;
  }

  /** Extending the first piece extends the join by the same prefix. */
  lemma JoinExtendFirst<T>(x: T, p: seq<T>, rest: seq<seq<T>>, ch: T)
    ensures Join([[x] + p] + rest, ch) == [x] + Join([p] + rest, ch)
  {
    if rest != [] {
      JoinCons([x] + p, rest, ch);
      JoinCons(p, rest, ch);
    }
  }

  /** No piece of the unlimited split holds the delimiter. */
  lemma {:induction false} SplitAllFree<T>(s: seq<T>, ch: T)
    ensures AllFree(SplitAll(s, ch), ch)
    decreases |s|
  {
    if s != [] {
      var rest := SplitAll(s[1..], ch);
      var r := SplitAll(s, ch);
      SplitAllFree(s[1..], ch);
      forall i | 0 <= i < |r| ensures ch !in r[i] {
        if s[0] == ch {
          if i > 0 { assert r[i] == rest[i - 1]; }
        } else if i == 0 {
          assert r[0] == [s[0]] + rest[0];
        } else {
          assert r[i] == rest[i];
        }
      }
    }
  }

  /** Joining the unlimited split gives the sequence back. */
  lemma {:induction false} SplitAllJoin<T>(s: seq<T>, ch: T)
    ensures Join(SplitAll(s, ch), ch) == s
    decreases |s|
  {
    if s != [] {
      var rest := SplitAll(s[1..], ch);
      SplitAllJoin(s[1..], ch);
      if s[0] == ch {
        JoinCons([], rest, ch);
      } else {
        JoinExtendFirst(s[0], rest[0], rest[1..], ch);
        assert [rest[0]] + rest[1..] == rest;
      }
      assert s == [s[0]] + s[1..];
    }
  }

  /** The unlimited split is undone by joining, and no piece holds the delimiter. */
  lemma SplitAllRebuilds<T>(s: seq<T>, ch: T)
    ensures AllFree(SplitAll(s, ch), ch)
    ensures Join(SplitAll(s, ch), ch) == s
  {
    SplitAllFree(s, ch);
    SplitAllJoin(s, ch);
  }

  /** A string without the delimiter is a single piece. */
  lemma {:induction false} SplitAllNoDelimiter<T>(s: seq<T>, ch: T)
    requires ch !in s
    ensures SplitAll(s, ch) == [s]
    decreases |s|
  {
    if s != [] {
      assert ch !in s[1..];
      SplitAllNoDelimiter(s[1..], ch);
      assert s == [s[0]] + s[1..];
    }
  }

  /** Cutting off a delimiter-free prefix and the delimiter after it yields that prefix as
      the first piece. */
  lemma {:induction false} SplitAllCons<T>(p: seq<T>, rest: seq<T>, ch: T)
    requires ch !in p
    ensures SplitAll(p + [ch] + rest, ch) == [p] + SplitAll(rest, ch)
    decreases |p|
  {
    var s := p + [ch] + rest;
    if p == [] {
      assert s[1..] == rest;
    } else {
      assert s[1..] == p[1..] + [ch] + rest;
      assert ch !in p[1..];
      SplitAllCons(p[1..], rest, ch);
      assert [p[0]] + p[1..] == p;
    }
  }

  /** Joining is undone by the unlimited split: for delimiter-free pieces, the split of their
      join gives back exactly those pieces, so `SplitAll(s, ch)` is the only delimiter-free
      list of pieces that joins to `s`. */
  lemma {:induction false} SplitAllUnique<T>(ps: seq<seq<T>>, ch: T)
    requires |ps| >= 1 && AllFree(ps, ch)
    ensures SplitAll(Join(ps, ch), ch) == ps
    decreases |ps|
  {
    if |ps| == 1 {
      SplitAllNoDelimiter(ps[0], ch);
    } else {
      assert AllFree(ps[1..], ch) by {
        forall i | 0 <= i < |ps[1..]| ensures ch !in ps[1..][i] {
          assert ps[1..][i] == ps[i + 1];
        }
      }
      SplitAllUnique(ps[1..], ch);
      assert ch !in ps[0];
      SplitAllCons(ps[0], Join(ps[1..], ch), ch);
      assert [ps[0]] + ps[1..] == ps;
    }
  }

  lemma {:induction false} TerminatedAppend<T>(ps: seq<seq<T>>, p: seq<T>, ch: T)
    ensures Terminated(ps + [p], ch) == Terminated(ps, ch) + p + [ch]
    decreases |ps|
  {
    if ps != [] {
      assert (ps + [p])[1..] == ps[1..] + [p];
      TerminatedAppend(ps[1..], p, ch);
    }
  }

  /** Joining the pieces equals terminating the first `m` of them and joining the rest. */
  lemma {:induction false} JoinSplitAt<T>(ps: seq<seq<T>>, m: nat, ch: T)
    requires m < |ps|
    ensures Join(ps, ch) == Terminated(ps[..m], ch) + Join(ps[m..], ch)
    decreases m
  {
    if m > 0 {
      JoinSplitAt(ps[1..], m - 1, ch);
      assert ps[1..][..m - 1] == ps[..m][1..];
      assert ps[1..][m - 1..] == ps[m..];
    }
  }

  /** Joining pieces with one more at the end: the earlier pieces terminated, then the last. */
  lemma JoinAppend<T>(ps: seq<seq<T>>, p: seq<T>, ch: T)
    ensures Join(ps + [p], ch) == Terminated(ps, ch) + p
  {
    JoinSplitAt(ps + [p], |ps|, ch);
    assert (ps + [p])[..|ps|] == ps;
    assert (ps + [p])[|ps|..] == [p];
  }

  /** Delimiter-free pieces, each terminated by the delimiter, hold one delimiter per piece
      and end with the delimiter. */
  lemma {:induction false} TerminatedCount<T>(ps: seq<seq<T>>, ch: T)
    requires AllFree(ps, ch)
    ensures Count(Terminated(ps, ch), ch) == |ps|
    ensures ps != [] ==> |Terminated(ps, ch)| > 0 && Terminated(ps, ch)[|Terminated(ps, ch)| - 1] == ch
    decreases |ps|
  {
    if ps != [] {
      assert AllFree(ps[1..], ch) by {
        forall i | 0 <= i < |ps[1..]| ensures ch !in ps[1..][i] {
          assert ps[1..][i] == ps[i + 1];
        }
      }
      TerminatedCount(ps[1..], ch);
      assert ch !in ps[0];
      CountAppend(ps[0] + [ch], Terminated(ps[1..], ch), ch);
      CountAppend(ps[0], [ch], ch);
    }
  }

  /** The consumed prefix after the first `m` pieces of the unlimited split is a prefix of
      `s`, holds exactly `m` delimiters and, when `m > 0`, ends right after the `m`-th one. */
  lemma SplitAllPrefix<T>(s: seq<T>, ch: T, m: nat)
    requires m <= Count(s, ch)
    ensures var t := Terminated(SplitAll(s, ch)[..m], ch);
      t <= s && Count(t, ch) == m && (m > 0 ==> t[|t| - 1] == ch)
  {
    var all := SplitAll(s, ch);
    SplitAllRebuilds(s, ch);
    JoinSplitAt(all, m, ch);
    var front := all[..m];
    assert AllFree(front, ch) by {
      forall i | 0 <= i < |front| ensures ch !in front[i] {
        assert front[i] == all[i];
      }
    }
    TerminatedCount(front, ch);
  }

  /** A string that ends with the delimiter has an empty last piece. */
  lemma SplitAllLastEmpty<T>(s: seq<T>, ch: T)
    requires |s| > 0 && s[|s| - 1] == ch
    ensures var all := SplitAll(s, ch); all[|all| - 1] == []
  {
    var all := SplitAll(s, ch);
    var m := |all| - 1;
    assert ch in s;
    SplitAllRebuilds(s, ch);
    JoinSplitAt(all, m, ch);
    assert all[m..] == [all[m]];
    assert s == Terminated(all[..m], ch) + all[m];
  }
}
