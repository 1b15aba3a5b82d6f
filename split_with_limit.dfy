/** `UDFSplitWithLimit.split(str, regex, limit)`: a pattern that denotes one literal code unit
    is split by the fast path; every other pattern goes to `java.util.regex`, which is not part
    of this model and enters as the function `patternSplit`. */
module SplitWithLimit {
  import opened JavaLang
  import opened Pieces
  import opened Classifier
  import opened LiteralSplit
  import opened FastPathProperties

  /** `Pattern.compile(regex).split(str, limit)`, given the pattern, the string and the limit;
      it may answer `PatternSyntaxError`. */
  type PatternSplitter = (JString, JString, Int32) -> SplitResult

  /** The routing of `split`: the classifier's literal route runs the fast path, with the
      code unit it bound; any other pattern is handed to the regular-expression fallback
      unchanged, and its answer is returned as it is. */
  method Split(str: JString, regex: JString, limit: Int32, patternSplit: PatternSplitter)
    returns (r: SplitResult)
    ensures Classify(regex).Literal? ==> r == FastPathResult(str, Classify(regex).ch, |regex|, limit)
    ensures Classify(regex).Pattern? ==> r == patternSplit(regex, str, limit)
  {
    var route := Classify(regex);
    if route.Literal? {
      r := FastPath(str, regex, route.ch, limit);
    } else {
      r := patternSplit(regex, str, limit);
    }
  }

  /** Four delimiter-free pieces and their join, spelled out. */
  lemma FourPieces<T>(a: seq<T>, b: seq<T>, c: seq<T>, d: seq<T>, ch: T)
    requires ch !in a && ch !in b && ch !in c && ch !in d
    ensures AllFree([a, b, c, d], ch)
    ensures Join([a, b, c, d], ch) == a + [ch] + b + [ch] + c + [ch] + d
  {
    var ps := [a, b, c, d];
    forall i | 0 <= i < |ps| ensures ch !in ps[i] {
      assert ps[i] == a || ps[i] == b || ps[i] == c || ps[i] == d;
    }
    JoinCons(c, [d], ch);
    JoinCons(b, [c, d], ch);
    JoinCons(a, [b, c, d], ch);
    assert [a] + [b, c, d] == ps && [b] + [c, d] == [b, c, d] && [c] + [d] == [c, d];
  }

  /** `split("a,b,,c", ",", -1)` is `["a", "b", "", "c"]`: the empty piece between the two
      commas is kept. */
  lemma CommaNegativeLimitExample()
    ensures var str: JString := [0x61, 0x2C, 0x62, 0x2C, 0x2C, 0x63];
      FastPathResult(str, 0x2C, 1, -1) == Ok([[0x61], [0x62], [], [0x63]])
  {
    var a: JString, b: JString, c: JString := [0x61], [0x62], [0x63];
    FourPieces(a, b, [], c, 0x2C);
    assert a + [0x2C] + b + [0x2C] + [] + [0x2C] + c == [0x61, 0x2C, 0x62, 0x2C, 0x2C, 0x63];
    SplitOfJoin([a, b, [], c], 0x2C, 1, -1);
  }

  /** `split("a,b,,", ",", 0)` is `["a", "b"]`: a zero limit drops the two trailing empty
      pieces. */
  lemma CommaZeroLimitExample()
    ensures var str: JString := [0x61, 0x2C, 0x62, 0x2C, 0x2C];
      FastPathResult(str, 0x2C, 1, 0) == Ok([[0x61], [0x62]])
  {
    var a: JString, b: JString := [0x61], [0x62];
    FourPieces(a, b, [], [], 0x2C);
    assert a + [0x2C] + b + [0x2C] + [] + [0x2C] + [] == [0x61, 0x2C, 0x62, 0x2C, 0x2C];
    ZeroLimitSplitOfJoin([a, b, [], []], 0x2C, 1);
    assert TrimTrailingEmpty([a, b, [], []]) == TrimTrailingEmpty([a, b]);
  }

  /** `split("", ",", 0)` is `[""]`: the empty string has no match, and the no-match answer
      is returned before any trimming. */
  lemma EmptyStringZeroLimitExample()
    ensures FastPathResult([], 0x2C, 1, 0) == Ok([[]])
  {
    NoMatchIsWhole([], 0x2C, 1, 0);
  }
}
