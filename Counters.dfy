/** The word-association table: for each word, a `Counter` from the words
    seen right after it to the number of times that pair was seen, and
    `Counter.most_common(n)` over one such counter. */
module Counters {
  import opened Lists

  type Counter = map<string, nat>
  type Associations = map<string, Counter>

  /** A missing word or successor counts as 0, as a `Counter` reads it. */
  function Count(wa: Associations, a: string, b: string): nat {
    if a in wa && b in wa[a] then wa[a][b] else 0
  }

  /** Every stored counter value is at least 1: nothing is stored as zero. */
  ghost predicate PositiveCounts(wa: Associations) {
    forall a, b :: a in wa && b in wa[a] ==> wa[a][b] >= 1
  }

  /** `wa[a][b] += 1` on a `defaultdict(Counter)`. */
  function Bump(wa: Associations, a: string, b: string): (r: Associations)
    ensures Count(r, a, b) == Count(wa, a, b) + 1
    ensures forall x, y :: (x != a || y != b) ==> Count(r, x, y) == Count(wa, x, y)
    ensures r.Keys == wa.Keys + {a}
    ensures PositiveCounts(wa) ==> PositiveCounts(r)
  {
    var row := if a in wa then wa[a] else map[];
    wa[a := row[b := Count(wa, a, b) + 1]]
  }

  /** The table after counting every adjacent pair of `tokens`, first pair
      first (the loop at the learning step). */
  function AddPairs(wa: Associations, tokens: seq<string>): (r: Associations)
    ensures wa.Keys <= r.Keys
    decreases |tokens|
  {
    if |tokens| < 2 then wa
    else
      var n := |tokens|;
      Bump(AddPairs(wa, tokens[..n - 1]), tokens[n - 2], tokens[n - 1])
  }

  /** The pair `(a, b)` occurs in `tokens` at positions `i` and `i + 1`. */
  ghost predicate PairAt(tokens: seq<string>, i: nat, a: string, b: string) {
    i + 1 < |tokens| && tokens[i] == a && tokens[i + 1] == b
  }

  /** The positions where the adjacent pair `(a, b)` occurs in `tokens`. */
  ghost function PairPositions(tokens: seq<string>, a: string, b: string): set<nat> {
    set i: nat | i < |tokens| && PairAt(tokens, i, a, b)
  }

  /** How many times `b` directly follows `a` in `tokens`. */
  ghost function PairCount(tokens: seq<string>, a: string, b: string): nat {
    |PairPositions(tokens, a, b)|
  }

  lemma PairPositionsExtend(tokens: seq<string>, a: string, b: string)
    requires |tokens| >= 2
    ensures var n := |tokens|;
      PairPositions(tokens, a, b) ==
        PairPositions(tokens[..n - 1], a, b) + (if tokens[n - 2] == a && tokens[n - 1] == b then {n - 2} else {})
  {
  }

  /** Learning a token list raises each pair's counter by exactly the number
      of times the pair occurs in it, and touches no other counter. */
  lemma {:induction false} AddPairsCount(wa: Associations, tokens: seq<string>, a: string, b: string)
    ensures Count(AddPairs(wa, tokens), a, b) == Count(wa, a, b) + PairCount(tokens, a, b)
    decreases |tokens|
  {
    var n := |tokens|;
    if n < 2 {
      assert PairPositions(tokens, a, b) == {};
    } else {
      AddPairsCount(wa, tokens[..n - 1], a, b);
      PairPositionsExtend(tokens, a, b);
      assert n - 2 !in PairPositions(tokens[..n - 1], a, b);
    }
  }

  /** Counters never decrease. */
  lemma CountsGrow(wa: Associations, tokens: seq<string>, a: string, b: string)
    ensures Count(AddPairs(wa, tokens), a, b) >= Count(wa, a, b)
  {
    AddPairsCount(wa, tokens, a, b);
  }

  /** The only new words in the table are the tokens that have a successor. */
  lemma {:induction false} AddPairsKeys(wa: Associations, tokens: seq<string>)
    ensures AddPairs(wa, tokens).Keys == wa.Keys + set i | 0 <= i < |tokens| - 1 :: tokens[i]
    decreases |tokens|
  {
    var n := |tokens|;
    if n >= 2 {
      AddPairsKeys(wa, tokens[..n - 1]);
      HeadsExtend(tokens);
    }
  }

  /** The words with a successor in `tokens`, grown by one token. */
  lemma HeadsExtend(tokens: seq<string>)
    requires |tokens| >= 2
    ensures var n, front := |tokens|, tokens[..|tokens| - 1];
      (set i | 0 <= i < n - 1 :: tokens[i]) == (set i | 0 <= i < n - 2 :: front[i]) + {tokens[n - 2]}
  {
    var n, front := |tokens|, tokens[..|tokens| - 1];
    var heads := set i | 0 <= i < n - 1 :: tokens[i];
    var frontHeads := set i | 0 <= i < n - 2 :: front[i];
    forall w | w in heads ensures w in frontHeads + {tokens[n - 2]} {
      var i :| 0 <= i < n - 1 && tokens[i] == w;
      if i < n - 2 {
        assert front[i] == w;
      }
    }
    forall w | w in frontHeads ensures w in heads {
      var i :| 0 <= i < n - 2 && front[i] == w;
      assert tokens[i] == w;
    }
  }

  lemma {:induction false} AddPairsPositive(wa: Associations, tokens: seq<string>)
    requires PositiveCounts(wa)
    ensures PositiveCounts(AddPairs(wa, tokens))
    decreases |tokens|
  {
    if |tokens| >= 2 {
      AddPairsPositive(wa, tokens[..|tokens| - 1]);
    }
  }

  // ------------------------------------------------------- most_common(n)

  /** `top` is a possible value of `c.most_common(n)` (as a list of keys):
      `min(n, |c|)` distinct keys in order of non-increasing count, and no
      key left out counts more than the last key taken. */
  ghost predicate IsMostCommon(c: Counter, n: nat, top: seq<string>) {
    && |top| == Min(n, |c|)
    && Distinct(top)
    && (forall i :: 0 <= i < |top| ==> top[i] in c)
    && (forall i, j :: 0 <= i < j < |top| ==> c[top[i]] >= c[top[j]])
    && (forall k :: k in c && k !in top ==> forall i :: 0 <= i < |top| ==> c[k] <= c[top[i]])
  }

  lemma {:induction false} MaxKeyExists(c: Counter, keys: set<string>)
    requires keys != {} && keys <= c.Keys
    ensures exists k :: k in keys && forall k' :: k' in keys ==> c[k'] <= c[k]
    decreases |keys|
  {
    var x :| x in keys;
    if keys != {x} {
      var rest := keys - {x};
      MaxKeyExists(c, rest);
      var m :| m in rest && forall k' :: k' in rest ==> c[k'] <= c[m];
      if c[m] < c[x] {
        assert forall k' :: k' in keys ==> c[k'] <= c[x];
      } else {
        assert forall k' :: k' in keys ==> c[k'] <= c[m];
      }
    }
  }

  /** `c.most_common(n)`: picks the most frequent remaining key `n` times.
      Keys of equal count may come in any order. */
  method MostCommon(c: Counter, n: nat) returns (top: seq<string>)
    ensures IsMostCommon(c, n, top)
  {
    top := [];
    var rest := c.Keys;
    assert |c.Keys| == |c|;
    while |top| < n && rest != {}
      invariant rest <= c.Keys && |top| + |rest| == |c| && |top| <= n
      invariant Distinct(top)
      invariant forall i :: 0 <= i < |top| ==> top[i] in c && top[i] !in rest
      invariant forall k :: k in c ==> k in rest || k in top
      invariant forall i, j :: 0 <= i < j < |top| ==> c[top[i]] >= c[top[j]]
      invariant forall k, i :: k in rest && 0 <= i < |top| ==> c[k] <= c[top[i]]
      decreases rest
    {
      MaxKeyExists(c, rest);
      var k :| k in rest && forall k' :: k' in rest ==> c[k'] <= c[k];
      top := top + [k];
      rest := rest - {k};
    }
  }

  /** `w` is among the `n` most frequent keys of `c` for some order of ties:
      fewer than `n` keys count strictly more. */
  ghost predicate IsTopKey(c: Counter, n: nat, w: string) {
    w in c && |set k | k in c && c[k] > c[w]| < n
  }

  lemma {:induction false} SetOfSeqSize(s: seq<string>)
    ensures |set k | k in s| <= |s|
    decreases |s|
  {
    if s != [] {
      SetOfSeqSize(s[1..]);
      assert (set k | k in s) == (set k | k in s[1..]) + {s[0]};
    }
  }

  /** Every key `most_common(n)` returns is a top key in the sense above. */
  lemma {:induction false} MostCommonAreTopKeys(c: Counter, n: nat, top: seq<string>, i: nat)
    requires IsMostCommon(c, n, top) && i < |top|
    ensures IsTopKey(c, n, top[i])
  {
    var w := top[i];
    var greater := set k | k in c && c[k] > c[w];
    assert greater <= set k | k in top[..i] by {
      forall k | k in greater ensures k in top[..i] {
        assert k in top;
        var j :| 0 <= j < |top| && top[j] == k;
        assert j < i;
      }
    }
    SetOfSeqSize(top[..i]);
    SubsetSize(greater, set k | k in top[..i]);
  }

  lemma SubsetSize(a: set<string>, b: set<string>)
    requires a <= b
    ensures |a| <= |b|
  {
    assert b == a + (b - a);
  }

  /** The first key of `most_common` is a most frequent key. */
  lemma FirstIsMax(c: Counter, n: nat, top: seq<string>)
    requires IsMostCommon(c, n, top) && top != []
    ensures forall k :: k in c ==> c[k] <= c[top[0]]
  {
    forall k | k in c ensures c[k] <= c[top[0]] {
      if k in top {
        var j :| 0 <= j < |top| && top[j] == k;
        if j > 0 {
          assert c[top[0]] >= c[top[j]];
        }
      }
    }
  }
}
