/** The selection policy as functions of the configuration list: the
    round-robin index of a cursor value, the weighted prefix-sum walk, and
    the facts about both that the router's methods rely on. */
module Selection {
  import opened RouterTypes

  // ---------------------------------------------------------------- round robin

  /** Index chosen for cursor value `cursor` among `n` configurations. */
  function RoundRobinIndex(cursor: nat, n: nat): (i: nat)
    requires n >= 1
    ensures i < n
  {
    cursor % n
  }

  /** The index after i in cyclic configuration order. */
  function NextIndex(i: nat, n: nat): nat
  {
    if i + 1 == n then 0 else i + 1
  }

  lemma MulAtLeast(d: int, n: int)
    requires d >= 1 && n >= 1
    ensures d * n >= n
  {
    assert d * n == (d - 1) * n + n;
    assert (d - 1) * n >= 0;
  }

  /** Euclidean division is unique: x = q * n + r with 0 <= r < n fixes
      both the quotient and the remainder. */
  lemma DivModUnique(x: int, n: int, q: int, r: int)
    requires n >= 1 && 0 <= r < n && x == q * n + r
    ensures x % n == r && x / n == q
  {
    var q', r' := x / n, x % n;
    assert x == q' * n + r';
    assert (q - q') * n == r' - r;
    if q - q' >= 1 {
      MulAtLeast(q - q', n);
    } else if q' - q >= 1 {
      MulAtLeast(q' - q, n);
    }
  }

  /** Cursor value c + d, for 0 <= c % n + d < 2n, selects c % n + d reduced
      once by n. */
  lemma ModShift(c: nat, d: nat, n: nat)
    requires n >= 1 && c % n + d < 2 * n
    ensures (c + d) % n == if c % n + d < n then c % n + d else c % n + d - n
  {
    var q, r := c / n, c % n;
    assert c == q * n + r;
    if r + d < n {
      DivModUnique(c + d, n, q, r + d);
    } else {
      assert (q + 1) * n == q * n + n;
      DivModUnique(c + d, n, q + 1, r + d - n);
    }
  }

  /** Each round-robin selection picks the configuration after the one the
      previous selection picked, wrapping from the last to the first. */
  lemma RoundRobinStep(c: nat, n: nat)
    requires n >= 1
    ensures RoundRobinIndex(c + 1, n) == NextIndex(RoundRobinIndex(c, n), n)
  {
    ModShift(c, 1, n);
  }

  /** Indices chosen by `k` successive round-robin selections when the
      cursor starts at `start`: each call reads the cursor and advances it. */
  function RoundRobinTrace(start: nat, k: nat, n: nat): seq<nat>
    requires n >= 1
    decreases k
  {
    if k == 0 then [] else [RoundRobinIndex(start, n)] + RoundRobinTrace(start + 1, k - 1, n)
  }

  lemma {:induction false} RoundRobinTraceLength(start: nat, k: nat, n: nat)
    requires n >= 1
    ensures |RoundRobinTrace(start, k, n)| == k
    decreases k
  {
    if k > 0 {
      RoundRobinTraceLength(start + 1, k - 1, n);
    }
  }

  lemma {:induction false} RoundRobinTraceAt(start: nat, k: nat, n: nat, j: nat)
    requires n >= 1 && j < k
    ensures |RoundRobinTrace(start, k, n)| == k
    ensures RoundRobinTrace(start, k, n)[j] == (start + j) % n
    decreases k
  {
    RoundRobinTraceLength(start, k, n);
    if j > 0 {
      RoundRobinTraceAt(start + 1, k - 1, n, j - 1);
    }
  }

  /** From the initial cursor 0, the j-th selection (counting from 0) picks
      j mod n: 0, 1, ..., n-1, 0, ... */
  lemma RoundRobinFromZeroIsCyclic(k: nat, n: nat)
    requires n >= 1
    ensures |RoundRobinTrace(0, k, n)| == k
    ensures forall j :: 0 <= j < k ==> RoundRobinTrace(0, k, n)[j] == j % n
  {
    RoundRobinTraceLength(0, k, n);
    forall j | 0 <= j < k
      ensures RoundRobinTrace(0, k, n)[j] == j % n
    {
      RoundRobinTraceAt(0, k, n, j);
    }
  }

  /** Cursor values fewer than n apart select different indices. */
  lemma DistinctWithinWindow(c: nat, a: nat, b: nat, n: nat)
    requires n >= 1 && a < b < n
    ensures (c + a) % n != (c + b) % n
  {
    ModShift(c, a, n);
    ModShift(c, b, n);
  }

  /** Some cursor value c + j with j < n selects index i. */
  lemma WindowReaches(c: nat, n: nat, i: nat) returns (j: nat)
    requires n >= 1 && i < n
    ensures j < n && (c + j) % n == i
  {
    var r := c % n;
    j := if r <= i then i - r else i + n - r;
    ModShift(c, j, n);
  }

  /** Any n consecutive round-robin selections, from any cursor value, pick
      every index exactly once. */
  lemma RoundRobinWindowIsPermutation(c: nat, n: nat)
    requires n >= 1
    ensures |RoundRobinTrace(c, n, n)| == n
    ensures forall a, b :: 0 <= a < b < n ==> RoundRobinTrace(c, n, n)[a] != RoundRobinTrace(c, n, n)[b]
    ensures forall i :: 0 <= i < n ==> i in RoundRobinTrace(c, n, n)
  {
    var t := RoundRobinTrace(c, n, n);
    RoundRobinTraceLength(c, n, n);
    forall a, b | 0 <= a < b < n
      ensures t[a] != t[b]
    {
      RoundRobinTraceAt(c, n, n, a);
      RoundRobinTraceAt(c, n, n, b);
      DistinctWithinWindow(c, a, b, n);
    }
    forall i | 0 <= i < n
      ensures i in t
    {
      var j := WindowReaches(c, n, i);
      RoundRobinTraceAt(c, n, n, j);
    }
  }

  lemma {:induction false} RoundRobinTraceSplit(c: nat, k1: nat, k2: nat, n: nat)
    requires n >= 1
    ensures RoundRobinTrace(c, k1 + k2, n) == RoundRobinTrace(c, k1, n) + RoundRobinTrace(c + k1, k2, n)
    decreases k1
  {
    if k1 > 0 {
      RoundRobinTraceSplit(c + 1, k1 - 1, k2, n);
    }
  }

  lemma {:induction false} RoundRobinTraceShift(c: nat, k: nat, n: nat)
    requires n >= 1
    ensures RoundRobinTrace(c + n, k, n) == RoundRobinTrace(c, k, n)
    decreases k
  {
    if k > 0 {
      ModShift(c, n, n);
      RoundRobinTraceShift(c + 1, k - 1, n);
    }
  }

  lemma WindowCountsOnce(c: nat, n: nat, i: nat)
    requires n >= 1 && i < n
    ensures multiset(RoundRobinTrace(c, n, n))[i] == 1
  {
    var t := RoundRobinTrace(c, n, n);
    RoundRobinWindowIsPermutation(c, n);
    var j := WindowReaches(c, n, i);
    RoundRobinTraceAt(c, n, n, j);
    assert t == t[..j] + [t[j]] + t[j + 1..];
    assert i !in t[..j] by {
      forall a | 0 <= a < j ensures t[..j][a] != i { }
    }
    var after := t[j + 1..];
    assert i !in after by {
      forall a | 0 <= a < |after| ensures after[a] != i {
        assert after[a] == t[j + 1 + a];
      }
    }
    assert multiset(t) == multiset(t[..j]) + multiset{i} + multiset(t[j + 1..]);
  }

  lemma PartialWindowCountsAtMostOnce(c: nat, k: nat, n: nat, i: nat)
    requires n >= 1 && k < n && i < n
    ensures multiset(RoundRobinTrace(c, k, n))[i] <= 1
  {
    RoundRobinTraceSplit(c, k, n - k, n);
    WindowCountsOnce(c, n, i);
    assert k + (n - k) == n;
    assert multiset(RoundRobinTrace(c, n, n))
        == multiset(RoundRobinTrace(c, k, n)) + multiset(RoundRobinTrace(c + k, n - k, n));
  }

  lemma DivModStep(k: nat, n: nat)
    requires n >= 1 && k >= n
    ensures k / n == (k - n) / n + 1 && k % n == (k - n) % n
  {
    var q, r := (k - n) / n, (k - n) % n;
    assert k - n == q * n + r;
    assert (q + 1) * n == q * n + n;
    DivModUnique(k, n, q + 1, r);
  }

  /** Over k successive selections from any cursor value, each index is
      chosen floor(k/n) times, or ceil(k/n) times when n does not divide k. */
  lemma {:induction false} RoundRobinIsBalanced(c: nat, k: nat, n: nat, i: nat)
    requires n >= 1 && i < n
    ensures var m := multiset(RoundRobinTrace(c, k, n))[i];
            m == k / n || (k % n != 0 && m == k / n + 1)
    decreases k
  {
    if k < n {
      PartialWindowCountsAtMostOnce(c, k, n, i);
      DivModUnique(k, n, 0, k);
    } else {
      var head: seq<nat> := RoundRobinTrace(c, n, n);
      var rest: seq<nat> := RoundRobinTrace(c + n, k - n, n);
      RoundRobinTraceSplit(c, n, k - n, n);
      assert n + (k - n) == k;
      assert RoundRobinTrace(c, k, n) == head + rest;
      RoundRobinTraceShift(c, k - n, n);
      WindowCountsOnce(c, n, i);
      RoundRobinIsBalanced(c, k - n, n, i);
      assert multiset(RoundRobinTrace(c, k, n))[i] == multiset(head)[i] + multiset(rest)[i];
      DivModStep(k, n);
    }
  }

  // ---------------------------------------------------------------- weighted

  /** Sum of the weights of the first k configurations. */
  function PrefixWeight(cs: seq<ModelConfig>, k: nat): int
    requires k <= |cs|
  {
    if k == 0 then 0 else PrefixWeight(cs, k - 1) + cs[k - 1].weight
  }

  /** Sum of all weights, as the source's stream sum computes it. */
  function TotalWeight(cs: seq<ModelConfig>): int
  {
    PrefixWeight(cs, |cs|)
  }

  /** The values `(int)(Math.random() * w)` can take: the product lies in
      [0, w) for w > 0 and in (w, 0] for w < 0, and the cast truncates
      toward zero. */
  predicate IsDraw(r: int, w: int)
  {
    if w > 0 then 0 <= r < w
    else if w == 0 then r == 0
    else w < r <= 0
  }

  /** The walk from position k: the first position j >= k whose running
      total exceeds r, or position 0 when none does. */
  function FirstAbove(cs: seq<ModelConfig>, r: int, k: nat): (i: nat)
    requires 1 <= |cs| && k <= |cs|
    ensures i < |cs|
    decreases |cs| - k
  {
    if k == |cs| then 0
    else if r < PrefixWeight(cs, k + 1) then k
    else FirstAbove(cs, r, k + 1)
  }

  /** Weighted selection for draw r: a prefix-sum walk over the weights. */
  function WeightedChoice(cs: seq<ModelConfig>, r: int): (i: nat)
    requires |cs| >= 1
  {
    FirstAbove(cs, r, 0)
  }

  /** True when some running total exceeds the draw r. */
  predicate SomePrefixAbove(cs: seq<ModelConfig>, r: int)
  {
    exists j :: 1 <= j <= |cs| && r < PrefixWeight(cs, j)
  }

  lemma {:induction false} FirstAboveIsFirst(cs: seq<ModelConfig>, r: int, k: nat)
    requires 1 <= |cs| && k <= |cs|
    requires forall j :: 1 <= j <= k ==> PrefixWeight(cs, j) <= r
    ensures var i := FirstAbove(cs, r, k);
            (SomePrefixAbove(cs, r) ==>
               r < PrefixWeight(cs, i + 1) && forall j :: 1 <= j <= i ==> PrefixWeight(cs, j) <= r) &&
            (!SomePrefixAbove(cs, r) ==> i == 0)
    decreases |cs| - k
  {
    if k < |cs| && PrefixWeight(cs, k + 1) <= r {
      FirstAboveIsFirst(cs, r, k + 1);
    }
  }

  /** Weighted selection returns the first index whose running total exceeds
      the draw, and index 0 when no running total does. */
  lemma WeightedChoiceIsFirst(cs: seq<ModelConfig>, r: int)
    requires |cs| >= 1
    ensures var i := WeightedChoice(cs, r);
            i < |cs| &&
            (SomePrefixAbove(cs, r) ==>
               r < PrefixWeight(cs, i + 1) && forall j :: 1 <= j <= i ==> PrefixWeight(cs, j) <= r) &&
            (!SomePrefixAbove(cs, r) ==> i == 0)
  {
    FirstAboveIsFirst(cs, r, 0);
  }

  lemma {:induction false} PrefixWeightOfZeros(cs: seq<ModelConfig>, k: nat)
    requires k <= |cs|
    requires forall j :: 0 <= j < |cs| ==> cs[j].weight == 0
    ensures PrefixWeight(cs, k) == 0
  {
    if k > 0 {
      PrefixWeightOfZeros(cs, k - 1);
    }
  }

  /** When every weight is 0 the total is 0, the only draw is 0, no running
      total exceeds it, and the walk falls back to the first configuration. */
  lemma WeightedFallsBackToFirst(cs: seq<ModelConfig>, r: int)
    requires |cs| >= 1
    requires forall j :: 0 <= j < |cs| ==> cs[j].weight == 0
    requires IsDraw(r, TotalWeight(cs))
    ensures TotalWeight(cs) == 0 && r == 0
    ensures WeightedChoice(cs, r) == 0
  {
    PrefixWeightOfZeros(cs, |cs|);
    forall j | 1 <= j <= |cs| ensures PrefixWeight(cs, j) <= r {
      PrefixWeightOfZeros(cs, j);
    }
    WeightedChoiceIsFirst(cs, r);
  }

  predicate NonNegativeWeights(cs: seq<ModelConfig>)
  {
    forall j :: 0 <= j < |cs| ==> cs[j].weight >= 0
  }

  lemma {:induction false} PrefixWeightMonotone(cs: seq<ModelConfig>, a: nat, b: nat)
    requires a <= b <= |cs| && NonNegativeWeights(cs)
    ensures PrefixWeight(cs, a) <= PrefixWeight(cs, b)
    decreases b - a
  {
    if a < b {
      PrefixWeightMonotone(cs, a, b - 1);
    }
  }

  /** With non-negative weights and a draw in [0, W), the draw selects i
      exactly when it lies in [PrefixWeight(i), PrefixWeight(i + 1)). */
  lemma WeightedChoiceInterval(cs: seq<ModelConfig>, r: int, i: nat)
    requires |cs| >= 1 && i < |cs| && NonNegativeWeights(cs)
    requires 0 <= r < TotalWeight(cs)
    ensures WeightedChoice(cs, r) == i <==> PrefixWeight(cs, i) <= r < PrefixWeight(cs, i + 1)
  {
    WeightedChoiceIsFirst(cs, r);
    var c := WeightedChoice(cs, r);
    assert SomePrefixAbove(cs, r) by {
      assert 1 <= |cs| <= |cs| && r < PrefixWeight(cs, |cs|);
    }
    if c == i {
      if i > 0 {
        assert PrefixWeight(cs, i) <= r;
      }
    } else if PrefixWeight(cs, i) <= r < PrefixWeight(cs, i + 1) {
      if c < i {
        PrefixWeightMonotone(cs, c + 1, i);
      }
    }
  }

  /** The integers lo, lo + 1, ..., hi - 1. */
  function Range(lo: int, hi: int): set<int>
    decreases hi - lo
  {
    if hi <= lo then {} else Range(lo, hi - 1) + {hi - 1}
  }

  lemma {:induction false} RangeMembers(lo: int, hi: int, x: int)
    ensures x in Range(lo, hi) <==> lo <= x < hi
    decreases hi - lo
  {
    if lo < hi {
      RangeMembers(lo, hi - 1, x);
    }
  }

  lemma {:induction false} RangeSize(lo: int, hi: int)
    requires lo <= hi
    ensures |Range(lo, hi)| == hi - lo
    decreases hi - lo
  {
    if lo < hi {
      RangeSize(lo, hi - 1);
      RangeMembers(lo, hi - 1, hi - 1);
    }
  }

  /** Of the W possible draws 0, 1, ..., W-1, exactly weight(i) select
      configuration i, so each configuration is chosen with probability
      weight(i) / W; a configuration of weight 0 is never chosen. */
  lemma WeightedChoiceCoverage(cs: seq<ModelConfig>, i: nat)
    requires |cs| >= 1 && i < |cs| && NonNegativeWeights(cs)
    ensures |set r: int | 0 <= r < TotalWeight(cs) && WeightedChoice(cs, r) == i| == cs[i].weight
  {
    var w := TotalWeight(cs);
    PrefixWeightMonotone(cs, 0, i);
    PrefixWeightMonotone(cs, i + 1, |cs|);
    var lo, hi := PrefixWeight(cs, i), PrefixWeight(cs, i + 1);
    var hits := set r: int | 0 <= r < w && WeightedChoice(cs, r) == i;
    forall r | 0 <= r < w
      ensures WeightedChoice(cs, r) == i <==> r in Range(lo, hi)
    {
      WeightedChoiceInterval(cs, r, i);
      RangeMembers(lo, hi, r);
    }
    forall r | r in Range(lo, hi) ensures r in hits {
      RangeMembers(lo, hi, r);
      WeightedChoiceInterval(cs, r, i);
    }
    assert hits == Range(lo, hi);
    RangeSize(lo, hi);
  }

  /** With non-negative weights and a positive total, a possible draw never
      selects a configuration of weight 0. */
  lemma WeightedChoicePositive(cs: seq<ModelConfig>, r: int)
    requires |cs| >= 1 && NonNegativeWeights(cs)
    requires TotalWeight(cs) > 0 && IsDraw(r, TotalWeight(cs))
    ensures cs[WeightedChoice(cs, r)].weight > 0
  {
    WeightedChoiceInterval(cs, r, WeightedChoice(cs, r));
  }
}
