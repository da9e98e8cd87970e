/** Smooth weighted round robin: expansion of endpoint weights into an index table. */
module WeightedTable {

  const MAX_WEIGHT_TABLE: nat := 4096
  /** The table stores indices as `u16`; larger ones are stored as 0. */
  const INDEX_LIMIT: nat := 65536

  function Sum(s: seq<int>): int {
    if s == [] then 0 else Sum(s[..|s| - 1]) + s[|s| - 1]
  }

  function Count(s: seq<nat>, x: nat): nat {
    if s == [] then 0 else Count(s[..|s| - 1], x) + (if s[|s| - 1] == x then 1 else 0)
  }

  ghost predicate Positive(s: seq<int>) {
    forall i :: 0 <= i < |s| ==> s[i] >= 1
  }

  // ----- scaling ---------------------------------------------------------

  /** `round` of the non-negative rational `num / den`, halves away from zero. */
  function Round(num: nat, den: nat): nat
    requires den > 0
  {
    (2 * num + den) / (2 * den)
  }

  function ScaleWeight(w: nat, total: nat): int {
    var r := if total > MAX_WEIGHT_TABLE then Round(w * MAX_WEIGHT_TABLE, total) else w;
    if r < 1 then 1 else r
  }

  function Scaled(weights: seq<nat>): (scaled: seq<int>)
    ensures |scaled| == |weights| && Positive(scaled)
  {
    seq(|weights|, i requires 0 <= i < |weights| => ScaleWeight(weights[i], TotalWeight(weights)))
  }

  function TotalWeight(weights: seq<nat>): nat {
    if weights == [] then 0 else TotalWeight(weights[..|weights| - 1]) + weights[|weights| - 1]
  }

  /** One weight is moved by at most one slot. */
  lemma ScaleWeightError(w: nat, total: nat)
    requires total > MAX_WEIGHT_TABLE
    ensures w * MAX_WEIGHT_TABLE - total <= ScaleWeight(w, total) * total <= w * MAX_WEIGHT_TABLE + total
  {
    var num := w * MAX_WEIGHT_TABLE;
    var q, r := (2 * num + total) / (2 * total), (2 * num + total) % (2 * total);
    assert 2 * num + total == 2 * (q * total) + r by {
      assert 2 * num + total == (2 * total) * q + r;
    }
    if q < 1 {
      assert q * total == 0 by { assert q == 0; }
    }
  }

  ghost predicate Within(s: seq<int>, weights: seq<nat>, total: nat) {
    |s| == |weights| &&
    forall i :: 0 <= i < |s| ==>
      weights[i] * MAX_WEIGHT_TABLE - total <= s[i] * total <= weights[i] * MAX_WEIGHT_TABLE + total
  }

  lemma {:induction false} SumWithin(s: seq<int>, weights: seq<nat>, total: nat)
    requires Within(s, weights, total)
    ensures TotalWeight(weights) * MAX_WEIGHT_TABLE - |s| * total
         <= Sum(s) * total
         <= TotalWeight(weights) * MAX_WEIGHT_TABLE + |s| * total
  {
    if s != [] {
      var n := |s| - 1;
      SumWithin(s[..n], weights[..n], total);
      Distribute(Sum(s[..n]), s[n], total);
      Distribute(TotalWeight(weights[..n]), weights[n], MAX_WEIGHT_TABLE);
      Distribute(n, 1, total);
    }
  }

  lemma ScaledWithin(weights: seq<nat>)
    requires TotalWeight(weights) > MAX_WEIGHT_TABLE
    ensures Within(Scaled(weights), weights, TotalWeight(weights))
  {
    var s, total := Scaled(weights), TotalWeight(weights);
    forall i | 0 <= i < |s|
      ensures weights[i] * MAX_WEIGHT_TABLE - total <= s[i] * total <= weights[i] * MAX_WEIGHT_TABLE + total
    {
      ScaleWeightError(weights[i], total);
    }
  }

  lemma ScaledLength(sum: int, n: nat, total: nat)
    requires total > 0
    requires total * MAX_WEIGHT_TABLE - n * total <= sum * total <= total * MAX_WEIGHT_TABLE + n * total
    ensures MAX_WEIGHT_TABLE - n <= sum <= MAX_WEIGHT_TABLE + n
  {
    Distribute(MAX_WEIGHT_TABLE, n, total);
    CancelFactor(sum, MAX_WEIGHT_TABLE + n, total);
    CancelFactor(MAX_WEIGHT_TABLE - n, sum, total);
  }

  /**
   * Below the cap every positive weight is its own slot count; above it the
   * table length stays within one slot per endpoint of the cap, and every
   * endpoint keeps at least one slot.
   */
  lemma {:induction false} ScaledTable(weights: seq<nat>)
    ensures TotalWeight(weights) <= MAX_WEIGHT_TABLE && (forall i :: 0 <= i < |weights| ==> weights[i] > 0)
            ==> Scaled(weights) == weights
    ensures TotalWeight(weights) > MAX_WEIGHT_TABLE
            ==> MAX_WEIGHT_TABLE - |weights| <= Sum(Scaled(weights)) <= MAX_WEIGHT_TABLE + |weights|
    ensures forall i :: 0 <= i < |weights| ==> Scaled(weights)[i] >= 1
  {
    var total := TotalWeight(weights);
    if total > MAX_WEIGHT_TABLE {
      var s := Scaled(weights);
      ScaledWithin(weights);
      SumWithin(s, weights, total);
      ScaledLength(Sum(s), |s|, total);
    }
  }

  // ----- exactly when the table exceeds its cap -----------------------------

  /**
   * Twice what rounding adds to one weight, in units of `1 / total`, read off the
   * remainder of the rounding division: a weight that would round to zero is lifted
   * to one slot, any other gains or loses up to half a slot.
   */
  function Excess(w: nat, total: nat): int
    requires total > 0
  {
    var num := w * MAX_WEIGHT_TABLE;
    if 2 * num < total then 2 * (total - num) else total - (2 * num + total) % (2 * total)
  }

  function TotalExcess(weights: seq<nat>, total: nat): int
    requires total > 0
  {
    if weights == [] then 0
    else TotalExcess(weights[..|weights| - 1], total) + Excess(weights[|weights| - 1], total)
  }

  lemma ExcessExact(w: nat, total: nat)
    requires total > MAX_WEIGHT_TABLE
    ensures 2 * (ScaleWeight(w, total) * total) == 2 * (w * MAX_WEIGHT_TABLE) + Excess(w, total)
  {
    var num := w * MAX_WEIGHT_TABLE;
    var q, r := Divide(2 * num + total, 2 * total);
    assert q * (2 * total) == 2 * (q * total);
    if 2 * num < total {
      if q >= 1 { MulMonotone(1, q, 2 * total); }
      assert ScaleWeight(w, total) == 1;
    } else {
      if q < 1 { MulMonotone(q, 0, 2 * total); }
      assert ScaleWeight(w, total) == q;
    }
  }

  ghost predicate ScaledExactly(s: seq<int>, weights: seq<nat>, total: nat)
    requires total > 0
  {
    |s| == |weights| &&
    forall i :: 0 <= i < |s| ==> 2 * (s[i] * total) == 2 * (weights[i] * MAX_WEIGHT_TABLE) + Excess(weights[i], total)
  }

  lemma {:induction false} SumExact(s: seq<int>, weights: seq<nat>, total: nat)
    requires total > 0 && ScaledExactly(s, weights, total)
    ensures 2 * (Sum(s) * total) == 2 * (TotalWeight(weights) * MAX_WEIGHT_TABLE) + TotalExcess(weights, total)
  {
    if s != [] {
      var n := |s| - 1;
      SumExact(s[..n], weights[..n], total);
      Distribute(Sum(s[..n]), s[n], total);
      Distribute(TotalWeight(weights[..n]), weights[n], MAX_WEIGHT_TABLE);
    }
  }

  lemma {:induction false} SumIsTotal(weights: seq<nat>)
    ensures Sum(weights) == TotalWeight(weights)
  {
    if weights != [] { SumIsTotal(weights[..|weights| - 1]); }
  }

  lemma TableLength(sum: int, total: nat, excess: int)
    requires total > 0 && 2 * (sum * total) == 2 * (total * MAX_WEIGHT_TABLE) + excess
    ensures sum > MAX_WEIGHT_TABLE <==> excess > 0
  {
    if sum > MAX_WEIGHT_TABLE {
      MulMonotone(MAX_WEIGHT_TABLE + 1, sum, total);
    } else {
      MulMonotone(sum, MAX_WEIGHT_TABLE, total);
    }
  }

  /**
   * The cap: for the positive weights a group is built from, the table is longer
   * than 4096 slots if and only if the weights exceed 4096 in total and rounding
   * adds up to a gain; at or below the cap its length is the total.
   */
  lemma CapExceeded(weights: seq<nat>)
    requires forall i :: 0 <= i < |weights| ==> weights[i] > 0
    ensures TotalWeight(weights) <= MAX_WEIGHT_TABLE ==> Sum(Scaled(weights)) == TotalWeight(weights)
    ensures Sum(Scaled(weights)) > MAX_WEIGHT_TABLE <==>
            TotalWeight(weights) > MAX_WEIGHT_TABLE && TotalExcess(weights, TotalWeight(weights)) > 0
  {
    var s, total := Scaled(weights), TotalWeight(weights);
    if total <= MAX_WEIGHT_TABLE {
      assert s == weights;
      SumIsTotal(weights);
    } else {
      forall i | 0 <= i < |s|
        ensures 2 * (s[i] * total) == 2 * (weights[i] * MAX_WEIGHT_TABLE) + Excess(weights[i], total)
      {
        ExcessExact(weights[i], total);
      }
      SumExact(s, weights, total);
      TableLength(Sum(s), total, TotalExcess(weights, total));
    }
  }

  /** An instance: one dominant and one tiny endpoint need a slot more than the cap. */
  lemma CapInstance()
    ensures Sum(Scaled([1_000_000, 1])) == 4097
  {
    var w: seq<nat> := [1_000_000, 1];
    assert w[..1] == [1_000_000] && w[..1][..0] == [];
    assert TotalWeight(w[..1]) == 1_000_000;
    assert TotalWeight(w) == 1_000_001;
    var s := Scaled(w);
    assert s[0] == MAX_WEIGHT_TABLE && s[1] == 1;
    assert s[..1][..0] == [];
    assert Sum(s[..1]) == MAX_WEIGHT_TABLE;
  }

  lemma Distribute(a: int, b: int, f: int)
    ensures (a + b) * f == a * f + b * f && f * (a + b) == f * a + f * b
    ensures (a - b) * f == a * f - b * f && f * (a - b) == f * a - f * b
  {
  }

  lemma MulMonotone(a: int, b: int, f: int)
    requires a <= b && f >= 0
    ensures a * f <= b * f
  {
    Distribute(b, a, f);
    assert (b - a) * f >= 0;
  }

  lemma CancelFactor(a: int, b: int, f: int)
    requires f > 0 && a * f <= b * f
    ensures a <= b
  {
    if a >= b + 1 { MulMonotone(b + 1, a, f); }
  }

  // ----- the endless scheduler -------------------------------------------

  /** Index of the first maximum among the first `n` credits. */
  function ArgMax(c: seq<int>, n: nat): (b: nat)
    requires 1 <= n <= |c|
    ensures b < n
    ensures forall i :: 0 <= i < n ==> c[i] <= c[b]
    ensures forall i :: 0 <= i < b ==> c[i] < c[b]
  {
    if n == 1 then 0
    else
      var b := ArgMax(c, n - 1);
      if c[n - 1] > c[b] then n - 1 else b
  }

  function Bump(c: seq<int>, s: seq<int>): (r: seq<int>)
    requires |c| == |s|
    ensures |r| == |c|
  {
    seq(|c|, i requires 0 <= i < |c| => c[i] + s[i])
  }

  function Zeros(n: nat): seq<int> {
    seq(n, _ => 0)
  }

  /** The endpoint picked pays the total. */
  function Charge(b: seq<int>, p: nat, total: int): (r: seq<int>)
    requires p < |b|
    ensures |r| == |b|
  {
    b[p := b[p] - total]
  }

  /** Credits after `k` rounds. */
  function Credits(s: seq<int>, k: nat): (c: seq<int>)
    requires |s| > 0
    ensures |c| == |s|
    decreases k, 0
  {
    if k == 0 then Zeros(|s|) else Charge(Bump(Credits(s, k - 1), s), Pick(s, k - 1), Sum(s))
  }

  /** The endpoint chosen in round `k`, counting from 0. */
  function Pick(s: seq<int>, k: nat): (p: nat)
    requires |s| > 0
    ensures p < |s|
    decreases k, 1
  {
    ArgMax(Bump(Credits(s, k), s), |s|)
  }

  function Picks(s: seq<int>, k: nat): (p: seq<nat>)
    requires |s| > 0
    ensures |p| == k
  {
    if k == 0 then [] else Picks(s, k - 1) + [Pick(s, k - 1)]
  }

  lemma {:induction false} SumUpdate(c: seq<int>, i: nat, v: int)
    requires i < |c|
    ensures Sum(c[i := v]) == Sum(c) - c[i] + v
  {
    var n := |c| - 1;
    if i == n {
      assert c[i := v][..n] == c[..n];
    } else {
      SumUpdate(c[..n], i, v);
      assert c[i := v][..n] == c[..n][i := v];
    }
  }

  lemma {:induction false} SumBump(c: seq<int>, s: seq<int>)
    requires |c| == |s|
    ensures Sum(Bump(c, s)) == Sum(c) + Sum(s)
  {
    if c != [] {
      var n := |c| - 1;
      SumBump(c[..n], s[..n]);
      assert Bump(c, s)[..n] == Bump(c[..n], s[..n]);
    }
  }

  lemma {:induction false} SumAtMost(c: seq<int>, m: int)
    requires forall i :: 0 <= i < |c| ==> c[i] <= m
    ensures Sum(c) <= |c| * m
  {
    if c != [] {
      var n := |c| - 1;
      SumAtMost(c[..n], m);
      assert |c| * m == n * m + m;
    }
  }

  lemma {:induction false} SumZeros(n: nat)
    ensures Sum(Zeros(n)) == 0
  {
    if n > 0 {
      SumZeros(n - 1);
      assert Zeros(n)[..n - 1] == Zeros(n - 1);
    }
  }

  lemma {:induction false} SumPositive(s: seq<int>)
    requires Positive(s)
    ensures Sum(s) >= |s|
  {
    if s != [] { SumPositive(s[..|s| - 1]); }
  }

  /** Charging the largest credit keeps every credit above minus the total. */
  lemma ChargeKeeps(b: seq<int>, p: nat, total: int)
    requires p < |b| && Sum(b) == total > 0
    requires forall i :: 0 <= i < |b| ==> -total < b[i] <= b[p]
    ensures Sum(Charge(b, p, total)) == 0
    ensures forall i :: 0 <= i < |b| ==> Charge(b, p, total)[i] > -total
  {
    SumUpdate(b, p, b[p] - total);
    // The largest of the credits is positive, since they sum to the total.
    if b[p] <= 0 {
      SumAtMost(b, 0);
    }
  }

  /** Credits always sum to zero and never fall to minus the total. */
  lemma {:induction false} CreditInvariant(s: seq<int>, k: nat)
    requires |s| > 0 && Positive(s)
    ensures Sum(Credits(s, k)) == 0
    ensures forall i :: 0 <= i < |s| ==> Credits(s, k)[i] > -Sum(s)
  {
    SumPositive(s);
    if k == 0 {
      SumZeros(|s|);
    } else {
      CreditInvariant(s, k - 1);
      SumBump(Credits(s, k - 1), s);
      ChargeKeeps(Bump(Credits(s, k - 1), s), Pick(s, k - 1), Sum(s));
    }
  }

  lemma CountSnoc(p: seq<nat>, x: nat, i: nat)
    ensures Count(p + [x], i) == Count(p, i) + (if x == i then 1 else 0)
  {
    assert (p + [x])[..|p|] == p;
  }

  lemma Earned(k: nat, share: int, total: int, before: nat, hit: nat, c: int)
    requires k > 0 && c == (k - 1) * share - total * before
    ensures c + share - total * hit == k * share - total * (before + hit)
  {
    Distribute(k, 1, share);
    Distribute(before, hit, total);
  }

  function Drawn(p: nat, i: nat): nat {
    if p == i then 1 else 0
  }

  lemma OnePickMore(s: seq<int>, k: nat, i: nat)
    requires |s| > 0 && k > 0
    ensures Count(Picks(s, k), i) == Count(Picks(s, k - 1), i) + Drawn(Pick(s, k - 1), i)
  {
    assert Picks(s, k) == Picks(s, k - 1) + [Pick(s, k - 1)];
    CountSnoc(Picks(s, k - 1), Pick(s, k - 1), i);
  }

  lemma CreditStep(s: seq<int>, k: nat, i: nat)
    requires i < |s| && k > 0
    ensures Credits(s, k)[i] == Credits(s, k - 1)[i] + s[i] - Sum(s) * Drawn(Pick(s, k - 1), i)
  {
  }

  /** An account that gains `share` each round and pays `total` for each hit. */
  lemma {:induction false} Account(credit: nat -> int, hits: nat -> nat, hit: nat -> nat, share: int, total: int, k: nat)
    requires credit(0) == 0 && hits(0) == 0
    requires forall j: nat :: j < k ==> credit(j + 1) == credit(j) + share - total * hit(j) && hits(j + 1) == hits(j) + hit(j)
    ensures credit(k) == k * share - total * hits(k)
  {
    if k > 0 {
      Account(credit, hits, hit, share, total, k - 1);
      var j := k - 1;
      assert hits(j + 1) == hits(j) + hit(j);
      Earned(k, share, total, hits(j), hit(j), credit(j));
    }
  }

  function CreditOf(s: seq<int>, i: nat): nat -> int
    requires i < |s|
  {
    (k: nat) => Credits(s, k)[i]
  }

  function PicksOf(s: seq<int>, i: nat): nat -> nat
    requires |s| > 0
  {
    (k: nat) => Count(Picks(s, k), i)
  }

  function DrawnOf(s: seq<int>, i: nat): nat -> nat
    requires |s| > 0
  {
    (k: nat) => Drawn(Pick(s, k), i)
  }

  lemma AccountStep(s: seq<int>, i: nat, j: nat)
    requires i < |s|
    ensures CreditOf(s, i)(j + 1) == CreditOf(s, i)(j) + s[i] - Sum(s) * DrawnOf(s, i)(j)
    ensures PicksOf(s, i)(j + 1) == PicksOf(s, i)(j) + DrawnOf(s, i)(j)
  {
    OnePickMore(s, j + 1, i);
    CreditStep(s, j + 1, i);
  }

  lemma AccountStart(s: seq<int>, i: nat)
    requires i < |s|
    ensures CreditOf(s, i)(0) == 0 && PicksOf(s, i)(0) == 0
  {
  }

  /** A credit is what the endpoint has earned minus what its picks have cost. */
  lemma CreditFormula(s: seq<int>, k: nat, i: nat)
    requires i < |s|
    ensures Credits(s, k)[i] == k * s[i] - Sum(s) * Count(Picks(s, k), i)
  {
    AccountStart(s, i);
    forall j: nat | j < k
      ensures CreditOf(s, i)(j + 1) == CreditOf(s, i)(j) + s[i] - Sum(s) * DrawnOf(s, i)(j)
      ensures PicksOf(s, i)(j + 1) == PicksOf(s, i)(j) + DrawnOf(s, i)(j)
    {
      AccountStep(s, i, j);
    }
    Account(CreditOf(s, i), PicksOf(s, i), DrawnOf(s, i), s[i], Sum(s), k);
  }

  lemma {:induction false} OthersBound(c: seq<int>, i: nat, low: int)
    requires i < |c|
    requires forall j :: 0 <= j < |c| ==> c[j] > low
    ensures Sum(c) - c[i] >= (|c| - 1) * (low + 1)
  {
    var n := |c| - 1;
    if i == n {
      SumAtLeast(c[..n], low + 1);
    } else {
      OthersBound(c[..n], i, low);
      assert n * (low + 1) == (n - 1) * (low + 1) + (low + 1);
    }
  }

  lemma {:induction false} SumAtLeast(c: seq<int>, m: int)
    requires forall i :: 0 <= i < |c| ==> c[i] >= m
    ensures Sum(c) >= |c| * m
  {
    if c != [] {
      var n := |c| - 1;
      SumAtLeast(c[..n], m);
      assert |c| * m == n * m + m;
    }
  }

  /**
   * Spread: after any number of rounds the picks of endpoint `i` are less than
   * one above, and at most `(n - 1) * (total - 1) / total` below, its exact
   * proportional share `k * s[i] / total` (both sides multiplied by the total).
   */
  lemma Spread(s: seq<int>, k: nat, i: nat)
    requires i < |s| && Positive(s)
    ensures Sum(s) * Count(Picks(s, k), i) < k * s[i] + Sum(s)
    ensures Sum(s) * Count(Picks(s, k), i) >= k * s[i] - (|s| - 1) * (Sum(s) - 1)
  {
    CreditInvariant(s, k);
    CreditFormula(s, k, i);
    var c, n, total := Credits(s, k), |s|, Sum(s);
    OthersBound(c, i, -total);
    Distribute(0, total - 1, n - 1);
    assert c[i] <= (n - 1) * (total - 1);
  }

  lemma {:induction false} CountTotal(p: seq<nat>, n: nat)
    requires forall j :: 0 <= j < |p| ==> p[j] < n
    ensures Sum(Counts(p, n)) == |p|
  {
    if p == [] {
      assert Counts(p, n) == Zeros(n);
      SumZeros(n);
    } else {
      var l := |p| - 1;
      CountTotal(p[..l], n);
      var before := Counts(p[..l], n);
      assert Counts(p, n) == before[p[l] := before[p[l]] + 1];
      SumUpdate(before, p[l], before[p[l]] + 1);
    }
  }

  function Counts(p: seq<nat>, n: nat): (c: seq<int>) {
    seq(n, i requires 0 <= i < n => Count(p, i))
  }

  lemma {:induction false} SumsForceEquality(a: seq<int>, b: seq<int>)
    requires |a| == |b| && Sum(a) >= Sum(b)
    requires forall i :: 0 <= i < |a| ==> a[i] <= b[i]
    ensures a == b
  {
    if a != [] {
      var n := |a| - 1;
      SumMonotone(a[..n], b[..n]);
      SumsForceEquality(a[..n], b[..n]);
      assert a == a[..n] + [a[n]] && b == b[..n] + [b[n]];
    }
  }

  lemma {:induction false} SumMonotone(a: seq<int>, b: seq<int>)
    requires |a| == |b| && forall i :: 0 <= i < |a| ==> a[i] <= b[i]
    ensures Sum(a) <= Sum(b)
  {
    if a != [] { SumMonotone(a[..|a| - 1], b[..|a| - 1]); }
  }

  /** Picks that respect every share from above, as many as the shares together, meet every share. */
  lemma SharesForced(s: seq<int>, p: seq<nat>)
    requires |p| == Sum(s) > 0 && forall j :: 0 <= j < |p| ==> p[j] < |s|
    requires forall i :: 0 <= i < |s| ==> Count(p, i) <= s[i]
    ensures forall i :: 0 <= i < |s| ==> Count(p, i) == s[i]
  {
    var counts := Counts(p, |s|);
    CountTotal(p, |s|);
    SumsForceEquality(counts, s);
    forall i | 0 <= i < |s|
      ensures Count(p, i) == s[i]
    {
      assert counts[i] == s[i];
    }
  }

  /**
   * Exactness: one full turn of `Sum(s)` rounds picks endpoint `i` exactly
   * `s[i]` times and returns every credit to zero.
   */
  lemma ExactShare(s: seq<int>)
    requires |s| > 0 && Positive(s)
    ensures Sum(s) > 0
    ensures forall i :: 0 <= i < |s| ==> Count(Picks(s, Sum(s)), i) == s[i]
    ensures Credits(s, Sum(s)) == Zeros(|s|)
  {
    SumPositive(s);
    ExactCounts(s);
    forall i | 0 <= i < |s|
      ensures Credits(s, Sum(s))[i] == 0
    {
      CreditFormula(s, Sum(s), i);
    }
    AllZero(Credits(s, Sum(s)));
  }

  lemma AllZero(c: seq<int>)
    requires forall i :: 0 <= i < |c| ==> c[i] == 0
    ensures c == Zeros(|c|)
  {
  }

  lemma ExactCounts(s: seq<int>)
    requires |s| > 0 && Positive(s) && Sum(s) > 0
    ensures forall i :: 0 <= i < |s| ==> Count(Picks(s, Sum(s)), i) == s[i]
  {
    var p := Picks(s, Sum(s));
    forall i | 0 <= i < |s|
      ensures Count(p, i) <= s[i]
    {
      Spread(s, Sum(s), i);
      AtMostShare(Sum(s), Count(p, i), s[i]);
    }
    PicksInRange(s, Sum(s));
    SharesForced(s, p);
  }

  lemma AtMostShare(total: int, count: int, share: int)
    requires total > 0 && total * count < total * share + total
    ensures count <= share
  {
    if count >= share + 1 {
      MulMonotone(share + 1, count, total);
      Distribute(share, 1, total);
    }
  }

  lemma {:induction false} PicksInRange(s: seq<int>, k: nat)
    requires |s| > 0
    ensures forall j :: 0 <= j < k ==> Picks(s, k)[j] == Pick(s, j) < |s|
  {
    if k > 0 { PicksInRange(s, k - 1); }
  }

  lemma SamePick(s: seq<int>, a: nat, b: nat)
    requires |s| > 0 && Credits(s, a) == Credits(s, b)
    ensures Pick(s, a) == Pick(s, b)
  {
  }

  lemma NextCredits(s: seq<int>, k: nat)
    requires |s| > 0
    ensures Credits(s, k + 1) == Charge(Bump(Credits(s, k), s), Pick(s, k), Sum(s))
  {
  }

  lemma SameNext(s: seq<int>, a: nat, b: nat)
    requires |s| > 0 && Credits(s, a) == Credits(s, b)
    ensures Credits(s, a + 1) == Credits(s, b + 1)
  {
    SamePick(s, a, b);
    NextCredits(s, a);
    NextCredits(s, b);
  }

  /** A sequence whose next element is a function of the last one repeats from equal elements on. */
  lemma {:induction false} SameOrbit<T>(f: nat -> T, a: nat, b: nat, a': nat, b': nat)
    requires forall x: nat, y: nat :: f(x) == f(y) ==> f(x + 1) == f(y + 1)
    requires f(a) == f(b) && a' - a == b' - b >= 0
    ensures f(a') == f(b')
    decreases a' - a
  {
    if a < a' { SameOrbit(f, a + 1, b + 1, a', b'); }
  }

  function CreditsOf(s: seq<int>): nat -> seq<int>
    requires |s| > 0
  {
    (k: nat) => Credits(s, k)
  }

  lemma CreditsOrbit(s: seq<int>)
    requires |s| > 0
    ensures forall x: nat, y: nat :: CreditsOf(s)(x) == CreditsOf(s)(y) ==> CreditsOf(s)(x + 1) == CreditsOf(s)(y + 1)
  {
    forall x: nat, y: nat | CreditsOf(s)(x) == CreditsOf(s)(y)
      ensures CreditsOf(s)(x + 1) == CreditsOf(s)(y + 1)
    {
      SameStep(s, x, y);
    }
  }

  lemma SameStep(s: seq<int>, x: nat, y: nat)
    requires |s| > 0 && CreditsOf(s)(x) == CreditsOf(s)(y)
    ensures CreditsOf(s)(x + 1) == CreditsOf(s)(y + 1)
  {
    SameNext(s, x, y);
  }

  lemma SameCredits(s: seq<int>, t: nat, k: nat)
    requires |s| > 0 && Credits(s, t) == Zeros(|s|)
    ensures Credits(s, t + k) == Credits(s, k)
  {
    CreditsOrbit(s);
    SameOrbit(CreditsOf(s), t, 0, t + k, k);
  }

  /** The scheduler repeats itself from any round at which the credits are back at zero. */
  lemma Restart(s: seq<int>, t: nat, k: nat)
    requires |s| > 0 && Credits(s, t) == Zeros(|s|)
    ensures Credits(s, t + k) == Credits(s, k)
    ensures Pick(s, t + k) == Pick(s, k)
  {
    SameCredits(s, t, k);
    SamePick(s, t + k, k);
  }

  lemma {:induction false} Turn(s: seq<int>, total: nat, q: nat, r: nat, k: nat)
    requires |s| > 0 && Credits(s, total) == Zeros(|s|)
    requires k == q * total + r
    ensures Pick(s, k) == Pick(s, r)
    decreases q
  {
    if q > 0 {
      var k' := OneTurnLess(total, q, r, k);
      Turn(s, total, q - 1, r, k');
      Restart(s, total, k');
    }
  }

  lemma OneTurnLess(total: nat, q: nat, r: nat, k: nat) returns (k': nat)
    requires q > 0 && k == q * total + r
    ensures k' == (q - 1) * total + r && k == total + k'
  {
    Distribute(q, 1, total);
    MulMonotone(0, q - 1, total);
    k' := (q - 1) * total + r;
  }

  /** Serving `table[k % len]` is the endless scheduler itself, for every ticket `k`. */
  lemma CyclicTable(s: seq<int>, k: nat)
    requires |s| > 0 && Positive(s)
    ensures Sum(s) > 0
    ensures Picks(s, Sum(s))[k % Sum(s)] == Pick(s, k)
  {
    ExactShare(s);
    var total := Sum(s);
    var q, r := Divide(k, total);
    Turn(s, total, q, r, k);
    PicksInRange(s, total);
  }

  lemma Divide(k: nat, d: nat) returns (q: nat, r: nat)
    requires d > 0
    ensures k == q * d + r && r == k % d && r < d && q == k / d
  {
    q, r := k / d, k % d;
  }

  /** A quotient and remainder in range are the quotient and remainder. */
  lemma ModUnique(k: int, d: nat, q: int, r: int)
    requires 0 <= r < d && k == q * d + r
    ensures k / d == q && k % d == r
  {
    var q', r' := k / d, k % d;
    Distribute(q, q', d);
    if q - q' >= 1 { MulMonotone(1, q - q', d); }
    if q - q' <= -1 { MulMonotone(q - q', -1, d); }
  }

  lemma {:induction false} Unchanged(f: nat -> nat, a: nat, b: nat)
    requires a <= b && forall k: nat :: a <= k < b ==> f(k + 1) == f(k)
    ensures f(a) == f(b)
    decreases b
  {
    if a < b {
      Unchanged(f, a, b - 1);
      var k := b - 1;
      assert f(k + 1) == f(k);
    }
  }

  lemma CountPrefix(s: seq<int>, a: nat, b: nat, i: nat)
    requires |s| > 0 && a <= b
    requires forall k :: a <= k < b ==> Pick(s, k) != i
    ensures Count(Picks(s, a), i) == Count(Picks(s, b), i)
  {
    forall k: nat | a <= k < b ensures PicksOf(s, i)(k + 1) == PicksOf(s, i)(k) { NotPicked(s, i, k); }
    Unchanged(PicksOf(s, i), a, b);
  }

  lemma NotPicked(s: seq<int>, i: nat, k: nat)
    requires |s| > 0 && Pick(s, k) != i
    ensures PicksOf(s, i)(k + 1) == PicksOf(s, i)(k)
  {
    OnePickMore(s, k + 1, i);
  }

  /** If a window is worth `n` full turns of an endpoint's share, its pick count grows over it. */
  lemma WindowGrows(a: nat, b: nat, share: int, total: int, n: nat, before: nat, after: nat)
    requires n >= 1 && total >= 1
    requires (b - a) * share >= n * total
    requires total * before < a * share + total
    requires total * after >= b * share - (n - 1) * (total - 1)
    ensures after > before
  {
    Distribute(b, a, share);
    Distribute(total, 1, n - 1);
    Distribute(n, 1, total);
    if after <= before { MulMonotone(after, before, total); }
  }

  lemma CountGrows(s: seq<int>, a: nat, b: nat, i: nat)
    requires i < |s| && Positive(s)
    requires (b - a) * s[i] >= |s| * Sum(s)
    ensures Count(Picks(s, b), i) > Count(Picks(s, a), i)
  {
    var before, after := Count(Picks(s, a), i), Count(Picks(s, b), i);
    assert Sum(s) >= 1 by { SumPositive(s); }
    assert Sum(s) * before < a * s[i] + Sum(s) by { Spread(s, a, i); }
    assert Sum(s) * after >= b * s[i] - (|s| - 1) * (Sum(s) - 1) by { Spread(s, b, i); }
    WindowGrows(a, b, s[i], Sum(s), |s|, before, after);
  }

  /**
   * No starvation: every window of slots `a` to `b` with
   * `(b - a) * s[i] >= n * Sum(s)` serves endpoint `i`, wherever it starts.
   */
  lemma NoStarvation(s: seq<int>, a: nat, b: nat, i: nat)
    requires i < |s| && Positive(s) && a <= b
    requires (b - a) * s[i] >= |s| * Sum(s)
    ensures exists k :: a <= k < b && Pick(s, k) == i
  {
    CountGrows(s, a, b, i);
    if forall k :: a <= k < b ==> Pick(s, k) != i {
      CountPrefix(s, a, b, i);
    }
  }

  // ----- the table the code stores ---------------------------------------

  function Narrow(index: nat): nat {
    if index < INDEX_LIMIT then index else 0
  }

  function Table(weights: seq<nat>): (t: seq<nat>)
  {
    if weights == [] then []
    else
      var s := Scaled(weights);
      SumPositive(s);
      var p := Picks(s, Sum(s));
      seq(|p|, k requires 0 <= k < |p| => Narrow(p[k]))
  }

  /**
   * The stored table gives every endpoint exactly its scaled share if and only
   * if all endpoint indices fit the `u16` slots.
   */
  lemma StoredTableExact(weights: seq<nat>)
    ensures (forall i :: 0 <= i < |weights| ==> Count(Table(weights), i) == Scaled(weights)[i])
            <==> |weights| <= 65_536
  {
    if weights != [] {
      var s := Scaled(weights);
      ExactShare(s);
      if |weights| <= INDEX_LIMIT {
        NarrowKeeps(weights);
      } else {
        NarrowDrops(weights);
        assert Scaled(weights)[INDEX_LIMIT] >= 1;
      }
    }
  }

  lemma NarrowKeeps(weights: seq<nat>)
    requires 0 < |weights| <= INDEX_LIMIT
    ensures Sum(Scaled(weights)) >= 0 && Table(weights) == Picks(Scaled(weights), Sum(Scaled(weights)))
  {
    SumPositive(Scaled(weights));
    PicksInRange(Scaled(weights), Sum(Scaled(weights)));
  }

  lemma NarrowDrops(weights: seq<nat>)
    ensures Count(Table(weights), INDEX_LIMIT) == 0
  {
    CountAbsent(Table(weights), INDEX_LIMIT);
  }

  /** An instance: one endpoint of weight two and 65536 of weight one do not all get their share. */
  lemma IndexInstance()
    ensures var weights: seq<nat> := [2] + seq(INDEX_LIMIT, _ => 1);
            exists i :: 0 <= i < |weights| && Count(Table(weights), i) != Scaled(weights)[i]
  {
    var weights: seq<nat> := [2] + seq(INDEX_LIMIT, _ => 1);
    StoredTableExact(weights);
  }

  lemma {:induction false} CountAbsent(t: seq<nat>, x: nat)
    requires forall k :: 0 <= k < |t| ==> t[k] != x
    ensures Count(t, x) == 0
  {
    if t != [] { CountAbsent(t[..|t| - 1], x); }
  }

  /** The first maximum is unique. */
  lemma {:induction false} ArgMaxIs(c: seq<int>, n: nat, b: nat)
    requires b < n <= |c|
    requires forall i :: 0 <= i < n ==> c[i] <= c[b]
    requires forall i :: 0 <= i < b ==> c[i] < c[b]
    ensures ArgMax(c, n) == b
  {
    var m := ArgMax(c, n);
    assert c[b] <= c[m] <= c[b];
  }

  /** One round: bump every credit in place, then charge the first maximum. */
  method ScheduleRound(current: array<int>, scaled: seq<int>, totalScaled: int) returns (best: nat)
    requires current.Length == |scaled| > 0
    modifies current
    ensures best == ArgMax(Bump(old(current[..]), scaled), |scaled|)
    ensures current[..] == Charge(Bump(old(current[..]), scaled), best, totalScaled)
  {
    best := 0;
    for i := 0 to |scaled|
      invariant best < |scaled| && best <= i
      invariant forall j :: 0 <= j < i ==> current[j] == old(current[j]) + scaled[j]
      invariant forall j :: i <= j < |scaled| ==> current[j] == old(current[j])
      invariant forall j :: 0 <= j < i ==> current[j] <= current[best]
      invariant forall j :: 0 <= j < best ==> current[j] < current[best]
      invariant i > 0 ==> best < i
    {
      current[i] := current[i] + scaled[i];
      if current[i] > current[best] {
        best := i;
      }
    }
    ghost var bumped := Bump(old(current[..]), scaled);
    assert current[..] == bumped;
    ArgMaxIs(bumped, |scaled|, best);
    current[best] := current[best] - totalScaled;
  }

  lemma RoundStep(s: seq<int>, k: nat, c: seq<int>)
    requires |s| > 0 && c == Credits(s, k)
    ensures Pick(s, k) == ArgMax(Bump(c, s), |s|)
    ensures Credits(s, k + 1) == Charge(Bump(c, s), ArgMax(Bump(c, s), |s|), Sum(s))
  {
    NextCredits(s, k);
  }

  /** The credit loop over `scaled`, pushing one narrowed index per round. */
  method RunRounds(scaled: seq<int>, rounds: nat) returns (table: seq<nat>)
    requires |scaled| > 0
    ensures |table| == rounds
    ensures forall k :: 0 <= k < rounds ==> table[k] == Narrow(Pick(scaled, k))
  {
    table := [];
    var totalScaled := Sum(scaled);
    var current := new int[|scaled|](_ => 0);
    assert current[..] == Zeros(|scaled|);
    for round := 0 to rounds
      invariant current[..] == Credits(scaled, round)
      invariant |table| == round
      invariant forall k :: 0 <= k < round ==> table[k] == Narrow(Pick(scaled, k))
    {
      RoundStep(scaled, round, current[..]);
      var best := ScheduleRound(current, scaled, totalScaled);
      table := table + [Narrow(best)];
    }
  }

  method ExpandWeights(weights: seq<nat>) returns (table: seq<nat>)
    ensures table == Table(weights)
  {
    if weights == [] {
      return [];
    }
    var scaled := Scaled(weights);
    SumPositive(scaled);
    table := RunRounds(scaled, Sum(scaled));
    PicksInRange(scaled, Sum(scaled));
  }
}
