/** The RX flow-hash indirection table of `ethtool -X`: `size` table entries are spread
over the rings either round robin (`equal N`) or in proportion to weights (`weight W0 W1 ...`).
All arithmetic is on `u32`, which wraps modulo 2^32.
*/
module Indirection {
  import opened Arithmetic
  import opened Machine

  /** The outcome of the command up to the request it would send to the driver. */
  datatype Outcome =
    | Table(ringIndex: seq<nat>)
    | AllWeightsZero
    | TotalExceedsSize
    | BadArgs

  predicate IsU32List(weights: seq<nat>) {
    forall k :: 0 <= k < |weights| ==> weights[k] < U32
  }

  /** Sum of the first `k` weights, without wrap-around. */
  function Prefix(weights: seq<nat>, k: nat): nat
    requires k <= |weights|
  {
    if k == 0 then 0 else Prefix(weights, k - 1) + weights[k - 1]
  }

  function Total(weights: seq<nat>): nat {
    Prefix(weights, |weights|)
  }

  /** Where ring `k` would start if every computation were exact. */
  function Bound(weights: seq<nat>, size: nat, k: nat): nat
    requires k <= |weights| && 0 < Total(weights)
  {
    size * Prefix(weights, k) / Total(weights)
  }

  /** The apportionment: entry `i` belongs to the ring whose interval contains `i`. */
  ghost predicate Apportioned(table: seq<nat>, weights: seq<nat>, size: nat)
    requires 0 < Total(weights)
  {
    && |table| == size
    && forall i :: 0 <= i < size ==>
      && table[i] < |weights|
      && Bound(weights, size, table[i]) <= i < Bound(weights, size, table[i] + 1)
  }

  /** Number of table entries that point at ring `r`. */
  function Entries(table: seq<nat>, r: nat): nat {
    if table == [] then 0
    else Entries(table[..|table| - 1], r) + if table[|table| - 1] == r then 1 else 0
  }

  lemma {:induction false} PrefixMonotone(weights: seq<nat>, j: nat, k: nat)
    requires j <= k <= |weights|
    ensures Prefix(weights, j) <= Prefix(weights, k)
    decreases k
  {
    if j < k {
      PrefixMonotone(weights, j, k - 1);
    }
  }

  lemma {:induction false} BoundMonotone(weights: seq<nat>, size: nat, j: nat, k: nat)
    requires j <= k <= |weights| && 0 < Total(weights)
    ensures Bound(weights, size, j) <= Bound(weights, size, k)
  {
    PrefixMonotone(weights, j, k);
    MulMonotone(size, Prefix(weights, j), Prefix(weights, k));
    DivMonotone(size * Prefix(weights, j), size * Prefix(weights, k), Total(weights));
  }

  lemma {:induction false} BoundEnds(weights: seq<nat>, size: nat)
    requires 0 < Total(weights)
    ensures Bound(weights, size, 0) == 0
    ensures Bound(weights, size, |weights|) == size
  {
    DivExact(size, Total(weights));
  }

  // ----- The wrapped computation

  lemma {:induction false} WrappedPrefix(weights: seq<nat>, k: nat)
    requires k < |weights|
    ensures (Prefix(weights, k) % U32 + weights[k]) % U32 == Prefix(weights, k + 1) % U32
  {}

  /** The command can do its arithmetic in 32 bits. */
  predicate Fits(weights: seq<nat>, size: nat) {
    0 < Total(weights) <= size && size * Total(weights) < U32
  }

  /** The limit the code compares against once it has added up `k` weights. */
  function Limit(weights: seq<nat>, size: nat, k: nat): nat
    requires k <= |weights| && 0 < Total(weights) % U32
  {
    size * (Prefix(weights, k) % U32) % U32 / (Total(weights) % U32)
  }

  /** `limits` tabulates the limits of a call. */
  ghost predicate IsLimits(limits: seq<nat>, weights: seq<nat>, size: nat)
    requires 0 < Total(weights) % U32
  {
    && |limits| == |weights| + 1
    && forall k {:trigger Limit(weights, size, k)} :: 0 <= k <= |weights| ==>
      limits[k] == Limit(weights, size, k)
  }

  /** Every entry lies between the limits around its ring. */
  ghost predicate AllPlaced(limits: seq<nat>, table: seq<nat>) {
    forall i :: 0 <= i < |table| ==>
      table[i] + 1 < |limits| && limits[table[i]] <= i < limits[table[i] + 1]
  }

  /** The table that the wrapped limits give. */
  ghost predicate Placed(table: seq<nat>, weights: seq<nat>, size: nat)
    requires 0 < Total(weights) % U32
  {
    |table| == size && forall i :: 0 <= i < size ==>
      table[i] < |weights| && Limit(weights, size, table[i]) <= i < Limit(weights, size, table[i] + 1)
  }

  /** While `size * Total` fits in 32 bits no product wraps and every limit is exact. */
  lemma {:induction false} LimitIsBound(weights: seq<nat>, size: nat, k: nat)
    requires k <= |weights| && Fits(weights, size)
    ensures 0 < Total(weights) % U32
    ensures Limit(weights, size, k) == Bound(weights, size, k)
  {
    var p, t := Prefix(weights, k), Total(weights);
    PrefixMonotone(weights, k, |weights|);
    MulMonotone(size, p, t);
    MulMonotone(t, 1, size);
    assert p % U32 == p && t % U32 == t;
    assert size * p % U32 == size * p;
  }

  /** When `size * Total` does not fit, no limit reaches `size`. */
  lemma {:induction false} LimitStarves(weights: seq<nat>, size: nat, k: nat)
    requires k <= |weights| && 0 < Total(weights) <= size < U32 && !Fits(weights, size)
    ensures Limit(weights, size, k) < size
  {
    var x, t := size * (Prefix(weights, k) % U32) % U32, Total(weights);
    assert t % U32 == t && x < U32 <= size * t;
    DivBelow(x, size, t);
  }

  /** With a total below 2^32, the table is complete exactly when the products fit. */
  lemma {:induction false} CompleteIffFits(weights: seq<nat>, size: nat)
    requires 0 < Total(weights) <= size < U32
    ensures Limit(weights, size, |weights|) == size <==> Fits(weights, size)
    ensures !Fits(weights, size) ==> forall k :: 0 <= k <= |weights| ==> Limit(weights, size, k) < size
  {
    if Fits(weights, size) {
      LimitIsBound(weights, size, |weights|);
      BoundEnds(weights, size);
    } else {
      forall k: nat | k <= |weights| ensures Limit(weights, size, k) < size {
        LimitStarves(weights, size, k);
      }
    }
  }

  lemma {:induction false} PlacedIsApportioned(weights: seq<nat>, size: nat, limits: seq<nat>, table: seq<nat>)
    requires Fits(weights, size) && |table| == size
    requires 0 < Total(weights) % U32 && IsLimits(limits, weights, size) && AllPlaced(limits, table)
    ensures Apportioned(table, weights, size)
  {
    forall i | 0 <= i < size
      ensures table[i] < |weights|
      ensures Bound(weights, size, table[i]) <= i < Bound(weights, size, table[i] + 1)
    {
      LimitIsBound(weights, size, table[i]);
      LimitIsBound(weights, size, table[i] + 1);
    }
  }

  /** The loop guard's right-hand side, in wrapping arithmetic. */
  method Threshold(size: nat, partial: nat, sum: nat,
                   ghost weights: seq<nat>, ghost limits: seq<nat>, ghost k: nat) returns (b: nat)
    requires sum == Total(weights) % U32 && 0 < sum && IsLimits(limits, weights, size)
    requires k <= |weights| && partial == Prefix(weights, k) % U32
    ensures b == limits[k]
  {
    b := size * partial % U32 / sum;
    assert b == Limit(weights, size, k);
  }

  /** Some limit reaches `n`. */
  ghost predicate Reaches(limits: seq<nat>, n: nat) {
    exists k :: 0 <= k < |limits| && n <= limits[k]
  }

  lemma {:induction false} NoneReaches(limits: seq<nat>, i: nat, n: nat)
    requires i < n && forall m :: 0 <= m < |limits| ==> limits[m] <= i
    ensures !Reaches(limits, n)
  {}

  /** `j` and `partial` as they are when `k` weights have been added up, whose limits entry `i` has
      passed. */
  ghost predicate Passed(weights: seq<nat>, limits: seq<nat>, i: nat, j: nat, partial: nat, k: nat) {
    && k <= |weights| < |limits|
    && j == (if k == 0 then U32 - 1 else k - 1) && partial == Prefix(weights, k) % U32
    && forall m :: 0 <= m < k ==> limits[m] <= i
  }

  /** The inner loop: go on to the ring whose limit is above entry `i`.  An index equal to the length
      of `weights` reads the terminating null argument, which `get_u32` refuses. */
  method NextRing(weights: seq<nat>, size: nat, sum: nat, i: nat, j0: nat, partial0: nat,
                  ghost limits: seq<nat>, ghost k0: nat)
    returns (ok: bool, j: nat, partial: nat, ghost k: nat)
    requires IsU32List(weights) && |weights| < U32 - 1 && sum == Total(weights) % U32 && 0 < sum
    requires IsLimits(limits, weights, size) && Passed(weights, limits, i, j0, partial0, k0)
    ensures ok ==> Passed(weights, limits, i, j, partial, k) && i < limits[k]
    ensures !ok ==> forall m :: 0 <= m < |limits| ==> limits[m] <= i
  {
    j, partial, k := j0, partial0, k0;
    var bound := Threshold(size, partial, sum, weights, limits, k);
    while i >= bound
      invariant Passed(weights, limits, i, j, partial, k) && bound == limits[k]
      decreases |weights| - k
    {
      j := (j + 1) % U32;
      assert j == k;
      if j == |weights| {
        return false, j, partial, k;
      }
      WrappedPrefix(weights, j);
      partial, k := (partial + weights[j]) % U32, k + 1;
      bound := Threshold(size, partial, sum, weights, limits, k);
    }
    ok := true;
  }

  /** The filling loop, on whatever the wrapped arithmetic yields. */
  method FillTable(weights: seq<nat>, size: nat, sum: nat, ghost limits: seq<nat>) returns (r: Outcome)
    requires IsU32List(weights) && |weights| < U32 - 1 && size < U32
    requires sum == Total(weights) % U32 && 0 < sum
    requires IsLimits(limits, weights, size) && limits[0] == 0
    ensures r.Table? <==> Reaches(limits, size)
    ensures r.BadArgs? <==> !Reaches(limits, size)
    ensures r.Table? ==> |r.ringIndex| == size && AllPlaced(limits, r.ringIndex)
  {
    var ringIndex := new nat[size];
    var j: nat, partial: nat, ok := U32 - 1, 0, true;
    var i := 0;
    ghost var k := 0;  // number of weights added up so far
    while i < size
      invariant 0 <= i <= size && Passed(weights, limits, i, j, partial, k)
      invariant Reaches(limits, i)
      invariant AllPlaced(limits, ringIndex[..i])
    {
      ok, j, partial, k := NextRing(weights, size, sum, i, j, partial, limits, k);
      if !ok {
        NoneReaches(limits, i, size);
        return BadArgs;
      }
      ghost var filled := ringIndex[..i];
      ringIndex[i] := j;
      assert ringIndex[..i + 1] == filled + [j];
      i := i + 1;
    }
    return Table(ringIndex[..]);
  }

  /** The weights yield a table: their wrapped total passes both checks, and some limit reaches the
      size of the table. */
  ghost predicate Fills(weights: seq<nat>, size: nat) {
    && 0 < Total(weights) % U32 <= size
    && exists k :: 0 <= k <= |weights| && size <= Limit(weights, size, k)
  }

  /** With a total below 2^32 that is when the products fit. */
  lemma {:induction false} FillsIffFits(weights: seq<nat>, size: nat)
    requires Total(weights) < U32 && size < U32
    ensures Fills(weights, size) <==> Fits(weights, size)
  {
    if 0 < Total(weights) <= size {
      CompleteIffFits(weights, size);
    }
  }

  lemma {:induction false} TabulatedReaches(limits: seq<nat>, weights: seq<nat>, size: nat)
    requires 0 < Total(weights) % U32 <= size && IsLimits(limits, weights, size)
    ensures Reaches(limits, size) <==> Fills(weights, size)
  {
    if Reaches(limits, size) {
      var k :| 0 <= k < |limits| && size <= limits[k];
      assert limits[k] == Limit(weights, size, k);
    }
    if k :| 0 <= k <= |weights| && size <= Limit(weights, size, k) {
      assert limits[k] == Limit(weights, size, k);
    }
  }

  /** `do_srxfhindir`, the `weight` form: which of the outcomes occurs, for all weights. */
  method FillByWeight(weights: seq<nat>, size: nat) returns (r: Outcome)
    requires IsU32List(weights) && |weights| < U32 - 1 && size < U32
    ensures r == AllWeightsZero <==> Total(weights) % U32 == 0
    ensures r == TotalExceedsSize <==> size < Total(weights) % U32
    ensures r == BadArgs <==> 0 < Total(weights) % U32 <= size && !Fills(weights, size)
    ensures r.Table? <==> Fills(weights, size)
    ensures r.Table? ==> Placed(r.ringIndex, weights, size)
    ensures Total(weights) < U32 ==> (r.Table? <==> Fits(weights, size))
    ensures r.Table? && Total(weights) < U32 ==> Apportioned(r.ringIndex, weights, size)
    ensures r.Table? && size < Total(weights) <==> U32 <= Total(weights) && Fills(weights, size)
  {
    var sum, n := 0, 0;
    while n < |weights|
      invariant n <= |weights| && sum == Prefix(weights, n) % U32
    {
      WrappedPrefix(weights, n);
      sum := (sum + weights[n]) % U32;
      n := n + 1;
    }
    if Total(weights) < U32 {
      FillsIffFits(weights, size);
    }
    if sum == 0 {
      return AllWeightsZero;
    }
    if sum > size {
      return TotalExceedsSize;
    }
    ghost var limits := seq(|weights| + 1, k requires 0 <= k <= |weights| => Limit(weights, size, k));
    TabulatedReaches(limits, weights, size);
    r := FillTable(weights, size, sum, limits);
    if r.Table? && Total(weights) < U32 {
      PlacedIsApportioned(weights, size, limits, r.ringIndex);
    }
  }

  /** `do_srxfhindir`, the `equal` form. */
  method FillEqually(rings: nat, size: nat) returns (table: seq<nat>)
    requires 1 <= rings <= 0x7fff_ffff && size < U32
    ensures |table| == size && forall i :: 0 <= i < size ==> table[i] == i % rings
    ensures forall r :: 0 <= r < rings ==>
      Entries(table, r) == size / rings + if r < size % rings then 1 else 0
  {
    var ringIndex := new nat[size];
    var i := 0;
    while i < size
      invariant 0 <= i <= size && forall k :: 0 <= k < i ==> ringIndex[k] == k % rings
      invariant forall r :: 0 <= r < rings ==>
        Entries(ringIndex[..i], r) == i / rings + if r < i % rings then 1 else 0
    {
      ringIndex[i] := i % rings;
      assert ringIndex[..i + 1][..i] == ringIndex[..i];
      NextInCycle(i, rings);
      i := i + 1;
    }
    assert ringIndex[..] == ringIndex[..size];
    return ringIndex[..];
  }

  lemma {:induction false} NextInCycle(i: nat, d: nat)
    requires 0 < d
    ensures i % d + 1 < d ==> (i + 1) / d == i / d && (i + 1) % d == i % d + 1
    ensures i % d + 1 == d ==> (i + 1) / d == i / d + 1 && (i + 1) % d == 0
  {
    var q, m := i / d, i % d;
    assert i == d * q + m;
    if m + 1 < d {
      QuotientUnique(i + 1, d, q, m + 1);
    } else {
      assert i + 1 == d * (q + 1);
      QuotientUnique(i + 1, d, q + 1, 0);
    }
  }

  // ----- What the apportionment gives each ring

  /** Entries of a ring that owns exactly the interval `lo..hi`, among the first `n`. */
  lemma {:induction false} EntriesBelow(table: seq<nat>, r: nat, lo: nat, hi: nat, n: nat)
    requires n <= |table| && lo <= hi
    requires forall i :: 0 <= i < n ==> (table[i] == r <==> lo <= i < hi)
    ensures Entries(table[..n], r) == Clip(n, lo, hi)
    decreases n
  {
    if 0 < n {
      EntriesBelow(table, r, lo, hi, n - 1);
      assert table[..n][..n - 1] == table[..n - 1];
    }
  }

  function Clip(n: nat, lo: nat, hi: nat): nat
    requires lo <= hi
  {
    if n <= lo then 0 else if n <= hi then n - lo else hi - lo
  }

  /** The entries of ring `r` are exactly the indices between its two bounds. */
  lemma {:induction false} OwnInterval(table: seq<nat>, weights: seq<nat>, size: nat, r: nat, i: nat)
    requires 0 < Total(weights) && Apportioned(table, weights, size) && r < |weights| && i < size
    ensures table[i] == r <==> Bound(weights, size, r) <= i < Bound(weights, size, r + 1)
  {
    var owner := table[i];
    if owner < r {
      BoundMonotone(weights, size, owner + 1, r);
    } else if r < owner {
      BoundMonotone(weights, size, r + 1, owner);
    }
  }

  /** Exact shares: ring `r` gets the difference of two consecutive bounds. */
  lemma {:induction false} ExactShare(table: seq<nat>, weights: seq<nat>, size: nat, r: nat)
    requires 0 < Total(weights) && Apportioned(table, weights, size) && r < |weights|
    ensures Entries(table, r) == Bound(weights, size, r + 1) - Bound(weights, size, r)
  {
    var lo, hi := Bound(weights, size, r), Bound(weights, size, r + 1);
    assert lo <= hi <= size by {
      BoundMonotone(weights, size, r, r + 1);
      BoundMonotone(weights, size, r + 1, |weights|);
      BoundEnds(weights, size);
    }
    forall i: nat | i < size ensures table[i] == r <==> lo <= i < hi {
      OwnInterval(table, weights, size, r, i);
    }
    EntriesBelow(table, r, lo, hi, size);
    assert table[..size] == table;
  }

  /** The arithmetic of a share: `(a + x) / d - a / d` is within one of `x / d`. */
  lemma {:induction false} ShareBounds(a: nat, x: nat, d: nat)
    requires 0 < d
    ensures x - d < ((a + x) / d - a / d) * d < x + d
  {}

  lemma {:induction false} ShareAtLeastWeight(e: int, size: nat, w: nat, d: nat)
    requires 0 < d <= size && size * w - d < e * d
    ensures w <= e
  {
    MulMonotone(w, d, size);
    LessByFactor(d, w - 1, e);
  }

  lemma {:induction false} BoundQuota(weights: seq<nat>, size: nat, r: nat, e: int)
    requires 0 < Total(weights) && r < |weights|
    requires e == Bound(weights, size, r + 1) - Bound(weights, size, r)
    ensures size * weights[r] - Total(weights) < e * Total(weights) < size * weights[r] + Total(weights)
    ensures weights[r] == 0 ==> e == 0
    ensures Total(weights) <= size ==> weights[r] <= e
  {
    var a := size * Prefix(weights, r);
    assert size * Prefix(weights, r + 1) == a + size * weights[r];
    ShareBounds(a, size * weights[r], Total(weights));
    if Total(weights) <= size {
      ShareAtLeastWeight(e, size, weights[r], Total(weights));
    }
  }

  /** Quota: a ring is never a whole entry away from its ideal share `size * w / total`, a ring of
      weight zero gets nothing, and every ring gets at least its own weight when the total fits. */
  lemma {:induction false} Quota(table: seq<nat>, weights: seq<nat>, size: nat, r: nat)
    requires 0 < Total(weights) && Apportioned(table, weights, size) && r < |weights|
    ensures size * weights[r] - Total(weights) < Entries(table, r) * Total(weights)
    ensures Entries(table, r) * Total(weights) < size * weights[r] + Total(weights)
    ensures weights[r] == 0 ==> Entries(table, r) == 0
    ensures Total(weights) <= size ==> weights[r] <= Entries(table, r)
  {
    ExactShare(table, weights, size, r);
    BoundQuota(weights, size, r, Entries(table, r));
  }

  /** The bounds leave no freedom: two apportioned tables are the same table. */
  lemma {:induction false} ApportionedUnique(t: seq<nat>, u: seq<nat>, weights: seq<nat>, size: nat)
    requires 0 < Total(weights) && Apportioned(t, weights, size) && Apportioned(u, weights, size)
    ensures t == u
    ensures forall i, k :: 0 <= i <= k < size ==> t[i] <= t[k]
  {
    forall i, k | 0 <= i <= k < size
      ensures t[i] <= u[k] && u[i] <= t[k] && t[i] <= t[k]
    {
      if u[k] < t[i] {
        BoundMonotone(weights, size, u[k] + 1, t[i]);
      }
      if t[k] < u[i] {
        BoundMonotone(weights, size, t[k] + 1, u[i]);
      }
      if t[k] < t[i] {
        BoundMonotone(weights, size, t[k] + 1, t[i]);
      }
    }
    assert forall i :: 0 <= i < size ==> t[i] <= u[i] && u[i] <= t[i];
  }

  // ----- A total that wraps

  const EXCESS: seq<nat> := [U32 - 1, 2]

  lemma {:induction false} ExcessSums()
    ensures Prefix(EXCESS, 0) == 0 && Prefix(EXCESS, 1) == U32 - 1 && Total(EXCESS) == U32 + 1
  {
    assert Prefix(EXCESS, 1) == Prefix(EXCESS, 0) + (U32 - 1);
    assert Prefix(EXCESS, 2) == Prefix(EXCESS, 1) + 2;
  }

  lemma {:induction false} ExcessLimits()
    ensures Total(EXCESS) % U32 == 1
    ensures Limit(EXCESS, 4, 0) == 0 && Limit(EXCESS, 4, 1) == U32 - 4 && Limit(EXCESS, 4, 2) == 4
    ensures Bound(EXCESS, 4, 1) == 3
  {
    ExcessSums();
    QuotientUnique(4 * (U32 - 1), U32, 3, U32 - 4);
    QuotientUnique(4 * (U32 - 1), U32 + 1, 3, U32 - 7);
  }

  /** Weights with a total of 2^32 + 1 pass for a table of four entries.  All entries go to ring 0,
      although in exact arithmetic the last one is ring 1's. */
  lemma {:induction false} ExcessFills(table: seq<nat>)
    ensures IsU32List(EXCESS) && 4 < Total(EXCESS) && Fills(EXCESS, 4)
    ensures Placed(table, EXCESS, 4) ==> table == [0, 0, 0, 0] && !Apportioned(table, EXCESS, 4)
  {
    ExcessSums();
    ExcessLimits();
    if Placed(table, EXCESS, 4) {
      forall i | 0 <= i < 4 ensures table[i] == 0 {
        assert Limit(EXCESS, 4, table[i]) <= i;
      }
      assert Bound(EXCESS, 4, table[3] + 1) == 3;
    }
  }
}
