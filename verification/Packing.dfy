// What the greedy packer guarantees: it loses nothing, it is optimal, and the
// number of transactions is bounded by the two limits.
module Packing {
  import opened Batching

  lemma {:induction false} ConcatAssociates<T>(a: seq<T>, b: seq<T>, c: seq<T>)
    ensures (a + b) + c == a + (b + c)
  {
  }

  lemma {:induction false} FlattenConcat<T>(a: seq<seq<T>>, b: seq<seq<T>>)
    ensures Flatten(a + b) == Flatten(a) + Flatten(b)
  {
    if b == [] {
      assert a + b == a;
    } else {
      var n, c := |b| - 1, a + b;
      FlattenConcat(a, b[..n]);
      assert c[..|c| - 1] == a + b[..n] && c[|c| - 1] == b[n];
      ConcatAssociates(Flatten(a), Flatten(b[..n]), b[n]);
    }
  }

  /** Both ways of placing one more element append it. */
  lemma {:induction false} FlattenAppend<T>(groups: seq<seq<T>>, x: T)
    ensures Flatten(groups + [[x]]) == Flatten(groups) + [x]
    ensures groups != []
        ==> Flatten(groups[..|groups| - 1] + [groups[|groups| - 1] + [x]]) == Flatten(groups) + [x]
  {
  }

  /** Batches hold exactly the units, in order. */
  lemma {:induction false} PackLosesNothing(t: Tariff, gasLimit: int, units: seq<UploadUnit>)
    ensures Flatten(Pack(t, gasLimit, units)) == units
  {
    if units != [] {
      var init, u := units[..|units| - 1], units[|units| - 1];
      PackLosesNothing(t, gasLimit, init);
      FlattenAppend(Pack(t, gasLimit, init), u);
      assert init + [u] == units;
    }
  }

  /** What makes a split greedy: each group is feasible, and no group could have
      taken the first unit of the next one. */
  ghost predicate Greedy(t: Tariff, gasLimit: int, groups: seq<seq<UploadUnit>>) {
    && (forall g <- groups :: g != [] && Feasible(t, gasLimit, g))
    && (forall k :: 0 <= k < |groups| - 1 ==> Blocked(t, gasLimit, groups[k], groups[k + 1]))
  }

  ghost predicate Blocked(t: Tariff, gasLimit: int, g: seq<UploadUnit>, next: seq<UploadUnit>) {
    next != [] && !WithinLimits(t, gasLimit, g + [next[0]])
  }

  lemma {:induction false} PackIsGreedy(t: Tariff, gasLimit: int, units: seq<UploadUnit>)
    ensures Greedy(t, gasLimit, Pack(t, gasLimit, units))
  {
    if units != [] {
      var init, u := units[..|units| - 1], units[|units| - 1];
      PackIsGreedy(t, gasLimit, init);
      var groups := Pack(t, gasLimit, init);
      var result := Pack(t, gasLimit, units);
      if groups != [] && WithinLimits(t, gasLimit, groups[|groups| - 1] + [u]) {
        var n := |groups| - 1;
        assert forall g <- result :: g in groups || g == groups[n] + [u];
        forall k | 0 <= k < |result| - 1
          ensures Blocked(t, gasLimit, result[k], result[k + 1])
        {
          assert Blocked(t, gasLimit, groups[k], groups[k + 1]);
        }
      } else {
        assert forall g <- result :: g in groups || g == [u];
        forall k | 0 <= k < |result| - 1
          ensures Blocked(t, gasLimit, result[k], result[k + 1])
        {
          if k + 1 < |groups| {
            assert Blocked(t, gasLimit, groups[k], groups[k + 1]);
          }
        }
      }
    }
  }

  // ---------- Optimality ----------

  /** How many units the first k groups hold. */
  function Offset(groups: seq<seq<UploadUnit>>, k: nat): nat
    requires k <= |groups|
  {
    if k == 0 then 0 else Offset(groups, k - 1) + |groups[k - 1]|
  }

  /** Group k is units[Offset(k)..Offset(k + 1)], and the groups use the units up. */
  ghost predicate SplitOf(groups: seq<seq<UploadUnit>>, units: seq<UploadUnit>) {
    && Offset(groups, |groups|) == |units|
    && forall k :: 0 <= k < |groups| ==> GroupIsSlice(groups, units, k)
  }

  ghost predicate GroupIsSlice(groups: seq<seq<UploadUnit>>, units: seq<UploadUnit>, k: nat)
    requires k < |groups|
  {
    Offset(groups, k) + |groups[k]| <= |units| && groups[k] == units[Offset(groups, k)..Offset(groups, k) + |groups[k]|]
  }

  lemma {:induction false} OffsetOfPrefix(groups: seq<seq<UploadUnit>>, n: nat, k: nat)
    requires k <= n <= |groups|
    ensures Offset(groups[..n], k) == Offset(groups, k)
  {
    if k > 0 {
      OffsetOfPrefix(groups, n, k - 1);
    }
  }

  lemma {:induction false} SliceOfLonger(groups: seq<seq<UploadUnit>>, n: nat, k: nat, units: seq<UploadUnit>,
                                         more: seq<UploadUnit>)
    requires k < n <= |groups| && GroupIsSlice(groups[..n], units, k)
    ensures GroupIsSlice(groups, units + more, k)
  {
    OffsetOfPrefix(groups, n, k);
    var lo, hi := Offset(groups, k), Offset(groups, k) + |groups[k]|;
    assert (units + more)[lo..hi] == units[lo..hi];
  }

  lemma {:induction false} FlattenSplits(groups: seq<seq<UploadUnit>>)
    ensures SplitOf(groups, Flatten(groups))
  {
    if groups != [] {
      var n := |groups| - 1;
      var init, last := groups[..n], groups[n];
      FlattenSplits(init);
      OffsetOfPrefix(groups, n, n);
      forall k | 0 <= k < n
        ensures GroupIsSlice(groups, Flatten(init) + last, k)
      {
        SliceOfLonger(groups, n, k, Flatten(init), last);
      }
      assert (Flatten(init) + last)[|Flatten(init)|..|Flatten(init)| + |last|] == last;
    }
  }

  lemma {:induction false} SumsConcat(t: Tariff, a: seq<UploadUnit>, b: seq<UploadUnit>)
    ensures UnitGas(t, a + b) == UnitGas(t, a) + UnitGas(t, b)
    ensures ByteSize(a + b) == ByteSize(a) + ByteSize(b)
  {
    if b == [] {
      assert a + b == a;
    } else {
      assert (a + b)[..|a + b| - 1] == a + b[..|b| - 1];
      SumsConcat(t, a, b[..|b| - 1]);
    }
  }

  /** A limit that holds of a group holds of every run of consecutive units in it. */
  ghost predicate SliceClosed(fits: seq<UploadUnit> -> bool) {
    forall s, lo, hi {:trigger fits(s[lo..hi])} :: 0 <= lo <= hi <= |s| && fits(s) ==> fits(s[lo..hi])
  }

  /** Greedy with respect to any limit. */
  ghost predicate GreedyFor(fits: seq<UploadUnit> -> bool, groups: seq<seq<UploadUnit>>) {
    && (forall g <- groups :: g != [])
    && (forall k :: 0 <= k < |groups| - 1 ==> BlockedFor(fits, groups[k], groups[k + 1]))
  }

  ghost predicate BlockedFor(fits: seq<UploadUnit> -> bool, g: seq<UploadUnit>, next: seq<UploadUnit>) {
    next != [] && !fits(g + [next[0]])
  }

  /** If a split gets ahead of another at group k, its group k holds the
      other's group k and the unit after it. */
  lemma {:induction false} CoveringGroup(units: seq<UploadUnit>, behind: seq<seq<UploadUnit>>,
                                         ahead: seq<seq<UploadUnit>>, k: nat)
    requires SplitOf(behind, units) && SplitOf(ahead, units)
    requires k + 1 < |behind| && k < |ahead| && behind[k + 1] != []
    requires Offset(behind, k) >= Offset(ahead, k) && Offset(behind, k + 1) < Offset(ahead, k + 1)
    ensures var lo := Offset(behind, k) - Offset(ahead, k);
            var hi := lo + |behind[k]| + 1;
            hi <= |ahead[k]| && ahead[k][lo..hi] == behind[k] + [behind[k + 1][0]]
  {
    assert GroupIsSlice(behind, units, k) && GroupIsSlice(behind, units, k + 1) && GroupIsSlice(ahead, units, k);
    var from, to := Offset(behind, k), Offset(behind, k + 1);
    assert behind[k] + [behind[k + 1][0]] == units[from..to + 1];
  }

  lemma {:induction false} AheadStep(fits: seq<UploadUnit> -> bool, units: seq<UploadUnit>,
                  greedy: seq<seq<UploadUnit>>, split: seq<seq<UploadUnit>>, k: nat)
    requires SliceClosed(fits) && GreedyFor(fits, greedy)
    requires forall g <- split :: |g| <= 1 || fits(g)
    requires SplitOf(greedy, units) && SplitOf(split, units)
    requires k < |greedy| && k < |split|
    requires Offset(greedy, k) >= Offset(split, k)
    ensures Offset(greedy, k + 1) >= Offset(split, k + 1)
  {
    assert GroupIsSlice(split, units, k);
    if k + 1 < |greedy| && Offset(greedy, k + 1) < Offset(split, k + 1) {
      assert greedy[k] in greedy && BlockedFor(fits, greedy[k], greedy[k + 1]);
      assert split[k] in split;
      CoveringGroup(units, greedy, split, k);
    }
  }

  /** Greedy stays ahead: after k groups it has placed at least as many units
      as any feasible split has after k groups. */
  lemma {:induction false} GreedyStaysAhead(fits: seq<UploadUnit> -> bool, units: seq<UploadUnit>,
                                            greedy: seq<seq<UploadUnit>>, split: seq<seq<UploadUnit>>, k: nat)
    requires SliceClosed(fits) && GreedyFor(fits, greedy)
    requires forall g <- split :: |g| <= 1 || fits(g)
    requires SplitOf(greedy, units) && SplitOf(split, units)
    requires k <= |greedy| && k <= |split|
    ensures Offset(greedy, k) >= Offset(split, k)
  {
    if k > 0 {
      GreedyStaysAhead(fits, units, greedy, split, k - 1);
      AheadStep(fits, units, greedy, split, k - 1);
    }
  }

  lemma {:induction false} GreedyUsesFewest(fits: seq<UploadUnit> -> bool, units: seq<UploadUnit>,
                         greedy: seq<seq<UploadUnit>>, split: seq<seq<UploadUnit>>)
    requires SliceClosed(fits) && GreedyFor(fits, greedy)
    requires forall g <- split :: |g| <= 1 || fits(g)
    requires SplitOf(greedy, units) && SplitOf(split, units)
    ensures |greedy| <= |split|
  {
    if |split| < |greedy| {
      var k := |split|;
      assert GroupIsSlice(greedy, units, k) && greedy[k] in greedy;
      GreedyStaysAhead(fits, units, greedy, split, k);
    }
  }

  lemma {:induction false} LimitsAreSliceClosed(t: Tariff, gasLimit: int)
    ensures SliceClosed(g => WithinLimits(t, gasLimit, g))
  {
    forall s: seq<UploadUnit>, lo, hi | 0 <= lo <= hi <= |s| && WithinLimits(t, gasLimit, s)
      ensures WithinLimits(t, gasLimit, s[lo..hi])
    {
      assert s == s[..lo] + s[lo..hi] + s[hi..];
      SumsConcat(t, s[..lo] + s[lo..hi], s[hi..]);
      SumsConcat(t, s[..lo], s[lo..hi]);
    }
  }

  /** No order-preserving split into feasible groups needs fewer transactions. */
  lemma {:induction false} PackIsOptimal(t: Tariff, gasLimit: int, units: seq<UploadUnit>, split: seq<seq<UploadUnit>>)
    requires Flatten(split) == units
    requires forall g <- split :: Feasible(t, gasLimit, g)
    ensures |Pack(t, gasLimit, units)| <= |split|
  {
    var fits := (g: seq<UploadUnit>) => WithinLimits(t, gasLimit, g);
    var greedy := Pack(t, gasLimit, units);
    LimitsAreSliceClosed(t, gasLimit);
    PackLosesNothing(t, gasLimit, units);
    PackIsGreedy(t, gasLimit, units);
    assert GreedyFor(fits, greedy) by {
      forall k | 0 <= k < |greedy| - 1
        ensures BlockedFor(fits, greedy[k], greedy[k + 1])
      {
        assert Blocked(t, gasLimit, greedy[k], greedy[k + 1]);
      }
    }
    FlattenSplits(greedy);
    FlattenSplits(split);
    GreedyUsesFewest(fits, units, greedy, split);
  }

  // ---------- Counting ----------

  /** The inequality of the bound, for any totals. */
  ghost predicate Bounded(pairs: nat, g: nat, bytes: nat, gas: nat) {
    pairs * (MAX_BATCH_BYTES * g) <= bytes * g + gas * MAX_BATCH_BYTES
  }

  lemma {:induction false} OverflowIsCostly(gas: nat, bytes: nat, g: nat)
    requires gas > g || bytes > MAX_BATCH_BYTES
    ensures Bounded(1, g, bytes, gas)
  {
  }

  lemma {:induction false} BoundedSum(pairs: nat, g: nat, bytes: nat, bytes0: nat, bytes1: nat, gas: nat, gas0: nat,
                                      gas1: nat)
    requires bytes == bytes0 + bytes1 && gas == gas0 + gas1
    requires Bounded(pairs, g, bytes0, gas0) && Bounded(1, g, bytes1, gas1)
    ensures Bounded(pairs + 1, g, bytes, gas)
  {
  }

  /** Any two consecutive batches overflow one of the two limits. */
  lemma {:induction false} NeighboursOverflow(t: Tariff, gasLimit: int, a: seq<UploadUnit>, b: seq<UploadUnit>)
    requires gasLimit >= EMPTY_BATCH_GAS
    requires Blocked(t, gasLimit, a, b)
    ensures Bounded(1, gasLimit - EMPTY_BATCH_GAS, ByteSize(a + b), UnitGas(t, a + b))
  {
    assert a + b == (a + [b[0]]) + b[1..];
    SumsConcat(t, a + [b[0]], b[1..]);
    OverflowIsCostly(UnitGas(t, a + b), ByteSize(a + b), gasLimit - EMPTY_BATCH_GAS);
  }

  lemma {:induction false} GreedyPrefix(t: Tariff, gasLimit: int, groups: seq<seq<UploadUnit>>, n: nat)
    requires Greedy(t, gasLimit, groups) && n <= |groups|
    ensures Greedy(t, gasLimit, groups[..n])
  {
  }

  lemma {:induction false} SplitOffPair(t: Tariff, groups: seq<seq<UploadUnit>>, n: nat)
    requires |groups| == n + 2
    ensures var pair := groups[n] + groups[n + 1];
            && UnitGas(t, Flatten(groups)) == UnitGas(t, Flatten(groups[..n])) + UnitGas(t, pair)
            && ByteSize(Flatten(groups)) == ByteSize(Flatten(groups[..n])) + ByteSize(pair)
  {
    var pair := groups[n] + groups[n + 1];
    assert groups[..n + 1][..n] == groups[..n];
    assert Flatten(groups) == Flatten(groups[..n + 1]) + groups[n + 1];
    assert Flatten(groups) == Flatten(groups[..n]) + pair;
    SumsConcat(t, Flatten(groups[..n]), pair);
  }

  lemma {:induction false} PairsBound(t: Tariff, gasLimit: int, groups: seq<seq<UploadUnit>>, pairs: nat)
    requires gasLimit >= EMPTY_BATCH_GAS
    requires Greedy(t, gasLimit, groups) && 2 * pairs <= |groups| <= 2 * pairs + 1
    ensures Bounded(pairs, gasLimit - EMPTY_BATCH_GAS, ByteSize(Flatten(groups)), UnitGas(t, Flatten(groups)))
  {
    if pairs == 0 {
      NoPairs(gasLimit - EMPTY_BATCH_GAS, ByteSize(Flatten(groups)), UnitGas(t, Flatten(groups)));
    } else {
      var n := |groups| - 2;
      GreedyPrefix(t, gasLimit, groups, n);
      PairsBound(t, gasLimit, groups[..n], pairs - 1);
      AddPair(t, gasLimit, groups, n, pairs - 1);
    }
  }

  lemma {:induction false} NoPairs(g: nat, bytes: nat, gas: nat)
    ensures Bounded(0, g, bytes, gas)
  {
  }

  lemma {:induction false} AddPair(t: Tariff, gasLimit: int, groups: seq<seq<UploadUnit>>, n: nat, pairs: nat)
    requires gasLimit >= EMPTY_BATCH_GAS && |groups| == n + 2
    requires Greedy(t, gasLimit, groups)
    requires Bounded(pairs, gasLimit - EMPTY_BATCH_GAS,
                     ByteSize(Flatten(groups[..n])), UnitGas(t, Flatten(groups[..n])))
    ensures Bounded(pairs + 1, gasLimit - EMPTY_BATCH_GAS, ByteSize(Flatten(groups)), UnitGas(t, Flatten(groups)))
  {
    assert Blocked(t, gasLimit, groups[n], groups[n + 1]);
    NeighboursOverflow(t, gasLimit, groups[n], groups[n + 1]);
    SplitOffPair(t, groups, n);
    var pair := groups[n] + groups[n + 1];
    BoundedSum(pairs, gasLimit - EMPTY_BATCH_GAS,
               ByteSize(Flatten(groups)), ByteSize(Flatten(groups[..n])), ByteSize(pair),
               UnitGas(t, Flatten(groups)), UnitGas(t, Flatten(groups[..n])), UnitGas(t, pair));
  }

  /** An upper bound on the number of transactions from the totals alone. */
  lemma {:induction false} BatchCountBound(t: Tariff, gasLimit: int, units: seq<UploadUnit>)
    requires gasLimit > EMPTY_BATCH_GAS
    ensures var g := gasLimit - EMPTY_BATCH_GAS;
            |Pack(t, gasLimit, units)| / 2 * (MAX_BATCH_BYTES * g)
              <= ByteSize(units) * g + UnitGas(t, units) * MAX_BATCH_BYTES
  {
    PackLosesNothing(t, gasLimit, units);
    PackIsGreedy(t, gasLimit, units);
    PairsBound(t, gasLimit, Pack(t, gasLimit, units), |Pack(t, gasLimit, units)| / 2);
  }

  function BatchGas(batches: seq<Batch>): int {
    if batches == [] then 0 else BatchGas(batches[..|batches| - 1]) + batches[|batches| - 1].estimatedGas
  }

  lemma {:induction false} BatchGasSum(t: Tariff, groups: seq<seq<UploadUnit>>)
    ensures BatchGas(ToBatches(t, groups)) == UnitGas(t, Flatten(groups)) + EMPTY_BATCH_GAS * |groups|
  {
    if groups != [] {
      var n := |groups| - 1;
      BatchGasSum(t, groups[..n]);
      assert ToBatches(t, groups)[..n] == ToBatches(t, groups[..n]);
      SumsConcat(t, Flatten(groups[..n]), groups[n]);
    }
  }

  /** The plan's gas against the one-figure estimate shown to the user
      (UnitGas + BATCH_CALL_OVERHEAD): each batch pays its own base cost. */
  lemma {:induction false} PlanGasVersusEstimate(t: Tariff, gasLimit: int, units: seq<UploadUnit>)
    ensures var groups := Pack(t, gasLimit, units);
            BatchGas(ToBatches(t, groups))
              == (UnitGas(t, units) + BATCH_CALL_OVERHEAD) + 31_000 * |groups| - 10_000
  {
    var groups := Pack(t, gasLimit, units);
    BatchGasSum(t, groups);
    assert Flatten(groups) == units by {
      PackLosesNothing(t, gasLimit, units);
    }
  }

  // ---------- Chunking through packing ----------

  /** Each batch carries at most MAX_BATCH_BYTES, singletons included. */
  lemma {:induction false} BatchBytes(t: Tariff, gasLimit: int, files: seq<FileEntry>, units: seq<UploadUnit>,
                                      group: seq<UploadUnit>)
    requires Numbered(files) && forall u <- units :: u in AllUnits(files)
    requires group in Pack(t, gasLimit, units)
    ensures |Join(group)| == ByteSize(group) <= MAX_BATCH_BYTES
  {
    SumsExactly(t, group);
    PackIsGreedy(t, gasLimit, units);
    if |group| == 1 {
      var u := group[0];
      PackedUnitsAreUnits(t, gasLimit, units, group, u);
      UnitIsChunk(files, u);
      ChunkSizes(files[u.fileIndex], u.chunkIndex);
      assert group[..0] == [];
      assert ByteSize(group[..0]) == 0;
    }
  }

  lemma {:induction false} FlattenMembers<T>(groups: seq<seq<T>>, x: T)
    ensures x in Flatten(groups) <==> exists g :: g in groups && x in g
  {
    if groups != [] {
      FlattenMembers(groups[..|groups| - 1], x);
      assert groups == groups[..|groups| - 1] + [groups[|groups| - 1]];
    }
  }

  lemma {:induction false} PackedUnitsAreUnits(t: Tariff, gasLimit: int, units: seq<UploadUnit>,
                                               group: seq<UploadUnit>, u: UploadUnit)
    requires group in Pack(t, gasLimit, units) && u in group
    ensures u in units
  {
    PackLosesNothing(t, gasLimit, units);
    FlattenMembers(Pack(t, gasLimit, units), u);
  }

  /** Flattening the batches and joining each file's chunks gives back the files. */
  lemma {:induction false} PackedBatchesRebuildFiles(t: Tariff, gasLimit: int, files: seq<FileEntry>, i: nat)
    requires Numbered(files) && i < |files|
    ensures Join(OfFile(Flatten(Pack(t, gasLimit, AllUnits(files))), i)) == files[i].compressed
  {
    PackLosesNothing(t, gasLimit, AllUnits(files));
    UnitsOfFile(files, i);
    ChunksJoinToFile(files[i]);
  }
}
