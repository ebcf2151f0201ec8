// web/src/lib/evmfs.ts: what the browser's confirmed map says about a manifest.
// It is keyed by chunk, and the manifest is built without counting.
module WebState {
  import opened Evmfs
  import opened Batching
  import opened Packing
  import opened Manifests
  import opened UploadState
  import opened Assembly

  type Confirmed = map<(nat, nat), ConfirmedChunk>

  ghost predicate Keyed(confirmed: Confirmed) {
    forall key <- confirmed :: confirmed[key].Key() == key
  }

  /** The map's values, each once, in whatever order. */
  ghost predicate ListsValues(list: seq<ConfirmedChunk>, confirmed: Confirmed) {
    && (forall c <- list :: c.Key() in confirmed && confirmed[c.Key()] == c)
    && (forall key <- confirmed :: multiset(Keys(list))[key] == 1)
  }

  /** A list of truthful chunks without repeated keys that has every chunk of
      every file, except perhaps some files' last. */
  ghost predicate NearlyComplete(log: seq<StoreEvent>, contract: Address, files: seq<FileEntry>,
                                 list: seq<ConfirmedChunk>) {
    && AllRight(log, contract, files, list)
    && (forall key <- Keys(list) :: multiset(Keys(list))[key] == 1)
    && forall u <- AllUnits(files) :: !u.IsLast() ==> u.Key() in Keys(list)
  }

  predicate HasLast(files: seq<FileEntry>, list: seq<ConfirmedChunk>, i: nat)
    requires i < |files|
  {
    (i, NumChunks(|files[i].compressed|) - 1) in Keys(list)
  }

  ghost predicate EveryLastPresent(files: seq<FileEntry>, list: seq<ConfirmedChunk>) {
    forall i :: 0 <= i < |files| ==> HasLast(files, list, i)
  }

  /** The chunks of a file that are there, in order: 0, 1, 2, ... */
  lemma {:induction false} InOrder(log: seq<StoreEvent>, contract: Address, files: seq<FileEntry>,
                                   list: seq<ConfirmedChunk>, i: nat)
    requires Numbered(files) && i < |files| && NearlyComplete(log, contract, files, list)
    ensures var sorted := SortChunks(FileChunks(list, i));
            && |sorted| == NumChunks(|files[i].compressed|) - (if HasLast(files, list, i) then 0 else 1)
            && forall k :: 0 <= k < |sorted| ==>
                 sorted[k] in list && sorted[k].fileIndex == i && sorted[k].chunkIndex == k
  {
    var n, keys := NumChunks(|files[i].compressed|), Keys(list);
    var sorted := SortChunks(FileChunks(list, i));
    ChunkCount(log, contract, files, list, i);
    FileChunksMembers(list, i);
    SortSorts(FileChunks(list, i));
    SortPermutes(FileChunks(list, i));
    SortKeepsLength(FileChunks(list, i));
    forall k | 0 <= k < |sorted|
      ensures sorted[k] in list && sorted[k].fileIndex == i
    {
      assert sorted[k] in multiset(sorted);
    }
    forall p, q | 0 <= p < q < |sorted|
      ensures sorted[p].chunkIndex < sorted[q].chunkIndex
    {
      assert Keys(sorted)[p] in multiset(keys);
      if sorted[p].chunkIndex == sorted[q].chunkIndex {
        TwicePresent(Keys(sorted), p, q);
      }
    }
    if sorted != [] {
      LastIndexFits(log, contract, files, list, i, sorted[|sorted| - 1]);
    }
    forall k | 0 <= k < |sorted|
      ensures sorted[k].chunkIndex == k
    {
      PigeonholeUp(sorted, k);
      PigeonholeDown(sorted, k);
    }
  }

  lemma {:induction false} LastIndexFits(log: seq<StoreEvent>, contract: Address, files: seq<FileEntry>,
                                         list: seq<ConfirmedChunk>, i: nat, c: ConfirmedChunk)
    requires i < |files| && AllRight(log, contract, files, list) && c in list && c.fileIndex == i
    ensures c.chunkIndex < NumChunks(|files[i].compressed|) - (if HasLast(files, list, i) then 0 else 1)
  {
    var j :| 0 <= j < |list| && list[j] == c;
    assert Keys(list)[j] == c.Key() && RightChunk(log, contract, files, c);
  }

  lemma {:induction false} ChunkCount(log: seq<StoreEvent>, contract: Address, files: seq<FileEntry>,
                                      list: seq<ConfirmedChunk>, i: nat)
    requires Numbered(files) && i < |files| && NearlyComplete(log, contract, files, list)
    ensures |FileChunks(list, i)| == NumChunks(|files[i].compressed|) - (if HasLast(files, list, i) then 0 else 1)
  {
    var n, keys := NumChunks(|files[i].compressed|), Keys(list);
    FileCount(list, i, n);
    forall k | 0 <= k < n - 1
      ensures multiset(keys)[(i, k)] == 1
    {
      var u := Chunk(files[i], k);
      UnitIsChunk(files, u);
      assert u.Key() == (i, k) && u in AllUnits(files);
    }
    KeyTotalOfOnes(keys, i, n - 1);
    if HasLast(files, list, i) {
      assert multiset(keys)[(i, n - 1)] == 1;
    }
  }

  /** What the manifest entry of file i joins to: the file, or the file without
      its last chunk. */
  lemma {:induction false} EntryJoins(log: seq<StoreEvent>, contract: Address, files: seq<FileEntry>,
                                      list: seq<ConfirmedChunk>, i: nat)
    requires Numbered(files) && i < |files| && NearlyComplete(log, contract, files, list)
    ensures var refs, n := AssembledEntry(files, list, i).chunks, NumChunks(|files[i].compressed|);
            && (forall ref <- refs :: Located(log, contract, ref))
            && |refs| == (if HasLast(files, list, i) then n else n - 1)
            && (HasLast(files, list, i) ==> JoinRefs(refs) == files[i].compressed)
            && (!HasLast(files, list, i) && n > 1 ==>
                  JoinRefs(refs) == files[i].compressed[..(n - 1) * MAX_BATCH_BYTES])
            && (!HasLast(files, list, i) && n > 1 ==> JoinRefs(refs) != files[i].compressed)
  {
    var f, n := files[i], NumChunks(|files[i].compressed|);
    var sorted := SortChunks(FileChunks(list, i));
    var refs := AssembledEntry(files, list, i).chunks;
    InOrder(log, contract, files, list, i);
    forall k | 0 <= k < |refs|
      ensures Located(log, contract, refs[k]) && refs[k].hash == Keccak256(Chunk(f, k).data)
    {
      assert sorted[k] in list && RightChunk(log, contract, files, sorted[k]);
    }
    RefsJoinToChunks(f, refs, |refs|);
    assert refs[..|refs|] == refs;
    ChunksJoinToPrefix(f, |refs|);
    assert f.compressed[..|f.compressed|] == f.compressed;
  }

  // ---------- Which keys end up in the map ----------

  ghost predicate AllPresent(keys: set<(nat, nat)>, units: seq<UploadUnit>) {
    forall u <- units :: u.Key() in keys
  }

  function KeySet(keys: seq<(nat, nat)>): set<(nat, nat)> {
    set key <- keys
  }

  /** No later unit of the batch has the bytes of unit j. */
  predicate LastOfItsBytes(g: seq<UploadUnit>, j: nat)
    requires j < |g|
  {
    forall k :: j < k < |g| ==> g[k].data != g[j].data
  }

  lemma {:induction false} CreditedIsLast(g: seq<UploadUnit>, j: nat) returns (p: nat)
    requires j < |g|
    ensures j <= p < |g| && g[p].data == g[j].data && Credited(g, j) == g[p]
    ensures LastOfItsBytes(g, p)
  {
    var n := |g| - 1;
    if g[n].data == g[j].data {
      p := n;
    } else {
      p := CreditedIsLast(g[..n], j);
      assert Credited(g[..n], j) == g[p];
      forall k | p < k < |g|
        ensures g[k].data != g[p].data
      {
        assert k < n ==> g[..n][k] == g[k];
      }
    }
  }

  /** Sending a batch confirms a unit iff no later unit has the same bytes. */
  lemma {:induction false} LaterTwinTakesOver(g: seq<UploadUnit>, j: nat)
    requires DistinctKeys(g) && j < |g|
    ensures g[j].Key() in BatchKeys(g) <==> LastOfItsBytes(g, j)
  {
    if g[j].Key() in BatchKeys(g) {
      var m :| 0 <= m < |g| && BatchKeys(g)[m] == g[j].Key();
      var p := CreditedIsLast(g, m);
      assert p == j;
    } else {
      var p := CreditedIsLast(g, j);
      assert BatchKeys(g)[j] == g[p].Key();
    }
  }

  /** Every unit of the batch is in the resumed progress or the last with its bytes. */
  ghost predicate SafeBatch(g: seq<UploadUnit>, saved: set<(nat, nat)>) {
    forall j :: 0 <= j < |g| ==> g[j].Key() in saved || LastOfItsBytes(g, j)
  }

  ghost predicate SafePlan(groups: seq<seq<UploadUnit>>, saved: set<(nat, nat)>) {
    forall g <- groups :: SafeBatch(g, saved)
  }

  /** Without resumed progress a plan is safe iff no batch repeats any bytes. */
  lemma {:induction false} FreshPlanIsSafeExactly(groups: seq<seq<UploadUnit>>)
    ensures SafePlan(groups, {}) <==> forall g <- groups :: DistinctData(g)
  {
  }

  lemma {:induction false} GroupsApart(groups: seq<seq<UploadUnit>>, a: nat, b: nat, u: UploadUnit, v: UploadUnit)
    requires DistinctKeys(Flatten(groups)) && a < b < |groups| && u in groups[a] && v in groups[b]
    ensures u.Key() != v.Key()
  {
    var n := |groups| - 1;
    DistinctHalves(Flatten(groups[..n]), groups[n]);
    if b < n {
      GroupsApart(groups[..n], a, b, u, v);
    } else {
      assert groups[..n][a] == groups[a];
      FlattenMembers(groups[..n], u);
      DistinctApart(Flatten(groups[..n]), groups[n], u, v);
    }
  }

  lemma {:induction false} OtherGroupUntouched(groups: seq<seq<UploadUnit>>, i: nat, j: nat, u: UploadUnit)
    requires DistinctKeys(Flatten(groups)) && i < |groups| && j < |groups| && i != j && u in groups[j]
    ensures u.Key() !in BatchKeys(groups[i])
  {
    if u.Key() in BatchKeys(groups[i]) {
      BatchKeysAreUnitKeys(groups[i], u.Key());
      var v :| v in groups[i] && v.Key() == u.Key();
      if i < j { GroupsApart(groups, i, j, v, u); } else { GroupsApart(groups, j, i, u, v); }
    }
  }

  /** What is confirmed of unit u of batch j after the first i batches. */
  ghost predicate ConfirmedExactly(groups: seq<seq<UploadUnit>>, saved: set<(nat, nat)>, keys: set<(nat, nat)>,
                                   i: nat, j: nat, u: UploadUnit)
    requires j < |groups|
  {
    u.Key() in keys <==> u.Key() in saved || (j < i && u.Key() in BatchKeys(groups[j]))
  }

  ghost predicate KeysAfter(groups: seq<seq<UploadUnit>>, saved: set<(nat, nat)>, keys: set<(nat, nat)>, i: nat) {
    forall j, u :: 0 <= j < |groups| && u in groups[j] ==> ConfirmedExactly(groups, saved, keys, i, j, u)
  }

  lemma {:induction false} AfterSending(groups: seq<seq<UploadUnit>>, saved: set<(nat, nat)>, keys: set<(nat, nat)>,
                                        i: nat)
    requires DistinctKeys(Flatten(groups)) && i < |groups| && KeysAfter(groups, saved, keys, i)
    ensures KeysAfter(groups, saved, keys + KeySet(BatchKeys(groups[i])), i + 1)
  {
    forall j, u | 0 <= j < |groups| && u in groups[j]
      ensures ConfirmedExactly(groups, saved, keys + KeySet(BatchKeys(groups[i])), i + 1, j, u)
    {
      assert ConfirmedExactly(groups, saved, keys, i, j, u);
      if j != i {
        OtherGroupUntouched(groups, i, j, u);
      }
    }
  }

  lemma {:induction false} AfterSkipping(groups: seq<seq<UploadUnit>>, saved: set<(nat, nat)>, keys: set<(nat, nat)>,
                                         i: nat)
    requires i < |groups| && KeysAfter(groups, saved, keys, i) && AllPresent(keys, groups[i])
    ensures KeysAfter(groups, saved, keys, i + 1)
  {
  }

  /** All batches done, every chunk is confirmed iff the plan was safe. */
  lemma {:induction false} FinishedExactly(groups: seq<seq<UploadUnit>>, saved: set<(nat, nat)>, keys: set<(nat, nat)>)
    requires DistinctKeys(Flatten(groups)) && KeysAfter(groups, saved, keys, |groups|)
    ensures AllPresent(keys, Flatten(groups)) <==> SafePlan(groups, saved)
  {
    forall j, k | 0 <= j < |groups| && 0 <= k < |groups[j]|
      ensures groups[j][k] in Flatten(groups)
      ensures groups[j][k].Key() in keys <==> groups[j][k].Key() in saved || LastOfItsBytes(groups[j], k)
    {
      FlattenMembers(groups, groups[j][k]);
      assert ConfirmedExactly(groups, saved, keys, |groups|, j, groups[j][k]);
      GroupKeysDistinct(groups, j);
      LaterTwinTakesOver(groups[j], k);
    }
    if AllPresent(keys, Flatten(groups)) {
      forall g | g in groups
        ensures SafeBatch(g, saved)
      {
        var j :| 0 <= j < |groups| && groups[j] == g;
      }
    }
    if SafePlan(groups, saved) {
      forall u | u in Flatten(groups)
        ensures u.Key() in keys
      {
        FlattenMembers(groups, u);
        var g :| g in groups && u in g;
        var j :| 0 <= j < |groups| && groups[j] == g;
        var k :| 0 <= k < |groups[j]| && groups[j][k] == u;
        assert SafeBatch(groups[j], saved);
      }
    }
  }

  /** Unit u is in the resumed progress, or the last of its batch with its bytes. */
  ghost predicate UnitSafe(groups: seq<seq<UploadUnit>>, saved: set<(nat, nat)>, u: UploadUnit) {
    u.Key() in saved || exists g, j :: g in groups && 0 <= j < |g| && g[j] == u && LastOfItsBytes(g, j)
  }

  /** All batches done, one unit is confirmed iff it was safe. */
  lemma {:induction false} UnitFinishedExactly(groups: seq<seq<UploadUnit>>, saved: set<(nat, nat)>,
                                               keys: set<(nat, nat)>, u: UploadUnit)
    requires DistinctKeys(Flatten(groups)) && KeysAfter(groups, saved, keys, |groups|) && u in Flatten(groups)
    ensures u.Key() in keys <==> UnitSafe(groups, saved, u)
  {
    FlattenMembers(groups, u);
    var g :| g in groups && u in g;
    var j :| 0 <= j < |groups| && groups[j] == g;
    var k :| 0 <= k < |g| && g[k] == u;
    assert ConfirmedExactly(groups, saved, keys, |groups|, j, u);
    GroupKeysDistinct(groups, j);
    LaterTwinTakesOver(g, k);
    if h, i :| h in groups && 0 <= i < |h| && h[i] == u && LastOfItsBytes(h, i) {
      var m :| 0 <= m < |groups| && groups[m] == h;
      SameUnitSamePlace(groups, j, k, m, i);
    }
  }

  lemma {:induction false} SameUnitSamePlace(groups: seq<seq<UploadUnit>>, j: nat, k: nat, m: nat, i: nat)
    requires DistinctKeys(Flatten(groups)) && j < |groups| && m < |groups| && k < |groups[j]| && i < |groups[m]|
    requires groups[j][k] == groups[m][i]
    ensures j == m && k == i
  {
    var u := groups[j][k];
    if j < m { GroupsApart(groups, j, m, u, u); }
    if m < j { GroupsApart(groups, m, j, u, u); }
    GroupKeysDistinct(groups, j);
  }

  lemma {:induction false} GroupKeysDistinct(groups: seq<seq<UploadUnit>>, j: nat)
    requires DistinctKeys(Flatten(groups)) && j < |groups|
    ensures DistinctKeys(groups[j])
  {
    var n := |groups| - 1;
    DistinctHalves(Flatten(groups[..n]), groups[n]);
    if j < n {
      GroupKeysDistinct(groups[..n], j);
    }
  }

  /** Full chunks are confirmed whatever the plan. */
  lemma {:induction false} FullChunksConfirmed(files: seq<FileEntry>, groups: seq<seq<UploadUnit>>,
                                               saved: set<(nat, nat)>, keys: set<(nat, nat)>, u: UploadUnit)
    requires Numbered(files) && Flatten(groups) == AllUnits(files)
    requires forall g <- groups :: ByteSize(g) <= MAX_BATCH_BYTES
    requires KeysAfter(groups, saved, keys, |groups|)
    requires u in AllUnits(files) && !u.IsLast()
    ensures u.Key() in keys
  {
    UnitKeysDistinct(files);
    FlattenMembers(groups, u);
    var g :| g in groups && u in g;
    var j :| 0 <= j < |groups| && groups[j] == g;
    GroupKeysDistinct(groups, j);
    forall v | v in g
      ensures v in AllUnits(files)
    {
      FlattenMembers(groups, v);
    }
    BatchCreditsBigOnes(files, g);
    assert multiset(BatchKeys(g))[u.Key()] == 1;
    assert ConfirmedExactly(groups, saved, keys, |groups|, j, u);
  }
}
