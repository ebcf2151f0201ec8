// cli/src/upload.ts: `evmfs upload` and `evmfs deploy`, run by run, with
// transactions that fail and a process that may die between any two effects.
module Upload {
  import opened Evmfs
  import opened Batching
  import opened Packing
  import opened Manifests
  import opened UploadState
  import opened Assembly

  /** The folder's state file. */
  class Disk {
    var saved: SavedFile

    constructor ()
      ensures saved == NoFile
    {
      saved := NoFile;
    }

    method Save(state: State)
      modifies this
      ensures saved == Current(state)
    {
      saved := Current(state);
    }
  }

  // ---------- What a state file may say ----------

  ghost predicate BigOnesAtMostOnce(keys: seq<(nat, nat)>, units: seq<UploadUnit>) {
    forall u <- units :: !u.IsLast() ==> multiset(keys)[u.Key()] <= 1
  }

  function SavedChunks(saved: SavedFile): seq<ConfirmedChunk> {
    match LoadUploadState(saved)
    case Some(state) => state.chunks
    case None => []
  }

  function RecordedManifest(saved: SavedFile): Option<Hash> {
    match LoadUploadState(saved)
    case Some(state) => state.manifestHash
    case None => None
  }

  /** A current file is taken as it is, an old one entry by entry, with its
      manifest; no file and an unrecognised one say nothing. */
  lemma {:induction false} SavedExactly(state: State, uploaded: seq<(nat, Hash)>, manifestHash: Option<Hash>)
    ensures SavedChunks(Current(state)) == state.chunks && RecordedManifest(Current(state)) == state.manifestHash
    ensures RecordedManifest(Legacy(uploaded, manifestHash)) == manifestHash
    ensures |SavedChunks(Legacy(uploaded, manifestHash))| == |uploaded|
    ensures forall k :: 0 <= k < |uploaded| ==>
              var c := SavedChunks(Legacy(uploaded, manifestHash))[k];
              c.Key() == (uploaded[k].0, 0) && c.totalChunks == 1 && c.Ref() == ChunkRef(uploaded[k].1, 0)
    ensures SavedChunks(NoFile) == SavedChunks(Unrecognised) == []
    ensures RecordedManifest(NoFile) == RecordedManifest(Unrecognised) == None
  {
  }

  /** The state a run starts with: the saved one, migrated if it is old, or an
      empty one, without the entries that no longer fit. */
  function StartState(files: seq<FileEntry>, saved: SavedFile): State {
    State(KeepValid(SavedChunks(saved), AllUnits(files)), RecordedManifest(saved))
  }

  /** It lists exactly the saved entries that fit a chunk of the files. */
  lemma {:induction false} StartsWithWhatFits(files: seq<FileEntry>, saved: SavedFile, c: ConfirmedChunk)
    ensures c in StartState(files, saved).chunks
       <==> c in SavedChunks(saved)
            && exists u <- AllUnits(files) :: u.Key() == c.Key() && u.totalChunks == c.totalChunks
  {
    KeepValidMembers(SavedChunks(saved), AllUnits(files), c);
  }

  function ResumeChunks(files: seq<FileEntry>, saved: SavedFile): seq<ConfirmedChunk> {
    StartState(files, saved).chunks
  }

  /** The state in memory tells the truth. */
  ghost predicate StateOk(fmt: Format, log: seq<StoreEvent>, contract: Address,
                          files: seq<FileEntry>, named: bool, state: State) {
    && AllRight(log, contract, files, state.chunks)
    && (state.manifestHash.Some? ==>
          Reproduces(fmt, log, contract, state.manifestHash.value, Names(files, named), Contents(files)))
  }

  /** Entries that fit the files tell the truth, full chunks are listed at most
      once, and a recorded manifest reproduces the files. */
  ghost predicate DiskOk(fmt: Format, log: seq<StoreEvent>, contract: Address,
                         files: seq<FileEntry>, named: bool, saved: SavedFile) {
    && StateOk(fmt, log, contract, files, named, StartState(files, saved))
    && BigOnesAtMostOnce(Keys(ResumeChunks(files, saved)), AllUnits(files))
  }

  /** The block in the URL that a finished run prints. */
  function PrintedBlock(state: State): nat {
    if |state.chunks| > 0 then state.chunks[0].block else 0
  }

  /** It is the first listed chunk's, where that chunk of the files is stored. */
  lemma {:induction false} PrintedBlockIsAChunks(fmt: Format, log: seq<StoreEvent>, contract: Address,
                                                 files: seq<FileEntry>, named: bool, state: State)
    requires Numbered(files) && StateOk(fmt, log, contract, files, named, state)
    ensures state.chunks != [] ==> PrintedBlock(state) == state.chunks[0].block
    ensures state.chunks == [] ==> PrintedBlock(state) == 0
    ensures PrintedBlock(state) > 0
        ==> exists u <- AllUnits(files) :: StoredAt(log, contract, Keccak256(u.data), PrintedBlock(state))
  {
    if PrintedBlock(state) > 0 {
      var c := state.chunks[0];
      assert RightChunk(log, contract, files, c);
      UnitIsChunk(files, Chunk(files[c.fileIndex], c.chunkIndex));
    }
  }

  /** The transactions planned when these keys are confirmed. */
  function PlanFor(files: seq<FileEntry>, keys: seq<(nat, nat)>, gasLimit: int): seq<seq<UploadUnit>> {
    Pack(CLI_TARIFF, gasLimit, Remaining(AllUnits(files), keys))
  }

  /** In gas and bytes: each planned transaction of several chunks keeps to both
      limits, and with the first chunk of the next one it would not have. */
  lemma {:induction false} PlanInNumbers(files: seq<FileEntry>, keys: seq<(nat, nat)>, gasLimit: int, k: nat)
    requires k < |PlanFor(files, keys, gasLimit)|
    ensures var plan := PlanFor(files, keys, gasLimit);
            && (|plan[k]| > 1 ==>
                  31_000 + 24 * |Join(plan[k])| + 1_750 * |plan[k]| <= gasLimit && |Join(plan[k])| <= 100_000)
            && (k + 1 < |plan| ==>
                  && plan[k + 1] != []
                  && var more := plan[k] + [plan[k + 1][0]];
                     31_000 + 24 * |Join(more)| + 1_750 * |more| > gasLimit || |Join(more)| > 100_000)
  {
    var plan := PlanFor(files, keys, gasLimit);
    PackIsGreedy(CLI_TARIFF, gasLimit, Remaining(AllUnits(files), keys));
    assert plan[k] in plan;
    LimitsExactly(gasLimit, plan[k]);
    if k + 1 < |plan| {
      assert Blocked(CLI_TARIFF, gasLimit, plan[k], plan[k + 1]);
      LimitsExactly(gasLimit, plan[k] + [plan[k + 1][0]]);
    }
  }

  /** No chunk is listed twice, and no planned transaction stores the same bytes twice. */
  ghost predicate EachOnce(files: seq<FileEntry>, keys: seq<(nat, nat)>, gasLimit: int) {
    && (forall u <- AllUnits(files) :: multiset(keys)[u.Key()] <= 1)
    && forall g <- PlanFor(files, keys, gasLimit) :: DistinctData(g)
  }

  /** The same, of the keys in the state file. */
  ghost predicate NothingCollapses(files: seq<FileEntry>, gasLimit: int, saved: SavedFile) {
    EachOnce(files, Keys(ResumeChunks(files, saved)), gasLimit)
  }

  /** Some chunk is listed twice. */
  ghost predicate Doubled(files: seq<FileEntry>, keys: seq<(nat, nat)>) {
    exists u <- AllUnits(files) :: multiset(keys)[u.Key()] >= 2
  }

  /** A state file that no run gets past: no manifest, and a chunk listed twice. */
  ghost predicate Stuck(files: seq<FileEntry>, saved: SavedFile) {
    RecordedManifest(saved).None? && Doubled(files, Keys(ResumeChunks(files, saved)))
  }

  ghost predicate DatedManifest(fmt: Format, hash: Hash) {
    var m := ParseManifest(fmt.parse(fmt.MaybeGunzip(hash.preimage)));
    m.Some? ==> forall e <- m.value :: forall ref <- Parts(e) :: ref.block > 0
  }

  /** Every chunk, in the state file or its manifest, has its block recorded.
      Only entries migrated from an old state file have not. */
  ghost predicate Dated(fmt: Format, state: State) {
    && (forall c <- state.chunks :: c.block > 0)
    && (state.manifestHash.Some? ==> DatedManifest(fmt, state.manifestHash.value))
  }

  lemma {:induction false} AllRightForever(log: seq<StoreEvent>, later: seq<StoreEvent>, contract: Address,
                                           files: seq<FileEntry>, chunks: seq<ConfirmedChunk>)
    requires log <= later && AllRight(log, contract, files, chunks)
    ensures AllRight(later, contract, files, chunks)
  {
  }

  /** What is known to be right stays right while the chain grows. */
  lemma {:induction false} StateOkForever(fmt: Format, log: seq<StoreEvent>, later: seq<StoreEvent>, contract: Address,
                                          files: seq<FileEntry>, named: bool, state: State)
    requires log <= later && StateOk(fmt, log, contract, files, named, state)
    ensures StateOk(fmt, later, contract, files, named, state)
  {
    AllRightForever(log, later, contract, files, state.chunks);
    if state.manifestHash.Some? {
      ReproducesForever(fmt, log, later, contract, state.manifestHash.value, Names(files, named), Contents(files));
    }
  }

  lemma {:induction false} DiskOkForever(fmt: Format, log: seq<StoreEvent>, later: seq<StoreEvent>, contract: Address,
                                         files: seq<FileEntry>, named: bool, saved: SavedFile)
    requires log <= later && DiskOk(fmt, log, contract, files, named, saved)
    ensures DiskOk(fmt, later, contract, files, named, saved)
  {
    StateOkForever(fmt, log, later, contract, files, named, StartState(files, saved));
  }

  /** Entries that tell the truth fit the files. */
  lemma {:induction false} RightChunksFit(log: seq<StoreEvent>, contract: Address, files: seq<FileEntry>,
                                          chunks: seq<ConfirmedChunk>)
    requires Numbered(files) && AllRight(log, contract, files, chunks)
    ensures forall c <- chunks :: SameGeometry(c, AllUnits(files))
    ensures KeepValid(chunks, AllUnits(files)) == chunks
  {
    forall c | c in chunks
      ensures SameGeometry(c, AllUnits(files))
    {
      var u := Chunk(files[c.fileIndex], c.chunkIndex);
      UnitIsChunk(files, u);
      assert u in AllUnits(files) && u.totalChunks == c.totalChunks;
    }
    KeepValidIdempotent(chunks, AllUnits(files));
  }

  /** A truthful state, once saved, is what the next run starts with. */
  lemma {:induction false} SavableState(fmt: Format, log: seq<StoreEvent>, contract: Address,
                                        files: seq<FileEntry>, named: bool, state: State)
    requires Numbered(files) && StateOk(fmt, log, contract, files, named, state)
    ensures StartState(files, Current(state)) == state
    ensures BigOnesAtMostOnce(Keys(state.chunks), AllUnits(files))
        ==> DiskOk(fmt, log, contract, files, named, Current(state))
  {
    RightChunksFit(log, contract, files, state.chunks);
  }

  /** An entry of an old state file is kept iff its file still has one chunk, and
      then tells the truth iff its hash is the file's and stored somewhere. */
  lemma {:induction false} LegacyEntriesExactly(log: seq<StoreEvent>, contract: Address, files: seq<FileEntry>,
                                                uploaded: seq<(nat, Hash)>, manifestHash: Option<Hash>, k: nat)
    requires Numbered(files) && k < |uploaded|
    ensures var c, i := LoadUploadState(Legacy(uploaded, manifestHash)).value.chunks[k], uploaded[k].0;
            && (SameGeometry(c, AllUnits(files)) <==> i < |files| && |files[i].compressed| <= MAX_BATCH_BYTES)
            && (SameGeometry(c, AllUnits(files)) ==>
                  (RightChunk(log, contract, files, c)
                   <==> uploaded[k].1 == Keccak256(files[i].compressed) && Stored(log, contract, uploaded[k].1)))
  {
    var c, i := ConfirmedChunk(uploaded[k].0, 0, 1, uploaded[k].1, 0), uploaded[k].0;
    if SameGeometry(c, AllUnits(files)) {
      var u :| u in AllUnits(files) && u.fileIndex == i && u.chunkIndex == 0 && u.totalChunks == 1;
      UnitIsChunk(files, u);
    }
    if i < |files| && |files[i].compressed| <= MAX_BATCH_BYTES {
      UnitIsChunk(files, Chunk(files[i], 0));
      assert Chunk(files[i], 0).data == files[i].compressed;
      assert Chunk(files[i], 0) in AllUnits(files);
    }
  }

  // ---------- Resuming ----------

  lemma {:induction false} PlannedKeysAreNew(units: seq<UploadUnit>, keys: seq<(nat, nat)>,
                                             groups: seq<seq<UploadUnit>>, key: (nat, nat))
    requires Flatten(groups) <= Remaining(units, keys)
    requires key in PlanKeys(groups)
    ensures key !in keys
  {
    PlanKeysAreUnitKeys(groups, key);
    var u :| u in Flatten(groups) && u.Key() == key;
    RemainingMembers(units, keys, u);
  }

  /** The state of a run that has confirmed the first groups of its plan. */
  lemma {:induction false} ResumeKeepsBigOnes(files: seq<FileEntry>, keys: seq<(nat, nat)>, gasLimit: int, i: nat)
    requires Numbered(files) && BigOnesAtMostOnce(keys, AllUnits(files))
    requires i <= |PlanFor(files, keys, gasLimit)|
    ensures BigOnesAtMostOnce(keys + PlanKeys(PlanFor(files, keys, gasLimit)[..i]), AllUnits(files))
  {
    var units := AllUnits(files);
    var plan := Pack(CLI_TARIFF, gasLimit, Remaining(units, keys));
    var done := plan[..i];
    PlanPrefix(files, keys, gasLimit, i);
    PlanCreditsBigOnes(files, done);
    forall u | u in units && !u.IsLast()
      ensures multiset(keys + PlanKeys(done))[u.Key()] <= 1
    {
      if u.Key() in PlanKeys(done) {
        PlannedKeysAreNew(units, keys, done, u.Key());
        PlanKeysAreUnitKeys(done, u.Key());
        var v: UploadUnit :| v in Flatten(done) && v.Key() == u.Key();
        SameKeySameUnit(files, u, v);
      }
    }
  }

  lemma {:induction false} SameKeySameUnit(files: seq<FileEntry>, u: UploadUnit, v: UploadUnit)
    requires Numbered(files) && u in AllUnits(files) && v in AllUnits(files) && u.Key() == v.Key()
    ensures u == v
  {
    UnitIsChunk(files, u);
    UnitIsChunk(files, v);
  }

  lemma {:induction false} FlattenPrefix(groups: seq<seq<UploadUnit>>, i: nat)
    requires i <= |groups| && DistinctKeys(Flatten(groups))
    ensures Flatten(groups[..i]) <= Flatten(groups)
    ensures DistinctKeys(Flatten(groups[..i]))
  {
    assert groups == groups[..i] + groups[i..];
    FlattenConcat(groups[..i], groups[i..]);
    DistinctHalves(Flatten(groups[..i]), Flatten(groups[i..]));
  }

  /** Planned batches hold units of the files and never exceed the byte limit. */
  lemma {:induction false} PlannedBatches(files: seq<FileEntry>, keys: seq<(nat, nat)>, gasLimit: int)
    requires Numbered(files)
    ensures var remaining := Remaining(AllUnits(files), keys);
            && DistinctKeys(remaining)
            && (forall u <- remaining :: u in AllUnits(files))
            && (forall g <- Pack(CLI_TARIFF, gasLimit, remaining) :: ByteSize(g) <= MAX_BATCH_BYTES)
  {
    var remaining := Remaining(AllUnits(files), keys);
    UnitKeysDistinct(files);
    RemainingDistinct(AllUnits(files), keys);
    forall u | u in remaining
      ensures u in AllUnits(files)
    {
      RemainingMembers(AllUnits(files), keys, u);
    }
    forall g | g in Pack(CLI_TARIFF, gasLimit, remaining)
      ensures ByteSize(g) <= MAX_BATCH_BYTES
    {
      BatchBytes(CLI_TARIFF, gasLimit, files, remaining, g);
    }
  }

  lemma {:induction false} PlanPrefix(files: seq<FileEntry>, keys: seq<(nat, nat)>, gasLimit: int, i: nat)
    requires Numbered(files)
    requires i <= |PlanFor(files, keys, gasLimit)|
    ensures var remaining := Remaining(AllUnits(files), keys);
            var done := Pack(CLI_TARIFF, gasLimit, remaining)[..i];
            && Flatten(done) <= remaining
            && DistinctKeys(Flatten(done))
            && (forall u <- Flatten(done) :: u in AllUnits(files))
            && (forall g <- done :: ByteSize(g) <= MAX_BATCH_BYTES)
  {
    var remaining := Remaining(AllUnits(files), keys);
    PlannedBatches(files, keys, gasLimit);
    PackLosesNothing(CLI_TARIFF, gasLimit, remaining);
    FlattenPrefix(Pack(CLI_TARIFF, gasLimit, remaining), i);
  }

  /** A finished plan accounts for every chunk exactly once iff nothing collapses. */
  lemma {:induction false} FinishedPlan(files: seq<FileEntry>, keys: seq<(nat, nat)>, gasLimit: int)
    requires Numbered(files) && BigOnesAtMostOnce(keys, AllUnits(files))
    ensures var plan := PlanFor(files, keys, gasLimit);
            var after := keys + PlanKeys(plan);
            && BigOnesOnce(after, AllUnits(files))
            && (OnceEach(after, AllUnits(files))
                <==> (forall u <- AllUnits(files) :: multiset(keys)[u.Key()] <= 1)
                     && forall g <- plan :: DistinctData(g))
  {
    var units := AllUnits(files);
    var remaining := Remaining(units, keys);
    var plan := Pack(CLI_TARIFF, gasLimit, remaining);
    var after := keys + PlanKeys(plan);
    PackLosesNothing(CLI_TARIFF, gasLimit, remaining);
    PlanPrefix(files, keys, gasLimit, |plan|);
    assert plan[..|plan|] == plan;
    PlanCreditsBigOnes(files, plan);
    PlanCreditsExactly(plan);
    forall u | u in units
      ensures u.Key() in keys ==> multiset(after)[u.Key()] == multiset(keys)[u.Key()]
      ensures u.Key() !in keys ==> u in remaining && multiset(after)[u.Key()] == multiset(PlanKeys(plan))[u.Key()]
    {
      RemainingMembers(units, keys, u);
      if u.Key() in PlanKeys(plan) {
        PlannedKeysAreNew(units, keys, plan, u.Key());
      }
    }
    forall u | u in remaining
      ensures u in units && u.Key() !in keys
    {
      RemainingMembers(units, keys, u);
    }
  }

  lemma {:induction false} UnlistedIsPlanned(files: seq<FileEntry>, keys: seq<(nat, nat)>, gasLimit: int, u: UploadUnit)
    returns (k: nat)
    requires u in AllUnits(files) && u.Key() !in keys
    ensures k < |PlanFor(files, keys, gasLimit)| && u in PlanFor(files, keys, gasLimit)[k]
  {
    var plan := PlanFor(files, keys, gasLimit);
    RemainingMembers(AllUnits(files), keys, u);
    PackLosesNothing(CLI_TARIFF, gasLimit, Remaining(AllUnits(files), keys));
    FlattenMembers(plan, u);
    var g :| g in plan && u in g;
    k :| 0 <= k < |plan| && plan[k] == g;
  }

  lemma {:induction false} PlannedIsUnit(files: seq<FileEntry>, keys: seq<(nat, nat)>, gasLimit: int, k: nat,
                                         w: UploadUnit)
    requires k < |PlanFor(files, keys, gasLimit)| && w in PlanFor(files, keys, gasLimit)[k]
    ensures w in AllUnits(files)
  {
    var plan := PlanFor(files, keys, gasLimit);
    assert plan[k] in plan;
    PackedUnitsAreUnits(CLI_TARIFF, gasLimit, Remaining(AllUnits(files), keys), plan[k], w);
    RemainingMembers(AllUnits(files), keys, w);
  }

  /** When a finished plan does not list every chunk exactly once, it lists one
      of them twice. */
  lemma {:induction false} UnfinishedMeansDoubled(files: seq<FileEntry>, keys: seq<(nat, nat)>, gasLimit: int)
    ensures var after := keys + PlanKeys(PlanFor(files, keys, gasLimit));
            OnceEach(after, AllUnits(files)) || Doubled(files, after)
  {
    var plan := PlanFor(files, keys, gasLimit);
    var after := keys + PlanKeys(plan);
    if u :| u in AllUnits(files) && u.Key() !in after {
      var k := UnlistedIsPlanned(files, keys, gasLimit, u);
      PlanHasBatchKeys(plan, k);
      assert u.Key() !in multiset(PlanKeys(plan));
      var w := LostMeansTwice(plan[k], u);
      PlannedIsUnit(files, keys, gasLimit, k, w);
      assert multiset(after)[w.Key()] >= 2;
    }
  }

  lemma {:induction false} DoubledGrows(files: seq<FileEntry>, keys: seq<(nat, nat)>, more: seq<(nat, nat)>)
    requires Doubled(files, keys) && multiset(keys) <= multiset(more)
    ensures Doubled(files, more) && !OnceEach(more, AllUnits(files))
  {
    var u :| u in AllUnits(files) && multiset(keys)[u.Key()] >= 2;
    assert multiset(more)[u.Key()] >= 2;
  }

  lemma {:induction false} UnitsOfTwoFiles(f: FileEntry, g: FileEntry)
    requires |f.compressed| <= MAX_BATCH_BYTES && |g.compressed| <= MAX_BATCH_BYTES
    ensures AllUnits([f, g]) == [UploadUnit(f.index, 0, 1, f.compressed), UploadUnit(g.index, 0, 1, g.compressed)]
  {
    assert [f, g][..1] == [f] && [f][..0] == [];
    assert AllUnits([f]) == AllUnits([]) + FileUnits(f);
    assert Chunk(f, 0).data == f.compressed && Chunk(g, 0).data == g.compressed;
    assert FileUnits(f) == [Chunk(f, 0)] && FileUnits(g) == [Chunk(g, 0)];
  }

  lemma {:induction false} NothingConfirmed(units: seq<UploadUnit>)
    ensures Remaining(units, []) == units
  {
    if units != [] {
      NothingConfirmed(units[..|units| - 1]);
    }
  }

  lemma {:induction false} PackTwo(u: UploadUnit, v: UploadUnit, gasLimit: int)
    requires |u.data| + |v.data| <= MAX_BATCH_BYTES
    requires EMPTY_BATCH_GAS + EstimateFileGas(CLI_TARIFF, |u.data|) + EstimateFileGas(CLI_TARIFF, |v.data|) <= gasLimit
    ensures Pack(CLI_TARIFF, gasLimit, [u, v]) == [[u, v]]
  {
    assert [u, v][..1] == [u] && [u][..0] == [];
    assert Pack(CLI_TARIFF, gasLimit, []) == [];
    assert Pack(CLI_TARIFF, gasLimit, [u]) == [[u]];
    TotalsSnoc(CLI_TARIFF, [], u, EMPTY_BATCH_GAS, 0);
    assert [] + [u] == [u] && [u] + [v] == [u, v];
    TotalsSnoc(CLI_TARIFF, [u], v, EMPTY_BATCH_GAS + EstimateFileGas(CLI_TARIFF, |u.data|), |u.data|);
  }

  /** The condition can fail: two small files with the same bytes go into one
      transaction, both logs are credited to the second, and the run refuses. */
  lemma {:induction false} TwoEqualFilesCollapse(a: string, b: string, content: Bytes, gasLimit: int)
    requires 2 * |content| <= MAX_BATCH_BYTES
    requires EMPTY_BATCH_GAS + 2 * EstimateFileGas(CLI_TARIFF, |content|) <= gasLimit
    ensures !NothingCollapses([FileEntry(0, a, content), FileEntry(1, b, content)], gasLimit, NoFile)
  {
    var u, v := UploadUnit(0, 0, 1, content), UploadUnit(1, 0, 1, content);
    var files := [FileEntry(0, a, content), FileEntry(1, b, content)];
    UnitsOfTwoFiles(files[0], files[1]);
    assert Keys(ResumeChunks(files, NoFile)) == [];
    NothingConfirmed([u, v]);
    PackTwo(u, v, gasLimit);
    assert [u, v][0].data == [u, v][1].data;
    assert [u, v] in PlanFor(files, [], gasLimit);
  }
}
