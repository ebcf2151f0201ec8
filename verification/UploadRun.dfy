// cli/src/upload.ts: the commands themselves. `if *` is a fault: a rejected
// transaction, a lost receipt, or the process dying between two effects.
module UploadRun {
  import opened Evmfs
  import opened Batching
  import opened Packing
  import opened Manifests
  import opened UploadState
  import opened Assembly
  import opened Upload

  datatype Receipt = Receipt(block: nat, logs: seq<StoreEvent>)

  datatype Outcome =
    | NoFiles | Unreadable | Cancelled | AlreadyComplete
    | BatchFailed | Crashed | Refused(missing: nat) | Completed

  function DataOf(units: seq<UploadUnit>): seq<Bytes> {
    seq(|units|, i requires 0 <= i < |units| => units[i].data)
  }

  /** Whatever `me` has registered since `before` is in `ok`. */
  ghost predicate OnlyAdds(before: map<Hash, Address>, after: map<Hash, Address>, me: Address, ok: iset<Hash>) {
    forall h :: h in after && after[h] == me ==> (h in before && before[h] == me) || h in ok
  }

  ghost function GoodManifests(fmt: Format, log: seq<StoreEvent>, contract: Address,
                               files: seq<FileEntry>, named: bool): iset<Hash> {
    iset h | Reproduces(fmt, log, contract, h, Names(files, named), Contents(files))
  }

  lemma {:induction false} NothingAdded(before: map<Hash, Address>, between: map<Hash, Address>,
                                        after: map<Hash, Address>, me: Address)
    requires OnlyAdds(before, between, me, iset{}) && OnlyAdds(between, after, me, iset{})
    ensures OnlyAdds(before, after, me, iset{})
  {
  }

  // ---------- One batch ----------

  /** Sends one batch and waits. It may fail before or after being mined. */
  method Submit(chain: Chain, units: seq<UploadUnit>, me: Address, calm: bool) returns (receipt: Option<Receipt>)
    requires chain.Valid() && units != []
    modifies chain
    ensures chain.Valid() && old(chain.log) <= chain.log
    ensures OnlyAdds(old(chain.manifests), chain.manifests, me, iset{})
    ensures receipt.Some? ==>
              && 0 < receipt.value.block
              && receipt.value.logs == Events(receipt.value.block, chain.self, DataOf(units))
              && forall e <- receipt.value.logs :: e in chain.log
    ensures calm ==> receipt.Some?
  {
    chain.OtherTraffic(me);
    if !calm {
      if * { return None; }
    }
    var block, start := chain.height, |chain.log|;
    if |units| == 1 {
      var hash := chain.Store(units[0].data);
      assert DataOf(units) == [units[0].data];
    } else {
      var hashes := chain.StoreBatch(DataOf(units));
    }
    var logs := chain.log[start..];
    chain.OtherTraffic(me);
    if !calm {
      if * { return None; }
    }
    return Some(Receipt(block, logs));
  }

  function Credits(units: seq<UploadUnit>, block: nat): seq<ConfirmedChunk> {
    seq(|units|, j requires 0 <= j < |units| => Confirm(Credited(units, j), Keccak256(units[j].data), block))
  }

  /** Pushes one entry per Store log. */
  method RecordReceipt(units: seq<UploadUnit>, receipt: Receipt, contract: Address, chunks: seq<ConfirmedChunk>)
    returns (recorded: seq<ConfirmedChunk>)
    requires receipt.logs == Events(receipt.block, contract, DataOf(units))
    ensures recorded == chunks + Credits(units, receipt.block)
  {
    var hashToUnit := HashToUnit(units);
    recorded := chunks;
    for j := 0 to |receipt.logs|
      invariant recorded == chunks + Credits(units, receipt.block)[..j]
    {
      var contentHash := receipt.logs[j].hash;
      assert contentHash == Keccak256(units[j].data);
      HashToUnitFinds(units, j);
      if contentHash in hashToUnit {
        recorded := recorded + [Confirm(hashToUnit[contentHash], contentHash, receipt.block)];
      }
      assert Credits(units, receipt.block)[j] == Confirm(Credited(units, j), contentHash, receipt.block);
      assert Credits(units, receipt.block)[..j + 1]
          == Credits(units, receipt.block)[..j] + [Credits(units, receipt.block)[j]];
    }
    assert Credits(units, receipt.block)[..|units|] == Credits(units, receipt.block);
  }

  lemma {:induction false} CreditsAreRight(log: seq<StoreEvent>, contract: Address, files: seq<FileEntry>,
                                           units: seq<UploadUnit>, block: nat)
    requires Numbered(files) && 0 < block
    requires forall u <- units :: u in AllUnits(files)
    requires forall e <- Events(block, contract, DataOf(units)) :: e in log
    ensures AllRight(log, contract, files, Credits(units, block))
    ensures Keys(Credits(units, block)) == BatchKeys(units)
  {
    forall j | 0 <= j < |units|
      ensures RightChunk(log, contract, files, Credits(units, block)[j])
    {
      var u := Credited(units, j);
      UnitIsChunk(files, u);
      assert Events(block, contract, DataOf(units))[j] in log;
    }
  }

  lemma {:induction false} KeysConcat(a: seq<ConfirmedChunk>, b: seq<ConfirmedChunk>)
    ensures Keys(a + b) == Keys(a) + Keys(b)
  {
  }

  // ---------- Assembling ----------

  function ListOf(chunksByFile: map<nat, seq<ConfirmedChunk>>, i: nat): seq<ConfirmedChunk> {
    if i in chunksByFile then chunksByFile[i] else []
  }

  method GroupByFile(chunks: seq<ConfirmedChunk>) returns (chunksByFile: map<nat, seq<ConfirmedChunk>>)
    ensures forall i: nat :: ListOf(chunksByFile, i) == FileChunks(chunks, i)
  {
    chunksByFile := map[];
    for k := 0 to |chunks|
      invariant forall i: nat :: ListOf(chunksByFile, i) == FileChunks(chunks[..k], i)
    {
      var c := chunks[k];
      assert chunks[..k + 1][..k] == chunks[..k];
      chunksByFile := chunksByFile[c.fileIndex := ListOf(chunksByFile, c.fileIndex) + [c]];
    }
    assert chunks[..|chunks|] == chunks;
  }

  /** How many of the first n files fail the count check. */
  function Mismatches(files: seq<FileEntry>, chunks: seq<ConfirmedChunk>, n: nat): nat
    requires n <= |files|
  {
    if n == 0 then 0 else Mismatches(files, chunks, n - 1) + if CountMatches(files, chunks, n - 1) then 0 else 1
  }

  lemma {:induction false} NoMismatches(files: seq<FileEntry>, chunks: seq<ConfirmedChunk>, n: nat)
    requires n <= |files|
    ensures Mismatches(files, chunks, n) == 0 <==> forall i :: 0 <= i < n ==> CountMatches(files, chunks, i)
  {
    if n > 0 {
      NoMismatches(files, chunks, n - 1);
    }
  }

  /** The files that fail it. */
  ghost function Incomplete(files: seq<FileEntry>, chunks: seq<ConfirmedChunk>, n: nat): set<int>
    requires n <= |files|
  {
    set i | 0 <= i < n && !CountMatches(files, chunks, i)
  }

  lemma {:induction false} MismatchesExactly(files: seq<FileEntry>, chunks: seq<ConfirmedChunk>, n: nat)
    requires n <= |files|
    ensures Mismatches(files, chunks, n) == |Incomplete(files, chunks, n)|
  {
    if n > 0 {
      MismatchesExactly(files, chunks, n - 1);
      OneMoreFile(files, chunks, n - 1);
    }
  }

  lemma {:induction false} OneMoreFile(files: seq<FileEntry>, chunks: seq<ConfirmedChunk>, n: nat)
    requires n < |files|
    ensures n !in Incomplete(files, chunks, n)
    ensures Incomplete(files, chunks, n + 1)
         == Incomplete(files, chunks, n) + if CountMatches(files, chunks, n) then {} else {n}
  {
  }

  function AssembledUpTo(files: seq<FileEntry>, chunks: seq<ConfirmedChunk>, n: nat): (entries: seq<ManifestEntry>)
    requires n <= |files|
    ensures |entries| == n
  {
    if n == 0 then [] else AssembledUpTo(files, chunks, n - 1) + [AssembledEntry(files, chunks, n - 1)]
  }

  lemma {:induction false} AssembledAt(files: seq<FileEntry>, chunks: seq<ConfirmedChunk>, n: nat, i: nat)
    requires i < n <= |files|
    ensures AssembledUpTo(files, chunks, n)[i] == AssembledEntry(files, chunks, i)
  {
    if i < n - 1 {
      AssembledAt(files, chunks, n - 1, i);
    }
  }

  /** Counts each file's chunks and lists the entries of the complete ones. */
  method AssembleEntries(files: seq<FileEntry>, allUnits: seq<UploadUnit>, chunks: seq<ConfirmedChunk>)
    returns (entries: seq<ManifestEntry>, missing: nat)
    requires Numbered(files) && allUnits == AllUnits(files)
    ensures missing == Mismatches(files, chunks, |files|)
    ensures missing == 0 ==> entries == AssembledUpTo(files, chunks, |files|)
  {
    var chunksByFile := GroupByFile(chunks);
    entries, missing := [], 0;
    for i := 0 to |files|
      invariant missing == Mismatches(files, chunks, i)
      invariant missing == 0 ==> entries == AssembledUpTo(files, chunks, i)
    {
      var entry := EntryOfFile(files, allUnits, ListOf(chunksByFile, i), i);
      if entry.None? {
        missing := missing + 1;
      } else {
        entries := entries + [entry.value];
      }
    }
  }

  /** The body of that loop: sort, count, and make the entry. */
  method EntryOfFile(files: seq<FileEntry>, allUnits: seq<UploadUnit>, list: seq<ConfirmedChunk>, i: nat)
    returns (entry: Option<ManifestEntry>)
    requires Numbered(files) && allUnits == AllUnits(files) && i < |files|
    ensures entry.Some? <==> |list| == NumChunks(|files[i].compressed|)
    ensures entry.Some? ==> entry.value == ToEntry(files[i].filename, SortChunks(list))
  {
    var fileChunks := SortChunks(list);
    var expected := |OfFile(allUnits, i)|;
    UnitsOfFile(files, i);
    SortKeepsLength(list);
    if |fileChunks| != expected { return None; }
    return Some(ToEntry(files[i].filename, fileChunks));
  }

  // ---------- One run ----------

  /** The state lists the initial keys and those of the first i batches. */
  ghost predicate Confirms(files: seq<FileEntry>, keys: seq<(nat, nat)>, gasLimit: int, i: nat, state: State) {
    i <= |PlanFor(files, keys, gasLimit)| && Keys(state.chunks) == keys + PlanKeys(PlanFor(files, keys, gasLimit)[..i])
  }

  /** Nothing the run started with is lost: the disk has its keys and its
      manifest, and blocks that were all recorded stay recorded. */
  ghost predicate Keeps(fmt: Format, files: seq<FileEntry>, saved: SavedFile, state: State,
                        keys: seq<(nat, nat)>, dated: bool) {
    && RecordedManifest(saved) == state.manifestHash
    && multiset(keys) <= multiset(Keys(ResumeChunks(files, saved)))
    && (dated ==> Dated(fmt, state) && Dated(fmt, StartState(files, saved)))
  }

  /** The state file lists what it did before the run, and then what the first
      batches of the run's plan were credited with. */
  ghost predicate ListsWhatWasSent(files: seq<FileEntry>, before: SavedFile, gasLimit: int, after: SavedFile) {
    exists i: nat :: Confirms(files, Keys(ResumeChunks(files, before)), gasLimit, i, StartState(files, after))
  }

  /** The same for the whole plan. */
  ghost predicate ListsWholePlan(files: seq<FileEntry>, before: SavedFile, gasLimit: int, after: SavedFile) {
    var keys := Keys(ResumeChunks(files, before));
    Keys(ResumeChunks(files, after)) == keys + PlanKeys(PlanFor(files, keys, gasLimit))
  }

  lemma {:induction false} NothingSentYet(files: seq<FileEntry>, start: State, gasLimit: int)
    ensures Confirms(files, Keys(start.chunks), gasLimit, 0, start)
  {
    var keys := Keys(start.chunks);
    assert PlanFor(files, keys, gasLimit)[..0] == [];
    assert keys + PlanKeys([]) == keys;
  }

  lemma {:induction false} FailedAt(files: seq<FileEntry>, before: SavedFile, gasLimit: int, i: nat, after: SavedFile)
    requires Confirms(files, Keys(ResumeChunks(files, before)), gasLimit, i, StartState(files, after))
    ensures ListsWhatWasSent(files, before, gasLimit, after)
  {
  }

  lemma {:induction false} PlanListed(files: seq<FileEntry>, before: SavedFile, gasLimit: int, state: State,
                                      after: SavedFile)
    requires ResumeChunks(files, after) == state.chunks
    requires var keys := Keys(ResumeChunks(files, before));
             Confirms(files, keys, gasLimit, |PlanFor(files, keys, gasLimit)|, state)
    ensures ListsWhatWasSent(files, before, gasLimit, after) && ListsWholePlan(files, before, gasLimit, after)
  {
    var keys := Keys(ResumeChunks(files, before));
    var plan := PlanFor(files, keys, gasLimit);
    assert plan[..|plan|] == plan;
    assert Confirms(files, keys, gasLimit, |plan|, StartState(files, after));
  }

  /** Batch i of the plan: send, record, save. */
  method SendOne(fmt: Format, chain: Chain, disk: Disk, me: Address, files: seq<FileEntry>, units: seq<UploadUnit>,
                 before: State, named: bool, calm: bool,
                 ghost keys: seq<(nat, nat)>, ghost gasLimit: int, ghost i: nat, ghost dated: bool)
    returns (state: State, failure: Option<Outcome>)
    requires chain.Valid() && Numbered(files)
    requires DiskOk(fmt, chain.log, chain.self, files, named, disk.saved)
    requires StateOk(fmt, chain.log, chain.self, files, named, before)
    requires Confirms(files, keys, gasLimit, i, before) && BigOnesAtMostOnce(keys, AllUnits(files))
    requires Keeps(fmt, files, disk.saved, before, keys, dated)
    requires i < |PlanFor(files, keys, gasLimit)| && units == PlanFor(files, keys, gasLimit)[i]
    modifies chain, disk
    ensures chain.Valid() && old(chain.log) <= chain.log
    ensures OnlyAdds(old(chain.manifests), chain.manifests, me, iset{})
    ensures DiskOk(fmt, chain.log, chain.self, files, named, disk.saved)
    ensures StateOk(fmt, chain.log, chain.self, files, named, state) && state.manifestHash == before.manifestHash
    ensures Keeps(fmt, files, disk.saved, state, keys, dated)
    ensures failure.None? ==> Confirms(files, keys, gasLimit, i + 1, state) && disk.saved == Current(state)
    ensures failure.None? ==> StartState(files, disk.saved) == state
    ensures failure == Some(Crashed) ==> disk.saved == old(disk.saved)
    ensures failure == Some(BatchFailed) ==> disk.saved == Current(before) && StartState(files, disk.saved) == before
    ensures failure.Some? ==> failure.value == Crashed || failure.value == BatchFailed
    ensures calm ==> failure.None?
  {
    state := before;
    if !calm {
      if * { return state, Some(Crashed); }
    }
    PlannedGroups(files, keys, gasLimit);
    assert units in PlanFor(files, keys, gasLimit);
    var receipt := Submit(chain, units, me, calm);
    Survives(fmt, old(chain.log), chain.log, chain.self, files, named, disk.saved, before);
    if receipt.None? {
      Savable(fmt, chain.log, chain.self, files, named, state, keys, gasLimit, i, dated);
      disk.Save(state);
      return state, Some(BatchFailed);
    }
    var recorded := RecordReceipt(units, receipt.value, chain.self, before.chunks);
    state := before.(chunks := recorded);
    Recorded(fmt, chain.log, chain.self, files, named, before, units, receipt.value);
    NextConfirmed(files, keys, gasLimit, i, before, state);
    if !calm {
      if * { return state, Some(Crashed); }
    }
    Savable(fmt, chain.log, chain.self, files, named, state, keys, gasLimit, i + 1, dated);
    disk.Save(state);
    failure := None;
  }

  lemma {:induction false} Survives(fmt: Format, log: seq<StoreEvent>, later: seq<StoreEvent>, contract: Address,
                                    files: seq<FileEntry>, named: bool, saved: SavedFile, state: State)
    requires log <= later
    requires DiskOk(fmt, log, contract, files, named, saved) && StateOk(fmt, log, contract, files, named, state)
    ensures DiskOk(fmt, later, contract, files, named, saved) && StateOk(fmt, later, contract, files, named, state)
  {
    DiskOkForever(fmt, log, later, contract, files, named, saved);
    StateOkForever(fmt, log, later, contract, files, named, state);
  }

  lemma {:induction false} NextConfirmed(files: seq<FileEntry>, keys: seq<(nat, nat)>, gasLimit: int, i: nat,
                                         before: State, state: State)
    requires Confirms(files, keys, gasLimit, i, before) && i < |PlanFor(files, keys, gasLimit)|
    requires Keys(state.chunks) == Keys(before.chunks) + BatchKeys(PlanFor(files, keys, gasLimit)[i])
    ensures Confirms(files, keys, gasLimit, i + 1, state)
  {
    var plan := PlanFor(files, keys, gasLimit);
    assert plan[..i + 1][..i] == plan[..i];
  }

  lemma {:induction false} PlannedGroups(files: seq<FileEntry>, keys: seq<(nat, nat)>, gasLimit: int)
    requires Numbered(files)
    ensures forall g <- PlanFor(files, keys, gasLimit) :: g != [] && forall u <- g :: u in AllUnits(files)
  {
    var remaining := Remaining(AllUnits(files), keys);
    PackIsGreedy(CLI_TARIFF, gasLimit, remaining);
    forall g, u | g in PlanFor(files, keys, gasLimit) && u in g
      ensures u in AllUnits(files)
    {
      PackedUnitsAreUnits(CLI_TARIFF, gasLimit, remaining, g, u);
      RemainingMembers(AllUnits(files), keys, u);
    }
  }

  /** Recording a receipt keeps the state truthful and adds the batch's keys. */
  lemma {:induction false} Recorded(fmt: Format, log: seq<StoreEvent>, contract: Address, files: seq<FileEntry>,
                                    named: bool, state: State, units: seq<UploadUnit>, receipt: Receipt)
    requires Numbered(files) && StateOk(fmt, log, contract, files, named, state)
    requires forall u <- units :: u in AllUnits(files)
    requires 0 < receipt.block && receipt.logs == Events(receipt.block, contract, DataOf(units))
    requires forall e <- receipt.logs :: e in log
    ensures var next := state.(chunks := state.chunks + Credits(units, receipt.block));
            && StateOk(fmt, log, contract, files, named, next)
            && Keys(next.chunks) == Keys(state.chunks) + BatchKeys(units)
            && (Dated(fmt, state) ==> Dated(fmt, next))
  {
    CreditsAreRight(log, contract, files, units, receipt.block);
    KeysConcat(state.chunks, Credits(units, receipt.block));
  }

  /** What the state file holds after i batches may be resumed from. */
  lemma {:induction false} Savable(fmt: Format, log: seq<StoreEvent>, contract: Address, files: seq<FileEntry>,
                                   named: bool, state: State, keys: seq<(nat, nat)>, gasLimit: int, i: nat, dated: bool)
    requires Numbered(files) && StateOk(fmt, log, contract, files, named, state)
    requires BigOnesAtMostOnce(keys, AllUnits(files)) && Confirms(files, keys, gasLimit, i, state)
    requires dated ==> Dated(fmt, state)
    ensures DiskOk(fmt, log, contract, files, named, Current(state)) && StartState(files, Current(state)) == state
    ensures Keeps(fmt, files, Current(state), state, keys, dated)
  {
    ResumeKeepsBigOnes(files, keys, gasLimit, i);
    SavableState(fmt, log, contract, files, named, state);
  }

  /** The batch loop. The state file is saved after every batch, good or bad. */
  method SendBatches(fmt: Format, chain: Chain, disk: Disk, me: Address, files: seq<FileEntry>, batches: seq<Batch>,
                     ghost gasLimit: int, start: State, named: bool, calm: bool, ghost dated: bool)
    returns (state: State, failure: Option<Outcome>)
    requires chain.Valid() && Numbered(files)
    requires DiskOk(fmt, chain.log, chain.self, files, named, disk.saved) && start == StartState(files, disk.saved)
    requires dated ==> Dated(fmt, start)
    requires batches == ToBatches(CLI_TARIFF, PlanFor(files, Keys(start.chunks), gasLimit))
    modifies chain, disk
    ensures chain.Valid() && old(chain.log) <= chain.log
    ensures OnlyAdds(old(chain.manifests), chain.manifests, me, iset{})
    ensures DiskOk(fmt, chain.log, chain.self, files, named, disk.saved)
    ensures StateOk(fmt, chain.log, chain.self, files, named, state) && state.manifestHash == start.manifestHash
    ensures Keeps(fmt, files, disk.saved, state, Keys(start.chunks), dated)
    ensures failure.None? ==> Confirms(files, Keys(start.chunks), gasLimit, |batches|, state)
    ensures failure.None? ==> disk.saved == if batches == [] then old(disk.saved) else Current(state)
    ensures failure.None? ==> StartState(files, disk.saved) == state
    ensures failure.Some? ==> failure.value == Crashed || failure.value == BatchFailed
    ensures failure.Some? ==> ListsWhatWasSent(files, old(disk.saved), gasLimit, disk.saved)
    ensures calm ==> failure.None?
  {
    ghost var keys := Keys(start.chunks);
    state, failure := start, None;
    NothingSentYet(files, start, gasLimit);
    for i := 0 to |batches|
      invariant chain.Valid() && old(chain.log) <= chain.log
      invariant OnlyAdds(old(chain.manifests), chain.manifests, me, iset{})
      invariant DiskOk(fmt, chain.log, chain.self, files, named, disk.saved)
      invariant StateOk(fmt, chain.log, chain.self, files, named, state) && state.manifestHash == start.manifestHash
      invariant Keeps(fmt, files, disk.saved, state, keys, dated)
      invariant Confirms(files, keys, gasLimit, i, state)
      invariant disk.saved == if i == 0 then old(disk.saved) else Current(state)
      invariant StartState(files, disk.saved) == state
      invariant failure.None?
    {
      ghost var before, registered := state, chain.manifests;
      state, failure := SendOne(fmt, chain, disk, me, files, batches[i].units, state, named, calm,
                                keys, gasLimit, i, dated);
      NothingAdded(old(chain.manifests), registered, chain.manifests, me);
      if failure.Some? {
        assert StartState(files, disk.saved) == before;
        FailedAt(files, old(disk.saved), gasLimit, i, disk.saved);
        return;
      }
    }
  }

  /** `evmfs upload` (deploy == false) or `evmfs deploy`. When `calm`, nothing
      outside the program goes wrong. `block` is the one in the printed URL. */
  method Run(fmt: Format, chain: Chain, disk: Disk, me: Address, files: seq<FileEntry>,
             gasLimit: int, deploy: bool, confirm: bool, calm: bool) returns (outcome: Outcome, block: nat)
    requires fmt.Valid() && chain.Valid() && Numbered(files)
    requires DiskOk(fmt, chain.log, chain.self, files, deploy, disk.saved)
    modifies chain, disk
    ensures chain.Valid() && old(chain.log) <= chain.log
    ensures DiskOk(fmt, chain.log, chain.self, files, deploy, disk.saved)
    ensures OnlyAdds(old(chain.manifests), chain.manifests, me,
                     GoodManifests(fmt, chain.log, chain.self, files, deploy))
    ensures outcome.Completed? || outcome.AlreadyComplete? ==> RecordedManifest(disk.saved).Some?
    ensures outcome.Completed? || outcome.AlreadyComplete? ==> block == PrintedBlock(StartState(files, disk.saved))
    ensures outcome.Completed? || outcome.AlreadyComplete?
        ==> Prints(chain.log, chain.self, files, ResumeChunks(files, disk.saved), block)
    ensures files == [] ==> outcome.NoFiles?
    ensures !confirm ==> outcome.NoFiles? || outcome.Unreadable? || outcome.AlreadyComplete? || outcome.Cancelled?
    ensures outcome.NoFiles? || outcome.Unreadable? || outcome.AlreadyComplete? || outcome.Cancelled? ==>
              && disk.saved == old(disk.saved) && chain.log == old(chain.log)
              && chain.manifests == old(chain.manifests) && chain.height == old(chain.height)
    ensures outcome.Cancelled? ==> !confirm
    ensures outcome.Crashed? || outcome.BatchFailed? ==>
              ListsWhatWasSent(files, old(disk.saved), gasLimit, disk.saved)
    ensures outcome.Completed? || outcome.Refused? ==> ListsWholePlan(files, old(disk.saved), gasLimit, disk.saved)
    ensures outcome.AlreadyComplete? <==>
            && files != [] && !(deploy && (old(disk.saved).Legacy? || old(disk.saved).Unrecognised?))
            && RecordedManifest(old(disk.saved)).Some?
            && forall u <- AllUnits(files) :: u.Key() in Keys(ResumeChunks(files, old(disk.saved)))
    ensures Dated(fmt, StartState(files, old(disk.saved))) ==> Dated(fmt, StartState(files, disk.saved))
    ensures outcome.Refused? ==> !NothingCollapses(files, gasLimit, old(disk.saved))
    ensures outcome.Refused? ==> Stuck(files, disk.saved)
    ensures outcome.Refused? ==> outcome.missing == |Incomplete(files, ResumeChunks(files, disk.saved), |files|)|
    ensures Stuck(files, old(disk.saved)) ==> StillStuck(files, disk.saved, outcome)
    ensures Stuck(files, old(disk.saved)) ==> OnlyAdds(old(chain.manifests), chain.manifests, me, iset{})
    ensures outcome.Completed? && RecordedManifest(old(disk.saved)).None?
        ==> NothingCollapses(files, gasLimit, old(disk.saved))
    ensures calm && confirm && files != [] && !outcome.Unreadable?
        ==> outcome.Completed? || outcome.AlreadyComplete? || outcome.Refused?
    ensures outcome.Unreadable? ==> deploy && (disk.saved.Legacy? || disk.saved.Unrecognised?)
  {
    block := 0;
    if files == [] { return NoFiles, block; }
    var allUnits := ExpandFilesToUnits(files);

    // `deploy` reads its state file without the migration and trips over old ones.
    if deploy && (disk.saved.Legacy? || disk.saved.Unrecognised?) { return Unreadable, block; }
    var state := State(KeepValid(SavedChunks(disk.saved), allUnits), RecordedManifest(disk.saved));
    var confirmedKeys := Keys(state.chunks);
    var remainingUnits := Remaining(allUnits, confirmedKeys);
    NothingRemains(allUnits, confirmedKeys);
    if remainingUnits == [] && state.manifestHash.Some? {
      PrintsRight(fmt, chain.log, chain.self, files, deploy, state);
      return AlreadyComplete, PrintedBlock(state);
    }

    var batches := PackBatches(CLI_TARIFF, remainingUnits, gasLimit);
    if !confirm { return Cancelled, block; }
    outcome, block := Proceed(fmt, chain, disk, me, files, allUnits, batches, gasLimit, state, deploy, calm);
  }

  /** The printed block is the first chunk's, and a chunk of the files is there. */
  ghost predicate Prints(log: seq<StoreEvent>, contract: Address, files: seq<FileEntry>, chunks: seq<ConfirmedChunk>,
                         block: nat) {
    && (chunks != [] ==> block == chunks[0].block)
    && (chunks == [] ==> block == 0)
    && (block > 0 ==> exists u <- AllUnits(files) :: StoredAt(log, contract, Keccak256(u.data), block))
  }

  lemma {:induction false} PrintsRight(fmt: Format, log: seq<StoreEvent>, contract: Address, files: seq<FileEntry>,
                                       named: bool, state: State)
    requires Numbered(files) && StateOk(fmt, log, contract, files, named, state)
    ensures Prints(log, contract, files, state.chunks, PrintedBlock(state))
  {
    PrintedBlockIsAChunks(fmt, log, contract, files, named, state);
  }

  lemma {:induction false} NothingRemains(units: seq<UploadUnit>, keys: seq<(nat, nat)>)
    ensures Remaining(units, keys) == [] <==> forall u <- units :: u.Key() in keys
  {
    if Remaining(units, keys) == [] {
      forall u | u in units
        ensures u.Key() in keys
      {
        RemainingMembers(units, keys, u);
      }
    } else {
      var u := Remaining(units, keys)[0];
      RemainingMembers(units, keys, u);
    }
  }

  ghost predicate StillStuck(files: seq<FileEntry>, saved: SavedFile, outcome: Outcome) {
    Stuck(files, saved) && !outcome.Completed? && !outcome.AlreadyComplete?
  }

  /** Everything after the prompt. */
  method Proceed(fmt: Format, chain: Chain, disk: Disk, me: Address, files: seq<FileEntry>, allUnits: seq<UploadUnit>,
                 batches: seq<Batch>, ghost gasLimit: int, start: State, named: bool, calm: bool)
    returns (outcome: Outcome, block: nat)
    requires fmt.Valid() && chain.Valid() && Numbered(files) && allUnits == AllUnits(files)
    requires DiskOk(fmt, chain.log, chain.self, files, named, disk.saved) && start == StartState(files, disk.saved)
    requires batches == ToBatches(CLI_TARIFF, PlanFor(files, Keys(start.chunks), gasLimit))
    requires start.manifestHash.Some? ==> batches != []
    modifies chain, disk
    ensures chain.Valid() && old(chain.log) <= chain.log
    ensures DiskOk(fmt, chain.log, chain.self, files, named, disk.saved)
    ensures OnlyAdds(old(chain.manifests), chain.manifests, me,
                     GoodManifests(fmt, chain.log, chain.self, files, named))
    ensures outcome.Completed? || outcome.Refused? || outcome.Crashed? || outcome.BatchFailed?
    ensures calm ==> outcome.Completed? || outcome.Refused?
    ensures outcome.Completed? ==> RecordedManifest(disk.saved).Some?
    ensures outcome.Completed? ==> block == PrintedBlock(StartState(files, disk.saved))
    ensures outcome.Completed? ==> Prints(chain.log, chain.self, files, ResumeChunks(files, disk.saved), block)
    ensures Dated(fmt, start) ==> Dated(fmt, StartState(files, disk.saved))
    ensures outcome.Refused? ==> !EachOnce(files, Keys(start.chunks), gasLimit) && Stuck(files, disk.saved)
    ensures outcome.Refused? ==> outcome.missing == |Incomplete(files, ResumeChunks(files, disk.saved), |files|)|
    ensures Stuck(files, old(disk.saved)) ==> StillStuck(files, disk.saved, outcome)
    ensures Stuck(files, old(disk.saved)) ==> OnlyAdds(old(chain.manifests), chain.manifests, me, iset{})
    ensures outcome.Completed? && start.manifestHash.None? ==> EachOnce(files, Keys(start.chunks), gasLimit)
    ensures ListsWhatWasSent(files, old(disk.saved), gasLimit, disk.saved)
    ensures outcome.Completed? || outcome.Refused? ==> ListsWholePlan(files, old(disk.saved), gasLimit, disk.saved)
  {
    ghost var keys, dated, before := Keys(start.chunks), Dated(fmt, start), disk.saved;
    var state, failure := SendBatches(fmt, chain, disk, me, files, batches, gasLimit, start, named, calm, dated);
    StuckStays(fmt, files, before, disk.saved, state, dated);
    if failure.Some? { return failure.value, 0; }
    block := PrintedBlock(state);
    PlanListed(files, before, gasLimit, state, disk.saved);
    PrintsRight(fmt, chain.log, chain.self, files, named, state);
    if state.manifestHash.Some? { return Completed, block; }
    PlanDone(files, keys, gasLimit, state);
    outcome := Finish(fmt, chain, disk, me, files, allUnits, state, named, calm);
    PrintsRight(fmt, chain.log, chain.self, files, named, StartState(files, disk.saved));
    PlanListed(files, before, gasLimit, state, disk.saved);
  }

  /** A chunk listed twice at the start is listed twice ever after. */
  lemma {:induction false} StuckStays(fmt: Format, files: seq<FileEntry>, before: SavedFile, saved: SavedFile,
                                      state: State, dated: bool)
    requires Keeps(fmt, files, saved, state, Keys(ResumeChunks(files, before)), dated)
    requires state.manifestHash == RecordedManifest(before)
    ensures Stuck(files, before) ==> Stuck(files, saved)
    ensures Stuck(files, before) ==> !OnceEach(Keys(ResumeChunks(files, saved)), AllUnits(files))
  {
    if Stuck(files, before) {
      DoubledGrows(files, Keys(ResumeChunks(files, before)), Keys(ResumeChunks(files, saved)));
    }
  }

  /** What the count check will find after the whole plan. */
  lemma {:induction false} PlanDone(files: seq<FileEntry>, keys: seq<(nat, nat)>, gasLimit: int, state: State)
    requires Numbered(files) && BigOnesAtMostOnce(keys, AllUnits(files))
    requires Confirms(files, keys, gasLimit, |PlanFor(files, keys, gasLimit)|, state)
    ensures BigOnesOnce(Keys(state.chunks), AllUnits(files))
    ensures OnceEach(Keys(state.chunks), AllUnits(files)) <==> EachOnce(files, keys, gasLimit)
    ensures OnceEach(Keys(state.chunks), AllUnits(files)) || Doubled(files, Keys(state.chunks))
  {
    var plan := PlanFor(files, keys, gasLimit);
    assert plan[..|plan|] == plan;
    FinishedPlan(files, keys, gasLimit);
    UnfinishedMeansDoubled(files, keys, gasLimit);
  }

  /** The count check, then the manifest. */
  method Finish(fmt: Format, chain: Chain, disk: Disk, me: Address, files: seq<FileEntry>, allUnits: seq<UploadUnit>,
                state: State, named: bool, calm: bool) returns (outcome: Outcome)
    requires fmt.Valid() && chain.Valid() && Numbered(files) && allUnits == AllUnits(files)
    requires DiskOk(fmt, chain.log, chain.self, files, named, disk.saved) && state == StartState(files, disk.saved)
    requires BigOnesOnce(Keys(state.chunks), AllUnits(files))
    modifies chain, disk
    ensures chain.Valid() && old(chain.log) <= chain.log
    ensures DiskOk(fmt, chain.log, chain.self, files, named, disk.saved)
    ensures OnlyAdds(old(chain.manifests), chain.manifests, me,
                     GoodManifests(fmt, chain.log, chain.self, files, named))
    ensures outcome.Refused? <==> !OnceEach(Keys(state.chunks), AllUnits(files))
    ensures outcome.Refused? ==> disk.saved == old(disk.saved) && chain.manifests == old(chain.manifests)
    ensures outcome.Refused? ==> outcome.missing == |Incomplete(files, state.chunks, |files|)|
    ensures outcome.Completed? || outcome.Crashed? || outcome.Refused?
    ensures calm ==> !outcome.Crashed?
    ensures outcome.Completed? ==> RecordedManifest(disk.saved).Some?
    ensures ResumeChunks(files, disk.saved) == state.chunks
    ensures Dated(fmt, state) ==> Dated(fmt, StartState(files, disk.saved))
  {
    AllCountsMatchExactly(chain.log, chain.self, files, state.chunks);
    NoMismatches(files, state.chunks, |files|);
    MismatchesExactly(files, state.chunks, |files|);
    var entries, missing := AssembleEntries(files, allUnits, state.chunks);
    if missing > 0 { return Refused(missing); }
    forall i | 0 <= i < |files|
      ensures entries[i] == AssembledEntry(files, state.chunks, i)
    {
      AssembledAt(files, state.chunks, |files|, i);
    }
    outcome := StoreTheManifest(fmt, chain, disk, me, files, entries, state, named, calm);
  }

  /** The manifest transaction. A crash after it leaves a good manifest on
      chain that the state file does not know of. */
  method StoreTheManifest(fmt: Format, chain: Chain, disk: Disk, me: Address, files: seq<FileEntry>,
                          entries: seq<ManifestEntry>, state: State, named: bool, calm: bool)
    returns (outcome: Outcome)
    requires fmt.Valid() && chain.Valid() && Numbered(files)
    requires DiskOk(fmt, chain.log, chain.self, files, named, disk.saved) && state == StartState(files, disk.saved)
    requires OnceEach(Keys(state.chunks), AllUnits(files))
    requires |entries| == |files|
    requires forall i :: 0 <= i < |files| ==>
               CountMatches(files, state.chunks, i) && entries[i] == AssembledEntry(files, state.chunks, i)
    modifies chain, disk
    ensures chain.Valid() && old(chain.log) <= chain.log
    ensures DiskOk(fmt, chain.log, chain.self, files, named, disk.saved)
    ensures OnlyAdds(old(chain.manifests), chain.manifests, me,
                     GoodManifests(fmt, chain.log, chain.self, files, named))
    ensures outcome.Completed? || outcome.Crashed?
    ensures calm ==> outcome.Completed?
    ensures outcome.Completed? ==> RecordedManifest(disk.saved).Some?
    ensures ResumeChunks(files, disk.saved) == state.chunks
    ensures Dated(fmt, state) ==> Dated(fmt, StartState(files, disk.saved))
  {
    var _, manifestGzipped := BuildManifest(fmt, entries, named);
    chain.OtherTraffic(me);
    DiskOkForever(fmt, old(chain.log), chain.log, chain.self, files, named, disk.saved);
    if !calm {
      if * { return Crashed; }
    }
    ghost var before := chain.log;
    var hash := chain.StoreManifest(me, manifestGzipped);
    assert Events(chain.height, chain.self, [manifestGzipped])[0] in chain.log;
    DiskOkForever(fmt, before, chain.log, chain.self, files, named, disk.saved);
    StoredManifestReproduces(fmt, chain.log, chain.self, files, state.chunks, entries, named, hash);
    if !calm {
      if * { return Crashed; }
    }
    var finished := state.(manifestHash := Some(hash));
    if Dated(fmt, state) {
      ManifestIsDated(fmt, files, state.chunks, entries, named, hash);
    }
    SavableState(fmt, chain.log, chain.self, files, named, finished);
    disk.Save(finished);
    outcome := Completed;
  }

  lemma {:induction false} ManifestIsDated(fmt: Format, files: seq<FileEntry>, chunks: seq<ConfirmedChunk>,
                                           entries: seq<ManifestEntry>, named: bool, hash: Hash)
    requires fmt.Valid() && |entries| == |files| && forall c <- chunks :: c.block > 0
    requires forall i :: 0 <= i < |files| ==> entries[i] == AssembledEntry(files, chunks, i)
    requires forall e <- entries :: e.chunks != []
    requires hash == Keccak256(fmt.gzip(fmt.stringify(
               Entries(seq(|entries|, i requires 0 <= i < |entries| => Output(entries[i], named))))))
    ensures DatedManifest(fmt, hash)
  {
    var m := ParseManifest(fmt.parse(fmt.MaybeGunzip(hash.preimage)));
    if entries == [] {
      assert fmt.gunzip(hash.preimage).Some?;
    } else {
      ParseUndoesBuild(fmt, entries, named, 0);
    }
    forall i | 0 <= i < |entries|
      ensures forall ref <- Parts(m.value[i]) :: ref.block > 0
    {
      ParseUndoesBuild(fmt, entries, named, i);
      EntryIsDated(files, chunks, i);
    }
  }

  lemma {:induction false} EntryIsDated(files: seq<FileEntry>, chunks: seq<ConfirmedChunk>, i: nat)
    requires i < |files| && forall c <- chunks :: c.block > 0
    ensures forall ref <- AssembledEntry(files, chunks, i).chunks :: ref.block > 0
  {
    var sorted := SortChunks(FileChunks(chunks, i));
    SortPermutes(FileChunks(chunks, i));
    FileChunksMembers(chunks, i);
    forall k | 0 <= k < |sorted|
      ensures sorted[k].block > 0
    {
      assert sorted[k] in multiset(FileChunks(chunks, i));
    }
  }

  // ---------- Any number of runs ----------

  /** Over any sequence of runs, with other people's traffic and faults
      anywhere, every manifest `me` stores reproduces the files, and so does
      the one the state file names. */
  method Lifetime(fmt: Format, chain: Chain, disk: Disk, me: Address, files: seq<FileEntry>,
                  deploy: bool, gasLimits: seq<int>, confirms: seq<bool>)
    requires fmt.Valid() && chain.Valid() && Numbered(files) && |gasLimits| == |confirms|
    requires DiskOk(fmt, chain.log, chain.self, files, deploy, disk.saved)
    modifies chain, disk
    ensures chain.Valid() && old(chain.log) <= chain.log
    ensures OnlyAdds(old(chain.manifests), chain.manifests, me,
                     GoodManifests(fmt, chain.log, chain.self, files, deploy))
    ensures RecordedManifest(disk.saved).Some? ==>
              RecordedManifest(disk.saved).value in GoodManifests(fmt, chain.log, chain.self, files, deploy)
  {
    for k := 0 to |gasLimits|
      invariant chain.Valid() && old(chain.log) <= chain.log
      invariant DiskOk(fmt, chain.log, chain.self, files, deploy, disk.saved)
      invariant OnlyAdds(old(chain.manifests), chain.manifests, me,
                         GoodManifests(fmt, chain.log, chain.self, files, deploy))
    {
      ghost var before, registered := chain.log, chain.manifests;
      var _, _ := Run(fmt, chain, disk, me, files, gasLimits[k], deploy, confirms[k], false);
      forall h | h in GoodManifests(fmt, before, chain.self, files, deploy)
        ensures h in GoodManifests(fmt, chain.log, chain.self, files, deploy)
      {
        ReproducesForever(fmt, before, chain.log, chain.self, h, Names(files, deploy), Contents(files));
      }
    }
  }

  /** What a run on a stuck disk comes to. */
  predicate InVain(outcome: Outcome, calm: bool) {
    && !outcome.Completed? && !outcome.AlreadyComplete?
    && (calm ==> outcome.Refused? || outcome.Unreadable?)
  }

  /** After a refusal, "Re-run to retry" is in vain: however often the same files
      are tried again on that disk, no run completes and nothing is stored as a
      manifest; one without faults refuses again. */
  method RetryForever(fmt: Format, chain: Chain, disk: Disk, me: Address, files: seq<FileEntry>,
                      deploy: bool, gasLimits: seq<int>, calms: seq<bool>) returns (outcomes: seq<Outcome>)
    requires fmt.Valid() && chain.Valid() && Numbered(files) && files != [] && |gasLimits| == |calms|
    requires DiskOk(fmt, chain.log, chain.self, files, deploy, disk.saved) && Stuck(files, disk.saved)
    modifies chain, disk
    ensures Stuck(files, disk.saved)
    ensures OnlyAdds(old(chain.manifests), chain.manifests, me, iset{})
    ensures |outcomes| == |gasLimits| && forall k :: 0 <= k < |outcomes| ==> InVain(outcomes[k], calms[k])
  {
    outcomes := [];
    for k := 0 to |gasLimits|
      invariant chain.Valid() && DiskOk(fmt, chain.log, chain.self, files, deploy, disk.saved)
      invariant Stuck(files, disk.saved)
      invariant OnlyAdds(old(chain.manifests), chain.manifests, me, iset{})
      invariant |outcomes| == k && forall j :: 0 <= j < k ==> InVain(outcomes[j], calms[j])
    {
      ghost var registered := chain.manifests;
      var outcome := RetryOnce(fmt, chain, disk, me, files, deploy, gasLimits[k], calms[k]);
      NothingAdded(old(chain.manifests), registered, chain.manifests, me);
      outcomes := outcomes + [outcome];
    }
  }

  method RetryOnce(fmt: Format, chain: Chain, disk: Disk, me: Address, files: seq<FileEntry>,
                   deploy: bool, gasLimit: int, calm: bool) returns (outcome: Outcome)
    requires fmt.Valid() && chain.Valid() && Numbered(files) && files != []
    requires DiskOk(fmt, chain.log, chain.self, files, deploy, disk.saved) && Stuck(files, disk.saved)
    modifies chain, disk
    ensures chain.Valid() && DiskOk(fmt, chain.log, chain.self, files, deploy, disk.saved) && Stuck(files, disk.saved)
    ensures OnlyAdds(old(chain.manifests), chain.manifests, me, iset{})
    ensures InVain(outcome, calm)
  {
    var block;
    outcome, block := Run(fmt, chain, disk, me, files, gasLimit, deploy, true, calm);
  }
}
