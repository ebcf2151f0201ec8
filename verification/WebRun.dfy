// web/src/lib/evmfs.ts: `uploadFiles`, with its retries and its saved progress.
// `if *` is a fault: a rejected transaction, a lost receipt, or a closed tab.
module WebRun {
  import opened Evmfs
  import opened Batching
  import opened Packing
  import opened Manifests
  import opened UploadState
  import opened Assembly
  import opened Upload
  import opened UploadRun
  import opened WebState
  import opened WebUpload

  datatype WebOutcome = Done(manifestHash: Hash, block: nat) | MissingChunks | BatchGaveUp | ManifestFailed | Closed

  /** The browser's local storage. */
  class Browser {
    var progress: Option<seq<ConfirmedChunk>>

    constructor ()
      ensures progress == None
    {
      progress := None;
    }

    method SaveProgress(confirmed: seq<ConfirmedChunk>)
      modifies this
      ensures progress == Some(confirmed)
    {
      progress := Some(confirmed);
    }

    method ClearProgress()
      modifies this
      ensures progress == None
    {
      progress := None;
    }
  }

  ghost predicate ProgressOk(log: seq<StoreEvent>, contract: Address, files: seq<FileEntry>,
                             progress: Option<seq<ConfirmedChunk>>) {
    progress.Some? ==> AllRight(log, contract, files, progress.value) && forall c <- progress.value :: c.block > 0
  }

  lemma {:induction false} GrowthKeepsTruth(log: seq<StoreEvent>, later: seq<StoreEvent>, contract: Address,
                                            files: seq<FileEntry>, progress: Option<seq<ConfirmedChunk>>,
                                            confirmed: Confirmed)
    requires log <= later && ProgressOk(log, contract, files, progress) && MapRight(log, contract, files, confirmed)
    ensures ProgressOk(later, contract, files, progress) && MapRight(later, contract, files, confirmed)
  {
  }

  lemma {:induction false} ListIsRight(log: seq<StoreEvent>, contract: Address, files: seq<FileEntry>,
                                       confirmed: Confirmed, list: seq<ConfirmedChunk>)
    requires MapRight(log, contract, files, confirmed) && ListsValues(list, confirmed)
    ensures AllRight(log, contract, files, list) && forall c <- list :: c.block > 0
  {
  }

  lemma {:induction false} RecordedIsRight(log: seq<StoreEvent>, contract: Address, files: seq<FileEntry>,
                                           before: Confirmed, after: Confirmed, credits: seq<ConfirmedChunk>)
    requires MapRight(log, contract, files, before) && AllRight(log, contract, files, credits)
    requires forall c <- credits :: c.block > 0
    requires Keyed(after)
    requires forall key <- after :: (key in before && after[key] == before[key]) || after[key] in credits
    ensures MapRight(log, contract, files, after)
  {
  }

  // ---------- One batch ----------

  /** Up to three attempts at one batch. */
  method SendBatch(chain: Chain, browser: Browser, me: Address, files: seq<FileEntry>, units: seq<UploadUnit>,
                   before: Confirmed, calm: bool)
    returns (confirmed: Confirmed, failure: Option<WebOutcome>, ghost attempts: nat)
    requires chain.Valid() && Numbered(files)
    requires units != [] && forall u <- units :: u in AllUnits(files)
    requires MapRight(chain.log, chain.self, files, before)
    requires ProgressOk(chain.log, chain.self, files, browser.progress)
    modifies chain, browser
    ensures chain.Valid() && old(chain.log) <= chain.log
    ensures OnlyAdds(old(chain.manifests), chain.manifests, me, iset{})
    ensures MapRight(chain.log, chain.self, files, confirmed)
    ensures ProgressOk(chain.log, chain.self, files, browser.progress)
    ensures failure.None? ==> confirmed.Keys == before.Keys + KeySet(BatchKeys(units))
    ensures failure.Some? ==> failure.value.BatchGaveUp? || failure.value.Closed?
    ensures calm ==> failure.None?
    ensures if failure.None? then browser.progress.Some? && ListsValues(browser.progress.value, confirmed)
            else confirmed == before && browser.progress == old(browser.progress)
    ensures 1 <= attempts <= 3
    ensures failure == Some(BatchGaveUp) ==> attempts == 3
  {
    confirmed, attempts := before, 0;
    for attempt := 1 to BATCH_RETRIES + 1
      invariant chain.Valid() && old(chain.log) <= chain.log
      invariant OnlyAdds(old(chain.manifests), chain.manifests, me, iset{})
      invariant confirmed == before && MapRight(chain.log, chain.self, files, before)
      invariant ProgressOk(chain.log, chain.self, files, browser.progress)
      invariant calm ==> attempt == 1
      invariant attempts == attempt - 1 && browser.progress == old(browser.progress)
    {
      attempts := attempt;
      ghost var log := chain.log;
      var receipt := Submit(chain, units, me, calm);
      GrowthKeepsTruth(log, chain.log, chain.self, files, browser.progress, before);
      if !calm {
        if * { return confirmed, Some(Closed), attempts; }
      }
      if receipt.Some? {
        confirmed := RecordInto(units, receipt.value, chain.self, before);
        CreditsAreRight(chain.log, chain.self, files, units, receipt.value.block);
        RecordedIsRight(chain.log, chain.self, files, before, confirmed, Credits(units, receipt.value.block));
        var list := Values(confirmed);
        ListIsRight(chain.log, chain.self, files, confirmed, list);
        browser.SaveProgress(list);
        return confirmed, None, attempts;
      }
    }
    failure := Some(BatchGaveUp);
  }

  ghost function WebPlan(files: seq<FileEntry>, gasLimit: int): seq<seq<UploadUnit>> {
    Pack(WEB_TARIFF, gasLimit, AllUnits(files))
  }

  /** In gas and bytes: each planned transaction of several chunks keeps to both
      limits, and with the first chunk of the next one it would not have. */
  lemma {:induction false} WebPlanInNumbers(files: seq<FileEntry>, gasLimit: int, k: nat)
    requires k < |WebPlan(files, gasLimit)|
    ensures var plan := WebPlan(files, gasLimit);
            && (|plan[k]| > 1 ==>
                  31_000 + 26 * |Join(plan[k])| + 5_000 * |plan[k]| <= gasLimit && |Join(plan[k])| <= 100_000)
            && (k + 1 < |plan| ==>
                  && plan[k + 1] != []
                  && var more := plan[k] + [plan[k + 1][0]];
                     31_000 + 26 * |Join(more)| + 5_000 * |more| > gasLimit || |Join(more)| > 100_000)
  {
    var plan := WebPlan(files, gasLimit);
    PackIsGreedy(WEB_TARIFF, gasLimit, AllUnits(files));
    assert plan[k] in plan;
    LimitsExactly(gasLimit, plan[k]);
    if k + 1 < |plan| {
      assert Blocked(WEB_TARIFF, gasLimit, plan[k], plan[k + 1]);
      LimitsExactly(gasLimit, plan[k] + [plan[k + 1][0]]);
    }
  }

  lemma {:induction false} WebPlanIsSound(files: seq<FileEntry>, gasLimit: int)
    requires Numbered(files)
    ensures Flatten(WebPlan(files, gasLimit)) == AllUnits(files) && DistinctKeys(AllUnits(files))
    ensures forall g <- WebPlan(files, gasLimit) ::
              g != [] && ByteSize(g) <= MAX_BATCH_BYTES && forall u <- g :: u in AllUnits(files)
  {
    PackLosesNothing(WEB_TARIFF, gasLimit, AllUnits(files));
    PackIsGreedy(WEB_TARIFF, gasLimit, AllUnits(files));
    UnitKeysDistinct(files);
    forall g | g in WebPlan(files, gasLimit)
      ensures g != [] && ByteSize(g) <= MAX_BATCH_BYTES && forall u <- g :: u in AllUnits(files)
    {
      BatchBytes(WEB_TARIFF, gasLimit, files, AllUnits(files), g);
      forall u | u in g
        ensures u in AllUnits(files)
      {
        PackedUnitsAreUnits(WEB_TARIFF, gasLimit, AllUnits(files), g, u);
      }
    }
  }

  /** The batch loop: batches with nothing new are skipped. */
  method SendWebBatches(chain: Chain, browser: Browser, me: Address, files: seq<FileEntry>, batches: seq<Batch>,
                        ghost gasLimit: int, start: Confirmed, calm: bool)
    returns (confirmed: Confirmed, failure: Option<WebOutcome>)
    requires chain.Valid() && Numbered(files)
    requires batches == ToBatches(WEB_TARIFF, WebPlan(files, gasLimit))
    requires MapRight(chain.log, chain.self, files, start)
    requires ProgressOk(chain.log, chain.self, files, browser.progress)
    modifies chain, browser
    ensures chain.Valid() && old(chain.log) <= chain.log
    ensures OnlyAdds(old(chain.manifests), chain.manifests, me, iset{})
    ensures MapRight(chain.log, chain.self, files, confirmed)
    ensures ProgressOk(chain.log, chain.self, files, browser.progress)
    ensures failure.None? ==> KeysAfter(WebPlan(files, gasLimit), start.Keys, confirmed.Keys, |batches|)
    ensures || (confirmed == start && browser.progress == old(browser.progress))
            || (browser.progress.Some? && ListsValues(browser.progress.value, confirmed))
    ensures AllPresent(start.Keys, AllUnits(files)) ==>
              && failure.None? && confirmed == start
              && chain.log == old(chain.log) && browser.progress == old(browser.progress)
    ensures failure.Some? ==> failure.value.BatchGaveUp? || failure.value.Closed?
    ensures calm ==> failure.None?
  {
    ghost var plan := WebPlan(files, gasLimit);
    WebPlanIsSound(files, gasLimit);
    confirmed, failure := start, None;
    for i := 0 to |batches|
      invariant chain.Valid() && old(chain.log) <= chain.log
      invariant OnlyAdds(old(chain.manifests), chain.manifests, me, iset{})
      invariant MapRight(chain.log, chain.self, files, confirmed)
      invariant ProgressOk(chain.log, chain.self, files, browser.progress)
      invariant KeysAfter(plan, start.Keys, confirmed.Keys, i)
      invariant failure.None?
      invariant || (confirmed == start && browser.progress == old(browser.progress))
                || (browser.progress.Some? && ListsValues(browser.progress.value, confirmed))
      invariant AllPresent(start.Keys, AllUnits(files)) ==>
                  confirmed == start && chain.log == old(chain.log) && browser.progress == old(browser.progress)
    {
      var units := batches[i].units;
      assert units == plan[i] && plan[i] in plan;
      if forall u <- units :: u.Key() in confirmed {
        AfterSkipping(plan, start.Keys, confirmed.Keys, i);
      } else {
        AfterSending(plan, start.Keys, confirmed.Keys, i);
        ghost var attempts, registered := 0, chain.manifests;
        confirmed, failure, attempts := SendBatch(chain, browser, me, files, units, confirmed, calm);
        NothingAdded(old(chain.manifests), registered, chain.manifests, me);
        if failure.Some? { return; }
      }
    }
  }

  // ---------- The whole upload ----------

  ghost function GoodWebManifests(fmt: Format, log: seq<StoreEvent>, contract: Address,
                                  files: seq<FileEntry>, filenames: map<nat, string>): iset<Hash> {
    iset h | Reproduces(fmt, log, contract, h, WebNames(filenames, |files|), Contents(files))
  }

  ghost predicate LastSafe(files: seq<FileEntry>, plan: seq<seq<UploadUnit>>, saved: set<(nat, nat)>, i: nat)
    requires i < |files|
  {
    UnitSafe(plan, saved, LastChunk(files[i]))
  }

  /** Some file has one chunk only, and that is not safe. */
  ghost predicate FileLost(files: seq<FileEntry>, plan: seq<seq<UploadUnit>>, saved: set<(nat, nat)>) {
    exists i :: 0 <= i < |files| && NumChunks(|files[i].compressed|) == 1 && !LastSafe(files, plan, saved, i)
  }

  /** Each file, or the file without its last chunk if that is not safe. */
  ghost function Surviving(files: seq<FileEntry>, plan: seq<seq<UploadUnit>>, saved: set<(nat, nat)>): seq<Bytes> {
    seq(|files|, i requires 0 <= i < |files| =>
      if LastSafe(files, plan, saved, i) then files[i].compressed else WithoutLast(files[i]))
  }

  /** A file's last chunk is in the list iff it was safe. */
  ghost predicate LastsAgree(files: seq<FileEntry>, list: seq<ConfirmedChunk>, plan: seq<seq<UploadUnit>>,
                             saved: set<(nat, nat)>) {
    forall i :: 0 <= i < |files| ==> (HasLast(files, list, i) <==> LastSafe(files, plan, saved, i))
  }

  /** All batches confirmed: what is in the list. */
  lemma {:induction false} ListFate(log: seq<StoreEvent>, contract: Address, files: seq<FileEntry>, gasLimit: int,
                                    saved: set<(nat, nat)>, confirmed: Confirmed, list: seq<ConfirmedChunk>)
    requires Numbered(files) && MapRight(log, contract, files, confirmed) && ListsValues(list, confirmed)
    requires KeysAfter(WebPlan(files, gasLimit), saved, confirmed.Keys, |WebPlan(files, gasLimit)|)
    ensures NearlyComplete(log, contract, files, list) && KeySet(Keys(list)) == confirmed.Keys
    ensures LastsAgree(files, list, WebPlan(files, gasLimit), saved)
  {
    var plan := WebPlan(files, gasLimit);
    WebPlanIsSound(files, gasLimit);
    forall u | u in AllUnits(files) && !u.IsLast()
      ensures u.Key() in confirmed
    {
      FullChunksConfirmed(files, plan, saved, confirmed.Keys, u);
    }
    ListIsNearlyComplete(log, contract, files, confirmed, list);
    forall i | 0 <= i < |files|
      ensures HasLast(files, list, i) <==> LastSafe(files, plan, saved, i)
    {
      LastChunkIsUnit(files, i);
      UnitFinishedExactly(plan, saved, confirmed.Keys, LastChunk(files[i]));
      assert HasLast(files, list, i) <==> LastChunk(files[i]).Key() in KeySet(Keys(list));
    }
  }

  ghost predicate SomeEmpty(files: seq<FileEntry>, list: seq<ConfirmedChunk>) {
    exists i :: 0 <= i < |files| && FileChunks(list, i) == []
  }

  /** A file has no chunk at all iff its only chunk is not safe. */
  lemma {:induction false} EmptyExactly(log: seq<StoreEvent>, contract: Address, files: seq<FileEntry>,
                                        plan: seq<seq<UploadUnit>>, saved: set<(nat, nat)>, list: seq<ConfirmedChunk>)
    requires Numbered(files) && NearlyComplete(log, contract, files, list) && LastsAgree(files, list, plan, saved)
    ensures SomeEmpty(files, list) <==> FileLost(files, plan, saved)
  {
    forall i | 0 <= i < |files|
      ensures FileChunks(list, i) == []
         <==> NumChunks(|files[i].compressed|) == 1 && !LastSafe(files, plan, saved, i)
    {
      ChunkCount(log, contract, files, list, i);
      assert |FileChunks(list, i)| == 0 <==> FileChunks(list, i) == [];
    }
    if i :| 0 <= i < |files| && FileChunks(list, i) == [] {
      assert !LastSafe(files, plan, saved, i);
    }
    if FileLost(files, plan, saved) {
      var i :| 0 <= i < |files| && NumChunks(|files[i].compressed|) == 1 && !LastSafe(files, plan, saved, i);
      assert FileChunks(list, i) == [];
    }
  }

  lemma {:induction false} CompleteExactly(log: seq<StoreEvent>, contract: Address, files: seq<FileEntry>,
                                           plan: seq<seq<UploadUnit>>, saved: set<(nat, nat)>,
                                           list: seq<ConfirmedChunk>)
    requires Numbered(files) && NearlyComplete(log, contract, files, list)
    requires Flatten(plan) == AllUnits(files) && DistinctKeys(AllUnits(files))
    requires KeysAfter(plan, saved, KeySet(Keys(list)), |plan|)
    ensures EveryLastPresent(files, list) <==> SafePlan(plan, saved)
  {
    LastsPresentExactly(log, contract, files, list);
    FinishedExactly(plan, saved, KeySet(Keys(list)));
  }

  lemma {:induction false} ListedIsSurviving(files: seq<FileEntry>, list: seq<ConfirmedChunk>,
                                             plan: seq<seq<UploadUnit>>, saved: set<(nat, nat)>)
    requires LastsAgree(files, list, plan, saved)
    ensures Listed(files, list) == Surviving(files, plan, saved)
  {
  }

  /** What the manifest will be worth. */
  lemma {:induction false} ManifestFate(log: seq<StoreEvent>, contract: Address, files: seq<FileEntry>, gasLimit: int,
                                        saved: set<(nat, nat)>, confirmed: Confirmed, list: seq<ConfirmedChunk>)
    requires Numbered(files) && MapRight(log, contract, files, confirmed) && ListsValues(list, confirmed)
    requires KeysAfter(WebPlan(files, gasLimit), saved, confirmed.Keys, |WebPlan(files, gasLimit)|)
    ensures NearlyComplete(log, contract, files, list)
    ensures EveryLastPresent(files, list) <==> SafePlan(WebPlan(files, gasLimit), saved)
    ensures Listed(files, list) == Surviving(files, WebPlan(files, gasLimit), saved)
    ensures SomeEmpty(files, list) <==> FileLost(files, WebPlan(files, gasLimit), saved)
    ensures EveryLastPresent(files, list) ==> !SomeEmpty(files, list)
  {
    var plan := WebPlan(files, gasLimit);
    WebPlanIsSound(files, gasLimit);
    ListFate(log, contract, files, gasLimit, saved, confirmed, list);
    CompleteExactly(log, contract, files, plan, saved, list);
    ListedIsSurviving(files, list, plan, saved);
    EmptyExactly(log, contract, files, plan, saved, list);
  }

  /** `uploadFiles`. It throws for missing chunks iff a file's only chunk was not
      safe; else its manifest gives each file, or the file without its last
      chunk if that was not safe. Nothing in the code checks the latter. */
  method UploadFiles(fmt: Format, chain: Chain, browser: Browser, me: Address, files: seq<FileEntry>,
                     batches: seq<Batch>, ghost gasLimit: int, savedProgress: Option<seq<ConfirmedChunk>>,
                     filenames: map<nat, string>, calm: bool)
    returns (outcome: WebOutcome)
    requires fmt.Valid() && chain.Valid() && Numbered(files)
    requires batches == ToBatches(WEB_TARIFF, WebPlan(files, gasLimit))
    requires ProgressOk(chain.log, chain.self, files, savedProgress)
    requires ProgressOk(chain.log, chain.self, files, browser.progress)
    modifies chain, browser
    ensures chain.Valid() && old(chain.log) <= chain.log
    ensures ProgressOk(chain.log, chain.self, files, browser.progress)
    ensures outcome.Done? ==> Published(fmt, chain.log, chain.self, outcome) && browser.progress == None
    ensures outcome.Done? ==>
              Reproduces(fmt, chain.log, chain.self, outcome.manifestHash, WebNames(filenames, |files|),
                         Surviving(files, WebPlan(files, gasLimit), SavedKeys(savedProgress)))
    ensures outcome.Done? ==>
              (outcome.manifestHash in GoodWebManifests(fmt, chain.log, chain.self, files, filenames)
               <==> SafePlan(WebPlan(files, gasLimit), SavedKeys(savedProgress)))
    ensures SafePlan(WebPlan(files, gasLimit), SavedKeys(savedProgress))
        ==> OnlyAdds(old(chain.manifests), chain.manifests, me,
                     GoodWebManifests(fmt, chain.log, chain.self, files, filenames))
    ensures outcome.MissingChunks? ==> FileLost(files, WebPlan(files, gasLimit), SavedKeys(savedProgress))
    ensures outcome.Done? || outcome.ManifestFailed?
        ==> !FileLost(files, WebPlan(files, gasLimit), SavedKeys(savedProgress))
    ensures outcome.MissingChunks? ==> !SafePlan(WebPlan(files, gasLimit), SavedKeys(savedProgress))
    ensures calm ==> outcome.Done? || outcome.MissingChunks?
  {
    ghost var plan, saved := WebPlan(files, gasLimit), SavedKeys(savedProgress);
    var confirmed: Confirmed := map[];
    if savedProgress.Some? {
      confirmed := Resume(savedProgress.value);
    }
    var failure: Option<WebOutcome>;
    confirmed, failure := SendWebBatches(chain, browser, me, files, batches, gasLimit, confirmed, calm);
    if failure.Some? { return failure.value; }

    var confirmedList := Values(confirmed);
    ManifestFate(chain.log, chain.self, files, gasLimit, saved, confirmed, confirmedList);
    ListIsRight(chain.log, chain.self, files, confirmed, confirmedList);
    var entries := BuildManifestEntries(|files|, confirmedList, filenames);
    if entries.None? { return MissingChunks; }
    outcome := StoreWebManifest(fmt, chain, browser, me, files, confirmedList, filenames, entries.value, calm);
  }

  ghost function SavedKeys(savedProgress: Option<seq<ConfirmedChunk>>): set<(nat, nat)> {
    match savedProgress
    case None => {}
    case Some(saved) => KeySet(Keys(saved))
  }

  /** The manifest is at the block that is printed with it, and all its chunks
      have their blocks recorded. */
  ghost predicate Published(fmt: Format, log: seq<StoreEvent>, contract: Address, outcome: WebOutcome)
    requires outcome.Done?
  {
    && outcome.block > 0 && StoredAt(log, contract, outcome.manifestHash, outcome.block)
    && DatedManifest(fmt, outcome.manifestHash)
  }

  /** The manifest transaction. */
  method StoreWebManifest(fmt: Format, chain: Chain, browser: Browser, me: Address, files: seq<FileEntry>,
                          list: seq<ConfirmedChunk>, filenames: map<nat, string>, entries: seq<OutputEntry>, calm: bool)
    returns (outcome: WebOutcome)
    requires fmt.Valid() && chain.Valid() && Numbered(files)
    requires NearlyComplete(chain.log, chain.self, files, list) && forall c <- list :: c.block > 0
    requires entries == WebOutputs(list, |files|, filenames)
    requires forall i :: 0 <= i < |files| ==> FileChunks(list, i) != []
    requires ProgressOk(chain.log, chain.self, files, browser.progress)
    modifies chain, browser
    ensures chain.Valid() && old(chain.log) <= chain.log
    ensures ProgressOk(chain.log, chain.self, files, browser.progress)
    ensures outcome.Done? || outcome.ManifestFailed? || outcome.Closed?
    ensures calm ==> outcome.Done?
    ensures outcome.Done? ==> Published(fmt, chain.log, chain.self, outcome) && browser.progress == None
    ensures outcome.Done? ==>
              Reproduces(fmt, chain.log, chain.self, outcome.manifestHash, WebNames(filenames, |files|),
                         Listed(files, list))
    ensures outcome.Done? ==>
              (outcome.manifestHash in GoodWebManifests(fmt, chain.log, chain.self, files, filenames)
               <==> EveryLastPresent(files, list))
    ensures EveryLastPresent(files, list)
        ==> OnlyAdds(old(chain.manifests), chain.manifests, me,
                     GoodWebManifests(fmt, chain.log, chain.self, files, filenames))
  {
    var manifestBytes := fmt.gzip(fmt.stringify(Entries(entries)));
    chain.OtherTraffic(me);
    StillNearlyComplete(old(chain.log), chain.log, chain.self, files, browser.progress, list);
    if !calm {
      if * { return ManifestFailed; }
      if * { return Closed; }
    }
    ghost var before := chain.log;
    var hash := chain.StoreManifest(me, manifestBytes);
    var block := chain.height;
    assert Events(block, chain.self, [manifestBytes])[0] in chain.log;
    StillNearlyComplete(before, chain.log, chain.self, files, browser.progress, list);
    WebManifestExactly(fmt, chain.log, chain.self, files, list, filenames);
    WebManifestGives(fmt, chain.log, chain.self, files, list, filenames);
    WebManifestIsDated(fmt, files, list, filenames);
    if !calm {
      if * { return ManifestFailed; }
    }
    browser.ClearProgress();
    outcome := Done(hash, block);
  }

  lemma {:induction false} WebManifestIsDated(fmt: Format, files: seq<FileEntry>, list: seq<ConfirmedChunk>,
                                              filenames: map<nat, string>)
    requires fmt.Valid() && forall c <- list :: c.block > 0
    requires forall i :: 0 <= i < |files| ==> FileChunks(list, i) != []
    ensures DatedManifest(fmt, WebManifestHash(fmt, list, |files|, filenames))
  {
    WebManifestParses(fmt, files, list, filenames);
    forall i | 0 <= i < |files|
      ensures forall ref <- Parts(Unmarshal(WebOutput(list, i, filenames))) :: ref.block > 0
    {
      WebEntryReads([], 0, files, list, filenames, i);
      EntryIsDated(files, list, i);
    }
  }

  lemma {:induction false} StillNearlyComplete(log: seq<StoreEvent>, later: seq<StoreEvent>, contract: Address,
                                               files: seq<FileEntry>,
                                               progress: Option<seq<ConfirmedChunk>>, list: seq<ConfirmedChunk>)
    requires log <= later && NearlyComplete(log, contract, files, list) && ProgressOk(log, contract, files, progress)
    ensures NearlyComplete(later, contract, files, list) && ProgressOk(later, contract, files, progress)
  {
  }

  // ---------- The condition can fail, and silently ----------

  lemma {:induction false} PackAppend(t: Tariff, gasLimit: int, units: seq<UploadUnit>, u: UploadUnit)
    ensures var groups := Pack(t, gasLimit, units);
            Pack(t, gasLimit, units + [u]) ==
            if groups != [] && WithinLimits(t, gasLimit, groups[|groups| - 1] + [u])
            then groups[..|groups| - 1] + [groups[|groups| - 1] + [u]] else groups + [[u]]
  {
  }

  lemma {:induction false} PairTotals(t: Tariff, u: UploadUnit, v: UploadUnit)
    ensures ByteSize([u, v]) == |u.data| + |v.data|
    ensures UnitGas(t, [u, v]) == EstimateFileGas(t, |u.data|) + EstimateFileGas(t, |v.data|)
  {
    assert [u, v][..1] == [u] && [u][..0] == [];
    assert ByteSize([]) == 0 && UnitGas(t, []) == 0;
    assert ByteSize([u]) == |u.data| && UnitGas(t, [u]) == EstimateFileGas(t, |u.data|);
  }

  lemma {:induction false} PackThree(t: Tariff, gasLimit: int, u: UploadUnit, v: UploadUnit, w: UploadUnit)
    requires |u.data| + |v.data| > MAX_BATCH_BYTES
    requires |v.data| + |w.data| <= MAX_BATCH_BYTES
    requires EMPTY_BATCH_GAS + EstimateFileGas(t, |v.data|) + EstimateFileGas(t, |w.data|) <= gasLimit
    ensures Pack(t, gasLimit, [u, v, w]) == [[u], [v, w]]
  {
    PackAppend(t, gasLimit, [], u);
    assert [] + [u] == [u];
    PackAppend(t, gasLimit, [u], v);
    assert [u] + [v] == [u, v];
    PairTotals(t, u, v);
    PackAppend(t, gasLimit, [u, v], w);
    assert [u, v] + [w] == [u, v, w] && [v] + [w] == [v, w];
    PairTotals(t, v, w);
  }

  lemma {:induction false} KeysOfThree(u: UploadUnit, v: UploadUnit, w: UploadUnit)
    requires v.data == w.data && u.Key() != v.Key() && v.Key() != w.Key()
    ensures PlanKeys([[u], [v, w]]) == [u.Key(), w.Key(), w.Key()]
  {
    var p0 := CreditedIsLast([v, w], 0);
    var p1 := CreditedIsLast([v, w], 1);
    assert !LastOfItsBytes([v, w], 0);
    assert BatchKeys([v, w]) == [w.Key(), w.Key()];
    assert BatchKeys([u]) == [u.Key()];
    assert [[u], [v, w]][..1] == [[u]] && [[u]][..0] == [];
    assert PlanKeys([[u]]) == PlanKeys([]) + BatchKeys([u]);
  }

  lemma {:induction false} UnitsOfLongAndShort(a: FileEntry, b: FileEntry)
    requires |a.compressed| == MAX_BATCH_BYTES + 1 && |b.compressed| <= MAX_BATCH_BYTES
    ensures AllUnits([a, b]) == [Chunk(a, 0), Chunk(a, 1), Chunk(b, 0)]
  {
    assert FileUnits(a) == [Chunk(a, 0), Chunk(a, 1)] && FileUnits(b) == [Chunk(b, 0)];
    assert [a, b][..1] == [a] && [a][..0] == [];
    assert AllUnits([a]) == AllUnits([]) + FileUnits(a);
  }

  /** A file one byte too long for a chunk, and a second file of just that byte. */
  ghost predicate LongAndByte(a: FileEntry, b: FileEntry, gasLimit: int) {
    && a.index == 0 && b.index == 1 && gasLimit >= EMPTY_BATCH_GAS + 2 * EstimateFileGas(WEB_TARIFF, 1)
    && |a.compressed| == MAX_BATCH_BYTES + 1 && b.compressed == [a.compressed[MAX_BATCH_BYTES]]
  }

  lemma {:induction false} PlanOfLongAndByte(a: FileEntry, b: FileEntry, gasLimit: int)
    requires LongAndByte(a, b, gasLimit)
    ensures Chunk(a, 1).data == Chunk(b, 0).data && WithoutLast(a) == a.compressed[..MAX_BATCH_BYTES]
    ensures WebPlan([a, b], gasLimit) == [[Chunk(a, 0)], [Chunk(a, 1), Chunk(b, 0)]]
    ensures LastChunk(a) == Chunk(a, 1) && LastChunk(b) == Chunk(b, 0)
  {
    var u, v, w := Chunk(a, 0), Chunk(a, 1), Chunk(b, 0);
    assert v.data == w.data == b.compressed;
    UnitsOfLongAndShort(a, b);
    PackThree(WEB_TARIFF, gasLimit, u, v, w);
  }

  /** The plan is not safe, no file is lost, and the long file is cut. */
  lemma {:induction false} CutShort(a: FileEntry, b: FileEntry, gasLimit: int)
    requires LongAndByte(a, b, gasLimit)
    ensures PlanKeys(WebPlan([a, b], gasLimit)) == [(0, 0), (1, 0), (1, 0)]
    ensures !SafePlan(WebPlan([a, b], gasLimit), {}) && !FileLost([a, b], WebPlan([a, b], gasLimit), {})
    ensures Surviving([a, b], WebPlan([a, b], gasLimit), {}) == [a.compressed[..MAX_BATCH_BYTES], b.compressed]
  {
    PlanOfLongAndByte(a, b, gasLimit);
    KeysOfThree(Chunk(a, 0), Chunk(a, 1), Chunk(b, 0));
    SafetyOfThree(Chunk(a, 0), Chunk(a, 1), Chunk(b, 0));
    FateOfTwo(a, b, WebPlan([a, b], gasLimit));
  }

  lemma {:induction false} FateOfTwo(a: FileEntry, b: FileEntry, plan: seq<seq<UploadUnit>>)
    requires !UnitSafe(plan, {}, LastChunk(a)) && UnitSafe(plan, {}, LastChunk(b))
    requires NumChunks(|a.compressed|) > 1
    ensures !FileLost([a, b], plan, {}) && Surviving([a, b], plan, {}) == [WithoutLast(a), b.compressed]
  {
    assert !LastSafe([a, b], plan, {}, 0) && LastSafe([a, b], plan, {}, 1);
  }

  lemma {:induction false} SafetyOfThree(u: UploadUnit, v: UploadUnit, w: UploadUnit)
    requires v.data == w.data && u != v && v != w
    ensures !UnitSafe([[u], [v, w]], {}, v) && UnitSafe([[u], [v, w]], {}, w) && !SafePlan([[u], [v, w]], {})
  {
    var plan := [[u], [v, w]];
    assert plan[1] in plan && LastOfItsBytes([v, w], 1) && [v, w][1] == w;
    assert !LastOfItsBytes([v, w], 0) && !SafeBatch(plan[1], {});
    assert forall g <- plan :: g == [u] || g == [v, w];
  }

  /** And so it comes about: nothing fails, the upload reports success, and the
      manifest gives the long file without its last byte. */
  method UploadCutShort(fmt: Format, chain: Chain, browser: Browser, me: Address, a: FileEntry, b: FileEntry,
                        gasLimit: int, filenames: map<nat, string>) returns (outcome: WebOutcome)
    requires LongAndByte(a, b, gasLimit)
    requires fmt.Valid() && chain.Valid() && browser.progress == None
    modifies chain, browser
    ensures outcome.Done?
    ensures Reproduces(fmt, chain.log, chain.self, outcome.manifestHash, WebNames(filenames, 2),
                       [a.compressed[..MAX_BATCH_BYTES], b.compressed])
    ensures outcome.manifestHash !in GoodWebManifests(fmt, chain.log, chain.self, [a, b], filenames)
  {
    var files := [a, b];
    assert |files| == 2 && Numbered(files);
    var units := ExpandFilesToUnits(files);
    var batches := PackBatches(WEB_TARIFF, units, gasLimit);
    CutShort(a, b, gasLimit);
    assert SavedKeys(None) == {};
    outcome := UploadFiles(fmt, chain, browser, me, files, batches, gasLimit, None, filenames, true);
    assert outcome.Done?;
  }
}
