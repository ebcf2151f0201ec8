// From an upload to an HTTP response: the uploaders' guarantees meet the
// gateway's.
module EndToEnd {
  import opened Evmfs
  import opened Batching
  import opened Manifests
  import opened UploadState
  import opened Assembly
  import opened Upload
  import opened UploadRun
  import opened WebUpload
  import opened WebRun
  import opened Decimals
  import opened Lookup
  import opened Resolution
  import opened Gateway

  // ---------- What a good manifest answers ----------

  /** How file i of a manifest with these names is asked for. */
  ghost predicate PathTo(names: seq<string>, i: nat, path: string) {
    && i < |names|
    && ((path == names[i] && path != "" && DistinctNames(names))
        || (path == Decimal(i) && i <= MAX_INT64 && forall name <- names :: name == ""))
  }

  /** The answer is the file the manifest gives under that path, decompressed. */
  lemma {:induction false} SiteFileIsServed(fmt: Format, log: seq<StoreEvent>, contract: Address, hash: Hash,
                                            names: seq<string>, contents: seq<Bytes>, i: nat, path: string)
    requires |names| == |contents| && Reproduces(fmt, log, contract, hash, names, contents)
    requires PathTo(names, i, path)
    ensures ExpectedResponse(fmt, hash, path) == Served(fmt.MaybeGunzip(contents[i]))
  {
    var entries := ManifestOf(fmt, hash).value;
    forall k | 0 <= k < |names|
      ensures entries[k].f == names[k]
    {
      assert Serves(log, contract, entries[k], names[k], contents[k]);
    }
    if path == names[i] && path != "" && DistinctNames(names) {
      NamesResolve(entries, names, i);
    } else {
      forall e | e in entries
        ensures e.f == ""
      {
        var k :| 0 <= k < |entries| && entries[k] == e;
        assert names[k] in names;
      }
      IndicesResolve(entries, i);
    }
    assert Serves(log, contract, entries[i], names[i], contents[i]);
  }

  /** The path under which file i of a site or collection is asked for. */
  ghost predicate PathOf(files: seq<FileEntry>, deploy: bool, i: nat, path: string) {
    && i < |files|
    && if deploy then path == files[i].filename && path != "" && DistinctNames(Names(files, true))
       else path == Decimal(i) && i <= MAX_INT64
  }

  /** A manifest the command line stored answers the path of file i with file i. */
  lemma {:induction false} UploadedFileIsServed(fmt: Format, log: seq<StoreEvent>, contract: Address, hash: Hash,
                                                files: seq<FileEntry>, deploy: bool, i: nat, path: string)
    requires Reproduces(fmt, log, contract, hash, Names(files, deploy), Contents(files))
    requires PathOf(files, deploy, i, path)
    ensures ExpectedResponse(fmt, hash, path) == Served(fmt.MaybeGunzip(files[i].compressed))
  {
    SiteFileIsServed(fmt, log, contract, hash, Names(files, deploy), Contents(files), i, path);
  }

  /** With gzip as the compressor, the visitor gets the original bytes. */
  lemma {:induction false} OriginalBytesAreServed(fmt: Format, log: seq<StoreEvent>, contract: Address, hash: Hash,
                                                  files: seq<FileEntry>, deploy: bool, i: nat, path: string, raw: Bytes)
    requires fmt.Valid() && PathOf(files, deploy, i, path) && files[i].compressed == fmt.gzip(raw)
    requires Reproduces(fmt, log, contract, hash, Names(files, deploy), Contents(files))
    ensures ExpectedResponse(fmt, hash, path) == Served(raw)
  {
    UploadedFileIsServed(fmt, log, contract, hash, files, deploy, i, path);
    assert fmt.gunzip(fmt.gzip(raw)) == Some(raw);
  }

  /** The browser stores files as they are, and readers decompress what
      decompresses: the visitor gets the uploaded bytes iff they do not. */
  lemma {:induction false} BrowserBytesExactly(fmt: Format, log: seq<StoreEvent>, contract: Address, hash: Hash,
                                               files: seq<FileEntry>, filenames: map<nat, string>, i: nat, path: string)
    requires Reproduces(fmt, log, contract, hash, WebNames(filenames, |files|), Contents(files))
    requires PathTo(WebNames(filenames, |files|), i, path)
    ensures ExpectedResponse(fmt, hash, path) == Served(files[i].compressed)
       <==> fmt.gunzip(files[i].compressed) == None || fmt.gunzip(files[i].compressed) == Some(files[i].compressed)
  {
    SiteFileIsServed(fmt, log, contract, hash, WebNames(filenames, |files|), Contents(files), i, path);
  }

  // ---------- What is in reach ----------

  ghost predicate HasReliable(s: Server, chainId: string) {
    chainId in s.rpcs && exists rpc <- s.rpcs[chainId] :: rpc.reliable
  }

  /** Content whose recorded block is its own is within reach of any gateway that
      knows the contract and has one reliable endpoint, however long ago it was
      stored. */
  lemma {:induction false} RecordedBlockIsEnough(s: Server, log: seq<StoreEvent>, chainId: string,
                                                 contract: Address, ref: ChunkRef)
    requires ref.block > 0 && Located(log, contract, ref)
    requires contract in s.contracts && HasReliable(s, chainId)
    ensures Retrievable(s, log, chainId, ref)
  {
    var rpcs := s.rpcs[chainId];
    var rpc :| rpc in rpcs && rpc.reliable;
    ReliableMembers(rpcs, rpc);
    var e :| e in log && e.contract == contract && e.hash == ref.hash && e.block == ref.block;
    assert NearHint(log, contract, ref.hash, ref.block);
    SeenExactly(OnlyReliable(rpcs), log, s.contracts, chainId, ref.hash, ref.block);
  }

  /** The block in a URL, right or wrong, takes the gateway to the manifest. */
  ghost predicate UrlReaches(s: Server, log: seq<StoreEvent>, chainId: string, hash: Hash, block: nat) {
    && chainId in s.rpcs
    && HintReaches(OnlyReliable(s.rpcs[chainId]), log, s.contracts, chainId, hash,
                   ResolvedHint(s.rpcs[chainId], chainId, block))
  }

  /** With a positive block that is: a log of the manifest lies within one block
      of it on some contract, or in the newest 200 windows of the last one. */
  lemma {:induction false} UrlReachesExactly(s: Server, log: seq<StoreEvent>, chainId: string, hash: Hash, block: nat)
    ensures Retrievable(s, log, chainId, ChunkRef(hash, block)) <==> UrlReaches(s, log, chainId, hash, block)
    ensures block > 0 ==>
              (UrlReaches(s, log, chainId, hash, block)
               <==> chainId in s.rpcs
                    && HintReaches(OnlyReliable(s.rpcs[chainId]), log, s.contracts, chainId, hash, block))
  {
    if chainId in s.rpcs {
      var rpcs := s.rpcs[chainId];
      SeenExactly(OnlyReliable(rpcs), log, s.contracts, chainId, hash, ResolvedHint(rpcs, chainId, block));
    }
  }

  lemma {:induction false} PartsInReach(fmt: Format, s: Server, log: seq<StoreEvent>, chainId: string,
                                        contract: Address, hash: Hash, names: seq<string>, contents: seq<Bytes>,
                                        path: string)
    requires |names| == |contents| && Reproduces(fmt, log, contract, hash, names, contents) && DatedManifest(fmt, hash)
    requires contract in s.contracts && HasReliable(s, chainId)
    ensures !OutOfReach(s, log, chainId, EntryParts(fmt, hash, path))
  {
    var entry := EntryFor(fmt, hash, path);
    if entry.Some? {
      var m := ManifestOf(fmt, hash).value;
      var i := Resolved(m, path);
      assert m[i] in m && Serves(log, contract, m[i], names[i], contents[i]);
      forall ref | ref in Parts(m[i])
        ensures Retrievable(s, log, chainId, ref)
      {
        RecordedBlockIsEnough(s, log, chainId, contract, ref);
      }
    }
  }

  /** A visit to file i of a site whose manifest the URL reaches. */
  method VisitSite(fmt: Format, s: Server, cache: Cache, log: seq<StoreEvent>, chainId: string, hash: Hash, block: nat,
                   ghost contract: Address, ghost names: seq<string>, ghost contents: seq<Bytes>, ghost i: nat,
                   path: string) returns (r: Response)
    requires Transparent(fmt, cache.files) && Readable(log, GATEWAY_MAX)
    requires |names| == |contents| && Reproduces(fmt, log, contract, hash, names, contents) && PathTo(names, i, path)
    requires DatedManifest(fmt, hash) && contract in s.contracts && HasReliable(s, chainId)
    modifies cache
    ensures Transparent(fmt, cache.files)
    ensures UrlReaches(s, log, chainId, hash, block) ==> r == Served(fmt.MaybeGunzip(contents[i]))
  {
    UrlReachesExactly(s, log, chainId, hash, block);
    PartsInReach(fmt, s, log, chainId, contract, hash, names, contents, path);
    SiteFileIsServed(fmt, log, contract, hash, names, contents, i, path);
    r := HandleManifestOrFile(fmt, s, cache, log, chainId, ChunkRef(hash, block), path);
  }

  // ---------- From the uploader to the visitor ----------

  /** A run of the command line and then a visit to the URL it prints. If the run
      ends well and the printed block reaches the manifest, the visitor gets
      the file's original bytes. */
  method UploadThenVisit(fmt: Format, chain: Chain, disk: Disk, me: Address, files: seq<FileEntry>,
                         ghost raws: seq<Bytes>, gasLimit: int, deploy: bool, confirm: bool, calm: bool,
                         s: Server, cache: Cache, chainId: string, ghost i: nat, path: string)
    returns (outcome: Outcome, r: Option<Response>)
    requires fmt.Valid() && chain.Valid() && Numbered(files)
    requires DiskOk(fmt, chain.log, chain.self, files, deploy, disk.saved)
    requires Dated(fmt, StartState(files, disk.saved))
    requires |raws| == |files| && forall k :: 0 <= k < |files| ==> files[k].compressed == fmt.gzip(raws[k])
    requires PathOf(files, deploy, i, path) && Transparent(fmt, cache.files)
    requires chain.self in s.contracts && HasReliable(s, chainId)
    modifies chain, disk, cache
    ensures chain.Valid() && DiskOk(fmt, chain.log, chain.self, files, deploy, disk.saved)
    ensures outcome.Completed? || outcome.AlreadyComplete? ==> RecordedManifest(disk.saved).Some?
    ensures r.Some? <==> (outcome.Completed? || outcome.AlreadyComplete?) && Readable(chain.log, GATEWAY_MAX)
    ensures r.Some? && UrlReaches(s, chain.log, chainId, RecordedManifest(disk.saved).value,
                                  PrintedBlock(StartState(files, disk.saved)))
        ==> r.value == Served(raws[i])
  {
    var block;
    outcome, block := Run(fmt, chain, disk, me, files, gasLimit, deploy, confirm, calm);
    r := None;
    // A log longer than any decoder can count is out of the question.
    if (outcome.Completed? || outcome.AlreadyComplete?) && Readable(chain.log, GATEWAY_MAX) {
      var hash := RecordedManifest(disk.saved).value;
      PathsAgree(files, deploy, i, path);
      assert fmt.gunzip(fmt.gzip(raws[i])) == Some(raws[i]);
      var response := VisitSite(fmt, s, cache, chain.log, chainId, hash, block,
                                chain.self, Names(files, deploy), Contents(files), i, path);
      r := Some(response);
    }
  }

  lemma {:induction false} PathsAgree(files: seq<FileEntry>, deploy: bool, i: nat, path: string)
    requires PathOf(files, deploy, i, path)
    ensures PathTo(Names(files, deploy), i, path)
  {
  }

  /** An upload in the browser and then a visit to the URL it reports: that
      always reaches the manifest, and the visitor gets what survived of the
      file, decompressed if it decompresses. */
  method BrowserUploadThenVisit(fmt: Format, chain: Chain, browser: Browser, me: Address, files: seq<FileEntry>,
                                batches: seq<Batch>, ghost gasLimit: int, savedProgress: Option<seq<ConfirmedChunk>>,
                                filenames: map<nat, string>, calm: bool,
                                s: Server, cache: Cache, chainId: string, ghost i: nat, path: string)
    returns (outcome: WebOutcome, r: Option<Response>)
    requires fmt.Valid() && chain.Valid() && Numbered(files)
    requires batches == ToBatches(WEB_TARIFF, WebPlan(files, gasLimit))
    requires ProgressOk(chain.log, chain.self, files, savedProgress)
    requires ProgressOk(chain.log, chain.self, files, browser.progress)
    requires PathTo(WebNames(filenames, |files|), i, path) && Transparent(fmt, cache.files)
    requires chain.self in s.contracts && HasReliable(s, chainId)
    modifies chain, browser, cache
    ensures chain.Valid() && ProgressOk(chain.log, chain.self, files, browser.progress)
    ensures r.Some? <==> outcome.Done? && Readable(chain.log, GATEWAY_MAX)
    ensures r.Some? ==>
              r.value == Served(fmt.MaybeGunzip(
                Surviving(files, WebPlan(files, gasLimit), SavedKeys(savedProgress))[i]))
  {
    ghost var contents := Surviving(files, WebPlan(files, gasLimit), SavedKeys(savedProgress));
    outcome := UploadFiles(fmt, chain, browser, me, files, batches, gasLimit, savedProgress, filenames, calm);
    r := None;
    if outcome.Done? && Readable(chain.log, GATEWAY_MAX) {
      var hash, block := outcome.manifestHash, outcome.block;
      RecordedBlockIsEnough(s, chain.log, chainId, chain.self, ChunkRef(hash, block));
      UrlReachesExactly(s, chain.log, chainId, hash, block);
      var response := VisitSite(fmt, s, cache, chain.log, chainId, hash, block,
                                chain.self, WebNames(filenames, |files|), contents, i, path);
      r := Some(response);
    }
  }
}
