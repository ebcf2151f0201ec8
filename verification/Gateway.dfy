// gateway/cache.go and gateway/handlers.go: fetching through the disk cache
// and serving the files of a manifest.
module Gateway {
  import opened Evmfs
  import opened Manifests
  import opened Lookup
  import opened Resolution

  // ---------- The cache ----------

  /** Path components below the cache directory. */
  datatype Component = Name(name: string) | Content(hash: Hash)

  type Path = seq<Component>

  function DecodedPath(chainId: string, hash: Hash): Path {
    [Name(chainId), Content(hash)]
  }

  function RawPath(chainId: string, hash: Hash): Path {
    [Name(chainId), Name("raw"), Content(hash)]
  }

  /** Both tables live in one file tree. On a healthy disk neither reading nor
      writing fails. Nothing is ever removed. */
  class Cache {
    const healthy: bool
    var files: map<Path, Bytes>

    constructor (healthy: bool)
      ensures files == map[] && this.healthy == healthy
    {
      this.healthy := healthy;
      files := map[];
    }

    /** A read error counts as a miss. */
    method ReadFile(path: Path) returns (data: Option<Bytes>)
      ensures data.Some? ==> path in files && data.value == files[path]
      ensures healthy && path in files ==> data.Some?
    {
      if path in files {
        if healthy { return Some(files[path]); }
        if * { return Some(files[path]); }
      }
      return None;
    }

    /** Atomic; a write error leaves the tree as it was. */
    method WriteFile(path: Path, data: Bytes)
      modifies this
      ensures files == old(files) || files == old(files)[path := data]
      ensures healthy ==> files == old(files)[path := data]
    {
      if !healthy {
        if * { return; }
      }
      files := files[path := data];
    }

    method Get(chainId: string, hash: Hash) returns (data: Option<Bytes>)
      ensures data.Some? ==> DecodedPath(chainId, hash) in files && data.value == files[DecodedPath(chainId, hash)]
      ensures healthy && DecodedPath(chainId, hash) in files ==> data.Some?
    {
      data := ReadFile(DecodedPath(chainId, hash));
    }

    method Set(chainId: string, hash: Hash, data: Bytes)
      modifies this
      ensures files == old(files) || files == old(files)[DecodedPath(chainId, hash) := data]
      ensures healthy ==> files == old(files)[DecodedPath(chainId, hash) := data]
    {
      WriteFile(DecodedPath(chainId, hash), data);
    }

    method GetRaw(chainId: string, hash: Hash) returns (data: Option<Bytes>)
      ensures data.Some? ==> RawPath(chainId, hash) in files && data.value == files[RawPath(chainId, hash)]
      ensures healthy && RawPath(chainId, hash) in files ==> data.Some?
    {
      data := ReadFile(RawPath(chainId, hash));
    }

    method SetRaw(chainId: string, hash: Hash, data: Bytes)
      modifies this
      ensures files == old(files) || files == old(files)[RawPath(chainId, hash) := data]
      ensures healthy ==> files == old(files)[RawPath(chainId, hash) := data]
    {
      WriteFile(RawPath(chainId, hash), data);
    }
  }

  /** Every cached file holds what an uncached fetch of its hash would give:
      the stored bytes in the raw table, the decompressed ones in the other. */
  ghost predicate Transparent(fmt: Format, files: map<Path, Bytes>) {
    && (forall chainId, hash :: RawPath(chainId, hash) in files ==>
          files[RawPath(chainId, hash)] == hash.preimage)
    && (forall chainId, hash :: DecodedPath(chainId, hash) in files ==>
          files[DecodedPath(chainId, hash)] == fmt.MaybeGunzip(hash.preimage))
  }

  lemma {:induction false} TablesNeverMix(fmt: Format, files: map<Path, Bytes>, chainId: string, hash: Hash)
    requires Transparent(fmt, files)
    ensures Transparent(fmt, files[RawPath(chainId, hash) := hash.preimage])
    ensures Transparent(fmt, files[DecodedPath(chainId, hash) := fmt.MaybeGunzip(hash.preimage)])
  {
  }

  /** Configuration and chain as a request sees them. */
  datatype Server = Server(rpcs: map<string, seq<Rpc>>, contracts: seq<Address>)

  function RpcsFor(s: Server, chainId: string): seq<Rpc> {
    if chainId in s.rpcs then s.rpcs[chainId] else []
  }

  /** Some reliable endpoint of the chain can see the content. */
  ghost predicate Retrievable(s: Server, log: seq<StoreEvent>, chainId: string, ref: ChunkRef) {
    && chainId in s.rpcs
    && var rpcs := s.rpcs[chainId];
       Seen(OnlyReliable(rpcs), log, s.contracts, chainId, ref.hash, ResolvedHint(rpcs, chainId, ref.block))
  }

  /** Any number of other requests run here, at any point of this one. */
  method OtherRequests(fmt: Format, cache: Cache)
    requires Transparent(fmt, cache.files)
    modifies cache
    ensures Transparent(fmt, cache.files) && old(cache.files).Keys <= cache.files.Keys
  {
    var n: nat :| true;
    for i := 0 to n
      invariant Transparent(fmt, cache.files) && old(cache.files).Keys <= cache.files.Keys
    {
      var chainId: string :| true;
      var hash: Hash :| true;
      TablesNeverMix(fmt, cache.files, chainId, hash);
      if * {
        cache.SetRaw(chainId, hash, hash.preimage);
      } else {
        cache.Set(chainId, hash, fmt.MaybeGunzip(hash.preimage));
      }
    }
  }

  method FetchRawChunk(fmt: Format, s: Server, cache: Cache, log: seq<StoreEvent>, chainId: string, ref: ChunkRef)
    returns (r: Fetch)
    requires Transparent(fmt, cache.files) && Readable(log, GATEWAY_MAX)
    modifies cache
    ensures Transparent(fmt, cache.files)
    ensures !r.Nothing?
    ensures r.Found? ==> r.data == ref.hash.preimage
    ensures r.Failed? ==> !Retrievable(s, log, chainId, ref)
    ensures old(cache.files).Keys <= cache.files.Keys
    ensures cache.healthy && RawPath(chainId, ref.hash) in old(cache.files) ==> r.Found?
    ensures cache.healthy && r.Found? ==> RawPath(chainId, ref.hash) in cache.files
  {
    OtherRequests(fmt, cache);
    var cached := cache.GetRaw(chainId, ref.hash);
    if cached.Some? { return Found(cached.value); }
    var rpcURLs := RpcsFor(s, chainId);
    if |rpcURLs| == 0 { return Failed(NothingConfigured); }
    r := FetchContent(rpcURLs, s.contracts, log, chainId, ref.hash, ref.block);
    if r.Failed? { return; }
    OtherRequests(fmt, cache);
    TablesNeverMix(fmt, cache.files, chainId, ref.hash);
    cache.SetRaw(chainId, ref.hash, r.data);
  }

  method FetchAndDecompress(fmt: Format, s: Server, cache: Cache, log: seq<StoreEvent>, chainId: string, ref: ChunkRef)
    returns (r: Fetch)
    requires Transparent(fmt, cache.files) && Readable(log, GATEWAY_MAX)
    modifies cache
    ensures Transparent(fmt, cache.files)
    ensures !r.Nothing?
    ensures r.Found? ==> r.data == fmt.MaybeGunzip(ref.hash.preimage)
    ensures r.Failed? ==> !Retrievable(s, log, chainId, ref)
    ensures old(cache.files).Keys <= cache.files.Keys
    ensures cache.healthy && DecodedPath(chainId, ref.hash) in old(cache.files) ==> r.Found?
    ensures cache.healthy && r.Found? ==> DecodedPath(chainId, ref.hash) in cache.files
  {
    OtherRequests(fmt, cache);
    var cached := cache.Get(chainId, ref.hash);
    if cached.Some? { return Found(cached.value); }
    var rpcURLs := RpcsFor(s, chainId);
    if |rpcURLs| == 0 { return Failed(NothingConfigured); }
    r := FetchContent(rpcURLs, s.contracts, log, chainId, ref.hash, ref.block);
    if r.Failed? { return; }
    var result := fmt.MaybeGunzip(r.data);
    OtherRequests(fmt, cache);
    TablesNeverMix(fmt, cache.files, chainId, ref.hash);
    cache.Set(chainId, ref.hash, result);
    return Found(result);
  }

  /** The raw table has every part. */
  ghost predicate AllRaw(files: map<Path, Bytes>, chainId: string, parts: seq<ChunkRef>) {
    forall ref <- parts :: RawPath(chainId, ref.hash) in files
  }

  /** The parts one by one; the parallel form is the subject of Multipart. */
  method FetchMultipart(fmt: Format, s: Server, cache: Cache, log: seq<StoreEvent>, chainId: string,
                        parts: seq<ChunkRef>)
    returns (r: Fetch)
    requires Transparent(fmt, cache.files) && Readable(log, GATEWAY_MAX)
    modifies cache
    ensures Transparent(fmt, cache.files)
    ensures !r.Nothing?
    ensures r.Found? ==> r.data == fmt.MaybeGunzip(JoinRefs(parts))
    ensures r.Failed? ==> OutOfReach(s, log, chainId, parts)
    ensures old(cache.files).Keys <= cache.files.Keys
    ensures cache.healthy && AllRaw(old(cache.files), chainId, parts) ==> r.Found?
    ensures cache.healthy && r.Found? ==> AllRaw(cache.files, chainId, parts)
  {
    var combined: Bytes := [];
    for i := 0 to |parts|
      invariant Transparent(fmt, cache.files)
      invariant combined == JoinRefs(parts[..i])
      invariant old(cache.files).Keys <= cache.files.Keys
      invariant cache.healthy ==> AllRaw(cache.files, chainId, parts[..i])
    {
      assert parts[i] in parts;
      r := FetchRawChunk(fmt, s, cache, log, chainId, parts[i]);
      if r.Failed? { return; }
      assert parts[..i + 1][..i] == parts[..i];
      combined := combined + r.data;
    }
    assert parts[..|parts|] == parts;
    return Found(fmt.MaybeGunzip(combined));
  }

  // ---------- Serving a manifest's files ----------

  datatype Response = Served(data: Bytes) | NotFound | BadGateway | BadManifest

  ghost function ManifestOf(fmt: Format, hash: Hash): Option<seq<GatewayEntry>> {
    ParseManifest(fmt.parse(fmt.MaybeGunzip(hash.preimage)))
  }

  /** The entry a path resolves to, if the manifest has it. */
  ghost function EntryFor(fmt: Format, hash: Hash, path: string): Option<GatewayEntry> {
    var m := ManifestOf(fmt, hash);
    if m.Some? && 0 <= Resolved(m.value, path) < |m.value| then Some(m.value[Resolved(m.value, path)]) else None
  }

  ghost function EntryParts(fmt: Format, hash: Hash, path: string): seq<ChunkRef> {
    var entry := EntryFor(fmt, hash, path);
    if entry.Some? then Parts(entry.value) else []
  }

  ghost predicate OutOfReach(s: Server, log: seq<StoreEvent>, chainId: string, refs: seq<ChunkRef>) {
    exists ref <- refs :: !Retrievable(s, log, chainId, ref)
  }

  /** Everything that answering the path takes is in the cache. */
  ghost predicate InCache(fmt: Format, files: map<Path, Bytes>, chainId: string, hash: Hash, path: string) {
    var entry := EntryFor(fmt, hash, path);
    && DecodedPath(chainId, hash) in files
    && (entry.Some? && entry.value.IsMultipart() ==> AllRaw(files, chainId, entry.value.p))
    && (entry.Some? && !entry.value.IsMultipart() && entry.value.h.Some? ==>
          DecodedPath(chainId, entry.value.h.value) in files)
  }

  /** What is served is the entry the path resolves to, decompressed; a gateway
      error means the manifest or a part of that entry was out of reach. */
  method HandleManifestOrFile(fmt: Format, s: Server, cache: Cache, log: seq<StoreEvent>, chainId: string,
                              manifest: ChunkRef, pathOrIndex: string) returns (r: Response)
    requires Transparent(fmt, cache.files) && Readable(log, GATEWAY_MAX)
    modifies cache
    ensures Transparent(fmt, cache.files)
    ensures r.BadGateway? ==> OutOfReach(s, log, chainId, [manifest] + EntryParts(fmt, manifest.hash, pathOrIndex))
    ensures !r.BadGateway? ==> r == ExpectedResponse(fmt, manifest.hash, pathOrIndex)
    ensures old(cache.files).Keys <= cache.files.Keys
    ensures cache.healthy && InCache(fmt, old(cache.files), chainId, manifest.hash, pathOrIndex) ==> !r.BadGateway?
    ensures cache.healthy && !r.BadGateway? ==> InCache(fmt, cache.files, chainId, manifest.hash, pathOrIndex)
    ensures r.NotFound? ==>
              var m := ManifestOf(fmt, manifest.hash);
              m.Some? && !(0 <= Resolved(m.value, pathOrIndex) < |m.value|)
    ensures r.BadManifest? ==>
              var m, entry := ManifestOf(fmt, manifest.hash), EntryFor(fmt, manifest.hash, pathOrIndex);
              m.None? || (entry.Some? && entry.value.p == [] && entry.value.h.None?)
    ensures r.Served? ==>
              && EntryFor(fmt, manifest.hash, pathOrIndex).Some?
              && r.data == fmt.MaybeGunzip(JoinRefs(EntryParts(fmt, manifest.hash, pathOrIndex)))
  {
    var manifestData := FetchAndDecompress(fmt, s, cache, log, chainId, manifest);
    if manifestData.Failed? { return BadGateway; }
    var parsed := ParseManifest(fmt.parse(manifestData.data));
    if parsed.None? { return BadManifest; }
    var entries := parsed.value;
    var idx := ResolveIndex(entries, pathOrIndex);
    if idx < 0 || idx >= |entries| { return NotFound; }
    var entry := entries[idx];
    var data: Fetch;
    if entry.IsMultipart() {
      data := FetchMultipart(fmt, s, cache, log, chainId, entry.p);
    } else {
      if entry.h.None? { return BadManifest; }
      var ref := ChunkRef(entry.h.value, entry.b);
      data := FetchAndDecompress(fmt, s, cache, log, chainId, ref);
      assert Parts(entry) == [ref] && [ref][..0] == [] && JoinRefs([ref]) == ref.hash.preimage;
      assert ref in Parts(entry);
    }
    if data.Failed? { return BadGateway; }
    return Served(data.data);
  }

  /** The answer to a request whose fetches all succeed. */
  ghost function ExpectedResponse(fmt: Format, hash: Hash, path: string): Response {
    var entry := EntryFor(fmt, hash, path);
    if ManifestOf(fmt, hash).None? then BadManifest
    else if entry.None? then NotFound
    else if Parts(entry.value) == [] then BadManifest
    else Served(fmt.MaybeGunzip(JoinRefs(Parts(entry.value))))
  }

  /** What a gateway with a healthy disk has answered once it answers again, and
      with the same bytes, even if no endpoint of the chain works any more. */
  method AnswerTwice(fmt: Format, s: Server, later: Server, cache: Cache, log: seq<StoreEvent>,
                     laterLog: seq<StoreEvent>, chainId: string, manifest: ChunkRef, path: string)
    returns (first: Response, second: Response)
    requires Transparent(fmt, cache.files) && Readable(log, GATEWAY_MAX) && Readable(laterLog, GATEWAY_MAX)
    modifies cache
    ensures Transparent(fmt, cache.files)
    ensures cache.healthy && !first.BadGateway? ==> second == first
  {
    first := HandleManifestOrFile(fmt, s, cache, log, chainId, manifest, path);
    OtherRequests(fmt, cache);
    second := HandleManifestOrFile(fmt, later, cache, laterLog, chainId, manifest, path);
  }
}
