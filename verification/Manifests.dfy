// cli/src/manifest.ts and the manifest half of gateway/handlers.go: how a
// manifest is written, and what a reader makes of it.
module Manifests {
  import opened Evmfs

  datatype ChunkRef = ChunkRef(hash: Hash, block: nat)

  /** What the uploader knows about one file. */
  datatype ManifestEntry = ManifestEntry(filename: string, chunks: seq<ChunkRef>)

  /** The JSON text as a tree: the current format, or the old list of hashes.
      `[]` is Entries([]). */
  datatype Json = Entries(entries: seq<OutputEntry>) | Hashes(hashes: seq<Hash>)

  datatype OutputEntry =
    | Single(h: Hash, b: nat, f: Option<string>)
    | Multipart(p: seq<ChunkRef>, f: Option<string>)

  /** JSON text and gzip (RFC 1952) as any pair of inverse functions. */
  datatype Format = Format(stringify: Json -> Bytes, parse: Bytes -> Option<Json>,
                           gzip: Bytes -> Bytes, gunzip: Bytes -> Option<Bytes>)
  {
    ghost predicate Valid() {
      && (forall j :: parse(stringify(j)) == Some(j))
      && (forall x :: gunzip(gzip(x)) == Some(x))
    }

    /** Readers decompress what decompresses and pass the rest through. */
    function MaybeGunzip(data: Bytes): Bytes {
      match gunzip(data)
      case Some(plain) => plain
      case None => data
    }
  }

  // ---------- Writing ----------

  function Output(e: ManifestEntry, includeFilenames: bool): OutputEntry {
    var f := if includeFilenames && e.filename != "" then Some(e.filename) else None;
    if |e.chunks| == 1 then Single(e.chunks[0].hash, e.chunks[0].block, f) else Multipart(e.chunks, f)
  }

  /** How an entry is written: a file of one chunk on its own, any other as a
      list of parts; a name only if it is wanted and not empty. */
  ghost predicate WrittenAs(e: ManifestEntry, named: bool, out: OutputEntry) {
    && (|e.chunks| == 1 ==> out.Single? && e.chunks == [ChunkRef(out.h, out.b)])
    && (|e.chunks| != 1 ==> out.Multipart? && e.chunks == out.p)
    && (out.f == None <==> !named || e.filename == "")
    && (out.f.Some? ==> out.f.value == e.filename)
  }

  lemma {:induction false} OutputExactly(e: ManifestEntry, named: bool, out: OutputEntry)
    ensures Output(e, named) == out <==> WrittenAs(e, named, out)
  {
    if |e.chunks| == 1 {
      assert e.chunks == [ChunkRef(e.chunks[0].hash, e.chunks[0].block)];
    }
  }

  method BuildManifest(fmt: Format, entries: seq<ManifestEntry>, includeFilenames: bool)
    returns (json: Json, gzipped: Bytes)
    ensures json == Entries(seq(|entries|, i requires 0 <= i < |entries| => Output(entries[i], includeFilenames)))
    ensures json.Entries? && |json.entries| == |entries|
    ensures forall i :: 0 <= i < |entries| ==> WrittenAs(entries[i], includeFilenames, json.entries[i])
    ensures gzipped == fmt.gzip(fmt.stringify(json))
  {
    var output: seq<OutputEntry> := [];
    for i := 0 to |entries|
      invariant |output| == i && forall k :: 0 <= k < i ==> output[k] == Output(entries[k], includeFilenames)
    {
      var e := entries[i];
      var entry: OutputEntry;
      if |e.chunks| == 1 {
        entry := Single(e.chunks[0].hash, e.chunks[0].block, None);
      } else {
        entry := Multipart(e.chunks, None);
      }
      if includeFilenames && e.filename != "" {
        entry := entry.(f := Some(e.filename));
      }
      output := output + [entry];
    }
    forall i | 0 <= i < |entries|
      ensures WrittenAs(entries[i], includeFilenames, output[i])
    {
      OutputExactly(entries[i], includeFilenames, output[i]);
    }
    json := Entries(output);
    gzipped := fmt.gzip(fmt.stringify(json));
  }

  // ---------- Reading ----------

  /** The gateway's struct: absent JSON fields read as zero values. */
  datatype GatewayEntry = GatewayEntry(h: Option<Hash>, b: nat, p: seq<ChunkRef>, f: string)
  {
    predicate IsMultipart() {
      |p| > 0
    }
  }

  function Unmarshal(e: OutputEntry): GatewayEntry {
    var f := if e.f.Some? then e.f.value else "";
    match e
    case Single(h, b, _) => GatewayEntry(Some(h), b, [], f)
    case Multipart(p, _) => GatewayEntry(None, 0, p, f)
  }

  function ParseManifest(json: Option<Json>): Option<seq<GatewayEntry>> {
    match json
    case None => None
    case Some(Hashes(hashes)) =>
      Some(seq(|hashes|, i requires 0 <= i < |hashes| => GatewayEntry(Some(hashes[i]), 0, [], "")))
    case Some(Entries(out)) =>
      if out == [] then Some([])
      else if out[0].Single? || Unmarshal(out[0]).IsMultipart() then
        Some(seq(|out|, i requires 0 <= i < |out| => Unmarshal(out[i])))
      else
        None
  }

  /** The chunks a reader fetches for an entry, in order. */
  function Parts(e: GatewayEntry): seq<ChunkRef> {
    if e.IsMultipart() then e.p else if e.h.Some? then [ChunkRef(e.h.value, e.b)] else []
  }

  lemma {:induction false} PartsExactly(e: OutputEntry)
    ensures e.Single? ==> Parts(Unmarshal(e)) == [ChunkRef(e.h, e.b)]
    ensures e.Multipart? ==> Parts(Unmarshal(e)) == e.p
    ensures Unmarshal(e).f == if e.f.Some? then e.f.value else ""
  {
  }

  /** An old manifest reads as nameless entries of one chunk each, wherever it is. */
  lemma {:induction false} OldManifest(hashes: seq<Hash>)
    ensures var m := ParseManifest(Some(Hashes(hashes)));
            && m.Some? && |m.value| == |hashes|
            && forall i :: 0 <= i < |hashes| ==>
                 Parts(m.value[i]) == [ChunkRef(hashes[i], 0)] && m.value[i].f == ""
  {
    assert forall h :: Parts(GatewayEntry(Some(h), 0, [], "")) == [ChunkRef(h, 0)];
  }

  /** A manifest is refused iff it is no JSON list or its first entry has neither
      a hash nor parts; otherwise every entry is read by itself. */
  lemma {:induction false} ParseExactly(json: Option<Json>)
    ensures ParseManifest(json).None?
       <==> json.None? || (json.value.Entries? && json.value.entries != [] && json.value.entries[0].Multipart?
                           && json.value.entries[0].p == [])
    ensures json.Some? && json.value.Entries? && ParseManifest(json).Some? ==>
              var out, m := json.value.entries, ParseManifest(json).value;
              |m| == |out| && forall i :: 0 <= i < |out| ==> m[i] == Unmarshal(out[i])
  {
  }

  /** The bytes behind a list of chunks, joined. */
  ghost function JoinRefs(refs: seq<ChunkRef>): Bytes {
    if refs == [] then [] else JoinRefs(refs[..|refs| - 1]) + refs[|refs| - 1].hash.preimage
  }

  /** A chunk can be found: at its recorded block or, when no block was
      recorded (state files of old versions), somewhere. */
  ghost predicate Located(log: seq<StoreEvent>, contract: Address, ref: ChunkRef) {
    if ref.block == 0 then Stored(log, contract, ref.hash) else StoredAt(log, contract, ref.hash, ref.block)
  }

  /** Reading entry e gives the file: its parts are on chain and join to the bytes. */
  ghost predicate Serves(log: seq<StoreEvent>, contract: Address, e: GatewayEntry, name: string, content: Bytes) {
    && e.f == name
    && Parts(e) != []
    && (forall ref <- Parts(e) :: Located(log, contract, ref))
    && JoinRefs(Parts(e)) == content
  }

  /** The manifest stored under `hash` parses and gives back every file, in
      order and under its name. */
  ghost predicate Reproduces(fmt: Format, log: seq<StoreEvent>, contract: Address, hash: Hash,
                             names: seq<string>, contents: seq<Bytes>)
    requires |names| == |contents|
  {
    var m := ParseManifest(fmt.parse(fmt.MaybeGunzip(hash.preimage)));
    && Stored(log, contract, hash)
    && m.Some? && |m.value| == |contents|
    && forall i :: 0 <= i < |contents| ==> Serves(log, contract, m.value[i], names[i], contents[i])
  }

  /** Nothing that happens later on chain takes a site away. */
  lemma {:induction false} ReproducesForever(fmt: Format, log: seq<StoreEvent>, later: seq<StoreEvent>,
                                             contract: Address, hash: Hash,
                          names: seq<string>, contents: seq<Bytes>)
    requires |names| == |contents| && log <= later
    requires Reproduces(fmt, log, contract, hash, names, contents)
    ensures Reproduces(fmt, later, contract, hash, names, contents)
  {
  }

  /** What goes into a manifest comes out of it. */
  lemma {:induction false} ParseUndoesBuild(fmt: Format, entries: seq<ManifestEntry>, includeFilenames: bool, i: nat)
    requires fmt.Valid() && i < |entries|
    requires forall e <- entries :: e.chunks != []
    ensures var json := Entries(seq(|entries|, k requires 0 <= k < |entries| => Output(entries[k], includeFilenames)));
            var m := ParseManifest(fmt.parse(fmt.MaybeGunzip(fmt.gzip(fmt.stringify(json)))));
            && m.Some? && |m.value| == |entries|
            && Parts(m.value[i]) == entries[i].chunks
            && m.value[i].f == if includeFilenames then entries[i].filename else ""
  {
    var json := Entries(seq(|entries|, k requires 0 <= k < |entries| => Output(entries[k], includeFilenames)));
    assert fmt.gunzip(fmt.gzip(fmt.stringify(json))) == Some(fmt.stringify(json));
    assert fmt.parse(fmt.stringify(json)) == Some(json);
    assert entries[0] in entries && entries[i] in entries;
  }
}
