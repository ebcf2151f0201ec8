// web/src/lib/evmfs.ts: the browser's upload loop, with retries, faults and
// resumed progress.
module WebUpload {
  import opened Evmfs
  import opened Batching
  import opened Manifests
  import opened UploadState
  import opened Assembly
  import opened UploadRun
  import opened WebState

  const BATCH_RETRIES: nat := 3

  // ---------- The manifest ----------

  function NameOf(filenames: map<nat, string>, i: nat): string {
    if i in filenames then filenames[i] else ""
  }

  function WebNames(filenames: map<nat, string>, n: nat): seq<string> {
    seq(n, i requires 0 <= i < n => NameOf(filenames, i))
  }

  /** The entry written for a file's chunks. */
  function WebEntry(chunks: seq<ConfirmedChunk>, fname: string): OutputEntry {
    var f := if fname != "" then Some(fname) else None;
    if |chunks| == 1 && chunks[0].totalChunks == 1 then Single(chunks[0].hash, chunks[0].block, f)
    else Multipart(ToEntry("", chunks).chunks, f)
  }

  function WebOutput(list: seq<ConfirmedChunk>, i: nat, filenames: map<nat, string>): OutputEntry {
    WebEntry(SortChunks(FileChunks(list, i)), NameOf(filenames, i))
  }

  function WebOutputs(list: seq<ConfirmedChunk>, n: nat, filenames: map<nat, string>): (out: seq<OutputEntry>)
    ensures |out| == n && forall i :: 0 <= i < n ==> out[i] == WebOutput(list, i, filenames)
  {
    if n == 0 then [] else WebOutputs(list, n - 1, filenames) + [WebOutput(list, n - 1, filenames)]
  }

  /** Where the entry of file i comes from: its chunks alone, in chunk order; one
      chunk that is the whole file stands by itself; the name is the map's. */
  ghost predicate WebWrittenAs(list: seq<ConfirmedChunk>, i: nat, filenames: map<nat, string>, out: OutputEntry) {
    var mine := FileChunks(list, i);
    && (out.Single? <==> exists c :: mine == [c] && c.totalChunks == 1)
    && (out.Single? ==> forall c <- mine :: c.Ref() == ChunkRef(out.h, out.b))
    && (out.f == None <==> i !in filenames || filenames[i] == "")
    && (out.f.Some? ==> out.f.value == filenames[i])
  }

  lemma {:induction false} WebOutputExactly(list: seq<ConfirmedChunk>, i: nat, filenames: map<nat, string>)
    ensures WebWrittenAs(list, i, filenames, WebOutput(list, i, filenames))
  {
    var mine := FileChunks(list, i);
    SortKeepsLength(mine);
    if |mine| == 1 {
      assert mine == [mine[0]] && mine[..0] == [];
      assert SortChunks(mine) == Insert(SortChunks([]), mine[0]) == [mine[0]];
    }
  }

  ghost predicate AllWrittenAs(list: seq<ConfirmedChunk>, filenames: map<nat, string>, out: seq<OutputEntry>) {
    forall i :: 0 <= i < |out| ==> WebWrittenAs(list, i, filenames, out[i])
  }

  lemma {:induction false} WebOutputsExactly(list: seq<ConfirmedChunk>, n: nat, filenames: map<nat, string>)
    ensures AllWrittenAs(list, filenames, WebOutputs(list, n, filenames))
  {
    forall i | 0 <= i < n
      ensures WebWrittenAs(list, i, filenames, WebOutputs(list, n, filenames)[i])
    {
      WebOutputExactly(list, i, filenames);
    }
  }

  /** Throws only for a file with no chunk at all. */
  method BuildManifestEntries(fileCount: nat, confirmed: seq<ConfirmedChunk>, filenames: map<nat, string>)
    returns (out: Option<seq<OutputEntry>>)
    ensures out.None? ==> exists i :: 0 <= i < fileCount && FileChunks(confirmed, i) == []
    ensures out.Some? ==> out.value == WebOutputs(confirmed, fileCount, filenames)
    ensures out.Some? ==> forall i :: 0 <= i < fileCount ==> FileChunks(confirmed, i) != []
    ensures out.Some? ==> |out.value| == fileCount && AllWrittenAs(confirmed, filenames, out.value)
  {
    var byFile := GroupByFile(confirmed);
    var entries: seq<OutputEntry> := [];
    for i := 0 to fileCount
      invariant entries == WebOutputs(confirmed, i, filenames)
      invariant forall k :: 0 <= k < i ==> FileChunks(confirmed, k) != []
    {
      var chunks := SortChunks(ListOf(byFile, i));
      SortKeepsLength(FileChunks(confirmed, i));
      if |chunks| == 0 { return None; }
      var fname := NameOf(filenames, i);
      var entry := if |chunks| == 1 && chunks[0].totalChunks == 1 then Single(chunks[0].hash, chunks[0].block, None)
        else Multipart(ToEntry("", chunks).chunks, None);
      if fname != "" {
        entry := entry.(f := Some(fname));
      }
      assert entry == WebEntry(chunks, fname) == WebOutput(confirmed, i, filenames);
      entries := entries + [entry];
    }
    WebOutputsExactly(confirmed, fileCount, filenames);
    return Some(entries);
  }

  /** A written entry reads back as its refs, if it has any. */
  lemma {:induction false} WebEntryReads(log: seq<StoreEvent>, contract: Address, files: seq<FileEntry>,
                                         list: seq<ConfirmedChunk>, filenames: map<nat, string>, i: nat)
    requires i < |files| && FileChunks(list, i) != []
    ensures Parts(Unmarshal(WebOutput(list, i, filenames))) == AssembledEntry(files, list, i).chunks != []
    ensures Unmarshal(WebOutput(list, i, filenames)).f == NameOf(filenames, i)
  {
    SortKeepsLength(FileChunks(list, i));
  }

  ghost function WebManifestHash(fmt: Format, list: seq<ConfirmedChunk>, n: nat, filenames: map<nat, string>): Hash {
    Keccak256(fmt.gzip(fmt.stringify(Entries(WebOutputs(list, n, filenames)))))
  }

  lemma {:induction false} WebManifestParses(fmt: Format, files: seq<FileEntry>, list: seq<ConfirmedChunk>,
                                             filenames: map<nat, string>)
    requires fmt.Valid()
    requires forall i :: 0 <= i < |files| ==> FileChunks(list, i) != []
    ensures var m := ParseManifest(fmt.parse(fmt.MaybeGunzip(WebManifestHash(fmt, list, |files|, filenames).preimage)));
            && m.Some? && |m.value| == |files|
            && forall i :: 0 <= i < |files| ==> m.value[i] == Unmarshal(WebOutput(list, i, filenames))
  {
  }

  /** What the list holds of each file: all of it, or all but its last chunk. */
  function Listed(files: seq<FileEntry>, list: seq<ConfirmedChunk>): seq<Bytes> {
    seq(|files|, i requires 0 <= i < |files| =>
      if HasLast(files, list, i) then files[i].compressed else WithoutLast(files[i]))
  }

  function WithoutLast(f: FileEntry): (b: Bytes)
    ensures NumChunks(|f.compressed|) > 1 ==> |b| < |f.compressed|
  {
    f.compressed[..(NumChunks(|f.compressed|) - 1) * MAX_BATCH_BYTES]
  }

  /** A stored web manifest reproduces exactly what the list holds. */
  lemma {:induction false} WebManifestGives(fmt: Format, log: seq<StoreEvent>, contract: Address,
                                            files: seq<FileEntry>, list: seq<ConfirmedChunk>,
                                            filenames: map<nat, string>)
    requires fmt.Valid() && Numbered(files) && NearlyComplete(log, contract, files, list)
    requires forall i :: 0 <= i < |files| ==> FileChunks(list, i) != []
    requires Stored(log, contract, WebManifestHash(fmt, list, |files|, filenames))
    ensures Reproduces(fmt, log, contract, WebManifestHash(fmt, list, |files|, filenames),
                       WebNames(filenames, |files|), Listed(files, list))
  {
    WebManifestParses(fmt, files, list, filenames);
    var m := ParseManifest(fmt.parse(fmt.MaybeGunzip(WebManifestHash(fmt, list, |files|, filenames).preimage))).value;
    forall i | 0 <= i < |files|
      ensures Serves(log, contract, m[i], WebNames(filenames, |files|)[i], Listed(files, list)[i])
    {
      EntryJoins(log, contract, files, list, i);
      WebEntryReads(log, contract, files, list, filenames, i);
    }
  }

  /** A stored web manifest reproduces the files iff no file lacks its last chunk. */
  lemma {:induction false} WebManifestExactly(fmt: Format, log: seq<StoreEvent>, contract: Address,
                                              files: seq<FileEntry>, list: seq<ConfirmedChunk>,
                                              filenames: map<nat, string>)
    requires fmt.Valid() && Numbered(files) && NearlyComplete(log, contract, files, list)
    requires forall i :: 0 <= i < |files| ==> FileChunks(list, i) != []
    requires Stored(log, contract, WebManifestHash(fmt, list, |files|, filenames))
    ensures Reproduces(fmt, log, contract, WebManifestHash(fmt, list, |files|, filenames),
                       WebNames(filenames, |files|), Contents(files))
        <==> EveryLastPresent(files, list)
  {
    WebManifestParses(fmt, files, list, filenames);
    var m := ParseManifest(fmt.parse(fmt.MaybeGunzip(WebManifestHash(fmt, list, |files|, filenames).preimage))).value;
    forall i | 0 <= i < |files|
      ensures Serves(log, contract, m[i], WebNames(filenames, |files|)[i], Contents(files)[i])
         <==> HasLast(files, list, i)
    {
      EntryJoins(log, contract, files, list, i);
      WebEntryReads(log, contract, files, list, filenames, i);
      InOrder(log, contract, files, list, i);
    }
  }

  // ---------- The confirmed map ----------

  ghost predicate MapRight(log: seq<StoreEvent>, contract: Address, files: seq<FileEntry>, confirmed: Confirmed) {
    && Keyed(confirmed)
    && forall key <- confirmed :: RightChunk(log, contract, files, confirmed[key]) && confirmed[key].block > 0
  }

  /** No later entry has the key of entry i. */
  ghost predicate LastOfItsKey(saved: seq<ConfirmedChunk>, i: nat)
    requires i < |saved|
  {
    forall j :: i < j < |saved| ==> saved[j].Key() != saved[i].Key()
  }

  lemma {:induction false} LastOfItsKeySnoc(saved: seq<ConfirmedChunk>, n: nat, i: nat)
    requires i < n < |saved| && LastOfItsKey(saved[..n + 1], i)
    ensures LastOfItsKey(saved[..n], i) && saved[i].Key() != saved[n].Key()
  {
    assert saved[..n + 1][n].Key() != saved[..n + 1][i].Key();
    forall j | i < j < n
      ensures saved[..n][j].Key() != saved[..n][i].Key()
    {
      assert saved[..n + 1][j].Key() != saved[..n + 1][i].Key();
    }
  }

  /** Each key's last entry is what the map says. */
  ghost predicate LastOnesWin(confirmed: Confirmed, saved: seq<ConfirmedChunk>) {
    forall i :: 0 <= i < |saved| && LastOfItsKey(saved, i) ==>
      saved[i].Key() in confirmed && confirmed[saved[i].Key()] == saved[i]
  }

  /** Later entries replace earlier ones. */
  function MapOf(saved: seq<ConfirmedChunk>): Confirmed {
    if saved == [] then map[] else MapOf(saved[..|saved| - 1])[saved[|saved| - 1].Key() := saved[|saved| - 1]]
  }

  lemma {:induction false} LastOneWins(saved: seq<ConfirmedChunk>)
    ensures LastOnesWin(MapOf(saved), saved)
  {
    if saved != [] {
      var n := |saved| - 1;
      LastOneWins(saved[..n]);
      assert saved[..n + 1] == saved;
      forall i | 0 <= i < n && LastOfItsKey(saved, i)
        ensures saved[i].Key() in MapOf(saved) && MapOf(saved)[saved[i].Key()] == saved[i]
      {
        LastOfItsKeySnoc(saved, n, i);
        assert saved[..n][i] == saved[i];
      }
    }
  }

  method Resume(saved: seq<ConfirmedChunk>) returns (confirmed: Confirmed)
    ensures Keyed(confirmed) && confirmed.Keys == KeySet(Keys(saved))
    ensures forall key <- confirmed :: confirmed[key] in saved
    ensures LastOnesWin(confirmed, saved)
  {
    confirmed := map[];
    for i := 0 to |saved|
      invariant Keyed(confirmed) && confirmed.Keys == KeySet(Keys(saved[..i]))
      invariant forall key <- confirmed :: confirmed[key] in saved
      invariant confirmed == MapOf(saved[..i])
    {
      assert saved[..i + 1][..i] == saved[..i];
      assert Keys(saved[..i + 1]) == Keys(saved[..i]) + [saved[i].Key()];
      confirmed := confirmed[saved[i].Key() := saved[i]];
    }
    assert saved[..|saved|] == saved;
    LastOneWins(saved);
  }

  /** The receipt loop: one map entry per Store log, later ones replacing earlier. */
  method RecordInto(units: seq<UploadUnit>, receipt: Receipt, contract: Address, confirmed: Confirmed)
    returns (recorded: Confirmed)
    requires receipt.logs == Events(receipt.block, contract, DataOf(units))
    requires Keyed(confirmed)
    ensures Keyed(recorded) && recorded.Keys == confirmed.Keys + KeySet(BatchKeys(units))
    ensures forall key <- recorded ::
              (key in confirmed && recorded[key] == confirmed[key]) || recorded[key] in Credits(units, receipt.block)
    ensures forall key <- recorded ::
              if key in BatchKeys(units) then recorded[key] in Credits(units, receipt.block)
              else key in confirmed && recorded[key] == confirmed[key]
  {
    var hashMap := HashToUnit(units);
    recorded := confirmed;
    for j := 0 to |receipt.logs|
      invariant Keyed(recorded) && recorded.Keys == confirmed.Keys + KeySet(BatchKeys(units)[..j])
      invariant forall key <- recorded ::
                  || (key in confirmed && recorded[key] == confirmed[key])
                  || recorded[key] in Credits(units, receipt.block)
      invariant forall key <- recorded ::
                  if key in BatchKeys(units)[..j] then recorded[key] in Credits(units, receipt.block)
                  else key in confirmed && recorded[key] == confirmed[key]
    {
      var contentHash := receipt.logs[j].hash;
      assert contentHash == Keccak256(units[j].data);
      HashToUnitFinds(units, j);
      if contentHash in hashMap {
        var unit := hashMap[contentHash];
        assert Credits(units, receipt.block)[j] == Confirm(unit, contentHash, receipt.block);
        recorded := recorded[unit.Key() := Confirm(unit, contentHash, receipt.block)];
      }
      assert BatchKeys(units)[..j + 1] == BatchKeys(units)[..j] + [BatchKeys(units)[j]];
    }
    assert BatchKeys(units)[..|units|] == BatchKeys(units);
  }

  /** `[...confirmed.values()]` */
  method Values(confirmed: Confirmed) returns (list: seq<ConfirmedChunk>)
    requires Keyed(confirmed)
    ensures ListsValues(list, confirmed)
  {
    list := [];
    var todo := confirmed.Keys;
    while todo != {}
      invariant todo <= confirmed.Keys
      invariant forall c <- list :: c.Key() in confirmed && confirmed[c.Key()] == c
      invariant forall key <- confirmed :: multiset(Keys(list))[key] == if key in todo then 0 else 1
      decreases todo
    {
      var key :| key in todo;
      KeysSnoc(list, confirmed[key]);
      list := list + [confirmed[key]];
      todo := todo - {key};
    }
  }

  lemma {:induction false} ListIsNearlyComplete(log: seq<StoreEvent>, contract: Address, files: seq<FileEntry>,
                                                confirmed: Confirmed, list: seq<ConfirmedChunk>)
    requires MapRight(log, contract, files, confirmed) && ListsValues(list, confirmed)
    requires forall u <- AllUnits(files) :: !u.IsLast() ==> u.Key() in confirmed
    ensures NearlyComplete(log, contract, files, list)
    ensures KeySet(Keys(list)) == confirmed.Keys
  {
    forall key | key in Keys(list)
      ensures key in confirmed
    {
      var j :| 0 <= j < |list| && Keys(list)[j] == key;
      assert list[j] in list;
    }
    forall key | key in confirmed
      ensures key in Keys(list)
    {
      assert multiset(Keys(list))[key] == 1;
    }
  }

  function LastChunk(f: FileEntry): UploadUnit {
    Chunk(f, NumChunks(|f.compressed|) - 1)
  }

  lemma {:induction false} LastChunkIsUnit(files: seq<FileEntry>, i: nat)
    requires Numbered(files) && i < |files|
    ensures LastChunk(files[i]) in AllUnits(files)
    ensures LastChunk(files[i]).Key() == (i, NumChunks(|files[i].compressed|) - 1)
  {
    UnitIsChunk(files, LastChunk(files[i]));
  }

  /** No file lacks its last chunk iff every chunk is in the map. */
  lemma {:induction false} LastsPresentExactly(log: seq<StoreEvent>, contract: Address, files: seq<FileEntry>,
                                               list: seq<ConfirmedChunk>)
    requires Numbered(files) && NearlyComplete(log, contract, files, list)
    ensures EveryLastPresent(files, list) <==> AllPresent(KeySet(Keys(list)), AllUnits(files))
  {
    if EveryLastPresent(files, list) {
      forall u | u in AllUnits(files)
        ensures u.Key() in Keys(list)
      {
        UnitIsChunk(files, u);
        assert HasLast(files, list, u.fileIndex);
      }
    } else {
      var i :| 0 <= i < |files| && !HasLast(files, list, i);
      LastChunkIsUnit(files, i);
      assert LastChunk(files[i]).Key() !in KeySet(Keys(list));
    }
  }
}
