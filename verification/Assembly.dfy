// The end of cli/src/upload.ts: grouping confirmed chunks by file, the count
// check, and the manifest entries that result.
module Assembly {
  import opened Evmfs
  import opened Batching
  import opened Manifests
  import opened UploadState

  // ---------- Grouping and sorting ----------

  function FileChunks(chunks: seq<ConfirmedChunk>, i: nat): seq<ConfirmedChunk> {
    if chunks == [] then []
    else
      var rest, c := FileChunks(chunks[..|chunks| - 1], i), chunks[|chunks| - 1];
      if c.fileIndex == i then rest + [c] else rest
  }

  /** Stable sort by chunk index. */
  function SortChunks(chunks: seq<ConfirmedChunk>): seq<ConfirmedChunk> {
    if chunks == [] then [] else Insert(SortChunks(chunks[..|chunks| - 1]), chunks[|chunks| - 1])
  }

  function Insert(sorted: seq<ConfirmedChunk>, c: ConfirmedChunk): seq<ConfirmedChunk> {
    if sorted == [] || sorted[|sorted| - 1].chunkIndex <= c.chunkIndex then sorted + [c]
    else Insert(sorted[..|sorted| - 1], c) + [sorted[|sorted| - 1]]
  }

  ghost predicate Sorted(s: seq<ConfirmedChunk>) {
    forall i, j :: 0 <= i < j < |s| ==> s[i].chunkIndex <= s[j].chunkIndex
  }

  lemma {:induction false} KeysSnoc(s: seq<ConfirmedChunk>, c: ConfirmedChunk)
    ensures Keys(s + [c]) == Keys(s) + [c.Key()]
  {
  }

  lemma {:induction false} InsertPermutes(s: seq<ConfirmedChunk>, c: ConfirmedChunk)
    ensures multiset(Insert(s, c)) == multiset(s) + multiset{c}
    ensures multiset(Keys(Insert(s, c))) == multiset(Keys(s)) + multiset{c.Key()}
  {
    if s == [] || s[|s| - 1].chunkIndex <= c.chunkIndex {
      KeysSnoc(s, c);
    } else {
      var init, last := s[..|s| - 1], s[|s| - 1];
      InsertPermutes(init, c);
      assert s == init + [last];
      KeysSnoc(init, last);
      KeysSnoc(Insert(init, c), last);
    }
  }

  lemma {:induction false} InsertMembers(s: seq<ConfirmedChunk>, c: ConfirmedChunk, x: ConfirmedChunk)
    requires x in Insert(s, c)
    ensures x in s || x == c
  {
    InsertPermutes(s, c);
    assert x in multiset(Insert(s, c));
  }

  lemma {:induction false} InsertSorts(s: seq<ConfirmedChunk>, c: ConfirmedChunk)
    requires Sorted(s)
    ensures Sorted(Insert(s, c))
  {
    if s != [] && s[|s| - 1].chunkIndex > c.chunkIndex {
      var n := |s| - 1;
      InsertSorts(s[..n], c);
      forall i | 0 <= i < |Insert(s[..n], c)|
        ensures Insert(s[..n], c)[i].chunkIndex <= s[n].chunkIndex
      {
        InsertMembers(s[..n], c, Insert(s[..n], c)[i]);
      }
    }
  }

  lemma {:induction false} SortSorts(chunks: seq<ConfirmedChunk>)
    ensures Sorted(SortChunks(chunks))
  {
    if chunks != [] {
      SortSorts(chunks[..|chunks| - 1]);
      InsertSorts(SortChunks(chunks[..|chunks| - 1]), chunks[|chunks| - 1]);
    }
  }

  lemma {:induction false} SortPermutes(chunks: seq<ConfirmedChunk>)
    ensures multiset(SortChunks(chunks)) == multiset(chunks)
    ensures multiset(Keys(SortChunks(chunks))) == multiset(Keys(chunks))
  {
    if chunks != [] {
      var init, c := chunks[..|chunks| - 1], chunks[|chunks| - 1];
      SortPermutes(init);
      InsertPermutes(SortChunks(init), c);
      assert chunks == init + [c];
      KeysSnoc(init, c);
    }
  }

  lemma {:induction false} SortKeepsLength(chunks: seq<ConfirmedChunk>)
    ensures |SortChunks(chunks)| == |chunks|
  {
    SortPermutes(chunks);
    assert |multiset(SortChunks(chunks))| == |multiset(chunks)|;
  }

  lemma {:induction false} FileChunksMembers(chunks: seq<ConfirmedChunk>, i: nat)
    ensures forall c <- FileChunks(chunks, i) :: c in chunks && c.fileIndex == i
    ensures multiset(Keys(FileChunks(chunks, i))) <= multiset(Keys(chunks))
  {
    if chunks != [] {
      var init, c := chunks[..|chunks| - 1], chunks[|chunks| - 1];
      FileChunksMembers(init, i);
      assert chunks == init + [c];
      KeysSnoc(init, c);
      KeysSnoc(FileChunks(init, i), c);
    }
  }

  // ---------- The count check ----------

  /** How many confirmed keys file i has among its first n chunks. */
  function KeyTotal(keys: seq<(nat, nat)>, i: nat, n: nat): nat {
    if n == 0 then 0 else KeyTotal(keys, i, n - 1) + multiset(keys)[(i, n - 1)]
  }

  lemma {:induction false} KeyTotalSnoc(keys: seq<(nat, nat)>, key: (nat, nat), i: nat, n: nat)
    ensures KeyTotal(keys + [key], i, n) == KeyTotal(keys, i, n) + if key.0 == i && key.1 < n then 1 else 0
  {
    if n > 0 {
      KeyTotalSnoc(keys, key, i, n - 1);
    }
  }

  lemma {:induction false} KeyTotalEmpty(i: nat, n: nat)
    ensures KeyTotal([], i, n) == 0
  {
    if n > 0 {
      KeyTotalEmpty(i, n - 1);
    }
  }

  lemma {:induction false} FileCount(chunks: seq<ConfirmedChunk>, i: nat, n: nat)
    requires forall c <- chunks :: c.fileIndex == i ==> c.chunkIndex < n
    ensures |FileChunks(chunks, i)| == KeyTotal(Keys(chunks), i, n)
  {
    if chunks == [] {
      KeyTotalEmpty(i, n);
    } else {
      var m := |chunks| - 1;
      FileCount(chunks[..m], i, n);
      assert chunks[m] in chunks;
      assert Keys(chunks) == Keys(chunks[..m]) + [chunks[m].Key()];
      KeyTotalSnoc(Keys(chunks[..m]), chunks[m].Key(), i, n);
    }
  }

  lemma {:induction false} KeyTotalOfOnes(keys: seq<(nat, nat)>, i: nat, n: nat)
    requires forall k :: 0 <= k < n ==> multiset(keys)[(i, k)] == 1
    ensures KeyTotal(keys, i, n) == n
  {
    if n > 0 {
      KeyTotalOfOnes(keys, i, n - 1);
    }
  }

  /** A confirmed chunk that tells the truth about its unit. */
  ghost predicate RightChunk(log: seq<StoreEvent>, contract: Address, files: seq<FileEntry>, c: ConfirmedChunk) {
    && c.fileIndex < |files|
    && c.chunkIndex < NumChunks(|files[c.fileIndex].compressed|)
    && c.totalChunks == NumChunks(|files[c.fileIndex].compressed|)
    && c.hash == Keccak256(Chunk(files[c.fileIndex], c.chunkIndex).data)
    && Located(log, contract, c.Ref())
  }

  ghost predicate AllRight(log: seq<StoreEvent>, contract: Address, files: seq<FileEntry>,
                           chunks: seq<ConfirmedChunk>) {
    forall c <- chunks :: RightChunk(log, contract, files, c)
  }

  /** The check the uploader makes for file i. */
  predicate CountMatches(files: seq<FileEntry>, chunks: seq<ConfirmedChunk>, i: nat)
    requires i < |files|
  {
    |FileChunks(chunks, i)| == NumChunks(|files[i].compressed|)
  }

  /** With the full chunks accounted for, the count is off by exactly how often
      the last chunk is off. */
  lemma {:induction false} CountMatchesExactly(log: seq<StoreEvent>, contract: Address, files: seq<FileEntry>,
                            chunks: seq<ConfirmedChunk>, i: nat)
    requires Numbered(files) && i < |files|
    requires AllRight(log, contract, files, chunks)
    requires BigOnesOnce(Keys(chunks), AllUnits(files))
    ensures CountMatches(files, chunks, i)
        <==> multiset(Keys(chunks))[(i, NumChunks(|files[i].compressed|) - 1)] == 1
  {
    var n, keys := NumChunks(|files[i].compressed|), Keys(chunks);
    FileCount(chunks, i, n);
    forall k | 0 <= k < n - 1
      ensures multiset(keys)[(i, k)] == 1
    {
      var u := Chunk(files[i], k);
      UnitIsChunk(files, u);
      assert u.Key() == (i, k);
    }
    KeyTotalOfOnes(keys, i, n - 1);
  }

  lemma {:induction false} AllCountsMatchExactly(log: seq<StoreEvent>, contract: Address, files: seq<FileEntry>,
                                                 chunks: seq<ConfirmedChunk>)
    requires Numbered(files)
    requires AllRight(log, contract, files, chunks)
    requires BigOnesOnce(Keys(chunks), AllUnits(files))
    ensures (forall i :: 0 <= i < |files| ==> CountMatches(files, chunks, i))
        <==> OnceEach(Keys(chunks), AllUnits(files))
  {
    var keys := Keys(chunks);
    if forall i :: 0 <= i < |files| ==> CountMatches(files, chunks, i) {
      forall u | u in AllUnits(files)
        ensures multiset(keys)[u.Key()] == 1
      {
        UnitIsChunk(files, u);
        CountMatchesExactly(log, contract, files, chunks, u.fileIndex);
      }
    } else {
      var i :| 0 <= i < |files| && !CountMatches(files, chunks, i);
      CountMatchesExactly(log, contract, files, chunks, i);
      var u := Chunk(files[i], NumChunks(|files[i].compressed|) - 1);
      UnitIsChunk(files, u);
      assert u.Key() == (i, NumChunks(|files[i].compressed|) - 1);
    }
  }

  // ---------- The entries ----------

  function AssembledEntry(files: seq<FileEntry>, chunks: seq<ConfirmedChunk>, i: nat): ManifestEntry
    requires i < |files|
  {
    ToEntry(files[i].filename, SortChunks(FileChunks(chunks, i)))
  }

  function ToEntry(filename: string, chunks: seq<ConfirmedChunk>): ManifestEntry {
    ManifestEntry(filename, seq(|chunks|, k requires 0 <= k < |chunks| => chunks[k].Ref()))
  }

  /** Strictly increasing indices below n, n of them, are 0..n-1. */
  lemma {:induction false} PigeonholeUp(s: seq<ConfirmedChunk>, k: nat)
    requires k < |s| && forall i, j :: 0 <= i < j < |s| ==> s[i].chunkIndex < s[j].chunkIndex
    ensures s[k].chunkIndex >= k
  {
    if k > 0 {
      PigeonholeUp(s, k - 1);
    }
  }

  lemma {:induction false} PigeonholeDown(s: seq<ConfirmedChunk>, k: nat)
    requires k < |s| && forall i, j :: 0 <= i < j < |s| ==> s[i].chunkIndex < s[j].chunkIndex
    requires s[|s| - 1].chunkIndex < |s|
    ensures s[k].chunkIndex <= k
    decreases |s| - k
  {
    if k < |s| - 1 {
      PigeonholeDown(s, k + 1);
    }
  }

  /** A file whose chunks are each confirmed once comes out in chunk order. */
  lemma {:induction false} SortedIsComplete(log: seq<StoreEvent>, contract: Address, files: seq<FileEntry>,
                         chunks: seq<ConfirmedChunk>, i: nat)
    requires Numbered(files) && i < |files|
    requires AllRight(log, contract, files, chunks)
    requires CountMatches(files, chunks, i) && OnceEach(Keys(chunks), AllUnits(files))
    ensures var sorted := SortChunks(FileChunks(chunks, i));
            && |sorted| == NumChunks(|files[i].compressed|)
            && forall k :: 0 <= k < |sorted| ==>
                 sorted[k] in chunks && sorted[k].fileIndex == i && sorted[k].chunkIndex == k
  {
    var mine := FileChunks(chunks, i);
    var sorted := SortChunks(mine);
    SortSorts(mine);
    SortPermutes(mine);
    SortKeepsLength(mine);
    FileChunksMembers(chunks, i);
    forall k | 0 <= k < |sorted|
      ensures sorted[k] in chunks && sorted[k].fileIndex == i
    {
      assert sorted[k] in multiset(mine);
    }
    forall p, q | 0 <= p < q < |sorted|
      ensures sorted[p].chunkIndex < sorted[q].chunkIndex
    {
      assert RightChunk(log, contract, files, sorted[p]);
      UnitIsChunk(files, Chunk(files[i], sorted[p].chunkIndex));
      assert Chunk(files[i], sorted[p].chunkIndex).Key() == sorted[p].Key();
      if sorted[p].chunkIndex == sorted[q].chunkIndex {
        TwicePresent(Keys(sorted), p, q);
      }
    }
    forall k | 0 <= k < |sorted|
      ensures sorted[k].chunkIndex == k
    {
      PigeonholeUp(sorted, k);
      PigeonholeDown(sorted, k);
    }
  }

  lemma {:induction false} RefsJoinToChunks(f: FileEntry, refs: seq<ChunkRef>, k: nat)
    requires k <= |refs| <= NumChunks(|f.compressed|)
    requires forall j :: 0 <= j < |refs| ==> refs[j].hash == Keccak256(Chunk(f, j).data)
    ensures JoinRefs(refs[..k]) == Join(FileUnits(f)[..k])
  {
    if k > 0 {
      RefsJoinToChunks(f, refs, k - 1);
      assert refs[..k][..k - 1] == refs[..k - 1];
      assert FileUnits(f)[..k][..k - 1] == FileUnits(f)[..k - 1];
    }
  }

  /** A file that passes the count check gets an entry that reads back as the file. */
  lemma {:induction false} AssembledEntryIsRight(log: seq<StoreEvent>, contract: Address, files: seq<FileEntry>,
                              chunks: seq<ConfirmedChunk>, i: nat)
    requires Numbered(files) && i < |files|
    requires AllRight(log, contract, files, chunks)
    requires CountMatches(files, chunks, i) && OnceEach(Keys(chunks), AllUnits(files))
    ensures var refs := AssembledEntry(files, chunks, i).chunks;
            && refs != []
            && (forall ref <- refs :: Located(log, contract, ref))
            && JoinRefs(refs) == files[i].compressed
  {
    var sorted := SortChunks(FileChunks(chunks, i));
    var refs := AssembledEntry(files, chunks, i).chunks;
    SortedIsComplete(log, contract, files, chunks, i);
    forall k | 0 <= k < |refs|
      ensures Located(log, contract, refs[k]) && refs[k].hash == Keccak256(Chunk(files[i], k).data)
    {
      assert sorted[k] in chunks && RightChunk(log, contract, files, sorted[k]);
    }
    RefsJoinToChunks(files[i], refs, |refs|);
    assert refs[..|refs|] == refs && FileUnits(files[i])[..|refs|] == FileUnits(files[i]);
    ChunksJoinToFile(files[i]);
  }

  function Names(files: seq<FileEntry>, named: bool): seq<string> {
    seq(|files|, i requires 0 <= i < |files| => if named then files[i].filename else "")
  }

  function Contents(files: seq<FileEntry>): seq<Bytes> {
    seq(|files|, i requires 0 <= i < |files| => files[i].compressed)
  }

  /** Once stored, the manifest built from complete entries reproduces the files. */
  lemma {:induction false} StoredManifestReproduces(fmt: Format, log: seq<StoreEvent>, contract: Address,
                                                    files: seq<FileEntry>,
                                 chunks: seq<ConfirmedChunk>, entries: seq<ManifestEntry>, named: bool, hash: Hash)
    requires fmt.Valid() && Numbered(files)
    requires AllRight(log, contract, files, chunks) && OnceEach(Keys(chunks), AllUnits(files))
    requires |entries| == |files|
    requires forall i :: 0 <= i < |files| ==>
               CountMatches(files, chunks, i) && entries[i] == AssembledEntry(files, chunks, i)
    requires Stored(log, contract, hash)
    requires hash == Keccak256(fmt.gzip(fmt.stringify(
               Entries(seq(|entries|, i requires 0 <= i < |entries| => Output(entries[i], named))))))
    ensures Reproduces(fmt, log, contract, hash, Names(files, named), Contents(files))
  {
    forall e | e in entries
      ensures e.chunks != []
    {
      var i :| 0 <= i < |entries| && entries[i] == e;
      AssembledEntryIsRight(log, contract, files, chunks, i);
    }
    var m := ParseManifest(fmt.parse(fmt.MaybeGunzip(hash.preimage)));
    if files == [] {
      assert fmt.gunzip(hash.preimage).Some?;
    } else {
      ParseUndoesBuild(fmt, entries, named, 0);
    }
    forall i | 0 <= i < |files|
      ensures Serves(log, contract, m.value[i], Names(files, named)[i], Contents(files)[i])
    {
      ParseUndoesBuild(fmt, entries, named, i);
      AssembledEntryIsRight(log, contract, files, chunks, i);
    }
  }
}
