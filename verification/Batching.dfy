// cli/src/batch.ts (and the same algorithms in web/src/lib/evmfs.ts): cutting
// compressed files into chunks and packing the chunks into transactions.
module Batching {
  import opened Evmfs

  const MAX_BATCH_BYTES: nat := 100_000
  const BASE_TX_GAS: nat := 21_000
  const BATCH_CALL_OVERHEAD: nat := 10_000
  const EMPTY_BATCH_GAS: nat := BASE_TX_GAS + BATCH_CALL_OVERHEAD

  /** The gas model of one front end. */
  datatype Tariff = Tariff(perFileOverhead: nat, perByteGas: nat)

  const CLI_TARIFF := Tariff(1_750, 24)
  const WEB_TARIFF := Tariff(5_000, 26)

  datatype FileEntry = FileEntry(index: nat, filename: string, compressed: Bytes)

  datatype UploadUnit = UploadUnit(fileIndex: nat, chunkIndex: nat, totalChunks: nat, data: Bytes)
  {
    function Key(): (nat, nat) {
      (fileIndex, chunkIndex)
    }

    predicate IsLast() {
      chunkIndex + 1 == totalChunks
    }
  }

  datatype Batch = Batch(units: seq<UploadUnit>, estimatedGas: int, byteSize: int)

  function Flatten<T>(groups: seq<seq<T>>): seq<T> {
    if groups == [] then [] else Flatten(groups[..|groups| - 1]) + groups[|groups| - 1]
  }

  // ---------- Chunking ----------

  function Min(a: int, b: int): int {
    if a < b then a else b
  }

  function NumChunks(size: nat): nat {
    if size <= MAX_BATCH_BYTES then 1 else (size + MAX_BATCH_BYTES - 1) / MAX_BATCH_BYTES
  }

  /** Chunk i of n of a file. */
  function Chunk(f: FileEntry, i: nat): UploadUnit
    requires i < NumChunks(|f.compressed|)
  {
    UploadUnit(f.index, i, NumChunks(|f.compressed|),
               f.compressed[i * MAX_BATCH_BYTES..Min((i + 1) * MAX_BATCH_BYTES, |f.compressed|)])
  }

  function FileUnits(f: FileEntry): seq<UploadUnit> {
    seq(NumChunks(|f.compressed|), i requires 0 <= i < NumChunks(|f.compressed|) => Chunk(f, i))
  }

  function AllUnits(files: seq<FileEntry>): seq<UploadUnit> {
    if files == [] then [] else AllUnits(files[..|files| - 1]) + FileUnits(files[|files| - 1])
  }

  lemma {:induction false} FileUnitsSnoc(f: FileEntry, i: nat)
    requires i < NumChunks(|f.compressed|)
    ensures FileUnits(f)[..i + 1] == FileUnits(f)[..i] + [Chunk(f, i)]
  {
  }

  method ExpandFilesToUnits(files: seq<FileEntry>) returns (units: seq<UploadUnit>)
    ensures units == AllUnits(files)
  {
    units := [];
    for k := 0 to |files|
      invariant units == AllUnits(files[..k])
    {
      var f := files[k];
      assert files[..k + 1][..k] == files[..k];
      if |f.compressed| <= MAX_BATCH_BYTES {
        assert Chunk(f, 0) == UploadUnit(f.index, 0, 1, f.compressed);
        assert FileUnits(f) == [Chunk(f, 0)];
        units := units + [UploadUnit(f.index, 0, 1, f.compressed)];
      } else {
        var chunks := SplitFile(f);
        units := units + chunks;
      }
    }
    assert files[..|files|] == files;
  }

  /** The inner loop, for a file too long for one chunk. */
  method SplitFile(f: FileEntry) returns (units: seq<UploadUnit>)
    requires |f.compressed| > MAX_BATCH_BYTES
    ensures units == FileUnits(f)
  {
    units := [];
    var totalChunks := (|f.compressed| + MAX_BATCH_BYTES - 1) / MAX_BATCH_BYTES;
    for i := 0 to totalChunks
      invariant units == FileUnits(f)[..i]
    {
      var offset := i * MAX_BATCH_BYTES;
      var end := Min(offset + MAX_BATCH_BYTES, |f.compressed|);
      units := units + [UploadUnit(f.index, i, totalChunks, f.compressed[offset..end])];
      FileUnitsSnoc(f, i);
    }
    assert FileUnits(f)[..totalChunks] == FileUnits(f);
  }

  /** The bytes of consecutive chunks, joined. */
  function Join(units: seq<UploadUnit>): Bytes {
    if units == [] then [] else Join(units[..|units| - 1]) + units[|units| - 1].data
  }

  /** Every chunk but a file's last is full, the last is not empty unless the
      file is, and no chunk exceeds a batch. */
  lemma {:induction false} ChunkSizes(f: FileEntry, i: nat)
    requires i < NumChunks(|f.compressed|)
    ensures |Chunk(f, i).data| <= MAX_BATCH_BYTES == 100_000
    ensures i + 1 < NumChunks(|f.compressed|) ==> |Chunk(f, i).data| == MAX_BATCH_BYTES
    ensures 1 < NumChunks(|f.compressed|) ==> Chunk(f, i).data != []
  {
  }

  lemma {:induction false} ChunksJoinToPrefix(f: FileEntry, k: nat)
    requires k <= NumChunks(|f.compressed|)
    ensures Join(FileUnits(f)[..k]) == f.compressed[..Min(k * MAX_BATCH_BYTES, |f.compressed|)]
  {
    if k > 0 {
      var us := FileUnits(f)[..k];
      assert us[..k - 1] == FileUnits(f)[..k - 1] && us[k - 1] == Chunk(f, k - 1);
      ChunksJoinToPrefix(f, k - 1);
    }
  }

  /** Cutting a file loses nothing. */
  lemma {:induction false} ChunksJoinToFile(f: FileEntry)
    ensures Join(FileUnits(f)) == f.compressed
  {
    var n := NumChunks(|f.compressed|);
    ChunksJoinToPrefix(f, n);
    assert FileUnits(f)[..n] == FileUnits(f);
    assert f.compressed[..|f.compressed|] == f.compressed;
  }

  function OfFile(units: seq<UploadUnit>, i: nat): seq<UploadUnit> {
    if units == [] then []
    else
      var rest := OfFile(units[..|units| - 1], i);
      if units[|units| - 1].fileIndex == i then rest + [units[|units| - 1]] else rest
  }

  lemma {:induction false} OfFileConcat(a: seq<UploadUnit>, b: seq<UploadUnit>, i: nat)
    ensures OfFile(a + b, i) == OfFile(a, i) + OfFile(b, i)
  {
    if b == [] {
      assert a + b == a;
    } else {
      assert (a + b)[..|a + b| - 1] == a + b[..|b| - 1];
      OfFileConcat(a, b[..|b| - 1], i);
    }
  }

  lemma {:induction false} OfFileUniform(units: seq<UploadUnit>, j: nat, i: nat)
    requires forall u <- units :: u.fileIndex == j
    ensures OfFile(units, i) == if i == j then units else []
  {
    if units != [] {
      assert units == units[..|units| - 1] + [units[|units| - 1]];
      assert units[|units| - 1] in units;
      OfFileUniform(units[..|units| - 1], j, i);
    }
  }

  /** Files are numbered by position, as every caller does. */
  ghost predicate Numbered(files: seq<FileEntry>) {
    forall i :: 0 <= i < |files| ==> files[i].index == i
  }

  lemma {:induction false} UnitsOfFile(files: seq<FileEntry>, i: nat)
    requires Numbered(files)
    ensures OfFile(AllUnits(files), i) == if i < |files| then FileUnits(files[i]) else []
  {
    if files != [] {
      var init, f := files[..|files| - 1], files[|files| - 1];
      UnitsOfFile(init, i);
      OfFileConcat(AllUnits(init), FileUnits(f), i);
      OfFileUniform(FileUnits(f), f.index, i);
    }
  }

  /** Membership in the unit list, spelled out. */
  lemma {:induction false} UnitIsChunk(files: seq<FileEntry>, u: UploadUnit)
    requires Numbered(files)
    ensures u in AllUnits(files)
        <==> u.fileIndex < |files| && u.chunkIndex < NumChunks(|files[u.fileIndex].compressed|)
             && u == Chunk(files[u.fileIndex], u.chunkIndex)
  {
    if files != [] {
      var init, f := files[..|files| - 1], files[|files| - 1];
      UnitIsChunk(init, u);
      if u in FileUnits(f) {
        var i :| 0 <= i < |FileUnits(f)| && FileUnits(f)[i] == u;
        assert u == Chunk(f, i);
      } else if u.fileIndex == f.index && u.chunkIndex < NumChunks(|f.compressed|) {
        assert FileUnits(f)[u.chunkIndex] == Chunk(f, u.chunkIndex);
      }
    }
  }

  ghost predicate DistinctKeys(units: seq<UploadUnit>) {
    forall i, j :: 0 <= i < j < |units| ==> units[i].Key() != units[j].Key()
  }

  lemma {:induction false} UnitKeysDistinct(files: seq<FileEntry>)
    requires Numbered(files)
    ensures DistinctKeys(AllUnits(files))
  {
    if files != [] {
      var init, f := files[..|files| - 1], files[|files| - 1];
      UnitKeysDistinct(init);
      forall u | u in AllUnits(init)
        ensures u.fileIndex < |init|
      {
        UnitIsChunk(init, u);
      }
      forall i, j | 0 <= i < j < |AllUnits(files)|
        ensures AllUnits(files)[i].Key() != AllUnits(files)[j].Key()
      {
        if i < |AllUnits(init)| {
          assert AllUnits(init)[i] in AllUnits(init);
        }
      }
    }
  }

  /** File after file, chunk after chunk. */
  ghost predicate Precedes(u: UploadUnit, v: UploadUnit) {
    u.fileIndex < v.fileIndex || (u.fileIndex == v.fileIndex && u.chunkIndex < v.chunkIndex)
  }

  lemma {:induction false} UnitsInOrder(files: seq<FileEntry>, i: nat, j: nat)
    requires Numbered(files) && i < j < |AllUnits(files)|
    ensures Precedes(AllUnits(files)[i], AllUnits(files)[j])
  {
    var init := files[..|files| - 1];
    if j < |AllUnits(init)| {
      UnitsInOrder(init, i, j);
    } else if i < |AllUnits(init)| {
      UnitIsChunk(init, AllUnits(init)[i]);
    }
  }

  // ---------- Packing ----------

  function EstimateFileGas(t: Tariff, size: nat): nat {
    size * t.perByteGas + t.perFileOverhead
  }

  function UnitGas(t: Tariff, units: seq<UploadUnit>): nat {
    if units == [] then 0
    else UnitGas(t, units[..|units| - 1]) + EstimateFileGas(t, |units[|units| - 1].data|)
  }

  function ByteSize(units: seq<UploadUnit>): nat {
    if units == [] then 0 else ByteSize(units[..|units| - 1]) + |units[|units| - 1].data|
  }

  /** The two sums in plain numbers. */
  lemma {:induction false} SumsExactly(t: Tariff, units: seq<UploadUnit>)
    ensures ByteSize(units) == |Join(units)|
    ensures UnitGas(t, units) == t.perByteGas * |Join(units)| + t.perFileOverhead * |units|
  {
    if units != [] {
      var n := |units| - 1;
      SumsExactly(t, units[..n]);
      Distributes(t.perByteGas, |Join(units[..n])|, |units[n].data|);
      Distributes(t.perFileOverhead, n, 1);
    }
  }

  lemma {:induction false} Distributes(k: nat, a: nat, b: nat)
    ensures k * (a + b) == k * a + b * k
  {
  }

  predicate WithinLimits(t: Tariff, gasLimit: int, units: seq<UploadUnit>) {
    EMPTY_BATCH_GAS + UnitGas(t, units) <= gasLimit && ByteSize(units) <= MAX_BATCH_BYTES
  }

  /** The limits of the two front ends, in gas and bytes. */
  lemma {:induction false} LimitsExactly(gasLimit: int, units: seq<UploadUnit>)
    ensures WithinLimits(CLI_TARIFF, gasLimit, units)
       <==> 31_000 + 24 * |Join(units)| + 1_750 * |units| <= gasLimit && |Join(units)| <= 100_000
    ensures WithinLimits(WEB_TARIFF, gasLimit, units)
       <==> 31_000 + 26 * |Join(units)| + 5_000 * |units| <= gasLimit && |Join(units)| <= 100_000
  {
    SumsExactly(CLI_TARIFF, units);
    SumsExactly(WEB_TARIFF, units);
  }

  /** What one transaction may carry: a single unit, or units within both limits. */
  predicate Feasible(t: Tariff, gasLimit: int, units: seq<UploadUnit>) {
    |units| <= 1 || WithinLimits(t, gasLimit, units)
  }

  /** The greedy split, one unit at a time. */
  function Pack(t: Tariff, gasLimit: int, units: seq<UploadUnit>): seq<seq<UploadUnit>> {
    if units == [] then []
    else
      var groups, u := Pack(t, gasLimit, units[..|units| - 1]), units[|units| - 1];
      if groups != [] && WithinLimits(t, gasLimit, groups[|groups| - 1] + [u])
      then groups[..|groups| - 1] + [groups[|groups| - 1] + [u]]
      else groups + [[u]]
  }

  function ToBatch(t: Tariff, units: seq<UploadUnit>): Batch {
    Batch(units, EMPTY_BATCH_GAS + UnitGas(t, units), ByteSize(units))
  }

  function ToBatches(t: Tariff, groups: seq<seq<UploadUnit>>): seq<Batch> {
    seq(|groups|, i requires 0 <= i < |groups| => ToBatch(t, groups[i]))
  }

  /** The figures a batch carries are those of its units. */
  ghost predicate HonestFigures(t: Tariff, b: Batch) {
    && b.byteSize == |Join(b.units)|
    && b.estimatedGas == 31_000 + t.perByteGas * |Join(b.units)| + t.perFileOverhead * |b.units|
  }

  lemma {:induction false} FiguresAreHonest(t: Tariff, groups: seq<seq<UploadUnit>>)
    ensures forall b <- ToBatches(t, groups) :: HonestFigures(t, b)
  {
    forall b | b in ToBatches(t, groups)
      ensures HonestFigures(t, b)
    {
      SumsExactly(t, b.units);
    }
  }

  /** The running totals of the batch being filled. */
  ghost predicate Totals(t: Tariff, units: seq<UploadUnit>, gas: int, bytes: int) {
    gas == EMPTY_BATCH_GAS + UnitGas(t, units) && bytes == ByteSize(units)
  }

  lemma {:induction false} TotalsSnoc(t: Tariff, units: seq<UploadUnit>, u: UploadUnit, gas: int, bytes: int)
    requires Totals(t, units, gas, bytes)
    ensures Totals(t, units + [u], gas + EstimateFileGas(t, |u.data|), bytes + |u.data|)
  {
  }

  lemma {:induction false} ToBatchesSnoc(t: Tariff, groups: seq<seq<UploadUnit>>, group: seq<UploadUnit>, gas: int,
                                         bytes: int)
    requires Totals(t, group, gas, bytes)
    ensures ToBatches(t, groups + [group]) == ToBatches(t, groups) + [Batch(group, gas, bytes)]
  {
  }

  /** `Pack` after i units is the closed groups plus the open one, if any. */
  ghost predicate PackedSoFar(t: Tariff, gasLimit: int, units: seq<UploadUnit>,
                              closed: seq<seq<UploadUnit>>, open: seq<UploadUnit>) {
    Pack(t, gasLimit, units) == closed + if open == [] then [] else [open]
  }

  lemma {:induction false} PackStep(t: Tariff, gasLimit: int, units: seq<UploadUnit>, u: UploadUnit,
                 closed: seq<seq<UploadUnit>>, open: seq<UploadUnit>)
    requires PackedSoFar(t, gasLimit, units, closed, open)
    requires open == [] ==> units == []
    ensures open == [] || WithinLimits(t, gasLimit, open + [u])
        ==> PackedSoFar(t, gasLimit, units + [u], closed, open + [u])
    ensures open != [] && !WithinLimits(t, gasLimit, open + [u])
        ==> PackedSoFar(t, gasLimit, units + [u], closed + [open], [u])
  {
  }

  method PackBatches(t: Tariff, units: seq<UploadUnit>, gasLimit: int) returns (batches: seq<Batch>)
    ensures batches == ToBatches(t, Pack(t, gasLimit, units))
    ensures forall b <- batches :: HonestFigures(t, b)
  {
    FiguresAreHonest(t, Pack(t, gasLimit, units));
    batches := [];
    var currentUnits: seq<UploadUnit> := [];
    var currentGas := BASE_TX_GAS + BATCH_CALL_OVERHEAD;
    var currentBytes := 0;
    ghost var closed: seq<seq<UploadUnit>> := [];
    for i := 0 to |units|
      invariant Totals(t, currentUnits, currentGas, currentBytes)
      invariant currentUnits == [] ==> i == 0
      invariant batches == ToBatches(t, closed)
      invariant PackedSoFar(t, gasLimit, units[..i], closed, currentUnits)
    {
      var unit := units[i];
      var unitGas := EstimateFileGas(t, |unit.data|);
      var unitBytes := |unit.data|;
      assert units[..i + 1] == units[..i] + [unit];
      PackStep(t, gasLimit, units[..i], unit, closed, currentUnits);
      TotalsSnoc(t, currentUnits, unit, currentGas, currentBytes);
      if |currentUnits| > 0
         && (currentGas + unitGas > gasLimit || currentBytes + unitBytes > MAX_BATCH_BYTES) {
        ToBatchesSnoc(t, closed, currentUnits, currentGas, currentBytes);
        batches := batches + [Batch(currentUnits, currentGas, currentBytes)];
        closed := closed + [currentUnits];
        currentUnits := [];
        currentGas := BASE_TX_GAS + BATCH_CALL_OVERHEAD;
        currentBytes := 0;
        TotalsSnoc(t, [], unit, currentGas, currentBytes);
        assert currentUnits + [unit] == [unit];
      }
      currentUnits := currentUnits + [unit];
      currentGas := currentGas + unitGas;
      currentBytes := currentBytes + unitBytes;
    }
    assert units[..|units|] == units;
    if |currentUnits| > 0 {
      ToBatchesSnoc(t, closed, currentUnits, currentGas, currentBytes);
      batches := batches + [Batch(currentUnits, currentGas, currentBytes)];
    }
  }

  method EstimateTotalGas(t: Tariff, units: seq<UploadUnit>) returns (total: nat)
    ensures total == UnitGas(t, units) + BATCH_CALL_OVERHEAD
    ensures total == t.perByteGas * |Join(units)| + t.perFileOverhead * |units| + 10_000
  {
    SumsExactly(t, units);
    total := 0;
    for i := 0 to |units|
      invariant total == UnitGas(t, units[..i])
    {
      assert units[..i + 1][..i] == units[..i];
      total := total + EstimateFileGas(t, |units[i].data|);
    }
    assert units[..|units|] == units;
    total := total + BATCH_CALL_OVERHEAD;
  }
}
