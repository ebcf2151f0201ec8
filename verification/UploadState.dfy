// The confirmed-chunk bookkeeping of cli/src/upload.ts: which chunk each Store
// log of a receipt is credited to, what survives a resume, and when the count
// check lets a manifest be built.
module UploadState {
  import opened Evmfs
  import opened Batching
  import opened Manifests

  datatype ConfirmedChunk = ConfirmedChunk(fileIndex: nat, chunkIndex: nat, totalChunks: nat, hash: Hash, block: nat)
  {
    function Key(): (nat, nat) {
      (fileIndex, chunkIndex)
    }

    function Ref(): ChunkRef {
      ChunkRef(hash, block)
    }
  }

  datatype State = State(chunks: seq<ConfirmedChunk>, manifestHash: Option<Hash>)

  /** The state file: none, the current format, the pre-chunking format
      (file index and hash pairs), or anything else that parses. */
  datatype SavedFile =
    | NoFile
    | Current(state: State)
    | Legacy(uploaded: seq<(nat, Hash)>, manifestHash: Option<Hash>)
    | Unrecognised

  function LoadUploadState(saved: SavedFile): Option<State> {
    match saved
    case NoFile => None
    case Current(state) => Some(state)
    case Legacy(uploaded, manifestHash) =>
      Some(State(seq(|uploaded|, i requires 0 <= i < |uploaded| =>
                   ConfirmedChunk(uploaded[i].0, 0, 1, uploaded[i].1, 0)), manifestHash))
    case Unrecognised => None
  }

  // ---------- Stale entries and remaining units ----------

  /** A saved entry is kept when some unit has its file, chunk and chunk count. */
  predicate SameGeometry(c: ConfirmedChunk, units: seq<UploadUnit>) {
    exists u <- units :: u.fileIndex == c.fileIndex && u.chunkIndex == c.chunkIndex && u.totalChunks == c.totalChunks
  }

  function KeepValid(chunks: seq<ConfirmedChunk>, units: seq<UploadUnit>): seq<ConfirmedChunk> {
    if chunks == [] then []
    else
      var rest, c := KeepValid(chunks[..|chunks| - 1], units), chunks[|chunks| - 1];
      if SameGeometry(c, units) then rest + [c] else rest
  }

  function Keys(chunks: seq<ConfirmedChunk>): seq<(nat, nat)> {
    seq(|chunks|, i requires 0 <= i < |chunks| => chunks[i].Key())
  }

  function Remaining(units: seq<UploadUnit>, confirmed: seq<(nat, nat)>): seq<UploadUnit> {
    if units == [] then []
    else
      var rest, u := Remaining(units[..|units| - 1], confirmed), units[|units| - 1];
      if u.Key() in confirmed then rest else rest + [u]
  }

  lemma {:induction false} RemainingMembers(units: seq<UploadUnit>, confirmed: seq<(nat, nat)>, u: UploadUnit)
    ensures u in Remaining(units, confirmed) <==> u in units && u.Key() !in confirmed
  {
    if units != [] {
      RemainingMembers(units[..|units| - 1], confirmed, u);
      assert units == units[..|units| - 1] + [units[|units| - 1]];
    }
  }

  lemma {:induction false} RemainingDistinct(units: seq<UploadUnit>, confirmed: seq<(nat, nat)>)
    requires DistinctKeys(units)
    ensures DistinctKeys(Remaining(units, confirmed))
  {
    if units != [] {
      var init := units[..|units| - 1];
      RemainingDistinct(init, confirmed);
      forall v | v in Remaining(init, confirmed)
        ensures v.Key() != units[|units| - 1].Key()
      {
        RemainingMembers(init, confirmed, v);
      }
    }
  }

  ghost predicate InUploadOrder(units: seq<UploadUnit>) {
    forall i, j :: 0 <= i < j < |units| ==> Precedes(units[i], units[j])
  }

  /** What is left goes up in the same order. */
  lemma {:induction false} RemainingInOrder(units: seq<UploadUnit>, confirmed: seq<(nat, nat)>)
    requires InUploadOrder(units)
    ensures InUploadOrder(Remaining(units, confirmed))
  {
    if units != [] {
      var init, last := units[..|units| - 1], units[|units| - 1];
      RemainingInOrder(init, confirmed);
      forall v | v in Remaining(init, confirmed)
        ensures Precedes(v, last)
      {
        RemainingMembers(init, confirmed, v);
        var i :| 0 <= i < |init| && init[i] == v;
      }
    }
  }

  lemma {:induction false} KeepValidMembers(chunks: seq<ConfirmedChunk>, units: seq<UploadUnit>, c: ConfirmedChunk)
    ensures c in KeepValid(chunks, units) <==> c in chunks && SameGeometry(c, units)
  {
    if chunks != [] {
      KeepValidMembers(chunks[..|chunks| - 1], units, c);
      assert chunks == chunks[..|chunks| - 1] + [chunks[|chunks| - 1]];
    }
  }

  lemma {:induction false} KeepValidIdempotent(chunks: seq<ConfirmedChunk>, units: seq<UploadUnit>)
    requires forall c <- chunks :: SameGeometry(c, units)
    ensures KeepValid(chunks, units) == chunks
  {
    if chunks != [] {
      assert chunks == chunks[..|chunks| - 1] + [chunks[|chunks| - 1]];
      KeepValidIdempotent(chunks[..|chunks| - 1], units);
    }
  }

  // ---------- Crediting receipts ----------

  /** `new Map(units.map(u => [hash(u), u]))`: for equal data the last unit wins. */
  function HashToUnit(units: seq<UploadUnit>): map<Hash, UploadUnit> {
    if units == [] then map[]
    else HashToUnit(units[..|units| - 1])[Keccak256(units[|units| - 1].data) := units[|units| - 1]]
  }

  lemma {:induction false} HashToUnitFinds(units: seq<UploadUnit>, j: nat)
    requires j < |units|
    ensures var m, h := HashToUnit(units), Keccak256(units[j].data);
            h in m && m[h] in units && m[h].data == units[j].data
    ensures (forall i :: 0 <= i < |units| && i != j ==> units[i].data != units[j].data)
        ==> HashToUnit(units)[Keccak256(units[j].data)] == units[j]
  {
    var n := |units| - 1;
    if units[n].data != units[j].data {
      HashToUnitFinds(units[..n], j);
    }
  }

  /** The unit a log with this unit's data is credited to. */
  function Credited(units: seq<UploadUnit>, j: nat): (u: UploadUnit)
    requires j < |units|
    ensures u in units && u.data == units[j].data
  {
    HashToUnitFinds(units, j);
    HashToUnit(units)[Keccak256(units[j].data)]
  }

  function Confirm(u: UploadUnit, hash: Hash, block: nat): ConfirmedChunk {
    ConfirmedChunk(u.fileIndex, u.chunkIndex, u.totalChunks, hash, block)
  }

  /** The keys one confirmed batch adds to the state. */
  function BatchKeys(units: seq<UploadUnit>): seq<(nat, nat)> {
    seq(|units|, j requires 0 <= j < |units| => Credited(units, j).Key())
  }

  function PlanKeys(groups: seq<seq<UploadUnit>>): seq<(nat, nat)> {
    if groups == [] then [] else PlanKeys(groups[..|groups| - 1]) + BatchKeys(groups[|groups| - 1])
  }

  /** No two units of a batch have the same bytes. */
  ghost predicate DistinctData(units: seq<UploadUnit>) {
    forall i, j :: 0 <= i < j < |units| ==> units[i].data != units[j].data
  }

  ghost predicate OnceEach(keys: seq<(nat, nat)>, units: seq<UploadUnit>) {
    forall u <- units :: multiset(keys)[u.Key()] == 1
  }

  lemma {:induction false} TwicePresent<T>(s: seq<T>, i: nat, j: nat)
    requires i < j < |s| && s[i] == s[j]
    ensures multiset(s)[s[i]] >= 2
  {
    assert s == s[..j] + s[j..];
    assert s[i] in s[..j] && s[j] in s[j..];
  }

  lemma {:induction false} OncePresent<T>(s: seq<T>, j: nat)
    requires j < |s| && forall i :: 0 <= i < |s| && i != j ==> s[i] != s[j]
    ensures multiset(s)[s[j]] == 1
  {
    assert s == s[..j] + [s[j]] + s[j + 1..];
    assert s[j] !in s[..j] && s[j] !in s[j + 1..];
  }

  /** A unit whose bytes no other unit of its batch has is credited exactly once. */
  lemma {:induction false} UniqueDataCreditedOnce(units: seq<UploadUnit>, j: nat)
    requires j < |units| && DistinctKeys(units)
    requires forall i :: 0 <= i < |units| && i != j ==> units[i].data != units[j].data
    ensures multiset(BatchKeys(units))[units[j].Key()] == 1
  {
    HashToUnitFinds(units, j);
    forall i | 0 <= i < |units| && i != j
      ensures BatchKeys(units)[i] != units[j].Key()
    {
      var c := Credited(units, i);
      assert c.data == units[i].data;
      var k :| 0 <= k < |units| && units[k] == c;
    }
    OncePresent(BatchKeys(units), j);
  }

  /** Two units with equal bytes are both credited to one of them. */
  lemma {:induction false} EqualDataLosesOne(units: seq<UploadUnit>, i: nat, j: nat)
    requires i < j < |units| && DistinctKeys(units) && units[i].data == units[j].data
    ensures exists u :: u in units && u.Key() !in BatchKeys(units)
  {
    var w := Credited(units, i);
    var lost := if w == units[i] then units[j] else units[i];
    assert lost.Key() != w.Key() by {
      var k :| 0 <= k < |units| && units[k] == w;
    }
    forall k | 0 <= k < |units|
      ensures BatchKeys(units)[k] != lost.Key()
    {
      var c := Credited(units, k);
      var p :| 0 <= p < |units| && units[p] == c;
    }
    assert lost in units;
  }

  /** When a unit is never credited, another one is credited twice. */
  lemma {:induction false} LostMeansTwice(units: seq<UploadUnit>, u: UploadUnit) returns (w: UploadUnit)
    requires u in units && u.Key() !in BatchKeys(units)
    ensures w in units && multiset(BatchKeys(units))[w.Key()] >= 2
  {
    var j :| 0 <= j < |units| && units[j] == u;
    w := Credited(units, j);
    var p :| 0 <= p < |units| && units[p] == w;
    assert BatchKeys(units)[j] == w.Key() == BatchKeys(units)[p] && p != j;
    if j < p { TwicePresent(BatchKeys(units), j, p); } else { TwicePresent(BatchKeys(units), p, j); }
  }

  lemma {:induction false} PlanHasBatchKeys(groups: seq<seq<UploadUnit>>, k: nat)
    requires k < |groups|
    ensures multiset(BatchKeys(groups[k])) <= multiset(PlanKeys(groups))
  {
    if k < |groups| - 1 {
      PlanHasBatchKeys(groups[..|groups| - 1], k);
    }
  }

  /** A batch credits each of its units once, or loses one: it depends only on
      whether two units have the same bytes. */
  lemma {:induction false} CreditsExactly(units: seq<UploadUnit>)
    requires DistinctKeys(units)
    ensures OnceEach(BatchKeys(units), units) <==> DistinctData(units)
  {
    if DistinctData(units) {
      forall u | u in units
        ensures multiset(BatchKeys(units))[u.Key()] == 1
      {
        var j :| 0 <= j < |units| && units[j] == u;
        UniqueDataCreditedOnce(units, j);
      }
    } else {
      var i, j :| 0 <= i < j < |units| && units[i].data == units[j].data;
      EqualDataLosesOne(units, i, j);
    }
  }

  lemma {:induction false} BatchKeysAreUnitKeys(units: seq<UploadUnit>, key: (nat, nat))
    requires key in BatchKeys(units)
    ensures exists u :: u in units && u.Key() == key
  {
  }

  // ---------- Whole plans ----------

  lemma {:induction false} DistinctHalves(a: seq<UploadUnit>, b: seq<UploadUnit>)
    requires DistinctKeys(a + b)
    ensures DistinctKeys(a) && DistinctKeys(b)
  {
    forall i, j | 0 <= i < j < |a|
      ensures a[i].Key() != a[j].Key()
    {
      assert (a + b)[i] == a[i] && (a + b)[j] == a[j];
    }
    forall i, j | 0 <= i < j < |b|
      ensures b[i].Key() != b[j].Key()
    {
      assert (a + b)[|a| + i] == b[i] && (a + b)[|a| + j] == b[j];
    }
  }

  lemma {:induction false} DistinctApart(a: seq<UploadUnit>, b: seq<UploadUnit>, u: UploadUnit, v: UploadUnit)
    requires DistinctKeys(a + b) && u in a && v in b
    ensures u.Key() != v.Key()
  {
    var i :| 0 <= i < |a| && a[i] == u;
    var j :| 0 <= j < |b| && b[j] == v;
    assert (a + b)[i] == u && (a + b)[|a| + j] == v;
  }

  lemma {:induction false} PlanKeysAreUnitKeys(groups: seq<seq<UploadUnit>>, key: (nat, nat))
    requires key in PlanKeys(groups)
    ensures exists u :: u in Flatten(groups) && u.Key() == key
  {
    var n := |groups| - 1;
    if key in PlanKeys(groups[..n]) {
      PlanKeysAreUnitKeys(groups[..n], key);
    } else {
      BatchKeysAreUnitKeys(groups[n], key);
    }
  }

  /** What the plan before a batch credits has nothing to do with the batch. */
  lemma {:induction false} CreditsApart(init: seq<seq<UploadUnit>>, g: seq<UploadUnit>, u: UploadUnit)
    requires DistinctKeys(Flatten(init) + g)
    ensures u in Flatten(init) ==> u.Key() !in BatchKeys(g)
    ensures u in g ==> u.Key() !in PlanKeys(init)
  {
    if u in Flatten(init) && u.Key() in BatchKeys(g) {
      BatchKeysAreUnitKeys(g, u.Key());
      var v :| v in g && v.Key() == u.Key();
      DistinctApart(Flatten(init), g, u, v);
    }
    if u in g && u.Key() in PlanKeys(init) {
      PlanKeysAreUnitKeys(init, u.Key());
      var v :| v in Flatten(init) && v.Key() == u.Key();
      DistinctApart(Flatten(init), g, v, u);
    }
  }

  lemma {:induction false} CreditsSeparate(init: seq<seq<UploadUnit>>, g: seq<UploadUnit>)
    requires DistinctKeys(Flatten(init) + g)
    ensures OnceEach(PlanKeys(init) + BatchKeys(g), Flatten(init) + g)
        <==> OnceEach(PlanKeys(init), Flatten(init)) && OnceEach(BatchKeys(g), g)
  {
    var a, b := PlanKeys(init), BatchKeys(g);
    forall u | u in Flatten(init)
      ensures multiset(a + b)[u.Key()] == multiset(a)[u.Key()]
    {
      CreditsApart(init, g, u);
    }
    forall u | u in g
      ensures multiset(a + b)[u.Key()] == multiset(b)[u.Key()]
    {
      CreditsApart(init, g, u);
    }
    assert forall u :: u in Flatten(init) + g <==> u in Flatten(init) || u in g;
  }

  /** A plan credits each of its units once iff no batch holds two equal units. */
  lemma {:induction false} PlanCreditsExactly(groups: seq<seq<UploadUnit>>)
    requires DistinctKeys(Flatten(groups))
    ensures OnceEach(PlanKeys(groups), Flatten(groups)) <==> forall g <- groups :: DistinctData(g)
  {
    if groups != [] {
      var n := |groups| - 1;
      var init, g := groups[..n], groups[n];
      DistinctHalves(Flatten(init), g);
      PlanCreditsExactly(init);
      CreditsExactly(g);
      CreditsSeparate(init, g);
      LastOrBefore(groups);
    }
  }

  lemma {:induction false} LastOrBefore(groups: seq<seq<UploadUnit>>)
    requires groups != []
    ensures (forall g <- groups :: DistinctData(g))
       <==> (forall g <- groups[..|groups| - 1] :: DistinctData(g)) && DistinctData(groups[|groups| - 1])
  {
  }

  /** Units other than a file's last chunk are credited exactly once whatever
      the contents: a full chunk leaves no room for another chunk with bytes. */
  ghost predicate BigOnesOnce(keys: seq<(nat, nat)>, units: seq<UploadUnit>) {
    forall u <- units :: !u.IsLast() ==> multiset(keys)[u.Key()] == 1
  }

  lemma {:induction false} MemberBytes(units: seq<UploadUnit>, i: nat, j: nat)
    requires i < j < |units|
    ensures |units[i].data| + |units[j].data| <= ByteSize(units)
  {
    var n := |units| - 1;
    if j < n {
      MemberBytes(units[..n], i, j);
    } else {
      OneMemberBytes(units[..n], i);
    }
  }

  lemma {:induction false} OneMemberBytes(units: seq<UploadUnit>, i: nat)
    requires i < |units|
    ensures |units[i].data| <= ByteSize(units)
  {
    if i < |units| - 1 {
      OneMemberBytes(units[..|units| - 1], i);
    }
  }

  lemma {:induction false} FullChunkHasNoTwin(files: seq<FileEntry>, units: seq<UploadUnit>, j: nat, i: nat)
    requires Numbered(files) && forall u <- units :: u in AllUnits(files)
    requires ByteSize(units) <= MAX_BATCH_BYTES
    requires i < |units| && j < |units| && i != j && !units[j].IsLast()
    ensures units[i].data != units[j].data
  {
    UnitIsChunk(files, units[j]);
    ChunkSizes(files[units[j].fileIndex], units[j].chunkIndex);
    if i < j { MemberBytes(units, i, j); } else { MemberBytes(units, j, i); }
  }

  lemma {:induction false} BatchCreditsBigOnes(files: seq<FileEntry>, units: seq<UploadUnit>)
    requires Numbered(files) && forall u <- units :: u in AllUnits(files)
    requires ByteSize(units) <= MAX_BATCH_BYTES && DistinctKeys(units)
    ensures BigOnesOnce(BatchKeys(units), units)
  {
    forall u | u in units && !u.IsLast()
      ensures multiset(BatchKeys(units))[u.Key()] == 1
    {
      var j :| 0 <= j < |units| && units[j] == u;
      forall i | 0 <= i < |units| && i != j
        ensures units[i].data != units[j].data
      {
        FullChunkHasNoTwin(files, units, j, i);
      }
      UniqueDataCreditedOnce(units, j);
    }
  }

  lemma {:induction false} PlanCreditsBigOnes(files: seq<FileEntry>, groups: seq<seq<UploadUnit>>)
    requires Numbered(files) && forall u <- Flatten(groups) :: u in AllUnits(files)
    requires forall g <- groups :: ByteSize(g) <= MAX_BATCH_BYTES
    requires DistinctKeys(Flatten(groups))
    ensures BigOnesOnce(PlanKeys(groups), Flatten(groups))
  {
    if groups != [] {
      var n := |groups| - 1;
      var init, g := groups[..n], groups[n];
      DistinctHalves(Flatten(init), g);
      PlanCreditsBigOnes(files, init);
      BatchCreditsBigOnes(files, g);
      forall u | u in Flatten(groups) && !u.IsLast()
        ensures multiset(PlanKeys(groups))[u.Key()] == 1
      {
        CreditsApart(init, g, u);
      }
    }
  }
}
