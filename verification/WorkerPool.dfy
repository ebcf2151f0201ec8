// lib/src/index.ts, fetchAll: a pool of async loops sharing one index. The
// language runs one of them at a time, from one await to the next, so a step
// is a fetch that settles and everything its loop then does before awaiting
// again.
module WorkerPool {
  import opened Evmfs
  import opened Manifests
  import opened Decimals

  /** A manifest entry as work: its key and the bytes fetchEntry resolves to. */
  datatype Item = Item(key: string, content: Bytes)

  datatype Worker =
    | Awaiting(item: nat)   // its fetch is outstanding
    | Ended                 // left the loop
    | Rejected(item: nat)   // its fetch failed

  /** `idx` and `result` are the program's; `started` and `settled` list the
      fetchEntry calls made and the results stored, in order. */
  datatype State = State(idx: nat, workers: seq<Worker>, result: map<string, Bytes>,
                         started: seq<nat>, settled: seq<nat>)

  datatype Event = Resolve(w: nat) | Reject(w: nat)

  /** How many loops are started. */
  function PoolSize(work: seq<Item>, concurrency: nat): nat {
    if concurrency < |work| then concurrency else |work|
  }

  /** The loop that fills the pool: each runNext() runs up to its first await. */
  function Start(work: seq<Item>, concurrency: nat): State {
    var m := PoolSize(work, concurrency);
    State(m, seq(m, i requires 0 <= i < m => Awaiting(i)), map[], seq(m, i requires 0 <= i < m => i), [])
  }

  predicate Enabled(s: State, e: Event) {
    e.w < |s.workers| && s.workers[e.w].Awaiting?
  }

  function Step(work: seq<Item>, s: State, e: Event): State
    requires Enabled(s, e)
  {
    var item := s.workers[e.w].item;
    if e.Reject? then s.(workers := s.workers[e.w := Rejected(item)])
    else
      var result := if item < |work| then s.result[work[item].key := work[item].content] else s.result;
      var stored := s.(result := result, settled := s.settled + [item]);
      if s.idx < |work|
      then stored.(workers := s.workers[e.w := Awaiting(s.idx)], idx := s.idx + 1, started := s.started + [s.idx])
      else stored.(workers := s.workers[e.w := Ended])
  }

  /** Any order of settling; events of loops that await nothing are skipped. */
  function Exec(work: seq<Item>, concurrency: nat, schedule: seq<Event>): State {
    if schedule == [] then Start(work, concurrency)
    else
      var s, e := Exec(work, concurrency, schedule[..|schedule| - 1]), schedule[|schedule| - 1];
      if Enabled(s, e) then Step(work, s, e) else s
  }

  /** `await Promise.all(pool)` resolves. */
  predicate Resolved(s: State) {
    forall w <- s.workers :: w.Ended?
  }

  // ---------- The invariant ----------

  predicate Holds(w: Worker, item: nat) {
    !w.Ended? && w.item == item
  }

  function UpTo(n: nat): seq<nat> {
    seq(n, i requires 0 <= i < n => i)
  }

  /** Every item taken is held by one loop or stored, never both, never twice. */
  ghost predicate Accounted(s: State, item: nat) {
    (exists w :: 0 <= w < |s.workers| && Holds(s.workers[w], item)) || item in s.settled
  }

  ghost predicate HeldOnce(s: State) {
    && (forall v, w :: 0 <= v < w < |s.workers| && !s.workers[v].Ended? && !s.workers[w].Ended?
          ==> s.workers[v].item != s.workers[w].item)
    && (forall w :: 0 <= w < |s.workers| && !s.workers[w].Ended? ==> s.workers[w].item !in s.settled)
    && (forall i, j :: 0 <= i < j < |s.settled| ==> s.settled[i] != s.settled[j])
  }

  ghost predicate Bounds(work: seq<Item>, concurrency: nat, s: State) {
    && |s.workers| == PoolSize(work, concurrency) <= s.idx <= |work|
    && s.started == UpTo(s.idx)
    && (forall i <- s.settled :: i < s.idx)
    && (forall w <- s.workers :: if w.Ended? then s.idx == |work| else w.item < s.idx)
  }

  ghost predicate Inv(work: seq<Item>, concurrency: nat, s: State) {
    && Bounds(work, concurrency, s)
    && HeldOnce(s)
    && (forall i :: 0 <= i < s.idx ==> Accounted(s, i))
    && s.result == MapAfter(work, s.settled)
  }

  /** The map after storing these items in this order. */
  function MapAfter(work: seq<Item>, order: seq<nat>): map<string, Bytes> {
    if order == [] then map[]
    else
      var before, i := MapAfter(work, order[..|order| - 1]), order[|order| - 1];
      if i < |work| then before[work[i].key := work[i].content] else before
  }

  lemma {:induction false} StepKeepsBounds(work: seq<Item>, concurrency: nat, s: State, e: Event)
    requires Inv(work, concurrency, s) && Enabled(s, e)
    ensures Bounds(work, concurrency, Step(work, s, e))
  {
  }

  lemma {:induction false} StepKeepsHeldOnce(work: seq<Item>, concurrency: nat, s: State, e: Event)
    requires Inv(work, concurrency, s) && Enabled(s, e)
    ensures HeldOnce(Step(work, s, e))
  {
    assert forall w :: 0 <= w < |s.workers| ==> s.workers[w] in s.workers;
  }

  lemma {:induction false} StepKeepsAccounts(work: seq<Item>, concurrency: nat, s: State, e: Event, i: nat)
    requires Inv(work, concurrency, s) && Enabled(s, e) && i < Step(work, s, e).idx
    ensures Accounted(Step(work, s, e), i)
  {
    var t := Step(work, s, e);
    if i == s.idx {
      assert Holds(t.workers[e.w], i);
    } else {
      assert Accounted(s, i);
      if i !in s.settled {
        var w :| 0 <= w < |s.workers| && Holds(s.workers[w], i);
        assert w != e.w ==> Holds(t.workers[w], i);
        assert w == e.w && e.Reject? ==> Holds(t.workers[w], i);
        assert w == e.w && e.Resolve? ==> t.settled[|s.settled|] == i;
      }
    }
  }

  lemma {:induction false} StepKeepsInv(work: seq<Item>, concurrency: nat, s: State, e: Event)
    requires Inv(work, concurrency, s) && Enabled(s, e)
    ensures Inv(work, concurrency, Step(work, s, e))
  {
    var t := Step(work, s, e);
    StepKeepsBounds(work, concurrency, s, e);
    StepKeepsHeldOnce(work, concurrency, s, e);
    forall i | 0 <= i < t.idx
      ensures Accounted(t, i)
    {
      StepKeepsAccounts(work, concurrency, s, e, i);
    }
    assert s.workers[e.w] in s.workers;
    if e.Resolve? {
      assert t.settled[..|s.settled|] == s.settled;
    }
  }

  lemma {:induction false} Reachable(work: seq<Item>, concurrency: nat, schedule: seq<Event>)
    ensures Inv(work, concurrency, Exec(work, concurrency, schedule))
  {
    if schedule == [] {
      var s := Start(work, concurrency);
      forall i | 0 <= i < s.idx
        ensures Accounted(s, i)
      {
        assert Holds(s.workers[i], i);
      }
    } else {
      var s, e := Exec(work, concurrency, schedule[..|schedule| - 1]), schedule[|schedule| - 1];
      Reachable(work, concurrency, schedule[..|schedule| - 1]);
      if Enabled(s, e) {
        StepKeepsInv(work, concurrency, s, e);
      }
    }
  }

  // ---------- What fetchAll promises ----------

  function Outstanding(ws: seq<Worker>): nat {
    if ws == [] then 0 else Outstanding(ws[..|ws| - 1]) + if ws[|ws| - 1].Awaiting? then 1 else 0
  }

  lemma {:induction false} AtMostEveryWorker(ws: seq<Worker>)
    ensures Outstanding(ws) <= |ws|
  {
    if ws != [] {
      AtMostEveryWorker(ws[..|ws| - 1]);
    }
  }

  /** At any moment no entry has been fetched twice, entries were taken in
      order, and at most `concurrency` fetches are outstanding. */
  lemma {:induction false} FetchesInOrderAndBounded(work: seq<Item>, concurrency: nat, schedule: seq<Event>)
    ensures var s := Exec(work, concurrency, schedule);
            && s.started == UpTo(|s.started|) && |s.started| <= |work|
            && Outstanding(s.workers) <= PoolSize(work, concurrency) <= concurrency
  {
    Reachable(work, concurrency, schedule);
    AtMostEveryWorker(Exec(work, concurrency, schedule).workers);
  }

  /** How many fetches are outstanding, counted as a set. */
  lemma {:induction false} OutstandingExactly(ws: seq<Worker>)
    ensures Outstanding(ws) == |set w | 0 <= w < |ws| && ws[w].Awaiting?|
  {
    if ws != [] {
      var n := |ws| - 1;
      OutstandingExactly(ws[..n]);
      var all, init := set w | 0 <= w < |ws| && ws[w].Awaiting?, set w | 0 <= w < n && ws[..n][w].Awaiting?;
      assert all == if ws[n].Awaiting? then init + {n} else init;
    }
  }

  /** And the bound is met from the start, as far as there are entries. */
  lemma {:induction false} PoolStartsFull(work: seq<Item>, concurrency: nat)
    ensures var ws := Exec(work, concurrency, []).workers;
            Outstanding(ws) == |ws| == if concurrency < |work| then concurrency else |work|
  {
    var ws := Start(work, concurrency).workers;
    AllOutstanding(ws);
  }

  lemma {:induction false} AllOutstanding(ws: seq<Worker>)
    requires forall w <- ws :: w.Awaiting?
    ensures Outstanding(ws) == |ws|
  {
    if ws != [] {
      assert ws[|ws| - 1] in ws;
      AllOutstanding(ws[..|ws| - 1]);
    }
  }

  /** A call that resolves has fetched every entry exactly once and stored
      every entry exactly once, in some order. */
  lemma {:induction false} EachEntryFetchedOnce(work: seq<Item>, concurrency: nat, schedule: seq<Event>)
    requires concurrency >= 1 && Resolved(Exec(work, concurrency, schedule))
    ensures var s := Exec(work, concurrency, schedule);
            && s.started == UpTo(|work|)
            && multiset(s.settled) == multiset(UpTo(|work|))
            && s.result == MapAfter(work, s.settled)
  {
    Reachable(work, concurrency, schedule);
    var s := Exec(work, concurrency, schedule);
    if work != [] {
      assert s.workers[0] in s.workers;
    }
    assert s.idx == |work|;
    forall i: nat
      ensures multiset(s.settled)[i] == multiset(UpTo(|work|))[i]
    {
      Occurrences(s.settled, i);
      Occurrences(UpTo(|work|), i);
      if i < |work| {
        assert Accounted(s, i);
        assert UpTo(|work|)[i] == i;
        assert forall w :: 0 <= w < |s.workers| ==> s.workers[w] in s.workers;
      }
    }
  }

  lemma {:induction false} Occurrences(s: seq<nat>, i: nat)
    requires forall j, k :: 0 <= j < k < |s| ==> s[j] != s[k]
    ensures multiset(s)[i] == if i in s then 1 else 0
  {
    if s != [] {
      var n := |s| - 1;
      assert s == s[..n] + [s[n]];
      Occurrences(s[..n], i);
    }
  }

  // ---------- The resulting map ----------

  /** Fetching one entry after the other. */
  function Sequential(work: seq<Item>): map<string, Bytes> {
    MapAfter(work, UpTo(|work|))
  }

  lemma {:induction false} StoredKeys(work: seq<Item>, order: seq<nat>, key: string)
    ensures key in MapAfter(work, order) <==> exists i :: i in order && i < |work| && work[i].key == key
  {
    if order != [] {
      var init, last := order[..|order| - 1], order[|order| - 1];
      assert order == init + [last];
      StoredKeys(work, init, key);
    }
  }

  lemma {:induction false} StoredValue(work: seq<Item>, order: seq<nat>, key: string)
    requires key in MapAfter(work, order)
    ensures exists i :: i in order && i < |work| && work[i].key == key && MapAfter(work, order)[key] == work[i].content
  {
    var init, last := order[..|order| - 1], order[|order| - 1];
    assert order == init + [last];
    if !(last < |work| && work[last].key == key) {
      StoredValue(work, init, key);
    }
  }

  /** Entries with one key have one content; distinct keys are a special case. */
  ghost predicate Consistent(work: seq<Item>) {
    forall i, j :: 0 <= i < |work| && 0 <= j < |work| && work[i].key == work[j].key ==>
                     work[i].content == work[j].content
  }

  /** Then the order of settling does not show. */
  lemma {:induction false} OrderDoesNotShow(work: seq<Item>, order: seq<nat>)
    requires Consistent(work) && multiset(order) == multiset(UpTo(|work|))
    ensures MapAfter(work, order) == Sequential(work)
  {
    assert forall i :: i in order <==> i in multiset(order);
    assert forall i :: i in UpTo(|work|) <==> i in multiset(UpTo(|work|));
    forall key: string
      ensures key in MapAfter(work, order) <==> key in Sequential(work)
      ensures key in MapAfter(work, order) ==> MapAfter(work, order)[key] == Sequential(work)[key]
    {
      StoredKeys(work, order, key);
      StoredKeys(work, UpTo(|work|), key);
      if key in MapAfter(work, order) {
        StoredValue(work, order, key);
        StoredValue(work, UpTo(|work|), key);
      }
    }
  }

  /** For every interleaving: the map is the sequential one. */
  lemma {:induction false} PoolIsSequential(work: seq<Item>, concurrency: nat, schedule: seq<Event>)
    requires concurrency >= 1 && Consistent(work)
    requires Resolved(Exec(work, concurrency, schedule))
    ensures Exec(work, concurrency, schedule).result == Sequential(work)
  {
    EachEntryFetchedOnce(work, concurrency, schedule);
    OrderDoesNotShow(work, Exec(work, concurrency, schedule).settled);
  }

  // ---------- When the order of settling shows ----------

  lemma {:induction false} OutstandingAfterUpdate(ws: seq<Worker>, i: nat, w: Worker)
    requires i < |ws|
    ensures Outstanding(ws[i := w])
         == Outstanding(ws) - (if ws[i].Awaiting? then 1 else 0) + (if w.Awaiting? then 1 else 0)
  {
    var n := |ws| - 1;
    if i == n {
      assert ws[i := w][..n] == ws[..n];
    } else {
      assert ws[i := w][..n] == ws[..n][i := w];
      OutstandingAfterUpdate(ws[..n], i, w);
    }
  }

  function MovesLeft(work: seq<Item>, s: State): int {
    |work| - s.idx + Outstanding(s.workers)
  }

  ghost predicate NoneRejected(s: State) {
    forall w <- s.workers :: !w.Rejected?
  }

  ghost predicate OnlyHolder(s: State, w: nat, item: nat) {
    && w < |s.workers| && s.workers[w] == Awaiting(item)
    && forall v :: 0 <= v < |s.workers| && v != w ==> s.workers[v].Ended?
  }

  lemma {:induction false} ResolveUsesUpAMove(work: seq<Item>, concurrency: nat, s: State, v: nat)
    requires Inv(work, concurrency, s) && NoneRejected(s) && Enabled(s, Resolve(v))
    ensures var t := Step(work, s, Resolve(v));
            && NoneRejected(t) && t.settled == s.settled + [s.workers[v].item]
            && 0 <= MovesLeft(work, t) < MovesLeft(work, s)
  {
    var t := Step(work, s, Resolve(v));
    StepKeepsBounds(work, concurrency, s, Resolve(v));
    OutstandingAfterUpdate(s.workers, v, t.workers[v]);
    forall w | w in t.workers
      ensures !w.Rejected?
    {
      var k :| 0 <= k < |t.workers| && t.workers[k] == w;
      assert s.workers[k] in s.workers;
    }
  }

  /** The fetch of item i may be the last to settle. */
  lemma {:induction false} Delay(work: seq<Item>, concurrency: nat, schedule: seq<Event>, i: nat)
    returns (longer: seq<Event>, w: nat)
    requires i < |work| && concurrency >= 1
    requires i !in Exec(work, concurrency, schedule).settled && NoneRejected(Exec(work, concurrency, schedule))
    ensures OnlyHolder(Exec(work, concurrency, longer), w, i)
    decreases MovesLeft(work, Exec(work, concurrency, schedule))
  {
    Reachable(work, concurrency, schedule);
    var s := Exec(work, concurrency, schedule);
    if v: nat :| Enabled(s, Resolve(v)) && s.workers[v].item != i {
      ResolveUsesUpAMove(work, concurrency, s, v);
      assert (schedule + [Resolve(v)])[..|schedule|] == schedule;
      longer, w := Delay(work, concurrency, schedule + [Resolve(v)], i);
    } else {
      assert forall v: nat :: v < |s.workers| && s.workers[v].Awaiting? ==> Enabled(s, Resolve(v));
      w := HolderFound(work, concurrency, s, i);
      longer := schedule;
    }
  }

  lemma {:induction false} HolderFound(work: seq<Item>, concurrency: nat, s: State, i: nat) returns (w: nat)
    requires Inv(work, concurrency, s) && NoneRejected(s) && concurrency >= 1
    requires i < |work| && i !in s.settled
    requires forall v :: 0 <= v < |s.workers| && s.workers[v].Awaiting? ==> s.workers[v].item == i
    ensures OnlyHolder(s, w, i)
  {
    assert s.workers[0] in s.workers;
    assert i < s.idx;
    assert Accounted(s, i);
    w :| w < |s.workers| && Holds(s.workers[w], i);
    assert forall v :: 0 <= v < |s.workers| ==> s.workers[v] in s.workers;
  }

  /** With two loops or more, every interleaving gives the sequential map iff
      entries that share a key share their content. */
  lemma {:induction false} AlwaysSequentialExactly(work: seq<Item>, concurrency: nat)
    requires concurrency >= 2
    ensures Consistent(work) <==>
            forall schedule :: Resolved(Exec(work, concurrency, schedule))
                               ==> Exec(work, concurrency, schedule).result == Sequential(work)
  {
    if Consistent(work) {
      forall schedule | Resolved(Exec(work, concurrency, schedule))
        ensures Exec(work, concurrency, schedule).result == Sequential(work)
      {
        PoolIsSequential(work, concurrency, schedule);
      }
    } else {
      var i, j :| 0 <= i < |work| && 0 <= j < |work|
                  && work[i].key == work[j].key && work[i].content != work[j].content;
      assert UpTo(|work|)[i] == i;
      StoredKeys(work, UpTo(|work|), work[i].key);
      var loser := if Sequential(work)[work[i].key] == work[i].content then j else i;
      var schedule := LetWin(work, concurrency, loser);
      assert Exec(work, concurrency, schedule).result != Sequential(work);
    }
  }

  lemma {:induction false} LetWin(work: seq<Item>, concurrency: nat, i: nat) returns (schedule: seq<Event>)
    requires concurrency >= 2 && |work| >= 2 && i < |work|
    ensures var s := Exec(work, concurrency, schedule);
            Resolved(s) && work[i].key in s.result && s.result[work[i].key] == work[i].content
  {
    var before, w := Delay(work, concurrency, [], i);
    Reachable(work, concurrency, before);
    var s := Exec(work, concurrency, before);
    var other := if w == 0 then 1 else 0;
    assert s.workers[other] in s.workers;
    schedule := before + [Resolve(w)];
    assert schedule[..|before|] == before;
  }

  // ---------- Reassembling an entry ----------

  /** fetchEntry's copy of the parts into one buffer. */
  method CombineParts(parts: seq<Bytes>) returns (combined: array<byte>)
    ensures fresh(combined) && combined[..] == Concat(parts)
  {
    var totalLen := 0;
    for i := 0 to |parts|
      invariant totalLen == |Concat(parts[..i])|
    {
      assert parts[..i + 1][..i] == parts[..i];
      totalLen := totalLen + |parts[i]|;
    }
    assert parts[..|parts|] == parts;
    combined := new byte[totalLen];
    var offset := 0;
    for i := 0 to |parts|
      invariant offset == |Concat(parts[..i])| <= totalLen
      invariant combined[..offset] == Concat(parts[..i])
    {
      assert parts[..i + 1][..i] == parts[..i];
      PrefixFits(parts, i + 1);
      ghost var before := combined[..offset];
      forall k | 0 <= k < |parts[i]| {
        combined[offset + k] := parts[i][k];
      }
      assert combined[..offset] == before;
      assert combined[..offset + |parts[i]|] == before + parts[i];
      offset := offset + |parts[i]|;
    }
    assert combined[..] == combined[..offset];
  }

  function Concat(parts: seq<Bytes>): Bytes {
    if parts == [] then [] else Concat(parts[..|parts| - 1]) + parts[|parts| - 1]
  }

  lemma {:induction false} PrefixFits(parts: seq<Bytes>, k: nat)
    requires k <= |parts|
    ensures |Concat(parts[..k])| <= |Concat(parts)|
  {
    if k == |parts| {
      assert parts[..k] == parts;
    } else {
      PrefixFits(parts[..|parts| - 1], k);
      assert parts[..|parts| - 1][..k] == parts[..k];
    }
  }

  function Preimages(refs: seq<ChunkRef>): seq<Bytes> {
    seq(|refs|, i requires 0 <= i < |refs| => refs[i].hash.preimage)
  }

  lemma {:induction false} PartsJoin(refs: seq<ChunkRef>)
    ensures Concat(Preimages(refs)) == JoinRefs(refs)
  {
    if refs != [] {
      assert Preimages(refs)[..|refs| - 1] == Preimages(refs[..|refs| - 1]);
      PartsJoin(refs[..|refs| - 1]);
    }
  }

  // ---------- A whole site ----------

  /** What the library makes of a manifest whose fetches all succeed. */
  ghost function WorkOf(fmt: Format, out: seq<OutputEntry>): seq<Item> {
    seq(|out|, i requires 0 <= i < |out| =>
      Item(if out[i].f.Some? then out[i].f.value else Decimal(i),
           fmt.MaybeGunzip(Concat(Preimages(Parts(Unmarshal(out[i])))))))
  }

  /** A site stored under distinct names comes back whole, whatever the
      interleaving: each name with its file, decompressed if it decompresses,
      and nothing else. */
  lemma {:induction false} StoredSiteComesBack(fmt: Format, log: seq<StoreEvent>, contract: Address, hash: Hash,
                                               out: seq<OutputEntry>, names: seq<string>, contents: seq<Bytes>,
                                               concurrency: nat, schedule: seq<Event>)
    requires |names| == |contents| && concurrency >= 1
    requires forall i :: 0 <= i < |names| ==> names[i] != ""
    requires forall i, j :: 0 <= i < j < |names| ==> names[i] != names[j]
    requires Reproduces(fmt, log, contract, hash, names, contents)
    requires fmt.parse(fmt.MaybeGunzip(hash.preimage)) == Some(Entries(out))
    requires Resolved(Exec(WorkOf(fmt, out), concurrency, schedule))
    ensures var site := Exec(WorkOf(fmt, out), concurrency, schedule).result;
            && (forall i :: 0 <= i < |names| ==> names[i] in site && site[names[i]] == fmt.MaybeGunzip(contents[i]))
            && (forall name <- site :: name in names)
  {
    var served := seq(|contents|, i requires 0 <= i < |contents| => fmt.MaybeGunzip(contents[i]));
    SiteContents(fmt, log, contract, hash, out, names, contents);
    EachEntryFetchedOnce(WorkOf(fmt, out), concurrency, schedule);
    DistinctKeysShow(WorkOf(fmt, out), Exec(WorkOf(fmt, out), concurrency, schedule).settled, names, served);
  }

  /** So a site of the browser uploader, stored as it is, comes back byte for
      byte iff none of its files decompresses to something else. */
  lemma {:induction false} BrowserSiteExactly(fmt: Format, log: seq<StoreEvent>, contract: Address, hash: Hash,
                                              out: seq<OutputEntry>, names: seq<string>, contents: seq<Bytes>,
                                              concurrency: nat, schedule: seq<Event>)
    requires |names| == |contents| && concurrency >= 1
    requires forall i :: 0 <= i < |names| ==> names[i] != ""
    requires forall i, j :: 0 <= i < j < |names| ==> names[i] != names[j]
    requires Reproduces(fmt, log, contract, hash, names, contents)
    requires fmt.parse(fmt.MaybeGunzip(hash.preimage)) == Some(Entries(out))
    requires Resolved(Exec(WorkOf(fmt, out), concurrency, schedule))
    ensures (forall i :: 0 <= i < |names| ==> MapHas(Exec(WorkOf(fmt, out), concurrency, schedule).result,
                                                     names[i], contents[i]))
       <==> forall i :: 0 <= i < |names| ==>
              fmt.gunzip(contents[i]) == None || fmt.gunzip(contents[i]) == Some(contents[i])
  {
    StoredSiteComesBack(fmt, log, contract, hash, out, names, contents, concurrency, schedule);
  }

  predicate MapHas(site: map<string, Bytes>, name: string, content: Bytes) {
    name in site && site[name] == content
  }

  /** And a site of the command line comes back as it was before compression. */
  lemma {:induction false} SiteComesBack(fmt: Format, log: seq<StoreEvent>, contract: Address, hash: Hash,
                                         out: seq<OutputEntry>, names: seq<string>, raws: seq<Bytes>,
                                         concurrency: nat, schedule: seq<Event>)
    requires fmt.Valid() && |names| == |raws| && concurrency >= 1
    requires forall i :: 0 <= i < |names| ==> names[i] != ""
    requires forall i, j :: 0 <= i < j < |names| ==> names[i] != names[j]
    requires Reproduces(fmt, log, contract, hash, names, Zipped(fmt, raws))
    requires fmt.parse(fmt.MaybeGunzip(hash.preimage)) == Some(Entries(out))
    requires Resolved(Exec(WorkOf(fmt, out), concurrency, schedule))
    ensures var site := Exec(WorkOf(fmt, out), concurrency, schedule).result;
            && (forall i :: 0 <= i < |names| ==> names[i] in site && site[names[i]] == raws[i])
            && (forall name <- site :: name in names)
  {
    UnzipsAgain(fmt, raws);
    StoredSiteComesBack(fmt, log, contract, hash, out, names, Zipped(fmt, raws), concurrency, schedule);
  }

  function Zipped(fmt: Format, raws: seq<Bytes>): seq<Bytes> {
    seq(|raws|, i requires 0 <= i < |raws| => fmt.gzip(raws[i]))
  }

  lemma {:induction false} UnzipsAgain(fmt: Format, raws: seq<Bytes>)
    requires fmt.Valid()
    ensures forall i :: 0 <= i < |raws| ==> fmt.MaybeGunzip(Zipped(fmt, raws)[i]) == raws[i]
  {
    forall i | 0 <= i < |raws|
      ensures fmt.MaybeGunzip(Zipped(fmt, raws)[i]) == raws[i]
    {
      assert fmt.gunzip(fmt.gzip(raws[i])) == Some(raws[i]);
    }
  }

  lemma {:induction false} DistinctKeysShow(work: seq<Item>, order: seq<nat>, names: seq<string>, raws: seq<Bytes>)
    requires |work| == |names| == |raws| && forall i :: 0 <= i < |work| ==> work[i] == Item(names[i], raws[i])
    requires forall i, j :: 0 <= i < j < |names| ==> names[i] != names[j]
    requires multiset(order) == multiset(UpTo(|work|))
    ensures forall i :: 0 <= i < |names| ==>
              names[i] in MapAfter(work, order) && MapAfter(work, order)[names[i]] == raws[i]
    ensures forall name <- MapAfter(work, order) :: name in names
  {
    assert forall i :: i in order <==> i in multiset(order);
    forall i | 0 <= i < |names|
      ensures names[i] in MapAfter(work, order) && MapAfter(work, order)[names[i]] == raws[i]
    {
      assert UpTo(|work|)[i] == i && i in multiset(UpTo(|work|));
      StoredKeys(work, order, names[i]);
      StoredValue(work, order, names[i]);
    }
    forall name | name in MapAfter(work, order)
      ensures name in names
    {
      StoredKeys(work, order, name);
    }
  }

  /** The same for a manifest without names: file i comes back under i. */
  lemma {:induction false} CollectionComesBack(fmt: Format, log: seq<StoreEvent>, contract: Address, hash: Hash,
                                               out: seq<OutputEntry>, names: seq<string>, raws: seq<Bytes>,
                                               concurrency: nat, schedule: seq<Event>)
    requires fmt.Valid() && |names| == |raws| && concurrency >= 1
    requires forall e <- out :: e.f.None?
    requires Reproduces(fmt, log, contract, hash, names, Zipped(fmt, raws))
    requires fmt.parse(fmt.MaybeGunzip(hash.preimage)) == Some(Entries(out))
    requires Resolved(Exec(WorkOf(fmt, out), concurrency, schedule))
    ensures var site := Exec(WorkOf(fmt, out), concurrency, schedule).result;
            && (forall i :: 0 <= i < |raws| ==> Indices(|raws|)[i] in site && site[Indices(|raws|)[i]] == raws[i])
            && (forall name <- site :: name in Indices(|raws|))
  {
    UnzipsAgain(fmt, raws);
    SiteContents(fmt, log, contract, hash, out, names, Zipped(fmt, raws));
    EachEntryFetchedOnce(WorkOf(fmt, out), concurrency, schedule);
    IndicesDistinct(|raws|);
    DistinctKeysShow(WorkOf(fmt, out), Exec(WorkOf(fmt, out), concurrency, schedule).settled, Indices(|raws|), raws);
  }

  function Indices(n: nat): seq<string> {
    seq(n, i requires 0 <= i < n => Decimal(i))
  }

  lemma {:induction false} IndicesDistinct(n: nat)
    ensures forall i, j :: 0 <= i < j < n ==> Indices(n)[i] != Indices(n)[j]
  {
    forall i, j | 0 <= i < j < n
      ensures Decimal(i) != Decimal(j)
    {
      if Decimal(i) == Decimal(j) {
        DecimalInjective(i, j);
      }
    }
  }

  lemma {:induction false} SiteContents(fmt: Format, log: seq<StoreEvent>, contract: Address, hash: Hash,
                                        out: seq<OutputEntry>, names: seq<string>, contents: seq<Bytes>)
    requires |names| == |contents| && Reproduces(fmt, log, contract, hash, names, contents)
    requires fmt.parse(fmt.MaybeGunzip(hash.preimage)) == Some(Entries(out))
    ensures |out| == |names|
    ensures forall i :: 0 <= i < |names| ==>
              WorkOf(fmt, out)[i].content == fmt.MaybeGunzip(contents[i]) && Unmarshal(out[i]).f == names[i]
  {
    var m := ParseManifest(Some(Entries(out))).value;
    forall i | 0 <= i < |names|
      ensures WorkOf(fmt, out)[i].content == fmt.MaybeGunzip(contents[i]) && Unmarshal(out[i]).f == names[i]
    {
      assert Serves(log, contract, m[i], names[i], contents[i]);
      PartsJoin(Parts(m[i]));
    }
  }
}
