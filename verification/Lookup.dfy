// gateway/rpc.go and lib/src/rpc.ts: finding the Store log of a content hash
// through nodes that may fail, from a block hint or by scanning backward.
module Lookup {
  import opened Evmfs
  import opened Abi

  // ---------- The node ----------

  /** One RPC endpoint. A reliable one never errors; any one that answers
      filters the log faithfully. `blockOf` is what its block-index call gives
      (0 on error), `head` the latest block it reports. */
  datatype Rpc = Rpc(reliable: bool, blockOf: int, head: nat)

  /** The eth_getLogs filter. */
  function Matches(log: seq<StoreEvent>, contract: Address, hash: Hash, from: int, to: int): seq<StoreEvent> {
    if log == [] then []
    else
      var rest, e := Matches(log[..|log| - 1], contract, hash, from, to), log[|log| - 1];
      if e.contract == contract && e.hash == hash && from <= e.block <= to then rest + [e] else rest
  }

  /** A log for `hash` lies in the window. */
  ghost predicate InWindow(log: seq<StoreEvent>, contract: Address, hash: Hash, from: int, to: int) {
    exists e :: e in log && e.contract == contract && e.hash == hash && from <= e.block <= to
  }

  lemma {:induction false} MatchesMembers(log: seq<StoreEvent>, contract: Address, hash: Hash, from: int, to: int,
                                          e: StoreEvent)
    ensures e in Matches(log, contract, hash, from, to)
        <==> e in log && e.contract == contract && e.hash == hash && from <= e.block <= to
  {
    if log != [] {
      MatchesMembers(log[..|log| - 1], contract, hash, from, to, e);
      assert log == log[..|log| - 1] + [log[|log| - 1]];
    }
  }

  method GetLogs(rpc: Rpc, log: seq<StoreEvent>, contract: Address, hash: Hash, from: int, to: int)
    returns (texts: Option<seq<string>>)
    ensures rpc.reliable ==> texts.Some?
    ensures texts.Some? ==>
              var found := Matches(log, contract, hash, from, to);
              |texts.value| == |found| && forall i :: 0 <= i < |found| ==> texts.value[i] == LogData(found[i].data)
  {
    if !rpc.reliable {
      if * { return None; }
    }
    var found := Matches(log, contract, hash, from, to);
    return Some(seq(|found|, i requires 0 <= i < |found| => LogData(found[i].data)));
  }

  method GetBlockNumber(rpc: Rpc) returns (head: Option<nat>)
    ensures rpc.reliable ==> head.Some?
    ensures head.Some? ==> head.value == rpc.head
  {
    if !rpc.reliable {
      if * { return None; }
    }
    return Some(rpc.head);
  }

  datatype Error = RpcError | NoLogs | TooManyWindows | NothingConfigured | NotFoundAnywhere

  /** Go's (data, err) pairs: data, neither, or an error. */
  datatype Fetch = Found(data: Bytes) | Nothing | Failed(error: Error)

  /** What the decoders need of a log: honest hashes and representable lengths. */
  predicate Readable(log: seq<StoreEvent>, maxLength: nat) {
    forall e <- log :: e.hash == Keccak256(e.data) && |e.data| < maxLength
  }

  const GATEWAY_MAX: nat := TWO_63 - 64

  method FetchLogsInRange(rpc: Rpc, log: seq<StoreEvent>, contract: Address, hash: Hash, from: int, to: int)
    returns (r: Fetch)
    requires Readable(log, GATEWAY_MAX)
    ensures r.Found? ==> r.data == hash.preimage && InWindow(log, contract, hash, from, to)
    ensures r.Nothing? ==> !InWindow(log, contract, hash, from, to)
    ensures r.Failed? ==> !rpc.reliable && r.error == RpcError
  {
    var texts := GetLogs(rpc, log, contract, hash, from, to);
    if texts.None? { return Failed(RpcError); }
    ghost var found := Matches(log, contract, hash, from, to);
    if |texts.value| == 0 {
      forall e | e in log
        ensures !(e.contract == contract && e.hash == hash && from <= e.block <= to)
      {
        MatchesMembers(log, contract, hash, from, to, e);
      }
      return Nothing;
    }
    MatchesMembers(log, contract, hash, from, to, found[0]);
    GatewayRoundTrip(found[0].data);
    match GatewayDecode(texts.value[0])
    case Decoded(data) => return Found(data);
  }

  // ---------- The gateway ----------

  const WINDOW_CAP: nat := 200

  function MaxBlockRangeFor(chainId: string): (range: nat)
    ensures range > 0
  {
    if chainId == "143" then 100 else 50_000
  }

  predicate HasBlockIndex(chainId: string) {
    chainId == "1" || chainId == "143"
  }

  method FetchFromRPCBlockHintOnly(rpc: Rpc, log: seq<StoreEvent>, contract: Address, hash: Hash, blockHint: int)
    returns (r: Fetch)
    requires Readable(log, GATEWAY_MAX)
    ensures r.Found? ==> r.data == hash.preimage && NearHint(log, contract, hash, blockHint)
    ensures r.Nothing? ==> !NearHint(log, contract, hash, blockHint)
    ensures r.Failed? ==> !rpc.reliable && r.error == RpcError
    ensures blockHint <= 0 ==> r.Nothing?
    ensures blockHint > 0 && r.Nothing? ==> !InWindow(log, contract, hash, blockHint - 1, blockHint + 1)
  {
    if blockHint <= 0 { return Nothing; }
    var from := blockHint - 1;
    if from < 0 { from := 0; }
    r := FetchLogsInRange(rpc, log, contract, hash, from, blockHint + 1);
  }

  ghost predicate NearHint(log: seq<StoreEvent>, contract: Address, hash: Hash, hint: int) {
    hint > 0 && InWindow(log, contract, hash, hint - 1, hint + 1)
  }

  /** n windows' worth of blocks. */
  function Span(n: nat, range: nat): nat {
    if n == 0 then 0 else Span(n - 1, range) + range
  }

  lemma {:induction false} SpanIsProduct(n: nat, range: nat)
    ensures Span(n, range) == n * range
  {
    if n > 0 {
      SpanIsProduct(n - 1, range);
      assert n * range == (n - 1) * range + range;
    }
  }

  lemma {:induction false} SpanGrows(n: nat, m: nat, range: nat)
    requires n < m
    ensures Span(n, range) + range <= Span(m, range)
    decreases m
  {
    if n < m - 1 {
      SpanGrows(n, m - 1, range);
    }
  }

  /** The lowest block a capped scan from `latest` looks at. */
  function ScanFloor(latest: nat, range: nat): nat {
    if latest + 1 > Span(WINDOW_CAP, range) then latest + 1 - Span(WINDOW_CAP, range) else 0
  }

  /** In numbers: the newest 200 * range blocks. */
  lemma {:induction false} ScanFloorIs(latest: nat, range: nat)
    ensures ScanFloor(latest, range) == if latest + 1 > 200 * range then latest + 1 - 200 * range else 0
  {
    SpanIsProduct(WINDOW_CAP, range);
  }

  /** Windows run downward from `latest` to `bottom`, each starting right below
      the one before, none wider than `range`. */
  ghost predicate Tiles(windows: seq<(int, int)>, latest: int, range: nat, bottom: int) {
    && (forall k :: 0 <= k < |windows| ==> 0 <= windows[k].0 <= windows[k].1 < windows[k].0 + range)
    && (forall k :: 0 <= k < |windows| ==> windows[k].1 == if k == 0 then latest else windows[k - 1].0 - 1)
    && bottom == if windows == [] then latest + 1 else windows[|windows| - 1].0
  }

  /** "No logs" is reported only after windows down to block 0, the cap error
      only after exactly WINDOW_CAP windows with blocks left below. */
  ghost predicate Justified(r: Fetch, windows: seq<(int, int)>, latest: nat, range: nat) {
    && (r == Failed(NoLogs) ==> Tiles(windows, latest, range, 0))
    && (r == Failed(TooManyWindows) ==>
          |windows| == WINDOW_CAP && ScanFloor(latest, range) > 0
          && Tiles(windows, latest, range, ScanFloor(latest, range)))
  }

  ghost predicate Reaches(rpc: Rpc, log: seq<StoreEvent>, contract: Address, chainId: string, hash: Hash, hint: int) {
    || NearHint(log, contract, hash, hint)
    || InWindow(log, contract, hash, ScanFloor(rpc.head, MaxBlockRangeFor(chainId)), rpc.head)
  }

  /** One hinted look, then a backward scan of at most WINDOW_CAP windows. */
  method FetchFromRPC(rpc: Rpc, log: seq<StoreEvent>, contract: Address, chainId: string, hash: Hash, blockHint: int)
    returns (r: Fetch, ghost windows: seq<(int, int)>)
    requires Readable(log, GATEWAY_MAX)
    ensures !r.Nothing?
    ensures r.Found? ==> r.data == hash.preimage && Reaches(rpc, log, contract, chainId, hash, blockHint)
    ensures r.Failed? && r.error != RpcError ==> !Reaches(rpc, log, contract, chainId, hash, blockHint)
    ensures Justified(r, windows, rpc.head, MaxBlockRangeFor(chainId))
    ensures r.Failed? ==> r.error == RpcError || r.error == NoLogs || r.error == TooManyWindows
    ensures r == Failed(RpcError) ==> !rpc.reliable
  {
    windows := [];
    if blockHint > 0 {
      r := FetchFromRPCBlockHintOnly(rpc, log, contract, hash, blockHint);
      if !r.Nothing? { return; }
    }
    var latestBlock := GetBlockNumber(rpc);
    if latestBlock.None? { return Failed(RpcError), windows; }
    r, windows := ScanBackward(rpc, log, contract, hash, latestBlock.value, MaxBlockRangeFor(chainId));
  }

  /** The scan loop of FetchFromRPC. */
  method ScanBackward(rpc: Rpc, log: seq<StoreEvent>, contract: Address, hash: Hash, latestBlock: nat, rangeSize: nat)
    returns (r: Fetch, ghost windows: seq<(int, int)>)
    requires Readable(log, GATEWAY_MAX) && rangeSize > 0
    ensures !r.Nothing?
    ensures r.Found? ==> r.data == hash.preimage
    ensures r.Found? ==> InWindow(log, contract, hash, ScanFloor(latestBlock, rangeSize), latestBlock)
    ensures r.Failed? && r.error != RpcError ==>
              !InWindow(log, contract, hash, ScanFloor(latestBlock, rangeSize), latestBlock)
    ensures r.Failed? ==> r.error == RpcError || r.error == NoLogs || r.error == TooManyWindows
    ensures r == Failed(RpcError) ==> !rpc.reliable
    ensures Justified(r, windows, latestBlock, rangeSize)
  {
    var count, toBlock := 0, latestBlock as int;
    windows := [];
    while toBlock >= 0
      invariant 0 <= toBlock && count == |windows| < WINDOW_CAP
      invariant Tiles(windows, latestBlock, rangeSize, toBlock + 1)
      invariant toBlock == latestBlock - Span(count, rangeSize)
      invariant !InWindow(log, contract, hash, toBlock + 1, latestBlock)
      decreases toBlock
    {
      var fromBlock := toBlock - rangeSize + 1;
      if fromBlock < 0 { fromBlock := 0; }
      AboveFloor(latestBlock, rangeSize, count);
      TilesSnoc(windows, latestBlock, rangeSize, fromBlock, toBlock);
      windows := windows + [(fromBlock, toBlock)];
      r := FetchLogsInRange(rpc, log, contract, hash, fromBlock, toBlock);
      if !r.Nothing? { return; }
      WindowsJoin(log, contract, hash, fromBlock, toBlock, latestBlock);
      if fromBlock == 0 { return Failed(NoLogs), windows; }
      toBlock := fromBlock - 1;
      count := count + 1;
      if count >= WINDOW_CAP { return Failed(TooManyWindows), windows; }
    }
  }

  lemma {:induction false} WindowsJoin(log: seq<StoreEvent>, contract: Address, hash: Hash, from: int, mid: int,
                                       to: int)
    requires !InWindow(log, contract, hash, from, mid) && !InWindow(log, contract, hash, mid + 1, to)
    ensures !InWindow(log, contract, hash, from, to)
  {
  }

  lemma {:induction false} TilesSnoc(windows: seq<(int, int)>, latest: int, range: nat, from: int, to: int)
    requires Tiles(windows, latest, range, to + 1) && 0 <= from <= to < from + range
    ensures Tiles(windows + [(from, to)], latest, range, from)
  {
  }

  /** Fewer than WINDOW_CAP windows down, the next one is not below the floor,
      and the last one allowed ends at it. */
  lemma {:induction false} AboveFloor(latest: nat, range: nat, count: nat)
    requires count < WINDOW_CAP
    ensures var next := latest - Span(count, range) - range + 1;
            && ScanFloor(latest, range) <= (if next < 0 then 0 else next)
            && (count + 1 == WINDOW_CAP && next > 0 ==> ScanFloor(latest, range) == next)
  {
    SpanGrows(count, WINDOW_CAP, range);
  }

  // ---------- Failover ----------

  function FirstIndexed(rpcs: seq<Rpc>): int {
    if rpcs == [] then 0 else if rpcs[0].blockOf > 0 then rpcs[0].blockOf else FirstIndexed(rpcs[1..])
  }

  /** The hint actually used: the caller's, else the block index's. */
  function ResolvedHint(rpcs: seq<Rpc>, chainId: string, hint: int): int {
    if hint <= 0 && HasBlockIndex(chainId) && FirstIndexed(rpcs) > 0 then FirstIndexed(rpcs) else hint
  }

  /** Endpoint i is the first whose block-index call gives a block. */
  ghost predicate FirstToKnow(rpcs: seq<Rpc>, i: int) {
    0 <= i < |rpcs| && rpcs[i].blockOf > 0 && forall j :: 0 <= j < i ==> rpcs[j].blockOf <= 0
  }

  lemma {:induction false} FirstIndexedIs(rpcs: seq<Rpc>, i: nat)
    requires FirstToKnow(rpcs, i)
    ensures FirstIndexed(rpcs) == rpcs[i].blockOf
  {
    if i > 0 {
      assert rpcs[0].blockOf <= 0;
      forall j | 0 <= j < i - 1
        ensures rpcs[1..][j].blockOf <= 0
      {
        assert rpcs[1..][j] == rpcs[j + 1];
      }
      FirstIndexedIs(rpcs[1..], i - 1);
    }
  }

  lemma {:induction false} NobodyKnows(rpcs: seq<Rpc>)
    requires forall rpc <- rpcs :: rpc.blockOf <= 0
    ensures FirstIndexed(rpcs) == 0
  {
    if rpcs != [] {
      assert rpcs[0] in rpcs && forall rpc <- rpcs[1..] :: rpc in rpcs;
      NobodyKnows(rpcs[1..]);
    }
  }

  /** Only two chains have an index, and only a fetch without a hint asks it. */
  lemma {:induction false} HintOfTheIndex(rpcs: seq<Rpc>, chainId: string, hint: int)
    ensures hint > 0 ==> ResolvedHint(rpcs, chainId, hint) == hint
    ensures chainId != "1" && chainId != "143" ==> ResolvedHint(rpcs, chainId, hint) == hint
    ensures hint <= 0 && (chainId == "1" || chainId == "143") ==>
              forall i :: FirstToKnow(rpcs, i) ==> ResolvedHint(rpcs, chainId, hint) == rpcs[i].blockOf
    ensures (forall rpc <- rpcs :: rpc.blockOf <= 0) ==> ResolvedHint(rpcs, chainId, hint) == hint
  {
    forall i | FirstToKnow(rpcs, i)
      ensures FirstIndexed(rpcs) == rpcs[i].blockOf
    {
      FirstIndexedIs(rpcs, i);
    }
    if forall rpc <- rpcs :: rpc.blockOf <= 0 {
      NobodyKnows(rpcs);
    }
  }

  /** Asks one endpoint after the other for the block, until one knows it. */
  method ResolveHint(rpcs: seq<Rpc>, chainId: string, hint: int) returns (blockHint: int)
    ensures blockHint == ResolvedHint(rpcs, chainId, hint)
    ensures hint > 0 || (chainId != "1" && chainId != "143") ==> blockHint == hint
    ensures hint <= 0 && (chainId == "1" || chainId == "143") ==>
              forall i :: FirstToKnow(rpcs, i) ==> blockHint == rpcs[i].blockOf
    ensures (forall rpc <- rpcs :: rpc.blockOf <= 0) ==> blockHint == hint
  {
    HintOfTheIndex(rpcs, chainId, hint);
    blockHint := hint;
    if blockHint <= 0 && HasBlockIndex(chainId) {
      for i := 0 to |rpcs|
        invariant blockHint == hint && FirstIndexed(rpcs) == FirstIndexed(rpcs[i..])
      {
        assert rpcs[i..][1..] == rpcs[i + 1..];
        if rpcs[i].blockOf > 0 {
          blockHint := rpcs[i].blockOf;
          return;
        }
      }
    }
  }

  /** What contract i is searched for on one endpoint: the last one is scanned,
      the others only looked up near the hint. */
  ghost predicate Visible(rpc: Rpc, log: seq<StoreEvent>, contracts: seq<Address>, i: nat,
                          chainId: string, hash: Hash, hint: int)
    requires i < |contracts|
  {
    if i == |contracts| - 1 then Reaches(rpc, log, contracts[i], chainId, hash, hint)
    else NearHint(log, contracts[i], hash, hint)
  }

  ghost predicate Seen(rpcs: seq<Rpc>, log: seq<StoreEvent>, contracts: seq<Address>,
                       chainId: string, hash: Hash, hint: int) {
    exists rpc, i :: rpc in rpcs && 0 <= i < |contracts| && Visible(rpc, log, contracts, i, chainId, hash, hint)
  }

  function OnlyReliable(rpcs: seq<Rpc>): seq<Rpc> {
    if rpcs == [] then []
    else if rpcs[0].reliable then [rpcs[0]] + OnlyReliable(rpcs[1..])
    else OnlyReliable(rpcs[1..])
  }

  lemma {:induction false} ReliableMembers(rpcs: seq<Rpc>, rpc: Rpc)
    ensures rpc in OnlyReliable(rpcs) <==> rpc in rpcs && rpc.reliable
  {
    if rpcs != [] {
      ReliableMembers(rpcs[1..], rpc);
    }
  }

  /** Tries every contract on every endpoint, in that order. Whatever it
      returns is the preimage of the hash; it finds the content if a reliable
      endpoint can see it on any contract; and a failure means that no
      reliable endpoint can. */
  method FetchContent(rpcs: seq<Rpc>, contracts: seq<Address>, log: seq<StoreEvent>, chainId: string,
                      hash: Hash, blockHint: int) returns (r: Fetch)
    requires Readable(log, GATEWAY_MAX)
    ensures !r.Nothing?
    ensures r.Found? ==> r.data == hash.preimage
    ensures r.Found? ==> Seen(rpcs, log, contracts, chainId, hash, ResolvedHint(rpcs, chainId, blockHint))
    ensures r.Failed? ==>
              !Seen(OnlyReliable(rpcs), log, contracts, chainId, hash, ResolvedHint(rpcs, chainId, blockHint))
    ensures r == Failed(NothingConfigured) <==> rpcs == [] || contracts == []
    ensures r != Failed(NotFoundAnywhere)
  {
    if |rpcs| == 0 { return Failed(NothingConfigured); }
    if |contracts| == 0 { return Failed(NothingConfigured); }
    var hint := ResolveHint(rpcs, chainId, blockHint);
    var lastErr: Option<Error> := None;
    for i := 0 to |contracts|
      invariant forall rpc, j :: rpc in rpcs && rpc.reliable && 0 <= j < i ==>
                  !Visible(rpc, log, contracts, j, chainId, hash, hint)
      invariant i == |contracts| ==> lastErr.Some?
      invariant lastErr.Some? ==> lastErr.value != NothingConfigured && lastErr.value != NotFoundAnywhere
    {
      for k := 0 to |rpcs|
        invariant forall m :: 0 <= m < k && rpcs[m].reliable ==>
                    !Visible(rpcs[m], log, contracts, i, chainId, hash, hint)
        invariant i == |contracts| - 1 && k > 0 ==> lastErr.Some?
        invariant lastErr.Some? ==> lastErr.value != NothingConfigured && lastErr.value != NotFoundAnywhere
      {
        if i == |contracts| - 1 {
          ghost var windows;
          r, windows := FetchFromRPC(rpcs[k], log, contracts[i], chainId, hash, hint);
        } else {
          r := FetchFromRPCBlockHintOnly(rpcs[k], log, contracts[i], hash, hint);
        }
        if r.Failed? {
          lastErr := Some(r.error);
        } else if r.Found? {
          assert rpcs[k] in rpcs && Visible(rpcs[k], log, contracts, i, chainId, hash, hint);
          return;
        }
      }
    }
    forall rpc | rpc in OnlyReliable(rpcs)
      ensures rpc in rpcs && rpc.reliable
    {
      ReliableMembers(rpcs, rpc);
    }
    return Failed(if lastErr.Some? then lastErr.value else NotFoundAnywhere);
  }

  // ---------- What a hint reaches ----------

  /** A log near the hint on some contract, or in what is scanned of the last one. */
  ghost predicate HintReaches(rpcs: seq<Rpc>, log: seq<StoreEvent>, contracts: seq<Address>,
                              chainId: string, hash: Hash, hint: int) {
    && rpcs != [] && contracts != []
    && ((exists c <- contracts :: NearHint(log, c, hash, hint))
        || exists rpc <- rpcs :: InScan(rpc, log, contracts[|contracts| - 1], chainId, hash))
  }

  ghost predicate InScan(rpc: Rpc, log: seq<StoreEvent>, contract: Address, chainId: string, hash: Hash) {
    InWindow(log, contract, hash, ScanFloor(rpc.head, MaxBlockRangeFor(chainId)), rpc.head)
  }

  lemma {:induction false} SeenExactly(rpcs: seq<Rpc>, log: seq<StoreEvent>, contracts: seq<Address>,
                                       chainId: string, hash: Hash, hint: int)
    ensures Seen(rpcs, log, contracts, chainId, hash, hint) <==> HintReaches(rpcs, log, contracts, chainId, hash, hint)
  {
    if HintReaches(rpcs, log, contracts, chainId, hash, hint) {
      if c :| c in contracts && NearHint(log, c, hash, hint) {
        var i :| 0 <= i < |contracts| && contracts[i] == c;
        assert Visible(rpcs[0], log, contracts, i, chainId, hash, hint);
      } else {
        var rpc :| rpc in rpcs && InScan(rpc, log, contracts[|contracts| - 1], chainId, hash);
        assert Visible(rpc, log, contracts, |contracts| - 1, chainId, hash, hint);
      }
    }
  }

  /** A positive hint, right or wrong, keeps the block index from being asked: a
      reliable endpoint sees the content iff that very hint reaches it. */
  lemma {:induction false} PositiveHintExactly(rpcs: seq<Rpc>, log: seq<StoreEvent>, contracts: seq<Address>,
                                               chainId: string, hash: Hash, hint: int)
    requires hint > 0
    ensures Seen(OnlyReliable(rpcs), log, contracts, chainId, hash, ResolvedHint(rpcs, chainId, hint))
       <==> HintReaches(OnlyReliable(rpcs), log, contracts, chainId, hash, hint)
  {
    SeenExactly(OnlyReliable(rpcs), log, contracts, chainId, hash, hint);
  }

  lemma {:induction false} AllReliable(rpcs: seq<Rpc>)
    requires forall rpc <- rpcs :: rpc.reliable
    ensures OnlyReliable(rpcs) == rpcs
  {
    if rpcs != [] {
      assert rpcs[0] in rpcs && forall rpc <- rpcs[1..] :: rpc in rpcs;
      AllReliable(rpcs[1..]);
    }
  }

  /** An endpoint's scan covers its newest 20,000 blocks on chain "143" and its
      newest 10,000,000 on any other chain. */
  lemma {:induction false} ScanExactly(rpc: Rpc, log: seq<StoreEvent>, contract: Address, chainId: string, hash: Hash)
    ensures InScan(rpc, log, contract, chainId, hash)
       <==> InWindow(log, contract, hash, rpc.head + 1 - (if chainId == "143" then 20_000 else 10_000_000), rpc.head)
  {
    ScanFloorIs(rpc.head, MaxBlockRangeFor(chainId));
  }

  /** With reliable endpoints a fetch succeeds iff its resolved hint reaches. */
  method FetchExactly(rpcs: seq<Rpc>, contracts: seq<Address>, log: seq<StoreEvent>, chainId: string,
                      hash: Hash, blockHint: int) returns (r: Fetch)
    requires Readable(log, GATEWAY_MAX) && forall rpc <- rpcs :: rpc.reliable
    ensures r == Found(hash.preimage) || r.Failed?
    ensures r.Found? <==> HintReaches(rpcs, log, contracts, chainId, hash, ResolvedHint(rpcs, chainId, blockHint))
  {
    AllReliable(rpcs);
    SeenExactly(rpcs, log, contracts, chainId, hash, ResolvedHint(rpcs, chainId, blockHint));
    r := FetchContent(rpcs, contracts, log, chainId, hash, blockHint);
  }

  /** A hint five blocks off, on a chain of short windows that has moved on: not
      found, although the block index knows, and no hint would have found it. */
  lemma {:induction false} WrongHintMisses(contract: Address, data: Bytes)
    ensures var rpcs, log, hash := [Rpc(true, 10, 30_000)], Events(10, contract, [data]), Keccak256(data);
            && !HintReaches(rpcs, log, [contract], "143", hash, ResolvedHint(rpcs, "143", 5))
            && HintReaches(rpcs, log, [contract], "143", hash, ResolvedHint(rpcs, "143", 0))
  {
    var rpcs, log, hash := [Rpc(true, 10, 30_000)], Events(10, contract, [data]), Keccak256(data);
    assert log == [StoreEvent(10, contract, hash, data)];
    ScanFloorIs(30_000, 100);
    assert log[0] in log && InWindow(log, contract, hash, 9, 11);
    assert contract in [contract] && NearHint(log, contract, hash, 10);
  }

  /** The first endpoint does not know the block, the second does, and that finds
      what no scan would. */
  lemma {:induction false} SecondEndpointKnows(contract: Address, data: Bytes)
    ensures var rpcs, log, hash := [Rpc(true, 0, 30_000), Rpc(true, 10, 30_000)], Events(10, contract, [data]),
                                   Keccak256(data);
            && ResolvedHint(rpcs, "143", 0) == 10
            && HintReaches(rpcs, log, [contract], "143", hash, 10)
            && !HintReaches(rpcs, log, [contract], "143", hash, 0)
  {
    var rpcs, log, hash := [Rpc(true, 0, 30_000), Rpc(true, 10, 30_000)], Events(10, contract, [data]), Keccak256(data);
    assert FirstToKnow(rpcs, 1);
    HintOfTheIndex(rpcs, "143", 0);
    assert log == [StoreEvent(10, contract, hash, data)];
    ScanFloorIs(30_000, 100);
    assert log[0] in log && InWindow(log, contract, hash, 9, 11);
    assert contract in [contract] && NearHint(log, contract, hash, 10);
  }

  // ---------- The library ----------

  const LIB_BLOCK_RANGE: nat := 50_000

  method LibFetchLogsInRange(rpc: Rpc, log: seq<StoreEvent>, contract: Address, hash: Hash, from: int, to: int)
    returns (r: Fetch)
    requires Readable(log, TWO_48)
    ensures r.Found? ==> r.data == hash.preimage && InWindow(log, contract, hash, from, to)
    ensures r.Nothing? ==> !InWindow(log, contract, hash, from, to)
    ensures r.Failed? ==> !rpc.reliable
  {
    var texts := GetLogs(rpc, log, contract, hash, from, to);
    if texts.None? { return Failed(RpcError); }
    ghost var found := Matches(log, contract, hash, from, to);
    if |texts.value| == 0 {
      forall e | e in log
        ensures !(e.contract == contract && e.hash == hash && from <= e.block <= to)
      {
        MatchesMembers(log, contract, hash, from, to, e);
      }
      return Nothing;
    }
    MatchesMembers(log, contract, hash, from, to, found[0]);
    LibRoundTrip(found[0].data);
    var decoded := LibAbiDecode(texts.value[0]);
    return Found(decoded.data);
  }

  /** The library's fetch: the hint first, then every block from the newest
      back. The bytes never depend on the hint. */
  method LibFetchContent(rpc: Rpc, log: seq<StoreEvent>, contract: Address, hash: Hash, blockHint: int)
    returns (r: Fetch, ghost windows: seq<(int, int)>)
    requires Readable(log, TWO_48)
    ensures !r.Nothing?
    ensures r.Found? ==> r.data == hash.preimage
    ensures r.Found? ==> NearHint(log, contract, hash, blockHint) || InWindow(log, contract, hash, 0, rpc.head)
    ensures r == Failed(NoLogs) ==> Tiles(windows, rpc.head, 50_000, 0)
    ensures r == Failed(NoLogs) ==>
              !NearHint(log, contract, hash, blockHint) && !InWindow(log, contract, hash, 0, rpc.head)
    ensures r.Failed? && r.error != NoLogs ==> !rpc.reliable
  {
    windows := [];
    if blockHint > 0 {
      var from := Max(0, blockHint - 1);
      r := LibFetchLogsInRange(rpc, log, contract, hash, from, blockHint + 1);
      if r.Found? { return; }
      if r.Failed? { return Failed(RpcError), windows; }
    }
    var latestBlock := GetBlockNumber(rpc);
    if latestBlock.None? { return Failed(RpcError), windows; }
    var toBlock := latestBlock.value as int;
    while toBlock >= 0
      invariant 0 <= toBlock
      invariant Tiles(windows, rpc.head, LIB_BLOCK_RANGE, toBlock + 1)
      invariant !InWindow(log, contract, hash, toBlock + 1, rpc.head)
      decreases toBlock
    {
      var fromBlock := Max(0, toBlock - LIB_BLOCK_RANGE + 1);
      TilesSnoc(windows, rpc.head, LIB_BLOCK_RANGE, fromBlock, toBlock);
      windows := windows + [(fromBlock, toBlock)];
      r := LibFetchLogsInRange(rpc, log, contract, hash, fromBlock, toBlock);
      if r.Found? { return; }
      if r.Failed? { return Failed(RpcError), windows; }
      WindowsJoin(log, contract, hash, fromBlock, toBlock, rpc.head);
      if fromBlock == 0 { break; }
      toBlock := fromBlock - 1;
    }
    return Failed(NoLogs), windows;
  }

  function Max(a: int, b: int): int {
    if a < b then b else a
  }

  /** With a reliable endpoint that is up to date, a hint changes nothing: the
      library finds exactly what is stored. */
  method LibHintIsInvisible(rpc: Rpc, log: seq<StoreEvent>, contract: Address, hash: Hash, blockHint: int)
    returns (hinted: Fetch, unhinted: Fetch)
    requires Readable(log, TWO_48) && rpc.reliable
    requires WellFormed(log, rpc.head)
    ensures hinted == unhinted
    ensures hinted.Found? <==> Stored(log, contract, hash)
  {
    ghost var windows;
    hinted, windows := LibFetchContent(rpc, log, contract, hash, blockHint);
    unhinted, windows := LibFetchContent(rpc, log, contract, hash, 0);
    assert Stored(log, contract, hash) <==> InWindow(log, contract, hash, 0, rpc.head);
  }
}
