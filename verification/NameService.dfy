// gateway/names.go: looking up a site name over several contracts and
// endpoints, behind a bounded cache whose entries expire.
module NameService {
  import opened Evmfs
  import opened Abi

  datatype SiteInfo = SiteInfo(blockNumber: int, manifestHash: string)

  datatype Answer = Registered(info: SiteInfo) | NotRegistered

  // ---------- The answer on the wire ----------

  datatype Decode = Owner(info: SiteInfo) | NoOwner | Garbled

  predicate AllZero(b: Bytes) {
    forall x <- b :: x == 0
  }

  method DecodeLookupResult(text: string) returns (r: Decode)
    ensures r == DecodeLookup(text)
  {
    var hexData := TrimHexPrefix(text);
    if |hexData| < 192 { return Garbled; }
    var decoded := HexDecode(hexData);
    if decoded.None? { return Garbled; }
    var data := decoded.value;
    var owner := data[12..32];
    if AllZero(owner) { return NoOwner; }
    var bytes: Bytes := data[56..64];
    var blockNum := 0;
    assert Int64(0) == 0;
    for k := 0 to 8
      invariant blockNum == Int64(FromBytes(bytes[..k]))
    {
      assert bytes[..k + 1][..k] == bytes[..k];
      Int64Accumulates(FromBytes(bytes[..k]), bytes[k]);
      blockNum := Int64(blockNum * 256 + bytes[k]);
    }
    assert bytes[..8] == bytes;
    return Owner(SiteInfo(blockNum, "0x" + HexEncode(data[64..96])));
  }

  function DecodeLookup(text: string): Decode {
    var hexData := TrimHexPrefix(text);
    if |hexData| < 192 || HexDecode(hexData).None? then Garbled
    else
      var data := HexDecode(hexData).value;
      if AllZero(data[12..32]) then NoOwner
      else Owner(SiteInfo(Int64(FromBytes(data[56..64])), "0x" + HexEncode(data[64..96])))
  }

  /** Signed 64-bit arithmetic loses nothing modulo 2^64. */
  lemma {:induction false} Int64Accumulates(n: nat, x: byte)
    ensures Int64(Int64(n) * 256 + x) == Int64(n * 256 + x)
  {
    var k := n / TWO_64;
    assert n == k * TWO_64 + n % TWO_64;
    var low := n % TWO_64;
    SameInt64(low * 256 + x, k * 256);
    SameInt64((low - TWO_64) * 256 + x, 256);
  }

  lemma {:induction false} SameInt64(a: int, k: int)
    ensures Int64(a + k * TWO_64) == Int64(a)
  {
    ModPeriod(a, k);
  }

  lemma {:induction false} ModPeriod(a: int, k: int)
    ensures (a + k * TWO_64) % TWO_64 == a % TWO_64
  {
    var q, r := a / TWO_64, a % TWO_64;
    assert a + k * TWO_64 == (q + k) * TWO_64 + r;
  }

  /** The node's encoding of `lookup`'s three results (Contract ABI Specification). */
  function EncodeLookup(owner: Bytes, block: nat, hash: Bytes): string
    requires |owner| == 20 && |hash| == 32
  {
    "0x" + HexEncode(AnswerData(owner, block, hash))
  }

  lemma {:induction false} BlockWord(block: nat)
    requires block < TWO_64
    ensures FromBytes(ToBytes(block, 32)[24..]) == block
  {
    LowBytes(block, 32, 8);
    Powers();
    FromToBytes(block, 8);
  }

  function AnswerData(owner: Bytes, block: nat, hash: Bytes): Bytes {
    Zeros(12) + owner + ToBytes(block, 32) + hash
  }

  lemma {:induction false} AnswerParts(owner: Bytes, block: nat, hash: Bytes)
    requires |owner| == 20 && |hash| == 32
    ensures var data := AnswerData(owner, block, hash);
            && |data| == 96 && data[12..32] == owner
            && data[56..64] == ToBytes(block, 32)[24..] && data[64..96] == hash
  {
  }

  lemma {:induction false} DecodedFrom(text: string, data: Bytes)
    requires HexDecode(TrimHexPrefix(text)) == Some(data) && |data| >= 96
    ensures DecodeLookup(text)
         == if AllZero(data[12..32]) then NoOwner
            else Owner(SiteInfo(Int64(FromBytes(data[56..64])), "0x" + HexEncode(data[64..96])))
  {
  }

  lemma {:induction false} Int64Exactly(n: nat)
    requires n < TWO_64
    ensures Int64(n) == n <==> n < TWO_63
  {
  }

  /** What the contract answers is what the gateway reads, but for blocks that
      a signed number cannot hold. */
  lemma {:induction false} LookupRoundTrip(owner: Bytes, block: nat, hash: Bytes)
    requires |owner| == 20 && |hash| == 32 && block < TWO_64
    ensures DecodeLookup(EncodeLookup(owner, block, hash))
         == if AllZero(owner) then NoOwner else Owner(SiteInfo(Int64(block), "0x" + HexEncode(hash)))
    ensures Int64(block) == block <==> block < TWO_63
  {
    var data := AnswerData(owner, block, hash);
    AnswerParts(owner, block, hash);
    HexRoundTrip(data);
    assert EncodeLookup(owner, block, hash)[2..] == HexEncode(data);
    DecodedFrom(EncodeLookup(owner, block, hash), data);
    BlockWord(block);
    Int64Exactly(block);
  }

  lemma {:induction false} HexHasNoPrefix(b: Bytes)
    ensures TrimHexPrefix(HexEncode(b)) == HexEncode(b) == TrimHexPrefix("0x" + HexEncode(b))
  {
    if b != [] {
      HexEncodeExactly(b, 0);
    }
    assert ("0x" + HexEncode(b))[2..] == HexEncode(b);
  }

  lemma {:induction false} MorePartsAfter(data: Bytes, extra: Bytes)
    requires |data| == 96
    ensures (data + extra)[12..32] == data[12..32] && (data + extra)[56..64] == data[56..64]
    ensures (data + extra)[64..96] == data[64..96]
  {
  }

  /** What follows the three results is ignored, and the prefix may be missing. */
  lemma {:induction false} LongerAnswers(owner: Bytes, block: nat, hash: Bytes, extra: Bytes)
    requires |owner| == 20 && |hash| == 32
    ensures var data, short := AnswerData(owner, block, hash) + extra, EncodeLookup(owner, block, hash);
            && DecodeLookup("0x" + HexEncode(data)) == DecodeLookup(short)
            && DecodeLookup(HexEncode(data)) == DecodeLookup(short)
  {
    var data := AnswerData(owner, block, hash);
    AnswerParts(owner, block, hash);
    HexRoundTrip(data);
    HexRoundTrip(data + extra);
    HexHasNoPrefix(data);
    HexHasNoPrefix(data + extra);
    MorePartsAfter(data, extra);
    DecodedFrom(EncodeLookup(owner, block, hash), data);
    DecodedFrom("0x" + HexEncode(data + extra), data + extra);
    DecodedFrom(HexEncode(data + extra), data + extra);
  }

  /** An answer shorter than 96 bytes is garbled. */
  lemma {:induction false} ShortAnswers(data: Bytes)
    ensures |data| < 96 ==> DecodeLookup("0x" + HexEncode(data)) == Garbled
  {
    HexRoundTrip(data);
    assert ("0x" + HexEncode(data))[2..] == HexEncode(data);
  }

  // ---------- The question on the wire ----------

  /** The length word as the gateway fills it in: two bytes at most. */
  function LengthWord(n: nat): Bytes {
    Zeros(30) + [if n > 255 then n / 256 % 256 else 0, n % 256]
  }

  lemma {:induction false} ZeroBytes(size: nat)
    ensures ToBytes(0, size) == Zeros(size)
  {
    if size > 0 {
      ZeroBytes(size - 1);
    }
  }

  /** The word is the ABI's exactly for names shorter than 65536 bytes. */
  lemma {:induction false} LengthWordExactly(n: nat)
    requires n < Pow256(32)
    ensures LengthWord(n) == ToBytes(n, 32) <==> n < 65536
  {
    LowTwoBytes(n);
    ZeroBytes(30);
    if n >= 65536 {
      HighPart(n);
      FromToBytes(n / 65536, 30);
      FromToBytes(0, 30);
      assert ToBytes(n, 32)[..30] != LengthWord(n)[..30];
    }
  }

  lemma {:induction false} LowTwoBytes(n: nat)
    ensures ToBytes(n, 32)[..30] == ToBytes(n / 65536, 30)
    ensures ToBytes(n, 32)[30..] == [n / 256 % 256, n % 256]
  {
  }

  lemma {:induction false} HighPart(n: nat)
    requires n < Pow256(32)
    ensures n / 65536 < Pow256(30)
  {
  }

  /** A longer one is cut down to its two low bytes. */
  lemma {:induction false} LengthWordIs(n: nat)
    ensures LengthWord(n) == ToBytes(n % 65536, 32)
  {
    LowTwoBytes(n % 65536);
    ZeroBytes(30);
    SameLowBytes(n);
    assert LengthWord(n)[..30] == Zeros(30);
    assert ToBytes(n % 65536, 32) == ToBytes(n % 65536, 32)[..30] + ToBytes(n % 65536, 32)[30..];
  }

  lemma {:induction false} SameLowBytes(n: nat)
    ensures n % 65536 / 256 % 256 == n / 256 % 256 && n % 65536 % 256 == n % 256 && n % 65536 / 65536 == 0
  {
  }

  /** What is sent behind the selector of lookup(string). */
  function Question(name: Bytes): Bytes {
    ToBytes(32, 32) + LengthWord(|name|) + name + Zeros((|name| + 31) / 32 * 32 - |name|)
  }

  lemma {:induction false} PaddingAgrees(n: nat)
    ensures (n + 31) / 32 * 32 - n == (32 - n % 32) % 32
  {
  }

  lemma {:induction false} SecondWordDecides(a: Bytes, b: Bytes, c: Bytes, rest: Bytes)
    requires |a| == |b| == |c| == 32
    ensures a + b + rest == a + c + rest <==> b == c
  {
    assert (a + b + rest)[32..64] == b && (a + c + rest)[32..64] == c;
  }

  lemma {:induction false} FourParts(a: Bytes, b: Bytes, c: Bytes, d: Bytes)
    ensures a + b + c + d == a + b + (c + d)
  {
  }

  /** It is the ABI's encoding of the name iff that is shorter than 65536 bytes. */
  lemma {:induction false} QuestionExactly(name: Bytes)
    requires |name| < Pow256(32)
    ensures Question(name) == AbiEncode(name) <==> |name| < 65536
  {
    var n := |name|;
    var offset, rest := ToBytes(32, 32), name + Zeros((32 - n % 32) % 32);
    PaddingAgrees(n);
    LengthWordExactly(n);
    FourParts(offset, LengthWord(n), name, Zeros((32 - n % 32) % 32));
    FourParts(offset, ToBytes(n, 32), name, Zeros((32 - n % 32) % 32));
    SecondWordDecides(offset, LengthWord(n), ToBytes(n, 32), rest);
  }

  // ---------- Failover ----------

  /** What one eth_call comes back with. */
  datatype Reply = CallFailed | Result(text: string)

  datatype Verdict = Found(info: SiteInfo) | Missing | Silent

  function Read(reply: Reply): Decode {
    match reply
    case CallFailed => Garbled
    case Result(text) => DecodeLookup(text)
  }

  /** One contract's verdict: its first endpoint that answers at all. */
  function ContractVerdict(replies: seq<Reply>): Verdict {
    if replies == [] then Silent
    else
      match Read(replies[0])
      case Garbled => ContractVerdict(replies[1..])
      case NoOwner => Missing
      case Owner(info) => Found(info)
  }

  ghost predicate FirstOwner(rows: seq<seq<Reply>>, i: nat) {
    i < |rows| && ContractVerdict(rows[i]).Found? && forall k :: 0 <= k < i ==> !ContractVerdict(rows[k]).Found?
  }

  /** A reply that ends a contract's search: a failed or garbled one does not. */
  predicate Decisive(reply: Reply) {
    reply.Result? && !DecodeLookup(reply.text).Garbled?
  }

  /** Endpoint j gives the first decisive reply. */
  ghost predicate FirstAnswer(row: seq<Reply>, j: int) {
    0 <= j < |row| && Decisive(row[j]) && forall k :: 0 <= k < j ==> !Decisive(row[k])
  }

  /** The first decisive reply names an owner and a site. */
  ghost predicate NamesSite(row: seq<Reply>, info: SiteInfo) {
    exists j :: FirstAnswer(row, j) && DecodeLookup(row[j].text) == Owner(info)
  }

  /** The first decisive reply says that there is no owner. */
  ghost predicate SaysUnregistered(row: seq<Reply>) {
    exists j :: FirstAnswer(row, j) && DecodeLookup(row[j].text) == NoOwner
  }

  lemma {:induction false} SkipIndecisive(row: seq<Reply>)
    requires row != [] && !Decisive(row[0])
    ensures ContractVerdict(row) == ContractVerdict(row[1..])
  {
  }

  lemma {:induction false} VerdictAt(row: seq<Reply>, j: int)
    requires FirstAnswer(row, j)
    ensures ContractVerdict(row) == match DecodeLookup(row[j].text)
                                    case NoOwner => Missing
                                    case Owner(info) => Found(info)
                                    case Garbled => Silent
  {
    if j > 0 {
      SkipIndecisive(row);
      forall k | 0 <= k < j - 1
        ensures !Decisive(row[1..][k])
      {
        assert row[1..][k] == row[k + 1];
      }
      VerdictAt(row[1..], j - 1);
    }
  }

  lemma {:induction false} AnswerOrSilence(row: seq<Reply>) returns (j: int)
    ensures FirstAnswer(row, j) || (ContractVerdict(row) == Silent && forall reply <- row :: !Decisive(reply))
  {
    j := 0;
    if row != [] && !Decisive(row[0]) {
      j := AnswerOrSilence(row[1..]);
      j := j + 1;
    }
  }

  /** A contract's verdict is its first decisive reply, whichever endpoint gives it. */
  lemma {:induction false} VerdictExactly(row: seq<Reply>)
    ensures forall info :: ContractVerdict(row) == Found(info) <==> NamesSite(row, info)
    ensures ContractVerdict(row) == Missing <==> SaysUnregistered(row)
    ensures ContractVerdict(row) == Silent <==> forall reply <- row :: !Decisive(reply)
  {
    var j := AnswerOrSilence(row);
    if FirstAnswer(row, j) {
      VerdictAt(row, j);
      assert row[j] in row;
    }
  }

  /** The site of the first contract that names one; else "not registered" if
      some contract says so; else nobody gave a decisive reply. */
  ghost predicate Answers(rows: seq<seq<Reply>>, r: Verdict) {
    match r
    case Found(info) =>
      exists i :: 0 <= i < |rows| && NamesSite(rows[i], info)
                  && forall k, other :: 0 <= k < i ==> !NamesSite(rows[k], other)
    case Missing =>
      && (forall row <- rows, info :: !NamesSite(row, info))
      && exists row <- rows :: SaysUnregistered(row)
    case Silent =>
      forall row <- rows, reply <- row :: !Decisive(reply)
  }

  /** The same in terms of the contracts' verdicts. */
  ghost predicate FollowsVerdicts(rows: seq<seq<Reply>>, r: Verdict) {
    && (r.Found? ==> exists i: nat :: FirstOwner(rows, i) && ContractVerdict(rows[i]) == r)
    && (!r.Found? ==> forall i :: 0 <= i < |rows| ==> !ContractVerdict(rows[i]).Found?)
    && (r.Missing? <==> !r.Found? && exists i :: 0 <= i < |rows| && ContractVerdict(rows[i]).Missing?)
  }

  lemma {:induction false} AnswersExactly(rows: seq<seq<Reply>>, r: Verdict)
    requires FollowsVerdicts(rows, r)
    ensures Answers(rows, r)
  {
    forall i | 0 <= i < |rows|
      ensures forall info :: ContractVerdict(rows[i]) == Found(info) <==> NamesSite(rows[i], info)
      ensures ContractVerdict(rows[i]) == Missing <==> SaysUnregistered(rows[i])
      ensures ContractVerdict(rows[i]) == Silent <==> forall reply <- rows[i] :: !Decisive(reply)
    {
      VerdictExactly(rows[i]);
    }
    match r
    case Found(info) =>
      var i: nat :| FirstOwner(rows, i) && ContractVerdict(rows[i]) == r;
      assert NamesSite(rows[i], info);
      forall k, other | 0 <= k < i
        ensures !NamesSite(rows[k], other)
      {
        assert !ContractVerdict(rows[k]).Found?;
      }
    case Missing =>
      var i :| 0 <= i < |rows| && ContractVerdict(rows[i]).Missing?;
      assert rows[i] in rows && SaysUnregistered(rows[i]);
    case Silent =>
  }

  /** Asks each contract in turn, over its endpoints in turn. rows[i][j] is what
      endpoint j would answer for contract i. */
  method DoRPC(rows: seq<seq<Reply>>) returns (r: Verdict)
    ensures Answers(rows, r) && FollowsVerdicts(rows, r)
  {
    var sawNotRegistered := false;
    for i := 0 to |rows|
      invariant forall k :: 0 <= k < i ==> !ContractVerdict(rows[k]).Found?
      invariant sawNotRegistered <==> exists k :: 0 <= k < i && ContractVerdict(rows[k]).Missing?
    {
      ghost var sawBefore := sawNotRegistered;
      var j := 0;
      while j < |rows[i]|
        invariant j <= |rows[i]| && sawNotRegistered == sawBefore
        invariant ContractVerdict(rows[i]) == ContractVerdict(rows[i][j..])
      {
        assert rows[i][j..][1..] == rows[i][j + 1..];
        match rows[i][j] {
          case CallFailed =>
          case Result(text) =>
            var info := DecodeLookupResult(text);
            if info.NoOwner? {
              sawNotRegistered := true;
              break;
            }
            if info.Owner? {
              assert FirstOwner(rows, i);
              AnswersExactly(rows, Found(info.info));
              return Found(info.info);
            }
        }
        j := j + 1;
      }
      assert ContractVerdict(rows[i]).Missing? <==> j < |rows[i]|;
    }
    r := if sawNotRegistered then Missing else Silent;
    AnswersExactly(rows, r);
  }

  // ---------- The cache ----------

  const NAME_CACHE_TTL: nat := 60
  const NAME_CACHE_MAX_SIZE: nat := 10_000

  datatype Entry = Entry(answer: Answer, expiresAt: nat)

  /** A past call of Set. */
  datatype Stored = Stored(name: string, answer: Answer, at: nat)

  function Unexpired(entries: map<string, Entry>, now: nat): map<string, Entry> {
    map k | k in entries && now <= entries[k].expiresAt :: entries[k]
  }

  /** The same, with the entries under `keys` not yet looked at. */
  function UnexpiredBut(entries: map<string, Entry>, keys: set<string>, now: nat): map<string, Entry> {
    map k | k in entries && (k in keys || now <= entries[k].expiresAt) :: entries[k]
  }

  /** The answer was stored for the name at most a minute before `now`. */
  ghost predicate RecentlyStored(history: seq<Stored>, name: string, r: Verdict, now: nat) {
    exists at :: now - NAME_CACHE_TTL <= at && Stored(name, ToAnswer(r), at) in history
  }

  /** The answer is the last one stored, and is fresh for a minute from `now`. */
  ghost predicate Remembered(entries: map<string, Entry>, history: seq<Stored>, name: string, r: Verdict, now: nat) {
    && history != [] && history[|history| - 1] == Stored(name, ToAnswer(r), now)
    && name in entries && entries[name] == Entry(ToAnswer(r), now + NAME_CACHE_TTL)
    && entries[name] == Entry(if r.Found? then Registered(r.info) else NotRegistered, now + 60)
  }

  class NameCache {
    var entries: map<string, Entry>
    ghost var history: seq<Stored>

    ghost predicate Valid()
      reads this
    {
      && |entries| <= NAME_CACHE_MAX_SIZE
      && forall k <- entries :: entries[k].expiresAt >= NAME_CACHE_TTL
           && Stored(k, entries[k].answer, entries[k].expiresAt - NAME_CACHE_TTL) in history
    }

    constructor ()
      ensures Valid() && entries == map[] && history == []
    {
      entries, history := map[], [];
    }

    /** Whatever is served was stored for this very name at most a minute ago. */
    method Get(name: string, now: nat) returns (answer: Option<Answer>)
      requires Valid()
      ensures answer.Some? ==> exists at :: now - NAME_CACHE_TTL <= at && Stored(name, answer.value, at) in history
      ensures answer.Some? <==> name in entries && now <= entries[name].expiresAt
      ensures answer.Some? ==> answer.value == entries[name].answer
      ensures answer.Some? ==> exists at :: now - 60 <= at && Stored(name, answer.value, at) in history
    {
      if name !in entries || now > entries[name].expiresAt { return None; }
      ghost var at: nat := entries[name].expiresAt - NAME_CACHE_TTL;
      assert Stored(name, entries[name].answer, at) in history;
      return Some(entries[name].answer);
    }

    method DropExpired(now: nat)
      modifies this`entries
      ensures entries == Unexpired(old(entries), now)
      ensures forall k <- old(entries) :: k in entries <==> now <= old(entries)[k].expiresAt
    {
      var keys := entries.Keys;
      while keys != {}
        invariant keys <= old(entries).Keys
        invariant entries == UnexpiredBut(old(entries), keys, now)
        decreases keys
      {
        var k :| k in keys;
        if now > entries[k].expiresAt {
          entries := entries - {k};
        }
        keys := keys - {k};
      }
    }

    /** Entries go in no particular order until there is room. */
    method MakeRoom()
      modifies this`entries
      ensures |entries| < NAME_CACHE_MAX_SIZE && entries.Keys <= old(entries).Keys
      ensures forall k <- entries :: entries[k] == old(entries)[k]
      ensures |old(entries)| < NAME_CACHE_MAX_SIZE ==> entries == old(entries)
      ensures |old(entries)| >= NAME_CACHE_MAX_SIZE ==> |entries| == NAME_CACHE_MAX_SIZE - 1
    {
      while |entries| >= NAME_CACHE_MAX_SIZE
        invariant entries.Keys <= old(entries).Keys && forall k <- entries :: entries[k] == old(entries)[k]
        invariant |old(entries)| < NAME_CACHE_MAX_SIZE ==> entries == old(entries)
        invariant |old(entries)| >= NAME_CACHE_MAX_SIZE ==> |entries| >= NAME_CACHE_MAX_SIZE - 1
        decreases |entries|
      {
        var k :| k in entries.Keys;
        assert (entries - {k}).Keys == entries.Keys - {k};
        entries := entries - {k};
      }
    }

    /** Never more than the maximum; a full cache gives up expired entries
        first and others only when that is not enough. */
    method Set(name: string, answer: Answer, now: nat)
      requires Valid()
      modifies this
      ensures Valid()
      ensures history == old(history) + [Stored(name, answer, now)]
      ensures name in entries && entries[name] == Entry(answer, now + NAME_CACHE_TTL)
      ensures entries[name].expiresAt == now + 60 && |entries| <= 10_000
      ensures forall k <- entries :: k != name ==> k in old(entries) && entries[k] == old(entries)[k]
      ensures |old(entries)| < 10_000 ==> entries == old(entries)[name := entries[name]]
      ensures |old(entries)| < NAME_CACHE_MAX_SIZE ==> entries == old(entries)[name := entries[name]]
      ensures |old(entries)| >= NAME_CACHE_MAX_SIZE && |Unexpired(old(entries), now)| < NAME_CACHE_MAX_SIZE
          ==> entries == Unexpired(old(entries), now)[name := entries[name]]
    {
      if |entries| >= NAME_CACHE_MAX_SIZE {
        Evict(now);
      }
      Insert(name, answer, now);
    }

    method Evict(now: nat)
      modifies this`entries
      ensures |entries| < NAME_CACHE_MAX_SIZE && entries.Keys <= old(entries).Keys
      ensures forall k <- entries :: entries[k] == old(entries)[k]
      ensures |Unexpired(old(entries), now)| < NAME_CACHE_MAX_SIZE ==> entries == Unexpired(old(entries), now)
    {
      DropExpired(now);
      assert entries.Keys <= old(entries).Keys;
      MakeRoom();
    }

    method Insert(name: string, answer: Answer, now: nat)
      requires Valid() && |entries| < NAME_CACHE_MAX_SIZE
      modifies this
      ensures Valid()
      ensures history == old(history) + [Stored(name, answer, now)]
      ensures entries == old(entries)[name := Entry(answer, now + NAME_CACHE_TTL)]
    {
      assert entries[name := Entry(answer, now + NAME_CACHE_TTL)].Keys == entries.Keys + {name};
      entries := entries[name := Entry(answer, now + NAME_CACHE_TTL)];
      history := history + [Stored(name, answer, now)];
    }

    /** One tick of the cleanup loop. */
    method Cleanup(now: nat)
      requires Valid()
      modifies this`entries
      ensures Valid() && entries == Unexpired(old(entries), now)
      ensures forall k <- old(entries) :: k in entries <==> now <= old(entries)[k].expiresAt
      ensures forall k <- entries :: k in old(entries) && entries[k] == old(entries)[k]
    {
      DropExpired(now);
      assert entries.Keys <= old(entries).Keys;
      SubsetSize(entries.Keys, old(entries).Keys);
    }

    /** Other names, other callers and the cleanup loop, while this one waits. */
    method Others()
      requires Valid()
      modifies this
      ensures Valid() && old(history) <= history
    {
      var n: nat :| true;
      for i := 0 to n
        invariant Valid() && old(history) <= history
      {
        var name: string :| true;
        var answer: Answer :| true;
        var now: nat :| true;
        if * { Set(name, answer, now); } else { Cleanup(now); }
      }
    }

    /** A leading caller's turn: it asks the contracts iff no other caller has
        stored a fresh answer in the meantime. */
    method AskUnlessCached(name: string, turn: nat, later: nat, rows: seq<seq<Reply>>)
      returns (r: Verdict, ghost asked: bool)
      requires Valid() && turn <= later
      modifies this
      ensures Valid() && old(history) <= history
      ensures asked <==> name !in old(entries) || turn > old(entries)[name].expiresAt
      ensures !asked ==> r == (match old(entries)[name].answer
                               case Registered(info) => Found(info)
                               case NotRegistered => Missing)
      ensures !asked ==> RecentlyStored(history, name, r, turn)
      ensures asked ==> Answers(rows, r) && FollowsVerdicts(rows, r)
      ensures asked && !r.Silent? ==> Remembered(entries, history, name, r, later)
    {
      var cached := Get(name, turn);
      if cached.Some? { return ToVerdict(cached.value), false; }
      asked := true;
      r := DoRPC(rows);
      Others();
      if r.Silent? { return; }
      Set(name, ToAnswer(r), later);
    }

    /** A cached answer, looked for again once it is this caller's turn, or else
        the contracts' verdict, which is remembered unless nobody answered. */
    method LookupName(name: string, now: nat, turn: nat, later: nat, rows: seq<seq<Reply>>)
      returns (r: Verdict, ghost asked: bool)
      requires Valid() && now <= turn <= later
      modifies this
      ensures Valid() && old(history) <= history
      ensures !asked ==> !r.Silent?
      ensures !asked ==> RecentlyStored(history, name, r, now)
      ensures name in old(entries) && now <= old(entries)[name].expiresAt ==>
                !asked && r == match old(entries)[name].answer
                               case Registered(info) => Found(info)
                               case NotRegistered => Missing
      ensures asked ==> Answers(rows, r) && FollowsVerdicts(rows, r)
      ensures asked && !r.Silent? ==> Remembered(entries, history, name, r, later)
    {
      var cached := Get(name, now);
      if cached.Some? { return ToVerdict(cached.value), false; }
      Others();
      r, asked := AskUnlessCached(name, turn, later, rows);
    }
  }

  function ToAnswer(v: Verdict): Answer {
    match v
    case Found(info) => Registered(info)
    case _ => NotRegistered
  }

  function ToVerdict(a: Answer): (v: Verdict)
    ensures !v.Silent? && ToAnswer(v) == a
  {
    match a
    case Registered(info) => Found(info)
    case NotRegistered => Missing
  }

  lemma {:induction false} SubsetSize<T>(a: set<T>, b: set<T>)
    requires a <= b
    ensures |a| <= |b|
  {
    if a != {} {
      var x :| x in a;
      SubsetSize(a - {x}, b - {x});
    }
  }
}
