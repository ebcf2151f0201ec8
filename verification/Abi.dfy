// The data field of a Store log: Solidity's encoding of one `bytes` value
// ("Formal Specification of the Encoding", Contract ABI Specification), and
// the decoders of gateway/rpc.go and lib/src/rpc.ts.
module Abi {
  import opened Evmfs

  const TWO_48: nat := 0x1_0000_0000_0000
  const TWO_63: nat := 0x8000_0000_0000_0000
  const TWO_64: nat := 0x1_0000_0000_0000_0000

  // ---------- Big-endian numbers ----------

  function ToBytes(n: nat, size: nat): (b: Bytes)
    ensures |b| == size
  {
    if size == 0 then [] else ToBytes(n / 256, size - 1) + [n % 256]
  }

  function FromBytes(b: Bytes): nat {
    if b == [] then 0 else FromBytes(b[..|b| - 1]) * 256 + b[|b| - 1]
  }

  function Pow256(k: nat): nat {
    if k == 0 then 1 else 256 * Pow256(k - 1)
  }

  lemma {:induction false} FromToBytes(n: nat, size: nat)
    requires n < Pow256(size)
    ensures FromBytes(ToBytes(n, size)) == n
  {
    if size > 0 {
      FromToBytes(n / 256, size - 1);
      assert ToBytes(n, size)[..size - 1] == ToBytes(n / 256, size - 1);
    }
  }

  /** The low bytes of a number do not depend on how many are written. */
  lemma {:induction false} LowBytes(n: nat, size: nat, low: nat)
    requires low <= size
    ensures ToBytes(n, size)[size - low..] == ToBytes(n, low)
  {
    if low > 0 {
      LowBytes(n / 256, size - 1, low - 1);
    }
  }

  lemma {:induction false} PowGrows(n: nat, k: nat, m: nat)
    requires k <= m && n < Pow256(k)
    ensures n < Pow256(m)
    decreases m
  {
    if k < m {
      PowGrows(n, k, m - 1);
    }
  }

  lemma {:induction false} Powers()
    ensures Pow256(6) == TWO_48 && Pow256(8) == TWO_64
  {
    assert Pow256(2) == 0x1_0000;
    assert Pow256(4) == 0x1_0000_0000;
    assert Pow256(6) == 0x1_0000_0000_0000;
  }

  // ---------- Hex text ----------

  function HexDigit(n: nat): char
    requires n < 16
  {
    if n < 10 then '0' + n as char else 'a' + (n - 10) as char
  }

  function HexValue(c: char): Option<nat> {
    if '0' <= c <= '9' then Some((c - '0') as nat)
    else if 'a' <= c <= 'f' then Some((c - 'a') as nat + 10)
    else if 'A' <= c <= 'F' then Some((c - 'A') as nat + 10)
    else None
  }

  function HexPair(x: byte): (s: string)
    ensures |s| == 2
  {
    [HexDigit(x / 16), HexDigit(x % 16)]
  }

  function PairValue(s: string): Option<byte>
    requires |s| == 2
  {
    var hi, lo := HexValue(s[0]), HexValue(s[1]);
    if hi.Some? && lo.Some? && hi.value < 16 && lo.value < 16 then Some(hi.value * 16 + lo.value) else None
  }

  lemma {:induction false} HexDigitValue(n: nat)
    requires n < 16
    ensures HexValue(HexDigit(n)) == Some(n)
  {
  }

  lemma {:induction false} HexPairValue(x: byte)
    ensures PairValue(HexPair(x)) == Some(x)
  {
    HexDigitValue(x / 16);
    HexDigitValue(x % 16);
  }

  function HexEncode(b: Bytes): (s: string)
    ensures |s| == 2 * |b|
  {
    if b == [] then "" else HexEncode(b[..|b| - 1]) + HexPair(b[|b| - 1])
  }

  /** hex.DecodeString: whole pairs of hex digits or an error. */
  function HexDecode(s: string): (b: Option<Bytes>)
    ensures b.Some? ==> |s| == 2 * |b.value|
  {
    if s == "" then Some([])
    else if |s| == 1 then None
    else
      var rest, last := HexDecode(s[..|s| - 2]), PairValue(s[|s| - 2..]);
      if rest.Some? && last.Some? then Some(rest.value + [last.value]) else None
  }

  lemma {:induction false} HexDecodeSnoc(s: string, pair: string, x: byte)
    requires |pair| == 2 && HexDecode(s).Some? && PairValue(pair) == Some(x)
    ensures HexDecode(s + pair) == Some(HexDecode(s).value + [x])
  {
  }

  lemma {:induction false} HexStep(init: Bytes, x: byte, s: string)
    requires HexDecode(s) == Some(init)
    ensures HexDecode(s + HexPair(x)) == Some(init + [x])
  {
    var pair := HexPair(x);
    HexPairValue(x);
    HexDecodeSnoc(s, pair, x);
  }

  lemma {:induction false} HexRoundTrip(b: Bytes)
    ensures HexDecode(HexEncode(b)) == Some(b)
  {
    if b != [] {
      var init := b[..|b| - 1];
      assert b == init + [b[|b| - 1]];
      HexRoundTrip(init);
      HexStep(init, b[|b| - 1], HexEncode(init));
    }
  }

  /** c is the hex digit for n, small or capital, by its ASCII code. */
  ghost predicate IsDigitFor(c: char, n: nat) {
    || (n < 10 && c as int == 48 + n)
    || (10 <= n < 16 && (c as int == 65 + (n - 10) || c as int == 97 + (n - 10)))
  }

  /** The two digits for one byte, the high half first. */
  ghost predicate IsPairFor(s: string, x: byte) {
    |s| == 2 && IsDigitFor(s[0], x / 16) && IsDigitFor(s[1], x % 16)
  }

  lemma {:induction false} HexDigitExactly(n: nat)
    requires n < 16
    ensures HexDigit(n) == "0123456789abcdef"[n]
  {
  }

  lemma {:induction false} HexValueExactly(c: char, n: nat)
    ensures HexValue(c) == Some(n) <==> IsDigitFor(c, n)
  {
  }

  lemma {:induction false} PairExactly(s: string, x: byte)
    requires |s| == 2
    ensures PairValue(s) == Some(x) <==> IsPairFor(s, x)
  {
    HexValueExactly(s[0], x / 16);
    HexValueExactly(s[1], x % 16);
    if PairValue(s) == Some(x) {
      HalvesOf(HexValue(s[0]).value, HexValue(s[1]).value);
    }
  }

  lemma {:induction false} HalvesOf(hi: nat, lo: nat)
    requires lo < 16
    ensures (hi * 16 + lo) / 16 == hi && (hi * 16 + lo) % 16 == lo
  {
  }

  /** s spells out b, two digits for each byte, in order. */
  ghost predicate Spells(s: string, b: Bytes) {
    |s| == 2 * |b| && forall i :: 0 <= i < |b| ==> IsPairFor(s[2 * i..2 * i + 2], b[i])
  }

  lemma {:induction false} SpellsSnoc(s: string, b: Bytes)
    requires b != [] && |s| == 2 * |b|
    ensures var n := |b| - 1; Spells(s, b) <==> Spells(s[..2 * n], b[..n]) && IsPairFor(s[2 * n..], b[n])
  {
    var n := |b| - 1;
    forall i | 0 <= i < n
      ensures s[..2 * n][2 * i..2 * i + 2] == s[2 * i..2 * i + 2]
    {
    }
    assert s[2 * n..2 * n + 2] == s[2 * n..];
  }

  /** A text decodes to b iff it spells b. */
  lemma {:induction false} HexDecodeExactly(s: string, b: Bytes)
    ensures HexDecode(s) == Some(b) <==> Spells(s, b)
  {
    if b != [] && |s| == 2 * |b| {
      var n := |b| - 1;
      HexDecodeExactly(s[..2 * n], b[..n]);
      PairExactly(s[2 * n..], b[n]);
      SpellsSnoc(s, b);
      HexDecodeUnfolds(s, b);
    }
  }

  lemma {:induction false} HexDecodeUnfolds(s: string, b: Bytes)
    requires b != [] && |s| == 2 * |b|
    ensures var n := |b| - 1;
            HexDecode(s) == Some(b) <==> HexDecode(s[..2 * n]) == Some(b[..n]) && PairValue(s[2 * n..]) == Some(b[n])
  {
    var n := |b| - 1;
    assert b == b[..n] + [b[n]];
    var rest, last := HexDecode(s[..2 * n]), PairValue(s[2 * n..]);
    if rest.Some? && last.Some? {
      assert (rest.value + [last.value])[..|rest.value|] == rest.value;
    }
  }

  /** Encoding writes each byte as two small digits. */
  lemma {:induction false} HexEncodeExactly(b: Bytes, i: nat)
    requires i < |b|
    ensures HexEncode(b)[2 * i] == "0123456789abcdef"[b[i] / 16]
    ensures HexEncode(b)[2 * i + 1] == "0123456789abcdef"[b[i] % 16]
  {
    if i < |b| - 1 {
      HexEncodeExactly(b[..|b| - 1], i);
    } else {
      HexDigitExactly(b[i] / 16);
      HexDigitExactly(b[i] % 16);
    }
  }

  function TrimHexPrefix(s: string): string {
    if "0x" <= s then s[2..] else s
  }

  // ---------- What the node returns ----------

  function Zeros(n: nat): Bytes {
    seq(n, _ => 0)
  }

  function AbiEncode(d: Bytes): Bytes {
    ToBytes(32, 32) + ToBytes(|d|, 32) + d + Zeros((32 - |d| % 32) % 32)
  }

  function LogData(d: Bytes): string {
    "0x" + HexEncode(AbiEncode(d))
  }

  /** Offset 32, the length, the bytes, and zeros up to a whole number of words. */
  lemma {:induction false} AbiEncodeExactly(d: Bytes)
    ensures var e := AbiEncode(d);
            && e[..32] == ToBytes(32, 32) && e[32..64] == ToBytes(|d|, 32) && e[64..64 + |d|] == d
            && (forall i :: 64 + |d| <= i < |e| ==> e[i] == 0)
            && |e| % 32 == 0 && |e| < 64 + |d| + 32
  {
    EncodedParts(d);
    WholeWords(|d|);
    var pad := (32 - |d| % 32) % 32;
    assert AbiEncode(d) == (ToBytes(32, 32) + ToBytes(|d|, 32) + d) + Zeros(pad);
    EndsInZeros(ToBytes(32, 32) + ToBytes(|d|, 32) + d, pad);
  }

  lemma {:induction false} EndsInZeros(front: Bytes, pad: nat)
    ensures forall i :: |front| <= i < |front| + pad ==> (front + Zeros(pad))[i] == 0
  {
  }

  lemma {:induction false} WholeWords(n: nat)
    ensures (64 + n + (32 - n % 32) % 32) % 32 == 0
  {
  }

  // ---------- The gateway's decoder ----------

  /** A slice with its end before its start panics. In a request's own goroutine
      net/http drops the request; in one of fetchMultipart's the process ends. */
  datatype Decoded = Decoded(data: Bytes) | Malformed | Panic

  /** The value of a 64-bit signed integer holding n modulo 2^64. */
  function Int64(n: int): int {
    if n % TWO_64 < TWO_63 then n % TWO_64 else n % TWO_64 - TWO_64
  }

  /** Two's complement in 64 bits. */
  lemma {:induction false} Int64Range(n: int)
    ensures -0x8000_0000_0000_0000 <= Int64(n) < 0x8000_0000_0000_0000
    ensures (n - Int64(n)) % 0x1_0000_0000_0000_0000 == 0
  {
    assert n == n / TWO_64 * TWO_64 + n % TWO_64;
  }

  lemma {:induction false} SmallInt64(n: nat)
    requires n < TWO_63
    ensures Int64(n) == n
  {
  }

  function GatewayDecodeBytes(data: Bytes): Decoded {
    if |data| < 64 || Int64(FromBytes(data[..32])) != 32 then Malformed
    else
      var dataLen := Int64(FromBytes(data[32..64]));
      var end := Int64(64 + dataLen);
      if |data| < end then Malformed else if end < 64 then Panic else Decoded(data[64..end])
  }

  function GatewayDecode(text: string): Decoded {
    match HexDecode(TrimHexPrefix(text))
    case Some(data) => GatewayDecodeBytes(data)
    case None => Malformed
  }

  // ---------- The library's decoder ----------

  /** Numbers are read from at most the last six bytes. */
  function LastSix(b: Bytes): Bytes {
    if |b| <= 6 then b else b[|b| - 6..]
  }

  method BytesToInt(b: Bytes) returns (n: nat)
    ensures n == FromBytes(LastSix(b)) < TWO_48
  {
    n := 0;
    var start := if |b| - 6 > 0 then |b| - 6 else 0;
    assert b[start..start] == [];
    for i := start to |b|
      invariant n == FromBytes(b[start..i])
    {
      assert b[start..i + 1][..i - start] == b[start..i];
      n := n * 256 + b[i];
    }
    assert b[start..|b|] == LastSix(b);
    SixBytesFit(LastSix(b));
  }

  lemma {:induction false} FromBytesBound(b: Bytes)
    ensures FromBytes(b) < Pow256(|b|)
  {
    if b != [] {
      FromBytesBound(b[..|b| - 1]);
    }
  }

  lemma {:induction false} SixBytesFit(b: Bytes)
    requires |b| <= 6
    ensures FromBytes(b) < TWO_48
  {
    FromBytesBound(b);
    PowGrows(FromBytes(b), |b|, 6);
    Powers();
  }

  method HexToBytes(hex: string) returns (bytes: array<byte>)
    requires HexDecode(hex).Some?
    ensures fresh(bytes) && Some(bytes[..]) == HexDecode(hex)
  {
    bytes := new byte[|hex| / 2](_ => 0);
    var i := 0;
    while i < |hex|
      invariant i % 2 == 0 && i <= |hex|
      invariant HexDecode(hex[..i]) == Some(bytes[..i / 2])
      decreases |hex| - i
    {
      PairAt(hex, i);
      HexPrefixStep(hex, i, bytes[..i / 2]);
      ghost var before := bytes[..i / 2];
      bytes[i / 2] := PairValue(hex[i..i + 2]).value;
      assert bytes[..(i + 2) / 2] == before + [bytes[i / 2]];
      i := i + 2;
    }
    assert hex[..i] == hex && bytes[..i / 2] == bytes[..];
  }

  lemma {:induction false} HexPrefixStep(hex: string, i: nat, before: Bytes)
    requires i + 2 <= |hex| && HexDecode(hex[..i]) == Some(before) && PairValue(hex[i..i + 2]).Some?
    ensures HexDecode(hex[..i + 2]) == Some(before + [PairValue(hex[i..i + 2]).value])
  {
    HexDecodeSnoc(hex[..i], hex[i..i + 2], PairValue(hex[i..i + 2]).value);
    assert hex[..i] + hex[i..i + 2] == hex[..i + 2];
  }

  lemma {:induction false} PairAt(hex: string, i: nat)
    requires HexDecode(hex).Some? && i % 2 == 0 && i < |hex|
    ensures i + 1 < |hex| && PairValue(hex[i..i + 2]).Some?
    decreases |hex|
  {
    if i < |hex| - 2 {
      PairAt(hex[..|hex| - 2], i);
      assert hex[..|hex| - 2][i..i + 2] == hex[i..i + 2];
    }
  }

  function LibDecodeBytes(data: Bytes): Decoded {
    if |data| < 64 || FromBytes(LastSix(data[..32])) != 32 then Malformed
    else
      var length := FromBytes(LastSix(data[32..64]));
      if |data| < 64 + length then Malformed else Decoded(data[64..64 + length])
  }

  method LibAbiDecode(text: string) returns (r: Decoded)
    requires HexDecode(TrimHexPrefix(text)).Some?
    ensures r == LibDecodeBytes(HexDecode(TrimHexPrefix(text)).value)
  {
    var bytes := HexToBytes(TrimHexPrefix(text));
    var data := bytes[..];
    if |data| < 64 { return Malformed; }
    var offset := BytesToInt(data[..32]);
    if offset != 32 { return Malformed; }
    var length := BytesToInt(data[32..64]);
    if |data| < 64 + length { return Malformed; }
    return Decoded(data[64..64 + length]);
  }

  // ---------- Round trips ----------

  lemma {:induction false} EncodedParts(d: Bytes)
    ensures var e := AbiEncode(d);
            && |e| >= 64 + |d|
            && e[..32] == ToBytes(32, 32) && e[32..64] == ToBytes(|d|, 32) && e[64..64 + |d|] == d
  {
    var e := AbiEncode(d);
    assert e == ToBytes(32, 32) + (ToBytes(|d|, 32) + (d + Zeros((32 - |d| % 32) % 32)));
  }

  lemma {:induction false} WordValue(n: nat)
    requires n < TWO_63
    ensures FromBytes(ToBytes(n, 32)) == n
  {
    Powers();
    PowGrows(n, 8, 32);
    FromToBytes(n, 32);
  }

  lemma {:induction false} WordLastSix(n: nat)
    requires n < TWO_48
    ensures FromBytes(LastSix(ToBytes(n, 32))) == n
  {
    LowBytes(n, 32, 6);
    Powers();
    FromToBytes(n, 6);
  }

  lemma {:induction false} GatewayDecodesEncoding(d: Bytes)
    requires |d| < TWO_63 - 64
    ensures GatewayDecodeBytes(AbiEncode(d)) == Decoded(d)
  {
    EncodedParts(d);
    WordValue(32);
    WordValue(|d|);
    SmallInt64(32);
    SmallInt64(|d|);
    SmallInt64(64 + |d|);
  }

  lemma {:induction false} LogDataDecodes(d: Bytes)
    ensures HexDecode(TrimHexPrefix(LogData(d))) == Some(AbiEncode(d))
  {
    HexRoundTrip(AbiEncode(d));
    assert LogData(d)[2..] == HexEncode(AbiEncode(d));
  }

  /** The gateway gets back every byte string whose length fits an int. */
  lemma {:induction false} GatewayRoundTrip(d: Bytes)
    requires |d| < TWO_63 - 64
    ensures GatewayDecode(LogData(d)) == Decoded(d)
  {
    LogDataDecodes(d);
    GatewayDecodesEncoding(d);
  }

  /** The library gets back every byte string shorter than 2^48. */
  lemma {:induction false} LibRoundTrip(d: Bytes)
    requires |d| < TWO_48
    ensures HexDecode(TrimHexPrefix(LogData(d))) == Some(AbiEncode(d))
    ensures LibDecodeBytes(AbiEncode(d)) == Decoded(d)
  {
    LogDataDecodes(d);
    EncodedParts(d);
    WordLastSix(32);
    WordLastSix(|d|);
  }

  /** And only those: a longer one is cut short or refused. */
  lemma {:induction false} LibRoundTripExactly(d: Bytes)
    ensures LibDecodeBytes(AbiEncode(d)) == Decoded(d) <==> |d| < TWO_48
  {
    EncodedParts(d);
    WordLastSix(32);
    SixBytesFit(LastSix(AbiEncode(d)[32..64]));
    if |d| < TWO_48 {
      LibRoundTrip(d);
    }
  }

  lemma {:induction false} HighZeros(b: Bytes)
    requires |b| >= 6 && FromBytes(b) < TWO_48
    ensures FromBytes(LastSix(b)) == FromBytes(b)
  {
    SplitNumber(b, |b| - 6);
    SixBytesFit(b[|b| - 6..]);
    Powers();
  }

  lemma {:induction false} Regroup(high: nat, power: nat, low: nat, x: nat)
    ensures (high * power + low) * 256 + x == high * (256 * power) + (low * 256 + x)
  {
  }

  lemma {:induction false} SplitNumber(b: Bytes, k: nat)
    requires k <= |b|
    ensures FromBytes(b) == FromBytes(b[..k]) * Pow256(|b| - k) + FromBytes(b[k..])
  {
    if k == |b| {
      assert b[..k] == b;
    } else {
      var n := |b| - 1;
      SplitNumber(b[..n], k);
      assert b[..n][..k] == b[..k] && b[..n][k..] == b[k..][..n - k];
      Regroup(FromBytes(b[..k]), Pow256(n - k), FromBytes(b[k..n]), b[n]);
      assert b[k..][..n - k] == b[k..n];
    }
  }

  /** Any log data gives x iff its offset word is 32, its length word is the
      length of x, and x follows; what comes after is ignored. */
  lemma {:induction false} DecodedExactly(data: Bytes, x: Bytes)
    requires |data| >= 64 ==> FromBytes(data[..32]) < TWO_63 && FromBytes(data[32..64]) < TWO_63 - 64
    ensures GatewayDecodeBytes(data) == Decoded(x)
       <==> && |data| >= 64 + |x| && data[64..64 + |x|] == x
            && FromBytes(data[..32]) == 32 && FromBytes(data[32..64]) == |x|
    ensures GatewayDecodeBytes(data) != Panic
  {
    if |data| >= 64 {
      SmallInt64(FromBytes(data[..32]));
      SmallInt64(FromBytes(data[32..64]));
      SmallInt64(64 + FromBytes(data[32..64]));
    }
  }

  /** On any log data, well encoded or not, the two decoders agree as long as
      both words stay below 2^48. */
  lemma {:induction false} DecodersAgree(data: Bytes)
    requires |data| >= 64 ==> FromBytes(data[..32]) < TWO_48 && FromBytes(data[32..64]) < TWO_48
    ensures GatewayDecodeBytes(data) == LibDecodeBytes(data)
  {
    if |data| >= 64 {
      HighZeros(data[..32]);
      HighZeros(data[32..64]);
      SmallInt64(FromBytes(data[..32]));
      SmallInt64(FromBytes(data[32..64]));
      SmallInt64(64 + FromBytes(data[32..64]));
    }
  }
}
