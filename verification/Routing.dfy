// gateway/handlers.go: from a request path to a handler and its arguments.
module Routing {
  import opened Decimals
  import Abi
  import Evmfs

  predicate IsHexDigit(c: char) {
    '0' <= c <= '9' || 'a' <= c <= 'f' || 'A' <= c <= 'F'
  }

  /** ^0x[0-9a-fA-F]{64}$ */
  predicate IsContentHash(s: string) {
    |s| == 66 && "0x" <= s && forall c <- s[2..] :: IsHexDigit(c)
  }

  /** In other words: "0x" and the hex text of 32 bytes. */
  lemma {:induction false} ContentHashExactly(s: string)
    ensures IsContentHash(s) <==> "0x" <= s && |s| == 66 && Abi.HexDecode(s[2..]).Some?
  {
    if |s| == 66 {
      HexTextExactly(s[2..]);
    }
  }

  lemma {:induction false} PairIsHex(s: string)
    requires |s| == 2
    ensures Abi.PairValue(s).Some? <==> IsHexDigit(s[0]) && IsHexDigit(s[1])
  {
  }

  lemma {:induction false} HexTextExactly(s: string)
    requires |s| % 2 == 0
    ensures Abi.HexDecode(s).Some? <==> forall c <- s :: IsHexDigit(c)
  {
    if s != "" {
      var n := |s| - 2;
      HexTextExactly(s[..n]);
      assert s == s[..n] + [s[n], s[n + 1]];
      PairIsHex(s[n..]);
    }
  }

  /** Every printed hash is one. */
  lemma {:induction false} PrintedHash(b: Evmfs.Bytes)
    ensures IsContentHash("0x" + Abi.HexEncode(b)) <==> |b| == 32
  {
    var s := "0x" + Abi.HexEncode(b);
    assert s[2..] == Abi.HexEncode(b) && "0x" <= s;
    Abi.HexRoundTrip(b);
    ContentHashExactly(s);
  }

  predicate IsChainId(s: string) {
    s != "" && AllDigits(s)
  }

  predicate Without(s: string, c: char) {
    forall x <- s :: x != c
  }

  // ---------- strings ----------

  function Split(s: string): (parts: seq<string>)
    ensures parts != []
  {
    if s == "" then [""]
    else
      var rest := Split(s[1..]);
      if s[0] == '/' then [""] + rest else [[s[0]] + rest[0]] + rest[1..]
  }

  function Join(parts: seq<string>): string {
    if parts == [] then "" else if |parts| == 1 then parts[0] else parts[0] + "/" + Join(parts[1..])
  }

  lemma {:induction false} JoinSplit(s: string)
    ensures Join(Split(s)) == s
  {
    if s != "" {
      JoinSplit(s[1..]);
      var rest := Split(s[1..]);
      if s[0] == '/' {
        assert ([""] + rest)[1..] == rest;
      } else {
        assert ([[s[0]] + rest[0]] + rest[1..])[1..] == rest[1..];
      }
      assert s == [s[0]] + s[1..];
    }
  }

  lemma {:induction false} SplitFirst(a: string, b: string)
    requires Without(a, '/')
    ensures Split(a + "/" + b) == [a] + Split(b)
  {
    if a == "" {
      assert (a + "/" + b)[1..] == b;
    } else {
      assert a[0] in a && forall x <- a[1..] :: x in a;
      SplitFirst(a[1..], b);
      assert (a + "/" + b)[1..] == a[1..] + "/" + b;
      assert ([a[1..]] + Split(b))[1..] == Split(b) && [a[0]] + a[1..] == a;
    }
  }

  lemma {:induction false} SplitNone(a: string)
    requires Without(a, '/')
    ensures Split(a) == [a]
  {
    if a != "" {
      assert a[0] in a && forall x <- a[1..] :: x in a;
      SplitNone(a[1..]);
      assert [a[0]] + a[1..] == a;
    }
  }

  function TrimSuffixSlash(s: string): string {
    if s != "" && s[|s| - 1] == '/' then s[..|s| - 1] else s
  }

  function TrimPrefixSlash(s: string): string {
    if s != "" && s[0] == '/' then s[1..] else s
  }

  /** strings.Index: where p first occurs in s, or -1. */
  function Index(s: string, p: string): (i: int)
    ensures i == -1 || 0 <= i <= |s| - |p|
    ensures i >= 0 ==> p <= s[i..] && forall k :: 0 <= k < i ==> !(p <= s[k..])
    ensures i == -1 ==> forall k :: 0 <= k <= |s| ==> !(p <= s[k..])
    decreases |s|
  {
    if p <= s then
      assert s[0..] == s;
      0
    else if s == "" then -1
    else
      var i := Index(s[1..], p);
      assert s[0..] == s && forall k :: 0 < k <= |s| ==> s[k..] == s[1..][k - 1..];
      if i == -1 then -1 else i + 1
  }

  // ---------- Routing ----------

  datatype Route =
    | Health
    | Resolve
    | ManifestOrFile(chainId: string, manifestHash: string, pathOrIndex: string, block: nat)
    | Directory(chainId: string, manifestHash: string, block: nat)
    | File(chainId: string, contentHash: string, block: nat)
    | Static

  predicate IsSiteUrl(segments: seq<string>) {
    |segments| >= 3 && IsChainId(segments[0]) && IsChainId(segments[1]) && IsContentHash(segments[2])
  }

  function Dispatch(segments: seq<string>, trailingSlash: bool): Route {
    var n := |segments|;
    if n >= 4 && IsSiteUrl(segments) then
      ManifestOrFile(segments[0], segments[2], Join(segments[3..]), ParseInt64(segments[1]))
    else if n == 3 && IsSiteUrl(segments) && trailingSlash then
      Directory(segments[0], segments[2], ParseInt64(segments[1]))
    else if n == 3 && IsSiteUrl(segments) then
      File(segments[0], segments[2], ParseInt64(segments[1]))
    else if n >= 3 && IsChainId(segments[0]) && IsContentHash(segments[1]) then
      ManifestOrFile(segments[0], segments[1], Join(segments[2..]), 0)
    else if n == 2 && IsChainId(segments[0]) && IsContentHash(segments[1]) then
      File(segments[0], segments[1], 0)
    else Static
  }

  /** A path names content iff a chain id is followed by a hash, at once or
      after a block; everything else goes to the static files. */
  lemma {:induction false} StaticExactly(segments: seq<string>, trailingSlash: bool)
    ensures Dispatch(segments, trailingSlash) == Static
       <==> !(&& |segments| >= 2 && IsChainId(segments[0])
              && (IsContentHash(segments[1])
                  || (|segments| >= 3 && IsChainId(segments[1]) && IsContentHash(segments[2]))))
  {
    if |segments| >= 2 && IsContentHash(segments[1]) {
      assert segments[1][1] == 'x' && segments[1][1] in segments[1];
    }
  }

  /** ServeHTTP's dispatch of a GET on the gateway's own host. */
  function ServeHTTP(rawPath: string): Route {
    var trailingSlash := rawPath != "" && rawPath[|rawPath| - 1] == '/' && rawPath != "/";
    var urlPath := TrimSuffixSlash(rawPath);
    if urlPath == "/health" then Health
    else if urlPath == "/resolve" then Resolve
    else Dispatch(Split(TrimPrefixSlash(urlPath)), trailingSlash)
  }

  /** The two fixed routes, with a trailing slash or without. */
  lemma {:induction false} FixedRoutesExactly(rawPath: string)
    ensures ServeHTTP(rawPath) == Health <==> rawPath == "/health" || rawPath == "/health/"
    ensures ServeHTTP(rawPath) == Resolve <==> rawPath == "/resolve" || rawPath == "/resolve/"
  {
    assert "/health/"[..7] == "/health" && "/resolve/"[..8] == "/resolve";
    assert "/health"[6] == 'h' && "/resolve"[7] == 'e';
    if TrimSuffixSlash(rawPath) != rawPath {
      assert rawPath == TrimSuffixSlash(rawPath) + "/";
      assert "/health/" == "/health" + "/" && "/resolve/" == "/resolve" + "/";
    }
  }

  /** The path of a file of a site, as the base URI plus a file path prints it. */
  function PrintPath(chainId: string, block: nat, hash: string, path: string): string {
    "/" + (chainId + "/" + (Decimal(block) + "/" + (hash + "/" + path)))
  }

  lemma {:induction false} PartsHaveNoSlash(chainId: string, block: nat, hash: string)
    requires IsChainId(chainId) && IsContentHash(hash)
    ensures Without(chainId, '/') && Without(Decimal(block), '/') && Without(hash, '/')
  {
    forall x | x in hash
      ensures x != '/'
    {
      var i :| 0 <= i < |hash| && hash[i] == x;
      if i >= 2 { assert hash[2..][i - 2] == x && x in hash[2..]; } else { assert hash[i] == "0x"[i]; }
    }
  }

  lemma {:induction false} PrintedSegments(chainId: string, block: nat, hash: string, path: string)
    requires IsChainId(chainId) && IsContentHash(hash)
    ensures Split(TrimPrefixSlash(PrintPath(chainId, block, hash, path)))
         == [chainId, Decimal(block), hash] + Split(path)
  {
    PartsHaveNoSlash(chainId, block, hash);
    var rest := Decimal(block) + "/" + (hash + "/" + path);
    assert PrintPath(chainId, block, hash, path)[1..] == chainId + "/" + rest;
    SplitFirst(chainId, rest);
    SplitFirst(Decimal(block), hash + "/" + path);
    SplitFirst(hash, path);
  }

  /** A path that starts with a digit goes by its segments. */
  lemma {:induction false} RoutedBySegments(raw: string, inner: string)
    requires raw == "/" + inner && inner != "" && IsDigit(inner[0])
    ensures inner[|inner| - 1] != '/' ==> ServeHTTP(raw) == Dispatch(Split(inner), false)
    ensures inner[|inner| - 1] != '/' ==> ServeHTTP(raw + "/") == Dispatch(Split(inner), true)
  {
    assert raw[1] == inner[0] && raw[1..] == inner && raw[|raw| - 1] == inner[|inner| - 1];
    assert (raw + "/")[..|raw|] == raw;
  }

  /** The hint a printed block is read as: its range error is ignored. */
  function Clamped(block: nat): nat {
    if block <= MAX_INT64 then block else MAX_INT64
  }

  lemma {:induction false} DispatchFile(chainId: string, block: nat, hash: string, path: string, slash: bool)
    requires IsChainId(chainId) && IsContentHash(hash)
    ensures Dispatch([chainId, Decimal(block), hash] + Split(path), slash)
         == ManifestOrFile(chainId, hash, path, Clamped(block))
  {
    JoinSplit(path);
    DecimalValue(block);
    assert ([chainId, Decimal(block), hash] + Split(path))[3..] == Split(path);
  }

  /** Printing a file's path and routing it gives back its four parts: exactly,
      iff the block fits a signed 64-bit number. */
  lemma {:induction false} UrlRoundTrip(chainId: string, block: nat, hash: string, path: string)
    requires IsChainId(chainId) && IsContentHash(hash)
    requires path != "" && path[|path| - 1] != '/'
    ensures ServeHTTP(PrintPath(chainId, block, hash, path)) == ManifestOrFile(chainId, hash, path, Clamped(block))
    ensures ServeHTTP(PrintPath(chainId, block, hash, path)) == ManifestOrFile(chainId, hash, path, block)
       <==> block <= MAX_INT64
  {
    var raw := PrintPath(chainId, block, hash, path);
    var inner := chainId + "/" + (Decimal(block) + "/" + (hash + "/" + path));
    assert raw == "/" + inner && raw[1..] == inner;
    assert inner[0] == chainId[0] && chainId[0] in chainId;
    assert inner[|inner| - 1] == path[|path| - 1];
    PrintedSegments(chainId, block, hash, path);
    DispatchFile(chainId, block, hash, path, false);
    RoutedBySegments(raw, inner);
  }

  lemma {:induction false} BaseSegments(chainId: string, block: nat, hash: string)
    requires IsChainId(chainId) && IsContentHash(hash)
    ensures Split(PrintBase(chainId, block, hash)) == [chainId, Decimal(block), hash]
  {
    PartsHaveNoSlash(chainId, block, hash);
    SplitFirst(chainId, Decimal(block) + "/" + hash);
    SplitFirst(Decimal(block), hash);
    SplitNone(hash);
  }

  lemma {:induction false} DispatchBase(chainId: string, block: nat, hash: string)
    requires IsChainId(chainId) && IsContentHash(hash)
    ensures Dispatch([chainId, Decimal(block), hash], true) == Directory(chainId, hash, Clamped(block))
    ensures Dispatch([chainId, Decimal(block), hash], false) == File(chainId, hash, Clamped(block))
  {
    DecimalValue(block);
  }

  function PrintBase(chainId: string, block: nat, hash: string): string {
    chainId + "/" + (Decimal(block) + "/" + hash)
  }

  lemma {:induction false} BaseEnds(chainId: string, block: nat, hash: string)
    requires IsChainId(chainId) && IsContentHash(hash)
    ensures var inner := PrintBase(chainId, block, hash);
            inner != "" && IsDigit(inner[0]) && inner[|inner| - 1] != '/'
  {
    var inner := PrintBase(chainId, block, hash);
    PartsHaveNoSlash(chainId, block, hash);
    assert inner[0] == chainId[0] && chainId[0] in chainId;
    assert inner[|inner| - 1] == hash[|hash| - 1] && hash[|hash| - 1] in hash;
  }

  /** The base URI itself is the directory with its trailing slash, and a
      single file without it. */
  lemma {:induction false} BaseUriRoutes(chainId: string, block: nat, hash: string)
    requires IsChainId(chainId) && IsContentHash(hash)
    ensures ServeHTTP("/" + PrintBase(chainId, block, hash) + "/") == Directory(chainId, hash, Clamped(block))
    ensures ServeHTTP("/" + PrintBase(chainId, block, hash)) == File(chainId, hash, Clamped(block))
  {
    BaseEnds(chainId, block, hash);
    BaseSegments(chainId, block, hash);
    DispatchBase(chainId, block, hash);
    RoutedBySegments("/" + PrintBase(chainId, block, hash), PrintBase(chainId, block, hash));
  }

  lemma {:induction false} ShortEnds(chainId: string, hash: string)
    requires IsChainId(chainId) && IsContentHash(hash)
    ensures var inner := chainId + "/" + hash;
            && inner != "" && IsDigit(inner[0]) && inner[|inner| - 1] != '/'
            && Split(inner) == [chainId, hash]
  {
    var inner := chainId + "/" + hash;
    PartsHaveNoSlash(chainId, 0, hash);
    SplitFirst(chainId, hash);
    SplitNone(hash);
    assert inner[0] == chainId[0] && chainId[0] in chainId;
    assert inner[|inner| - 1] == hash[|hash| - 1] && hash[|hash| - 1] in hash;
  }

  lemma {:induction false} DispatchShort(chainId: string, hash: string, slash: bool)
    requires IsChainId(chainId) && IsContentHash(hash)
    ensures Dispatch([chainId, hash], slash) == File(chainId, hash, 0)
  {
  }

  /** Without a block, a trailing slash makes no difference: a single file. */
  lemma {:induction false} HashAloneIsAFile(chainId: string, hash: string)
    requires IsChainId(chainId) && IsContentHash(hash)
    ensures ServeHTTP("/" + (chainId + "/" + hash)) == File(chainId, hash, 0)
    ensures ServeHTTP("/" + (chainId + "/" + hash) + "/") == File(chainId, hash, 0)
  {
    ShortEnds(chainId, hash);
    DispatchShort(chainId, hash, false);
    DispatchShort(chainId, hash, true);
    RoutedBySegments("/" + (chainId + "/" + hash), chainId + "/" + hash);
  }

  function PrintBlockless(chainId: string, hash: string, path: string): string {
    chainId + "/" + (hash + "/" + path)
  }

  lemma {:induction false} BlocklessSegments(chainId: string, hash: string, path: string)
    requires IsChainId(chainId) && IsContentHash(hash)
    ensures Split(PrintBlockless(chainId, hash, path)) == [chainId, hash] + Split(path)
  {
    PartsHaveNoSlash(chainId, 0, hash);
    SplitFirst(chainId, hash + "/" + path);
    SplitFirst(hash, path);
    assert [chainId] + ([hash] + Split(path)) == [chainId, hash] + Split(path);
  }

  lemma {:induction false} BlocklessEnds(chainId: string, hash: string, path: string)
    requires IsChainId(chainId) && path != "" && path[|path| - 1] != '/'
    ensures var inner := PrintBlockless(chainId, hash, path);
            inner != "" && IsDigit(inner[0]) && inner[|inner| - 1] != '/'
  {
    var inner := PrintBlockless(chainId, hash, path);
    assert inner[0] == chainId[0] && chainId[0] in chainId;
    assert inner[|inner| - 1] == path[|path| - 1];
  }

  /** A path behind a hash without a block: the same file, with no hint. */
  lemma {:induction false} BlocklessUrlRoutes(chainId: string, hash: string, path: string)
    requires IsChainId(chainId) && IsContentHash(hash)
    requires path != "" && path[|path| - 1] != '/'
    ensures ServeHTTP("/" + PrintBlockless(chainId, hash, path)) == ManifestOrFile(chainId, hash, path, 0)
  {
    BlocklessEnds(chainId, hash, path);
    BlocklessSegments(chainId, hash, path);
    DispatchBlockless(chainId, hash, path);
    RoutedBySegments("/" + PrintBlockless(chainId, hash, path), PrintBlockless(chainId, hash, path));
  }

  lemma {:induction false} DispatchBlockless(chainId: string, hash: string, path: string)
    requires IsChainId(chainId) && IsContentHash(hash)
    ensures Dispatch([chainId, hash] + Split(path), false) == ManifestOrFile(chainId, hash, path, 0)
  {
    JoinSplit(path);
    assert ([chainId, hash] + Split(path))[2..] == Split(path);
    assert hash[1] == "0x"[1] && hash[1] in hash;
  }

  // ---------- /resolve ----------

  /** The path handleResolve dispatches on. */
  function ResolveTarget(u: string): string {
    var i := Index(u, "://");
    var afterScheme :=
      if i < 0 then u
      else
        var rest := u[i + 3..];
        var j := Index(rest, "/");
        if j < 0 then "/" else rest[j..];
    var rooted := if afterScheme != "" && afterScheme[0] == '/' then afterScheme else "/" + afterScheme;
    CutQuery(rooted)
  }

  /** The text before the first '?' or '#'. */
  function CutQuery(s: string): string {
    if s == "" || s[0] == '?' || s[0] == '#' then "" else [s[0]] + CutQuery(s[1..])
  }

  lemma {:induction false} CutQueryKeeps(s: string)
    requires Without(s, '?') && Without(s, '#')
    ensures CutQuery(s) == s
  {
    if s != "" {
      assert s[0] in s && forall x <- s[1..] :: x in s;
      CutQueryKeeps(s[1..]);
    }
  }

  /** What follows the first '?' or '#' is dropped. */
  lemma {:induction false} CutQueryExactly(a: string, c: char, b: string)
    requires Without(a, '?') && Without(a, '#') && (c == '?' || c == '#')
    ensures CutQuery(a + [c] + b) == a
  {
    if a == "" {
      assert (a + [c] + b)[0] == c;
    } else {
      assert a[0] in a && forall x <- a[1..] :: x in a;
      assert (a + [c] + b)[1..] == a[1..] + [c] + b;
      CutQueryExactly(a[1..], c, b);
    }
  }

  lemma {:induction false} CutQueryShortens(s: string)
    ensures |CutQuery(s)| <= |s|
  {
    if s != "" {
      CutQueryShortens(s[1..]);
    }
  }

  lemma {:induction false} SchemeFound(scheme: string, rest: string)
    requires Without(scheme, ':')
    ensures Index(scheme + "://" + rest, "://") == |scheme|
  {
    var u := scheme + "://" + rest;
    assert u[|scheme|..] == "://" + rest;
    forall k | 0 <= k < |scheme|
      ensures !("://" <= u[k..])
    {
      assert u[k..][0] == scheme[k] && scheme[k] in scheme;
    }
  }

  lemma {:induction false} HostFound(host: string, path: string)
    requires Without(host, '/') && path != "" && path[0] == '/'
    ensures Index(host + path, "/") == |host|
  {
    var s := host + path;
    assert "/" <= s[|host|..];
    forall k | 0 <= k < |host|
      ensures !("/" <= s[k..])
    {
      assert s[k..][0] == host[k] && host[k] in host;
    }
  }

  /** A full URL on any gateway resolves to the path it carries, if that has no
      query or fragment characters. */
  lemma {:induction false} FullUrlResolves(scheme: string, host: string, path: string)
    requires Without(scheme, ':') && Without(host, '/')
    requires path != "" && path[0] == '/' && Without(path, '?') && Without(path, '#')
    ensures ResolveTarget(scheme + "://" + (host + path)) == path
  {
    var u := scheme + "://" + (host + path);
    SchemeFound(scheme, host + path);
    assert u[|scheme| + 3..] == host + path;
    HostFound(host, path);
    assert (host + path)[|host|..] == path;
    CutQueryKeeps(path);
  }

  /** A query or fragment behind it makes no difference, whatever is in it. */
  lemma {:induction false} QueryIsDropped(scheme: string, host: string, path: string, c: char, rest: string)
    requires Without(scheme, ':') && Without(host, '/') && (c == '?' || c == '#')
    requires path != "" && path[0] == '/' && Without(path, '?') && Without(path, '#')
    ensures ResolveTarget(scheme + "://" + (host + (path + [c] + rest))) == path
  {
    var long := path + [c] + rest;
    var u := scheme + "://" + (host + long);
    SchemeFound(scheme, host + long);
    assert u[|scheme| + 3..] == host + long;
    HostFound(host, long);
    assert (host + long)[|host|..] == long;
    CutQueryExactly(path, c, rest);
  }

  lemma {:induction false} NoSlash(s: string)
    requires Without(s, '/')
    ensures Index(s, "/") == -1 && Index(s, "://") == -1
  {
    if s != "" {
      assert s[0] in s && forall x <- s[1..] :: x in s;
      NoSlash(s[1..]);
      assert "/"[0] == '/';
      assert "://"[1] == '/' && forall i :: 0 <= i < |s| ==> s[i] in s;
    }
  }

  /** A host alone resolves to the root, a name without its slash gets one. */
  lemma {:induction false} BareHostAndName(scheme: string, host: string)
    requires Without(scheme, ':') && Without(host, '/') && Without(host, '?') && Without(host, '#')
    ensures ResolveTarget(scheme + "://" + host) == "/"
    ensures ResolveTarget(host) == "/" + host
  {
    SchemeFound(scheme, host);
    assert (scheme + "://" + host)[|scheme| + 3..] == host;
    NoSlash(host);
    CutQueryKeeps("/");
    CutQueryKeeps("/" + host);
  }

  /** A bare path resolves to itself iff it does not contain "://". */
  lemma {:induction false} BarePathExactly(path: string)
    requires path != "" && path[0] == '/' && Without(path, '?') && Without(path, '#')
    ensures ResolveTarget(path) == path <==> Index(path, "://") == -1
  {
    CutQueryKeeps(path);
    var i := Index(path, "://");
    if i >= 0 {
      var rest := path[i + 3..];
      var j := Index(rest, "/");
      var after := if j < 0 then "/" else rest[j..];
      CutQueryShortens(after);
      assert |after| <= |path| - 2;
    }
  }

  /** So `/resolve` on the full URL of a site's file, on whatever gateway it was
      printed, reaches the same handler with the same four parts. */
  lemma {:induction false} ResolveRoundTrip(scheme: string, host: string, chainId: string, block: nat, hash: string,
                                            path: string)
    requires Without(scheme, ':') && Without(host, '/')
    requires IsChainId(chainId) && IsContentHash(hash)
    requires path != "" && path[|path| - 1] != '/' && Without(path, '?') && Without(path, '#')
    ensures ServeHTTP(ResolveTarget(scheme + "://" + (host + PrintPath(chainId, block, hash, path))))
         == ManifestOrFile(chainId, hash, path, Clamped(block))
  {
    PrintedPathIsPlain(chainId, block, hash, path);
    FullUrlResolves(scheme, host, PrintPath(chainId, block, hash, path));
    UrlRoundTrip(chainId, block, hash, path);
  }

  lemma {:induction false} PrintedPathIsPlain(chainId: string, block: nat, hash: string, path: string)
    requires IsChainId(chainId) && IsContentHash(hash) && Without(path, '?') && Without(path, '#')
    ensures var url := PrintPath(chainId, block, hash, path);
            url != "" && url[0] == '/' && Without(url, '?') && Without(url, '#')
  {
    forall c | c in hash
      ensures c == 'x' || IsHexDigit(c)
    {
      var i :| 0 <= i < |hash| && hash[i] == c;
      if i >= 2 { assert hash[2..][i - 2] == c && c in hash[2..]; } else { assert hash[i] == "0x"[i]; }
    }
  }
}
