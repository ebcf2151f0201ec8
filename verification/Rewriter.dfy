// gateway/rewriter.go: pointing hardcoded gateway URLs at the serving gateway.
module Rewriter {

  // ---------- Text ----------

  predicate IsSpace(c: char) {
    c == ' ' || '\t' <= c <= '\r'
  }

  function TrimLeft(s: string): string {
    if s != "" && IsSpace(s[0]) then TrimLeft(s[1..]) else s
  }

  function TrimRight(s: string): string {
    if s != "" && IsSpace(s[|s| - 1]) then TrimRight(s[..|s| - 1]) else s
  }

  function TrimSpace(s: string): string {
    TrimRight(TrimLeft(s))
  }

  /** The text before the first c, or all of it. */
  function Before(s: string, c: char): string {
    if s == "" || s[0] == c then "" else [s[0]] + Before(s[1..], c)
  }

  function ToLower(s: string): string {
    seq(|s|, i requires 0 <= i < |s| => if 'A' <= s[i] <= 'Z' then s[i] - 'A' + 'a' else s[i])
  }

  /** p occurs in s. */
  predicate Contains(s: string, p: string) {
    exists i :: 0 <= i <= |s| && p <= s[i..]
  }

  /** bytes.ReplaceAll: leftmost occurrences, without overlap. */
  function ReplaceAll(s: string, from: string, to: string): string
    requires from != ""
    decreases |s|
  {
    if |s| < |from| then s
    else if from <= s then to + ReplaceAll(s[|from|..], from, to)
    else [s[0]] + ReplaceAll(s[1..], from, to)
  }

  predicate SlashFree(s: string) {
    forall c <- s :: c != '/'
  }

  predicate Comparable(a: string, b: string) {
    a <= b || b <= a
  }

  // ---------- The code ----------

  const REWRITEABLE: set<string> := {
    "application/json", "application/manifest+json", "application/javascript", "application/xml",
    "text/html", "text/css", "text/javascript", "text/plain", "text/xml", "image/svg+xml" }

  predicate IsRewriteable(contentType: string) {
    var ct := ToLower(TrimSpace(contentType));
    (if ';' in ct then TrimSpace(Before(ct, ';')) else ct) in REWRITEABLE
  }

  /** What the rewriter reads of a request; an absent header is empty. */
  datatype Request = Request(host: string, forwardedProto: string, tls: bool)

  function Scheme(r: Request): string {
    if r.forwardedProto != "" then
      if ',' in r.forwardedProto then TrimSpace(Before(r.forwardedProto, ',')) else r.forwardedProto
    else if r.tls then "https" else "http"
  }

  function CurrentBase(r: Request): string {
    Scheme(r) + "://" + r.host
  }

  datatype Pattern = Pattern(from: string, to: string)

  function Patterns(host: string, r: Request): seq<Pattern> {
    [Pattern("https://" + host, CurrentBase(r)),
     Pattern("http://" + host, CurrentBase(r)),
     Pattern("//" + host, "//" + r.host)]
  }

  /** A text and whether anything was replaced to get it. */
  datatype Rewritten = Rewritten(text: string, touched: bool)

  function Apply(out: Rewritten, p: Pattern): Rewritten
    requires p.from != ""
  {
    if p.from != p.to && Contains(out.text, p.from)
    then Rewritten(ReplaceAll(out.text, p.from, p.to), true)
    else out
  }

  function ApplyHost(out: Rewritten, host: string, r: Request): Rewritten {
    var p := Patterns(host, r);
    if host == "" then out else Apply(Apply(Apply(out, p[0]), p[1]), p[2])
  }

  function ApplyHosts(out: Rewritten, hosts: seq<string>, r: Request): Rewritten {
    if hosts == [] then out
    else ApplyHost(ApplyHosts(out, hosts[..|hosts| - 1], r), TrimSpace(hosts[|hosts| - 1]), r)
  }

  function Rewrite(data: string, contentType: string, r: Request, fromHosts: seq<string>): Rewritten {
    if !IsRewriteable(contentType) || fromHosts == [] || data == "" then Rewritten(data, false)
    else ApplyHosts(Rewritten(data, false), fromHosts, r)
  }

  method RewriteURLs(data: string, contentType: string, r: Request, fromHosts: seq<string>)
    returns (out: string, rewritten: bool)
    ensures Rewritten(out, rewritten) == Rewrite(data, contentType, r, fromHosts)
    ensures !rewritten ==> out == data
    ensures !IsRewriteable(contentType) ==> !rewritten
  {
    if !IsRewriteable(contentType) || |fromHosts| == 0 || |data| == 0 { return data, false; }
    var base := CurrentBase(r);
    rewritten, out := false, data;
    for k := 0 to |fromHosts|
      invariant Rewritten(out, rewritten) == ApplyHosts(Rewritten(data, false), fromHosts[..k], r)
      invariant !rewritten ==> out == data
    {
      assert fromHosts[..k + 1][..k] == fromHosts[..k];
      var host := TrimSpace(fromHosts[k]);
      if host != "" {
        var patterns := [Pattern("https://" + host, base), Pattern("http://" + host, base),
                         Pattern("//" + host, "//" + r.host)];
        ghost var start := Rewritten(out, rewritten);
        for j := 0 to 3
          invariant Rewritten(out, rewritten)
                 == (if j == 0 then start
                     else if j == 1 then Apply(start, patterns[0])
                     else if j == 2 then Apply(Apply(start, patterns[0]), patterns[1])
                     else Apply(Apply(Apply(start, patterns[0]), patterns[1]), patterns[2]))
          invariant !rewritten ==> out == data
        {
          var p := patterns[j];
          if p.from != p.to && Contains(out, p.from) {
            out, rewritten := ReplaceAll(out, p.from, p.to), true;
          }
        }
      }
    }
    assert fromHosts[..|fromHosts|] == fromHosts;
  }

  // ---------- What ReplaceAll does ----------

  /** Pieces p0, p1, ... joined by `glue`. */
  function Interleave(pieces: seq<string>, glue: string): string {
    if pieces == [] then "" else if |pieces| == 1 then pieces[0] else pieces[0] + glue + Interleave(pieces[1..], glue)
  }

  /** The stretches of s that no replacement touches. */
  function Untouched(s: string, from: string): (pieces: seq<string>)
    requires from != ""
    ensures pieces != []
    decreases |s|
  {
    if |s| < |from| then [s]
    else if from <= s then [""] + Untouched(s[|from|..], from)
    else
      var rest := Untouched(s[1..], from);
      [[s[0]] + rest[0]] + rest[1..]
  }

  lemma {:induction false} InterleaveHead(c: char, pieces: seq<string>, glue: string)
    requires pieces != []
    ensures Interleave([[c] + pieces[0]] + pieces[1..], glue) == [c] + Interleave(pieces, glue)
  {
  }

  lemma {:induction false} InterleaveGlue(pieces: seq<string>, glue: string)
    requires pieces != []
    ensures Interleave([""] + pieces, glue) == glue + Interleave(pieces, glue)
  {
  }

  /** Replacing swaps `from` for `to` between stretches that survive in order. */
  lemma {:induction false} ReplaceSwapsOccurrences(s: string, from: string, to: string)
    requires from != ""
    ensures s == Interleave(Untouched(s, from), from)
    ensures ReplaceAll(s, from, to) == Interleave(Untouched(s, from), to)
    decreases |s|
  {
    if |s| < |from| {
    } else if from <= s {
      ReplaceSwapsOccurrences(s[|from|..], from, to);
      InterleaveGlue(Untouched(s[|from|..], from), from);
      InterleaveGlue(Untouched(s[|from|..], from), to);
    } else {
      ReplaceSwapsOccurrences(s[1..], from, to);
      InterleaveHead(s[0], Untouched(s[1..], from), from);
      InterleaveHead(s[0], Untouched(s[1..], from), to);
    }
  }

  lemma {:induction false} ContainsTail(s: string, n: nat, p: string)
    requires n <= |s| && Contains(s[n..], p)
    ensures Contains(s, p)
  {
  }

  // ---------- Nothing is left over ----------

  /** Some host of `es` is at the front of t. */
  ghost predicate Shielded(es: seq<string>, t: string) {
    exists e <- es :: e <= t
  }

  /** Where a//... becomes b//..., no suffix of host h starts at the end of kept
      text and is completed by b, unless a completed it as well, or the text
      before had "//" and a host of `es` there. */
  ghost predicate HarmlessAmong(h: string, es: seq<string>, a: string, b: string) {
    forall k :: 0 <= k < |h| && h[k..] <= b ==> h[k..] <= a || Shielded(es, h[..k] + a)
  }

  /** A pass that replaces a//f by b//g, seen by host h in a text clean of `es`. */
  ghost predicate SafePass(h: string, es: seq<string>, a: string, f: string, b: string, g: string) {
    && h != "" && SlashFree(h) && SlashFree(b) && SlashFree(g)
    && !Comparable(h, g)
    && HarmlessAmong(h, es, a, b)
  }

  /** No host of `es` follows "//" in s. */
  ghost predicate FreeOf(s: string, es: seq<string>) {
    forall e <- es :: !Contains(s, "//" + e)
  }

  /** A slash-free text at the front of b/... is at the front of b. */
  lemma {:induction false} UpToSlash(z: string, b: string, rest: string)
    requires SlashFree(z) && z <= b + "/" + rest
    ensures z <= b
  {
    var out := b + "/" + rest;
    assert out[|b|] == '/' && forall i :: 0 <= i < |z| ==> z[i] == out[i] && z[i] in z;
    assert z == out[..|z|];
  }

  /** A suffix of h at the front of the new text was at the front of the old
      one, if the rest of h before it makes no host of `es`. */
  lemma {:induction false} SuffixNotCreated(s: string, h: string, es: seq<string>, k: nat, a: string, f: string,
                                            b: string, g: string)
    requires SafePass(h, es, a, f, b, g) && k <= |h| && !Shielded(es, h[..k] + s)
    requires h[k..] <= ReplaceAll(s, a + "//" + f, b + "//" + g)
    ensures h[k..] <= s
    decreases |s|
  {
    var from, to := a + "//" + f, b + "//" + g;
    if |s| < |from| || k == |h| {
    } else if from <= s {
      SuffixAtReplacement(s, ReplaceAll(s[|from|..], from, to), h, es, k, a, f, b, g);
    } else {
      var rest := ReplaceAll(s[1..], from, to);
      assert ([s[0]] + rest)[1..] == rest && h[k..][1..] == h[k + 1..];
      assert h[k..][0] == s[0] && h[..k] + s == h[..k + 1] + s[1..];
      SuffixNotCreated(s[1..], h, es, k + 1, a, f, b, g);
    }
  }

  lemma {:induction false} SuffixAtReplacement(s: string, rest: string, h: string, es: seq<string>, k: nat, a: string,
                                               f: string, b: string, g: string)
    requires SafePass(h, es, a, f, b, g) && k < |h| && !Shielded(es, h[..k] + s)
    requires a + "//" + f <= s && h[k..] <= b + "//" + g + rest
    ensures h[k..] <= s
  {
    assert b + "//" + g + rest == b + "/" + ("/" + g + rest);
    assert forall c <- h[k..] :: c in h;
    UpToSlash(h[k..], b, "/" + g + rest);
    assert a <= a + "//" + f && a <= s;
    if Shielded(es, h[..k] + a) {
      ShieldGrows(es, h[..k], a, s);
    }
  }

  lemma {:induction false} ShieldGrows(es: seq<string>, front: string, a: string, s: string)
    requires Shielded(es, front + a) && a <= s
    ensures Shielded(es, front + s)
  {
    var e :| e in es && e <= front + a;
    assert front + a <= front + s;
  }

  lemma {:induction false} ReplacementIsNotSlashHost(rest: string, h: string, es: seq<string>, a: string, f: string,
                                                     b: string, g: string)
    requires SafePass(h, es, a, f, b, g)
    ensures !("/" + h <= b + "//" + g + rest)
  {
    var q, out := "/" + h, b + "//" + g + rest;
    assert h[0] in h && q[0] == '/' && q[1] == h[0];
    if b == "" {
      assert out[1] == '/';
    } else {
      assert out[0] == b[0] && b[0] in b;
    }
  }

  /** Nor is "/h" created at the front. */
  lemma {:induction false} SlashHostNotCreated(s: string, h: string, es: seq<string>, a: string, f: string, b: string,
                                               g: string)
    requires SafePass(h, es, a, f, b, g) && forall e <- es :: !("/" + e <= s)
    requires "/" + h <= ReplaceAll(s, a + "//" + f, b + "//" + g)
    ensures "/" + h <= s
  {
    var from, to := a + "//" + f, b + "//" + g;
    if |s| >= |from| {
      if from <= s {
        ReplacementIsNotSlashHost(ReplaceAll(s[|from|..], from, to), h, es, a, f, b, g);
      } else {
        var rest := ReplaceAll(s[1..], from, to);
        assert ([s[0]] + rest)[1..] == rest && ("/" + h)[1..] == h == h[0..];
        assert ("/" + h)[0] == '/' == ([s[0]] + rest)[0];
        assert s == "/" + s[1..];
        BehindSlash(es, s[1..]);
        assert h[..0] + s[1..] == s[1..];
        SuffixNotCreated(s[1..], h, es, 0, a, f, b, g);
      }
    }
  }

  lemma {:induction false} BehindSlash(es: seq<string>, s: string)
    requires forall e <- es :: !("/" + e <= "/" + s)
    ensures !Shielded(es, s)
  {
    forall e | e in es
      ensures !(e <= s)
    {
      PrefixBehindSlash(e, s);
    }
  }

  lemma {:induction false} PrefixBehindSlash(e: string, s: string)
    ensures e <= s ==> "/" + e <= "/" + s
  {
  }

  /** No "//h" starts inside a replacement. */
  lemma {:induction false} NoneInsideReplacement(rest: string, i: nat, h: string, es: seq<string>, a: string,
                                                 f: string, b: string, g: string)
    requires SafePass(h, es, a, f, b, g)
    requires i < |b + "//" + g|
    ensures !("//" + h <= (b + "//" + g + rest)[i..])
  {
    var q, out := "//" + h, b + "//" + g + rest;
    assert q[0] == '/' && q[1] == '/' && out[i..][0] == out[i];
    if i < |b| {
      assert out[i] == b[i] && b[i] in b;
    } else if i == |b| {
      assert out[i..] == "//" + (g + rest) && q[2..] == h;
      if q <= out[i..] {
        PrefixesCompare(h, g, rest);
      }
    } else if i == |b| + 1 {
      assert g != "" && out[i..][1] == g[0] && g[0] in g;
    } else {
      assert out[i] == g[i - |b| - 2] && g[i - |b| - 2] in g;
    }
  }

  lemma {:induction false} PrefixesCompare(h: string, g: string, rest: string)
    requires "//" + h <= "//" + (g + rest)
    ensures Comparable(h, g)
  {
    assert h == ("//" + h)[2..] && g + rest == ("//" + (g + rest))[2..];
    assert h == (g + rest)[..|h|];
    if |h| <= |g| {
      assert h == g[..|h|];
    } else {
      assert g == h[..|g|];
    }
  }

  lemma {:induction false} NoneAfterPrepending(front: string, rest: string, q: string)
    requires !Contains(rest, q)
    requires forall i :: 0 <= i < |front| ==> !(q <= (front + rest)[i..])
    ensures !Contains(front + rest, q)
  {
    forall i | 0 <= i <= |front + rest|
      ensures !(q <= (front + rest)[i..])
    {
      if i >= |front| {
        assert (front + rest)[i..] == rest[i - |front|..];
      }
    }
  }

  lemma {:induction false} KeptCharIsClean(s: string, h: string, es: seq<string>, a: string, f: string, b: string,
                                           g: string)
    requires SafePass(h, es, a, f, b, g) && s != "" && !("//" + h <= s)
    requires forall e <- es :: !("//" + e <= s)
    ensures !("//" + h <= [s[0]] + ReplaceAll(s[1..], a + "//" + f, b + "//" + g))
  {
    var rest := ReplaceAll(s[1..], a + "//" + f, b + "//" + g);
    var q, out := "//" + h, [s[0]] + rest;
    assert s == [s[0]] + s[1..];
    if q <= out {
      assert q[0] == out[0] == s[0] && q[1..] == "/" + h && out[1..] == rest;
      assert q == [s[0]] + ("/" + h);
      forall e | e in es
        ensures !("/" + e <= s[1..])
      {
        assert "//" + e == "/" + ("/" + e);
      }
      SlashHostNotCreated(s[1..], h, es, a, f, b, g);
    }
  }

  lemma {:induction false} FreeTail(s: string, n: nat, es: seq<string>)
    requires n <= |s| && FreeOf(s, es)
    ensures FreeOf(s[n..], es)
  {
    forall e | e in es
      ensures !Contains(s[n..], "//" + e)
    {
      if Contains(s[n..], "//" + e) { ContainsTail(s, n, "//" + e); }
    }
  }

  /** A safe pass creates no "//h"; the pass that replaces "//h" itself leaves none. */
  lemma {:induction false} PassLeavesClean(s: string, h: string, es: seq<string>, a: string, f: string, b: string,
                                           g: string)
    requires SafePass(h, es, a, f, b, g) && FreeOf(s, es)
    requires !Contains(s, "//" + h) || a + "//" + f == "//" + h
    ensures !Contains(ReplaceAll(s, a + "//" + f, b + "//" + g), "//" + h)
    decreases |s|
  {
    var from, to, q := a + "//" + f, b + "//" + g, "//" + h;
    if |s| < |from| {
    } else if from <= s {
      if Contains(s[|from|..], q) { ContainsTail(s, |from|, q); }
      FreeTail(s, |from|, es);
      PassLeavesClean(s[|from|..], h, es, a, f, b, g);
      var rest := ReplaceAll(s[|from|..], from, to);
      forall i | 0 <= i < |to|
        ensures !(q <= (to + rest)[i..])
      {
        NoneInsideReplacement(rest, i, h, es, a, f, b, g);
      }
      NoneAfterPrepending(to, rest, q);
    } else {
      if Contains(s[1..], q) { ContainsTail(s, 1, q); }
      FreeTail(s, 1, es);
      PassLeavesClean(s[1..], h, es, a, f, b, g);
      assert s[0..] == s;
      KeptCharIsClean(s, h, es, a, f, b, g);
      var rest := ReplaceAll(s[1..], from, to);
      assert ([s[0]] + rest)[0..] == [s[0]] + rest;
      NoneAfterPrepending([s[0]], rest, q);
    }
  }

  // ---------- The whole rewriter ----------

  /** The hosts that are looked for: trimmed, blank ones left out. */
  function Named(hosts: seq<string>): seq<string> {
    if hosts == [] then []
    else
      var rest, host := Named(hosts[..|hosts| - 1]), TrimSpace(hosts[|hosts| - 1]);
      if host == "" then rest else rest + [host]
  }

  /** Host k is not created by the scheme passes of a later host. */
  ghost predicate NotCreated(hs: seq<string>, k: nat, r: Request)
    requires k < |hs|
  {
    && HarmlessAmong(hs[k], hs[..k], "https:", Scheme(r) + ":")
    && HarmlessAmong(hs[k], hs[..k], "http:", Scheme(r) + ":")
  }

  /** Hosts and scheme the rewriter copes with. */
  ghost predicate WellConfigured(hosts: seq<string>, r: Request) {
    SlashFree(r.host) && SlashFree(Scheme(r)) && Compatible(Named(hosts), r)
  }

  /** No host overlaps with the gateway's, and none but the last is created. */
  ghost predicate Compatible(hs: seq<string>, r: Request) {
    && (forall h <- hs :: h != "" && SlashFree(h) && !Comparable(h, r.host))
    && (forall k :: 0 <= k < |hs| - 1 ==> NotCreated(hs, k, r))
  }

  ghost predicate Clean(text: string, host: string) {
    host != "" ==> !Contains(text, "//" + host)
  }

  ghost predicate AllClean(text: string, hosts: seq<string>) {
    forall k :: 0 <= k < |hosts| ==> Clean(text, TrimSpace(hosts[k]))
  }

  /** One host after the other. */
  function ApplyNamed(out: Rewritten, hs: seq<string>, r: Request): Rewritten {
    if hs == [] then out else ApplyHost(ApplyNamed(out, hs[..|hs| - 1], r), hs[|hs| - 1], r)
  }

  lemma {:induction false} BlanksDoNotMatter(out: Rewritten, hosts: seq<string>, r: Request)
    ensures ApplyHosts(out, hosts, r) == ApplyNamed(out, Named(hosts), r)
  {
    if hosts != [] {
      BlanksDoNotMatter(out, hosts[..|hosts| - 1], r);
      var rest, host := Named(hosts[..|hosts| - 1]), TrimSpace(hosts[|hosts| - 1]);
      assert (rest + [host])[..|rest|] == rest;
    }
  }

  lemma {:induction false} CleanOfNamed(text: string, hosts: seq<string>)
    ensures AllClean(text, hosts) <==> FreeOf(text, Named(hosts))
  {
    if hosts != [] {
      var n := |hosts| - 1;
      CleanOfNamed(text, hosts[..n]);
      assert AllClean(text, hosts) <==> AllClean(text, hosts[..n]) && Clean(text, TrimSpace(hosts[n]));
    }
  }

  lemma {:induction false} PatternShapes(f: string, r: Request)
    ensures Patterns(f, r)[0] == Pattern("https:" + "//" + f, Scheme(r) + ":" + "//" + r.host)
    ensures Patterns(f, r)[1] == Pattern("http:" + "//" + f, Scheme(r) + ":" + "//" + r.host)
    ensures Patterns(f, r)[2] == Pattern("" + "//" + f, "" + "//" + r.host)
  {
  }

  /** One pass keeps a text clean of hosts that are not created by it. */
  lemma {:induction false} PassKeepsFree(out: Rewritten, hs: seq<string>, a: string, f: string, b: string, g: string)
    requires FreeOf(out.text, hs)
    requires forall k :: 0 <= k < |hs| ==> SafePass(hs[k], hs[..k], a, f, b, g)
    ensures FreeOf(Apply(out, Pattern(a + "//" + f, b + "//" + g)).text, hs)
  {
    forall h | h in hs
      ensures !Contains(Apply(out, Pattern(a + "//" + f, b + "//" + g)).text, "//" + h)
    {
      var k :| 0 <= k < |hs| && hs[k] == h;
      assert forall e <- hs[..k] :: e in hs;
      PassLeavesClean(out.text, h, hs[..k], a, f, b, g);
    }
  }

  /** The passes for any host f keep a text clean of all hosts before it. */
  lemma {:induction false} HostKeepsClean(out: Rewritten, hs: seq<string>, f: string, r: Request)
    requires SlashFree(r.host) && SlashFree(Scheme(r)) && FreeOf(out.text, hs)
    requires forall h <- hs :: h != "" && SlashFree(h) && !Comparable(h, r.host)
    requires forall k :: 0 <= k < |hs| ==> NotCreated(hs, k, r)
    ensures FreeOf(ApplyHost(out, f, r).text, hs)
  {
    if f != "" {
      var b, p := Scheme(r) + ":", Patterns(f, r);
      PatternShapes(f, r);
      forall k | 0 <= k < |hs|
        ensures SafePass(hs[k], hs[..k], "https:", f, b, r.host) && SafePass(hs[k], hs[..k], "http:", f, b, r.host)
        ensures SafePass(hs[k], hs[..k], "", f, "", r.host)
      {
        assert hs[k] in hs && NotCreated(hs, k, r);
      }
      PassKeepsFree(out, hs, "https:", f, b, r.host);
      PassKeepsFree(Apply(out, p[0]), hs, "http:", f, b, r.host);
      PassKeepsFree(Apply(Apply(out, p[0]), p[1]), hs, "", f, "", r.host);
    }
  }

  /** The passes for h itself make it clean. */
  lemma {:induction false} HostBecomesClean(out: Rewritten, h: string, r: Request)
    requires SlashFree(r.host) && h != "" && SlashFree(h) && !Comparable(h, r.host)
    ensures Clean(ApplyHost(out, h, r).text, h)
  {
    PatternShapes(h, r);
    var p := Patterns(h, r);
    var two := Apply(Apply(out, p[0]), p[1]);
    assert h == p[2].from[2..] && r.host == p[2].to[2..];
    assert SafePass(h, [], "", h, "", r.host);
    PassLeavesClean(two.text, h, [], "", h, "", r.host);
  }

  lemma {:induction false} HostsBecomeClean(out: Rewritten, hs: seq<string>, r: Request)
    requires SlashFree(r.host) && SlashFree(Scheme(r)) && Compatible(hs, r)
    ensures FreeOf(ApplyNamed(out, hs, r).text, hs)
  {
    if hs != [] {
      var n := |hs| - 1;
      var before := ApplyNamed(out, hs[..n], r);
      CompatibleInit(hs, r);
      HostsBecomeClean(out, hs[..n], r);
      HostKeepsClean(before, hs[..n], hs[n], r);
      HostBecomesClean(before, hs[n], r);
      FreeOfMore(ApplyHost(before, hs[n], r).text, hs);
    }
  }

  lemma {:induction false} CompatibleInit(hs: seq<string>, r: Request)
    requires hs != [] && Compatible(hs, r)
    ensures var init := hs[..|hs| - 1];
            Compatible(init, r) && forall k :: 0 <= k < |init| ==> NotCreated(init, k, r)
    ensures hs[|hs| - 1] in hs
  {
    var init := hs[..|hs| - 1];
    forall k | 0 <= k < |init|
      ensures NotCreated(init, k, r)
    {
      assert NotCreated(hs, k, r) && init[..k] == hs[..k];
    }
  }

  lemma {:induction false} FreeOfMore(text: string, hs: seq<string>)
    requires hs != [] && FreeOf(text, hs[..|hs| - 1]) && !Contains(text, "//" + hs[|hs| - 1])
    ensures FreeOf(text, hs)
  {
    assert hs == hs[..|hs| - 1] + [hs[|hs| - 1]];
  }

  /** After rewriting, no source host is left after "//". */
  lemma {:induction false} NothingLeftOver(data: string, contentType: string, r: Request, hosts: seq<string>)
    requires WellConfigured(hosts, r) && IsRewriteable(contentType)
    ensures AllClean(Rewrite(data, contentType, r, hosts).text, hosts)
  {
    if hosts != [] && data != "" {
      BlanksDoNotMatter(Rewritten(data, false), hosts, r);
      HostsBecomeClean(Rewritten(data, false), Named(hosts), r);
      CleanOfNamed(Rewrite(data, contentType, r, hosts).text, hosts);
    }
  }

  lemma {:induction false} ContainsEnd(s: string, p: string, n: nat)
    requires n <= |p| && Contains(s, p)
    ensures Contains(s, p[n..])
  {
    var i :| 0 <= i <= |s| && p <= s[i..];
    assert s[i..][n..] == s[i + n..];
    assert p[n..] <= s[i + n..];
  }

  lemma {:induction false} CleanHostChangesNothing(out: Rewritten, host: string, r: Request)
    requires Clean(out.text, host)
    ensures ApplyHost(out, host, r) == out
  {
    if host != "" {
      assert ("https://" + host)[6..] == "//" + host == ("http://" + host)[5..];
      if Contains(out.text, "https://" + host) { ContainsEnd(out.text, "https://" + host, 6); }
      if Contains(out.text, "http://" + host) { ContainsEnd(out.text, "http://" + host, 5); }
    }
  }

  lemma {:induction false} CleanTextChangesNothing(out: Rewritten, hosts: seq<string>, r: Request)
    requires AllClean(out.text, hosts)
    ensures ApplyHosts(out, hosts, r) == out
  {
    if hosts != [] {
      var n := |hosts| - 1;
      forall k | 0 <= k < n
        ensures Clean(out.text, TrimSpace(hosts[..n][k]))
      {
        assert hosts[..n][k] == hosts[k];
      }
      CleanTextChangesNothing(out, hosts[..n], r);
      CleanHostChangesNothing(out, TrimSpace(hosts[n]), r);
    }
  }

  /** Rewriting twice is rewriting once, and the second time reports no change. */
  lemma {:induction false} RewriteIsIdempotent(data: string, contentType: string, r: Request, hosts: seq<string>)
    requires WellConfigured(hosts, r)
    ensures var once := Rewrite(data, contentType, r, hosts).text;
            Rewrite(once, contentType, r, hosts) == Rewritten(once, false)
  {
    if IsRewriteable(contentType) {
      NothingLeftOver(data, contentType, r, hosts);
      CleanTextChangesNothing(Rewritten(Rewrite(data, contentType, r, hosts).text, false), hosts, r);
    }
  }

  // ---------- What the conditions mean for real schemes ----------

  /** No suffix of h is at the front of b, unless it is at the front of a. */
  ghost predicate Harmless(h: string, a: string, b: string) {
    forall k :: 0 <= k < |h| && h[k..] <= b ==> h[k..] <= a
  }

  /** With no hosts before it, a host escapes both scheme passes iff none of its
      endings is at the front of the new scheme without being at the front of
      "http"; and then it does so wherever it is listed. */
  lemma {:induction false} UnshieldedEndings(h: string, es: seq<string>, b: string)
    ensures HarmlessAmong(h, [], "https:", b) && HarmlessAmong(h, [], "http:", b) <==> Harmless(h, "http", b)
    ensures Harmless(h, "http", b) ==> HarmlessAmong(h, es, "https:", b) && HarmlessAmong(h, es, "http:", b)
  {
    assert "http" <= "https:" && "http" <= "http:";
    forall k | 0 <= k < |h|
      ensures h[k..] <= "https:" && h[k..] <= "http:" <==> h[k..] <= "http"
    {
      CommonFront(h[k..]);
    }
  }

  lemma {:induction false} CommonFront(z: string)
    ensures z <= "https:" && z <= "http:" <==> z <= "http"
  {
    assert "https:"[4] == 's' && "http:"[4] == ':';
    assert |z| > 4 && z <= "https:" ==> z[4] == 's';
  }

  ghost predicate EndsWith(h: string, suffix: string) {
    |suffix| <= |h| && h[|h| - |suffix|..] == suffix
  }

  lemma {:induction false} BadEnding(h: string, bad: string, b: string)
    requires EndsWith(h, bad) && bad != "" && bad <= b && !(bad <= "http")
    ensures !Harmless(h, "http", b)
  {
  }

  /** A host that is not harmless ends in a prefix of b longer than "http". */
  lemma {:induction false} HarmfulEnding(h: string, b: string) returns (n: nat)
    requires "http" <= b && !Harmless(h, "http", b)
    ensures 4 < n <= |b| && EndsWith(h, b[..n])
  {
    assert b[..4] == "http";
    assert forall m :: 0 <= m <= 4 ==> b[..m] == "http"[..m];
    var k :| 0 <= k < |h| && h[k..] <= b && !(h[k..] <= "http");
    n := |h[k..]|;
    assert h[k..] == b[..n];
  }

  /** For the two real schemes the condition on host endings is a corner case. */
  lemma {:induction false} HttpEndings(h: string)
    ensures Harmless(h, "http", "http:") <==> !EndsWith(h, "http:")
  {
  }

  lemma {:induction false} HttpsEndings(h: string)
    ensures Harmless(h, "http", "https:") <==> !EndsWith(h, "https") && !EndsWith(h, "https:")
  {
    assert "https:"[..4] == "http" && "https:"[..5] == "https" && "https:"[..6] == "https:";
    if EndsWith(h, "https") {
      BadEnding(h, "https", "https:");
    } else if EndsWith(h, "https:") {
      BadEnding(h, "https:", "https:");
    } else if !Harmless(h, "http", "https:") {
      var n := HarmfulEnding(h, "https:");
    }
  }
}
