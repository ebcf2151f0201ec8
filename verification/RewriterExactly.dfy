// gateway/rewriter.go: exactly which host lists are rewritten out of every text.
module RewriterExactly {
  import opened Rewriter

  // ---------- One host on a text of its own ----------

  lemma {:induction false} OnlyTheFirstSlashes(t: string, p: string, n: nat)
    requires SlashFree(t) && 0 < n && n + 1 < |p| && p[n] == '/' && p[n + 1] == '/'
    ensures !Contains("//" + t, p)
  {
    var s := "//" + t;
    forall i | 0 <= i <= |s|
      ensures !(p <= s[i..])
    {
      if |p| <= |s| - i {
        assert s[i..][n + 1] == s[i + n + 1] == t[i + n - 1];
        assert t[i + n - 1] in t;
      }
    }
  }

  lemma {:induction false} SlashFreeKept(s: string, from: string, to: string)
    requires SlashFree(s) && from != "" && from[0] == '/'
    ensures ReplaceAll(s, from, to) == s
    decreases |s|
  {
    if |s| >= |from| {
      assert s[0] in s && forall c <- s[1..] :: c in s;
      SlashFreeKept(s[1..], from, to);
    }
  }

  /** The first two passes do not see "//t". */
  lemma {:induction false} SchemePassesMiss(t: string, h: string, r: Request)
    requires SlashFree(t)
    ensures Apply(Apply(Rewritten("//" + t, false), Patterns(h, r)[0]), Patterns(h, r)[1]) == Rewritten("//" + t, false)
  {
    OnlyTheFirstSlashes(t, "https://" + h, 6);
    OnlyTheFirstSlashes(t, "http://" + h, 5);
  }

  /** The last pass turns "//h" + rest into "//g" + rest. */
  lemma {:induction false} LastPass(h: string, rest: string, r: Request)
    requires h != "" && h != r.host && SlashFree(h) && SlashFree(rest)
    ensures ApplyHost(Rewritten("//" + (h + rest), false), h, r).text == "//" + r.host + rest
  {
    var q, s := "//" + h, "//" + (h + rest);
    SchemePassesMiss(h + rest, h, r);
    assert q <= s[0..] && s[|q|..] == rest;
    assert q[2..] == h && ("//" + r.host)[2..] == r.host;
    SlashFreeKept(rest, q, "//" + r.host);
  }

  lemma {:induction false} Regroup(a: string, b: string, c: string)
    ensures (a + b) + c == a + (b + c)
  {
  }

  // ---------- Texts the passes leave alone ----------

  lemma {:induction false} PrefixesOfOne(a: string, b: string, t: string)
    requires a <= t && b <= t
    ensures Comparable(a, b)
  {
    assert a == t[..|a|] && b == t[..|b|];
    if |a| <= |b| {
      assert a == b[..|a|];
    } else {
      assert b == a[..|b|];
    }
  }

  /** Two slash-free stretches, each behind "//". */
  function TwoHosts(u: string, v: string): string {
    "//" + (u + ("//" + v))
  }

  lemma {:induction false} SlashesOfTwoHosts(u: string, v: string, i: nat)
    requires SlashFree(u) && SlashFree(v) && i < |TwoHosts(u, v)|
    ensures TwoHosts(u, v)[i] == '/' <==> i < 2 || |u| + 2 <= i < |u| + 4
  {
    var s := TwoHosts(u, v);
    if 2 <= i < |u| + 2 {
      assert s[i] == u[i - 2] && u[i - 2] in u;
    } else if i >= |u| + 4 {
      assert s[i] == v[i - |u| - 4] && v[i - |u| - 4] in v;
    }
  }

  /** Only a host at the front of one of the two follows "//". */
  lemma {:induction false} CleanOfOthers(u: string, v: string, h: string)
    requires SlashFree(u) && SlashFree(v) && SlashFree(h) && u != "" && h != ""
    requires !(h <= u) && !(h <= v)
    ensures !Contains(TwoHosts(u, v), "//" + h)
  {
    var s, q := TwoHosts(u, v), "//" + h;
    forall i | 0 <= i <= |s|
      ensures !(q <= s[i..])
    {
      if q <= s[i..] {
        assert q[0] == s[i] && q[1] == s[i + 1] && q[2] == s[i + 2] && q[2] in h;
        SlashesOfTwoHosts(u, v, i);
        SlashesOfTwoHosts(u, v, i + 1);
        if i == 0 {
          HostAtFront(u, v, h);
        } else {
          HostAtSecond(u, v, h, i);
        }
      }
    }
  }

  lemma {:induction false} HostAtFront(u: string, v: string, h: string)
    requires SlashFree(h) && "//" + h <= TwoHosts(u, v)
    ensures h <= u
  {
    assert ("//" + h)[2..] == h && TwoHosts(u, v)[2..] == u + "/" + ("/" + v);
    UpToSlash(h, u, "/" + v);
  }

  lemma {:induction false} HostAtSecond(u: string, v: string, h: string, i: nat)
    requires SlashFree(u) && SlashFree(v) && SlashFree(h) && h != ""
    requires 0 < i && i + 1 < |TwoHosts(u, v)| && "//" + h <= TwoHosts(u, v)[i..]
    ensures h <= v
  {
    var s, q := TwoHosts(u, v), "//" + h;
    assert q[0] == s[i] && q[1] == s[i + 1] && q[2] == s[i + 2] && q[2] in h;
    SlashesOfTwoHosts(u, v, i);
    SlashesOfTwoHosts(u, v, i + 1);
    SlashesOfTwoHosts(u, v, i + 2);
    assert i == |u| + 2;
    assert s[i..] == "//" + v && q[2..] == h && ("//" + v)[2..] == v;
  }

  lemma {:induction false} CleanOfOne(t: string, h: string)
    requires SlashFree(t) && SlashFree(h) && h != "" && !(h <= t)
    ensures !Contains("//" + t, "//" + h)
  {
    var s, q := "//" + t, "//" + h;
    assert q[2..] == h && s[2..] == t;
    forall i | 0 < i <= |s|
      ensures !(q <= s[i..])
    {
      if i + 1 < |s| {
        assert s[i..][1] == s[i + 1] == t[i - 1] && t[i - 1] in t;
      }
    }
  }

  /** Hosts that follow no "//" do not touch the text. */
  lemma {:induction false} OthersDoNothing(out: Rewritten, hs: seq<string>, r: Request)
    requires FreeOf(out.text, hs)
    ensures ApplyNamed(out, hs, r) == out
  {
    if hs != [] {
      assert hs == hs[..|hs| - 1] + [hs[|hs| - 1]];
      OthersDoNothing(out, hs[..|hs| - 1], r);
      CleanHostChangesNothing(out, hs[|hs| - 1], r);
    }
  }

  lemma {:induction false} ApplyConcat(out: Rewritten, xs: seq<string>, ys: seq<string>, r: Request)
    ensures ApplyNamed(out, xs + ys, r) == ApplyNamed(ApplyNamed(out, xs, r), ys, r)
  {
    if ys == [] {
      assert xs + ys == xs;
    } else {
      var n := |ys| - 1;
      assert (xs + ys)[..|xs + ys| - 1] == xs + ys[..n] && (xs + ys)[|xs + ys| - 1] == ys[n];
      ApplyConcat(out, xs, ys[..n], r);
    }
  }

  /** If only host k touches `before`, and nothing touches what it makes of it,
      that is what comes out. */
  lemma {:induction false} OnlyHostActs(before: Rewritten, hs: seq<string>, k: nat, r: Request)
    requires k < |hs| && FreeOf(before.text, hs[..k])
    requires FreeOf(ApplyHost(before, hs[k], r).text, hs[k + 1..])
    ensures ApplyNamed(before, hs, r) == ApplyHost(before, hs[k], r)
  {
    assert hs == (hs[..k] + [hs[k]]) + hs[k + 1..];
    ApplyConcat(before, hs[..k] + [hs[k]], hs[k + 1..], r);
    assert (hs[..k] + [hs[k]])[..k] == hs[..k];
    OthersDoNothing(before, hs[..k], r);
    OthersDoNothing(ApplyHost(before, hs[k], r), hs[k + 1..], r);
  }

  // ---------- A host that overlaps with the gateway's ----------

  /** No host of the list is a prefix of another. */
  ghost predicate Apart(hs: seq<string>) {
    && (forall h <- hs :: h != "" && SlashFree(h))
    && forall i, j :: 0 <= i < j < |hs| ==> !Comparable(hs[i], hs[j])
  }

  lemma {:induction false} OthersMiss(t: string, hs: seq<string>, k: nat)
    requires Apart(hs) && k < |hs| && SlashFree(t) && hs[k] <= t
    ensures FreeOf("//" + t, hs[..k]) && FreeOf("//" + t, hs[k + 1..])
  {
    forall j | 0 <= j < |hs| && j != k
      ensures !Contains("//" + t, "//" + hs[j])
    {
      assert hs[j] in hs && !Comparable(hs[j], hs[k]);
      if hs[j] <= t {
        PrefixesOfOne(hs[j], hs[k], t);
      }
      CleanOfOne(t, hs[j]);
    }
  }

  lemma {:induction false} SlashFreeConcat(a: string, b: string)
    requires SlashFree(a) && SlashFree(b)
    ensures SlashFree(a + b)
  {
  }

  /** The text "//h" + x becomes "//g" + x. */
  lemma {:induction false} HostSwapped(h: string, x: string, r: Request)
    requires h != "" && SlashFree(h) && SlashFree(x) && (h == r.host ==> x == "")
    ensures ApplyHost(Rewritten("//" + (h + x), false), h, r).text == "//" + (r.host + x)
  {
    if h == r.host {
      SchemePassesMiss(h, h, r);
      assert h + x == h;
    } else {
      LastPass(h, x, r);
      Regroup("//", r.host, x);
    }
  }

  /** Then some text ends up with "//h", whatever other hosts are listed. */
  lemma {:induction false} OverlapLeaves(hs: seq<string>, k: nat, r: Request) returns (data: string)
    requires Apart(hs) && k < |hs| && SlashFree(r.host) && Comparable(hs[k], r.host)
    ensures data != "" && !FreeOf(ApplyNamed(Rewritten(data, false), hs, r).text, hs)
  {
    var h, g := hs[k], r.host;
    assert h in hs;
    var x := if h <= g then "" else h[|g|..];
    assert SlashFree(x) by {
      assert forall c <- x :: c in h;
    }
    data := "//" + (h + x);
    SlashFreeConcat(h, x);
    SlashFreeConcat(g, x);
    assert h <= h + x && h <= g + x;
    HostSwapped(h, x, r);
    OthersMiss(h + x, hs, k);
    OthersMiss(g + x, hs, k);
    OnlyHostActs(Rewritten(data, false), hs, k, r);
    AtTheFront(h, g + x);
  }

  lemma {:induction false} AtTheFront(h: string, t: string)
    requires h <= t
    ensures Contains("//" + t, "//" + h)
  {
    assert "//" + h <= ("//" + t)[0..];
  }

  /** One source host is rewritten away from every text iff neither it nor the
      gateway's host is a prefix of the other. */
  lemma {:induction false} OneHostExactly(h: string, r: Request)
    requires h != "" && SlashFree(h) && SlashFree(r.host)
    ensures (forall data: string :: Clean(ApplyHost(Rewritten(data, false), h, r).text, h)) <==> !Comparable(h, r.host)
  {
    if Comparable(h, r.host) {
      var data := OverlapLeaves([h], 0, r);
      assert [h][..0] == [] && ApplyNamed(Rewritten(data, false), [], r) == Rewritten(data, false);
      assert !Clean(ApplyHost(Rewritten(data, false), h, r).text, h);
    } else {
      forall data: string
        ensures Clean(ApplyHost(Rewritten(data, false), h, r).text, h)
      {
        HostBecomesClean(Rewritten(data, false), h, r);
      }
    }
  }

  /** When the gateway runs on the canonical host itself, a text is left alone
      (and not marked) iff it has no reference to that host in another scheme. */
  lemma {:induction false} CanonicalHostExactly(data: string, h: string, r: Request)
    requires r.host == h != ""
    ensures ApplyHost(Rewritten(data, false), h, r) == Rewritten(data, false)
       <==> (Scheme(r) == "https" || !Contains(data, "https://" + h))
            && (Scheme(r) == "http" || !Contains(data, "http://" + h))
  {
    var before, p := Rewritten(data, false), Patterns(h, r);
    IdentityExactly(h, r);
    IdleExactly(before, p[0]);
    IdleExactly(Apply(before, p[0]), p[1]);
    IdleExactly(Apply(Apply(before, p[0]), p[1]), p[2]);
  }

  lemma {:induction false} IdentityExactly(h: string, r: Request)
    requires r.host == h
    ensures var p := Patterns(h, r);
            && (p[0].from == p[0].to <==> Scheme(r) == "https")
            && (p[1].from == p[1].to <==> Scheme(r) == "http")
            && p[2].from == p[2].to
  {
    assert "https://" + h == "https" + "://" + h && "http://" + h == "http" + "://" + h;
    SameSchemeExactly("https", h, r);
    SameSchemeExactly("http", h, r);
  }

  /** The flag tells whether a pass replaced anything, and is never taken back. */
  lemma {:induction false} IdleExactly(out: Rewritten, p: Pattern)
    requires p.from != ""
    ensures Apply(out, p).touched <==> out.touched || (p.from != p.to && Contains(out.text, p.from))
    ensures Apply(out, p).touched == out.touched == false ==> Apply(out, p) == out
  {
  }

  lemma {:induction false} SameSchemeExactly(scheme: string, h: string, r: Request)
    requires r.host == h
    ensures scheme + "://" + h == CurrentBase(r) <==> scheme == Scheme(r)
  {
    var x, y := scheme + ("://" + h), Scheme(r) + ("://" + h);
    assert scheme + "://" + h == x && Scheme(r) + "://" + h == y;
    if x == y {
      assert |scheme| == |Scheme(r)| && x[..|scheme|] == scheme && y[..|scheme|] == Scheme(r);
    }
  }

  // ---------- A host that a later one creates ----------

  /** Replacing the one occurrence at the end of a text. */
  lemma {:induction false} ReplaceAtEnd(x: string, from: string, to: string)
    requires from != "" && forall i :: 0 <= i < |x| ==> !(from <= (x + from)[i..])
    ensures ReplaceAll(x + from, from, to) == x + to
    decreases |x|
  {
    if x == "" {
      assert x + from == from && from[|from|..] == "";
      assert to + "" == to;
    } else {
      var s := x + from;
      assert s[0..] == s && s[1..] == x[1..] + from;
      forall i | 0 <= i < |x[1..]|
        ensures !(from <= (x[1..] + from)[i..])
      {
        assert (x[1..] + from)[i..] == s[i + 1..];
      }
      ReplaceAtEnd(x[1..], from, to);
      assert [s[0]] + (x[1..] + to) == x + to;
    }
  }

  lemma {:induction false} SchemeOnce(p: string, q: string, f: string, i: nat)
    requires SlashFree(p) && SlashFree(q) && SlashFree(f) && |q| >= 2
    requires i < |"//" + p|
    ensures !(q + "//" + f <= ("//" + p + (q + "//" + f))[i..])
  {
    var from, s := q + "//" + f, TwoHosts(p + q, f);
    assert s == "//" + p + from;
    SlashFreeConcat(p, q);
    if from <= s[i..] {
      assert from[|q|] == '/' && s[i..][|q|] == s[i + |q|];
      SlashesOfTwoHosts(p + q, f, i + |q|);
      assert false;
    }
  }

  /** A scheme pass for f on p + q + "//" + f, where q is the scheme it looks for. */
  lemma {:induction false} SchemeSwapped(p: string, q: string, f: string, b: string, g: string)
    requires SlashFree(p) && SlashFree(q) && SlashFree(f) && |q| >= 2
    ensures Contains(TwoHosts(p + q, f), q + "//" + f)
    ensures ReplaceAll(TwoHosts(p + q, f), q + "//" + f, b + "//" + g) == TwoHosts(p + b, g)
  {
    var from, to, x := q + "//" + f, b + "//" + g, "//" + p;
    assert TwoHosts(p + q, f) == x + from && TwoHosts(p + b, g) == x + to;
    forall i | 0 <= i < |x|
      ensures !(from <= (x + from)[i..])
    {
      SchemeOnce(p, q, f, i);
    }
    ReplaceAtEnd(x, from, to);
    assert (x + from)[|x|..] == from;
  }

  /** "https:" is not what ends in "http:". */
  lemma {:induction false} OtherSchemeMisses(p: string, f: string)
    requires SlashFree(p) && SlashFree(f)
    ensures !Contains(TwoHosts(p + "http:", f), "https:" + "//" + f)
  {
    var s, from := TwoHosts(p + "http:", f), "https:" + "//" + f;
    SlashFreeConcat(p, "http:");
    forall i | 0 <= i <= |s|
      ensures !(from <= s[i..])
    {
      if from <= s[i..] {
        assert from[6] == '/' && from[7] == '/' && s[i..][6] == s[i + 6] && s[i..][7] == s[i + 7];
        SlashesOfTwoHosts(p + "http:", f, i + 6);
        SlashesOfTwoHosts(p + "http:", f, i + 7);
        assert i + 6 == |p| + 7;
        SchemeLetter(p, f);
      }
    }
  }

  lemma {:induction false} SchemeLetter(p: string, f: string)
    ensures TwoHosts(p + "http:", f)[|p| + 5] == 'p'
  {
    var s := TwoHosts(p + "http:", f);
    assert s[|p| + 5] == (p + "http:")[|p| + 3] == "http:"[3];
  }

  /** Host f turns p + q + "//" + f into p + scheme + "://" + g, if neither
      text has it anywhere else. */
  lemma {:induction false} SchemePassesOnce(p: string, q: string, f: string, r: Request)
    requires q == "https:" || q == "http:"
    requires SlashFree(p) && SlashFree(f) && f != "" && SlashFree(r.host) && SlashFree(Scheme(r))
    requires f != r.host && !(f <= p + (Scheme(r) + ":")) && !(f <= r.host)
    ensures ApplyHost(Rewritten(TwoHosts(p + q, f), false), f, r).text == TwoHosts(p + (Scheme(r) + ":"), r.host)
  {
    var b, g, ps := Scheme(r) + ":", r.host, Patterns(f, r);
    var before, after := Rewritten(TwoHosts(p + q, f), false), Rewritten(TwoHosts(p + b, g), true);
    PatternShapes(f, r);
    SlashFreeConcat(Scheme(r), ":");
    SlashFreeConcat(p, b);
    SchemeSwapped(p, q, f, b, g);
    DifferentPatterns(q, f, b, g);
    CleanOfOthers(p + b, g, f);
    if q == "https:" {
      assert Apply(before, ps[0]) == after;
    } else {
      OtherSchemeMisses(p, f);
      assert Apply(Apply(before, ps[0]), ps[1]) == after;
    }
    NoPassLeft(after, f, r);
  }

  lemma {:induction false} NoPassLeft(out: Rewritten, f: string, r: Request)
    requires f != "" && !Contains(out.text, "//" + f)
    ensures forall i :: 0 <= i < 3 ==> Apply(out, Patterns(f, r)[i]) == out
  {
    assert ("https://" + f)[6..] == "//" + f == ("http://" + f)[5..];
    if Contains(out.text, "https://" + f) { ContainsEnd(out.text, "https://" + f, 6); }
    if Contains(out.text, "http://" + f) { ContainsEnd(out.text, "http://" + f, 5); }
  }

  lemma {:induction false} DifferentPatterns(q: string, f: string, b: string, g: string)
    requires SlashFree(q) && SlashFree(b) && SlashFree(f) && SlashFree(g) && f != g
    ensures q + "//" + f != b + "//" + g
  {
    var x, y := q + "//" + f, b + "//" + g;
    assert x[|q|] == '/' && y[|b|] == '/';
    assert x[|q| + 2..] == f && y[|b| + 2..] == g;
    assert |q| < |b| ==> y[|q|] == b[|q|] && b[|q|] in b;
    assert |b| < |q| ==> x[|b|] == q[|b|] && q[|b|] in q;
  }

  /** Host k ends in z, z starts the new scheme but not the scheme q, and no host
      before it is at the front of p + q. */
  ghost predicate Creatable(hs: seq<string>, k: nat, j: nat, q: string, r: Request)
    requires k < |hs| && j < |hs[k]|
  {
    && hs[k][j..] <= Scheme(r) + ":"
    && !(hs[k][j..] <= q)
    && !Shielded(hs[..k], hs[k][..j] + q)
  }

  ghost predicate Setting(hs: seq<string>, r: Request) {
    Apart(hs) && SlashFree(r.host) && SlashFree(Scheme(r)) && forall h <- hs :: !Comparable(h, r.host)
  }

  /** Then the next host turns p + q + "//" + next into p + scheme + "://" + g, and
      no other host touches either text. */
  lemma {:induction false} NextHostActs(hs: seq<string>, k: nat, j: nat, q: string, r: Request)
    requires Setting(hs, r) && k + 1 < |hs| && j < |hs[k]| && (q == "https:" || q == "http:")
    requires Creatable(hs, k, j, q, r)
    ensures ApplyNamed(Rewritten(TwoHosts(hs[k][..j] + q, hs[k + 1]), false), hs, r).text
         == TwoHosts(hs[k][..j] + (Scheme(r) + ":"), r.host)
  {
    FrontHostsMiss(hs, k, j, q);
    NextHostSwaps(hs, k, j, q, r);
    AfterSwap(hs, k, j, r);
    OnlyHostActs(Rewritten(TwoHosts(hs[k][..j] + q, hs[k + 1]), false), hs, k + 1, r);
  }

  lemma {:induction false} NextHostSwaps(hs: seq<string>, k: nat, j: nat, q: string, r: Request)
    requires Setting(hs, r) && k + 1 < |hs| && j < |hs[k]| && (q == "https:" || q == "http:")
    requires hs[k][j..] <= Scheme(r) + ":"
    ensures ApplyHost(Rewritten(TwoHosts(hs[k][..j] + q, hs[k + 1]), false), hs[k + 1], r).text
         == TwoHosts(hs[k][..j] + (Scheme(r) + ":"), r.host)
  {
    assert hs[k] in hs && hs[k + 1] in hs;
    SlashFreeConcat(Scheme(r), ":");
    FrontOfHost(hs[k], j, Scheme(r) + ":");
    NextMisses(hs, k, hs[k][..j] + (Scheme(r) + ":"));
    SchemePassesOnce(hs[k][..j], q, hs[k + 1], r);
  }

  lemma {:induction false} AfterSwap(hs: seq<string>, k: nat, j: nat, r: Request)
    requires Setting(hs, r) && k + 1 < |hs| && j < |hs[k]| && hs[k][j..] <= Scheme(r) + ":"
    ensures FreeOf(TwoHosts(hs[k][..j] + (Scheme(r) + ":"), r.host), hs[k + 2..])
  {
    assert hs[k] in hs;
    SlashFreeConcat(Scheme(r), ":");
    FrontOfHost(hs[k], j, Scheme(r) + ":");
    BackHostsMiss(hs, k, hs[k][..j] + (Scheme(r) + ":"), r.host);
  }

  /** So the next host creates host k. */
  lemma {:induction false} NextHostCreates(hs: seq<string>, k: nat, j: nat, q: string, r: Request)
    requires Setting(hs, r) && k + 1 < |hs| && j < |hs[k]| && (q == "https:" || q == "http:")
    requires Creatable(hs, k, j, q, r)
    ensures !FreeOf(ApplyNamed(Rewritten(TwoHosts(hs[k][..j] + q, hs[k + 1]), false), hs, r).text, hs)
  {
    assert hs[k] in hs;
    SlashFreeConcat(Scheme(r), ":");
    FrontOfHost(hs[k], j, Scheme(r) + ":");
    NextHostActs(hs, k, j, q, r);
    FirstOfTwo(hs[k], hs[k][..j] + (Scheme(r) + ":"), r.host);
  }

  lemma {:induction false} FrontOfHost(h: string, j: nat, b: string)
    requires j < |h| && SlashFree(h) && SlashFree(b)
    ensures SlashFree(h[..j]) && SlashFree(h[..j] + b)
    ensures h[j..] <= b ==> h <= h[..j] + b
  {
    assert h == h[..j] + h[j..];
    assert forall c <- h[..j] :: c in h;
  }

  lemma {:induction false} NextMisses(hs: seq<string>, k: nat, u: string)
    requires Apart(hs) && k + 1 < |hs| && hs[k] <= u
    ensures !(hs[k + 1] <= u)
  {
    if hs[k + 1] <= u {
      PrefixesOfOne(hs[k], hs[k + 1], u);
    }
  }

  lemma {:induction false} FirstOfTwo(h: string, u: string, v: string)
    requires h <= u
    ensures Contains(TwoHosts(u, v), "//" + h)
  {
    assert "//" + h <= TwoHosts(u, v)[0..];
  }

  lemma {:induction false} DropFront(e: string, t: string, j: nat)
    requires e <= t && j <= |e|
    ensures e[j..] <= t[j..]
  {
  }

  lemma {:induction false} FrontHostsMiss(hs: seq<string>, k: nat, j: nat, q: string)
    requires Apart(hs) && k + 1 < |hs| && j < |hs[k]| && SlashFree(q) && q != ""
    requires !(hs[k][j..] <= q) && !Shielded(hs[..k], hs[k][..j] + q)
    ensures FreeOf(TwoHosts(hs[k][..j] + q, hs[k + 1]), hs[..k + 1])
  {
    var u := hs[k][..j] + q;
    assert hs[k] in hs && hs[k + 1] in hs;
    FrontOfHost(hs[k], j, q);
    assert u[j..] == q;
    forall i | 0 <= i < k + 1
      ensures !Contains(TwoHosts(u, hs[k + 1]), "//" + hs[i])
    {
      assert hs[i] in hs && !Comparable(hs[i], hs[k + 1]);
      if i < k {
        assert hs[i] in hs[..k];
      } else if hs[k] <= u {
        DropFront(hs[k], u, j);
      }
      CleanOfOthers(u, hs[k + 1], hs[i]);
    }
  }

  lemma {:induction false} BackHostsMiss(hs: seq<string>, k: nat, u: string, g: string)
    requires Apart(hs) && k + 1 < |hs| && SlashFree(u) && SlashFree(g) && hs[k] <= u
    requires forall h <- hs :: !Comparable(h, g)
    ensures FreeOf(TwoHosts(u, g), hs[k + 2..])
  {
    assert hs[k] in hs;
    forall e | e in hs[k + 2..]
      ensures !Contains(TwoHosts(u, g), "//" + e)
    {
      var i :| 0 <= i < |hs| - k - 2 && hs[k + 2..][i] == e;
      assert hs[k + 2 + i] in hs && !Comparable(hs[k], hs[k + 2 + i]);
      if e <= u {
        PrefixesOfOne(e, hs[k], u);
      }
      CleanOfOthers(u, g, e);
    }
  }

  // ---------- Lists, exactly ----------

  lemma {:induction false} CreatedByText(hs: seq<string>, k: nat, r: Request) returns (data: string)
    requires Apart(hs) && k + 1 < |hs| && !NotCreated(hs, k, r)
    requires SlashFree(r.host) && SlashFree(Scheme(r)) && forall h <- hs :: !Comparable(h, r.host)
    ensures data != "" && !FreeOf(ApplyNamed(Rewritten(data, false), hs, r).text, hs)
  {
    var h, b := hs[k], Scheme(r) + ":";
    var q := if HarmlessAmong(h, hs[..k], "https:", b) then "http:" else "https:";
    var j :| 0 <= j < |h| && h[j..] <= b && !(h[j..] <= q) && !Shielded(hs[..k], h[..j] + q);
    data := TwoHosts(h[..j] + q, hs[k + 1]);
    NextHostCreates(hs, k, j, q, r);
  }

  /** Hosts none of which is a prefix of another are rewritten out of every text
      iff none overlaps with the gateway's host and none but the last is created
      by the scheme pass of a later one. */
  lemma {:induction false} ListExactly(hosts: seq<string>, contentType: string, r: Request)
    requires IsRewriteable(contentType) && Apart(Named(hosts)) && SlashFree(r.host) && SlashFree(Scheme(r))
    ensures (forall data: string :: AllClean(Rewrite(data, contentType, r, hosts).text, hosts))
       <==> WellConfigured(hosts, r)
  {
    var hs := Named(hosts);
    if WellConfigured(hosts, r) {
      forall data: string
        ensures AllClean(Rewrite(data, contentType, r, hosts).text, hosts)
      {
        NothingLeftOver(data, contentType, r, hosts);
      }
    } else {
      var data := DirtyText(hs, r);
      DirtyInList(data, hosts, contentType, r);
    }
  }

  lemma {:induction false} DirtyInList(data: string, hosts: seq<string>, contentType: string, r: Request)
    requires IsRewriteable(contentType) && data != ""
    requires !FreeOf(ApplyNamed(Rewritten(data, false), Named(hosts), r).text, Named(hosts))
    ensures !AllClean(Rewrite(data, contentType, r, hosts).text, hosts)
  {
    BlanksDoNotMatter(Rewritten(data, false), hosts, r);
    CleanOfNamed(Rewrite(data, contentType, r, hosts).text, hosts);
  }

  lemma {:induction false} DirtyText(hs: seq<string>, r: Request) returns (data: string)
    requires Apart(hs) && SlashFree(r.host) && SlashFree(Scheme(r)) && !Compatible(hs, r)
    ensures data != "" && !FreeOf(ApplyNamed(Rewritten(data, false), hs, r).text, hs)
  {
    if h :| h in hs && Comparable(h, r.host) {
      var k :| 0 <= k < |hs| && hs[k] == h;
      data := OverlapLeaves(hs, k, r);
    } else {
      var k :| 0 <= k < |hs| - 1 && !NotCreated(hs, k, r);
      data := CreatedByText(hs, k, r);
    }
  }

  lemma {:induction false} SecondHostCreates(r: Request)
    requires r.host == "g" && Scheme(r) == "https"
    ensures !Comparable("ahttps", r.host) && !Comparable("f", r.host)
    ensures !FreeOf(ApplyNamed(Rewritten(TwoHosts("a" + "http:", "f"), false), ["ahttps", "f"], r).text,
                    ["ahttps", "f"])
  {
    var hs := ["ahttps", "f"];
    assert "ahttps"[0] == 'a' && "f"[0] == 'f' && "g"[0] == 'g';
    assert hs[0][1..] == "https" && hs[0][..1] == "a" && hs[..0] == [];
    assert "https" <= Scheme(r) + ":" && "https"[4] != "http:"[4];
    NextHostCreates(hs, 0, 1, "http:", r);
  }

  lemma {:induction false} SpelledOut(data: string)
    requires data == "//ahttp://f"
    ensures data == TwoHosts("a" + "http:", "f")
  {
  }

  /** Not overlapping with the gateway's host is not enough for a list: the pass
      for the second host puts "https" behind "//a". */
  lemma {:induction false} EndingsMatter(hosts: seq<string>, contentType: string, r: Request, data: string)
    requires IsRewriteable(contentType) && Named(hosts) == ["ahttps", "f"] && data == "//ahttp://f"
    requires r.host == "g" && Scheme(r) == "https"
    ensures !Comparable("ahttps", r.host) && !Comparable("f", r.host)
    ensures !AllClean(Rewrite(data, contentType, r, hosts).text, hosts)
  {
    SpelledOut(data);
    SecondHostCreates(r);
    DirtyInList(data, hosts, contentType, r);
  }
}
