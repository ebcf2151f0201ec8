// gateway/rewriter.go: which content types are rewritten, and to which scheme.
module RewriterInputs {
  import opened Rewriter

  /** A character that Go's strings.TrimSpace takes off an ASCII text. */
  ghost predicate IsBlank(c: char) {
    c in {' ', '\t', '\n', '\U{0B}', '\U{0C}', '\r'}
  }

  ghost predicate Blank(w: string) {
    forall c <- w :: IsBlank(c)
  }

  /** No blank at either end. */
  ghost predicate Bare(t: string) {
    t != "" ==> !IsBlank(t[0]) && !IsBlank(t[|t| - 1])
  }

  // ---------- Trimming and cutting ----------

  lemma {:induction false} BlankIsSpace(c: char)
    ensures IsBlank(c) <==> IsSpace(c)
  {
  }

  lemma {:induction false} BlankEnds(w: string)
    requires Blank(w) && w != ""
    ensures IsSpace(w[0]) && IsSpace(w[|w| - 1])
    ensures Blank(w[1..]) && Blank(w[..|w| - 1])
  {
    assert w[0] in w && w[|w| - 1] in w;
    assert w == [w[0]] + w[1..] == w[..|w| - 1] + [w[|w| - 1]];
  }

  lemma {:induction false} TrimLeftBlanks(w: string, s: string)
    requires Blank(w)
    ensures TrimLeft(w + s) == TrimLeft(s)
  {
    if w == "" {
      assert w + s == s;
    } else {
      BlankEnds(w);
      assert (w + s)[1..] == w[1..] + s;
      TrimLeftBlanks(w[1..], s);
    }
  }

  lemma {:induction false} TrimRightBlanks(s: string, v: string)
    requires Blank(v)
    ensures TrimRight(s + v) == TrimRight(s)
  {
    if v == "" {
      assert s + v == s;
    } else {
      BlankEnds(v);
      assert (s + v)[..|s + v| - 1] == s + v[..|v| - 1];
      TrimRightBlanks(s, v[..|v| - 1]);
    }
  }

  lemma {:induction false} TrimRightKeeps(s: string, x: string)
    requires s != "" && !IsSpace(s[|s| - 1])
    ensures TrimRight(s + x) == s + TrimRight(x)
  {
    if x == "" {
      assert s + x == s;
    } else if IsSpace(x[|x| - 1]) {
      assert (s + x)[..|s + x| - 1] == s + x[..|x| - 1];
      TrimRightKeeps(s, x[..|x| - 1]);
    }
  }

  /** Trimming gives the text between the outer blanks. */
  lemma {:induction false} TrimExactly(w: string, t: string, v: string)
    requires Blank(w) && Bare(t) && Blank(v)
    ensures TrimSpace(w + t + v) == t
  {
    assert w + t + v == w + (t + v);
    TrimLeftBlanks(w, t + v);
    if t == "" {
      assert t + v == v + "" == v && "" + v == v;
      TrimLeftBlanks(v, "");
    } else {
      BlankIsSpace(t[0]);
      BlankIsSpace(t[|t| - 1]);
      TrimRightBlanks(t, v);
    }
  }

  lemma {:induction false} BeforeExactly(a: string, c: char, b: string)
    requires c !in a
    ensures Before(a + [c] + b, c) == a
  {
    var s := a + [c] + b;
    if a == "" {
      assert s[0] == c;
    } else {
      assert s[0] == a[0] && a[0] in a && s[1..] == a[1..] + [c] + b;
      BeforeExactly(a[1..], c, b);
    }
  }

  // ---------- Letter case ----------

  /** x is t with every capital letter made small. */
  ghost predicate InSmallLetters(x: string, t: string) {
    && |x| == |t|
    && forall i :: 0 <= i < |t| ==>
         x[i] == if 'A' <= t[i] <= 'Z' then (t[i] as int + 32) as char else t[i]
  }

  lemma {:induction false} ToLowerExactly(x: string, t: string)
    ensures ToLower(t) == x <==> InSmallLetters(x, t)
  {
  }

  lemma {:induction false} LowerKeeps(t: string, c: char)
    requires !('A' <= c <= 'Z') && !('a' <= c <= 'z')
    ensures c in ToLower(t) <==> c in t
  {
    var x := ToLower(t);
    if c in x {
      var i :| 0 <= i < |x| && x[i] == c;
      assert t[i] == c;
    }
    if c in t {
      var i :| 0 <= i < |t| && t[i] == c;
      assert x[i] == c;
    }
  }

  lemma {:induction false} LowerKeepsBare(t: string)
    ensures Bare(t) <==> Bare(ToLower(t))
  {
    if t != "" {
      var x := ToLower(t);
      BlankIsSpace(t[0]);
      BlankIsSpace(t[|t| - 1]);
      BlankIsSpace(x[0]);
      BlankIsSpace(x[|x| - 1]);
    }
  }

  // ---------- Content types ----------

  /** The types whose text is rewritten, in any mixture of capital and small letters. */
  ghost predicate IsText(t: string) {
    || InSmallLetters("application/json", t)
    || InSmallLetters("application/manifest+json", t)
    || InSmallLetters("application/javascript", t)
    || InSmallLetters("application/xml", t)
    || InSmallLetters("text/html", t)
    || InSmallLetters("text/css", t)
    || InSmallLetters("text/javascript", t)
    || InSmallLetters("text/plain", t)
    || InSmallLetters("text/xml", t)
    || InSmallLetters("image/svg+xml", t)
  }

  lemma {:induction false} TextExactly(t: string)
    ensures IsText(t) <==> ToLower(t) in REWRITEABLE
  {
    ToLowerExactly("application/json", t);
    ToLowerExactly("application/manifest+json", t);
    ToLowerExactly("application/javascript", t);
    ToLowerExactly("application/xml", t);
    ToLowerExactly("text/html", t);
    ToLowerExactly("text/css", t);
    ToLowerExactly("text/javascript", t);
    ToLowerExactly("text/plain", t);
    ToLowerExactly("text/xml", t);
    ToLowerExactly("image/svg+xml", t);
  }

  /** A content type without parameters is rewritten iff it is one of the ten. */
  lemma {:induction false} PlainTypeExactly(w: string, t: string, v: string)
    requires Blank(w) && Bare(t) && ';' !in t && Blank(v)
    ensures IsRewriteable(w + t + v) <==> IsText(t)
  {
    TrimExactly(w, t, v);
    LowerKeeps(t, ';');
    TextExactly(t);
  }

  /** Nor do parameters matter, whatever they are. */
  lemma {:induction false} ParametersExactly(w: string, t: string, v: string, params: string)
    requires Blank(w) && Bare(t) && ';' !in t && Blank(v)
    ensures IsRewriteable(w + t + v + ";" + params) <==> IsText(t)
  {
    var front := if t == "" then "" else t + v;
    var tail := TrimmedWithParameters(w, t, v, params);
    LowerOfParts(front, tail);
    LowerKeeps(front, ';');
    assert ';' !in front by {
      assert ';' !in v;
    }
    BeforeExactly(ToLower(front), ';', ToLower(tail));
    LowerFront(t, v);
    TextExactly(t);
  }

  lemma {:induction false} TrimmedWithParameters(w: string, t: string, v: string, params: string) returns (tail: string)
    requires Blank(w) && Bare(t) && Blank(v)
    ensures TrimSpace(w + t + v + ";" + params) == (if t == "" then "" else t + v) + ";" + tail
  {
    tail := TrimRight(params);
    var front := if t == "" then "" else t + v;
    assert w + t + v + ";" + params == w + (t + v + ";" + params);
    TrimLeftBlanks(w, t + v + ";" + params);
    if t == "" {
      assert t + v + ";" + params == v + (";" + params);
      TrimLeftBlanks(v, ";" + params);
      assert front + ";" == ";";
    } else {
      BlankIsSpace(t[0]);
    }
    assert TrimLeft(w + t + v + ";" + params) == front + ";" + params;
    TrimRightKeeps(front + ";", params);
  }

  lemma {:induction false} LowerOfParts(a: string, b: string)
    ensures ToLower(a + ";" + b) == ToLower(a) + ";" + ToLower(b)
  {
  }

  lemma {:induction false} LowerFront(t: string, v: string)
    requires Bare(t) && Blank(v)
    ensures TrimSpace(ToLower(if t == "" then "" else t + v)) == ToLower(t)
  {
    if t == "" {
      assert TrimLeft("") == "" && ToLower("") == "";
    } else {
      assert ToLower(v) == v by {
        assert forall i :: 0 <= i < |v| ==> v[i] in v;
      }
      LowerKeepsBare(t);
      TrimExactly("", ToLower(t), v);
      assert ToLower(t + v) == "" + ToLower(t) + ToLower(v);
    }
  }

  /** The type given to every .html file is rewritten, parameters and all. */
  lemma {:induction false} HtmlIsRewritten(data: string, r: Request, hosts: seq<string>)
    ensures IsRewriteable("text/html; charset=utf-8")
    ensures WellConfigured(hosts, r) ==> AllClean(Rewrite(data, "text/html; charset=utf-8", r, hosts).text, hosts)
  {
    HtmlIsText();
    assert "" + "text/html" + "" + ";" + " charset=utf-8" == "text/html; charset=utf-8";
    ParametersExactly("", "text/html", "", " charset=utf-8");
    if WellConfigured(hosts, r) {
      NothingLeftOver(data, "text/html; charset=utf-8", r, hosts);
    }
  }

  lemma {:induction false} HtmlIsText()
    ensures Bare("text/html") && ';' !in "text/html" && IsText("text/html")
  {
    assert "text/html"[0] == 't' && "text/html"[8] == 'l';
    assert InSmallLetters("text/html", "text/html");
  }

  // ---------- The scheme ----------

  /** Without a forwarded scheme the connection decides. */
  lemma {:induction false} DirectScheme(r: Request)
    requires r.forwardedProto == ""
    ensures Scheme(r) == "https" <==> r.tls
    ensures Scheme(r) == "http" <==> !r.tls
  {
    assert |"https"| == 5 && |"http"| == 4;
  }

  /** A forwarded scheme wins over the connection, verbatim. */
  lemma {:induction false} ForwardedScheme(r: Request)
    requires r.forwardedProto != "" && ',' !in r.forwardedProto
    ensures Scheme(r) == r.forwardedProto
    ensures Scheme(Request(r.host, r.forwardedProto, !r.tls)) == Scheme(r)
  {
  }

  /** Of several forwarded schemes the first counts, without its blanks. */
  lemma {:induction false} FirstForwardedScheme(r: Request, w: string, p: string, v: string, rest: string)
    requires Blank(w) && Bare(p) && ',' !in p && Blank(v) && r.forwardedProto == w + p + v + "," + rest
    ensures Scheme(r) == p
  {
    assert ',' in r.forwardedProto by {
      assert r.forwardedProto[|w + p + v|] == ',';
    }
    assert ',' !in w && ',' !in v;
    BeforeExactly(w + p + v, ',', rest);
    TrimExactly(w, p, v);
  }
}
