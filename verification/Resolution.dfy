// gateway/handlers.go and lib/src/index.ts: which manifest entry a path names.
module Resolution {
  import opened Manifests
  import opened Decimals

  predicate HasFilenames(entries: seq<GatewayEntry>) {
    exists e <- entries :: e.f != ""
  }

  /** The first entry named `path`, or -1. */
  function FirstNamed(entries: seq<GatewayEntry>, path: string, from: nat): (i: int)
    requires from <= |entries|
    ensures i == -1 || from <= i < |entries|
    ensures i >= 0 ==> entries[i].f == path && forall k :: from <= k < i ==> entries[k].f != path
    ensures i == -1 ==> forall k :: from <= k < |entries| ==> entries[k].f != path
    decreases |entries| - from
  {
    if from == |entries| then -1 else if entries[from].f == path then from else FirstNamed(entries, path, from + 1)
  }

  method FindByFilename(entries: seq<GatewayEntry>, path: string) returns (i: int)
    ensures i == FirstNamed(entries, path, 0)
  {
    for k := 0 to |entries|
      invariant FirstNamed(entries, path, 0) == FirstNamed(entries, path, k)
    {
      if entries[k].f == path { return k; }
    }
    return -1;
  }

  /** filepath.Ext: from the last dot of the last path element, or empty. */
  function Ext(path: string): string {
    if path == "" || path[|path| - 1] == '/' then ""
    else if path[|path| - 1] == '.' then "."
    else
      var rest := Ext(path[..|path| - 1]);
      if rest == "" then "" else rest + [path[|path| - 1]]
  }

  function Stem(f: string): string {
    if |Ext(f)| <= |f| && f[|f| - |Ext(f)|..] == Ext(f) then f[..|f| - |Ext(f)|] else f
  }

  predicate StemMatches(e: GatewayEntry, stem: string) {
    e.f != "" && Ext(e.f) != "" && Stem(e.f) == stem
  }

  /** Neither a dot nor a slash. */
  predicate Plain(x: string) {
    forall c <- x :: c != '.' && c != '/'
  }

  /** No dot after the last slash. */
  ghost predicate NoExtension(p: string) {
    forall i :: 0 <= i < |p| && p[i] == '.' ==> '/' in p[i + 1..]
  }

  /** f is stem, a dot, and a text without dots and slashes. */
  predicate HasStem(f: string, stem: string) {
    stem <= f && |stem| < |f| && f[|stem|] == '.' && Plain(f[|stem| + 1..])
  }

  /** What an extension is: the text from a dot that neither a dot nor a slash
      follows; there is none iff no dot follows the last slash. */
  lemma {:induction false} ExtExactly(p: string)
    ensures Ext(p) == "" <==> NoExtension(p)
    ensures Ext(p) != "" ==>
              |Ext(p)| <= |p| && Ext(p) == p[|p| - |Ext(p)|..]
              && p[|p| - |Ext(p)|] == '.' && Plain(p[|p| - |Ext(p)| + 1..])
  {
    if p != "" {
      var n := |p| - 1;
      if p[n] == '.' {
        assert p[n + 1..] == "" && p[n..] == ".";
      } else if p[n] == '/' {
        forall i | 0 <= i < |p| && p[i] == '.'
          ensures '/' in p[i + 1..]
        {
          assert p[i + 1..][n - i - 1] == '/';
        }
      } else {
        ExtExactly(p[..n]);
        ExtSnoc(p);
      }
    }
  }

  lemma {:induction false} ExtSnoc(p: string)
    requires p != "" && p[|p| - 1] != '.' && p[|p| - 1] != '/'
    ensures NoExtension(p) <==> NoExtension(p[..|p| - 1])
    ensures forall k :: 0 <= k < |p| ==> p[k..] == p[..|p| - 1][k..] + [p[|p| - 1]]
  {
    var n := |p| - 1;
    forall i | 0 <= i < n && p[i] == '.'
      ensures '/' in p[i + 1..] <==> '/' in p[..n][i + 1..]
    {
      assert p[i + 1..] == p[..n][i + 1..] + [p[n]];
    }
  }

  lemma {:induction false} ExtOfAppended(stem: string, x: string)
    requires Plain(x)
    ensures Ext(stem + "." + x) == "." + x
  {
    var p := stem + "." + x;
    if x != "" {
      var n := |x| - 1;
      assert x[n] in x && forall c <- x[..n] :: c in x;
      assert p[..|p| - 1] == stem + "." + x[..n] && p[|p| - 1] == x[n];
      ExtOfAppended(stem, x[..n]);
    } else {
      assert p[|p| - 1] == '.';
    }
  }

  lemma {:induction false} CutExtension(f: string)
    requires Ext(f) != ""
    ensures |Ext(f)| <= |f| && Stem(f) == f[..|f| - |Ext(f)|] && HasStem(f, Stem(f))
  {
    ExtExactly(f);
    var n := |f| - |Ext(f)|;
    assert Stem(f) == f[..n];
    assert f[..n] <= f && |f[..n]| == n;
  }

  /** What the stem match finds. */
  lemma {:induction false} StemExactly(e: GatewayEntry, stem: string)
    ensures StemMatches(e, stem) <==> HasStem(e.f, stem)
  {
    if HasStem(e.f, stem) {
      var x := e.f[|stem| + 1..];
      assert e.f == stem + "." + x;
      ExtOfAppended(stem, x);
      CutExtension(e.f);
      assert |Ext(e.f)| == |x| + 1;
    } else if Ext(e.f) != "" {
      CutExtension(e.f);
    }
  }

  /** In other words: the stem, a dot, and anything without dots and slashes. */
  lemma {:induction false} AnyExtension(e: GatewayEntry, stem: string, x: string)
    requires Plain(x) && e.f == stem + "." + x
    ensures StemMatches(e, stem)
  {
    assert e.f[|stem| + 1..] == x;
    StemExactly(e, stem);
  }

  lemma {:induction false} HtmlExtension(p: string)
    ensures Ext(p) == ".html" <==> |p| >= 5 && p[|p| - 5..] == ".html"
  {
    ExtExactly(p);
    if |p| >= 5 && p[|p| - 5..] == ".html" {
      ExtOfAppended(p[..|p| - 5], "html");
      assert p == p[..|p| - 5] + "." + "html";
    }
  }

  function FirstStem(entries: seq<GatewayEntry>, stem: string, from: nat): (i: int)
    requires from <= |entries|
    ensures i == -1 || from <= i < |entries|
    ensures i >= 0 ==> StemMatches(entries[i], stem) && forall k :: from <= k < i ==> !StemMatches(entries[k], stem)
    ensures i == -1 ==> forall k :: from <= k < |entries| ==> !StemMatches(entries[k], stem)
    decreases |entries| - from
  {
    if from == |entries| then -1
    else if StemMatches(entries[from], stem) then from
    else FirstStem(entries, stem, from + 1)
  }

  method FindByFilenameStem(entries: seq<GatewayEntry>, stem: string) returns (i: int)
    ensures i == if stem == "" then -1 else FirstStem(entries, stem, 0)
    ensures i >= 0 ==> i < |entries| && HasStem(entries[i].f, stem)
    ensures forall k :: 0 <= k < i && k < |entries| ==> !HasStem(entries[k].f, stem)
    ensures i < 0 ==> stem == "" || forall e <- entries :: !HasStem(e.f, stem)
  {
    forall e | e in entries
      ensures StemMatches(e, stem) <==> HasStem(e.f, stem)
    {
      StemExactly(e, stem);
    }
    if stem == "" { return -1; }
    for k := 0 to |entries|
      invariant FirstStem(entries, stem, 0) == FirstStem(entries, stem, k)
      invariant forall j :: 0 <= j < k ==> !HasStem(entries[j].f, stem)
    {
      assert entries[k] in entries;
      if entries[k].f == "" { continue; }
      var ext := Ext(entries[k].f);
      if ext == "" { continue; }
      if Stem(entries[k].f) == stem { return k; }
    }
    return -1;
  }

  /** The gateway's order: exact name, stem, numeric index, index.html. The
      result may be out of range, which the caller answers with 404. */
  function Resolved(entries: seq<GatewayEntry>, path: string): int {
    var named := HasFilenames(entries);
    var byName := if named then FirstNamed(entries, path, 0) else -1;
    var byStem := if byName < 0 && named && Ext(path) == "" && path != "" then FirstStem(entries, path, 0) else byName;
    var byIndex := if byStem < 0 && Atoi(path).Some? then Atoi(path).value else byStem;
    if byIndex < 0 && named && (Ext(path) == "" || Ext(path) == ".html")
    then FirstNamed(entries, "index.html", 0) else byIndex
  }

  method ResolveIndex(entries: seq<GatewayEntry>, pathOrIndex: string) returns (entryIdx: int)
    ensures entryIdx == Resolved(entries, pathOrIndex)
  {
    entryIdx := -1;
    var named := HasFilenames(entries);
    if named {
      entryIdx := FindByFilename(entries, pathOrIndex);
    }
    if entryIdx < 0 && named && Ext(pathOrIndex) == "" {
      entryIdx := FindByFilenameStem(entries, pathOrIndex);
    }
    if entryIdx < 0 {
      var tokenId := Atoi(pathOrIndex);
      if tokenId.Some? { entryIdx := tokenId.value; }
    }
    if entryIdx < 0 && named {
      var ext := Ext(pathOrIndex);
      if ext == "" || ext == ".html" {
        entryIdx := FindByFilename(entries, "index.html");
      }
    }
  }

  /** Asked for the name of a file of a site, the gateway resolves to that file,
      whatever other files or indices the name could stand for. */
  lemma {:induction false} NamesResolve(entries: seq<GatewayEntry>, names: seq<string>, i: nat)
    requires |entries| == |names| && i < |names| && DistinctNames(names) && names[i] != ""
    requires forall k :: 0 <= k < |names| ==> entries[k].f == names[k]
    ensures Resolved(entries, names[i]) == i
  {
  }

  /** In a manifest without names, decimal i is entry i. */
  lemma {:induction false} IndicesResolve(entries: seq<GatewayEntry>, i: nat)
    requires forall e <- entries :: e.f == ""
    requires i <= MAX_INT64
    ensures Resolved(entries, Decimal(i)) == i
  {
    AtoiDecimal(i);
  }

  // ---------- The order, in the manifest's own terms ----------

  ghost predicate IsFirst(entries: seq<GatewayEntry>, i: int, name: string) {
    0 <= i < |entries| && entries[i].f == name && forall k :: 0 <= k < i ==> entries[k].f != name
  }

  ghost predicate IsFirstStem(entries: seq<GatewayEntry>, i: int, stem: string) {
    0 <= i < |entries| && HasStem(entries[i].f, stem) && forall k :: 0 <= k < i ==> !HasStem(entries[k].f, stem)
  }

  /** Some entry has the path as its name; a manifest without names has none. */
  ghost predicate IsName(entries: seq<GatewayEntry>, path: string) {
    (exists e <- entries :: e.f != "") && exists e <- entries :: e.f == path
  }

  ghost predicate IsStem(entries: seq<GatewayEntry>, path: string) {
    NoExtension(path) && path != "" && exists e <- entries :: HasStem(e.f, path)
  }

  ghost predicate IsIndex(path: string) {
    Atoi(path).Some? && Atoi(path).value >= 0
  }

  /** Paths answered with index.html when nothing else fits. */
  ghost predicate FallsBack(entries: seq<GatewayEntry>, path: string) {
    && (NoExtension(path) || (|path| >= 5 && path[|path| - 5..] == ".html"))
    && exists e <- entries :: e.f == "index.html"
  }

  lemma {:induction false} FoundOrNot(entries: seq<GatewayEntry>, path: string)
    ensures var i := FirstNamed(entries, path, 0);
            if exists e <- entries :: e.f == path then IsFirst(entries, i, path) else i == -1
    ensures var i := FirstStem(entries, path, 0);
            if exists e <- entries :: HasStem(e.f, path) then IsFirstStem(entries, i, path) else i == -1
  {
    forall k | 0 <= k < |entries|
      ensures StemMatches(entries[k], path) <==> HasStem(entries[k].f, path)
    {
      StemExactly(entries[k], path);
    }
    assert forall k :: 0 <= k < |entries| ==> entries[k] in entries;
  }

  lemma {:induction false} StemsAreNames(entries: seq<GatewayEntry>, path: string)
    requires IsStem(entries, path)
    ensures HasFilenames(entries)
  {
    var e :| e in entries && HasStem(e.f, path);
  }

  lemma {:induction false} NameFirst(entries: seq<GatewayEntry>, path: string)
    ensures IsName(entries, path) ==> IsFirst(entries, Resolved(entries, path), path)
    ensures !IsName(entries, path) ==> !HasFilenames(entries) || FirstNamed(entries, path, 0) == -1
  {
    FoundOrNot(entries, path);
  }

  lemma {:induction false} StemNext(entries: seq<GatewayEntry>, path: string)
    requires !IsName(entries, path)
    ensures IsStem(entries, path) ==> IsFirstStem(entries, Resolved(entries, path), path)
    ensures !IsStem(entries, path) ==> Resolved(entries, path) == AfterStem(entries, path)
  {
    ExtExactly(path);
    FoundOrNot(entries, path);
    NameFirst(entries, path);
    if IsStem(entries, path) {
      StemsAreNames(entries, path);
    }
  }

  /** The index, then the fallback. */
  function AfterStem(entries: seq<GatewayEntry>, path: string): int {
    var byIndex := if Atoi(path).Some? then Atoi(path).value else -1;
    if byIndex < 0 && HasFilenames(entries) && (Ext(path) == "" || Ext(path) == ".html")
    then FirstNamed(entries, "index.html", 0) else byIndex
  }

  lemma {:induction false} FallbackLast(entries: seq<GatewayEntry>, path: string)
    requires !IsIndex(path)
    ensures if FallsBack(entries, path) then IsFirst(entries, AfterStem(entries, path), "index.html")
            else AfterStem(entries, path) < 0
  {
    ExtExactly(path);
    HtmlExtension(path);
    FoundOrNot(entries, "index.html");
  }

  /** Which entry a path gets: the first of that name; else, for a path without
      an extension, the first with that stem; else the index it spells; else
      index.html, or nothing. */
  lemma {:induction false} ResolutionOrder(entries: seq<GatewayEntry>, path: string)
    ensures var r := Resolved(entries, path);
            if IsName(entries, path) then IsFirst(entries, r, path)
            else if IsStem(entries, path) then IsFirstStem(entries, r, path)
            else if IsIndex(path) then r == Atoi(path).value
            else if FallsBack(entries, path) then IsFirst(entries, r, "index.html")
            else r < 0
  {
    NameFirst(entries, path);
    if !IsName(entries, path) {
      StemNext(entries, path);
      if !IsIndex(path) {
        FallbackLast(entries, path);
      }
    }
  }

  /** A name without its extension finds the file even when it spells an index. */
  lemma {:induction false} StemBeatsIndex(entries: seq<GatewayEntry>, stem: string, i: nat)
    requires i < |entries| && HasStem(entries[i].f, stem) && NoExtension(stem) && stem != ""
    requires forall e <- entries :: e.f != stem
    ensures 0 <= Resolved(entries, stem) <= i && HasStem(entries[Resolved(entries, stem)].f, stem)
  {
    assert entries[i] in entries;
    ResolutionOrder(entries, stem);
  }

  /** A path that is no name, no stem and no number gets index.html, for
      client-side routes, iff it has no extension or ends in ".html". */
  lemma {:induction false} FallbackExactly(entries: seq<GatewayEntry>, path: string, i: nat)
    requires IsFirst(entries, i, "index.html")
    requires forall e <- entries :: e.f != path && !HasStem(e.f, path)
    requires Atoi(path).None?
    ensures Resolved(entries, path) == i || Resolved(entries, path) < 0
    ensures Resolved(entries, path) == i
       <==> NoExtension(path) || (|path| >= 5 && path[|path| - 5..] == ".html")
  {
    assert entries[i] in entries;
    ResolutionOrder(entries, path);
  }

  /** A page is found without its extension: "about" is about.html. */
  lemma {:induction false} PageFound(entries: seq<GatewayEntry>, stem: string, x: string, i: nat)
    requires i < |entries| && entries[i].f == stem + "." + x && Plain(stem) && Plain(x) && stem != ""
    requires forall e <- entries :: e.f != stem
    requires forall k :: 0 <= k < i ==> !HasStem(entries[k].f, stem)
    ensures Resolved(entries, stem) == i
  {
    assert entries[i].f[|stem| + 1..] == x;
    assert NoExtension(stem) by {
      assert forall j :: 0 <= j < |stem| ==> stem[j] in stem;
    }
    StemBeatsIndex(entries, stem, i);
  }

  /** A missing style.css is nothing. */
  lemma {:induction false} StyleIsMissing(entries: seq<GatewayEntry>)
    requires |entries| == 2 && entries[0].f == "index.html" && entries[1].f == "about.html"
    ensures Resolved(entries, "style.css") < 0
  {
    var path := "style.css";
    assert path[0] == 's' && entries[0].f[0] == 'i' && entries[1].f[0] == 'a';
    assert path[5] == '.' && path[6..] == "css" && path[|path| - 5..] == "e.css";
    assert forall e <- entries :: e == entries[0] || e == entries[1];
    ResolutionOrder(entries, path);
  }

  /** No name is used twice. */
  ghost predicate DistinctNames(names: seq<string>) {
    forall i, j :: 0 <= i < j < |names| ==> names[i] != names[j]
  }

  lemma {:induction false} DistinctNameFound(entries: seq<GatewayEntry>, names: seq<string>, i: nat)
    requires |entries| == |names| && i < |names| && DistinctNames(names)
    requires forall k :: 0 <= k < |names| ==> entries[k].f == names[k]
    ensures FirstNamed(entries, names[i], 0) == i
  {
  }

  // ---------- The library's order ----------

  /** The index a path spells: only the canonical decimal of an index in range. */
  function CanonicalIndex(count: nat, path: string): (i: int)
    ensures i == -1 || 0 <= i < count
    ensures i >= 0 ==> path == Decimal(i)
  {
    if path != "" && AllDigits(path) && DigitsValue(path) < count && Decimal(DigitsValue(path)) == path
    then DigitsValue(path) else -1
  }

  lemma {:induction false} CanonicalIndexExactly(count: nat, path: string, j: nat)
    requires j < count
    ensures CanonicalIndex(count, path) == j <==> path == Decimal(j)
  {
    DecimalValue(j);
  }

  method LibResolveEntry(entries: seq<GatewayEntry>, path: string) returns (i: int)
    ensures i == if CanonicalIndex(|entries|, path) >= 0 then CanonicalIndex(|entries|, path)
                 else FirstNamed(entries, path, 0)
  {
    var idx := CanonicalIndex(|entries|, path);
    if idx >= 0 { return idx; }
    for k := 0 to |entries|
      invariant FirstNamed(entries, path, 0) == FirstNamed(entries, path, k)
    {
      if entries[k].f == path { return k; }
    }
    return -1;
  }

  /** The library looks at indices first: asked for the file called names[i], it
      answers with that file iff the name is not the index of another one. */
  lemma {:induction false} LibFindsNameExactly(entries: seq<GatewayEntry>, names: seq<string>, i: nat)
    requires |entries| == |names| && i < |names| && DistinctNames(names)
    requires forall k :: 0 <= k < |names| ==> entries[k].f == names[k]
    ensures var lib := if CanonicalIndex(|entries|, names[i]) >= 0 then CanonicalIndex(|entries|, names[i])
                       else FirstNamed(entries, names[i], 0);
            lib == i <==> forall j :: 0 <= j < |names| && j != i ==> names[i] != Decimal(j)
  {
    DistinctNameFound(entries, names, i);
    var c := CanonicalIndex(|entries|, names[i]);
    if j: nat :| j < |names| && j != i && names[i] == Decimal(j) {
      DecimalValue(j);
      assert c == j;
    } else if c >= 0 {
      assert c < |names| && names[i] == Decimal(c);
    }
  }
}
