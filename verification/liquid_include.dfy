/**
  Liquid include directives: every `{% include 'path' %}` becomes the VitePress include
  `<!--@include: ../path-->` (docs/.vitepress/plugins/markdown/mkdocs/markdown-it-mk-Include.ts).
 */
module LiquidInclude {
  import opened Strings
  import opened Rewrite

  // ---------------------------------------------------------------------------------
  // The pattern  {%\s*include\s+['"]([^'"]+)['"]\s*%}
  //
  // As for every pattern here, giving back part of a run never helps: a space is never
  // `i` or a quote, and a path character is never a quote. The two quotes need not be
  // the same character.

  predicate IsQuote(c: char) {
    c == '\'' || c == '"'
  }

  predicate NotQuote(c: char) {
    !IsQuote(c)
  }

  /** Where the path and the end of a directive lie. */
  datatype Directive = Directive(from: nat, to: nat, end: nat)

  /** `{%\s*include\s+['"]` at `i`: where the path starts. */
  function Head(s: string, i: nat): (r: Option<nat>)
    ensures r.Some? ==> i + 11 <= r.value <= |s|
  {
    if !HasAt(s, i, "{%") then None
    else
      var a := SkipSpace(s, i + 2);
      if !HasAt(s, a, "include") then None
      else
        var b := SkipSpace(s, a + 7);
        if b == a + 7 || b == |s| || !IsQuote(s[b]) then None else Some(b + 1)
  }

  /** `['"]\s*%}` at `q`: where the directive ends. */
  function Tail(s: string, q: nat): (r: Option<nat>)
    requires q <= |s|
    ensures r.Some? ==> q + 3 <= r.value <= |s|
  {
    if q == |s| || !IsQuote(s[q]) then None
    else
      var c := SkipSpace(s, q + 1);
      if HasAt(s, c, "%}") then Some(c + 2) else None
  }

  /** The directive starting at `i`, if there is one. */
  function DirectiveAt(s: string, i: nat): (r: Option<Directive>)
    ensures r.Some? ==> i + 11 <= r.value.from < r.value.to && r.value.to + 3 <= r.value.end <= |s|
  {
    match Head(s, i)
    case None => None
    case Some(a) =>
      var q := Span(s, a, NotQuote);
      if q == a then None
      else match Tail(s, q)
        case None => None
        case Some(e) => Some(Directive(a, q, e))
  }

  function DirectiveEnd(s: string, i: nat): Option<nat> {
    match DirectiveAt(s, i)
    case Some(d) => Some(d.end)
    case None => None
  }

  /** The VitePress include of a path, one directory up. */
  function IncludeText(path: string): string {
    "<!--@include: ../" + path + "-->"
  }

  function ReplacementAt(s: string, i: nat, e: nat): string {
    match DirectiveAt(s, i)
    case Some(d) => IncludeText(s[d.from..d.to])
    case None => Slice(s, i, e)
  }

  /** The core rule `liquid_include_replacer`. */
  function ReplaceIncludes(src: string): string {
    ReplaceAll(src, DirectiveEnd, ReplacementAt)
  }

  // ---------------------------------------------------------------------------------
  // The directive pattern, both ways

  /** A directive as it can be written. */
  function DirectiveText(g1: string, g2: string, open: char, path: string, close: char, g3: string): string {
    Opening(g1, g2, open) + Closing(path, close, g3)
  }

  function Opening(g1: string, g2: string, open: char): string {
    "{%" + g1 + "include" + g2 + [open]
  }

  function Closing(path: string, close: char, g3: string): string {
    path + [close] + g3 + "%}"
  }

  predicate IsPath(path: string) {
    path != [] && forall k :: 0 <= k < |path| ==> NotQuote(path[k])
  }

  /** What a written directive must look like: spaces where the pattern has `\s`, at
      least one after `include`, quotes of either kind, a path without quotes. */
  predicate Writable(g1: string, g2: string, open: char, path: string, close: char, g3: string) {
    AllSpace(g1) && g2 != [] && AllSpace(g2) && AllSpace(g3) && IsQuote(open) && IsQuote(close) && IsPath(path)
  }

  /** Every written directive is recognised and its path read back verbatim. */
  lemma DirectiveRecognised(s: string, i: nat, g1: string, g2: string, open: char, path: string, close: char, g3: string)
    requires Writable(g1, g2, open, path, close, g3)
    requires HasAt(s, i, DirectiveText(g1, g2, open, path, close, g3))
    ensures var from := i + 10 + |g1| + |g2|; var to := from + |path|;
      && DirectiveAt(s, i) == Some(Directive(from, to, i + |DirectiveText(g1, g2, open, path, close, g3)|))
      && s[from..to] == path
  {
    DirectiveLandmarks(s, i, g1, g2, open, path, close, g3);
    DirectiveReadBack(s, i, g1, g2, open, path, close, g3);
  }

  /** The landmarks of a directive at `i`: `include` at `a`, the opening quote at `b`,
      the closing one at `q`, `%}` at `c`. */
  predicate LaidOut(s: string, i: nat, a: nat, b: nat, q: nat, c: nat) {
    && i + 2 <= a && a + 7 < b && b + 1 < q < c
    && HasAt(s, i, "{%") && HasAt(s, a, "include") && HasAt(s, c, "%}")
    && (forall k :: i + 2 <= k < a ==> IsSpace(s[k]))
    && (forall k :: a + 7 <= k < b ==> IsSpace(s[k]))
    && IsQuote(s[b]) && IsQuote(s[q])
    && (forall k :: b + 1 <= k < q ==> NotQuote(s[k]))
    && (forall k :: q + 1 <= k < c ==> IsSpace(s[k]))
  }

  /** Where a written directive's landmarks are. */
  predicate Written(s: string, i: nat, g1: string, g2: string, open: char, path: string, close: char, g3: string) {
    var a := i + 2 + |g1|; var b := a + 7 + |g2|; var q := b + 1 + |path|; var c := q + 1 + |g3|;
    && LaidOut(s, i, a, b, q, c)
    && s[b + 1..q] == path && i + |DirectiveText(g1, g2, open, path, close, g3)| == c + 2
  }

  lemma DirectiveReadBack(s: string, i: nat, g1: string, g2: string, open: char, path: string, close: char, g3: string)
    requires Written(s, i, g1, g2, open, path, close, g3)
    ensures var from := i + 10 + |g1| + |g2|; var to := from + |path|;
      && DirectiveAt(s, i) == Some(Directive(from, to, i + |DirectiveText(g1, g2, open, path, close, g3)|))
      && s[from..to] == path
  {
    var a := i + 2 + |g1|;
    var b := a + 7 + |g2|;
    var q := b + 1 + |path|;
    var c := q + 1 + |g3|;
    HeadExact(s, i, a, b);
    TailExact(s, q, c);
    SpanExact(s, b + 1, NotQuote, q);
    DirectiveStages(s, i, b + 1, q, c + 2);
  }

  lemma DirectiveStages(s: string, i: nat, a: nat, q: nat, e: nat)
    requires Head(s, i) == Some(a) && a < q <= |s| && Span(s, a, NotQuote) == q && Tail(s, q) == Some(e)
    ensures DirectiveAt(s, i) == Some(Directive(a, q, e))
  {
  }

  /** A written directive, position by position. */
  lemma DirectiveLandmarks(s: string, i: nat, g1: string, g2: string, open: char, path: string, close: char, g3: string)
    requires Writable(g1, g2, open, path, close, g3)
    requires HasAt(s, i, DirectiveText(g1, g2, open, path, close, g3))
    ensures Written(s, i, g1, g2, open, path, close, g3)
  {
    var a := i + 2 + |g1|;
    var b := a + 7 + |g2|;
    var q := b + 1 + |path|;
    var c := q + 1 + |g3|;
    HasAtConcat(s, i, Opening(g1, g2, open), Closing(path, close, g3));
    OpeningPieces(s, i, g1, g2, open);
    ClosingPieces(s, b + 1, path, close, g3);
    SliceSpace(s, i + 2, a);
    SliceSpace(s, a + 7, b);
    SliceSpace(s, q + 1, c);
    forall k | b + 1 <= k < q ensures NotQuote(s[k]) {
      assert s[k] == path[k - b - 1];
    }
  }

  /** Where the pieces of a written directive's first half sit. */
  lemma OpeningPieces(s: string, i: nat, g1: string, g2: string, open: char)
    requires HasAt(s, i, Opening(g1, g2, open))
    ensures var a := i + 2 + |g1|; var b := a + 7 + |g2|;
      && HasAt(s, i, "{%") && s[i + 2..a] == g1 && HasAt(s, a, "include") && s[a + 7..b] == g2 && s[b] == open
  {
    HasAtConcat(s, i, "{%" + g1 + "include" + g2, [open]);
    HasAtConcat(s, i, "{%" + g1 + "include", g2);
    HasAtConcat(s, i, "{%" + g1, "include");
    HasAtConcat(s, i, "{%", g1);
    HasAtChar(s, i + 2 + |g1| + 7 + |g2|, [open], 0);
  }

  /** Where the pieces of a written directive's second half sit. */
  lemma ClosingPieces(s: string, j: nat, path: string, close: char, g3: string)
    requires HasAt(s, j, Closing(path, close, g3))
    ensures var q := j + |path|; var c := q + 1 + |g3|;
      && s[j..q] == path && s[q] == close && s[q + 1..c] == g3 && HasAt(s, c, "%}")
  {
    HasAtConcat(s, j, path + [close] + g3, "%}");
    HasAtConcat(s, j, path + [close], g3);
    HasAtConcat(s, j, path, [close]);
    HasAtChar(s, j + |path|, [close], 0);
  }

  lemma HeadExact(s: string, i: nat, a: nat, b: nat)
    requires HasAt(s, i, "{%") && i + 2 <= a && HasAt(s, a, "include") && a + 7 < b < |s|
    requires forall k :: i + 2 <= k < a ==> IsSpace(s[k])
    requires forall k :: a + 7 <= k < b ==> IsSpace(s[k])
    requires IsQuote(s[b])
    ensures Head(s, i) == Some(b + 1)
  {
    HasAtChar(s, a, "include", 0);
    SkipSpaceIsSpan(s, i + 2);
    SpanExact(s, i + 2, IsSpace, a);
    SkipSpaceIsSpan(s, a + 7);
    SpanExact(s, a + 7, IsSpace, b);
  }

  lemma TailExact(s: string, q: nat, c: nat)
    requires q < c && HasAt(s, c, "%}") && IsQuote(s[q])
    requires forall k :: q + 1 <= k < c ==> IsSpace(s[k])
    ensures Tail(s, q) == Some(c + 2)
  {
    HasAtChar(s, c, "%}", 0);
    SkipSpaceIsSpan(s, q + 1);
    SpanExact(s, q + 1, IsSpace, c);
  }

  /** Everything the pattern recognises is a written directive. */
  lemma DirectiveSound(s: string, i: nat)
    requires DirectiveAt(s, i).Some?
    ensures var d := DirectiveAt(s, i).value;
      && HasAt(s, i, "{%") && HasAt(s, d.end - 2, "%}")
      && IsQuote(s[d.from - 1]) && IsQuote(s[d.to])
      && IsPath(s[d.from..d.to])
      && (exists a :: i + 2 <= a && a + 7 < d.from - 1 && HasAt(s, a, "include")
           && (forall k :: i + 2 <= k < a ==> IsSpace(s[k]))
           && (forall k :: a + 7 <= k < d.from - 1 ==> IsSpace(s[k])))
      && (forall k :: d.to + 1 <= k < d.end - 2 ==> IsSpace(s[k]))
  {
    var d := DirectiveAt(s, i).value;
    HeadSound(s, i);
    TailSound(s, d.to);
    assert forall k :: 0 <= k < d.to - d.from ==> s[d.from..d.to][k] == s[d.from + k];
  }

  lemma HeadSound(s: string, i: nat)
    requires Head(s, i).Some?
    ensures var h := Head(s, i).value;
      && HasAt(s, i, "{%") && IsQuote(s[h - 1])
      && exists a :: i + 2 <= a && a + 7 < h - 1 && HasAt(s, a, "include")
           && (forall k :: i + 2 <= k < a ==> IsSpace(s[k]))
           && (forall k :: a + 7 <= k < h - 1 ==> IsSpace(s[k]))
  {
    SkipSpaceIsSpan(s, i + 2);
    var a := SkipSpace(s, i + 2);
    SkipSpaceIsSpan(s, a + 7);
  }

  lemma TailSound(s: string, q: nat)
    requires q <= |s| && Tail(s, q).Some?
    ensures var e := Tail(s, q).value;
      IsQuote(s[q]) && HasAt(s, e - 2, "%}") && forall k :: q + 1 <= k < e - 2 ==> IsSpace(s[k])
  {
    SkipSpaceIsSpan(s, q + 1);
  }

  // ---------------------------------------------------------------------------------
  // The rewrite

  /** The first directive becomes an include of its path one directory up; the text
      before it is copied. */
  lemma FirstDirectiveReplaced(src: string)
    requires FirstMatch(src, 0, DirectiveEnd).Some?
    ensures var i := FirstMatch(src, 0, DirectiveEnd).value;
      var d := DirectiveAt(src, i).value;
      ReplaceIncludes(src) == src[..i] + IncludeText(src[d.from..d.to]) + ReplaceFrom(src, d.end, DirectiveEnd, ReplacementAt)
  {
    var i := FirstMatch(src, 0, DirectiveEnd).value;
    FirstThenRest(src, DirectiveEnd, ReplacementAt);
    ReplacementValue(src, i);
  }

  lemma ReplacementValue(s: string, i: nat)
    requires DirectiveAt(s, i).Some?
    ensures var d := DirectiveAt(s, i).value;
      DirectiveEnd(s, i) == Some(d.end) && ReplacementAt(s, i, d.end) == IncludeText(s[d.from..d.to])
  {
  }

  /** A source without `{%` is unchanged. */
  lemma NoDirectiveUnchanged(src: string)
    requires forall j :: 0 <= j < |src| ==> !HasAt(src, j, "{%")
    ensures ReplaceIncludes(src) == src
  {
    NoMatchUnchanged(src, DirectiveEnd, ReplacementAt);
  }
}
