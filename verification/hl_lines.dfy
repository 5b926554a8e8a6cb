/**
  Material for MkDocs line highlighting: `hl_lines="X"` in a fence's info string becomes
  VitePress's `{X}` (docs/.vitepress/plugins/markdown/mkdocs/markdown-it-mk-hl-lines.ts).
  It happens twice: a core rule rewrites ```` ```lang hl_lines="X" ```` in the source
  before block parsing, and the fence renderer rewrites whatever info string still holds
  `hl_lines="X"` before handing the token to the original fence renderer.

  The original renderer is outside this model: it is a parameter, and what it renders is
  its result.
 */
module HlLines {
  import opened Strings
  import opened Rewrite

  // ---------------------------------------------------------------------------------
  // The pattern  hl_lines="([^"]+)"
  //
  // `[^"]+` cannot stop early: the next character must be the closing quote. So the
  // value runs from the opening quote to the next one and must not be empty.

  const HlOpen := "hl_lines=\""

  /** `hl_lines="[^"]+"` at `i`: where the closing quote is. */
  function ValueEnd(s: string, i: nat): (r: Option<nat>)
    ensures r.Some? ==> i + 10 < r.value < |s| && s[r.value] == '"'
  {
    if !HasAt(s, i, HlOpen) then None
    else
      var q := FindChar(s, '"', i + 10);
      if q == i + 10 || q == |s| then None else Some(q)
  }

  /** The matcher of `hl_lines="([^"]+)"`. */
  function HlEnd(s: string, i: nat): Option<nat> {
    match ValueEnd(s, i)
    case Some(q) => Some(q + 1)
    case None => None
  }

  /** The matcher of `\s*hl_lines="[^"]+"\s*`: both runs of whitespace are taken whole,
      since a shorter run leaves a space where `h` or the end of the match is due. */
  function SpacedEnd(s: string, i: nat): (r: Option<nat>)
    ensures r.Some? ==> i < r.value <= |s|
  {
    if i > |s| then None
    else match ValueEnd(s, SkipSpace(s, i))
      case Some(q) => Some(SkipSpace(s, q + 1))
      case None => None
  }

  /** The replacer `' '`. */
  function OneSpace(): Replacer {
    (s: string, i: nat, e: nat) => " "
  }

  // ---------------------------------------------------------------------------------
  // The fence renderer

  /** A fence token: its info string and everything else about it. */
  datatype Fence<A> = Fence(info: string, attrs: A)

  /** The info string the renderer leaves in the token: with a match, the first
      `hl_lines` and the whitespace around it become one space, the result is trimmed,
      and ` {X}` is appended; without one, the info string as it was. */
  function NewInfo(info: string): string {
    match FirstMatch(info, 0, HlEnd)
    case None => info
    case Some(i) =>
      var lines := info[i + 10..ValueEnd(info, i).value];
      Trim(Rewrite.ReplaceFirst(info, SpacedEnd, OneSpace())) + " {" + lines + "}"
  }

  /** The replaced fence rule: update the token's info string in place, then call the
      original rule on the same tokens and index. */
  function RenderFence<A, R>(tokens: seq<Fence<A>>, idx: nat, original: (seq<Fence<A>>, nat) -> R): R
    requires idx < |tokens|
  {
    original(tokens[idx := tokens[idx].(info := NewInfo(tokens[idx].info))], idx)
  }

  // ---------------------------------------------------------------------------------
  // Properties of the renderer

  /** The text where `hl_lines` can be recognised: no quote before it. */
  predicate NoQuote(t: string) {
    forall k :: 0 <= k < |t| ==> t[k] != '"'
  }

  /** `hl_lines="X"` with the whitespace written around it. */
  function Written(g1: string, x: string, g2: string): string {
    g1 + HlOpen + x + "\"" + g2
  }

  /** An info string whose first `hl_lines="X"` is preceded by `a` and the whitespace
      `g1`, and followed by the whitespace `g2` and `b`, loses that part: `a` and `b`
      are kept with one space between them, trimmed, and ` {X}` follows. */
  lemma InfoRewritten(a: string, g1: string, x: string, g2: string, b: string)
    requires NoQuote(a) && (a == [] || !IsSpace(a[|a| - 1]))
    requires AllSpace(g1) && AllSpace(g2) && (b == [] || !IsSpace(b[0]))
    requires x != [] && NoQuote(x)
    ensures NewInfo(a + Written(g1, x, g2) + b) == Trim(a + " " + b) + " {" + x + "}"
  {
    var w := Written(g1, x, g2);
    HasAtParts3(a, w, b);
    assert |w| == |g1| + |x| + |g2| + 11;
    InfoAt(a + w + b, a, g1, x, g2, b);
  }

  /** `InfoRewritten` on a string known only through where its parts occur. */
  lemma InfoAt(info: string, a: string, g1: string, x: string, g2: string, b: string)
    requires Around(info, a, |g1| + |x| + |g2| + 11, b) && HasAt(info, |a|, Written(g1, x, g2))
    requires NoQuote(a) && (a == [] || !IsSpace(a[|a| - 1]))
    requires AllSpace(g1) && AllSpace(g2) && (b == [] || !IsSpace(b[0]))
    requires x != [] && NoQuote(x)
    ensures NewInfo(info) == Trim(a + " " + b) + " {" + x + "}"
  {
    var i := |a| + |g1|;
    var q := i + 10 + |x|;
    var e := |a| + (|g1| + |x| + |g2| + 11);
    assert info[e..] == b;
    assert q + 1 + |g2| == e;
    InfoWritten(info, a, g1, x, g2, b, i, q);
    InfoPositions(info, |a|, i, q, e);
    Appended(info[..|a|] + " " + info[e..], a + " " + b, info[i + 10..q], x);
  }

  /** The info string the renderer builds depends only on the text kept and the value. */
  lemma Appended(u: string, v: string, y: string, x: string)
    requires u == v && y == x
    ensures Trim(u) + " {" + y + "}" == Trim(v) + " {" + x + "}"
  {
  }

  /** The landmarks of an info string whose first `hl_lines="X"` starts at `i`, with the
      whitespace around it from `a` to `e`. */
  predicate InfoLaidOut(info: string, a: nat, i: nat, q: nat, e: nat) {
    && a <= i && i + 10 < q < e <= |info|
    && HasAt(info, i, HlOpen) && info[q] == '"'
    && (forall k :: 0 <= k < a ==> info[k] != '"')
    && (forall k :: a <= k < i ==> IsSpace(info[k]))
    && (forall k :: i + 10 <= k < q ==> info[k] != '"')
    && (forall k :: q + 1 <= k < e ==> IsSpace(info[k]))
    && (a > 0 ==> !IsSpace(info[a - 1]))
    && (e < |info| ==> !IsSpace(info[e]))
  }

  lemma InfoWritten(info: string, a: string, g1: string, x: string, g2: string, b: string, i: nat, q: nat)
    requires Around(info, a, |g1| + |x| + |g2| + 11, b) && HasAt(info, |a|, Written(g1, x, g2))
    requires NoQuote(a) && (a == [] || !IsSpace(a[|a| - 1]))
    requires AllSpace(g1) && AllSpace(g2) && (b == [] || !IsSpace(b[0]))
    requires x != [] && NoQuote(x)
    requires i == |a| + |g1| && q == i + 10 + |x|
    ensures InfoLaidOut(info, |a|, i, q, q + 1 + |g2|) && info[i + 10..q] == x
  {
    WrittenPieces(info, |a|, g1, x, g2);
    HasAtSlice(info, i + 10, x);
    OuterLaidOut(info, a, q + 1 + |g2|, b);
    HasAtSpace(info, |a|, g1);
    HasAtSpace(info, q + 1, g2);
    ValueQuoteFree(info, i + 10, x);
  }

  /** What the renderer does to an info string laid out that way. */
  lemma InfoPositions(info: string, a: nat, i: nat, q: nat, e: nat)
    requires InfoLaidOut(info, a, i, q, e)
    ensures NewInfo(info) == Trim(info[..a] + " " + info[e..]) + " {" + info[i + 10..q] + "}"
  {
    HasAtChar(info, i, HlOpen, 0);
    ValueExact(info, i, q);
    HlFirst(info, i, a);
    FirstMatchAt(info, 0, HlEnd, i);
    SpanBackExact(info, i, a);
    AfterValue(info, q, e);
    InfoSound(info, i, q);
  }

  /** `s` is `a`, then `n` characters, then `b`. */
  predicate Around(s: string, a: string, n: nat, b: string) {
    && HasAt(s, 0, a) && HasAt(s, |a| + n, b) && |s| == |a| + n + |b|
    && s[..|a|] == a && s[|a| + n..] == b
  }

  /** What the text around the written part contributes: no quote before it, no
      whitespace right before or after it. */
  lemma OuterLaidOut(s: string, a: string, e: nat, b: string)
    requires HasAt(s, 0, a) && HasAt(s, e, b) && |a| <= e && |s| == e + |b|
    requires NoQuote(a) && (a == [] || !IsSpace(a[|a| - 1])) && (b == [] || !IsSpace(b[0]))
    ensures forall k :: 0 <= k < |a| ==> s[k] != '"'
    ensures |a| > 0 ==> !IsSpace(s[|a| - 1])
    ensures e < |s| ==> !IsSpace(s[e])
  {
    forall k | 0 <= k < |a| ensures s[k] != '"' {
      HasAtChar(s, 0, a, k);
    }
    if |a| > 0 {
      HasAtChar(s, 0, a, |a| - 1);
    }
    if b != [] {
      HasAtChar(s, e, b, 0);
    }
  }

  /** An occurrence of a quote-free value is a run without quotes. */
  lemma ValueQuoteFree(s: string, p: nat, x: string)
    requires HasAt(s, p, x) && NoQuote(x)
    ensures forall k :: p <= k < p + |x| ==> s[k] != '"'
  {
    forall k | p <= k < p + |x| ensures s[k] != '"' {
      HasAtChar(s, p, x, k - p);
    }
  }

  /** A run without quotes, sliced out. */
  lemma SliceQuoteFree(s: string, p: nat, q: nat)
    requires p <= q <= |s| && forall k :: p <= k < q ==> s[k] != '"'
    ensures NoQuote(s[p..q])
  {
    forall k | 0 <= k < q - p ensures s[p..q][k] != '"' {
      assert s[p..q][k] == s[p + k];
    }
  }

  /** The pieces of `hl_lines="X"` with its whitespace, at `p`. */
  lemma WrittenPieces(s: string, p: nat, g1: string, x: string, g2: string)
    requires HasAt(s, p, Written(g1, x, g2))
    ensures var i := p + |g1|; var q := i + 10 + |x|;
      && HasAt(s, p, g1) && HasAt(s, i, HlOpen) && HasAt(s, i + 10, x)
      && q < |s| && s[q] == '"' && HasAt(s, q + 1, g2)
  {
    HasAtConcat(s, p, g1 + HlOpen + x + "\"", g2);
    HasAtConcat(s, p, g1 + HlOpen + x, "\"");
    HasAtConcat(s, p, g1 + HlOpen, x);
    HasAtConcat(s, p, g1, HlOpen);
    HasAtChar(s, p + |g1| + 10 + |x|, "\"", 0);
  }

  lemma ValueExact(s: string, i: nat, q: nat)
    requires i + 10 < q < |s| && HasAt(s, i, HlOpen) && s[q] == '"'
    requires forall k :: i + 10 <= k < q ==> s[k] != '"'
    ensures ValueEnd(s, i) == Some(q) && HlEnd(s, i) == Some(q + 1)
  {
    FindCharExact(s, '"', i + 10, q);
  }

  /** With no quote before `i`, no `hl_lines="X"` starts before it. */
  lemma HlFirst(s: string, i: nat, a: nat)
    requires a <= i < |s| && s[i] == 'h' && forall k :: 0 <= k < a ==> s[k] != '"'
    requires forall k :: a <= k < i ==> IsSpace(s[k])
    ensures forall j :: 0 <= j < i ==> !MatchesAt(HlEnd, s, j)
  {
    forall j | 0 <= j < i ensures !MatchesAt(HlEnd, s, j) {
      if HasAt(s, j, HlOpen) {
        HasAtChar(s, j, HlOpen, 9);
        HasAtChar(s, j, HlOpen, 0);
        if j + 9 >= i {
          HasAtChar(s, j, HlOpen, i - j);
        }
      }
    }
  }

  lemma SpanBackExact(s: string, i: nat, a: nat)
    requires a <= i <= |s| && (forall k :: a <= k < i ==> IsSpace(s[k])) && (a > 0 ==> !IsSpace(s[a - 1]))
    ensures SpanBack(s, i) == a
    decreases i - a
  {
    if a < i {
      SpanBackExact(s, i - 1, a);
    }
  }

  lemma AfterValue(s: string, q: nat, e: nat)
    requires q < e <= |s| && (forall k :: q + 1 <= k < e ==> IsSpace(s[k])) && (e < |s| ==> !IsSpace(s[e]))
    ensures SkipSpace(s, q + 1) == e
  {
    SkipSpaceIsSpan(s, q + 1);
    SpanExact(s, q + 1, IsSpace, e);
  }

  /** The renderer in general: the match the replace removes starts where the whitespace
      before the first `hl_lines="X"` starts, ends where the whitespace after it ends,
      and the value appended is that same `X`. */
  lemma InfoSound(info: string, i: nat, q: nat)
    requires FirstMatch(info, 0, HlEnd) == Some(i) && ValueEnd(info, i) == Some(q)
    ensures HasAt(info, i, HlOpen) && info[q] == '"' && NoQuote(info[i + 10..q])
    ensures var p := SpanBack(info, i);
      NewInfo(info) == Trim(info[..p] + " " + info[SkipSpace(info, q + 1)..]) + " {" + info[i + 10..q] + "}"
  {
    var p := SpanBack(info, i);
    ValueShape(info, i, q);
    HasAtChar(info, i, HlOpen, 0);
    SpacedAt(info, i, p);
    SpacedNotBefore(info, i, p);
    FirstMatchAt(info, 0, SpacedEnd, p);
    InfoEquation(info, i, q, p, SkipSpace(info, q + 1));
  }

  lemma ValueShape(s: string, i: nat, q: nat)
    requires ValueEnd(s, i) == Some(q)
    ensures HasAt(s, i, HlOpen) && s[q] == '"' && NoQuote(s[i + 10..q])
  {
    SliceQuoteFree(s, i + 10, q);
  }

  lemma InfoEquation(info: string, i: nat, q: nat, p: nat, e: nat)
    requires FirstMatch(info, 0, HlEnd) == Some(i) && ValueEnd(info, i) == Some(q)
    requires FirstMatch(info, 0, SpacedEnd) == Some(p) && SpacedEnd(info, p) == Some(e)
    ensures NewInfo(info) == Trim(info[..p] + " " + info[e..]) + " {" + info[i + 10..q] + "}"
  {
    SpaceReplaced(info, p, e);
    InfoFrom(info, i);
  }

  /** The replace of the first match by one space. */
  lemma SpaceReplaced(s: string, p: nat, e: nat)
    requires FirstMatch(s, 0, SpacedEnd) == Some(p) && SpacedEnd(s, p) == Some(e)
    ensures Rewrite.ReplaceFirst(s, SpacedEnd, OneSpace()) == s[..p] + " " + s[e..]
  {
    assert OneSpace()(s, p, e) == " ";
  }

  /** `NewInfo` once the first `hl_lines="X"` is known to start at `i`. */
  lemma InfoFrom(info: string, i: nat)
    requires FirstMatch(info, 0, HlEnd) == Some(i)
    ensures NewInfo(info) == Trim(Rewrite.ReplaceFirst(info, SpacedEnd, OneSpace())) + " {" + info[i + 10..ValueEnd(info, i).value] + "}"
  {
  }

  lemma SpacedAt(s: string, i: nat, p: nat)
    requires i < |s| && s[i] == 'h' && ValueEnd(s, i).Some? && p == SpanBack(s, i)
    ensures SkipSpace(s, p) == i && SpacedEnd(s, p) == Some(SkipSpace(s, ValueEnd(s, i).value + 1))
  {
    SkipSpaceIsSpan(s, p);
    SpanExact(s, p, IsSpace, i);
  }

  lemma SpacedNotBefore(s: string, i: nat, p: nat)
    requires i < |s| && FirstMatch(s, 0, HlEnd) == Some(i) && p == SpanBack(s, i)
    ensures forall k :: 0 <= k < p ==> !MatchesAt(SpacedEnd, s, k)
  {
    forall k | 0 <= k < p ensures !MatchesAt(SpacedEnd, s, k) {
      SkipSpaceStops(s, k, p - 1);
      assert !MatchesAt(HlEnd, s, SkipSpace(s, k));
    }
  }

  /** Skipping whitespace stops at a character that is not whitespace. */
  lemma SkipSpaceStops(s: string, k: nat, m: nat)
    requires k <= m < |s| && !IsSpace(s[m])
    ensures SkipSpace(s, k) <= m
  {
    SkipSpaceIsSpan(s, k);
  }

  /** An info string without `hl_lines="X"` is left as it is. */
  lemma InfoUnchanged(info: string)
    requires forall i :: 0 <= i < |info| ==> ValueEnd(info, i).None?
    ensures NewInfo(info) == info
  {
    assert forall j :: 0 <= j < |info| ==> !MatchesAt(HlEnd, info, j);
  }

  /** The original renderer always runs, and on a token without `hl_lines="X"` it sees
      the tokens as they came. */
  lemma RenderUnchanged<A, R>(tokens: seq<Fence<A>>, idx: nat, original: (seq<Fence<A>>, nat) -> R)
    requires idx < |tokens|
    requires forall i :: 0 <= i < |tokens[idx].info| ==> ValueEnd(tokens[idx].info, i).None?
    ensures RenderFence(tokens, idx, original) == original(tokens, idx)
  {
    InfoUnchanged(tokens[idx].info);
    assert tokens[idx := tokens[idx]] == tokens;
  }

  /** With `hl_lines="X"`, the original renderer sees the rewritten info string and
      every other token as it came. */
  lemma RenderRewritten<A, R>(tokens: seq<Fence<A>>, idx: nat, original: (seq<Fence<A>>, nat) -> R,
                              a: string, g1: string, x: string, g2: string, b: string)
    requires idx < |tokens| && tokens[idx].info == a + Written(g1, x, g2) + b
    requires NoQuote(a) && (a == [] || !IsSpace(a[|a| - 1]))
    requires AllSpace(g1) && AllSpace(g2) && (b == [] || !IsSpace(b[0]))
    requires x != [] && NoQuote(x)
    ensures RenderFence(tokens, idx, original) ==
      original(tokens[idx := Fence(Trim(a + " " + b) + " {" + x + "}", tokens[idx].attrs)], idx)
  {
    InfoRewritten(a, g1, x, g2, b);
  }

  // ---------------------------------------------------------------------------------
  // The source rule:  ```(\w+)\s+hl_lines="([^"]+)"  (flag g)
  //
  // Both runs are taken whole: a shorter `\w+` leaves a word character where `\s` is
  // due, and a shorter `\s+` leaves a space where `h` is due.

  /** Where the pieces of a fence match lie: the language ends at `lang`, the whitespace
      at `open`, and the value at the closing quote `quote`. */
  datatype HlFence = HlFence(lang: nat, open: nat, quote: nat)

  function FenceAt(s: string, i: nat): (r: Option<HlFence>)
    ensures r.Some? ==> i + 3 < r.value.lang < r.value.open && r.value.open + 10 < r.value.quote < |s|
  {
    if !HasAt(s, i, "```") then None
    else
      var w := Span(s, i + 3, IsWordChar);
      var h := SkipSpace(s, w);
      if w == i + 3 || h == w then None
      else match ValueEnd(s, h)
        case Some(q) => Some(HlFence(w, h, q))
        case None => None
  }

  function FenceEnd(s: string, i: nat): Option<nat> {
    match FenceAt(s, i)
    case Some(f) => Some(f.quote + 1)
    case None => None
  }

  /** The replacement  ```$1 {$2}  */
  function FenceText(lang: string, lines: string): string {
    "```" + lang + " {" + lines + "}"
  }

  function FenceReplacement(s: string, i: nat, e: nat): string {
    match FenceAt(s, i)
    case Some(f) => FenceText(s[i + 3..f.lang], s[f.open + 10..f.quote])
    case None => Slice(s, i, e)
  }

  /** The core rule `hl_lines_replacer`. */
  function RewriteFences(src: string): string {
    ReplaceAll(src, FenceEnd, FenceReplacement)
  }

  // ---------------------------------------------------------------------------------
  // Properties of the source rule

  predicate IsLanguage(lang: string) {
    lang != [] && forall k :: 0 <= k < |lang| ==> IsWordChar(lang[k])
  }

  /** A fence as it can be written with a language and `hl_lines`. */
  function FenceWritten(lang: string, g: string, x: string): string {
    "```" + lang + g + HlOpen + x + "\""
  }

  /** Every fence written with a word-character language, whitespace and a non-empty
      quote-free value is recognised, and becomes the same fence with `{X}`. */
  lemma FenceRecognised(s: string, i: nat, lang: string, g: string, x: string)
    requires IsLanguage(lang) && g != [] && AllSpace(g) && x != [] && NoQuote(x)
    requires HasAt(s, i, FenceWritten(lang, g, x))
    ensures FenceEnd(s, i) == Some(i + |FenceWritten(lang, g, x)|)
    ensures FenceReplacement(s, i, i + |FenceWritten(lang, g, x)|) == FenceText(lang, x)
  {
    var w := i + 3 + |lang|;
    var h := w + |g|;
    var q := h + 10 + |x|;
    FencePieces(s, i, lang, g, x, w, h, q);
    HasAtSlice(s, i + 3, lang);
    HasAtSlice(s, h + 10, x);
    assert s[i + 3..w] == lang && s[h + 10..q] == x;
    FenceRuns(s, i, lang, g, x, w, h, q);
    FenceExact(s, i, w, h, q);
    assert FenceReplacement(s, i, q + 1) == FenceText(s[i + 3..w], s[h + 10..q]);
  }

  /** The landmarks of a fence match at `i`: the language ends at `w`, the whitespace at
      `h`, and the value at the closing quote `q`. */
  predicate FenceLaidOut(s: string, i: nat, w: nat, h: nat, q: nat) {
    && i + 3 < w < h && h + 10 < q < |s|
    && HasAt(s, i, "```") && HasAt(s, h, HlOpen) && s[q] == '"'
    && (forall k :: i + 3 <= k < w ==> IsWordChar(s[k]))
    && (forall k :: w <= k < h ==> IsSpace(s[k]))
    && (forall k :: h + 10 <= k < q ==> s[k] != '"')
  }

  lemma FenceExact(s: string, i: nat, w: nat, h: nat, q: nat)
    requires FenceLaidOut(s, i, w, h, q)
    ensures FenceAt(s, i) == Some(HlFence(w, h, q))
  {
    assert !IsWordChar(s[w]);
    SpanExact(s, i + 3, IsWordChar, w);
    HasAtChar(s, h, HlOpen, 0);
    SkipSpaceIsSpan(s, w);
    SpanExact(s, w, IsSpace, h);
    ValueExact(s, h, q);
  }

  /** The runs of a written fence. */
  lemma FenceRuns(s: string, i: nat, lang: string, g: string, x: string, w: nat, h: nat, q: nat)
    requires IsLanguage(lang) && g != [] && AllSpace(g) && x != [] && NoQuote(x)
    requires HasAt(s, i, FenceWritten(lang, g, x))
    requires w == i + 3 + |lang| && h == w + |g| && q == h + 10 + |x|
    ensures FenceLaidOut(s, i, w, h, q)
  {
    FencePieces(s, i, lang, g, x, w, h, q);
    HasAtSpace(s, w, g);
    ValueQuoteFree(s, h + 10, x);
    forall k | i + 3 <= k < w ensures IsWordChar(s[k]) {
      HasAtChar(s, i + 3, lang, k - i - 3);
    }
  }

  lemma FencePieces(s: string, i: nat, lang: string, g: string, x: string, w: nat, h: nat, q: nat)
    requires HasAt(s, i, FenceWritten(lang, g, x))
    requires w == i + 3 + |lang| && h == w + |g| && q == h + 10 + |x|
    ensures && HasAt(s, i, "```") && HasAt(s, i + 3, lang) && HasAt(s, w, g)
      && HasAt(s, h, HlOpen) && HasAt(s, h + 10, x) && q < |s| && s[q] == '"'
  {
    HasAtConcat(s, i, "```" + lang + g + HlOpen + x, "\"");
    HasAtConcat(s, i, "```" + lang + g + HlOpen, x);
    HasAtConcat(s, i, "```" + lang + g, HlOpen);
    HasAtConcat(s, i, "```" + lang, g);
    HasAtConcat(s, i, "```", lang);
    HasAtChar(s, i + 3 + |lang| + |g| + 10 + |x|, "\"", 0);
  }

  /** Everything the source rule recognises is a written fence: a word-character
      language, whitespace, and a non-empty quote-free value. */
  lemma FenceSound(s: string, i: nat)
    requires FenceAt(s, i).Some?
    ensures var f := FenceAt(s, i).value;
      && IsLanguage(s[i + 3..f.lang]) && s[f.lang..f.open] != [] && AllSpace(s[f.lang..f.open])
      && s[f.open + 10..f.quote] != [] && NoQuote(s[f.open + 10..f.quote])
      && HasAt(s, i, FenceWritten(s[i + 3..f.lang], s[f.lang..f.open], s[f.open + 10..f.quote]))
  {
    var f := FenceAt(s, i).value;
    FenceFound(s, i);
    FenceSlices(s, i, f.lang, f.open, f.quote);
  }

  /** What `FenceAt` finds is laid out as a fence. */
  lemma FenceFound(s: string, i: nat)
    requires FenceAt(s, i).Some?
    ensures var f := FenceAt(s, i).value; FenceLaidOut(s, i, f.lang, f.open, f.quote)
  {
    var f := FenceAt(s, i).value;
    SkipSpaceIsSpan(s, f.lang);
  }

  lemma FenceSlices(s: string, i: nat, w: nat, h: nat, q: nat)
    requires FenceLaidOut(s, i, w, h, q)
    ensures && IsLanguage(s[i + 3..w]) && s[w..h] != [] && AllSpace(s[w..h])
      && s[h + 10..q] != [] && NoQuote(s[h + 10..q])
      && HasAt(s, i, FenceWritten(s[i + 3..w], s[w..h], s[h + 10..q]))
  {
    var lang, g, x := s[i + 3..w], s[w..h], s[h + 10..q];
    SpaceSlice(s, w, h);
    SliceQuoteFree(s, h + 10, q);
    assert forall k :: 0 <= k < |lang| ==> lang[k] == s[i + 3 + k];
    HasAtSlice(s, i + 3, lang);
    HasAtSlice(s, w, g);
    HasAtSlice(s, h + 10, x);
    HasAtSingle(s, q, '"');
    JoinFence(s, i, lang, g, x);
  }

  lemma JoinFence(s: string, i: nat, lang: string, g: string, x: string)
    requires HasAt(s, i, "```") && HasAt(s, i + 3, lang) && HasAt(s, i + 3 + |lang|, g)
    requires HasAt(s, i + 3 + |lang| + |g|, HlOpen) && HasAt(s, i + 13 + |lang| + |g|, x)
    requires HasAt(s, i + 13 + |lang| + |g| + |x|, "\"")
    ensures HasAt(s, i, FenceWritten(lang, g, x))
  {
    HasAtJoin(s, i, "```", lang);
    HasAtJoin(s, i, "```" + lang, g);
    HasAtJoin(s, i, "```" + lang + g, HlOpen);
    HasAtJoin(s, i, "```" + lang + g + HlOpen, x);
    HasAtJoin(s, i, "```" + lang + g + HlOpen + x, "\"");
  }

  /** A fence whose language is missing, or does not start with a word character, is
      never the start of a match. */
  lemma NoLanguageNoMatch(s: string, i: nat)
    requires i + 3 == |s| || (i + 3 < |s| && !IsWordChar(s[i + 3]))
    ensures FenceAt(s, i).None?
  {
  }

  /** A source in which no ```` ``` ```` is followed by a word character is left as it
      is. */
  lemma NoLanguageUnchanged(src: string)
    requires forall i :: 0 <= i < |src| && HasAt(src, i, "```") ==> i + 3 == |src| || !IsWordChar(src[i + 3])
    ensures RewriteFences(src) == src
  {
    NoMatchUnchanged(src, FenceEnd, FenceReplacement);
  }

  /** The first fence with `hl_lines` is rewritten, and the text before it is copied. */
  lemma FirstFenceRewritten(src: string)
    requires FirstMatch(src, 0, FenceEnd).Some?
    ensures var i := FirstMatch(src, 0, FenceEnd).value;
      var f := FenceAt(src, i).value;
      RewriteFences(src) == src[..i] + FenceText(src[i + 3..f.lang], src[f.open + 10..f.quote])
        + ReplaceFrom(src, f.quote + 1, FenceEnd, FenceReplacement)
  {
    FirstThenRest(src, FenceEnd, FenceReplacement);
  }

  /** A written fence after text without backticks: the text is copied and the fence
      gets `{X}`. */
  lemma FenceRewritten(pre: string, lang: string, g: string, x: string, post: string)
    requires forall k :: 0 <= k < |pre| ==> pre[k] != '`'
    requires IsLanguage(lang) && g != [] && AllSpace(g) && x != [] && NoQuote(x)
    ensures var src := pre + FenceWritten(lang, g, x) + post;
      RewriteFences(src) == pre + FenceText(lang, x)
        + ReplaceFrom(src, |pre| + |FenceWritten(lang, g, x)|, FenceEnd, FenceReplacement)
  {
    var w := FenceWritten(lang, g, x);
    HasAtParts3(pre, w, post);
    assert |w| == |lang| + |g| + |x| + 14;
    FenceRewrittenAt(pre + w + post, pre, lang, g, x, post);
  }

  /** Text without backticks holds no fence match. */
  lemma NoFenceBefore(s: string, pre: string)
    requires HasAt(s, 0, pre) && forall k :: 0 <= k < |pre| ==> pre[k] != '`'
    ensures forall k :: 0 <= k < |pre| ==> !MatchesAt(FenceEnd, s, k)
  {
    forall k | 0 <= k < |pre| ensures !MatchesAt(FenceEnd, s, k) {
      HasAtChar(s, 0, pre, k);
      if HasAt(s, k, "```") {
        HasAtChar(s, k, "```", 0);
      }
    }
  }

  lemma FenceRewrittenAt(src: string, pre: string, lang: string, g: string, x: string, post: string)
    requires Around(src, pre, |lang| + |g| + |x| + 14, post) && HasAt(src, |pre|, FenceWritten(lang, g, x))
    requires forall k :: 0 <= k < |pre| ==> pre[k] != '`'
    requires IsLanguage(lang) && g != [] && AllSpace(g) && x != [] && NoQuote(x)
    ensures RewriteFences(src) == pre + FenceText(lang, x)
      + ReplaceFrom(src, |pre| + |FenceWritten(lang, g, x)|, FenceEnd, FenceReplacement)
  {
    var e := |pre| + |lang| + |g| + |x| + 14;
    FenceRecognised(src, |pre|, lang, g, x);
    NoFenceBefore(src, pre);
    FirstMatchAt(src, 0, FenceEnd, |pre|);
    FirstAt(src, FenceEnd, FenceReplacement, |pre|, e, FenceText(lang, x));
  }
}
