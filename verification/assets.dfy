/**
  Asset paths (docs/.vitepress/plugins/markdown/writerside/markdown-it-ws-assets.ts).
  A core rule that makes relative image paths absolute: the first `src` of an `image`
  token, and the `src` of every `<img>` tag in `html_block` and `html_inline` tokens,
  gets a leading `/` unless it is empty, an absolute URL, already rooted, an anchor or a
  data URI. The rule visits the top-level token list as it is, not the children of
  `inline` tokens.
 */
module Assets {
  import opened Strings
  import opened Rewrite
  import opened LazySearch
  import InlineLink

  type Token = InlineLink.Token

  /** `shouldPrependSlash`: a non-empty src that is not an absolute URL, not rooted,
      not an anchor and not a data URI. */
  predicate PrependsSlash(src: string) {
    && src != []
    && !StartsWith(src, "http://") && !StartsWith(src, "https://")
    && !StartsWith(src, "/") && !StartsWith(src, "#") && !StartsWith(src, "data:")
  }

  /** The src after the rule. A changed src is the old one behind a `/`, and it never
      needs another: the rule is idempotent. */
  function WithSlash(src: string): (r: string)
    ensures r != src <==> PrependsSlash(src)
    ensures r != src ==> r == "/" + src
    ensures !PrependsSlash(r)
  {
    if PrependsSlash(src) then "/" + src else src
  }

  // ---------------------------------------------------------------------------------
  // Image tokens

  /** The attribute at `k` is the first `src`. */
  predicate FirstSrc(attrs: seq<(string, string)>, k: nat) {
    k < |attrs| && attrs[k].0 == "src" && forall j :: 0 <= j < k ==> attrs[j].0 != "src"
  }

  /** The attributes of an `image` token after the rule: the loop stops at the first
      `src`, so only that one can change. */
  function SlashFirstSrc(attrs: seq<(string, string)>): (r: seq<(string, string)>)
    ensures |r| == |attrs|
    ensures forall k :: 0 <= k < |r| ==> r[k].0 == attrs[k].0
    ensures forall k :: 0 <= k < |r| ==> r[k].1 == if FirstSrc(attrs, k) then WithSlash(attrs[k].1) else attrs[k].1
  {
    if attrs == [] then []
    else if attrs[0].0 == "src" then
      FirstSrcAtHead(attrs);
      [("src", WithSlash(attrs[0].1))] + attrs[1..]
    else
      FirstSrcShift(attrs);
      [attrs[0]] + SlashFirstSrc(attrs[1..])
  }

  /** A `src` at the head is the first one, and no later one is. */
  lemma FirstSrcAtHead(attrs: seq<(string, string)>)
    requires attrs != [] && attrs[0].0 == "src"
    ensures FirstSrc(attrs, 0)
    ensures forall k :: 1 <= k < |attrs| ==> !FirstSrc(attrs, k)
  {
    forall k | 1 <= k < |attrs| ensures !FirstSrc(attrs, k) {
      assert attrs[0].0 == "src";
    }
  }

  /** Past a head that is not `src`, the first `src` is the first one of the tail. */
  lemma FirstSrcShift(attrs: seq<(string, string)>)
    requires attrs != [] && attrs[0].0 != "src"
    ensures !FirstSrc(attrs, 0)
    ensures forall k :: 1 <= k < |attrs| ==> (FirstSrc(attrs, k) <==> FirstSrc(attrs[1..], k - 1))
  {
    forall k | 1 <= k < |attrs| ensures FirstSrc(attrs, k) <==> FirstSrc(attrs[1..], k - 1) {
      assert forall j :: 1 <= j < k ==> attrs[j] == attrs[1..][j - 1];
    }
  }

  /** A second pass over the attributes of an image changes nothing. */
  lemma SlashFirstSrcIdempotent(attrs: seq<(string, string)>)
    ensures SlashFirstSrc(SlashFirstSrc(attrs)) == SlashFirstSrc(attrs)
  {
    var r := SlashFirstSrc(attrs);
    var r2 := SlashFirstSrc(r);
    forall k | 0 <= k < |r| ensures r2[k] == r[k] {
      assert FirstSrc(r, k) <==> FirstSrc(attrs, k);
    }
  }

  // ---------------------------------------------------------------------------------
  // `<img>` tags in HTML

  /** Where the pieces of an `<img>` match lie: `src=` at `name`, the value from
      `name + 5` to its closing quote at `close`, and the end of the match, just after
      the `>`. */
  datatype Img = Img(name: nat, close: nat, end: nat)

  /** `src=(["'])([^"']+)(\2[^>]*>)` at `b`, in any case. The value takes every
      character up to the next quote, which must be the opening one; the tag ends at the
      first `>` after it. */
  function SrcTail(s: string, b: nat): (r: Option<Img>)
    ensures r.Some? ==> r.value.name == b && b + 5 < r.value.close < r.value.end <= |s|
  {
    if !HasAtIgnoreCase(s, b, "src=") || b + 4 >= |s| || !InlineLink.IsQuote(s[b + 4]) then None
    else
      var q := Span(s, b + 5, InlineLink.NotQuote);
      if q == b + 5 || q == |s| || s[q] != s[b + 4] then None
      else
        var g := FindChar(s, '>', q + 1);
        if g < |s| then Some(Img(b, q, g + 1)) else None
  }

  /** The tail where the optional group `(?:[^>]*?\s+)` has put it: after a blank. */
  function GroupTail(s: string, n: nat): (r: Option<Img>)
    ensures r.Some? ==> 0 < n <= |s| && IsSpace(s[n - 1]) && r == SrcTail(s, n)
  {
    if 0 < n <= |s| && IsSpace(s[n - 1]) then SrcTail(s, n) else None
  }

  /** `<img\s+(?:[^>]*?\s+)?src=(["'])([^"']+)(\2[^>]*>)` at `i`, with the `i` flag.
      `\s+` takes the whole run of blanks after `<img`, up to `e`. The optional group is
      tried first: its lazy `[^>]*?` and greedy `\s+` put `src=` after a blank, at the
      first place past `e`, with no `>` before it, where the rest matches. Only when
      there is none does `src=` sit at `e`; giving back blanks of the first run only
      tries `e` again. */
  function ImgAt(s: string, i: nat): (r: Option<Img>)
    ensures r.Some? ==> i + 4 < r.value.name && r.value.name + 5 < r.value.close < r.value.end <= |s|
  {
    if !HasAtIgnoreCase(s, i, "<img") then None
    else
      var e := Span(s, i + 4, IsSpace);
      if e == i + 4 then None
      else
        var later := if e < |s| && s[e] != '>' then LazyUntil(s, e + 1, '>', GroupTail) else None;
        match later
        case Some(found) => Some(found.1)
        case None => SrcTail(s, e)
  }

  function ImgEnd(s: string, i: nat): (r: Option<nat>) {
    match ImgAt(s, i) case Some(m) => Some(m.end) case None => None
  }

  /** The value of the match `m`. */
  function Value(s: string, m: Img): string
    requires m.name + 5 <= m.close <= |s|
  {
    s[m.name + 5..m.close]
  }

  /** The replacement of the match at `j`: the text up to the value, a `/`, the value
      and the rest of the tag where the value needs the slash; the match otherwise. */
  function Prefixed(s: string, j: nat, m: Img): string
    requires j <= m.name + 5 <= m.close <= m.end <= |s|
  {
    if PrependsSlash(Value(s, m)) then s[j..m.name + 5] + "/" + Value(s, m) + s[m.close..m.end]
    else s[j..m.end]
  }

  function ImgReplacer(s: string, i: nat, e: nat): string {
    match ImgAt(s, i)
    case None => Slice(s, i, e)
    case Some(m) => if i <= m.end <= |s| then Prefixed(s, i, m) else Slice(s, i, e)
  }

  /** `token.content.replace(imgTagRegex, …)`. */
  function PrefixHtml(content: string): string {
    ReplaceAll(content, ImgEnd, ImgReplacer)
  }

  // ---------------------------------------------------------------------------------
  // The core rule

  /** `prefixImageSrcInTokens`: image tokens get their first `src` prefixed, HTML tokens
      their `<img>` tags; every other token, and every other part of these, is kept. */
  function PrefixImageSrc(tokens: seq<Token>): (r: seq<Token>)
    ensures |r| == |tokens|
    ensures forall k :: 0 <= k < |r| ==> r[k].kind == tokens[k].kind && r[k].children == tokens[k].children
    ensures forall k :: 0 <= k < |r| && tokens[k].kind == "image" ==>
      r[k].content == tokens[k].content && r[k].attrs == SlashFirstSrc(tokens[k].attrs)
    ensures forall k :: 0 <= k < |r| && (tokens[k].kind == "html_block" || tokens[k].kind == "html_inline") ==>
      r[k].attrs == tokens[k].attrs && r[k].content == PrefixHtml(tokens[k].content)
    ensures forall k :: 0 <= k < |r| && tokens[k].kind != "image" && tokens[k].kind != "html_block" && tokens[k].kind != "html_inline" ==>
      r[k] == tokens[k]
  {
    seq(|tokens|, k requires 0 <= k < |tokens| =>
      var t := tokens[k];
      if t.kind == "image" then t.(attrs := SlashFirstSrc(t.attrs))
      else if t.kind == "html_block" || t.kind == "html_inline" then t.(content := PrefixHtml(t.content))
      else t)
  }

  // ---------------------------------------------------------------------------------
  // Properties of the pattern

  /** The tail laid out at `b`: `src=` in any case, a quote, a quote-free value, the
      same quote, and the first `>` after it. */
  predicate SrcShape(s: string, b: nat, m: Img) {
    && m.name == b && b + 5 < m.close < m.end <= |s|
    && HasAtIgnoreCase(s, b, "src=") && InlineLink.IsQuote(s[b + 4])
    && (forall k :: b + 5 <= k < m.close ==> InlineLink.NotQuote(s[k]))
    && s[m.close] == s[b + 4]
    && s[m.end - 1] == '>' && (forall k :: m.close < k < m.end - 1 ==> s[k] != '>')
  }

  lemma SrcTailIff(s: string, b: nat, m: Img)
    ensures SrcTail(s, b) == Some(m) <==> SrcShape(s, b, m)
  {
    if SrcShape(s, b, m) {
      SpanExact(s, b + 5, InlineLink.NotQuote, m.close);
      FindCharExact(s, '>', m.close + 1, m.end - 1);
    }
  }

  /** What a match is: `<img` and a blank, then `src=` after a blank with no `>` since
      the tag name, and the tail there. */
  lemma ImgAtSound(s: string, i: nat, m: Img)
    requires ImgAt(s, i) == Some(m)
    ensures HasAtIgnoreCase(s, i, "<img") && IsSpace(s[i + 4])
    ensures i + 4 < m.name && IsSpace(s[m.name - 1]) && forall k :: i + 4 <= k < m.name ==> s[k] != '>'
    ensures SrcShape(s, m.name, m)
  {
    ImgAtParts(s, i, m);
    SrcTailIff(s, m.name, m);
  }

  /** `ImgAtSound`, with the tail still to be read. */
  lemma ImgAtParts(s: string, i: nat, m: Img)
    requires ImgAt(s, i) == Some(m)
    ensures HasAtIgnoreCase(s, i, "<img") && IsSpace(s[i + 4])
    ensures i + 4 < m.name && IsSpace(s[m.name - 1]) && forall k :: i + 4 <= k < m.name ==> s[k] != '>'
    ensures SrcTail(s, m.name) == Some(m)
  {
    var e := Span(s, i + 4, IsSpace);
    BlanksNoAngle(s, i + 4, e);
    if e < |s| && s[e] != '>' && LazyUntil(s, e + 1, '>', GroupTail).Some? {
      LaterSrc(s, e, LazyUntil(s, e + 1, '>', GroupTail).value.0, m);
    }
  }

  lemma BlanksNoAngle(s: string, a: nat, e: nat)
    requires a <= e <= |s| && forall k :: a <= k < e ==> IsSpace(s[k])
    ensures forall k :: a <= k < e ==> s[k] != '>'
  {
  }

  /** A `src=` found past the first run of blanks. */
  lemma LaterSrc(s: string, e: nat, n: nat, m: Img)
    requires e < |s| && s[e] != '>'
    requires LazyUntil(s, e + 1, '>', GroupTail) == Some((n, m))
    ensures e < m.name && IsSpace(s[m.name - 1]) && SrcTail(s, m.name) == Some(m)
    ensures forall k :: e <= k < m.name ==> s[k] != '>'
  {
    LaterSrcAt(s, e, n, m);
    LaterSrcClear(s, e, n, m);
  }

  lemma LaterSrcAt(s: string, e: nat, n: nat, m: Img)
    requires e < |s| && LazyUntil(s, e + 1, '>', GroupTail) == Some((n, m))
    ensures e < m.name && IsSpace(s[m.name - 1]) && SrcTail(s, m.name) == Some(m)
  {
    var tail: (string, nat) -> Option<Img> := GroupTail;
    LazyUntilFound(s, e + 1, '>', tail, n, m);
    assert GroupTail(s, n) == Some(m);
    FoundAfterBlank(s, n, m);
  }

  lemma LaterSrcClear(s: string, e: nat, n: nat, m: Img)
    requires e < |s| && s[e] != '>' && LazyUntil(s, e + 1, '>', GroupTail) == Some((n, m))
    ensures n == m.name && forall k :: e <= k < m.name ==> s[k] != '>'
  {
    var tail: (string, nat) -> Option<Img> := GroupTail;
    LazyUntilFound(s, e + 1, '>', tail, n, m);
    assert GroupTail(s, n) == Some(m);
    FoundAfterBlank(s, n, m);
    NoAngleFrom(s, e, n);
  }

  lemma NoAngleFrom(s: string, e: nat, n: nat)
    requires e < n <= |s| && s[e] != '>' && forall k :: e + 1 <= k < n ==> s[k] != '>'
    ensures forall k :: e <= k < n ==> s[k] != '>'
  {
  }

  lemma FoundAfterBlank(s: string, n: nat, m: Img)
    requires GroupTail(s, n) == Some(m)
    ensures 0 < n <= |s| && IsSpace(s[n - 1]) && SrcTail(s, n) == Some(m) && m.name == n
  {
  }

  /** `t` holds no `src=`, in any case. */
  predicate NoSrc(t: string) {
    forall k :: 0 <= k <= |t| ==> !HasAtIgnoreCase(t, k, "src=")
  }

  /** The head of a written tag: `<img`, blanks, `src=` and the opening quote. */
  function ImgHead(g: string, q: char): string {
    "<img" + g + "src=" + [q]
  }

  /** The rest of a written tag: the closing quote, the other attributes and `>`. */
  function ImgRest(q: char, r: string): string {
    [q] + r + ">"
  }

  /** An `<img>` tag as it can be written, with the value `v`. */
  function ImgText(g: string, q: char, v: string, r: string): string {
    ImgHead(g, q) + v + ImgRest(q, r)
  }

  /** Non-empty blanks, a quote, a non-empty quote-free value, other attributes without
      `>`, and no second `src=` in the value or the other attributes. */
  predicate WrittenImg(g: string, q: char, v: string, r: string) {
    && g != [] && AllSpace(g) && InlineLink.IsQuote(q)
    && v != [] && (forall k :: 0 <= k < |v| ==> InlineLink.NotQuote(v[k]))
    && (forall k :: 0 <= k < |r| ==> r[k] != '>')
    && NoSrc(v) && NoSrc(r)
  }

  /** An exact occurrence is one in any case. */
  lemma ExactIgnoringCase(s: string, i: nat, p: string)
    requires HasAt(s, i, p)
    ensures HasAtIgnoreCase(s, i, p)
  {
    forall k | 0 <= k < |p| ensures SameIgnoringCase(s[i + k], p[k]) {
      assert s[i + k] == p[k];
    }
  }

  /** An occurrence inside a piece of the text is one in the piece. */
  lemma IgnoreCaseWithin(s: string, x: nat, t: string, k: nat, p: string)
    requires HasAt(s, x, t)
    ensures x <= k && k + |p| <= x + |t| && HasAtIgnoreCase(s, k, p) ==> HasAtIgnoreCase(t, k - x, p)
  {
    if x <= k && k + |p| <= x + |t| && HasAtIgnoreCase(s, k, p) {
      forall j | 0 <= j < |p| ensures SameIgnoringCase(t[k - x + j], p[j]) {
        assert s[k + j] == t[k - x + j];
      }
    }
  }

  /** `src=` covers no quote and no `>`. */
  lemma SrcCovers(s: string, k: nat, p: nat)
    ensures k <= p < k + 4 && HasAtIgnoreCase(s, k, "src=") ==> !InlineLink.IsQuote(s[p]) && s[p] != '>'
  {
    if k <= p < k + 4 && HasAtIgnoreCase(s, k, "src=") {
      assert SameIgnoringCase(s[k + (p - k)], "src="[p - k]);
    }
  }

  /** Where the pieces of a written tag sit, for the tag at `i` with `src=` at `n`
      and the closing quote at `c`. */
  lemma ImgPieces(s: string, i: nat, g: string, q: char, v: string, r: string, n: nat, c: nat)
    requires HasAt(s, i, ImgText(g, q, v, r))
    requires n == i + 4 + |g| && c == n + 5 + |v|
    ensures HasAt(s, i, "<img") && HasAt(s, i + 4, g) && HasAt(s, n, "src=")
    ensures s[n + 4] == q && HasAt(s, n + 5, v) && s[c] == q && HasAt(s, c + 1, r) && s[c + 1 + |r|] == '>'
  {
    HasAtConcat(s, i, ImgHead(g, q) + v, ImgRest(q, r));
    HasAtConcat(s, i, ImgHead(g, q), v);
    HasAtConcat(s, i, "<img" + g + "src=", [q]);
    HasAtConcat(s, i, "<img" + g, "src=");
    HasAtConcat(s, i, "<img", g);
    HasAtChar(s, n + 4, [q], 0);
    HasAtConcat(s, c, [q] + r, ">");
    HasAtConcat(s, c, [q], r);
    HasAtChar(s, c, [q], 0);
    HasAtChar(s, c + 1 + |r|, ">", 0);
  }

  /** Past the written `src=`, no other `src=` starts before the `>`. */
  lemma NoLaterSrc(s: string, n: nat, v: string, r: string, k: nat)
    requires HasAt(s, n + 5, v) && HasAt(s, n + 6 + |v|, r) && NoSrc(v) && NoSrc(r)
    requires n + 6 + |v| + |r| < |s| && s[n + 6 + |v| + |r|] == '>'
    requires InlineLink.IsQuote(s[n + 4]) && InlineLink.IsQuote(s[n + 5 + |v|])
    requires n < k <= n + 6 + |v| + |r|
    ensures !HasAtIgnoreCase(s, k, "src=")
  {
    SrcCovers(s, k, n + 4);
    SrcCovers(s, k, n + 5 + |v|);
    SrcCovers(s, k, n + 6 + |v| + |r|);
    IgnoreCaseWithin(s, n + 5, v, k, "src=");
    IgnoreCaseWithin(s, n + 6 + |v|, r, k, "src=");
  }

  /** The tail of a written tag is found where it is written. */
  lemma WrittenTail(s: string, n: nat, v: string, r: string, m: Img)
    requires HasAtIgnoreCase(s, n, "src=") && HasAt(s, n + 5, v) && HasAt(s, n + 6 + |v|, r)
    requires v != [] && (forall k :: 0 <= k < |v| ==> InlineLink.NotQuote(v[k]))
    requires forall k :: 0 <= k < |r| ==> r[k] != '>'
    requires n + 6 + |v| + |r| < |s| && s[n + 6 + |v| + |r|] == '>'
    requires InlineLink.IsQuote(s[n + 4]) && s[n + 5 + |v|] == s[n + 4]
    requires m == Img(n, n + 5 + |v|, n + 7 + |v| + |r|)
    ensures SrcTail(s, n) == Some(m)
  {
    forall k | n + 5 <= k < m.close ensures InlineLink.NotQuote(s[k]) {
      HasAtChar(s, n + 5, v, k - n - 5);
    }
    forall k | m.close < k < m.end - 1 ensures s[k] != '>' {
      HasAtChar(s, n + 6 + |v|, r, k - n - 6 - |v|);
    }
    SrcTailIff(s, n, m);
  }

  /** Every written tag is recognised, with `src=` where it is written. */
  lemma ImgRecognised(s: string, i: nat, g: string, q: char, v: string, r: string)
    requires WrittenImg(g, q, v, r) && HasAt(s, i, ImgText(g, q, v, r))
    ensures ImgAt(s, i) == Some(Img(i + 4 + |g|, i + 9 + |g| + |v|, i + |ImgText(g, q, v, r)|))
  {
    var n := i + 4 + |g|;
    var c := n + 5 + |v|;
    var m := Img(n, c, n + 7 + |v| + |r|);
    ImgPieces(s, i, g, q, v, r, n, c);
    ExactIgnoringCase(s, i, "<img");
    ExactIgnoringCase(s, n, "src=");
    HasAtSpace(s, i + 4, g);
    HasAtChar(s, n, "src=", 0);
    SpanExact(s, i + 4, IsSpace, n);
    WrittenTail(s, n, v, r, m);
    NoLaterTail(s, n, v, r);
    ImgAtFirstBlanks(s, i, n, m);
  }

  /** No tail after a blank is found past the written `src=`. */
  lemma NoLaterTail(s: string, n: nat, v: string, r: string)
    requires HasAt(s, n + 5, v) && HasAt(s, n + 6 + |v|, r) && NoSrc(v) && NoSrc(r)
    requires n + 6 + |v| + |r| < |s| && s[n + 6 + |v| + |r|] == '>'
    requires InlineLink.IsQuote(s[n + 4]) && InlineLink.IsQuote(s[n + 5 + |v|])
    ensures LazyUntil(s, n + 1, '>', GroupTail).None?
  {
    var tail: (string, nat) -> Option<Img> := GroupTail;
    forall k | n + 1 <= k <= n + 6 + |v| + |r| ensures tail(s, k).None? {
      NoLaterSrc(s, n, v, r, k);
      assert GroupTail(s, k).None?;
    }
    LazyUntilStops(s, n + 1, '>', tail, n + 6 + |v| + |r|);
  }

  /** With no later `src=`, the match has it right after the first run of blanks. */
  lemma ImgAtFirstBlanks(s: string, i: nat, n: nat, m: Img)
    requires HasAtIgnoreCase(s, i, "<img") && i + 4 < n < |s| && Span(s, i + 4, IsSpace) == n && s[n] != '>'
    requires LazyUntil(s, n + 1, '>', GroupTail).None? && SrcTail(s, n) == Some(m)
    ensures ImgAt(s, i) == Some(m)
  {
  }

  // ---------------------------------------------------------------------------------
  // Properties of the HTML pass

  /** The tag at `j`, if any, has a value that needs no slash. */
  predicate KeptImgAt(s: string, j: nat) {
    match ImgAt(s, j)
    case None => true
    case Some(m) => !PrependsSlash(Value(s, m))
  }

  /** Where no `<img>` value needs a slash, the HTML is left as it is. */
  lemma ImgsKept(content: string)
    requires forall j :: 0 <= j < |content| ==> KeptImgAt(content, j)
    ensures PrefixHtml(content) == content
  {
    forall j | 0 <= j < |content| && MatchesAt(ImgEnd, content, j)
      ensures ImgReplacer(content, j, ImgEnd(content, j).value) == content[j..ImgEnd(content, j).value]
    {
      assert KeptImgAt(content, j);
    }
    KeepingUnchanged(content, 0, ImgEnd, ImgReplacer);
  }

  /** A value that needs the slash gets it in place: the text before the value, with
      the opening quote, is kept, then `/` and the value, then the closing quote and the
      rest of the tag. */
  lemma ImgPrefixedInPlace(s: string, j: nat, m: Img)
    requires j <= m.name + 5 <= m.close <= m.end <= |s| && PrependsSlash(Value(s, m))
    ensures |Prefixed(s, j, m)| == m.end - j + 1
    ensures HasAt(Prefixed(s, j, m), 0, s[j..m.name + 5])
    ensures Prefixed(s, j, m)[m.name + 5 - j] == '/'
    ensures HasAt(Prefixed(s, j, m), m.name + 6 - j, Value(s, m))
    ensures HasAt(Prefixed(s, j, m), m.close + 1 - j, s[m.close..m.end])
  {
    var x := s[j..m.name + 5];
    var z := s[m.close..m.end];
    var p := Prefixed(s, j, m);
    assert p == (x + "/") + Value(s, m) + z;
    HasAtParts3(x + "/", Value(s, m), z);
    HasAtConcat(p, 0, x, "/");
    HasAtChar(p, |x|, "/", 0);
  }

  /** A single written tag comes out with the value after the rule, and its quote and
      other attributes as they were. */
  lemma ImgTagRewritten(g: string, q: char, v: string, r: string)
    requires WrittenImg(g, q, v, r)
    ensures PrefixHtml(ImgText(g, q, v, r)) == ImgText(g, q, WithSlash(v), r)
  {
    var t := ImgText(g, q, v, r);
    var m := Img(4 + |g|, 9 + |g| + |v|, |t|);
    HasAtSlice(t, 0, t);
    ImgRecognised(t, 0, g, q, v, r);
    assert ImgAt(t, 0) == Some(m);
    FirstMatchAt(t, 0, ImgEnd, 0);
    var p := Prefixed(t, 0, m);
    assert ImgReplacer(t, 0, |t|) == p;
    FirstAt(t, ImgEnd, ImgReplacer, 0, |t|, p);
    assert ReplaceFrom(t, |t|, ImgEnd, ImgReplacer) == [];
    PrefixedText(g, q, v, r, m);
  }

  /** The replacement of a whole written tag is the tag written with the value after
      the rule. */
  lemma PrefixedText(g: string, q: char, v: string, r: string, m: Img)
    requires m == Img(4 + |g|, 9 + |g| + |v|, |ImgText(g, q, v, r)|)
    ensures Prefixed(ImgText(g, q, v, r), 0, m) == ImgText(g, q, WithSlash(v), r)
  {
    var t := ImgText(g, q, v, r);
    var h := ImgHead(g, q);
    HasAtParts3(h, v, ImgRest(q, r));
    HasAtSlice(t, |h|, v);
    assert Value(t, m) == v;
    if PrependsSlash(v) {
      assert t[0..m.name + 5] == h;
      assert t[m.close..m.end] == ImgRest(q, r);
      assert h + "/" + v + ImgRest(q, r) == h + ("/" + v) + ImgRest(q, r);
    } else {
      assert t[0..m.end] == t;
    }
  }

  /** A second pass over a written tag changes nothing. */
  lemma ImgTagIdempotent(g: string, q: char, v: string, r: string)
    requires WrittenImg(g, q, v, r)
    ensures PrefixHtml(PrefixHtml(ImgText(g, q, v, r))) == PrefixHtml(ImgText(g, q, v, r))
  {
    ImgTagRewritten(g, q, v, r);
    SlashStillWritten(v);
    ImgTagRewritten(g, q, WithSlash(v), r);
  }

  /** The value after the rule is still a value a tag can be written with. */
  lemma SlashStillWritten(v: string)
    requires v != [] && (forall k :: 0 <= k < |v| ==> InlineLink.NotQuote(v[k])) && NoSrc(v)
    ensures var w := WithSlash(v); w != [] && (forall k :: 0 <= k < |w| ==> InlineLink.NotQuote(w[k])) && NoSrc(w)
  {
    var w := "/" + v;
    HasAtParts("/", v);
    forall k | 0 <= k <= |w| ensures !HasAtIgnoreCase(w, k, "src=") {
      if k == 0 {
        assert !SameIgnoringCase(w[0 + 0], "src="[0]);
      } else {
        IgnoreCaseWithin(w, 1, v, k, "src=");
      }
    }
    forall k | 0 <= k < |w| ensures InlineLink.NotQuote(w[k]) {
      if k > 0 {
        assert w[k] == v[k - 1];
      }
    }
  }
}
