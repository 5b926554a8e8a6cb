/**
  MkDocs admonitions: a `!!! type "Title"` line followed by lines indented four spaces
  deeper becomes a VitePress `::: type Title` container
  (docs/.vitepress/plugins/markdown/mkdocs/markdown-it-mk-admonitions.ts).

  `toLowerCase` is Unicode-aware in JavaScript; it is a parameter here.
 */
module Admonitions {
  import opened Strings

  // ---------------------------------------------------------------------------------
  // The header pattern  ^(\s*)!!!\s+(\S+)(?:\s+"([^"]*)")?\s*$

  predicate NonSpaceRun(s: string) {
    s != [] && forall k :: 0 <= k < |s| ==> NotSpace(s[k])
  }

  /** A header with a quoted title. */
  predicate TitledShape(line: string, lead: string, g1: string, kind: string, g2: string, title: string, tail: string) {
    && line == lead + "!!!" + g1 + kind + g2 + "\"" + title + "\"" + tail
    && AllSpace(lead) && AllSpace(g1) && g1 != [] && NonSpaceRun(kind)
    && AllSpace(g2) && g2 != [] && '"' !in title && AllSpace(tail)
  }

  /** A header without a title. */
  predicate BareShape(line: string, lead: string, g1: string, kind: string, tail: string) {
    && line == lead + "!!!" + g1 + kind + tail
    && AllSpace(lead) && AllSpace(g1) && g1 != [] && NonSpaceRun(kind) && AllSpace(tail)
  }

  datatype Header = Header(lead: string, kind: string, title: string)

  /** `line` is a titled header with these parts. */
  ghost predicate IsTitled(line: string, h: Header) {
    exists g1, g2, tail :: TitledShape(line, h.lead, g1, h.kind, g2, h.title, tail)
  }

  /** `line` is a header without a title with these parts. */
  ghost predicate IsBare(line: string, h: Header) {
    h.title == [] && exists g1, tail :: BareShape(line, h.lead, g1, h.kind, tail)
  }

  /** The landmarks of `^(\s*)!!!\s+(\S+)`: the indentation ends at `a`, the gap after
      `!!!` at `t` and the type at `e`, which is followed by whitespace or the end. */
  predicate HeadAt(line: string, a: nat, t: nat, e: nat) {
    && a + 3 < t < e <= |line|
    && AllSpace(line[..a]) && line[a..a + 3] == "!!!"
    && AllSpace(line[a + 3..t]) && NonSpaceRun(line[t..e])
    && (e == |line| || IsSpace(line[e]))
  }

  datatype Head = Head(a: nat, t: nat, e: nat)

  /** The head of a header line, if the line starts like one. */
  function ScanHead(line: string): (r: Option<Head>)
    ensures r.Some? ==> HeadAt(line, r.value.a, r.value.t, r.value.e)
  {
    var a := Span(line, 0, IsSpace);
    if !HasAt(line, a, "!!!") then None
    else
      var t := Span(line, a + 3, IsSpace);
      var e := Span(line, t, NotSpace);
      if t == a + 3 || e == t then None
      else
        SpaceSlice(line, 0, a);
        SpaceSlice(line, a + 3, t);
        assert NonSpaceRun(line[t..e]) by {
          assert forall k :: 0 <= k < e - t ==> line[t..e][k] == line[t + k];
        }
        Some(Head(a, t, e))
  }

  /** What follows the type: an optional `\s+"([^"]*)"`, then only whitespace. */
  function ParseTail(line: string, h: Head): (r: Option<Header>)
    requires HeadAt(line, h.a, h.t, h.e)
  {
    var u := Span(line, h.e, IsSpace);
    var q := if u < |line| then FindChar(line, '"', u + 1) else |line|;
    if h.e < u < q < |line| && line[u] == '"' && AllSpace(line[q + 1..]) then
      Some(Header(line[..h.a], line[h.t..h.e], line[u + 1..q]))
    else if AllSpace(line[h.e..]) then
      Some(Header(line[..h.a], line[h.t..h.e], []))
    else None
  }

  /** The header's indentation, its type (the whole run of non-space characters after
      `!!!` and whitespace) and its title, empty when there is none. */
  function ParseAdmonition(line: string): (r: Option<Header>)
    ensures r.Some? ==> r.value.kind != [] && StartsWith(line, r.value.lead) && AllSpace(r.value.lead)
  {
    match ScanHead(line)
    case None => None
    case Some(h) => ParseTail(line, h)
  }

  /** Whatever the parser accepts has one of the two header shapes, and the parts it
      returns are the parts of that shape. */
  lemma ParseSound(line: string)
    requires ParseAdmonition(line).Some?
    ensures IsTitled(line, ParseAdmonition(line).value) || IsBare(line, ParseAdmonition(line).value)
  {
    var hd := ScanHead(line).value;
    var (a, t, e) := (hd.a, hd.t, hd.e);
    var u := Span(line, e, IsSpace);
    var q := if u < |line| then FindChar(line, '"', u + 1) else |line|;
    var r := ParseAdmonition(line).value;
    if e < u < q < |line| && line[u] == '"' && AllSpace(line[q + 1..]) {
      assert r == Header(line[..a], line[t..e], line[u + 1..q]);
      SpaceSlice(line, e, u);
      TitledPieces(line, a, t, e, u, q);
      assert IsTitled(line, r);
    } else {
      assert r == Header(line[..a], line[t..e], []);
      BarePieces(line, a, t, e);
      assert IsBare(line, r);
    }
  }

  lemma TitledPieces(line: string, a: nat, t: nat, e: nat, u: nat, q: nat)
    requires a + 3 < t < e < u < q < |line|
    requires HasAt(line, a, "!!!") && line[u] == '"' && line[q] == '"'
    requires AllSpace(line[..a]) && AllSpace(line[a + 3..t]) && NonSpaceRun(line[t..e])
    requires AllSpace(line[e..u]) && AllSpace(line[q + 1..])
    requires forall k :: u + 1 <= k < q ==> line[k] != '"'
    ensures IsTitled(line, Header(line[..a], line[t..e], line[u + 1..q]))
  {
    assert line[a..a + 3] == "!!!";
    assert line == line[..a] + line[a..a + 3] + line[a + 3..t] + line[t..e] + line[e..u]
      + [line[u]] + line[u + 1..q] + [line[q]] + line[q + 1..];
    assert TitledShape(line, line[..a], line[a + 3..t], line[t..e], line[e..u], line[u + 1..q], line[q + 1..]);
  }

  lemma BarePieces(line: string, a: nat, t: nat, e: nat)
    requires a + 3 < t < e <= |line|
    requires HasAt(line, a, "!!!")
    requires AllSpace(line[..a]) && AllSpace(line[a + 3..t]) && NonSpaceRun(line[t..e]) && AllSpace(line[e..])
    ensures IsBare(line, Header(line[..a], line[t..e], []))
  {
    assert line[a..a + 3] == "!!!";
    assert line == line[..a] + line[a..a + 3] + line[a + 3..t] + line[t..e] + line[e..];
    assert BareShape(line, line[..a], line[a + 3..t], line[t..e], line[e..]);
  }

  /** The head scanner finds exactly the landmarks a header line has. */
  lemma HeaderLandmarks(line: string, a: nat, t: nat, e: nat)
    requires HeadAt(line, a, t, e)
    ensures ScanHead(line) == Some(Head(a, t, e))
  {
    assert line[a] == line[a..a + 3][0];
    forall k | 0 <= k < a ensures IsSpace(line[k]) { assert line[k] == line[..a][k]; }
    SpanExact(line, 0, IsSpace, a);
    assert line[t] == line[t..e][0];
    forall k | a + 3 <= k < t ensures IsSpace(line[k]) { assert line[k] == line[a + 3..t][k - a - 3]; }
    SpanExact(line, a + 3, IsSpace, t);
    forall k | t <= k < e ensures NotSpace(line[k]) { assert line[k] == line[t..e][k - t]; }
    SpanExact(line, t, NotSpace, e);
  }

  /** The pieces of `lead + "!!!" + g1 + kind + rest` by position. */
  lemma HeadPieces(line: string, lead: string, g1: string, kind: string, rest: string)
    requires line == lead + "!!!" + g1 + kind + rest
    ensures var a, t := |lead|, |lead| + 3 + |g1|;
      var n := t + |kind|;
      && n <= |line|
      && line[..a] == lead && line[a..a + 3] == "!!!" && line[a + 3..t] == g1
      && line[t..n] == kind && line[n..] == rest
  {
  }

  /** A line with the landmarks of a titled header parses to them. */
  lemma TitledParse(line: string, a: nat, t: nat, e: nat, u: nat, q: nat)
    requires a + 3 < t < e < u < q < |line|
    requires AllSpace(line[..a]) && line[a..a + 3] == "!!!"
    requires AllSpace(line[a + 3..t]) && NonSpaceRun(line[t..e])
    requires AllSpace(line[e..u]) && line[u] == '"' && line[q] == '"' && AllSpace(line[q + 1..])
    requires forall k :: u + 1 <= k < q ==> line[k] != '"'
    ensures ParseAdmonition(line) == Some(Header(line[..a], line[t..e], line[u + 1..q]))
  {
    assert line[e] == line[e..u][0];
    HeaderLandmarks(line, a, t, e);
    forall k | e <= k < u ensures IsSpace(line[k]) { assert line[k] == line[e..u][k - e]; }
    SpanExact(line, e, IsSpace, u);
    FindCharExact(line, '"', u + 1, q);
  }

  /** Every titled header is recognised with its indentation, type and title. */
  lemma ParseTitledComplete(line: string, lead: string, g1: string, kind: string, g2: string, title: string, tail: string)
    requires TitledShape(line, lead, g1, kind, g2, title, tail)
    ensures ParseAdmonition(line) == Some(Header(lead, kind, title))
  {
    var a, t := |lead|, |lead| + 3 + |g1|;
    var e := t + |kind|;
    var u := e + |g2|;
    var q := u + 1 + |title|;
    var rest := g2 + "\"" + title + "\"" + tail;
    assert line == lead + "!!!" + g1 + kind + rest;
    HeadPieces(line, lead, g1, kind, rest);
    assert line[e..] == rest;
    assert line[e..u] == g2 && line[u] == '"' && line[u + 1..q] == title && line[q] == '"' && line[q + 1..] == tail by {
      assert rest[..|g2|] == g2;
      assert rest[|g2|] == '"';
      assert rest[|g2| + 1..|g2| + 1 + |title|] == title;
      assert rest[|g2| + 1 + |title|] == '"';
      assert rest[|g2| + 2 + |title|..] == tail;
    }
    forall k | u + 1 <= k < q ensures line[k] != '"' { assert line[k] == title[k - u - 1]; }
    TitledParse(line, a, t, e, u, q);
  }

  /** Every header without a title is recognised, with an empty title. */
  lemma ParseBareComplete(line: string, lead: string, g1: string, kind: string, tail: string)
    requires BareShape(line, lead, g1, kind, tail)
    ensures ParseAdmonition(line) == Some(Header(lead, kind, []))
  {
    var a, t := |lead|, |lead| + 3 + |g1|;
    HeadPieces(line, lead, g1, kind, tail);
    BareParse(line, a, t, t + |kind|);
  }

  /** A line with the landmarks of a header without a title parses to them. */
  lemma BareParse(line: string, a: nat, t: nat, e: nat)
    requires a + 3 < t < e <= |line|
    requires AllSpace(line[..a]) && line[a..a + 3] == "!!!"
    requires AllSpace(line[a + 3..t]) && NonSpaceRun(line[t..e]) && AllSpace(line[e..])
    ensures ParseAdmonition(line) == Some(Header(line[..a], line[t..e], []))
  {
    assert e == |line| || IsSpace(line[e]) by {
      if e < |line| { assert line[e] == line[e..][0]; }
    }
    HeaderLandmarks(line, a, t, e);
    forall k | e <= k < |line| ensures IsSpace(line[k]) { assert line[k] == line[e..][k - e]; }
    SpanExact(line, e, IsSpace, |line|);
  }

  // ---------------------------------------------------------------------------------
  // Type and title

  /** The container type and title a header gives: `注意` becomes `note`, titled `注意`
      unless a title is given; any other type is lower-cased. */
  function KindAndTitle(h: Header, lower: string -> string): (string, string) {
    if h.kind == "注意" then ("note", if h.title == [] then "注意" else h.title)
    else (lower(h.kind), h.title)
  }

  /** The opening line: `::: type`, then a space and the trimmed title when the title is
      not empty. */
  function OpenLine(lead: string, kind: string, title: string): string {
    lead + "::: " + kind + (if title != [] then " " + Trim(title) else [])
  }

  // ---------------------------------------------------------------------------------
  // Content

  function Indent4(lead: string): string {
    lead + "    "
  }

  predicate IsContent(line: string, lead: string) {
    StartsWith(line, Indent4(lead))
  }

  predicate IsBlankUnder(line: string, lead: string) {
    Trim(line) == [] && StartsWith(line, lead)
  }

  /** What a captured line contributes: a content line without its `lead + "    "`
      prefix, a blank line as an empty line. */
  function Captured(line: string, lead: string): string {
    if IsContent(line, lead) then line[|Indent4(lead)|..] else []
  }

  /** The end of the content scan from line `j`, given whether content was already found.
      Content lines are captured; a blank line under the header is captured when the next
      line is content or content has started; anything else ends the scan. */
  function ContentEnd(lines: seq<string>, j: nat, lead: string, has: bool): (e: nat)
    requires j <= |lines|
    ensures j <= e <= |lines|
    ensures forall k :: j <= k < e ==> IsContent(lines[k], lead) || IsBlankUnder(lines[k], lead)
    ensures !has && e > j ==> exists k :: j <= k < e && IsContent(lines[k], lead)
    decreases |lines| - j
  {
    if j == |lines| then j
    else if IsContent(lines[j], lead) then ContentEnd(lines, j + 1, lead, true)
    else if IsBlankUnder(lines[j], lead) then
      if j + 1 < |lines| && IsContent(lines[j + 1], lead) then ContentEnd(lines, j + 1, lead, true)
      else if has then ContentEnd(lines, j + 1, lead, true)
      else j
    else j
  }

  /** The captured content of `lines[j..e]`. */
  function Content(lines: seq<string>, j: nat, e: nat, lead: string): (r: seq<string>)
    requires j <= e <= |lines|
    ensures |r| == e - j
    ensures forall k :: 0 <= k < e - j ==> r[k] == Captured(lines[j + k], lead)
  {
    seq(e - j, k requires 0 <= k < e - j => Captured(lines[j + k], lead))
  }

  // ---------------------------------------------------------------------------------
  // Dangling fences

  predicate IsFence(line: string) {
    var t := Trim(line);
    StartsWith(t, "```") || StartsWith(t, "~~~")
  }

  /** Which lines of `content` are fences. */
  function FenceFlags(content: seq<string>): (r: seq<bool>)
    ensures |r| == |content|
    ensures forall k :: 0 <= k < |content| ==> r[k] == IsFence(content[k])
  {
    seq(|content|, k requires 0 <= k < |content| => IsFence(content[k]))
  }

  /** The number of `true` entries. */
  function CountTrue(bs: seq<bool>): nat {
    if bs == [] then 0
    else CountTrue(bs[..|bs| - 1]) + (if bs[|bs| - 1] then 1 else 0)
  }

  function FenceCount(content: seq<string>): nat {
    CountTrue(FenceFlags(content))
  }

  /** An odd number of fence lines whose last line is a fence loses that last line. */
  function FixFences(content: seq<string>): seq<string> {
    var flags := FenceFlags(content);
    if CountTrue(flags) % 2 != 0 && content != [] && flags[|content| - 1]
    then content[..|content| - 1]
    else content
  }

  /** Dropping the last line drops its flag. */
  lemma FlagsPrefix(content: seq<string>)
    requires content != []
    ensures FenceFlags(content[..|content| - 1]) == FenceFlags(content)[..|content| - 1]
  {
  }

  /** A dangling last fence is dropped, and what is left has an even number of fences. */
  lemma DropDangling(content: seq<string>)
    requires content != [] && FenceCount(content) % 2 == 1 && IsFence(content[|content| - 1])
    ensures FixFences(content) == content[..|content| - 1]
    ensures FenceCount(content[..|content| - 1]) % 2 == 0
  {
    FlagsPrefix(content);
    ParityDrop(FenceFlags(content));
  }

  /** Dropping a last `true` from an odd count leaves an even one. */
  lemma ParityDrop(bs: seq<bool>)
    requires bs != [] && CountTrue(bs) % 2 == 1 && bs[|bs| - 1]
    ensures CountTrue(bs[..|bs| - 1]) % 2 == 0
  {
  }

  /** The fix-up drops nothing but a dangling last fence, and leaves an even number of
      fences whenever it drops one. */
  lemma FixFencesEffect(content: seq<string>)
    ensures var r := FixFences(content);
      && (r == content || (content != [] && r == content[..|content| - 1]))
      && (r != content <==> content != [] && FenceCount(content) % 2 == 1 && IsFence(content[|content| - 1]))
      && (r != content ==> FenceCount(r) % 2 == 0)
  {
    var n := |content|;
    if content != [] && FenceCount(content) % 2 == 1 && IsFence(content[n - 1]) {
      DropDangling(content);
      assert |content[..n - 1]| < n;
    } else {
      assert FixFences(content) == content;
    }
  }

  // ---------------------------------------------------------------------------------
  // The rule

  /** A source line with the result of the header pattern on it. */
  datatype Line = Line(raw: string, header: Option<Header>)

  function Classify(lines: seq<string>): (r: seq<Line>)
    ensures |r| == |lines|
    ensures forall k :: 0 <= k < |lines| ==> r[k] == Line(lines[k], ParseAdmonition(lines[k]))
  {
    seq(|lines|, k requires 0 <= k < |lines| => Line(lines[k], ParseAdmonition(lines[k])))
  }

  function Raws(ls: seq<Line>): (r: seq<string>)
    ensures |r| == |ls|
    ensures forall k :: 0 <= k < |ls| ==> r[k] == ls[k].raw
  {
    seq(|ls|, k requires 0 <= k < |ls| => ls[k].raw)
  }

  /** The container a header with content becomes. */
  function Container(h: Header, content: seq<string>, lower: string -> string): seq<string> {
    var (kind, title) := KindAndTitle(h, lower);
    [OpenLine(h.lead, kind, title)] + FixFences(content) + [h.lead + ":::"]
  }

  /** The rewrite of `ls[i..]`. */
  function TransformFrom(ls: seq<Line>, i: nat, lower: string -> string): seq<string>
    requires i <= |ls|
    decreases |ls| - i
  {
    if i == |ls| then []
    else match ls[i].header
      case None => [ls[i].raw] + TransformFrom(ls, i + 1, lower)
      case Some(h) =>
        var lines := Raws(ls);
        var e := ContentEnd(lines, i + 1, h.lead, false);
        if e > i + 1 then
          Container(h, Content(lines, i + 1, e, h.lead), lower) + TransformFrom(ls, e, lower)
        else
          [ls[i].raw] + TransformFrom(ls, i + 1, lower)
  }

  /** The core rule `ws_admonition_transform` on a whole source. */
  function TransformAdmonitions(src: string, lower: string -> string): string {
    Join(TransformFrom(Classify(Split(src, '\n')), 0, lower), '\n')
  }

  // ---------------------------------------------------------------------------------
  // Properties

  /** A blank line before any content ends the scan with nothing captured. */
  lemma BlankBeforeContentEnds(lines: seq<string>, j: nat, lead: string)
    requires j < |lines| && !IsContent(lines[j], lead) && IsBlankUnder(lines[j], lead)
    requires j + 1 == |lines| || !IsContent(lines[j + 1], lead)
    ensures ContentEnd(lines, j, lead, false) == j
  {
  }

  /** Once content has started, the scan stops exactly at the end of the document or at
      the first line that is neither content nor a blank line under the header. */
  lemma {:induction false} ContentEndOnceStarted(lines: seq<string>, j: nat, lead: string)
    requires j <= |lines|
    ensures var e := ContentEnd(lines, j, lead, true);
      e == |lines| || (!IsContent(lines[e], lead) && !IsBlankUnder(lines[e], lead))
    decreases |lines| - j
  {
    if j < |lines| && (IsContent(lines[j], lead) || IsBlankUnder(lines[j], lead)) {
      ContentEndOnceStarted(lines, j + 1, lead);
    }
  }

  /** A header without content is copied verbatim. */
  lemma EmptyHeaderKept(ls: seq<Line>, i: nat, h: Header, lower: string -> string)
    requires i < |ls| && ls[i].header == Some(h)
    requires ContentEnd(Raws(ls), i + 1, h.lead, false) == i + 1
    ensures TransformFrom(ls, i, lower) == [ls[i].raw] + TransformFrom(ls, i + 1, lower)
  {
  }

  /** A header with content becomes the opening line, the content after the fence
      fix-up, and the closing `:::` at the header's indentation; the scan resumes after
      the last captured line, and at least one captured line is real content. */
  lemma ContainerEmitted(ls: seq<Line>, i: nat, h: Header, lower: string -> string)
    requires i < |ls| && ls[i].header == Some(h)
    requires ContentEnd(Raws(ls), i + 1, h.lead, false) > i + 1
    ensures var lines := Raws(ls);
      var e := ContentEnd(lines, i + 1, h.lead, false);
      var kt := KindAndTitle(h, lower);
      && (exists k :: i + 1 <= k < e && IsContent(lines[k], h.lead))
      && TransformFrom(ls, i, lower)
         == [OpenLine(h.lead, kt.0, kt.1)] + FixFences(Content(lines, i + 1, e, h.lead)) + [h.lead + ":::"]
            + TransformFrom(ls, e, lower)
  {
  }

  /** What the opening line of a container reads when a header with content was written
      `lead!!! kind "title"`: `lead::: kind title`, the type lower-cased and the title
      trimmed; `注意` reads `note` and, untitled, keeps `注意` as its title; an empty
      title adds nothing. */
  lemma TitledOpening(ls: seq<Line>, i: nat, g1: string, kind: string, g2: string, title: string, tail: string,
                      lead: string, lower: string -> string)
    requires i < |ls| && ls[i].header == ParseAdmonition(ls[i].raw)
    requires TitledShape(ls[i].raw, lead, g1, kind, g2, title, tail)
    requires ContentEnd(Raws(ls), i + 1, lead, false) > i + 1
    ensures var out := TransformFrom(ls, i, lower);
      && out != []
      && (kind == "注意" && title == [] ==> out[0] == lead + "::: note 注意")
      && (kind == "注意" && title != [] ==> out[0] == lead + "::: note " + Trim(title))
      && (kind != "注意" ==> out[0] == lead + "::: " + lower(kind) + (if title != [] then " " + Trim(title) else []))
  {
    ParseTitledComplete(ls[i].raw, lead, g1, kind, g2, title, tail);
    OpeningOf(ls, i, Header(lead, kind, title), lower);
    OpenLineOf(Header(lead, kind, title), lower);
  }

  /** The same for a header written `lead!!! kind` without a title. */
  lemma BareOpening(ls: seq<Line>, i: nat, g1: string, kind: string, tail: string, lead: string, lower: string -> string)
    requires i < |ls| && ls[i].header == ParseAdmonition(ls[i].raw)
    requires BareShape(ls[i].raw, lead, g1, kind, tail)
    requires ContentEnd(Raws(ls), i + 1, lead, false) > i + 1
    ensures var out := TransformFrom(ls, i, lower);
      && out != []
      && (kind == "注意" ==> out[0] == lead + "::: note 注意")
      && (kind != "注意" ==> out[0] == lead + "::: " + lower(kind))
  {
    ParseBareComplete(ls[i].raw, lead, g1, kind, tail);
    OpeningOf(ls, i, Header(lead, kind, []), lower);
    OpenLineOf(Header(lead, kind, []), lower);
  }

  /** A header with content opens its container with the line its type and title give. */
  lemma OpeningOf(ls: seq<Line>, i: nat, h: Header, lower: string -> string)
    requires i < |ls| && ls[i].header == Some(h)
    requires ContentEnd(Raws(ls), i + 1, h.lead, false) > i + 1
    ensures var kt := KindAndTitle(h, lower); var out := TransformFrom(ls, i, lower);
      out != [] && out[0] == OpenLine(h.lead, kt.0, kt.1)
  {
    ContainerEmitted(ls, i, h, lower);
  }

  /** The opening line a header's type and title give, case by case. */
  lemma OpenLineOf(h: Header, lower: string -> string)
    ensures var kt := KindAndTitle(h, lower); var out := OpenLine(h.lead, kt.0, kt.1);
      && (h.kind == "注意" && h.title == [] ==> out == h.lead + "::: note 注意")
      && (h.kind == "注意" && h.title != [] ==> out == h.lead + "::: note " + Trim(h.title))
      && (h.kind != "注意" ==> out == h.lead + "::: " + lower(h.kind) + (if h.title != [] then " " + Trim(h.title) else []))
  {
    NoteTrimmed();
  }

  lemma NoteTrimmed()
    ensures Trim("注意") == "注意"
  {
    assert Span("注意", 0, IsSpace) == 0;
    assert SpanBack("注意", 2) == 2;
  }

  /** Lines that are not headers come out line for line as they went in. */
  lemma {:induction false} NoHeadersUnchanged(ls: seq<Line>, i: nat, lower: string -> string)
    requires i <= |ls|
    requires forall k :: i <= k < |ls| ==> ls[k].header.None?
    ensures TransformFrom(ls, i, lower) == Raws(ls)[i..]
    decreases |ls| - i
  {
    if i < |ls| {
      NoHeadersUnchanged(ls, i + 1, lower);
      assert Raws(ls)[i..] == [ls[i].raw] + Raws(ls)[i + 1..];
    }
  }

  /** A source without admonition headers is unchanged. */
  lemma NoAdmonitionsUnchanged(src: string, lower: string -> string)
    requires forall k :: 0 <= k < |Split(src, '\n')| ==> ParseAdmonition(Split(src, '\n')[k]).None?
    ensures TransformAdmonitions(src, lower) == src
  {
    var lines := Split(src, '\n');
    var ls := Classify(lines);
    NoHeadersUnchanged(ls, 0, lower);
    assert Raws(ls) == lines;
    JoinSplit(src, '\n');
  }
}
