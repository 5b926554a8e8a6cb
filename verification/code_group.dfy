/**
  MkDocs code tabs: a run of `=== "Title"` headers at one indentation, each followed
  (after blank lines) by a fenced code block that is more indented than the header,
  becomes one VitePress `::: code-group` whose fences carry the tab titles
  (docs/.vitepress/plugins/markdown/mkdocs/markdown-it-mk-code-tabs.ts).
 */
module CodeGroup {
  import opened Strings

  // ---------------------------------------------------------------------------------
  // The header pattern  ^(\s*)===\s*"([^"]+)"\s*$

  /** `line` is a tab header with the given indentation and title. */
  predicate HeaderShape(line: string, indent: string, gap: string, title: string, tail: string) {
    && line == indent + "===" + gap + "\"" + title + "\"" + tail
    && AllSpace(indent) && AllSpace(gap) && AllSpace(tail)
    && title != [] && '"' !in title
  }

  /** The indentation and title of a tab header line. */
  function ParseTabHeader(line: string): (r: Option<(string, string)>)
    ensures r.Some? ==> exists gap, tail :: HeaderShape(line, r.value.0, gap, r.value.1, tail)
  {
    var a := Span(line, 0, IsSpace);
    if !HasAt(line, a, "===") then None
    else
      var b := Span(line, a + 3, IsSpace);
      if b == |line| || line[b] != '"' then None
      else
        var q := FindChar(line, '"', b + 1);
        if q == |line| || q == b + 1 || !AllSpace(line[q + 1..]) then None
        else
          HeaderPieces(line, a, b, q);
          Some((line[..a], line[b + 1..q]))
  }

  lemma HeaderPieces(line: string, a: nat, b: nat, q: nat)
    requires a + 3 <= b && b + 1 < q < |line|
    requires HasAt(line, a, "===") && line[b] == '"' && line[q] == '"'
    requires forall k :: b + 1 <= k < q ==> line[k] != '"'
    requires AllSpace(line[..a]) && AllSpace(line[a + 3..b]) && AllSpace(line[q + 1..])
    ensures HeaderShape(line, line[..a], line[a + 3..b], line[b + 1..q], line[q + 1..])
  {
    assert line[a..a + 3] == "===";
    assert line == line[..a] + line[a..a + 3] + line[a + 3..b] + [line[b]] + line[b + 1..q] + [line[q]] + line[q + 1..];
  }

  /** Every line of header shape is recognised, with its own indentation and title. */
  lemma ParseTabHeaderComplete(line: string, indent: string, gap: string, title: string, tail: string)
    requires HeaderShape(line, indent, gap, title, tail)
    ensures ParseTabHeader(line) == Some((indent, title))
  {
    var a := |indent|;
    var b := a + 3 + |gap|;
    var q := b + 1 + |title|;
    HeaderSlices(line, indent, gap, title, tail);
    SliceSpace(line, 0, a);
    SliceSpace(line, a + 3, b);
    assert line[b + 1..q] == title;
    forall k | b + 1 <= k < q ensures line[k] != '"' {
      assert line[k] == title[k - b - 1];
    }
    SpanExact(line, 0, IsSpace, a);
    SpanExact(line, a + 3, IsSpace, b);
    FindCharExact(line, '"', b + 1, q);
  }

  /** Where the pieces of a header sit in its line. */
  lemma HeaderSlices(line: string, indent: string, gap: string, title: string, tail: string)
    requires line == indent + "===" + gap + "\"" + title + "\"" + tail
    ensures var a := |indent|; var b := a + 3 + |gap|; var q := b + 1 + |title|;
      && q < |line|
      && line[..a] == indent && line[a..a + 3] == "===" && HasAt(line, a, "===")
      && line[a + 3..b] == gap && line[b] == '"' && line[b + 1..q] == title
      && line[q] == '"' && line[q + 1..] == tail
  {
  }

  // ---------------------------------------------------------------------------------
  // The fence pattern  ^(\s*)```(\w*)

  /** The indentation and language of an opening fence. */
  function ParseFence(line: string): (r: Option<(string, string)>)
    ensures r.Some? ==> StartsWith(line, r.value.0 + "```" + r.value.1)
    ensures r.Some? ==> AllSpace(r.value.0) && forall k :: 0 <= k < |r.value.1| ==> IsWordChar(r.value.1[k])
    ensures r.Some? ==> var n := |r.value.0| + 3 + |r.value.1|; n == |line| || !IsWordChar(line[n])
    ensures r.None? ==> !HasAt(line, |LeadingSpace(line)|, "```")
  {
    var a := Span(line, 0, IsSpace);
    if !HasAt(line, a, "```") then None
    else
      var e := Span(line, a + 3, IsWordChar);
      assert line[..e] == line[..a] + line[a..a + 3] + line[a + 3..e];
      Some((line[..a], line[a + 3..e]))
  }

  // ---------------------------------------------------------------------------------
  // Scanning one tab

  /** One collected tab. */
  datatype Tab = Tab(title: string, lang: string, code: seq<string>)

  /** `contentLine.substring(n)`: what is left after the first `n` characters. */
  function Dedent(line: string, n: nat): (r: string)
    ensures n <= |line| ==> r == line[n..]
    ensures n > |line| ==> r == []
  {
    Slice(line, n, |line|)
  }

  /** A blank line at least as deep as the header may separate it from its fence. */
  predicate BlankUnder(line: string, blockIndent: string) {
    Trim(line) == [] && StartsWith(line, blockIndent)
  }

  /** The first line at or after `j` that is not a blank line under the header. */
  function SkipBlank(lines: seq<string>, j: nat, blockIndent: string): (r: nat)
    requires j <= |lines|
    ensures j <= r <= |lines|
    ensures forall k :: j <= k < r ==> BlankUnder(lines[k], blockIndent)
    ensures r < |lines| ==> !BlankUnder(lines[r], blockIndent)
    decreases |lines| - j
  {
    if j < |lines| && BlankUnder(lines[j], blockIndent) then SkipBlank(lines, j + 1, blockIndent) else j
  }

  /** A code block's result: its de-dented lines and where scanning resumes. */
  datatype Code = Code(lines: seq<string>, next: nat)

  predicate Closes(line: string, fenceIndent: string) {
    StartsWith(line, fenceIndent + "```")
  }

  /** The first line at or after `j` that closes a fence opened at `fenceIndent`, or the
      end of the document. */
  function CodeEnd(lines: seq<string>, j: nat, fenceIndent: string): (e: nat)
    requires j <= |lines|
    ensures j <= e <= |lines|
    ensures forall k :: j <= k < e ==> !Closes(lines[k], fenceIndent)
    ensures e < |lines| ==> Closes(lines[e], fenceIndent)
    decreases |lines| - j
  {
    if j == |lines| || Closes(lines[j], fenceIndent) then j else CodeEnd(lines, j + 1, fenceIndent)
  }

  /** The code lines from `j` up to the first closing fence at the opening fence's exact
      indentation, which is consumed; at the end of the document the block just ends. */
  function CollectCode(lines: seq<string>, j: nat, fenceIndent: string): (r: Code)
    requires j <= |lines|
    ensures j <= r.next <= |lines| && j + |r.lines| <= r.next
    ensures forall k :: 0 <= k < |r.lines| ==>
      !Closes(lines[j + k], fenceIndent) && r.lines[k] == Dedent(lines[j + k], |fenceIndent|)
    ensures r.next == j + |r.lines| ==> r.next == |lines|
    ensures r.next != j + |r.lines| ==> r.next == j + |r.lines| + 1 && Closes(lines[j + |r.lines|], fenceIndent)
  {
    var e := CodeEnd(lines, j, fenceIndent);
    Code(seq(e - j, k requires 0 <= k < e - j => Dedent(lines[j + k], |fenceIndent|)),
         if e == |lines| then e else e + 1)
  }

  /** The tab whose header is line `j`, when it has the given indentation and is followed,
      after blank lines, by a fence more indented than the header; with the line after
      its code. */
  function TabAt(lines: seq<string>, j: nat, blockIndent: string): (r: Option<(Tab, nat)>)
    requires j <= |lines|
    ensures r.Some? ==> j < r.value.1 <= |lines|
    ensures r.Some? ==> j < |lines| && ParseTabHeader(lines[j]) == Some((blockIndent, r.value.0.title))
    ensures r.Some? ==> var f := SkipBlank(lines, j + 1, blockIndent);
      FenceLine(lines, j, blockIndent, f) && TabFrom(lines, f, r.value.0, r.value.1)
  {
    if j == |lines| then None
    else
      var header := ParseTabHeader(lines[j]);
      if header.None? || header.value.0 != blockIndent then None
      else
        var f := SkipBlank(lines, j + 1, blockIndent);
        if f == |lines| then None
        else
          var fence := ParseFence(lines[f]);
          if fence.None? || |fence.value.0| <= |blockIndent| then None
          else
            var c := CollectCode(lines, f + 1, fence.value.0);
            Some((Tab(header.value.1, fence.value.1, c.lines), c.next))
  }

  /** Line `f` is the fence of the tab whose header is line `j`: only blank lines under the
      header come between them, and `f` opens a fence more indented than the header. */
  predicate FenceLine(lines: seq<string>, j: nat, blockIndent: string, f: nat) {
    && j < f < |lines|
    && (forall k :: j < k < f ==> BlankUnder(lines[k], blockIndent))
    && !BlankUnder(lines[f], blockIndent)
    && ParseFence(lines[f]).Some? && |ParseFence(lines[f]).value.0| > |blockIndent|
  }

  /** `tab` takes the language of the fence at line `f` and its code up to the first
      closing fence at that fence's indentation, and `next` is the line after it. */
  predicate TabFrom(lines: seq<string>, f: nat, tab: Tab, next: nat)
    requires f < |lines| && ParseFence(lines[f]).Some?
  {
    var fence := ParseFence(lines[f]).value;
    tab.lang == fence.1 && Code(tab.code, next) == CollectCode(lines, f + 1, fence.0)
  }

  /** The blank lines under a header are skipped up to the first line that is not one. */
  lemma {:induction false} SkipBlankExact(lines: seq<string>, j: nat, blockIndent: string, f: nat)
    requires j <= f < |lines| && !BlankUnder(lines[f], blockIndent)
    requires forall k :: j <= k < f ==> BlankUnder(lines[k], blockIndent)
    ensures SkipBlank(lines, j, blockIndent) == f
    decreases f - j
  {
    if j < f {
      SkipBlankExact(lines, j + 1, blockIndent, f);
    }
  }

  /** A header followed, after blank lines under it, by a more indented fence is a tab
      with the header's title, the fence's language and the fence's code. */
  lemma TabRecognised(lines: seq<string>, j: nat, blockIndent: string, title: string, f: nat)
    requires j < |lines| && ParseTabHeader(lines[j]) == Some((blockIndent, title))
    requires FenceLine(lines, j, blockIndent, f)
    ensures TabAt(lines, j, blockIndent).Some?
    ensures var t := TabAt(lines, j, blockIndent).value;
      t.0.title == title && TabFrom(lines, f, t.0, t.1)
  {
    SkipBlankExact(lines, j + 1, blockIndent, f);
    TabAtUnfold(lines, j, blockIndent, title, f, ParseFence(lines[f]).value.0, ParseFence(lines[f]).value.1);
  }

  lemma TabAtUnfold(lines: seq<string>, j: nat, blockIndent: string, title: string, f: nat, fenceIndent: string, lang: string)
    requires j < f < |lines| && ParseTabHeader(lines[j]) == Some((blockIndent, title))
    requires SkipBlank(lines, j + 1, blockIndent) == f
    requires ParseFence(lines[f]) == Some((fenceIndent, lang)) && |fenceIndent| > |blockIndent|
    ensures TabAt(lines, j, blockIndent)
      == Some((Tab(title, lang, CollectCode(lines, f + 1, fenceIndent).lines), CollectCode(lines, f + 1, fenceIndent).next))
  {
  }

  /** The contiguous tabs from line `j` on, and the line after the last of them. */
  datatype Group = Group(tabs: seq<Tab>, next: nat)

  function CollectGroup(lines: seq<string>, j: nat, blockIndent: string): (r: Group)
    requires j <= |lines|
    ensures j <= r.next <= |lines|
    ensures r.tabs == [] <==> TabAt(lines, j, blockIndent).None?
    ensures r.tabs == [] ==> r.next == j
    ensures r.next < |lines| ==> TabAt(lines, r.next, blockIndent).None?
    ensures |r.tabs| <= r.next - j
    decreases |lines| - j
  {
    match TabAt(lines, j, blockIndent)
    case None => Group([], j)
    case Some((tab, next)) =>
      var rest := CollectGroup(lines, next, blockIndent);
      Group([tab] + rest.tabs, rest.next)
  }

  /** `tabs` are the tabs found one after another from line `j`, each starting on the
      line after the previous one's code, and `next` is the line after the last. */
  predicate TabRun(lines: seq<string>, j: nat, blockIndent: string, tabs: seq<Tab>, next: nat)
    requires j <= |lines|
    decreases |tabs|
  {
    if tabs == [] then next == j
    else
      match TabAt(lines, j, blockIndent)
      case None => false
      case Some((tab, after)) => tab == tabs[0] && TabRun(lines, after, blockIndent, tabs[1..], next)
  }

  /** A group is a run of consecutive tabs from its first header that cannot be
      extended. */
  lemma {:induction false} GroupIsRun(lines: seq<string>, j: nat, blockIndent: string)
    requires j <= |lines|
    ensures var g := CollectGroup(lines, j, blockIndent);
      TabRun(lines, j, blockIndent, g.tabs, g.next) && (g.next < |lines| ==> TabAt(lines, g.next, blockIndent).None?)
    decreases |lines| - j
  {
    var t := TabAt(lines, j, blockIndent);
    if t.Some? {
      GroupIsRun(lines, t.value.1, blockIndent);
      GroupStep(lines, j, blockIndent);
    }
  }

  /** Any run of consecutive tabs that cannot be extended is the group: the group's tabs
      are exactly those, in order. */
  lemma {:induction false} RunIsGroup(lines: seq<string>, j: nat, blockIndent: string, tabs: seq<Tab>, next: nat)
    requires j <= |lines| && next <= |lines|
    requires TabRun(lines, j, blockIndent, tabs, next) && TabAt(lines, next, blockIndent).None?
    ensures CollectGroup(lines, j, blockIndent) == Group(tabs, next)
    decreases |tabs|
  {
    if tabs != [] {
      var t := TabAt(lines, j, blockIndent).value;
      RunIsGroup(lines, t.1, blockIndent, tabs[1..], next);
      GroupStep(lines, j, blockIndent);
    }
  }

  /** One step of the group scan. */
  lemma GroupStep(lines: seq<string>, j: nat, blockIndent: string)
    requires j <= |lines| && TabAt(lines, j, blockIndent).Some?
    ensures var t := TabAt(lines, j, blockIndent).value; var rest := CollectGroup(lines, t.1, blockIndent);
      CollectGroup(lines, j, blockIndent) == Group([t.0] + rest.tabs, rest.next)
  {
  }

  // ---------------------------------------------------------------------------------
  // Output

  function Indented(prefix: string, code: seq<string>): (r: seq<string>)
    ensures |r| == |code|
    ensures forall k :: 0 <= k < |code| ==> r[k] == prefix + code[k]
  {
    seq(|code|, k requires 0 <= k < |code| => prefix + code[k])
  }

  /** The fence pair of one tab inside the group. */
  function TabLines(blockIndent: string, tab: Tab): seq<string> {
    [blockIndent + "```" + tab.lang + " [" + tab.title + "]"]
    + Indented(blockIndent, tab.code)
    + [blockIndent + "```"]
  }

  function TabsLines(blockIndent: string, tabs: seq<Tab>): seq<string> {
    if tabs == [] then [] else TabLines(blockIndent, tabs[0]) + TabsLines(blockIndent, tabs[1..])
  }

  function GroupLines(blockIndent: string, tabs: seq<Tab>): seq<string> {
    [blockIndent + "::: code-group"] + TabsLines(blockIndent, tabs) + [blockIndent + ":::"]
  }

  /** The rewrite of `lines[i..]`. */
  function TransformFrom(lines: seq<string>, i: nat): seq<string>
    requires i <= |lines|
    decreases |lines| - i
  {
    if i == |lines| then []
    else match ParseTabHeader(lines[i])
      case None => [lines[i]] + TransformFrom(lines, i + 1)
      case Some((blockIndent, _)) =>
        var g := CollectGroup(lines, i, blockIndent);
        if g.tabs != [] then GroupLines(blockIndent, g.tabs) + TransformFrom(lines, g.next)
        else [lines[i]] + TransformFrom(lines, i + 1)
  }

  /** The core rule `content_tabs_to_code_group` on a whole source. */
  function TransformCodeTabs(src: string): string {
    Join(TransformFrom(Split(src, '\n'), 0), '\n')
  }

  // ---------------------------------------------------------------------------------
  // Properties

  function SumTabLines(tabs: seq<Tab>): nat {
    if tabs == [] then 0 else |tabs[0].code| + 2 + SumTabLines(tabs[1..])
  }

  /** Every line of a group starts with the header's indentation; the group opens with
      `::: code-group`, closes with `:::` and holds two fence lines per tab around its
      code. */
  lemma {:induction false} GroupShape(blockIndent: string, tabs: seq<Tab>)
    ensures var g := GroupLines(blockIndent, tabs);
      && |g| == SumTabLines(tabs) + 2
      && g[0] == blockIndent + "::: code-group"
      && g[|g| - 1] == blockIndent + ":::"
      && forall k :: 0 <= k < |g| ==> StartsWith(g[k], blockIndent)
  {
    TabsShape(blockIndent, tabs);
    var g := GroupLines(blockIndent, tabs);
    var t := TabsLines(blockIndent, tabs);
    forall k | 0 <= k < |g| ensures StartsWith(g[k], blockIndent) {
      if 0 < k < |g| - 1 {
        assert g[k] == t[k - 1];
      }
    }
  }

  lemma {:induction false} TabsShape(blockIndent: string, tabs: seq<Tab>)
    ensures var t := TabsLines(blockIndent, tabs);
      |t| == SumTabLines(tabs) && forall k :: 0 <= k < |t| ==> StartsWith(t[k], blockIndent)
    decreases |tabs|
  {
    if tabs != [] {
      TabsShape(blockIndent, tabs[1..]);
      var head := TabLines(blockIndent, tabs[0]);
      var rest := TabsLines(blockIndent, tabs[1..]);
      forall k | 0 <= k < |head| ensures StartsWith(head[k], blockIndent) {
        if 0 < k < |head| - 1 {
          assert head[k] == blockIndent + tabs[0].code[k - 1];
        }
      }
      assert forall k :: 0 <= k < |head + rest| ==>
        (head + rest)[k] == if k < |head| then head[k] else rest[k - |head|];
    }
  }

  /** A source with no tab header comes out line for line as it went in. */
  lemma {:induction false} NoHeadersUnchanged(lines: seq<string>, i: nat)
    requires i <= |lines|
    requires forall k :: i <= k < |lines| ==> ParseTabHeader(lines[k]).None?
    ensures TransformFrom(lines, i) == lines[i..]
    decreases |lines| - i
  {
    if i < |lines| {
      NoHeadersUnchanged(lines, i + 1);
      assert lines[i..] == [lines[i]] + lines[i + 1..];
    }
  }

  /** A header that does not start a valid group is copied verbatim, and nothing of a
      partial group is written. */
  lemma LoneHeaderKept(lines: seq<string>, i: nat, blockIndent: string, title: string)
    requires i < |lines| && ParseTabHeader(lines[i]) == Some((blockIndent, title))
    requires TabAt(lines, i, blockIndent).None?
    ensures TransformFrom(lines, i) == [lines[i]] + TransformFrom(lines, i + 1)
  {
  }

  /** A header that starts a valid group is replaced by that group, and the scan resumes
      after the group's last tab. */
  lemma GroupEmitted(lines: seq<string>, i: nat, blockIndent: string, title: string)
    requires i < |lines| && ParseTabHeader(lines[i]) == Some((blockIndent, title))
    requires TabAt(lines, i, blockIndent).Some?
    ensures var g := CollectGroup(lines, i, blockIndent);
      && g.tabs != [] && g.tabs[0] == TabAt(lines, i, blockIndent).value.0
      && i < g.next
      && TransformFrom(lines, i) == GroupLines(blockIndent, g.tabs) + TransformFrom(lines, g.next)
  {
  }

  /** A tab's code ends at the first line that starts with the opening fence's exact
      indentation followed by three backticks; every line before it is kept, de-dented by
      the width of that indentation. */
  lemma {:induction false} CodeEndsAtFirstClose(lines: seq<string>, j: nat, fenceIndent: string, e: nat)
    requires j <= e < |lines| && Closes(lines[e], fenceIndent)
    requires forall k :: j <= k < e ==> !Closes(lines[k], fenceIndent)
    ensures CollectCode(lines, j, fenceIndent).next == e + 1
    ensures CollectCode(lines, j, fenceIndent).lines == seq(e - j, k requires 0 <= k < e - j => Dedent(lines[j + k], |fenceIndent|))
    decreases e - j
  {
    if j < e {
      CodeEndsAtFirstClose(lines, j + 1, fenceIndent, e);
    }
  }
}
