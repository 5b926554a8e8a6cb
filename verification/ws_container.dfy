/**
  Writerside styled blockquotes: a run of quoted lines followed by a `{style="name"}` or
  `{type="name"}` line becomes a `::: name` container before parsing
  (docs/.vitepress/plugins/markdown/writerside/markdown-it-ws-container.ts). The pattern
  asks for CRLF line breaks; the original parser then receives the rewritten source.
 */
module WsContainer {
  import opened Strings
  import opened Rewrite

  // ---------------------------------------------------------------------------------
  // The pattern (flags g and m)
  //
  //   ^([ \t]*)((?:[ \t]*>[^\r\n]*\r\n)*[ \t]*>[^\r\n]*)\r\n([ \t]*\{(?:style|type)="([a-z0-9_-]+)"\}\s*)$
  //
  // The indentation is the whole run of blanks: giving some back to the first quoted
  // line changes nothing after its `>`. A quoted line's text `[^\r\n]*` runs to the next
  // CR or LF, and only a CR followed by LF lets the line be followed by another. The
  // style line starts with `{`, never with `>`, so the starred group must stop at the
  // last of the consecutive CRLF-ended quoted lines: with fewer, the next line would be
  // a quoted one where the style line is needed. Finally `\s*` takes all the whitespace
  // after `}` and gives it back until `$` holds: at the end of the input, or before the
  // last line terminator of that whitespace.

  predicate IsCrOrLf(c: char) {
    c == '\r' || c == '\n'
  }

  /** `[a-z0-9_-]` */
  predicate IsStyleChar(c: char) {
    ('a' <= c <= 'z') || ('0' <= c <= '9') || c == '_' || c == '-'
  }

  /** The character classes the pattern repeats: `[ \t]`, `[^\r\n]` and `[a-z0-9_-]`. */
  datatype CharClass = Blank | Text | Name

  predicate In(c: CharClass, ch: char) {
    match c
    case Blank => IsBlank(ch)
    case Text => !IsCrOrLf(ch)
    case Name => IsStyleChar(ch)
  }

  /** The end of the run of `c` characters starting at `i`; `RunSound` and `RunTo` say
      what it is. */
  function ClassRun(s: string, i: nat, c: CharClass): (j: nat)
    requires i <= |s|
    ensures i <= j <= |s|
    decreases |s| - i
  {
    if i < |s| && In(c, s[i]) then ClassRun(s, i + 1, c) else i
  }

  lemma {:induction false} RunSound(s: string, i: nat, c: CharClass)
    requires i <= |s|
    ensures forall k :: i <= k < ClassRun(s, i, c) ==> In(c, s[k])
    ensures ClassRun(s, i, c) < |s| ==> !In(c, s[ClassRun(s, i, c)])
    decreases |s| - i
  {
    if i < |s| && In(c, s[i]) {
      RunSound(s, i + 1, c);
    }
  }

  lemma {:induction false} RunTo(s: string, i: nat, c: CharClass, j: nat)
    requires i <= j <= |s|
    requires forall k :: i <= k < j ==> In(c, s[k])
    requires j == |s| || !In(c, s[j])
    ensures ClassRun(s, i, c) == j
    decreases j - i
  {
    if i < j {
      RunTo(s, i + 1, c, j);
    }
  }

  /** `[ \t]*>[^\r\n]*` at `j`: the end of the quoted line's text. */
  function QuotedText(s: string, j: nat): (r: Option<nat>)
    requires j <= |s|
    ensures r.Some? ==> j < r.value <= |s|
  {
    var b := ClassRun(s, j, Blank);
    if b < |s| && s[b] == '>' then Some(ClassRun(s, b + 1, Text)) else None
  }

  /** The quoted line at `j` when a CRLF ends it: where its CR is. */
  function QuotedLine(s: string, j: nat): (r: Option<nat>)
    requires j <= |s|
    ensures r.Some? ==> j < r.value && HasAt(s, r.value, "\r\n")
  {
    match QuotedText(s, j)
    case Some(e) => if HasAt(s, e, "\r\n") then Some(e) else None
    case None => None
  }

  /** The group `(?:[ \t]*>[^\r\n]*\r\n)*[ \t]*>[^\r\n]*` with the `\r\n` after it:
      the CR ending the last of the CRLF-ended quoted lines that follow each other
      from `j`. */
  function LastQuoted(s: string, j: nat): (r: Option<nat>)
    requires j <= |s|
    ensures r.Some? ==> j < r.value && HasAt(s, r.value, "\r\n")
    decreases |s| - j
  {
    match QuotedLine(s, j)
    case None => None
    case Some(e) =>
      match LastQuoted(s, e + 2)
      case None => Some(e)
      case Some(q) => Some(q)
  }

  /** Where the pieces of a style line lie: its `{`, its name and its end. */
  datatype Style = Style(open: nat, name: nat, nameEnd: nat, end: nat)

  /** `(?:style|type)="` at `j`: where the name starts. */
  function KeyEnd(s: string, j: nat): (r: Option<nat>)
    ensures r.Some? <==> HasAt(s, j, "style=\"") || HasAt(s, j, "type=\"")
    ensures r.Some? ==> r.value == j + 6 || r.value == j + 7
  {
    if HasAt(s, j, "style=\"") then Some(j + 7)
    else if HasAt(s, j, "type=\"") then Some(j + 6)
    else None
  }

  /** The last line terminator at or before `k` and not before `lo`. */
  function BreakBack(s: string, lo: nat, k: nat): (r: Option<nat>)
    requires lo <= k < |s|
    ensures r.Some? ==> lo <= r.value <= k
    decreases k
  {
    if IsLineTerminator(s[k]) then Some(k)
    else if k == lo then None
    else BreakBack(s, lo, k - 1)
  }

  /** `\s*$` at `p`. */
  function DollarEnd(s: string, p: nat): (r: Option<nat>)
    requires p <= |s|
  {
    var w := SkipSpace(s, p);
    if w == |s| then Some(w) else BreakBack(s, p, w)
  }

  /** `[ \t]*\{(?:style|type)="` at `k`: where the `{` is and where the name starts. */
  function StyleKey(s: string, k: nat): (r: Option<(nat, nat)>)
    requires k <= |s|
    ensures r.Some? ==> k <= r.value.0 && r.value.0 + 7 <= r.value.1 <= |s|
  {
    var a := ClassRun(s, k, Blank);
    if a == |s| || s[a] != '{' then None
    else
      match KeyEnd(s, a + 1)
      case None => None
      case Some(b) => Some((a, b))
  }

  /** `[ \t]*\{(?:style|type)="([a-z0-9_-]+)"\}\s*$` at `k`. */
  function StyleLine(s: string, k: nat): (r: Option<Style>)
    requires k <= |s|
  {
    match StyleKey(s, k)
    case None => None
    case Some((a, b)) =>
      var n := ClassRun(s, b, Name);
      if n == b || !HasAt(s, n, "\"}") then None
      else
        match DollarEnd(s, n + 2)
        case None => None
        case Some(e) => Some(Style(a, b, n, e))
  }

  /** Where the pieces of a match lie: the indentation ends at `indent`, the quoted
      lines run from there to the CRLF at `close`, and the style line follows. */
  datatype Container = Container(indent: nat, close: nat, style: Style)

  /** The match starting at `i`, if there is one. */
  function ContainerAt(s: string, i: nat): (r: Option<Container>) {
    if i > |s| || !AtLineStart(s, i) then None
    else
      var b := ClassRun(s, i, Blank);
      match LastQuoted(s, b)
      case None => None
      case Some(q) =>
        match StyleLine(s, q + 2)
        case None => None
        case Some(st) => Some(Container(b, q, st))
  }

  function ContainerEnd(s: string, i: nat): Option<nat> {
    match ContainerAt(s, i)
    case Some(c) => Some(c.style.end)
    case None => None
  }

  // ---------------------------------------------------------------------------------
  // The replacement

  /** `^\s*>\s?` (flags g and m) at `k`: a quote marker at the start of a line, the
      whitespace before it and at most one whitespace character after it. */
  function MarkerEnd(t: string, k: nat): (r: Option<nat>) {
    if k > |t| || !AtLineStart(t, k) then None
    else
      var j := SkipSpace(t, k);
      if j < |t| && t[j] == '>' then Some(if j + 1 < |t| && IsSpace(t[j + 1]) then j + 2 else j + 1)
      else None
  }

  /** `blockquoteContent.replace(/^\s*>\s?/gm, '').split('\r').join(' ')` */
  function Unquote(content: string): string {
    Join(Split(ReplaceAll(content, MarkerEnd, Delete()), '\r'), ' ')
  }

  /** Each line prefixed with the indentation. */
  function Indent(lines: seq<string>, indent: string): (r: seq<string>)
    ensures |r| == |lines|
    ensures forall k :: 0 <= k < |r| ==> r[k] == indent + lines[k]
  {
    seq(|lines|, k requires 0 <= k < |lines| => indent + lines[k])
  }

  /** The container that replaces a match. */
  function Containerize(indent: string, content: string, name: string): string {
    var block := "::: " + name + "\n" + Trim(Unquote(content)) + "\n:::";
    Join(Indent(Split(block, '\n'), indent), '\n')
  }

  function Replacement(s: string, i: nat, e: nat): string {
    match ContainerAt(s, i)
    case Some(c) => Containerize(s[i..c.indent], s[c.indent..c.close], s[c.style.name..c.style.nameEnd])
    case None => Slice(s, i, e)
  }

  /** The source handed to the original parser. */
  function Parse(src: string): string {
    ReplaceAll(src, ContainerEnd, Replacement)
  }

  // ---------------------------------------------------------------------------------
  // The quoted lines, both ways

  /** A `>` after the blanks at `k`, before `q`. */
  predicate MarkBefore(s: string, k: nat, q: nat) {
    k <= q <= |s| && var b := ClassRun(s, k, Blank); b < q && s[b] == '>'
  }

  /** `s[j..q]` is a run of quoted lines: each starts with blanks and `>`, and they are
      separated by CRLF, the only CR and LF characters in the run. */
  predicate QuoteShape(s: string, j: nat, q: nat) {
    && MarkBefore(s, j, q)
    && forall k {:trigger IsCrOrLf(s[k])} :: j <= k < q && IsCrOrLf(s[k]) ==> BreakAt(s, j, q, k)
  }

  /** The CR or LF at `k` belongs to a CRLF between two quoted lines of `s[j..q]`. */
  predicate BreakAt(s: string, j: nat, q: nat, k: nat)
    requires j <= k < q <= |s|
  {
    || (s[k] == '\r' && k + 1 < q && s[k + 1] == '\n')
    || (s[k] == '\n' && j < k && s[k - 1] == '\r' && MarkBefore(s, k + 1, q))
  }

  /** A CRLF-ended quoted line: a `>` after the blanks, no CR or LF before the CRLF. */
  predicate LineWritten(s: string, j: nat, e: nat) {
    && MarkBefore(s, j, e) && HasAt(s, e, "\r\n")
    && forall k :: j <= k < e ==> !IsCrOrLf(s[k])
  }

  lemma QuotedLineSound(s: string, j: nat)
    requires j <= |s| && QuotedLine(s, j).Some?
    ensures LineWritten(s, j, QuotedLine(s, j).value)
  {
    var e := QuotedLine(s, j).value;
    var b := ClassRun(s, j, Blank);
    RunSound(s, j, Blank);
    RunSound(s, b + 1, Text);
    forall k | j <= k < e ensures !IsCrOrLf(s[k]) {
      if k < b {
        assert In(Blank, s[k]);
      } else if k > b {
        assert In(Text, s[k]);
      }
    }
  }

  lemma QuotedLineExact(s: string, j: nat, e: nat)
    requires LineWritten(s, j, e)
    ensures QuotedLine(s, j) == Some(e)
  {
    var b := ClassRun(s, j, Blank);
    HasAtChar(s, e, "\r\n", 0);
    RunTo(s, b + 1, Text, e);
  }

  /** What the group reads is a run of quoted lines followed by CRLF. */
  lemma {:induction false} LastQuotedSound(s: string, j: nat)
    requires j <= |s| && LastQuoted(s, j).Some?
    ensures QuoteShape(s, j, LastQuoted(s, j).value)
    decreases |s| - j
  {
    var q := LastQuoted(s, j).value;
    var e := QuotedLine(s, j).value;
    QuotedLineSound(s, j);
    HasAtChar(s, e, "\r\n", 0);
    HasAtChar(s, e, "\r\n", 1);
    if LastQuoted(s, e + 2).Some? {
      LastQuotedSound(s, e + 2);
      ShapeJoin(s, j, e, q);
    }
  }

  /** A quoted line followed by a run of quoted lines is a run. */
  lemma ShapeJoin(s: string, j: nat, e: nat, q: nat)
    requires LineWritten(s, j, e) && QuoteShape(s, e + 2, q)
    ensures QuoteShape(s, j, q)
  {
    HasAtChar(s, e, "\r\n", 0);
    HasAtChar(s, e, "\r\n", 1);
    assert e + 2 < q by {
      assert ClassRun(s, e + 2, Blank) < q;
    }
    forall k | j <= k < q && IsCrOrLf(s[k]) ensures BreakAt(s, j, q, k) {
      if k == e + 1 {
        assert MarkBefore(s, e + 2, q);
      } else if k > e + 1 {
        assert BreakAt(s, e + 2, q, k);
      }
    }
  }

  /** A run of quoted lines starts with one. */
  lemma ShapeSplit(s: string, j: nat, q: nat) returns (e: nat)
    requires QuoteShape(s, j, q) && HasAt(s, q, "\r\n")
    ensures LineWritten(s, j, e) && j < e <= q
    ensures e < q ==> QuoteShape(s, e + 2, q)
  {
    HasAtChar(s, q, "\r\n", 0);
    e := ClassRun(s, j, Text);
    RunSound(s, j, Text);
    var b := ClassRun(s, j, Blank);
    RunSound(s, j, Blank);
    assert e > b by {
      forall k | j <= k <= b ensures In(Text, s[k]) {
        if k < b { assert In(Blank, s[k]); }
      }
    }
    if e < q {
      assert In(Text, s[e - 1]);
      assert s[e] == '\r';
      assert s[e + 1] == '\n';
      assert HasAt(s, e, "\r\n");
      assert IsCrOrLf(s[e + 1]) && BreakAt(s, j, q, e + 1);
      forall k | e + 2 <= k < q && IsCrOrLf(s[k]) ensures BreakAt(s, e + 2, q, k) {
        assert BreakAt(s, j, q, k);
      }
    }
  }

  /** A run of quoted lines followed by CRLF and a line that is not quoted is read to
      that CRLF. */
  lemma {:induction false} LastQuotedExact(s: string, j: nat, q: nat)
    requires QuoteShape(s, j, q) && HasAt(s, q, "\r\n") && !MarkBefore(s, q + 2, |s|)
    ensures LastQuoted(s, j) == Some(q)
    decreases q - j
  {
    var e := ShapeSplit(s, j, q);
    QuotedLineExact(s, j, e);
    if e < q {
      LastQuotedExact(s, e + 2, q);
    } else {
      assert QuotedLine(s, q + 2).None?;
    }
  }

  // ---------------------------------------------------------------------------------
  // The style line, both ways

  /** `s[k..]` starts with a style line laid out as `st` says. */
  predicate StyleWritten(s: string, k: nat, st: Style) {
    && k <= st.open && st.open + 7 <= st.name < st.nameEnd && st.nameEnd + 2 <= st.end <= |s|
    && (forall m :: k <= m < st.open ==> IsBlank(s[m]))
    && s[st.open] == '{'
    && KeyEnd(s, st.open + 1) == Some(st.name)
    && (forall m :: st.name <= m < st.nameEnd ==> IsStyleChar(s[m]))
    && HasAt(s, st.nameEnd, "\"}")
    && DollarAt(s, st.nameEnd + 2, st.end)
  }

  /** `s[p..e]` is whitespace, and `e` is the end of the input or the last line
      terminator before the next character that is not whitespace. */
  predicate DollarAt(s: string, p: nat, e: nat) {
    && p <= e <= |s| && (forall m :: p <= m < e ==> IsSpace(s[m]))
    && (e == |s| || IsLineTerminator(s[e]))
    && (e < |s| ==>
          (SkipSpace(s, e) < |s| && forall m :: e < m < SkipSpace(s, e) ==> !IsLineTerminator(s[m])))
  }

  /** `\s*$` ends at the end of the input or at the last line terminator of the
      whitespace, whichever comes first. */
  lemma DollarSound(s: string, p: nat)
    requires p <= |s| && DollarEnd(s, p).Some?
    ensures DollarAt(s, p, DollarEnd(s, p).value)
  {
    var w := SkipSpace(s, p);
    var e := DollarEnd(s, p).value;
    SkipSpaceIsSpan(s, p);
    if e < |s| {
      BreakBackSound(s, p, w);
      SkipSpaceIsSpan(s, e);
      SpanExact(s, e, IsSpace, w);
    }
  }

  lemma {:induction false} BreakBackSound(s: string, lo: nat, k: nat)
    requires lo <= k < |s| && BreakBack(s, lo, k).Some?
    ensures var e := BreakBack(s, lo, k).value;
      IsLineTerminator(s[e]) && forall m :: e < m <= k ==> !IsLineTerminator(s[m])
    decreases k
  {
    if !IsLineTerminator(s[k]) {
      BreakBackSound(s, lo, k - 1);
    }
  }

  /** Whitespace up to a line terminator that no other follows in the run is where
      `\s*$` ends. */
  lemma DollarExact(s: string, p: nat, e: nat)
    requires DollarAt(s, p, e)
    ensures DollarEnd(s, p) == Some(e)
  {
    var w := SkipSpace(s, p);
    SkipSpaceIsSpan(s, p);
    if e < |s| {
      SkipSpaceIsSpan(s, e);
      SpanExact(s, p, IsSpace, Span(s, e, IsSpace));
      BreakBackExact(s, p, w, e);
    } else {
      SpanExact(s, p, IsSpace, e);
    }
  }

  /** The search backwards stops at the first line terminator it meets. */
  lemma {:induction false} BreakBackExact(s: string, lo: nat, k: nat, e: nat)
    requires lo <= e <= k < |s| && IsLineTerminator(s[e])
    requires forall m :: e < m <= k ==> !IsLineTerminator(s[m])
    ensures BreakBack(s, lo, k) == Some(e)
    decreases k
  {
    if k > e {
      BreakBackExact(s, lo, k - 1, e);
    }
  }

  /** Everything read as a style line is one. */
  lemma StyleSound(s: string, k: nat)
    requires k <= |s| && StyleLine(s, k).Some?
    ensures StyleWritten(s, k, StyleLine(s, k).value)
  {
    var st := StyleLine(s, k).value;
    RunSound(s, k, Blank);
    RunSound(s, st.name, Name);
    DollarSound(s, st.nameEnd + 2);
    HasAtChar(s, st.nameEnd, "\"}", 0);
  }

  /** Every style line laid out as `st` says is read as such. */
  lemma StyleRecognised(s: string, k: nat, st: Style)
    requires k <= |s| && StyleWritten(s, k, st)
    ensures StyleLine(s, k) == Some(st)
  {
    StyleKeyExact(s, k, st);
    HasAtChar(s, st.nameEnd, "\"}", 0);
    RunTo(s, st.name, Name, st.nameEnd);
    DollarExact(s, st.nameEnd + 2, st.end);
    StyleAssembled(s, k, st);
  }

  /** The stages of a style line put together. */
  lemma StyleAssembled(s: string, k: nat, st: Style)
    requires k <= |s| && StyleKey(s, k) == Some((st.open, st.name)) && st.name < st.nameEnd
    requires ClassRun(s, st.name, Name) == st.nameEnd && HasAt(s, st.nameEnd, "\"}")
    requires DollarEnd(s, st.nameEnd + 2) == Some(st.end)
    ensures StyleLine(s, k) == Some(st)
  {
  }

  lemma StyleKeyExact(s: string, k: nat, st: Style)
    requires k <= |s| && StyleWritten(s, k, st)
    ensures StyleKey(s, k) == Some((st.open, st.name))
  {
    RunTo(s, k, Blank, st.open);
  }

  // ---------------------------------------------------------------------------------
  // The whole pattern, both ways

  /** `s[i..]` starts with a styled blockquote laid out as `c` says. */
  predicate ContainerWritten(s: string, i: nat, c: Container) {
    && i <= c.indent < |s| && c.close + 2 <= |s| && AtLineStart(s, i)
    && (forall m :: i <= m < c.indent ==> IsBlank(s[m]))
    && s[c.indent] == '>'
    && QuoteShape(s, c.indent, c.close) && HasAt(s, c.close, "\r\n")
    && StyleWritten(s, c.close + 2, c.style)
  }

  /** Everything matched is a styled blockquote. */
  lemma ContainerSound(s: string, i: nat)
    requires ContainerAt(s, i).Some?
    ensures ContainerWritten(s, i, ContainerAt(s, i).value)
  {
    var c := ContainerAt(s, i).value;
    ContainerParts(s, i);
    RunSound(s, i, Blank);
    LastQuotedSound(s, c.indent);
    StyleSound(s, c.close + 2);
  }

  /** The stages of a match taken apart. */
  lemma ContainerParts(s: string, i: nat)
    requires ContainerAt(s, i).Some?
    ensures var c := ContainerAt(s, i).value;
      && AtLineStart(s, i) && i <= c.indent <= |s| && ClassRun(s, i, Blank) == c.indent
      && LastQuoted(s, c.indent) == Some(c.close) && StyleLine(s, c.close + 2) == Some(c.style)
  {
  }

  /** The stages of a match put together. */
  lemma ContainerAssembled(s: string, i: nat, c: Container)
    requires i <= |s| && AtLineStart(s, i) && ClassRun(s, i, Blank) == c.indent
    requires LastQuoted(s, c.indent) == Some(c.close) && StyleLine(s, c.close + 2) == Some(c.style)
    ensures ContainerAt(s, i) == Some(c)
  {
  }

  /** Every styled blockquote is matched, to the end of its style line. */
  lemma ContainerRecognised(s: string, i: nat, c: Container)
    requires ContainerWritten(s, i, c)
    ensures ContainerAt(s, i) == Some(c)
  {
    RunTo(s, i, Blank, c.indent);
    StyleRecognised(s, c.close + 2, c.style);
    assert !MarkBefore(s, c.close + 2, |s|) by {
      RunTo(s, c.close + 2, Blank, c.style.open);
    }
    LastQuotedExact(s, c.indent, c.close);
    ContainerAssembled(s, i, c);
  }

  // ---------------------------------------------------------------------------------
  // The replacement

  /** Both the match and the container it becomes: the container's lines are the
      indentation followed by `::: name`, by the cleaned quoted text, and by `:::`. The
      cleaned text holds no CR and no LF, so it is one line. */
  lemma ContainerBlock(s: string, i: nat, c: Container)
    requires ContainerWritten(s, i, c)
    ensures var indent := s[i..c.indent]; var name := s[c.style.name..c.style.nameEnd];
      var body := Trim(Unquote(s[c.indent..c.close]));
      && '\r' !in body && '\n' !in body
      && Replacement(s, i, c.style.end) == indent + ("::: " + name) + "\n" + (indent + body) + "\n" + (indent + ":::")
  {
    var content := s[c.indent..c.close];
    var name := s[c.style.name..c.style.nameEnd];
    ContainerRecognised(s, i, c);
    ShapeSlice(s, c.indent, c.close);
    UnquoteClean(content);
    TrimKeeps(Unquote(content), '\r');
    TrimKeeps(Unquote(content), '\n');
    assert '\n' !in name by {
      forall m | 0 <= m < |name| ensures name[m] != '\n' {
        assert IsStyleChar(s[c.style.name + m]);
      }
    }
    ContainerizeShape(s[i..c.indent], content, name);
  }

  /** The container laid out line by line, when the name and the cleaned text are each
      one line. */
  lemma ContainerizeShape(indent: string, content: string, name: string)
    requires '\n' !in name && '\n' !in Trim(Unquote(content))
    ensures Containerize(indent, content, name)
      == indent + ("::: " + name) + "\n" + (indent + Trim(Unquote(content))) + "\n" + (indent + ":::")
  {
    BlockLines(indent, name, Trim(Unquote(content)));
  }

  /** The three lines of a block, each prefixed with the indentation. */
  lemma BlockLines(indent: string, name: string, body: string)
    requires '\n' !in name && '\n' !in body
    ensures Join(Indent(Split("::: " + name + "\n" + body + "\n:::", '\n'), indent), '\n')
      == indent + ("::: " + name) + "\n" + (indent + body) + "\n" + (indent + ":::")
  {
    var head := "::: " + name;
    var parts := [head, body, ":::"];
    JoinThree(head, body, ":::", '\n');
    assert "::: " + name + "\n" + body + "\n:::" == head + ['\n'] + body + ['\n'] + ":::";
    assert '\n' !in head;
    SplitJoin(parts, '\n');
    var lines := Indent(parts, indent);
    assert lines == [indent + head, indent + body, indent + ":::"];
    JoinThree(indent + head, indent + body, indent + ":::", '\n');
  }

  /** The cleaning leaves no CR, and no LF in the text of a run of quoted lines: each LF
      starts a marker, which is deleted with it. */
  lemma UnquoteClean(content: string)
    ensures '\r' !in Unquote(content)
    ensures QuoteShape(content, 0, |content|) ==> '\n' !in Unquote(content)
  {
    var cleaned := ReplaceAll(content, MarkerEnd, Delete());
    JoinSplitSubstitutes(cleaned, '\r', ' ');
    if QuoteShape(content, 0, |content|) {
      forall k | 0 <= k < |content| && content[k] == '\n' ensures MatchesAt(MarkerEnd, content, k) {
        MarkerAtBreak(content, k);
      }
      DeleteRemoves(content, 0, MarkerEnd, '\n');
    }
  }

  /** Every LF of a run of quoted lines starts a marker. */
  lemma MarkerAtBreak(t: string, k: nat)
    requires QuoteShape(t, 0, |t|) && k < |t| && t[k] == '\n'
    ensures MatchesAt(MarkerEnd, t, k)
  {
    assert IsCrOrLf(t[k]) && BreakAt(t, 0, |t|, k);
    var b := ClassRun(t, k + 1, Blank);
    RunSound(t, k + 1, Blank);
    forall m | k <= m < b ensures IsSpace(t[m]) {
      if m > k {
        assert In(Blank, t[m]);
      }
    }
    SkipSpaceIsSpan(t, k);
    SpanExact(t, k, IsSpace, b);
  }

  /** The quoted lines of a match, taken out of the source, are still a run of quoted
      lines. */
  lemma ShapeSlice(s: string, j: nat, q: nat)
    requires QuoteShape(s, j, q)
    ensures QuoteShape(s[j..q], 0, q - j)
  {
    var t := s[j..q];
    MarkSlice(s, j, q, j);
    forall k | 0 <= k < q - j && IsCrOrLf(t[k]) ensures BreakAt(t, 0, q - j, k) {
      assert t[k] == s[j + k];
      assert IsCrOrLf(s[j + k]) && BreakAt(s, j, q, j + k);
      if t[k] == '\n' {
        MarkSlice(s, j, q, j + k + 1);
      }
    }
  }

  lemma MarkSlice(s: string, j: nat, q: nat, k: nat)
    requires j <= k && MarkBefore(s, k, q)
    ensures MarkBefore(s[j..q], k - j, q - j)
  {
    var t := s[j..q];
    var b := ClassRun(s, k, Blank);
    RunSound(s, k, Blank);
    forall m | k - j <= m < b - j ensures In(Blank, t[m]) {
      assert t[m] == s[j + m];
    }
    RunTo(t, k - j, Blank, b - j);
  }

  /** One quoted line loses its blanks, its `>` and at most one whitespace character
      after it. */
  lemma UnquoteLine(g: string, x: string)
    requires forall k :: 0 <= k < |g| ==> IsBlank(g[k])
    requires forall k :: 0 <= k < |x| ==> !IsLineTerminator(x[k])
    ensures Unquote(g + ">" + x) == if x != [] && IsSpace(x[0]) then x[1..] else x
  {
    CleanLine(g, x);
    var r := if x != [] && IsSpace(x[0]) then x[1..] else x;
    FindCharExact(r, '\r', 0, |r|);
  }

  /** The marker of one quoted line is its only one. */
  lemma CleanLine(g: string, x: string)
    requires forall k :: 0 <= k < |g| ==> IsBlank(g[k])
    requires forall k :: 0 <= k < |x| ==> !IsLineTerminator(x[k])
    ensures ReplaceAll(g + ">" + x, MarkerEnd, Delete()) == if x != [] && IsSpace(x[0]) then x[1..] else x
  {
    var t := g + ">" + x;
    var e := LineMarker(g, x);
    FirstMatchAt(t, 0, MarkerEnd, 0);
    FirstDeleted(t, MarkerEnd);
    forall k | e <= k < |t| ensures !MatchesAt(MarkerEnd, t, k) {
      LineNotStart(g, x, k);
    }
    CopyUntil(t, e, |t|, MarkerEnd, Delete());
    assert t[|g| + 1..] == x;
  }

  /** The marker at the start of a quoted line. */
  lemma LineMarker(g: string, x: string) returns (e: nat)
    requires forall k :: 0 <= k < |g| ==> IsBlank(g[k])
    ensures e == if x != [] && IsSpace(x[0]) then |g| + 2 else |g| + 1
    ensures MarkerEnd(g + ">" + x, 0) == Some(e)
  {
    var t := g + ">" + x;
    assert t[|g|] == '>';
    forall k | 0 <= k < |g| ensures IsSpace(t[k]) {
      assert t[k] == g[k];
    }
    SkipSpaceIsSpan(t, 0);
    SpanExact(t, 0, IsSpace, |g|);
    if x != [] {
      assert t[|g| + 1] == x[0];
    }
    e := MarkerEnd(t, 0).value;
  }

  /** After its `>`, a quoted line has no line start. */
  lemma LineNotStart(g: string, x: string, k: nat)
    requires forall k :: 0 <= k < |x| ==> !IsLineTerminator(x[k])
    requires |g| < k <= |g| + 1 + |x|
    ensures !AtLineStart(g + ">" + x, k)
  {
    var t := g + ">" + x;
    if k > |g| + 1 {
      assert t[k - 1] == x[k - |g| - 2];
    }
  }

  // ---------------------------------------------------------------------------------
  // The source

  /** The first match is replaced by its container; the text before it is copied and
      the search resumes after the style line. */
  lemma FirstContainerReplaced(src: string)
    requires FirstMatch(src, 0, ContainerEnd).Some?
    ensures var i := FirstMatch(src, 0, ContainerEnd).value; var c := ContainerAt(src, i).value;
      && ContainerWritten(src, i, c)
      && Parse(src) == src[..i] + Replacement(src, i, c.style.end) + ReplaceFrom(src, c.style.end, ContainerEnd, Replacement)
  {
    ContainerSound(src, FirstMatch(src, 0, ContainerEnd).value);
    FirstThenRest(src, ContainerEnd, Replacement);
  }

  /** A source without CRLF line breaks is parsed as it is. */
  lemma NoCrLfUnchanged(src: string)
    requires forall k :: 0 <= k < |src| ==> !HasAt(src, k, "\r\n")
    ensures Parse(src) == src
  {
    forall j | 0 <= j < |src| ensures !MatchesAt(ContainerEnd, src, j) {
      if ContainerAt(src, j).Some? {
        ContainerSound(src, j);
      }
    }
    NoMatchUnchanged(src, ContainerEnd, Replacement);
  }
}
