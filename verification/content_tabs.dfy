/**
  MkDocs content tabs (`=== "Title"` headers with indented bodies) rewritten into
  `<tabs>`/`<tab title="…">` containers by one forward scan over the lines that keeps an
  explicit stack of open levels (docs/.vitepress/markdown-it-mk-code-tabs.ts).

  The scan emits `Emit` items rather than strings so that openers and closers can be
  told apart from copied text; `Render` turns them into the exact strings the rule
  pushes, and `TransformTabs` joins those with line feeds.
 */
module ContentTabs {
  import opened Strings

  /** A `<tabs>` group or one `<tab>` inside it. */
  datatype Kind = Group | Item

  /** One open level: the header's source indentation, the indentation its markers are
      written at, and what it opened. */
  datatype Entry = Entry(indent: string, outputIndent: string, kind: Kind)

  /** One element of the rule's output list. A sibling closer is the one written when a
      header replaces the open tab at its own indentation; it carries no leading newline. */
  datatype Emit =
    | Text(line: string)
    | Open(kind: Kind, outputIndent: string, title: string)
    | Close(kind: Kind, outputIndent: string, sibling: bool)

  datatype State = State(stack: seq<Entry>, out: seq<Emit>)

  // ---------------------------------------------------------------------------------
  // The header pattern  ^(\s*)===\s*"(.*)"\s*$

  predicate NoLineTerminator(s: string) {
    forall k :: 0 <= k < |s| ==> !IsLineTerminator(s[k])
  }

  /** `line` is a tab header with the given indentation and title. */
  predicate IsHeader(line: string, indent: string, gap: string, title: string, tail: string) {
    && line == indent + "===" + gap + "\"" + title + "\"" + tail
    && AllSpace(indent) && AllSpace(gap) && AllSpace(tail)
    && NoLineTerminator(title)
  }

  /** The position of the last `"` of `s[..j]`, if there is one. */
  function LastQuote(s: string, j: nat): (r: Option<nat>)
    requires j <= |s|
    ensures r.Some? ==> r.value < j && s[r.value] == '"'
    ensures r.Some? ==> forall k :: r.value < k < j ==> s[k] != '"'
    ensures r.None? ==> forall k :: 0 <= k < j ==> s[k] != '"'
  {
    if j == 0 then None
    else if s[j - 1] == '"' then Some(j - 1)
    else LastQuote(s, j - 1)
  }

  /** The indentation and title of a header line. The greedy `(.*)` makes the title run
      to the last quote of the line, which only whitespace may follow. */
  function ParseHeader(line: string): (r: Option<(string, string)>)
    ensures r.Some? ==> exists gap, tail :: IsHeader(line, r.value.0, gap, r.value.1, tail)
  {
    var a := Span(line, 0, IsSpace);
    if !HasAt(line, a, "===") then None
    else
      var b := Span(line, a + 3, IsSpace);
      if !HasAt(line, b, "\"") then None
      else match LastQuote(line, |line|)
        case None => None
        case Some(q) =>
          if q <= b || !AllSpace(line[q + 1..]) || !NoLineTerminator(line[b + 1..q]) then None
          else
            HasAtChar(line, b, "\"", 0);
            HeaderParts(line, a, b, q);
            Some((line[..a], line[b + 1..q]))
  }

  /** The pieces a header match leaves between its landmarks. */
  lemma HeaderParts(line: string, a: nat, b: nat, q: nat)
    requires a + 3 <= b < q < |line|
    requires HasAt(line, a, "===") && line[b] == '"' && line[q] == '"'
    requires AllSpace(line[..a]) && AllSpace(line[a + 3..b]) && AllSpace(line[q + 1..])
    requires NoLineTerminator(line[b + 1..q])
    ensures IsHeader(line, line[..a], line[a + 3..b], line[b + 1..q], line[q + 1..])
  {
    assert line[a..a + 3] == "===";
    assert line == line[..a] + line[a..a + 3] + line[a + 3..b] + [line[b]] + line[b + 1..q] + [line[q]] + line[q + 1..];
  }

  /** Every line of header shape is recognised, with its own indentation and title. The
      title may itself hold quotes: only whitespace follows its closing one. */
  lemma ParseHeaderComplete(line: string, indent: string, gap: string, title: string, tail: string)
    requires IsHeader(line, indent, gap, title, tail)
    ensures ParseHeader(line) == Some((indent, title))
  {
    var a, b, q := |indent|, |indent| + 3 + |gap|, |indent| + 3 + |gap| + 1 + |title|;
    HeaderSlices(line, indent, gap, title, tail);
    assert line[..a] == indent && line[a + 3..b] == gap && line[q + 1..] == tail;
    assert line[b + 1..q] == title;
    HeaderLandmarks(line, a, b, q);
  }

  /** A line laid out as a header around the landmarks `a`, `b` and `q` is parsed there. */
  lemma HeaderLandmarks(line: string, a: nat, b: nat, q: nat)
    requires a + 3 <= b < q < |line|
    requires AllSpace(line[..a]) && HasAt(line, a, "===")
    requires AllSpace(line[a + 3..b]) && HasAt(line, b, "\"")
    requires line[q] == '"' && AllSpace(line[q + 1..]) && NoLineTerminator(line[b + 1..q])
    ensures ParseHeader(line) == Some((line[..a], line[b + 1..q]))
  {
    SliceSpace(line, 0, a);
    SliceSpace(line, a + 3, b);
    SliceSpace(line, q + 1, |line|);
    HasAtChar(line, a, "===", 0);
    HasAtChar(line, b, "\"", 0);
    SpanExact(line, 0, IsSpace, a);
    SpanExact(line, a + 3, IsSpace, b);
    forall k | q < k < |line| ensures line[k] != '"' {
      assert IsSpace(line[k]);
    }
    LastQuoteExact(line, |line|, q);
    ParseHeaderAt(line, a, b, q);
  }

  /** `ParseHeader` at the landmarks it finds: the indentation's end `a`, the opening quote
      `b` and the last quote `q`. */
  lemma ParseHeaderAt(line: string, a: nat, b: nat, q: nat)
    requires a + 3 <= b < q < |line|
    requires Span(line, 0, IsSpace) == a && HasAt(line, a, "===")
    requires Span(line, a + 3, IsSpace) == b && HasAt(line, b, "\"")
    requires LastQuote(line, |line|) == Some(q)
    requires AllSpace(line[q + 1..]) && NoLineTerminator(line[b + 1..q])
    ensures ParseHeader(line) == Some((line[..a], line[b + 1..q]))
  {
    assert !(q <= b || !AllSpace(line[q + 1..]) || !NoLineTerminator(line[b + 1..q]));
  }

  /** Where the pieces of a header sit in its line. */
  lemma HeaderSlices(line: string, indent: string, gap: string, title: string, tail: string)
    requires line == indent + "===" + gap + "\"" + title + "\"" + tail
    ensures var a := |indent|; var b := a + 3 + |gap|; var q := b + 1 + |title|;
      && q < |line|
      && line[..a] == indent && HasAt(line, a, "===")
      && line[a + 3..b] == gap && line[b] == '"' && HasAt(line, b, "\"") && line[b + 1..q] == title
      && line[q] == '"' && line[q + 1..] == tail
  {
  }

  /** A quote followed by no other quote before `j` is the last quote of `s[..j]`. */
  lemma {:induction false} LastQuoteExact(s: string, j: nat, q: nat)
    requires q < j <= |s| && s[q] == '"'
    requires forall k :: q < k < j ==> s[k] != '"'
    ensures LastQuote(s, j) == Some(q)
    decreases j
  {
    if j - 1 != q {
      LastQuoteExact(s, j - 1, q);
    }
  }

  // ---------------------------------------------------------------------------------
  // The stack machine

  function Top(stack: seq<Entry>): Entry
    requires |stack| > 0
  {
    stack[|stack| - 1]
  }

  function Pop(stack: seq<Entry>): seq<Entry>
    requires |stack| > 0
  {
    stack[..|stack| - 1]
  }

  function CloserOf(e: Entry): Emit {
    Close(e.kind, e.outputIndent, false)
  }

  /** The closers of `popped`, innermost (last pushed) first. */
  function Closers(popped: seq<Entry>): (r: seq<Emit>)
    ensures |r| == |popped|
    ensures forall k :: 0 <= k < |popped| ==> r[k] == CloserOf(popped[|popped| - 1 - k])
  {
    if popped == [] then [] else [CloserOf(Top(popped))] + Closers(Pop(popped))
  }

  /** `closeLevels(target)`: pops, and closes, every level from the top whose header
      indentation is at least `target`. */
  function CloseLevels(st: State, target: nat): (r: State)
    ensures |r.stack| <= |st.stack| && r.stack == st.stack[..|r.stack|]
    ensures forall k :: |r.stack| <= k < |st.stack| ==> |st.stack[k].indent| >= target
    ensures |r.stack| > 0 ==> |Top(r.stack).indent| < target
    ensures r.out == st.out + Closers(st.stack[|r.stack|..])
    decreases |st.stack|
  {
    if |st.stack| > 0 && |Top(st.stack).indent| >= target then
      var r := CloseLevels(State(Pop(st.stack), st.out + [CloserOf(Top(st.stack))]), target);
      assert st.stack[|r.stack|..] == Pop(st.stack)[|r.stack|..] + [Top(st.stack)];
      r
    else
      st
  }

  /** A header at the open tab's indentation width closes that tab (without a leading
      newline) so that its sibling can take its place. */
  function CloseSibling(s: State, width: nat): State {
    if |s.stack| > 0 && |Top(s.stack).indent| == width && Top(s.stack).kind == Item
    then State(Pop(s.stack), s.out + [Close(Item, Top(s.stack).outputIndent, true)])
    else s
  }

  /** Nested headers write their markers at the open parent's output indentation; a
      header with nothing open uses its own indentation. */
  function OutputIndent(s: State, indent: string): string {
    if |s.stack| > 0 then Top(s.stack).outputIndent else indent
  }

  /** Opens a `<tabs>` group unless one at the header's width is already on top. */
  function EnsureGroup(s: State, indent: string, oi: string): State {
    if |s.stack| > 0 && |Top(s.stack).indent| == |indent| && Top(s.stack).kind == Group then s
    else State(s.stack + [Entry(indent, oi, Group)], s.out + [Open(Group, oi, "")])
  }

  /** A header line: close deeper levels, close an open sibling tab, open a group unless
      the one at this indentation is still open, then open the tab. */
  function OnHeader(st: State, indent: string, title: string): State {
    PlaceHeader(CloseLevels(st, |indent| + 1), indent, title)
  }

  /** What a header does once the deeper levels are closed. */
  function PlaceHeader(s1: State, indent: string, title: string): State {
    var s2 := CloseSibling(s1, |indent|);
    var oi := OutputIndent(s2, indent);
    var s3 := EnsureGroup(s2, indent, oi);
    State(s3.stack + [Entry(indent, oi, Item)], s3.out + [Open(Item, oi, title)])
  }

  /** The body of a tab: its header indentation and then four spaces or one tab are
      removed and the tab's output indentation is put in front. */
  function Dedent(line: string, top: Entry): string {
    if StartsWith(line, top.indent) then
      var c := line[|top.indent|..];
      var c' := if StartsWith(c, "    ") then c[4..] else if StartsWith(c, "\t") then c[1..] else c;
      top.outputIndent + c'
    else
      line
  }

  /** A line that is not a header. */
  function OnLine(st: State, line: string): State {
    if Trim(line) == [] then
      State(st.stack, st.out + [Text(line)])
    else
      var cur := |LeadingSpace(line)|;
      if |st.stack| > 0 && cur > |Top(st.stack).indent| && Top(st.stack).kind == Item then
        State(st.stack, st.out + [Text(Dedent(line, Top(st.stack)))])
      else
        var s1 := CloseLevels(st, cur);
        State(s1.stack, s1.out + [Text(line)])
  }

  /** A source line as the rule's header test sees it. */
  datatype SourceLine = Header(indent: string, title: string) | Plain(text: string)

  function Classify(line: string): (r: SourceLine)
    ensures r.Plain? ==> r.text == line
  {
    match ParseHeader(line)
    case Some((indent, title)) => Header(indent, title)
    case None => Plain(line)
  }

  function ClassifyAll(lines: seq<string>): (r: seq<SourceLine>)
    ensures |r| == |lines|
    ensures forall k :: 0 <= k < |lines| ==> r[k] == Classify(lines[k])
  {
    seq(|lines|, k requires 0 <= k < |lines| => Classify(lines[k]))
  }

  function Step(st: State, line: SourceLine): State {
    match line
    case Header(indent, title) => OnHeader(st, indent, title)
    case Plain(text) => OnLine(st, text)
  }

  function Scan(st: State, lines: seq<SourceLine>): State
    decreases |lines|
  {
    if lines == [] then st else Scan(Step(st, lines[0]), lines[1..])
  }

  /** The whole output list: the scan from an empty stack, then `closeLevels(0)`. */
  function Finish(lines: seq<SourceLine>): seq<Emit> {
    CloseLevels(Scan(State([], []), lines), 0).out
  }

  function RenderOne(e: Emit): seq<string> {
    match e
    case Text(l) => [l]
    case Open(Group, oi, _) => [oi + "<tabs>\n"]
    case Open(Item, oi, t) => [oi + "<tab title=\"" + t + "\">\n"]
    case Close(Group, oi, _) => ["\n" + oi + "</tabs>", ""]
    case Close(Item, oi, sibling) => [if sibling then oi + "</tab>" else "\n" + oi + "</tab>"]
  }

  function Render(out: seq<Emit>): seq<string> {
    if out == [] then [] else Render(out[..|out| - 1]) + RenderOne(out[|out| - 1])
  }

  /** The core rule `mk_tabs_to_container` on a whole source. */
  function TransformTabs(src: string): string {
    Join(Render(Finish(ClassifyAll(Split(src, '\n')))), '\n')
  }

  // ---------------------------------------------------------------------------------
  // Stack shape

  /** Groups sit at even positions with their tab right above at the same indentation
      width; every group is strictly deeper than all levels below it; and every level
      writes its markers at the bottom group's indentation. */
  predicate WellFormed(stack: seq<Entry>) {
    && |stack| % 2 == 0
    && (forall k :: 0 <= k < |stack| ==> (stack[k].kind == Group <==> k % 2 == 0))
    && (forall k :: 0 < k < |stack| && k % 2 == 1 ==> |stack[k].indent| == |stack[k - 1].indent|)
    && (forall j, k :: 0 <= j < k < |stack| && k % 2 == 0 ==> |stack[j].indent| < |stack[k].indent|)
    && (forall k :: 0 <= k < |stack| ==> stack[k].outputIndent == stack[0].indent)
  }

  /** Indentation widths never decrease from the bottom of the stack to the top. */
  lemma WellFormedMonotone(stack: seq<Entry>, j: nat, k: nat)
    requires WellFormed(stack)
    requires j <= k < |stack|
    ensures |stack[j].indent| <= |stack[k].indent|
  {
    if j < k && k % 2 == 1 {
      assert |stack[k].indent| == |stack[k - 1].indent|;
    }
  }

  lemma PrefixWellFormed(stack: seq<Entry>, n: nat)
    requires WellFormed(stack)
    requires n <= |stack| && n % 2 == 0
    ensures WellFormed(stack[..n])
  {
  }

  /** Closing levels never splits a group from its tab. */
  lemma CloseLevelsWellFormed(st: State, target: nat)
    requires WellFormed(st.stack)
    ensures WellFormed(CloseLevels(st, target).stack)
  {
    var r := CloseLevels(st, target);
    var n := |r.stack|;
    if n % 2 == 1 {
      assert false;
    }
    PrefixWellFormed(st.stack, n);
  }

  /** Opening a group and its first tab deeper than every open level keeps the shape. */
  lemma PushPairWellFormed(stack: seq<Entry>, indent: string, oi: string)
    requires WellFormed(stack)
    requires |stack| == 0 || |Top(stack).indent| < |indent|
    requires oi == if |stack| > 0 then stack[0].indent else indent
    ensures WellFormed(stack + [Entry(indent, oi, Group), Entry(indent, oi, Item)])
  {
    var n := |stack|;
    var t := stack + [Entry(indent, oi, Group), Entry(indent, oi, Item)];
    assert |t| == n + 2;
    forall k | 0 <= k < |t|
      ensures (t[k].kind == Group <==> k % 2 == 0) && t[k].outputIndent == t[0].indent
    {
      if k < n {
        assert t[k] == stack[k] && t[0] == stack[0];
      }
    }
    forall k | 0 < k < |t| && k % 2 == 1 ensures |t[k].indent| == |t[k - 1].indent| {
      if k < n {
        assert t[k] == stack[k] && t[k - 1] == stack[k - 1];
      }
    }
    forall j, k | 0 <= j < k < |t| && k % 2 == 0 ensures |t[j].indent| < |t[k].indent| {
      if k < n {
        assert t[j] == stack[j] && t[k] == stack[k];
      } else {
        assert k == n && t[j] == stack[j];
        WellFormedMonotone(stack, j, n - 1);
      }
    }
  }

  /** Replacing the open tab by a sibling at the same width keeps the shape. */
  lemma SiblingWellFormed(stack: seq<Entry>, indent: string, oi: string)
    requires WellFormed(stack) && |stack| > 0
    requires |Top(stack).indent| == |indent|
    requires oi == stack[0].indent
    ensures WellFormed(Pop(stack) + [Entry(indent, oi, Item)])
  {
    var n := |stack|;
    assert n % 2 == 0 && n >= 2;
    assert |stack[n - 2].indent| == |stack[n - 1].indent|;
  }

  lemma OnHeaderWellFormed(st: State, indent: string, title: string)
    requires WellFormed(st.stack)
    ensures WellFormed(OnHeader(st, indent, title).stack)
  {
    CloseLevelsWellFormed(st, |indent| + 1);
    var s1 := CloseLevels(st, |indent| + 1);
    if |s1.stack| > 0 && |Top(s1.stack).indent| == |indent| {
      PlaceSibling(s1, indent, title);
      SiblingWellFormed(s1.stack, indent, s1.stack[0].indent);
    } else {
      var oi := if |s1.stack| > 0 then s1.stack[0].indent else indent;
      PlaceNewGroup(s1, indent, oi, title);
      PushPairWellFormed(s1.stack, indent, oi);
    }
  }

  lemma OnLineWellFormed(st: State, line: string)
    requires WellFormed(st.stack)
    ensures WellFormed(OnLine(st, line).stack)
  {
    if Trim(line) != [] {
      CloseLevelsWellFormed(st, |LeadingSpace(line)|);
    }
  }

  lemma StepWellFormed(st: State, line: SourceLine)
    requires WellFormed(st.stack)
    ensures WellFormed(Step(st, line).stack)
  {
    match line
    case Header(indent, title) => OnHeaderWellFormed(st, indent, title);
    case Plain(text) => OnLineWellFormed(st, text);
  }

  lemma {:induction false} ScanWellFormed(st: State, lines: seq<SourceLine>)
    requires WellFormed(st.stack)
    ensures WellFormed(Scan(st, lines).stack)
    decreases |lines|
  {
    if lines != [] {
      StepWellFormed(st, lines[0]);
      ScanWellFormed(Step(st, lines[0]), lines[1..]);
    }
  }

  /** The stack invariant holds between any two lines of any input. */
  lemma StackInvariant(lines: seq<SourceLine>)
    ensures WellFormed(Scan(State([], []), lines).stack)
  {
    ScanWellFormed(State([], []), lines);
  }

  // ---------------------------------------------------------------------------------
  // Balance of the output

  /** What a closer must match: the kind and output indentation of an opener. */
  datatype Frame = Frame(kind: Kind, outputIndent: string)

  function Frames(stack: seq<Entry>): (r: seq<Frame>)
    ensures |r| == |stack|
    ensures forall k :: 0 <= k < |stack| ==> r[k] == Frame(stack[k].kind, stack[k].outputIndent)
  {
    if stack == [] then [] else Frames(Pop(stack)) + [Frame(Top(stack).kind, Top(stack).outputIndent)]
  }

  /** Reads an output list as a bracket sequence: the frames still open after it, or
      `None` when some closer does not match the innermost open opener. */
  function Nest(out: seq<Emit>): Option<seq<Frame>> {
    if out == [] then Some([])
    else match Nest(out[..|out| - 1])
      case None => None
      case Some(fs) =>
        match out[|out| - 1]
        case Text(_) => Some(fs)
        case Open(k, oi, _) => Some(fs + [Frame(k, oi)])
        case Close(k, oi, _) =>
          if |fs| > 0 && fs[|fs| - 1] == Frame(k, oi) then Some(fs[..|fs| - 1]) else None
  }

  lemma NestAppend(out: seq<Emit>, e: Emit)
    ensures Nest(out + [e]) == match Nest(out)
      case None => None
      case Some(fs) =>
        match e
        case Text(_) => Some(fs)
        case Open(k, oi, _) => Some(fs + [Frame(k, oi)])
        case Close(k, oi, _) =>
          if |fs| > 0 && fs[|fs| - 1] == Frame(k, oi) then Some(fs[..|fs| - 1]) else None
  {
    assert (out + [e])[..|out + [e]| - 1] == out;
  }

  /** The open frames mirror the stack: each closer `closeLevels` writes matches the
      innermost open opener. */
  lemma {:induction false} CloseLevelsNest(st: State, target: nat)
    requires Nest(st.out) == Some(Frames(st.stack))
    ensures Nest(CloseLevels(st, target).out) == Some(Frames(CloseLevels(st, target).stack))
    decreases |st.stack|
  {
    if |st.stack| > 0 && |Top(st.stack).indent| >= target {
      var top := Top(st.stack);
      NestAppend(st.out, CloserOf(top));
      assert Frames(st.stack)[..|st.stack| - 1] == Frames(Pop(st.stack));
      CloseLevelsNest(State(Pop(st.stack), st.out + [CloserOf(top)]), target);
    }
  }

  lemma OnHeaderNest(st: State, indent: string, title: string)
    requires Nest(st.out) == Some(Frames(st.stack))
    ensures Nest(OnHeader(st, indent, title).out) == Some(Frames(OnHeader(st, indent, title).stack))
  {
    CloseLevelsNest(st, |indent| + 1);
    PlaceHeaderNest(CloseLevels(st, |indent| + 1), indent, title);
  }

  lemma PlaceHeaderNest(s1: State, indent: string, title: string)
    requires Nest(s1.out) == Some(Frames(s1.stack))
    ensures Nest(PlaceHeader(s1, indent, title).out) == Some(Frames(PlaceHeader(s1, indent, title).stack))
  {
    var s2 := CloseSibling(s1, |indent|);
    if s2 != s1 {
      NestAppend(s1.out, Close(Item, Top(s1.stack).outputIndent, true));
      assert Frames(s1.stack)[..|s1.stack| - 1] == Frames(Pop(s1.stack));
    }
    assert Nest(s2.out) == Some(Frames(s2.stack));
    var oi := OutputIndent(s2, indent);
    var s3 := EnsureGroup(s2, indent, oi);
    if s3 != s2 {
      NestAppend(s2.out, Open(Group, oi, ""));
      assert Frames(s3.stack) == Frames(s2.stack) + [Frame(Group, oi)];
    }
    NestAppend(s3.out, Open(Item, oi, title));
    assert Frames(s3.stack + [Entry(indent, oi, Item)]) == Frames(s3.stack) + [Frame(Item, oi)];
  }

  lemma OnLineNest(st: State, line: string)
    requires Nest(st.out) == Some(Frames(st.stack))
    ensures Nest(OnLine(st, line).out) == Some(Frames(OnLine(st, line).stack))
  {
    if Trim(line) == [] {
      NestAppend(st.out, Text(line));
    } else {
      var cur := |LeadingSpace(line)|;
      if |st.stack| > 0 && cur > |Top(st.stack).indent| && Top(st.stack).kind == Item {
        NestAppend(st.out, Text(Dedent(line, Top(st.stack))));
      } else {
        var s1 := CloseLevels(st, cur);
        CloseLevelsNest(st, cur);
        NestAppend(s1.out, Text(line));
      }
    }
  }

  lemma StepNest(st: State, line: SourceLine)
    requires Nest(st.out) == Some(Frames(st.stack))
    ensures Nest(Step(st, line).out) == Some(Frames(Step(st, line).stack))
  {
    match line
    case Header(indent, title) => OnHeaderNest(st, indent, title);
    case Plain(text) => OnLineNest(st, text);
  }

  lemma {:induction false} ScanNest(st: State, lines: seq<SourceLine>)
    requires Nest(st.out) == Some(Frames(st.stack))
    ensures Nest(Scan(st, lines).out) == Some(Frames(Scan(st, lines).stack))
    decreases |lines|
  {
    if lines != [] {
      StepNest(st, lines[0]);
      ScanNest(Step(st, lines[0]), lines[1..]);
    }
  }

  /** Every opener the rewrite emits is closed exactly once, by a closer of the same kind
      and indentation, innermost first: the output is a well-nested bracket sequence. */
  lemma WellNested(lines: seq<SourceLine>)
    ensures Nest(Finish(lines)) == Some([])
  {
    var st := Scan(State([], []), lines);
    ScanNest(State([], []), lines);
    CloseLevelsNest(st, 0);
  }

  function CountOpen(out: seq<Emit>): nat {
    if out == [] then 0 else CountOpen(out[..|out| - 1]) + (if out[|out| - 1].Open? then 1 else 0)
  }

  function CountClose(out: seq<Emit>): nat {
    if out == [] then 0 else CountClose(out[..|out| - 1]) + (if out[|out| - 1].Close? then 1 else 0)
  }

  lemma {:induction false} NestCounts(out: seq<Emit>)
    requires Nest(out).Some?
    ensures CountOpen(out) == CountClose(out) + |Nest(out).value|
  {
    if out != [] {
      NestCounts(out[..|out| - 1]);
    }
  }

  /** As many closers as openers, for every input. */
  lemma Balanced(lines: seq<SourceLine>)
    ensures CountOpen(Finish(lines)) == CountClose(Finish(lines))
  {
    WellNested(lines);
    NestCounts(Finish(lines));
  }

  /** At the end of the document the remaining levels are closed innermost first. */
  lemma DrainAtEnd(lines: seq<SourceLine>)
    ensures var st := Scan(State([], []), lines);
      Finish(lines) == st.out + Closers(st.stack)
  {
  }

  // ---------------------------------------------------------------------------------
  // Individual lines

  /** Blank and whitespace-only lines are never headers. */
  lemma BlankNotHeader(line: string)
    requires AllSpace(line)
    ensures Classify(line) == Plain(line)
  {
  }

  /** Blank and whitespace-only lines are copied and close nothing. */
  lemma BlankLineKept(st: State, line: string)
    requires AllSpace(line)
    ensures Step(st, Plain(line)) == State(st.stack, st.out + [Text(line)])
  {
  }

  /** A line more indented than the open tab's header is that tab's body: its header
      indentation and one indentation unit, four spaces or a tab, are replaced by the
      tab's output indentation. */
  lemma BodyLine(st: State, line: string, unit: string, rest: string)
    requires !AllSpace(line)
    requires |st.stack| > 0 && Top(st.stack).kind == Item && AllSpace(Top(st.stack).indent)
    requires unit == "    " || unit == "\t"
    requires line == Top(st.stack).indent + unit + rest
    ensures Step(st, Plain(line)) == State(st.stack, st.out + [Text(Top(st.stack).outputIndent + rest)])
  {
    var top := Top(st.stack);
    UnitDeeper(top.indent, unit, rest);
    UnitDedent(top.indent, unit, rest);
  }

  /** A line of the header's indentation and one unit is deeper than the header. */
  lemma UnitDeeper(indent: string, unit: string, rest: string)
    requires AllSpace(indent) && (unit == "    " || unit == "\t")
    ensures |LeadingSpace(indent + unit + rest)| > |indent|
  {
    var line := indent + unit + rest;
    var w := |indent|;
    forall k | 0 <= k < w + |unit| ensures IsSpace(line[k]) {
      if k < w { assert line[k] == indent[k]; } else { assert line[k] == unit[k - w]; }
    }
  }

  /** Such a line loses the indentation and the unit. */
  lemma UnitDedent(indent: string, unit: string, rest: string)
    requires unit == "    " || unit == "\t"
    ensures var line := indent + unit + rest; var c := line[|indent|..];
      && StartsWith(line, indent)
      && (if StartsWith(c, "    ") then c[4..] else if StartsWith(c, "\t") then c[1..] else c) == rest
  {
    var line := indent + unit + rest;
    assert line[|indent|..] == unit + rest;
    assert line[..|indent|] == indent;
    if unit == "\t" {
      assert !StartsWith(unit + rest, "    ") by {
        if StartsWith(unit + rest, "    ") {
          HasAtChar(unit + rest, 0, "    ", 0);
        }
      }
    }
  }

  /** A body line that goes on after its header indentation with neither unit, such as
      two spaces, loses only the header indentation. */
  lemma BodyLineFallback(st: State, line: string, rest: string)
    requires !AllSpace(line)
    requires |st.stack| > 0 && Top(st.stack).kind == Item
    requires |LeadingSpace(line)| > |Top(st.stack).indent|
    requires line == Top(st.stack).indent + rest && !StartsWith(rest, "    ") && !StartsWith(rest, "\t")
    ensures Step(st, Plain(line)) == State(st.stack, st.out + [Text(Top(st.stack).outputIndent + rest)])
  {
    assert line[|Top(st.stack).indent|..] == rest;
  }

  /** A body line that does not begin with its header's indentation (other white space of
      greater width) is copied as it is. */
  lemma BodyLineForeign(st: State, line: string)
    requires !AllSpace(line)
    requires |st.stack| > 0 && Top(st.stack).kind == Item
    requires |LeadingSpace(line)| > |Top(st.stack).indent| && !StartsWith(line, Top(st.stack).indent)
    ensures Step(st, Plain(line)) == State(st.stack, st.out + [Text(line)])
  {
  }

  /** A non-blank line that is not a body line closes every level whose header is at
      least as indented as it, and is then copied. */
  lemma OuterLine(st: State, line: string)
    requires !AllSpace(line)
    requires |st.stack| == 0 || Top(st.stack).kind == Group || |LeadingSpace(line)| <= |Top(st.stack).indent|
    ensures var s1 := CloseLevels(st, |LeadingSpace(line)|);
      Step(st, Plain(line)) == State(s1.stack, s1.out + [Text(line)])
  {
  }

  // ---------------------------------------------------------------------------------
  // Headers

  /** A header at the indentation of the open tab closes that tab and opens its sibling in
      the same group; a deeper or first header opens a new group. Either way the new
      markers are written at the bottom group's indentation, or at the header's own
      indentation when nothing is open. */
  lemma HeaderEffect(st: State, indent: string, title: string)
    requires WellFormed(st.stack)
    ensures var s1 := CloseLevels(st, |indent| + 1);
      var r := OnHeader(st, indent, title);
      var oi := if |s1.stack| > 0 then s1.stack[0].indent else indent;
      && (|s1.stack| > 0 && |Top(s1.stack).indent| == |indent| ==>
            && r.stack == Pop(s1.stack) + [Entry(indent, oi, Item)]
            && r.out == s1.out + [Close(Item, oi, true), Open(Item, oi, title)])
      && (|s1.stack| == 0 || |Top(s1.stack).indent| < |indent| ==>
            && r.stack == s1.stack + [Entry(indent, oi, Group), Entry(indent, oi, Item)]
            && r.out == s1.out + [Open(Group, oi, ""), Open(Item, oi, title)])
  {
    CloseLevelsWellFormed(st, |indent| + 1);
    var s1 := CloseLevels(st, |indent| + 1);
    if |s1.stack| > 0 && |Top(s1.stack).indent| == |indent| {
      PlaceSibling(s1, indent, title);
    } else if |s1.stack| > 0 {
      PlaceNewGroup(s1, indent, s1.stack[0].indent, title);
    } else {
      PlaceNewGroup(s1, indent, indent, title);
    }
  }

  /** The tab on top is replaced by its sibling inside the same group. */
  lemma PlaceSibling(s1: State, indent: string, title: string)
    requires WellFormed(s1.stack) && |s1.stack| > 0 && |Top(s1.stack).indent| == |indent|
    ensures var oi := s1.stack[0].indent;
      PlaceHeader(s1, indent, title)
      == State(Pop(s1.stack) + [Entry(indent, oi, Item)], s1.out + [Close(Item, oi, true), Open(Item, oi, title)])
  {
    var n := |s1.stack|;
    var oi := s1.stack[0].indent;
    assert Top(s1.stack).kind == Item && Top(s1.stack).outputIndent == oi;
    var s2 := CloseSibling(s1, |indent|);
    assert s2 == State(Pop(s1.stack), s1.out + [Close(Item, oi, true)]);
    assert s1.stack[n - 2].kind == Group;
    assert |s1.stack[n - 2].indent| == |s1.stack[n - 1].indent|;
    assert Top(s2.stack) == s1.stack[n - 2];
    assert OutputIndent(s2, indent) == oi;
    assert EnsureGroup(s2, indent, oi) == s2;
  }

  /** A new group and its first tab are opened on top. */
  lemma PlaceNewGroup(s1: State, indent: string, oi: string, title: string)
    requires WellFormed(s1.stack)
    requires |s1.stack| == 0 || |Top(s1.stack).indent| != |indent|
    requires oi == if |s1.stack| > 0 then s1.stack[0].indent else indent
    ensures PlaceHeader(s1, indent, title)
      == State(s1.stack + [Entry(indent, oi, Group), Entry(indent, oi, Item)],
               s1.out + [Open(Group, oi, ""), Open(Item, oi, title)])
  {
    assert CloseSibling(s1, |indent|) == s1;
    assert OutputIndent(s1, indent) == oi;
    PushPairShape(s1, indent, oi, title);
  }

  lemma PushPairShape(s1: State, indent: string, oi: string, title: string)
    requires |s1.stack| == 0 || Top(s1.stack).kind == Item
    ensures var s3 := EnsureGroup(s1, indent, oi);
      && s3.stack + [Entry(indent, oi, Item)] == s1.stack + [Entry(indent, oi, Group), Entry(indent, oi, Item)]
      && s3.out + [Open(Item, oi, title)] == s1.out + [Open(Group, oi, ""), Open(Item, oi, title)]
  {
  }

  // ---------------------------------------------------------------------------------
  // Pass-through

  /** The output list of lines copied as they are. */
  function Texts(lines: seq<string>): (r: seq<Emit>)
    ensures |r| == |lines|
    ensures forall k :: 0 <= k < |lines| ==> r[k] == Text(lines[k])
  {
    seq(|lines|, k requires 0 <= k < |lines| => Text(lines[k]))
  }

  function Plains(lines: seq<string>): (r: seq<SourceLine>)
    ensures |r| == |lines|
    ensures forall k :: 0 <= k < |lines| ==> r[k] == Plain(lines[k])
  {
    seq(|lines|, k requires 0 <= k < |lines| => Plain(lines[k]))
  }

  lemma {:induction false} ScanNoHeaders(out: seq<Emit>, lines: seq<string>)
    ensures Scan(State([], out), Plains(lines)) == State([], out + Texts(lines))
    decreases |lines|
  {
    if lines != [] {
      var rest := lines[1..];
      assert Plains(lines)[1..] == Plains(rest);
      ScanNoHeaders(out + [Text(lines[0])], rest);
      assert out + [Text(lines[0])] + Texts(rest) == out + Texts(lines);
    } else {
      assert out + Texts(lines) == out;
    }
  }

  lemma {:induction false} RenderTexts(lines: seq<string>)
    ensures Render(Texts(lines)) == lines
  {
    if lines != [] {
      var init := lines[..|lines| - 1];
      assert Texts(lines)[..|lines| - 1] == Texts(init);
      RenderTexts(init);
    }
  }

  lemma AllPlain(lines: seq<string>)
    requires forall k :: 0 <= k < |lines| ==> Classify(lines[k]).Plain?
    ensures ClassifyAll(lines) == Plains(lines)
  {
  }

  /** A source without tab headers comes out unchanged. */
  lemma NoHeadersUnchanged(src: string)
    requires forall k :: 0 <= k < |Split(src, '\n')| ==> Classify(Split(src, '\n')[k]).Plain?
    ensures TransformTabs(src) == src
  {
    var lines := Split(src, '\n');
    AllPlain(lines);
    ScanNoHeaders([], lines);
    assert Finish(Plains(lines)) == Texts(lines);
    RenderTexts(lines);
    JoinSplit(src, '\n');
  }
}
