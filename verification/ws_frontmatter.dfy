/**
  Writerside title comments: before normalisation, a source holding a
  `[//]: # (title: …)` comment gets a heading in front of it, a `<TopicTitle>` element
  when a `<primary-label ref="…"/>` follows within four lines and a `# ` heading
  otherwise (docs/.vitepress/plugins/markdown/writerside/markdown-it-ws-frontmatter.ts).
  The source itself is kept whole, comment included.

  `toLowerCase` is Unicode-aware in JavaScript; it is a parameter here.
 */
module WsFrontmatter {
  import opened Strings
  import opened Rewrite

  const TitleOpen := "[//]: # (title:"
  const LabelOpen := "<primary-label"

  // ---------------------------------------------------------------------------------
  // The title pattern  \[\/\/\]: # \(title:\s*(.*?)\)   (flag i)
  //
  // `\s*` takes the whole run of whitespace: giving some back only makes `.*?` cross the
  // same characters. The lazy `.*?` then stops at the first `)`, and fails at a line
  // terminator. With `i`, only the letters of `title` fold.

  /** Where the title text of the comment at `i` starts and where its `)` is. */
  function TitleAt(line: string, i: nat): (r: Option<(nat, nat)>)
    ensures r.Some? ==> i + |TitleOpen| <= r.value.0 <= r.value.1 < |line|
  {
    if !HasAtIgnoreCase(line, i, TitleOpen) then None else TitleText(line, i + |TitleOpen|)
  }

  /** `\s*(.*?)\)` at `p`: where the text starts and where its `)` is. */
  function TitleText(line: string, p: nat): (r: Option<(nat, nat)>)
    requires p <= |line|
    ensures r.Some? ==> p <= r.value.0 <= r.value.1 < |line|
  {
    var w := SkipSpace(line, p);
    match LineClose(line, w, ")")
    case None => None
    case Some(q) => Some((w, q - 1))
  }

  function TitleEnd(line: string, i: nat): Option<nat> {
    match TitleAt(line, i)
    case None => None
    case Some(p) => Some(p.1 + 1)
  }

  /** `titleCommentRe.exec(line)[1].trim()`, when the line has a match. */
  function Title(line: string): Option<string> {
    match FirstMatch(line, 0, TitleEnd)
    case None => None
    case Some(i) => var p := TitleAt(line, i).value; Some(Trim(line[p.0..p.1]))
  }

  // ---------------------------------------------------------------------------------
  // The label pattern  <primary-label\s+ref="([^"]+)"\/>   (flag i)
  //
  // `\s+` and `[^"]+` are followed by characters they cannot take (`r` and `"`), so each
  // takes its whole run; the run of `[^"]` must not be empty.

  /** Where the value of the label at `i` starts and ends. */
  function LabelAt(line: string, i: nat): (r: Option<(nat, nat)>)
    ensures r.Some? ==> i + |LabelOpen| < r.value.0 < r.value.1 && r.value.1 + 3 <= |line|
  {
    if !HasAtIgnoreCase(line, i, LabelOpen) then None
    else
      var a := SkipSpace(line, i + |LabelOpen|);
      if a == i + |LabelOpen| || !HasAtIgnoreCase(line, a, "ref=\"") then None
      else
        var b := FindChar(line, '"', a + 5);
        if b == a + 5 || !HasAt(line, b, "\"/>") then None
        else Some((a + 5, b))
  }

  function LabelEnd(line: string, i: nat): Option<nat> {
    match LabelAt(line, i)
    case None => None
    case Some(p) => Some(p.1 + 3)
  }

  /** `primaryLabelRe.exec(line)[1]`, when the line has a match. */
  function Label(line: string): Option<string> {
    match FirstMatch(line, 0, LabelEnd)
    case None => None
    case Some(i) => var p := LabelAt(line, i).value; Some(line[p.0..p.1])
  }

  // ---------------------------------------------------------------------------------
  // The rule

  /** What the title pattern finds on each line. */
  function Titles(lines: seq<string>): (r: seq<Option<string>>)
    ensures |r| == |lines| && forall k :: 0 <= k < |lines| ==> r[k] == Title(lines[k])
  {
    seq(|lines|, k requires 0 <= k < |lines| => Title(lines[k]))
  }

  /** What the label pattern finds on each line. */
  function Labels(lines: seq<string>): (r: seq<Option<string>>)
    ensures |r| == |lines| && forall k :: 0 <= k < |lines| ==> r[k] == Label(lines[k])
  {
    seq(|lines|, k requires 0 <= k < |lines| => Label(lines[k]))
  }

  /** `lines.findIndex(line => titleCommentRe.test(line))`, searching from `k`. */
  function TitleLine(titles: seq<Option<string>>, k: nat): (r: Option<nat>)
    ensures r.Some? ==> k <= r.value < |titles| && titles[r.value].Some?
    ensures forall j :: k <= j < |titles| && (r.None? || j < r.value) ==> titles[j].None?
    decreases |titles| - k
  {
    if k >= |titles| then None
    else if titles[k].Some? then Some(k)
    else TitleLine(titles, k + 1)
  }

  /** A line the loop stops at: it has a label whose value, trimmed and lower-cased, is
      not `none`. */
  predicate Offers(v: Option<string>, lower: string -> string) {
    v.Some? && lower(Trim(v.value)) != "none"
  }

  /** The loop over the lines `k..last`: the first line that offers a label. */
  function LabelLine(labels: seq<Option<string>>, k: nat, last: nat, lower: string -> string): (r: Option<nat>)
    ensures r.Some? ==> k <= r.value <= last && r.value < |labels| && Offers(labels[r.value], lower)
    ensures forall j :: k <= j <= last && j < |labels| && (r.None? || j < r.value) ==> !Offers(labels[j], lower)
    decreases |labels| - k
  {
    if k > last || k >= |labels| then None
    else if Offers(labels[k], lower) then Some(k)
    else LabelLine(labels, k + 1, last, lower)
  }

  /** `ref`: the trimmed value the loop stops at in the four lines after the title, or
      empty. */
  function Ref(labels: seq<Option<string>>, t: nat, lower: string -> string): string {
    match LabelLine(labels, t + 1, t + 4, lower)
    case None => []
    case Some(k) => Trim(labels[k].value)
  }

  function Heading(title: string, ref: string): string {
    if ref != [] then "<TopicTitle labelRef=\"" + ref + "\" title=\"" + title + "\"/>"
    else "# " + title
  }

  /** The rule: the new source. */
  function Frontmatter(src: string, lower: string -> string): (r: string)
    ensures EndsWith(r, src)
  {
    var lines := SplitLines(src);
    var titles := Titles(lines);
    match TitleLine(titles, 0)
    case None => src
    case Some(t) => Heading(titles[t].value, Ref(Labels(lines), t, lower)) + "\n\n" + src
  }

  // ---------------------------------------------------------------------------------
  // The title pattern, both ways

  /** Everything matched is a comment: the opening in any case, whitespace, and text up
      to the first `)` on the line. */
  lemma TitleSound(line: string, i: nat)
    requires TitleAt(line, i).Some?
    ensures var (w, c) := TitleAt(line, i).value;
      && HasAtIgnoreCase(line, i, TitleOpen)
      && (forall k :: i + |TitleOpen| <= k < w ==> IsSpace(line[k])) && !IsSpace(line[w])
      && line[c] == ')' && forall k :: w <= k < c ==> line[k] != ')' && !IsLineTerminator(line[k])
  {
    TextSound(line, i + |TitleOpen|);
  }

  lemma TextSound(line: string, p: nat)
    requires p <= |line| && TitleText(line, p).Some?
    ensures var (w, c) := TitleText(line, p).value;
      && (forall k :: p <= k < w ==> IsSpace(line[k])) && !IsSpace(line[w])
      && line[c] == ')' && forall k :: w <= k < c ==> line[k] != ')' && !IsLineTerminator(line[k])
  {
    SkipSpaceIsSpan(line, p);
    LineCloseCharSound(line, SkipSpace(line, p), ')');
  }

  /** Every comment is matched: the opening in any case, whitespace `g`, and text
      without `)` on one line, closed by `)`. */
  lemma TitleRecognised(line: string, i: nat, g: string, text: string)
    requires HasAtIgnoreCase(line, i, TitleOpen) && HasAt(line, i + |TitleOpen|, g + text + ")")
    requires AllSpace(g) && (text == [] || !IsSpace(text[0]))
    requires forall k :: 0 <= k < |text| ==> text[k] != ')' && !IsLineTerminator(text[k])
    ensures var w := i + |TitleOpen| + |g|; TitleAt(line, i) == Some((w, w + |text|))
  {
    TextRecognised(line, i + |TitleOpen|, g, text);
  }

  lemma TextRecognised(line: string, p: nat, g: string, text: string)
    requires HasAt(line, p, g + text + ")")
    requires AllSpace(g) && (text == [] || !IsSpace(text[0]))
    requires forall k :: 0 <= k < |text| ==> text[k] != ')' && !IsLineTerminator(text[k])
    ensures var w := p + |g|; TitleText(line, p) == Some((w, w + |text|))
  {
    var w := p + |g|;
    assert g + text + ")" == g + (text + ")");
    HasAtConcat(line, p, g, text + ")");
    HasAtChar(line, w, text + ")", 0);
    RunExact(line, p, g);
    LineCloseChar(line, w, text, ')');
  }

  /** The title of a line that starts with a comment is that comment's text, trimmed. */
  lemma TitleOfLine(line: string, g: string, text: string)
    requires HasAtIgnoreCase(line, 0, TitleOpen) && HasAt(line, |TitleOpen|, g + text + ")")
    requires AllSpace(g) && (text == [] || !IsSpace(text[0]))
    requires forall k :: 0 <= k < |text| ==> text[k] != ')' && !IsLineTerminator(text[k])
    ensures Title(line) == Some(Trim(text))
  {
    var w := |TitleOpen| + |g|;
    TitleRecognised(line, 0, g, text);
    FirstMatchAt(line, 0, TitleEnd, 0);
    TextSlice(line, |TitleOpen|, g, text);
    TitleAssembled(line, 0, w, w + |text|);
  }

  lemma TextSlice(line: string, p: nat, g: string, text: string)
    requires HasAt(line, p, g + text + ")")
    ensures p + |g| + |text| <= |line| && line[p + |g|..p + |g| + |text|] == text
  {
    HasAtConcat(line, p, g + text, ")");
    HasAtConcat(line, p, g, text);
  }

  lemma TitleAssembled(line: string, i: nat, a: nat, b: nat)
    requires FirstMatch(line, 0, TitleEnd) == Some(i) && TitleAt(line, i) == Some((a, b))
    ensures Title(line) == Some(Trim(line[a..b]))
  {
  }

  // ---------------------------------------------------------------------------------
  // The label pattern, both ways

  /** Everything matched is a label: the opening in any case, at least one whitespace
      character, `ref="` in any case, a value without `"` that is not empty, and `"/>`. */
  lemma LabelSound(line: string, i: nat)
    requires LabelAt(line, i).Some?
    ensures var (v, b) := LabelAt(line, i).value;
      && HasAtIgnoreCase(line, i, LabelOpen)
      && (forall k :: i + |LabelOpen| <= k < v - 5 ==> IsSpace(line[k]))
      && HasAtIgnoreCase(line, v - 5, "ref=\"")
      && (forall k :: v <= k < b ==> line[k] != '"') && HasAt(line, b, "\"/>")
  {
    SkipSpaceIsSpan(line, i + |LabelOpen|);
  }

  /** Every label is matched: the opening, whitespace `g`, `ref="`, a value `v` without
      `"` that is not empty, and `"/>`. */
  lemma LabelRecognised(line: string, i: nat, g: string, v: string)
    requires HasAtIgnoreCase(line, i, LabelOpen) && HasAt(line, i + |LabelOpen|, g)
    requires g != [] && AllSpace(g) && HasAtIgnoreCase(line, i + |LabelOpen| + |g|, "ref=\"")
    requires v != [] && '"' !in v && HasAt(line, i + |LabelOpen| + |g| + 5, v + "\"/>")
    ensures var a := i + |LabelOpen| + |g| + 5; LabelAt(line, i) == Some((a, a + |v|))
  {
    var a := i + |LabelOpen| + |g| + 5;
    var b := a + |v|;
    HasAtConcat(line, a, v, "\"/>");
    assert !IsSpace(line[a - 5]) by {
      assert SameIgnoringCase(line[a - 5 + 0], "ref=\""[0]);
    }
    RunExact(line, i + |LabelOpen|, g);
    forall k | a <= k < b ensures line[k] != '"' {
      HasAtChar(line, a, v, k - a);
    }
    HasAtChar(line, b, "\"/>", 0);
    FindCharExact(line, '"', a, b);
  }

  /** The label of a line that starts with one is its value. */
  lemma LabelOfLine(line: string, g: string, v: string)
    requires HasAtIgnoreCase(line, 0, LabelOpen) && HasAt(line, |LabelOpen|, g)
    requires g != [] && AllSpace(g) && HasAtIgnoreCase(line, |LabelOpen| + |g|, "ref=\"")
    requires v != [] && '"' !in v && HasAt(line, |LabelOpen| + |g| + 5, v + "\"/>")
    ensures Label(line) == Some(v)
  {
    var a := |LabelOpen| + |g| + 5;
    LabelRecognised(line, 0, g, v);
    FirstMatchAt(line, 0, LabelEnd, 0);
    HasAtConcat(line, a, v, "\"/>");
    assert line[a..a + |v|] == v;
    LabelAssembled(line, 0, a, a + |v|);
  }

  lemma LabelAssembled(line: string, i: nat, a: nat, b: nat)
    requires FirstMatch(line, 0, LabelEnd) == Some(i) && LabelAt(line, i) == Some((a, b))
    ensures Label(line) == Some(line[a..b])
  {
  }

  // ---------------------------------------------------------------------------------
  // The rule

  /** A source in which no line has a title comment is handed on as it is. */
  lemma NoTitleKept(src: string, lower: string -> string)
    requires forall k :: 0 <= k < |SplitLines(src)| ==> Title(SplitLines(src)[k]).None?
    ensures Frontmatter(src, lower) == src
  {
    var titles := Titles(SplitLines(src));
    TitleLineNone(titles);
  }

  /** Otherwise the heading is made from the first line with a title comment, and the
      source follows it after a blank line. */
  lemma FirstTitleUsed(src: string, lower: string -> string, t: nat)
    requires var lines := SplitLines(src);
      && t < |lines| && Title(lines[t]).Some?
      && forall j :: 0 <= j < t ==> Title(lines[j]).None?
    ensures var lines := SplitLines(src);
      Frontmatter(src, lower) == Heading(Title(lines[t]).value, Ref(Labels(lines), t, lower)) + "\n\n" + src
  {
    var titles := Titles(SplitLines(src));
    TitleLineAt(titles, t);
  }

  lemma TitleLineAt(titles: seq<Option<string>>, t: nat)
    requires t < |titles| && titles[t].Some? && forall j :: 0 <= j < t ==> titles[j].None?
    ensures TitleLine(titles, 0) == Some(t)
  {
  }

  lemma TitleLineNone(titles: seq<Option<string>>)
    requires forall j :: 0 <= j < |titles| ==> titles[j].None?
    ensures TitleLine(titles, 0).None?
  {
  }

  lemma LabelLineAt(labels: seq<Option<string>>, first: nat, last: nat, lower: string -> string, k: nat)
    requires first <= k <= last && k < |labels| && Offers(labels[k], lower)
    requires forall j :: first <= j < k ==> !Offers(labels[j], lower)
    ensures LabelLine(labels, first, last, lower) == Some(k)
  {
  }

  /** The label is taken from the first of the four lines after the title that offers
      one, and from no other line. */
  lemma RefFromWindow(labels: seq<Option<string>>, t: nat, lower: string -> string)
    ensures var ref := Ref(labels, t, lower);
      && (ref != [] ==> exists k :: (t < k <= t + 4 && k < |labels| && Offers(labels[k], lower)
            && ref == Trim(labels[k].value) && forall j :: t < j < k ==> !Offers(labels[j], lower)))
      && ((forall k :: t < k <= t + 4 && k < |labels| ==> !Offers(labels[k], lower)) ==> ref == [])
  {
    match LabelLine(labels, t + 1, t + 4, lower)
    case None =>
    case Some(k) =>
      assert forall j :: t < j < k ==> !Offers(labels[j], lower);
  }

  /** A label whose value is only whitespace ends the search with an empty `ref`: the
      title becomes a `# ` heading even when a later line of the four has a label. */
  lemma BlankLabelStops(labels: seq<Option<string>>, t: nat, lower: string -> string, k: nat)
    requires t < k <= t + 4 && k < |labels| && labels[k].Some? && AllSpace(labels[k].value)
    requires lower([]) == []
    requires forall j :: t < j < k ==> !Offers(labels[j], lower)
    ensures Ref(labels, t, lower) == []
  {
    assert Trim(labels[k].value) == [];
    LabelLineAt(labels, t + 1, t + 4, lower, k);
  }
}
