/**
  Automatic page titles (docs/.vitepress/plugins/markdown/common/markdown-it-auto-title.ts):
  the `parse` override deletes liquid condition blocks, and then, for a page of a doc
  type other than `kotlin` whose first twenty lines hold no level-one heading, prepends
  `# title` and a blank line, dropping the page's leading frontmatter.

  The title comes from two places this model does not see, and both are parameters:
  the `title` gray-matter reads from the frontmatter (empty when there is none) and the
  sidebar title for the page's path (empty when there is none). So is the list of doc
  types the site configures.
 */
module AutoTitle {
  import opened Strings
  import opened Rewrite
  import LiquidCondition

  // ---------------------------------------------------------------------------------
  // The doc type

  /** The doc type of a page: the first segment of its relative path that names one
      (`parts.find(p => DOCS_TYPES.includes(p))`). */
  function DocType(relativePath: string, docTypes: seq<string>): Option<string> {
    FindIn(Split(relativePath, '/'), docTypes)
  }

  // ---------------------------------------------------------------------------------
  // The heading check

  /** A line that, trimmed, starts with `# `. */
  predicate IsHeading(line: string) {
    StartsWith(Trim(line), "# ")
  }

  /** One of the first twenty lines is a level-one heading. */
  predicate HasH1(lines: seq<string>) {
    exists k :: 0 <= k < |lines| && k < 20 && IsHeading(lines[k])
  }

  /** The check as the parser runs it: at most twenty lines, stopping at the first
      heading. */
  method FindH1(lines: seq<string>) returns (hasH1: bool)
    ensures hasH1 <==> HasH1(lines)
  {
    hasH1 := false;
    var n := if |lines| < 20 then |lines| else 20;
    var i := 0;
    while i < n
      invariant 0 <= i <= n
      invariant forall k :: 0 <= k < i ==> !IsHeading(lines[k])
    {
      if IsHeading(lines[i]) {
        assert i < |lines| && i < 20;
        hasH1 := true;
        break;
      }
      i := i + 1;
    }
  }

  /** The lines the check looks at: those of the trimmed source, split at `\r?\n`. */
  function SourceLines(src: string): seq<string> {
    SplitLines(Trim(src))
  }

  // ---------------------------------------------------------------------------------
  // The frontmatter:  ^---[\s\S]*?---\n*
  //
  // Without the `m` flag `^` is the start of the text only. The lazy `[\s\S]*?` stops at
  // the first `---` from position 3 on, and `\n*` takes every newline after it.

  predicate IsNewline(c: char) {
    c == '\n'
  }

  /** The end of the leading frontmatter, when the text starts with one. */
  function FrontEnd(s: string, i: nat): (r: Option<nat>)
    ensures r.Some? ==> i == 0 && 6 <= r.value <= |s|
  {
    if i != 0 || !HasAt(s, 0, "---") then None
    else match IndexOf(s, "---", 3)
      case None => None
      case Some(j) => Some(Span(s, j + 3, IsNewline))
  }

  /** The frontmatter removal: the first match of the pattern above, replaced by nothing. */
  function StripFrontmatter(src: string): string {
    Rewrite.ReplaceFirst(src, FrontEnd, Delete())
  }

  // ---------------------------------------------------------------------------------
  // The parse override

  /** The title: gray-matter's, unless it is empty, then the sidebar's. */
  function PageTitle(src: string, relativePath: string, frontTitle: string -> string, sidebarTitle: string -> string): string {
    if frontTitle(src) != [] then frontTitle(src) else sidebarTitle(relativePath)
  }

  /** What the original parser receives. */
  function ParseInput(src: string, relativePath: string, docTypes: seq<string>,
                      frontTitle: string -> string, sidebarTitle: string -> string): string
  {
    var modified := LiquidCondition.RemoveConditions(src);
    var docType := DocType(relativePath, docTypes);
    if docType.None? || docType == Some("kotlin") || HasH1(SourceLines(modified)) then modified
    else
      var title := PageTitle(modified, relativePath, frontTitle, sidebarTitle);
      if title == [] then modified else "# " + title + "\n\n" + StripFrontmatter(modified)
  }

  // ---------------------------------------------------------------------------------
  // Properties of the frontmatter

  /** Frontmatter that is removed starts the text: `---`, then everything up to the first
      `---` after it, then every newline that follows. */
  lemma StripSound(s: string)
    ensures FrontEnd(s, 0).None? ==> StripFrontmatter(s) == s
    ensures FrontEnd(s, 0).Some? ==>
      var e := FrontEnd(s, 0).value; var j := IndexOf(s, "---", 3).value;
      && HasAt(s, 0, "---") && 3 <= j && HasAt(s, j, "---")
      && (forall k :: 3 <= k < j ==> !HasAt(s, k, "---"))
      && (forall k :: j + 3 <= k < e ==> s[k] == '\n') && (e < |s| ==> s[e] != '\n')
      && StripFrontmatter(s) == s[e..]
  {
    if FrontEnd(s, 0).Some? {
      var e := FrontEnd(s, 0).value;
      assert MatchesAt(FrontEnd, s, 0);
      FirstMatchAt(s, 0, FrontEnd, 0);
      assert Delete()(s, 0, e) == [];
    } else {
      assert forall k :: 0 <= k < |s| ==> !MatchesAt(FrontEnd, s, k);
    }
  }

  /** The frontmatter as it is written: `---`, a body in which no `---` starts, `---`,
      and newlines. Whatever follows them is what is left. */
  function FrontmatterText(y: string, n: string): string {
    "---" + y + "---" + n
  }

  predicate AllNewlines(n: string) {
    forall k :: 0 <= k < |n| ==> n[k] == '\n'
  }

  /** No `---` starts in `y`, even one running into the closing `---`. */
  predicate NoDashes(y: string) {
    forall j :: 0 <= j < |y| ==> !HasAt(y + "--", j, "---")
  }

  lemma StripRecognised(y: string, n: string, body: string)
    requires NoDashes(y) && AllNewlines(n) && (body == [] || body[0] != '\n')
    ensures StripFrontmatter(FrontmatterText(y, n) + body) == body
  {
    var s := FrontmatterText(y, n) + body;
    var j := 3 + |y|;
    var e := j + 3 + |n|;
    FrontPieces(s, y, n, body);
    ClosingFirst(s, y);
    IndexOfAt(s, "---", 3, j);
    SpanExact(s, j + 3, IsNewline, e);
    assert FrontEnd(s, 0) == Some(e);
    StripSound(s);
  }

  lemma FrontPieces(s: string, y: string, n: string, body: string)
    requires s == FrontmatterText(y, n) + body && AllNewlines(n) && (body == [] || body[0] != '\n')
    ensures var j := 3 + |y|; var e := j + 3 + |n|;
      && HasAt(s, 0, "---" + y + "--") && HasAt(s, j, "---") && e <= |s| && s[e..] == body
      && (forall k :: j + 3 <= k < e ==> IsNewline(s[k])) && (e == |s| || !IsNewline(s[e]))
  {
    var j := 3 + |y|;
    var e := j + 3 + |n|;
    HasAtParts(FrontmatterText(y, n), body);
    HasAtConcat(s, 0, "---" + y + "---", n);
    HasAtConcat(s, 0, "---" + y, "---");
    HasAtSlice(s, 0, "---" + y + "---");
    assert ("---" + y + "---")[..j + 2] == "---" + y + "--";
    HasAtSlice(s, 0, "---" + y + "--");
    forall k | j + 3 <= k < e ensures IsNewline(s[k]) {
      HasAtChar(s, j + 3, n, k - j - 3);
    }
    if e < |s| {
      HasAtChar(s, e, body, 0);
    }
    HasAtSlice(s, e, body);
  }

  /** The closing `---` is the first one after the opening one. */
  lemma ClosingFirst(s: string, y: string)
    requires NoDashes(y) && HasAt(s, 0, "---" + y + "--")
    ensures forall k :: 3 <= k < 3 + |y| ==> !HasAt(s, k, "---")
  {
    assert "---" + y + "--" == "---" + (y + "--");
    forall k | 3 <= k < 3 + |y| ensures HasAt(s, k, "---") ==> HasAt(y + "--", k - 3, "---") {
      DashesInside(s, y + "--", k);
    }
  }

  lemma DashesInside(s: string, u: string, k: nat)
    requires HasAt(s, 0, "---" + u) && 3 <= k && k + 3 <= 3 + |u|
    ensures HasAt(s, k, "---") ==> HasAt(u, k - 3, "---")
  {
    if HasAt(s, k, "---") {
      forall d | 0 <= d < 3 ensures u[k - 3 + d] == "---"[d] {
        HasAtChar(s, 0, "---" + u, k + d);
        HasAtChar(s, k, "---", d);
      }
    }
  }

  /** Text that does not start with `---` keeps everything. */
  lemma NoFrontmatterKept(s: string)
    requires !HasAt(s, 0, "---")
    ensures StripFrontmatter(s) == s
  {
    StripSound(s);
  }

  // ---------------------------------------------------------------------------------
  // Properties of the parse override

  /** The parser always receives the source without its condition blocks; a heading is
      prepended exactly when the page has a doc type other than `kotlin`, no level-one
      heading in its first twenty lines, and a title, and then the frontmatter goes. */
  lemma HeadingPrepended(src: string, relativePath: string, docTypes: seq<string>,
                         frontTitle: string -> string, sidebarTitle: string -> string)
    ensures var m := LiquidCondition.RemoveConditions(src);
      var d := DocType(relativePath, docTypes);
      var title := PageTitle(m, relativePath, frontTitle, sidebarTitle);
      var r := ParseInput(src, relativePath, docTypes, frontTitle, sidebarTitle);
      && (r != m <==> d.Some? && d.value != "kotlin" && !HasH1(SourceLines(m)) && title != [])
      && (r == m || r == "# " + title + "\n\n" + StripFrontmatter(m))
  {
    var m := LiquidCondition.RemoveConditions(src);
    var d := DocType(relativePath, docTypes);
    var title := PageTitle(m, relativePath, frontTitle, sidebarTitle);
    if d.Some? && d.value != "kotlin" && !HasH1(SourceLines(m)) && title != [] {
      PrependChanges(m, title);
    }
  }

  /** Prepending a heading always changes the text: without frontmatter it grows, and
      with frontmatter its first character changes from `-` to `#`. */
  lemma PrependChanges(m: string, title: string)
    ensures "# " + title + "\n\n" + StripFrontmatter(m) != m
  {
    var r := "# " + title + "\n\n" + StripFrontmatter(m);
    StripSound(m);
    if FrontEnd(m, 0).Some? {
      HasAtChar(m, 0, "---", 0);
      assert r[0] == '#';
    } else {
      assert |r| > |m|;
    }
  }

  /** Pages of the `kotlin` doc type, and pages of none, only lose their condition
      blocks. */
  lemma KotlinUntitled(src: string, relativePath: string, docTypes: seq<string>,
                       frontTitle: string -> string, sidebarTitle: string -> string)
    requires forall k :: 0 <= k < |Split(relativePath, '/')| ==> Split(relativePath, '/')[k] == "kotlin" || Split(relativePath, '/')[k] !in docTypes
    ensures ParseInput(src, relativePath, docTypes, frontTitle, sidebarTitle) == LiquidCondition.RemoveConditions(src)
  {
  }

  /** A heading prepended without frontmatter: the title, a blank line, then the page
      as it was after the condition blocks went. */
  lemma TitledPage(src: string, relativePath: string, docTypes: seq<string>,
                   frontTitle: string -> string, sidebarTitle: string -> string)
    requires DocType(relativePath, docTypes).Some? && DocType(relativePath, docTypes) != Some("kotlin")
    requires !HasH1(SourceLines(LiquidCondition.RemoveConditions(src)))
    requires !HasAt(LiquidCondition.RemoveConditions(src), 0, "---")
    requires frontTitle(LiquidCondition.RemoveConditions(src)) == [] && sidebarTitle(relativePath) != []
    ensures ParseInput(src, relativePath, docTypes, frontTitle, sidebarTitle) ==
      "# " + sidebarTitle(relativePath) + "\n\n" + LiquidCondition.RemoveConditions(src)
  {
    NoFrontmatterKept(LiquidCondition.RemoveConditions(src));
  }
}
