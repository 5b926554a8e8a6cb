/**
  Liquid conditions: every span from a `{% if … %}` tag through the first `{% endif %}`
  after it is deleted, tags included
  (docs/.vitepress/plugins/markdown/mkdocs/markdown-it-mk-liquid-condition.ts). The same
  deletion is the first step of the auto-title parser (`AutoTitle`).
 */
module LiquidCondition {
  import opened Strings
  import opened Rewrite

  // ---------------------------------------------------------------------------------
  // The pattern  {%\s*if\s+.*?%}[\s\S]*?{%\s*endif\s*%}
  //
  // The engine takes the whole run of spaces after `if`; the lazy `.*?` then stops at the
  // first `%}` before the end of the line, and the lazy `[\s\S]*?` at the first endif
  // tag after it. Backtracking finds nothing else: a shorter run of spaces only makes
  // `.*?` cross the same spaces to the same `%}`, or cross a line break and fail; a
  // later `%}` has no endif tag after it that the first one lacks.

  /** The end of the `{% if … %}` tag at `i`. */
  function IfTagEnd(s: string, i: nat): (r: Option<nat>)
    ensures r.Some? ==> i + 7 <= r.value <= |s|
  {
    KeywordTagEnd(s, i, "{%", "if", "%}")
  }

  /** The end of the `{%\s*endif\s*%}` tag at `j`. */
  function EndifAt(s: string, j: nat): (r: Option<nat>)
    ensures r.Some? ==> j + 9 <= r.value <= |s|
  {
    if !HasAt(s, j, "{%") then None
    else
      var a := SkipSpace(s, j + 2);
      if !HasAt(s, a, "endif") then None
      else
        var c := SkipSpace(s, a + 5);
        if HasAt(s, c, "%}") then Some(c + 2) else None
  }

  /** The end of the condition block starting at `i`, if one does. */
  function BlockEnd(s: string, i: nat): (r: Option<nat>)
    ensures r.Some? ==> i + 16 <= r.value <= |s|
  {
    match IfTagEnd(s, i)
    case None => None
    case Some(q) =>
      match FirstMatch(s, q, EndifAt)
      case None => None
      case Some(j) => EndifAt(s, j)
  }

  /** The global deletion of condition blocks. */
  function RemoveConditions(src: string): string {
    ReplaceAll(src, BlockEnd, Delete())
  }

  /** The `parse` override: the original parser receives the source without its
      condition blocks. */
  function ParseInput(src: string): string {
    RemoveConditions(src)
  }

  // ---------------------------------------------------------------------------------
  // Properties

  /** An if tag as it can be written: spaces are optional after `{%`, required after
      `if`; the condition stays on one line and holds no `%}`. */
  function IfTagText(g1: string, g2: string, cond: string): string {
    KeywordTagText("{%", g1, "if", g2, cond, "%}")
  }

  predicate WritableIf(g1: string, g2: string, cond: string) {
    AllSpace(g1) && g2 != [] && AllSpace(g2) && OneLine(cond, "%}")
  }

  /** Every written if tag is recognised, and ends where it is written to end. */
  lemma IfTagRecognised(s: string, i: nat, g1: string, g2: string, cond: string)
    requires WritableIf(g1, g2, cond)
    requires HasAt(s, i, IfTagText(g1, g2, cond))
    ensures IfTagEnd(s, i) == Some(i + |IfTagText(g1, g2, cond)|)
  {
    KeywordTagRecognised(s, i, "{%", g1, "if", g2, cond, "%}");
  }

  /** Everything recognised as an if tag is one: `{%`, optional spaces, `if`, at least
      one space, then a condition on one line up to the first `%}`. */
  lemma IfTagSound(s: string, i: nat)
    requires IfTagEnd(s, i).Some?
    ensures var p := KeywordHead(s, i, "{%", "if").value; var q := IfTagEnd(s, i).value;
      && HasAt(s, i, "{%") && IsSpace(s[p - 1])
      && (exists a :: i + 2 <= a && a + 2 < p && HasAt(s, a, "if")
            && (forall k :: i + 2 <= k < a ==> IsSpace(s[k]))
            && (forall k :: a + 2 <= k < p ==> IsSpace(s[k])))
      && HasAt(s, q - 2, "%}")
      && (forall k :: p <= k < q - 2 ==> !IsLineTerminator(s[k]) && !HasAt(s, k, "%}"))
  {
    KeywordTagSound(s, i, "{%", "if", "%}");
    KeywordHeadSound(s, i, "{%", "if");
  }

  /** An endif tag as it can be written. */
  function EndifText(g3: string, g4: string): string {
    "{%" + g3 + "endif" + g4 + "%}"
  }

  /** Every written endif tag is recognised. */
  lemma EndifRecognised(s: string, j: nat, g3: string, g4: string)
    requires AllSpace(g3) && AllSpace(g4)
    requires HasAt(s, j, EndifText(g3, g4))
    ensures EndifAt(s, j) == Some(j + |EndifText(g3, g4)|)
  {
    var a := j + 2 + |g3|;
    var c := a + 5 + |g4|;
    HasAtConcat(s, j, "{%" + g3 + "endif" + g4, "%}");
    HasAtConcat(s, j, "{%" + g3 + "endif", g4);
    HasAtConcat(s, j, "{%" + g3, "endif");
    HasAtConcat(s, j, "{%", g3);
    HasAtSpace(s, j + 2, g3);
    HasAtSpace(s, a + 5, g4);
    EndifExact(s, j, a, c);
  }

  lemma EndifExact(s: string, j: nat, a: nat, c: nat)
    requires HasAt(s, j, "{%") && j + 2 <= a && HasAt(s, a, "endif") && a + 5 <= c && HasAt(s, c, "%}")
    requires forall k :: j + 2 <= k < a ==> IsSpace(s[k])
    requires forall k :: a + 5 <= k < c ==> IsSpace(s[k])
    ensures EndifAt(s, j) == Some(c + 2)
  {
    HasAtChar(s, a, "endif", 0);
    HasAtChar(s, c, "%}", 0);
    SkipSpaceIsSpan(s, j + 2);
    SpanExact(s, j + 2, IsSpace, a);
    SkipSpaceIsSpan(s, a + 5);
    SpanExact(s, a + 5, IsSpace, c);
  }

  /** A written if tag followed by a written endif tag, with no endif tag starting in
      between, is one block: it ends where that endif tag ends. An inner if tag does not
      count, so of nested conditions the outer endif stays behind. */
  lemma BlockRecognised(s: string, i: nat, g1: string, g2: string, cond: string, j: nat, g3: string, g4: string)
    requires WritableIf(g1, g2, cond) && AllSpace(g3) && AllSpace(g4)
    requires HasAt(s, i, IfTagText(g1, g2, cond)) && HasAt(s, j, EndifText(g3, g4))
    requires i + |IfTagText(g1, g2, cond)| <= j
    requires forall k :: i + |IfTagText(g1, g2, cond)| <= k < j ==> EndifAt(s, k).None?
    ensures BlockEnd(s, i) == Some(j + |EndifText(g3, g4)|)
  {
    IfTagRecognised(s, i, g1, g2, cond);
    EndifRecognised(s, j, g3, g4);
    FirstMatchAt(s, i + |IfTagText(g1, g2, cond)|, EndifAt, j);
  }

  /** Everything recognised as a block is an if tag, then text without an endif tag,
      then an endif tag that ends the block. */
  lemma BlockSound(s: string, i: nat)
    requires BlockEnd(s, i).Some?
    ensures IfTagEnd(s, i).Some?
    ensures var q := IfTagEnd(s, i).value; var e := BlockEnd(s, i).value;
      exists j :: q <= j < e && EndifAt(s, j) == Some(e) && forall k :: q <= k < j ==> EndifAt(s, k).None?
  {
    var q := IfTagEnd(s, i).value;
    var j := FirstMatch(s, q, EndifAt).value;
    forall k | q <= k < j ensures EndifAt(s, k).None? {
      assert !MatchesAt(EndifAt, s, k);
    }
  }

  // ---------------------------------------------------------------------------------
  // The deletion

  /** The first block goes, the text before it stays, and the search resumes after it. */
  lemma FirstBlockRemoved(src: string)
    requires FirstMatch(src, 0, BlockEnd).Some?
    ensures var i := FirstMatch(src, 0, BlockEnd).value;
      RemoveConditions(src) == src[..i] + ReplaceFrom(src, BlockEnd(src, i).value, BlockEnd, Delete())
  {
    FirstDeleted(src, BlockEnd);
  }

  /** A source without `{%` reaches the parser as it is. */
  lemma NoTagUnchanged(src: string)
    requires forall j :: 0 <= j < |src| ==> !HasAt(src, j, "{%")
    ensures ParseInput(src) == src
  {
    NoMatchUnchanged(src, BlockEnd, Delete());
  }
}
