/**
  Writerside code-block attributes: an attribute block `{ … }` on the line after an
  opening fence is deleted, so that only the fence and its indentation stay
  (docs/.vitepress/plugins/markdown/writerside/markdown-it-ws-remove-code-attr.ts). The
  rule runs on the source right after markdown-it's `normalize` step.
 */
module RemoveCodeAttr {
  import opened Strings
  import opened Rewrite

  // ---------------------------------------------------------------------------------
  // The pattern  ([ \t]*)```\n[ \t]*\{[\s\S]*?\}   (flags g and m; m changes nothing,
  // the pattern has no anchors)
  //
  // Each blank run is taken whole: a shorter one leaves a blank where a backtick or `{`
  // is needed. The lazy `[\s\S]*?` stops at the first `}`, across lines. Nothing ties
  // the fence to the start of a line: in "````\n{x}" the match starts at the second
  // backtick.

  /** Where the pieces of a match lie: the indentation ends at `fence`, the attribute
      block opens at `open` and the match ends at `end`. */
  datatype Attr = Attr(fence: nat, open: nat, end: nat)

  /** `([ \t]*)```\n[ \t]*\{` at `i`. */
  function Head(s: string, i: nat): (r: Option<(nat, nat)>)
    ensures r.Some? ==> i <= r.value.0 && r.value.0 + 4 <= r.value.1 < |s|
  {
    if i > |s| then None
    else
      var b := Span(s, i, IsBlank);
      if !HasAt(s, b, "```\n") then None
      else
        var c := Span(s, b + 4, IsBlank);
        if c < |s| && s[c] == '{' then Some((b, c)) else None
  }

  /** The match starting at `i`, if there is one. */
  function AttrAt(s: string, i: nat): (r: Option<Attr>)
    ensures r.Some? ==> i <= r.value.fence && r.value.fence + 4 <= r.value.open < r.value.end <= |s|
  {
    match Head(s, i)
    case None => None
    case Some((b, c)) =>
      var f := FindChar(s, '}', c + 1);
      if f < |s| then Some(Attr(b, c, f + 1)) else None
  }

  function AttrEnd(s: string, i: nat): Option<nat> {
    match AttrAt(s, i)
    case Some(a) => Some(a.end)
    case None => None
  }

  /** The replacement: the captured indentation and the fence. */
  function FenceOnly(s: string, i: nat, e: nat): string {
    match AttrAt(s, i)
    case Some(a) => s[i..a.fence] + "```\n"
    case None => Slice(s, i, e)
  }

  /** The core rule `remove-code-attrs`. */
  function RemoveAttrs(src: string): string {
    ReplaceAll(src, AttrEnd, FenceOnly)
  }

  // ---------------------------------------------------------------------------------
  // The pattern, both ways

  /** An attribute block as it is written under a fence. */
  function AttrText(indent: string, gap: string, body: string): string {
    indent + "```\n" + gap + "{" + body + "}"
  }

  predicate AllBlank(t: string) {
    forall k :: 0 <= k < |t| ==> IsBlank(t[k])
  }

  /** The pieces of a written attribute block, position by position. */
  predicate Written(s: string, i: nat, b: nat, c: nat, f: nat) {
    && i <= b && b + 4 <= c < f < |s|
    && (forall k :: i <= k < b ==> IsBlank(s[k]))
    && HasAt(s, b, "```\n")
    && (forall k :: b + 4 <= k < c ==> IsBlank(s[k]))
    && s[c] == '{'
    && (forall k :: c + 1 <= k < f ==> s[k] != '}')
    && s[f] == '}'
  }

  /** Every attribute block written under a fence is recognised, to its first `}`, and
      the indentation is read back. */
  lemma AttrRecognised(s: string, i: nat, indent: string, gap: string, body: string)
    requires AllBlank(indent) && AllBlank(gap) && '}' !in body
    requires HasAt(s, i, AttrText(indent, gap, body))
    ensures var b := i + |indent|; var c := b + 4 + |gap|;
      && AttrAt(s, i) == Some(Attr(b, c, i + |AttrText(indent, gap, body)|))
      && s[i..b] == indent
  {
    var b := i + |indent|;
    var c := b + 4 + |gap|;
    var f := c + 1 + |body|;
    AttrLandmarks(s, i, indent, gap, body);
    AttrReadBack(s, i, b, c, f);
  }

  /** A written attribute block lies where its pieces say. */
  lemma AttrLandmarks(s: string, i: nat, indent: string, gap: string, body: string)
    requires AllBlank(indent) && AllBlank(gap) && '}' !in body
    requires HasAt(s, i, AttrText(indent, gap, body))
    ensures var b := i + |indent|; var c := b + 4 + |gap|; var f := c + 1 + |body|;
      && Written(s, i, b, c, f) && s[i..b] == indent
      && i + |AttrText(indent, gap, body)| == f + 1
  {
    var b := i + |indent|;
    var c := b + 4 + |gap|;
    HasAtConcat(s, i, indent + "```\n" + gap + "{" + body, "}");
    HasAtConcat(s, i, indent + "```\n" + gap + "{", body);
    HasAtConcat(s, i, indent + "```\n" + gap, "{");
    HasAtConcat(s, i, indent + "```\n", gap);
    HasAtConcat(s, i, indent, "```\n");
    forall k | i <= k < b ensures IsBlank(s[k]) {
      assert s[k] == indent[k - i];
    }
    forall k | b + 4 <= k < c ensures IsBlank(s[k]) {
      assert s[k] == gap[k - b - 4];
    }
    forall k | c + 1 <= k < c + 1 + |body| ensures s[k] != '}' {
      assert s[k] == body[k - c - 1];
    }
    HasAtChar(s, c, "{", 0);
    HasAtChar(s, c + 1 + |body|, "}", 0);
  }

  /** The matcher reads back what `Written` lays out. */
  lemma AttrReadBack(s: string, i: nat, b: nat, c: nat, f: nat)
    requires Written(s, i, b, c, f)
    ensures AttrAt(s, i) == Some(Attr(b, c, f + 1))
  {
    HasAtChar(s, b, "```\n", 0);
    SpanExact(s, i, IsBlank, b);
    SpanExact(s, b + 4, IsBlank, c);
    FindCharExact(s, '}', c + 1, f);
  }

  /** Everything recognised is an attribute block under a fence. */
  lemma AttrSound(s: string, i: nat)
    requires AttrAt(s, i).Some?
    ensures var a := AttrAt(s, i).value; Written(s, i, a.fence, a.open, a.end - 1)
  {
  }

  // ---------------------------------------------------------------------------------
  // The rewrite

  /** The first attribute block goes; its indentation and the fence stay; the text
      before it is copied and the search resumes after its `}`. */
  lemma FirstAttrRemoved(src: string)
    requires FirstMatch(src, 0, AttrEnd).Some?
    ensures var i := FirstMatch(src, 0, AttrEnd).value; var a := AttrAt(src, i).value;
      RemoveAttrs(src) == src[..i] + src[i..a.fence] + "```\n" + ReplaceFrom(src, a.end, AttrEnd, FenceOnly)
  {
    FirstThenRest(src, AttrEnd, FenceOnly);
  }

  /** A source without an opening fence directly followed by a line break is unchanged. */
  lemma NoFenceUnchanged(src: string)
    requires forall j :: 0 <= j < |src| ==> !HasAt(src, j, "```\n")
    ensures RemoveAttrs(src) == src
  {
    forall j | 0 <= j < |src| ensures !MatchesAt(AttrEnd, src, j) {
      if AttrAt(src, j).Some? {
        AttrSound(src, j);
      }
    }
    NoMatchUnchanged(src, AttrEnd, FenceOnly);
  }
}
