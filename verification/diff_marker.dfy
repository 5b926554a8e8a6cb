/**
  Shiki diff markers: the code-highlighting transformer deletes the markers `{++`, `++}`,
  `{--`, `--}`, `{==` and `==}` from the text of every highlighted token
  (docs/.vitepress/plugins/shiki/shiki-remove-diff-marker.ts). Lines and tokens stay as
  they are; only token text changes.

  A token's other fields (colour, font style, offset, …) are the type parameter `A`.
 */
module DiffMarker {
  import opened Strings
  import opened Rewrite

  /** A highlighted token: its text and everything else about it. */
  datatype Token<A> = Token(content: string, attrs: A)

  // ---------------------------------------------------------------------------------
  // The pattern  \{\+\+|\+\+\}|\{--|\--\}|\{==|==\}
  //
  // The six alternatives all have length three and differ, so whichever one matches at a
  // position, the match is those three characters.

  predicate MarkerAt(s: string, i: nat) {
    || HasAt(s, i, "{++") || HasAt(s, i, "++}")
    || HasAt(s, i, "{--") || HasAt(s, i, "--}")
    || HasAt(s, i, "{==") || HasAt(s, i, "==}")
  }

  function MarkerEnd(s: string, i: nat): (r: Option<nat>)
    ensures r.Some? <==> MarkerAt(s, i)
    ensures r.Some? ==> r.value == i + 3
  {
    if MarkerAt(s, i) then Some(i + 3) else None
  }

  /** `content.replace(markerRegex, '')` */
  function StripMarkers(content: string): string {
    ReplaceAll(content, MarkerEnd, Delete())
  }

  /** The `tokens` hook: every token of every line gets its markers deleted. The hook
      assigns in place; the model returns the updated lines. */
  function RemoveDiffMarkers<A>(lines: seq<seq<Token<A>>>): (r: seq<seq<Token<A>>>)
    ensures |r| == |lines|
    ensures forall l :: 0 <= l < |r| ==> |r[l]| == |lines[l]|
    ensures forall l, t :: 0 <= l < |r| && 0 <= t < |r[l]| ==>
      r[l][t] == Token(StripMarkers(lines[l][t].content), lines[l][t].attrs)
  {
    seq(|lines|, l requires 0 <= l < |lines| =>
      seq(|lines[l]|, t requires 0 <= t < |lines[l]| =>
        lines[l][t].(content := StripMarkers(lines[l][t].content))))
  }

  // ---------------------------------------------------------------------------------
  // Properties

  /** The first marker goes, the text before it stays, and the search resumes after its
      three characters. */
  lemma FirstMarkerRemoved(content: string)
    requires FirstMatch(content, 0, MarkerEnd).Some?
    ensures var i := FirstMatch(content, 0, MarkerEnd).value;
      && MarkerAt(content, i)
      && StripMarkers(content) == content[..i] + ReplaceFrom(content, i + 3, MarkerEnd, Delete())
  {
    FirstDeleted(content, MarkerEnd);
  }

  /** Text without markers is kept, and text with one gets shorter. */
  lemma StripShortens(content: string)
    ensures |StripMarkers(content)| <= |content|
    ensures (forall i :: 0 <= i < |content| ==> !MarkerAt(content, i)) ==> StripMarkers(content) == content
    ensures (exists i :: 0 <= i < |content| && MarkerAt(content, i)) ==> |StripMarkers(content)| < |content|
  {
    DeleteShortens(content, 0, MarkerEnd);
    if exists i :: 0 <= i < |content| && MarkerAt(content, i) {
      var i :| 0 <= i < |content| && MarkerAt(content, i);
      assert MatchesAt(MarkerEnd, content, i);
    }
    if forall i :: 0 <= i < |content| ==> !MarkerAt(content, i) {
      NoMatchUnchanged(content, MarkerEnd, Delete());
    }
  }

  /** Lines whose tokens hold no marker come back as they went in. */
  lemma CleanLinesUnchanged<A>(lines: seq<seq<Token<A>>>)
    requires forall l, t, i :: 0 <= l < |lines| && 0 <= t < |lines[l]| && 0 <= i < |lines[l][t].content| ==>
      !MarkerAt(lines[l][t].content, i)
    ensures RemoveDiffMarkers(lines) == lines
  {
    var r := RemoveDiffMarkers(lines);
    forall l | 0 <= l < |lines| ensures r[l] == lines[l] {
      forall t | 0 <= t < |lines[l]| ensures r[l][t] == lines[l][t] {
        StripShortens(lines[l][t].content);
      }
    }
  }

  /** A token comes out shorter exactly when its text held a marker; its attributes are
      kept either way. */
  lemma TokenShrinksIffMarked<A>(lines: seq<seq<Token<A>>>, l: nat, t: nat)
    requires l < |lines| && t < |lines[l]|
    ensures var before, after := lines[l][t], RemoveDiffMarkers(lines)[l][t];
      && after.attrs == before.attrs
      && (|after.content| < |before.content| <==> exists i :: 0 <= i < |before.content| && MarkerAt(before.content, i))
  {
    StripShortens(lines[l][t].content);
  }

  /** A marker split across two tokens, `{+` then `+`, is in neither token, so both stay
      although their text together is `{++`. */
  lemma SplitMarkerKept<A>(a: A, b: A)
    ensures RemoveDiffMarkers([[Token("{+", a), Token("+", b)]]) == [[Token("{+", a), Token("+", b)]]
  {
    CleanLinesUnchanged([[Token("{+", a), Token("+", b)]]);
  }
}
