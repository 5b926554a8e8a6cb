/**
  Contribution links and test-name comments: every `<contribute-url>…</contribute-url>`
  and every `<!--- TEST_NAME … -->` comment is deleted together with the whitespace after
  it, in two passes, before parsing
  (docs/.vitepress/plugins/markdown/common/markdown-it-remove-contribute-url.ts).
 */
module ContributeUrl {
  import opened Strings
  import opened Rewrite

  const UrlOpen := "<contribute-url>"
  const UrlClose := "</contribute-url>"

  // ---------------------------------------------------------------------------------
  // The first pattern  <contribute-url>.*?<\/contribute-url>\s*
  //
  // The lazy `.*?` stops at the first closing tag on the same line; the trailing `\s*`
  // then takes every whitespace character, line breaks included.

  /** The end of the contribution link starting at `i`, trailing whitespace included. */
  function UrlEnd(s: string, i: nat): (r: Option<nat>) {
    EnclosedEnd(s, i, UrlOpen, UrlClose)
  }

  // ---------------------------------------------------------------------------------
  // The second pattern  <!---\s*TEST_NAME\s+.*?-->\s*
  //
  // The spaces before `TEST_NAME` are taken whole (a shorter run leaves a space where
  // `T` is needed), and so are those after it: a shorter run only makes `.*?` cross the
  // same spaces, or cross a line break and fail.

  /** The end of the test-name comment starting at `i`, trailing whitespace included. */
  function CommentEnd(s: string, i: nat): (r: Option<nat>)
    ensures r.Some? ==> i + 18 <= r.value <= |s|
  {
    match KeywordTagEnd(s, i, "<!---", "TEST_NAME", "-->")
    case None => None
    case Some(q) => Some(SkipSpace(s, q))
  }

  /** The cleaned source handed to the original parser. */
  function Clean(src: string): string {
    ReplaceAll(ReplaceAll(src, UrlEnd, Delete()), CommentEnd, Delete())
  }

  // ---------------------------------------------------------------------------------
  // The first pattern, both ways

  /** Every written link is recognised, to the end of the whitespace after it. */
  lemma UrlRecognised(s: string, i: nat, url: string, ws: string)
    requires OneLine(url, UrlClose)
    requires HasAt(s, i, UrlOpen + url + UrlClose)
    requires WholeRun(s, i + |UrlOpen| + |url| + |UrlClose|, ws)
    ensures UrlEnd(s, i) == Some(i + |UrlOpen| + |url| + |UrlClose| + |ws|)
  {
    EnclosedRecognised(s, i, UrlOpen, url, UrlClose, ws);
  }

  /** Everything recognised is a link: the opening tag, text on one line, the first
      closing tag, and all the whitespace after it. */
  lemma UrlSound(s: string, i: nat)
    requires UrlEnd(s, i).Some?
    ensures var q := LineClose(s, i + |UrlOpen|, UrlClose).value; var e := UrlEnd(s, i).value;
      && HasAt(s, i, UrlOpen) && HasAt(s, q - |UrlClose|, UrlClose)
      && (forall k :: i + |UrlOpen| <= k < q - |UrlClose| ==> !IsLineTerminator(s[k]) && !HasAt(s, k, UrlClose))
      && (forall k :: q <= k < e ==> IsSpace(s[k])) && (e == |s| || !IsSpace(s[e]))
  {
    EnclosedSound(s, i, UrlOpen, UrlClose);
  }

  // ---------------------------------------------------------------------------------
  // The second pattern, both ways

  /** A test-name comment as it can be written. */
  function CommentText(g1: string, g2: string, name: string): string {
    KeywordTagText("<!---", g1, "TEST_NAME", g2, name, "-->")
  }

  /** Every written test-name comment is recognised, to the end of the whitespace after
      it. */
  lemma CommentRecognised(s: string, i: nat, g1: string, g2: string, name: string, ws: string)
    requires AllSpace(g1) && g2 != [] && AllSpace(g2) && OneLine(name, "-->")
    requires HasAt(s, i, CommentText(g1, g2, name))
    requires WholeRun(s, i + |CommentText(g1, g2, name)|, ws)
    ensures CommentEnd(s, i) == Some(i + |CommentText(g1, g2, name)| + |ws|)
  {
    KeywordTagRecognised(s, i, "<!---", g1, "TEST_NAME", g2, name, "-->");
    RunExact(s, i + |CommentText(g1, g2, name)|, ws);
  }

  /** Everything recognised is a test-name comment: `<!---`, optional spaces,
      `TEST_NAME`, at least one space, text on one line up to the first `-->`, and all
      the whitespace after it. */
  lemma CommentSound(s: string, i: nat)
    requires CommentEnd(s, i).Some?
    ensures var p := KeywordHead(s, i, "<!---", "TEST_NAME").value;
      var q := KeywordTagEnd(s, i, "<!---", "TEST_NAME", "-->").value; var e := CommentEnd(s, i).value;
      && HasAt(s, i, "<!---") && IsSpace(s[p - 1])
      && (exists a :: i + 5 <= a && a + 9 < p && HasAt(s, a, "TEST_NAME")
            && (forall k :: i + 5 <= k < a ==> IsSpace(s[k]))
            && (forall k :: a + 9 <= k < p ==> IsSpace(s[k])))
      && HasAt(s, q - 3, "-->")
      && (forall k :: p <= k < q - 3 ==> !IsLineTerminator(s[k]) && !HasAt(s, k, "-->"))
      && (forall k :: q <= k < e ==> IsSpace(s[k])) && (e == |s| || !IsSpace(s[e]))
  {
    KeywordTagSound(s, i, "<!---", "TEST_NAME", "-->");
    KeywordHeadSound(s, i, "<!---", "TEST_NAME");
    SkipSpaceIsSpan(s, KeywordTagEnd(s, i, "<!---", "TEST_NAME", "-->").value);
  }

  // ---------------------------------------------------------------------------------
  // The two passes

  /** The first link of the source goes with the whitespace after it; the text before
      it is copied, and the search resumes after it. */
  lemma FirstUrlRemoved(src: string)
    requires FirstMatch(src, 0, UrlEnd).Some?
    ensures var i := FirstMatch(src, 0, UrlEnd).value; var e := UrlEnd(src, i).value;
      && (e == |src| || !IsSpace(src[e]))
      && ReplaceAll(src, UrlEnd, Delete()) == src[..i] + ReplaceFrom(src, e, UrlEnd, Delete())
  {
    UrlSound(src, FirstMatch(src, 0, UrlEnd).value);
    FirstDeleted(src, UrlEnd);
  }

  /** The first test-name comment left after the first pass goes in the same way. */
  lemma FirstCommentRemoved(src: string)
    requires FirstMatch(src, 0, CommentEnd).Some?
    ensures var i := FirstMatch(src, 0, CommentEnd).value; var e := CommentEnd(src, i).value;
      && (e == |src| || !IsSpace(src[e]))
      && ReplaceAll(src, CommentEnd, Delete()) == src[..i] + ReplaceFrom(src, e, CommentEnd, Delete())
  {
    CommentSound(src, FirstMatch(src, 0, CommentEnd).value);
    FirstDeleted(src, CommentEnd);
  }

  /** A source without either opening is parsed as it is. */
  lemma NoTagUnchanged(src: string)
    requires forall j :: 0 <= j < |src| ==> !HasAt(src, j, UrlOpen) && !HasAt(src, j, "<!---")
    ensures Clean(src) == src
  {
    NoMatchUnchanged(src, UrlEnd, Delete());
    NoMatchUnchanged(src, CommentEnd, Delete());
  }
}
