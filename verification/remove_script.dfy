/**
  Script removal at render time: the HTML block and inline renderers delete every
  `<script …>…</script>` element from a token's content when the content contains
  `<script`, and hand the token to the original renderer otherwise
  (docs/.vitepress/plugins/markdown/common/markdown-it-remove-script.ts).

  The original renderer is outside this model: its output for the token is a parameter.
 */
module RemoveScript {
  import opened Strings
  import opened Rewrite

  // ---------------------------------------------------------------------------------
  // The pattern  <script\b[^<]*(?:(?!<\/script>)<[^<]*)*<\/script>   (flags g and i)
  //
  // After the opening, `[^<]*` and the groups cross every character, each group taking
  // one `<` that does not start a closing tag; the closing tag must then follow. So the
  // match ends with the first closing tag after the opening, and there is no match when
  // no closing tag follows. With `i` and without `u`, letters compare up to ASCII case,
  // and `\b` after `t` asks for a character that is not in `[A-Za-z0-9_]`, or the end.

  /** A closing tag `</script>`, in any case, at `k`. */
  function CloserAt(s: string, k: nat): Option<nat> {
    LitIgnoreCase(s, k, "</script>")
  }

  /** The opening `<script` at `i`, in any case, followed by a word boundary. */
  predicate OpenerAt(s: string, i: nat) {
    HasAtIgnoreCase(s, i, "<script") && (i + 7 == |s| || !IsWordChar(s[i + 7]))
  }

  /** The end of the script element starting at `i`, if one does. */
  function ScriptEnd(s: string, i: nat): (r: Option<nat>)
    ensures r.Some? ==> i + 16 <= r.value <= |s|
  {
    if !OpenerAt(s, i) then None
    else
      match FirstMatch(s, i + 7, CloserAt)
      case None => None
      case Some(j) => Some(j + 9)
  }

  /** `content.replace(pattern, '')` */
  function RemoveScripts(content: string): string {
    ReplaceAll(content, ScriptEnd, Delete())
  }

  /** The `html_block` and `html_inline` rules as written: the guard looks for `<script`
      in lower case only. `original` is what the original rule renders for the token. */
  function Render(content: string, original: string): string {
    if Contains(content, "<script") then RemoveScripts(content) else original
  }

  // ---------------------------------------------------------------------------------
  // The pattern, both ways

  /** An opening followed, after text without a closing tag, by a closing tag is an
      element: it ends where that closing tag ends. */
  lemma ScriptRecognised(s: string, i: nat, j: nat)
    requires OpenerAt(s, i) && i + 7 <= j && HasAtIgnoreCase(s, j, "</script>")
    requires forall k :: i + 7 <= k < j ==> !HasAtIgnoreCase(s, k, "</script>")
    ensures ScriptEnd(s, i) == Some(j + 9)
  {
    FirstMatchAt(s, i + 7, CloserAt, j);
  }

  /** Everything recognised is an element: an opening, text without a closing tag, and
      the first closing tag after it. */
  lemma ScriptSound(s: string, i: nat)
    requires ScriptEnd(s, i).Some?
    ensures var e := ScriptEnd(s, i).value;
      && OpenerAt(s, i) && HasAtIgnoreCase(s, e - 9, "</script>")
      && forall k :: i + 7 <= k < e - 9 ==> !HasAtIgnoreCase(s, k, "</script>")
  {
    var j := FirstMatch(s, i + 7, CloserAt).value;
    forall k | i + 7 <= k < j ensures !HasAtIgnoreCase(s, k, "</script>") {
      assert !MatchesAt(CloserAt, s, k);
    }
  }

  /** An opening that no closing tag follows is not an element. */
  lemma UnterminatedKept(s: string, i: nat)
    requires OpenerAt(s, i)
    requires forall k :: i + 7 <= k < |s| ==> !HasAtIgnoreCase(s, k, "</script>")
    ensures ScriptEnd(s, i).None?
  {
    if ScriptEnd(s, i).Some? {
      ScriptSound(s, i);
    }
  }

  // ---------------------------------------------------------------------------------
  // The renderer

  /** The first element goes, the text before it stays, and the search resumes after it. */
  lemma FirstScriptRemoved(content: string)
    requires FirstMatch(content, 0, ScriptEnd).Some?
    ensures var i := FirstMatch(content, 0, ScriptEnd).value;
      RemoveScripts(content) == content[..i] + ReplaceFrom(content, ScriptEnd(content, i).value, ScriptEnd, Delete())
  {
    FirstDeleted(content, ScriptEnd);
  }

  /** When `<script` appears in lower case and an element is found, the printed text is
      shorter than the content and keeps everything before the first element. When no
      element is found the content is printed as it is, bypassing the original renderer;
      without a lower-case `<script` the original renderer decides. */
  lemma RenderRemoves(content: string, original: string)
    ensures Contains(content, "<script") && FirstMatch(content, 0, ScriptEnd).Some? ==>
      var r := Render(content, original);
      |r| < |content| && StartsWith(r, content[..FirstMatch(content, 0, ScriptEnd).value])
    ensures Contains(content, "<script") && FirstMatch(content, 0, ScriptEnd).None? ==>
      Render(content, original) == content
    ensures !Contains(content, "<script") ==> Render(content, original) == original
  {
    if FirstMatch(content, 0, ScriptEnd).Some? {
      var i := FirstMatch(content, 0, ScriptEnd).value;
      FirstScriptRemoved(content);
      DeleteShortens(content, 0, ScriptEnd);
      HasAtParts(content[..i], ReplaceFrom(content, ScriptEnd(content, i).value, ScriptEnd, Delete()));
    } else {
      NoMatchUnchanged(content, ScriptEnd, Delete());
    }
  }

  /** As written, content whose elements are all written in upper case, such as
      `<SCRIPT></SCRIPT>`, reaches the original renderer, which prints HTML content as
      it is: the element stays although the pattern would remove it. */
  lemma UpperCaseScriptKept(content: string, i: nat)
    requires i < |content| && ScriptEnd(content, i).Some?
    requires forall k :: 0 <= k < |content| ==> content[k] != 's'
    ensures Render(content, content) == content
    ensures RemoveScripts(content) != content
  {
    NoLowerS(content);
    assert MatchesAt(ScriptEnd, content, i);
    DeleteShortens(content, 0, ScriptEnd);
  }

  /** Without a lower-case `s` there is no lower-case `<script`. */
  lemma NoLowerS(s: string)
    requires forall k :: 0 <= k < |s| ==> s[k] != 's'
    ensures !Contains(s, "<script")
  {
    forall j | 0 <= j && j + 7 <= |s| ensures !HasAt(s, j, "<script") {
      assert s[j + 1] != "<script"[1];
    }
  }

  // ---------------------------------------------------------------------------------
  // The guard as evidently intended: in any case, like the pattern

  /** `<script` appears in some case. */
  predicate ContainsIgnoreCase(s: string, p: string) {
    exists k | 0 <= k <= |s| :: HasAtIgnoreCase(s, k, p)
  }

  /** The rules with a guard that ignores case as the pattern does. */
  function RenderFixed(content: string, original: string): string {
    if ContainsIgnoreCase(content, "<script") then RemoveScripts(content) else original
  }

  /** Whenever the content holds an element the pattern recognises, the guarded rule
      removes the elements; the original renderer only sees content the pattern would
      leave as it is. */
  lemma FixedRemovesEveryScript(content: string, original: string)
    ensures (exists i | 0 <= i < |content| :: ScriptEnd(content, i).Some?) ==>
      RenderFixed(content, original) == RemoveScripts(content)
    ensures !ContainsIgnoreCase(content, "<script") ==> RemoveScripts(content) == content
  {
    if exists i | 0 <= i < |content| :: ScriptEnd(content, i).Some? {
      var i :| 0 <= i < |content| && ScriptEnd(content, i).Some?;
      assert OpenerAt(content, i);
    }
    if !ContainsIgnoreCase(content, "<script") {
      forall j | 0 <= j < |content| ensures !MatchesAt(ScriptEnd, content, j) {
        assert !HasAtIgnoreCase(content, j, "<script");
      }
      NoMatchUnchanged(content, ScriptEnd, Delete());
    }
  }

  /** The guards agree whenever `<script` is written in lower case. */
  lemma FixedAgrees(content: string, original: string)
    requires Contains(content, "<script")
    ensures RenderFixed(content, original) == Render(content, original)
  {
    var j := IndexOf(content, "<script", 0).value;
    forall k | 0 <= k < 7 ensures SameIgnoringCase(content[j + k], "<script"[k]) {
      assert content[j + k] == "<script"[k];
    }
    assert HasAtIgnoreCase(content, j, "<script");
  }
}
