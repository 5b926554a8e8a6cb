/**
  The text helpers of the translation server (translate-tool/server.mjs): the clean-up
  applied to a model's reply before it is saved (`cleanupTranslation`) and the path a
  translated file is saved under (`calculateTargetPath`).
 */
module TranslateServer {
  import opened Strings
  import opened Rewrite

  // ---------------------------------------------------------------------------------
  // The opening and closing fences

  /** `t` without the leading `p`, when it starts with `p`. */
  function StripPrefix(t: string, p: string): (r: string)
    ensures StartsWith(t, p) ==> t == p + r
    ensures !StartsWith(t, p) ==> r == t
  {
    if StartsWith(t, p) then
      HasAtSlice(t, 0, p);
      assert t == t[..|p|] + t[|p|..];
      t[|p|..]
    else t
  }

  /** The opening fence of a reply: the first of `` ```markdown ``, `` ```md `` and `` ``` ``
      the reply starts with picks the fence, which goes only when a line break follows
      it; at most one fence goes. */
  function StripOpening(t: string): (r: string)
    ensures r == t || t == "```markdown\n" + r || t == "```md\n" + r || t == "```\n" + r
  {
    if StartsWith(t, "```markdown") then StripPrefix(t, "```markdown\n")
    else if StartsWith(t, "```md") then StripPrefix(t, "```md\n")
    else if StartsWith(t, "```") then StripPrefix(t, "```\n")
    else t
  }

  /** The reply opens with one of the three fences and its line break. */
  predicate Fenced(t: string) {
    StartsWith(t, "```markdown\n") || StartsWith(t, "```md\n") || StartsWith(t, "```\n")
  }

  /** A text starting with `q` starts with each prefix `p` of `q`. */
  lemma PrefixStart(t: string, p: string, q: string)
    requires |p| <= |q| && q[..|p|] == p
    ensures StartsWith(t, q) ==> StartsWith(t, p)
  {
    if StartsWith(t, q) {
      forall k | 0 <= k < |p| ensures t[k] == p[k] {
        HasAtChar(t, 0, q, k);
      }
    }
  }

  /** No text starts with two strings that differ at a position both reach. */
  lemma StartsApart(t: string, p: string, q: string, k: nat)
    requires k < |p| && k < |q| && p[k] != q[k]
    ensures !(StartsWith(t, p) && StartsWith(t, q))
  {
  }

  /** A fence goes exactly when the reply opens with one of the three fences and its line
      break: a longer fence name that blocks a shorter one (`` ```mdx ``) leaves the text
      alone. */
  lemma OpeningStrippedIff(t: string)
    ensures StripOpening(t) != t <==> Fenced(t)
  {
    PrefixStart(t, "```markdown", "```markdown\n");
    PrefixStart(t, "```md", "```md\n");
    PrefixStart(t, "```", "```\n");
    PrefixStart(t, "```", "```md");
    StartsApart(t, "```markdown", "```md\n", 4);
    StartsApart(t, "```markdown", "```\n", 3);
    StartsApart(t, "```md", "```\n", 3);
  }

  /** Each fence with its line break is stripped from what follows it. */
  lemma FenceStripped(fence: string, body: string)
    requires fence == "```markdown\n" || fence == "```md\n" || fence == "```\n"
    ensures StripOpening(fence + body) == body
  {
    HasAtParts(fence, body);
    var t := fence + body;
    PrefixStart(t, "```markdown", "```markdown\n");
    PrefixStart(t, "```md", "```md\n");
    PrefixStart(t, "```", "```\n");
    PrefixStart(t, "```", "```md");
    StartsApart(t, "```markdown", "```md\n", 4);
    StartsApart(t, "```markdown", "```\n", 3);
    StartsApart(t, "```md", "```\n", 3);
    assert t[|fence|..] == body;
  }

  /** One closing fence `` ``` `` at the very end goes. */
  function StripClosing(t: string): (r: string)
    ensures EndsWith(t, "```") ==> t == r + "```"
    ensures !EndsWith(t, "```") ==> r == t
  {
    if EndsWith(t, "```") then
      assert t == t[..|t| - 3] + t[|t| - 3..];
      t[..|t| - 3]
    else t
  }

  /** The closing fence added to a text is the one removed. */
  lemma ClosingStripped(body: string)
    ensures StripClosing(body + "```") == body
  {
    var t := body + "```";
    assert t[|t| - 3..] == "```";
    assert t[..|t| - 3] == body;
  }

  // ---------------------------------------------------------------------------------
  // Escaped line breaks: `/([^\\])\\n/g` replaced by `$1` and a line break, then `/^\\n/g`

  /** The two characters `\` `n` at `k`. */
  predicate EscapeAt(s: string, k: nat) {
    k + 1 < |s| && s[k] == '\\' && s[k + 1] == 'n'
  }

  /** An escape at `k` not preceded by a backslash; `after` says whether the character
      before `s` is one. */
  predicate BareEscape(s: string, k: nat, after: bool) {
    EscapeAt(s, k) && (if k == 0 then !after else s[k - 1] != '\\')
  }

  predicate NoBareEscape(s: string, after: bool) {
    forall k :: 0 <= k < |s| ==> !BareEscape(s, k, after)
  }

  /** The pattern as written: a character other than a backslash, then the escape. The
      character is consumed with the match. */
  function EscapeMatch(s: string, i: nat): Option<nat> {
    if i + 3 <= |s| && s[i] != '\\' && s[i + 1] == '\\' && s[i + 2] == 'n' then Some(i + 3)
    else None
  }

  /** `$1` followed by a line break. */
  function KeepThenBreak(): Replacer {
    (s: string, i: nat, e: nat) => if i < |s| then [s[i], '\n'] else []
  }

  /** The first replacement as written. */
  function UnescapeAsWritten(s: string): string {
    ReplaceAll(s, EscapeMatch, KeepThenBreak())
  }

  /** The second replacement: an escape at the very start becomes a line break. */
  function LeadingEscape(s: string): (r: string)
    ensures !EscapeAt(s, 0) ==> r == s
    ensures EscapeAt(s, 0) ==> r == "\n" + s[2..]
  {
    if EscapeAt(s, 0) then "\n" + s[2..] else s
  }

  /** Two escapes in a row. */
  const Doubled: string := "a\\n\\n"

  /** As written the pattern consumes the character before the escape, so the second of
      two adjacent escapes finds its preceding character already taken and stays. */
  lemma AdjacentEscapeKept()
    ensures UnescapeAsWritten(Doubled) == "a\n\\n"
    ensures LeadingEscape(UnescapeAsWritten(Doubled)) == "a\n\\n"
    ensures !NoBareEscape(LeadingEscape(UnescapeAsWritten(Doubled)), false)
  {
    var s := Doubled;
    assert EscapeMatch(s, 0) == Some(3);
    assert EscapeMatch(s, 3).None?;
    assert EscapeMatch(s, 4).None?;
    assert ReplaceFrom(s, 5, EscapeMatch, KeepThenBreak()) == [];
    assert ReplaceFrom(s, 4, EscapeMatch, KeepThenBreak()) == "n";
    assert ReplaceFrom(s, 3, EscapeMatch, KeepThenBreak()) == "\\n";
    assert ReplaceFrom(s, 0, EscapeMatch, KeepThenBreak()) == "a\n" + "\\n";
    assert BareEscape("a\n\\n", 2, false);
  }

  /** The evidently intended reading, a look-behind: every escape not preceded by a
      backslash becomes a line break, the preceding character being looked at but not
      consumed. */
  function Unescape(s: string, after: bool): (r: string)
    ensures NoBareEscape(r, after)
    ensures s != [] ==> r != [] && (r[0] == s[0] || r[0] == '\n')
    ensures |r| <= |s|
    decreases |s|
  {
    if |s| < 2 then s
    else if s[0] == '\\' && s[1] == 'n' && !after then
      var rest := Unescape(s[2..], false);
      NoBareAfter('\n', rest, after);
      "\n" + rest
    else
      var rest := Unescape(s[1..], s[0] == '\\');
      NoBareAfter(s[0], rest, after);
      [s[0]] + rest
  }

  /** A character in front of a text without bare escapes adds none, unless it is a
      backslash starting one. */
  lemma NoBareAfter(c: char, rest: string, after: bool)
    requires NoBareEscape(rest, c == '\\')
    requires rest != [] && c == '\\' && !after ==> rest[0] != 'n'
    ensures NoBareEscape([c] + rest, after)
  {
    var r := [c] + rest;
    forall k | 0 <= k < |r| ensures !BareEscape(r, k, after) {
      if k > 0 && BareEscape(r, k, after) {
        assert r[k] == rest[k - 1] && r[k + 1] == rest[k];
        if k > 1 {
          assert r[k - 1] == rest[k - 2];
        }
        assert BareEscape(rest, k - 1, c == '\\');
      }
    }
  }

  /** Text without escapes comes through unchanged. */
  lemma {:induction false} UnescapePlain(s: string, after: bool)
    requires forall k :: 0 <= k < |s| ==> !EscapeAt(s, k)
    ensures Unescape(s, after) == s
    decreases |s|
  {
    if |s| >= 2 {
      assert !EscapeAt(s, 0);
      forall k | 0 <= k < |s[1..]| ensures !EscapeAt(s[1..], k) {
        assert !EscapeAt(s, k + 1);
      }
      UnescapePlain(s[1..], s[0] == '\\');
      assert s == [s[0]] + s[1..];
    }
  }

  /** The intended reading converts both of two adjacent escapes. */
  lemma AdjacentEscapesConverted()
    ensures Unescape(Doubled, false) == "a\n\n"
  {
    var s := Doubled;
    assert Unescape(s[4..], false) == "n";
    assert Unescape(s[3..], true) == "\\n";
    assert Unescape(s[1..], false) == "\n\n";
  }

  /** No escape is directly followed by another: the shape on which the pattern as
      written skips nothing. */
  predicate NoAdjacentEscapes(s: string) {
    forall k :: 0 <= k < |s| ==> !(EscapeAt(s, k) && EscapeAt(s, k + 2))
  }

  /** From a position the pass as written reaches without skipping a bare escape, it
      computes what the corrected pass computes on the rest. */
  lemma {:induction false} AsWrittenFrom(s: string, i: nat, after: bool)
    requires i <= |s| && NoAdjacentEscapes(s)
    requires after == (i > 0 && s[i - 1] == '\\')
    requires !(EscapeAt(s, i) && !after)
    ensures ReplaceFrom(s, i, EscapeMatch, KeepThenBreak()) == Unescape(s[i..], after)
    decreases |s| - i
  {
    if |s| - i >= 2 {
      if EscapeMatch(s, i).Some? {
        NoEscapeAfter(s, i);
        AsWrittenFrom(s, i + 3, false);
        EscapeStepAsWritten(s, i);
        EscapeStepIntended(s, i, after);
      } else {
        AsWrittenFrom(s, i + 1, s[i] == '\\');
        CopyStepIntended(s, i, after);
      }
    }
  }

  /** Escapes are never adjacent, so none starts right after a converted one. */
  lemma NoEscapeAfter(s: string, i: nat)
    requires NoAdjacentEscapes(s) && EscapeMatch(s, i).Some?
    ensures !EscapeAt(s, i + 3)
  {
    assert EscapeAt(s, i + 1);
  }

  /** At an escape after a character other than a backslash, the pass as written keeps
      that character and puts a line break after it. */
  lemma EscapeStepAsWritten(s: string, i: nat)
    requires i <= |s| && EscapeMatch(s, i).Some?
    ensures ReplaceFrom(s, i, EscapeMatch, KeepThenBreak())
      == [s[i], '\n'] + ReplaceFrom(s, i + 3, EscapeMatch, KeepThenBreak())
  {
  }

  /** The corrected pass does the same there. */
  lemma EscapeStepIntended(s: string, i: nat, after: bool)
    requires i <= |s| && EscapeMatch(s, i).Some?
    ensures Unescape(s[i..], after) == [s[i], '\n'] + Unescape(s[i + 3..], false)
  {
    var t := s[i..];
    var u := t[1..];
    UnescapeCopies(t, after);
    UnescapeConverts(u);
    assert u[2..] == s[i + 3..];
  }

  /** Where neither pass converts, both copy the character. */
  lemma CopyStepIntended(s: string, i: nat, after: bool)
    requires i + 2 <= |s| && !(EscapeAt(s, i) && !after)
    ensures Unescape(s[i..], after) == [s[i]] + Unescape(s[i + 1..], s[i] == '\\')
  {
    UnescapeCopies(s[i..], after);
    assert s[i..][1..] == s[i + 1..];
  }

  lemma UnescapeCopies(t: string, after: bool)
    requires |t| >= 2 && !(t[0] == '\\' && t[1] == 'n' && !after)
    ensures Unescape(t, after) == [t[0]] + Unescape(t[1..], t[0] == '\\')
  {
  }

  lemma UnescapeConverts(u: string)
    requires |u| >= 2 && u[0] == '\\' && u[1] == 'n'
    ensures Unescape(u, false) == "\n" + Unescape(u[2..], false)
  {
  }

  /** On a text without adjacent escapes the pass as written, followed by the leading
      escape pass, agrees with the corrected pass: adjacent escapes are the only place
      they part. */
  lemma AsWrittenAgrees(s: string)
    requires NoAdjacentEscapes(s)
    ensures LeadingEscape(UnescapeAsWritten(s)) == Unescape(s, false)
  {
    if EscapeAt(s, 0) {
      assert !EscapeAt(s, 2);
      assert EscapeMatch(s, 0).None? && EscapeMatch(s, 1).None?;
      AsWrittenFrom(s, 2, false);
      var r := UnescapeAsWritten(s);
      var rest := ReplaceFrom(s, 2, EscapeMatch, KeepThenBreak());
      assert ReplaceFrom(s, 1, EscapeMatch, KeepThenBreak()) == [s[1]] + rest;
      assert r == [s[0]] + ([s[1]] + rest);
      assert r[2..] == rest;
    } else {
      AsWrittenFrom(s, 0, false);
      assert s[0..] == s;
    }
  }

  /** The two clean-ups agree whenever the reply has no adjacent escapes. */
  lemma CleanupsAgree(text: string)
    requires NoAdjacentEscapes(StripClosing(StripOpening(text)))
    ensures Cleanup(text) == CleanupIntended(text)
  {
    AsWrittenAgrees(StripClosing(StripOpening(text)));
  }

  // ---------------------------------------------------------------------------------
  // Runs of line breaks: `/\n{3,}/g` replaced by two line breaks

  predicate IsLf(c: char) {
    c == '\n'
  }

  /** Three line breaks start at `k`. */
  predicate TripleAt(s: string, k: nat) {
    k + 2 < |s| && s[k] == '\n' && s[k + 1] == '\n' && s[k + 2] == '\n'
  }

  predicate NoTriple(s: string) {
    forall k :: 0 <= k < |s| ==> !TripleAt(s, k)
  }

  /** Every run of three or more line breaks becomes two; shorter runs and every other
      character stay. */
  function Squeeze(s: string): (r: string)
    ensures NoTriple(r)
    ensures s != [] ==> r != [] && (r[0] == '\n' <==> s[0] == '\n')
    decreases |s|
  {
    if s == [] then []
    else if s[0] != '\n' then
      var rest := Squeeze(s[1..]);
      NoTripleJoin([s[0]], rest);
      [s[0]] + rest
    else
      var n := Span(s, 0, IsLf);
      var run := if n >= 3 then "\n\n" else s[..n];
      var rest := Squeeze(s[n..]);
      NoTripleJoin(run, rest);
      run + rest
  }

  /** No run of three crosses a boundary that a non-line-break closes or opens. */
  lemma NoTripleJoin(a: string, b: string)
    requires NoTriple(a) && NoTriple(b)
    requires a == [] || b == [] || a[|a| - 1] != '\n' || b[0] != '\n'
    ensures NoTriple(a + b)
  {
    var s := a + b;
    forall k | 0 <= k < |s| ensures !TripleAt(s, k) {
      if k + 2 < |a| {
        assert !TripleAt(a, k);
        assert s[k] == a[k] && s[k + 1] == a[k + 1] && s[k + 2] == a[k + 2];
      } else if k >= |a| {
        assert !TripleAt(b, k - |a|);
        if k + 2 < |s| {
          assert s[k] == b[k - |a|] && s[k + 1] == b[k - |a| + 1] && s[k + 2] == b[k - |a| + 2];
        }
      } else if k + 2 < |s| {
        assert s[|a| - 1] == a[|a| - 1] && s[|a|] == b[0];
      }
    }
  }

  /** A piece of a text without runs of three has none. */
  lemma NoTripleSlice(s: string, a: nat, b: nat)
    requires a <= b <= |s| && NoTriple(s)
    ensures NoTriple(s[a..b])
  {
    forall k | 0 <= k < b - a ensures !TripleAt(s[a..b], k) {
      assert !TripleAt(s, a + k);
    }
  }

  /** A run of three or more line breaks at the start is a run of three. */
  lemma RunTriple(s: string, n: nat)
    requires n <= |s| && forall k :: 0 <= k < n ==> s[k] == '\n'
    ensures n >= 3 ==> TripleAt(s, 0)
  {
  }

  /** A text without runs of three comes through unchanged, so squeezing twice is
      squeezing once. */
  lemma {:induction false} SqueezeKeeps(s: string)
    requires NoTriple(s)
    ensures Squeeze(s) == s
    decreases |s|
  {
    if s != [] {
      if s[0] != '\n' {
        NoTripleSlice(s, 1, |s|);
        assert s[1..|s|] == s[1..];
        SqueezeKeeps(s[1..]);
        assert s == [s[0]] + s[1..];
      } else {
        var n := Span(s, 0, IsLf);
        RunTriple(s, n);
        NoTripleSlice(s, n, |s|);
        assert s[n..|s|] == s[n..];
        SqueezeKeeps(s[n..]);
        assert s == s[..n] + s[n..];
      }
    }
  }

  // ---------------------------------------------------------------------------------
  // cleanupTranslation

  /** What `trim` keeps is a piece of the text. */
  lemma TrimIsSlice(s: string)
    ensures exists a: nat, b: nat :: a <= b <= |s| && Trim(s) == s[a..b]
  {
    var a := Span(s, 0, IsSpace);
    if a == |s| {
      assert Trim(s) == s[0..0];
    } else {
      var b := SpanBack(s, |s|);
      assert Trim(s) == s[a..b];
    }
  }

  /** Trimming keeps a text free of runs of three line breaks. */
  lemma TrimNoTriple(s: string)
    requires NoTriple(s)
    ensures NoTriple(Trim(s))
  {
    TrimIsSlice(s);
    var a: nat, b: nat :| a <= b <= |s| && Trim(s) == s[a..b];
    NoTripleSlice(s, a, b);
  }

  /** The stages after the empty-input check: fences, escapes as written, runs of line
      breaks and surrounding white space. */
  function CleanupStages(text: string): (r: string)
    ensures r == [] || (!IsSpace(r[0]) && !IsSpace(r[|r| - 1]))
    ensures NoTriple(r)
  {
    var squeezed := Squeeze(LeadingEscape(UnescapeAsWritten(StripClosing(StripOpening(text)))));
    TrimNoTriple(squeezed);
    Trim(squeezed)
  }

  /** `cleanupTranslation` as written: an empty reply gives the empty string; any other
      gives a trimmed text without three line breaks in a row. */
  function Cleanup(text: string): (r: string)
    ensures text == [] ==> r == []
    ensures r == [] || (!IsSpace(r[0]) && !IsSpace(r[|r| - 1]))
    ensures NoTriple(r)
  {
    if text == [] then [] else CleanupStages(text)
  }

  /** The same stages with the escapes converted as evidently intended. */
  function CleanupIntendedStages(text: string): (r: string)
    ensures r == [] || (!IsSpace(r[0]) && !IsSpace(r[|r| - 1]))
    ensures NoTriple(r)
  {
    var squeezed := Squeeze(LeadingEscape(Unescape(StripClosing(StripOpening(text)), false)));
    TrimNoTriple(squeezed);
    Trim(squeezed)
  }

  /** `cleanupTranslation` with the corrected escape pass. */
  function CleanupIntended(text: string): (r: string)
    ensures text == [] ==> r == []
    ensures r == [] || (!IsSpace(r[0]) && !IsSpace(r[|r| - 1]))
    ensures NoTriple(r)
  {
    if text == [] then [] else CleanupIntendedStages(text)
  }

  /** On two adjacent escapes the clean-up as written leaves the second one literal,
      while the corrected clean-up turns both into line breaks. */
  lemma CleanupAdjacentEscapes()
    ensures Cleanup(Doubled) == "a\n\\n"
    ensures CleanupIntended(Doubled) == "a"
  {
    CleanupKeepsSecond();
    CleanupIntendedConverts();
  }

  lemma CleanupKeepsSecond()
    ensures Cleanup(Doubled) == "a\n\\n"
  {
    DoubledUnfenced();
    AdjacentEscapeKept();
    TrimSquoze("a\n\\n", 4);
  }

  lemma CleanupIntendedConverts()
    ensures CleanupIntended(Doubled) == "a"
  {
    DoubledUnfenced();
    AdjacentEscapesConverted();
    TrimSquoze("a\n\n", 1);
  }

  /** `a\n\n` has neither an opening nor a closing fence. */
  lemma DoubledUnfenced()
    ensures StripClosing(StripOpening(Doubled)) == Doubled
  {
    var s := Doubled;
    assert !StartsWith(s, "```") by {
      if StartsWith(s, "```") {
        HasAtChar(s, 0, "```", 0);
      }
    }
    PrefixStart(s, "```", "```md");
    PrefixStart(s, "```", "```markdown");
    assert !EndsWith(s, "```") by {
      assert s[|s| - 1] == 'n';
    }
  }

  /** A text free of runs of three line breaks whose first `n` characters are the last
      ones that are not white space squeezes and trims to those characters. */
  lemma TrimSquoze(t: string, n: nat)
    requires 0 < n <= |t| && NoTriple(t) && !IsSpace(t[0]) && !IsSpace(t[n - 1])
    requires forall k :: n <= k < |t| ==> IsSpace(t[k])
    ensures Trim(Squeeze(t)) == t[..n]
  {
    SqueezeKeeps(t);
    assert Span(t, 0, IsSpace) == 0;
    SpanBackRun(t, n, |t|);
  }

  /** Going back over a run of white space stops at the non-space character before it. */
  lemma {:induction false} SpanBackRun(t: string, n: nat, j: nat)
    requires 0 < n <= j <= |t| && !IsSpace(t[n - 1])
    requires forall k :: n <= k < j ==> IsSpace(t[k])
    ensures SpanBack(t, j) == n
    decreases j
  {
    if j > n {
      SpanBackRun(t, n, j - 1);
    }
  }

  /** Wrapping a reply in a fence changes nothing: the fences come off and the rest is
      cleaned as the bare reply would be, by either clean-up. */
  lemma FencedCleanup(fence: string, body: string)
    requires fence == "```markdown\n" || fence == "```md\n" || fence == "```\n"
    requires StripOpening(body) == body && !EndsWith(body, "```")
    ensures Cleanup(fence + body + "```") == Cleanup(body)
    ensures CleanupIntended(fence + body + "```") == CleanupIntended(body)
  {
    var t := fence + body + "```";
    assert t == fence + (body + "```");
    FenceStripped(fence, body + "```");
    ClosingStripped(body);
    if body == [] {
      assert UnescapeAsWritten([]) == [];
      assert Squeeze(LeadingEscape(Unescape([], false))) == [];
    }
  }

  // ---------------------------------------------------------------------------------
  // calculateTargetPath

  /** Where a translation is saved: `project/file` for Simplified Chinese, the default
      locale, and `lang/project/file` for every other language. */
  function TargetPath(project: string, file: string, lang: string): (r: string)
    ensures lang == "zh-Hans" ==> r == Join([project, file], '/')
    ensures lang != "zh-Hans" ==> r == Join([lang, project, file], '/')
  {
    JoinThree(lang, project, file, '/');
    if lang == "zh-Hans" then project + "/" + file else lang + "/" + project + "/" + file
  }

  /** The path splits back into its parts when none of them holds a slash. */
  lemma TargetPathParts(project: string, file: string, lang: string)
    requires '/' !in project && '/' !in file && '/' !in lang
    ensures lang == "zh-Hans" ==> Split(TargetPath(project, file, lang), '/') == [project, file]
    ensures lang != "zh-Hans" ==> Split(TargetPath(project, file, lang), '/') == [lang, project, file]
  {
    if lang == "zh-Hans" {
      SplitJoin([project, file], '/');
    } else {
      SplitJoin([lang, project, file], '/');
    }
  }
}
