/**
  Material for MkDocs diff blocks with a title: a fenced block whose info string starts
  with the language `diff` and holds `title="…"` is wrapped in a titled container
  (docs/.vitepress/plugins/markdown/mkdocs/markdown-it-mk-diff-code-block.ts). Every other
  fence renders as before.

  Three things come from outside and are parameters: markdown-it's `unescapeAll` and
  `escapeHtml`, and what the previous fence rule renders for the token.
 */
module DiffCodeBlock {
  import opened Strings
  import opened Rewrite

  // ---------------------------------------------------------------------------------
  // The info string

  /** The info string the rule inspects: unescaped and trimmed, or empty when the token
      has none. */
  function CleanInfo(info: string, unescape: string -> string): (r: string)
    ensures r == [] || (!IsSpace(r[0]) && !IsSpace(r[|r| - 1]))
    ensures info == [] ==> r == []
  {
    if info == [] then [] else Trim(unescape(info))
  }

  /** `info.split(/\s+/g)[0]`: for an info string that does not start with whitespace,
      everything before the first whitespace character. */
  function FirstWord(info: string): (r: string)
    ensures |r| <= |info| && r == info[..|r|]
    ensures forall k :: 0 <= k < |r| ==> !IsSpace(r[k])
    ensures |r| < |info| ==> IsSpace(info[|r|])
  {
    var n := Span(info, 0, NotSpace);
    assert forall k :: 0 <= k < n ==> info[..n][k] == info[k];
    info[..n]
  }

  /** The language: the first word of a non-empty info string, and empty otherwise. */
  function Language(info: string): string {
    if info == [] then [] else FirstWord(info)
  }

  // ---------------------------------------------------------------------------------
  // The pattern  \btitle="([^"]*)"
  //
  // `t` is a word character, so `\b` before it asks for the start of the string or a
  // non-word character. `[^"]*` runs to the next quote and may be empty.

  const TitleOpen := "title=\""

  /** A word boundary before the word character at `i`. */
  predicate WordStart(s: string, i: nat) {
    i == 0 || (i <= |s| && !IsWordChar(s[i - 1]))
  }

  /** `\btitle="[^"]*"` at `i`: where the closing quote is. */
  function TitleEnd(s: string, i: nat): (r: Option<nat>)
    ensures r.Some? ==> i + 7 <= r.value < |s| && s[r.value] == '"'
  {
    if !HasAt(s, i, TitleOpen) || !WordStart(s, i) then None
    else
      var q := FindChar(s, '"', i + 7);
      if q == |s| then None else Some(q)
  }

  function TitleMatch(s: string, i: nat): Option<nat> {
    match TitleEnd(s, i)
    case Some(q) => Some(q + 1)
    case None => None
  }

  /** `info.match(/\btitle="([^"]*)"/)[1]`: the value of the first whole-word
      `title="…"`, unescaped. */
  function Title(info: string): Option<string> {
    match FirstMatch(info, 0, TitleMatch)
    case Some(i) => Some(info[i + 7..TitleEnd(info, i).value])
    case None => None
  }

  // ---------------------------------------------------------------------------------
  // The renderer

  function TitleBar(title: string): string {
    "<div class=\"vp-code-block-title-bar\">" + title + "</div>\n"
  }

  /** The container: the title bar, then the block as the previous rule renders it. */
  function Wrap(title: string, code: string): string {
    "<div class=\"vp-code-block-title\">\n" + TitleBar(title) + code + "</div>\n"
  }

  /** The replaced fence rule. `code` is what the previous fence rule renders for the
      token; `escape` is `escapeHtml`. */
  function RenderFence(info: string, unescape: string -> string, escape: string -> string, code: string): string {
    var clean := CleanInfo(info, unescape);
    var title := if clean == [] then None else Title(clean);
    if Language(clean) == "diff" && title.Some? then Wrap(escape(title.value), code) else code
  }

  // ---------------------------------------------------------------------------------
  // The language

  /** The first word is the text up to the first whitespace, whatever follows. */
  lemma FirstWordOf(w: string, rest: string)
    requires forall k :: 0 <= k < |w| ==> !IsSpace(w[k])
    requires rest == [] || IsSpace(rest[0])
    ensures FirstWord(w + rest) == w
  {
    var s := w + rest;
    forall k | 0 <= k < |w| ensures NotSpace(s[k]) {
      assert s[k] == w[k];
    }
    if rest != [] {
      assert s[|w|] == rest[0];
    }
    SpanExact(s, 0, NotSpace, |w|);
    assert s[..|w|] == w;
  }

  // ---------------------------------------------------------------------------------
  // The title

  predicate NoQuote(t: string) {
    forall k :: 0 <= k < |t| ==> t[k] != '"'
  }

  /** The landmarks of the first whole-word `title="…"`: it starts at `i` and its value
      ends at the quote `q`; no quote comes before it. */
  predicate TitleLaidOut(s: string, i: nat, q: nat) {
    && i + 7 <= q < |s| && HasAt(s, i, TitleOpen) && WordStart(s, i) && s[q] == '"'
    && (forall k :: 0 <= k < i ==> s[k] != '"')
    && (forall k :: i + 7 <= k < q ==> s[k] != '"')
  }

  /** Text laid out that way has the title between `i + 7` and `q`. */
  lemma TitlePositions(s: string, i: nat, q: nat)
    requires TitleLaidOut(s, i, q)
    ensures Title(s) == Some(s[i + 7..q])
  {
    FindCharExact(s, '"', i + 7, q);
    assert TitleMatch(s, i) == Some(q + 1);
    TitleFirst(s, i);
    FirstMatchAt(s, 0, TitleMatch, i);
  }

  /** With no quote before an occurrence of `title="` at `i`, no match starts before
      it. */
  lemma TitleFirst(s: string, i: nat)
    requires HasAt(s, i, TitleOpen) && forall k :: 0 <= k < i ==> s[k] != '"'
    ensures forall j :: 0 <= j < i ==> !MatchesAt(TitleMatch, s, j)
  {
    forall j | 0 <= j < i ensures !HasAt(s, j, TitleOpen) {
      if HasAt(s, j, TitleOpen) {
        HasAtChar(s, j, TitleOpen, 6);
        if j + 6 >= i {
          HasAtChar(s, i, TitleOpen, 0);
          HasAtChar(s, i, TitleOpen, 1);
          HasAtChar(s, j, TitleOpen, i - j);
          HasAtChar(s, j, TitleOpen, i - j + 1);
        }
      }
    }
  }

  /** `title="v"` as it is written. */
  function TitleText(v: string): string {
    TitleOpen + v + "\""
  }

  /** A whole-word `title="v"` with no quote before it is found, and its value read
      back verbatim. */
  lemma TitleRecognised(pre: string, v: string, post: string)
    requires NoQuote(pre) && WordStart(pre, |pre|) && NoQuote(v)
    ensures Title(pre + TitleText(v) + post) == Some(v)
  {
    HasAtParts3(pre, TitleText(v), post);
    TitleAt(pre + TitleText(v) + post, pre, v);
  }

  lemma TitleAt(s: string, pre: string, v: string)
    requires HasAt(s, 0, pre) && HasAt(s, |pre|, TitleText(v))
    requires NoQuote(pre) && WordStart(pre, |pre|) && NoQuote(v)
    ensures Title(s) == Some(v)
  {
    var i := |pre|;
    var q := i + 7 + |v|;
    HasAtConcat(s, i, TitleOpen + v, "\"");
    HasAtConcat(s, i, TitleOpen, v);
    HasAtChar(s, q, "\"", 0);
    forall k | 0 <= k < i ensures s[k] != '"' {
      HasAtChar(s, 0, pre, k);
    }
    forall k | i + 7 <= k < q ensures s[k] != '"' {
      HasAtChar(s, i + 7, v, k - i - 7);
    }
    if i > 0 {
      HasAtChar(s, 0, pre, i - 1);
    }
    HasAtSlice(s, i + 7, v);
    TitlePositions(s, i, q);
  }

  /** Whatever `Title` finds is the value of the first whole-word `title="…"`: it holds
      no quote and is followed by one. */
  lemma TitleSound(info: string, i: nat)
    requires FirstMatch(info, 0, TitleMatch) == Some(i)
    ensures Title(info).Some? && WordStart(info, i)
    ensures HasAt(info, i, TitleText(Title(info).value)) && NoQuote(Title(info).value)
  {
    var q := TitleEnd(info, i).value;
    var v := info[i + 7..q];
    assert forall k :: 0 <= k < |v| ==> v[k] == info[i + 7 + k];
    HasAtSlice(info, i + 7, v);
    HasAtSingle(info, q, '"');
    HasAtJoin(info, i, TitleOpen, v);
    HasAtJoin(info, i, TitleOpen + v, "\"");
  }

  /** `title="` glued to a word character before it, as in `subtitle="…"`, is not a
      title: text whose every `title="` is like that has none. */
  lemma GluedTitleIgnored(info: string)
    requires forall i :: 0 < i < |info| && HasAt(info, i, TitleOpen) ==> IsWordChar(info[i - 1])
    requires !HasAt(info, 0, TitleOpen)
    ensures Title(info).None?
  {
    assert forall j :: 0 <= j < |info| ==> !MatchesAt(TitleMatch, info, j);
  }

  // ---------------------------------------------------------------------------------
  // The renderer

  /** A `diff` block with a title: the output is the container around the title,
      escaped, and the block as the previous rule renders it. Other attributes may
      stand between the language and the title. */
  lemma DiffWithTitle(info: string, unescape: string -> string, escape: string -> string, code: string,
                      g: string, mid: string, v: string, post: string)
    requires info != [] && g != [] && AllSpace(g) && NoQuote(mid) && NoQuote(v)
    requires mid == [] || !IsWordChar(mid[|mid| - 1])
    requires Trim(unescape(info)) == "diff" + g + mid + TitleText(v) + post
    ensures RenderFence(info, unescape, escape, code) == Wrap(escape(v), code)
  {
    var clean := CleanInfo(info, unescape);
    var pre := "diff" + g + mid;
    HasAtParts3(pre, TitleText(v), post);
    DiffFirst(clean, g, mid);
    DiffPrefix(pre, g, mid);
    TitleRecognised(pre, v, post);
  }

  /** Text starting with `diff` and whitespace has the language `diff`. */
  lemma DiffFirst(s: string, g: string, mid: string)
    requires HasAt(s, 0, "diff" + g + mid) && g != [] && AllSpace(g)
    ensures FirstWord(s) == "diff"
  {
    HasAtConcat(s, 0, "diff" + g, mid);
    HasAtConcat(s, 0, "diff", g);
    HasAtChar(s, 4, g, 0);
    forall k | 0 <= k < 4 ensures NotSpace(s[k]) {
      HasAtChar(s, 0, "diff", k);
    }
    SpanExact(s, 0, NotSpace, 4);
    HasAtSlice(s, 0, "diff");
  }

  /** What comes before the title holds no quote and ends in whitespace or a non-word
      character. */
  lemma DiffPrefix(pre: string, g: string, mid: string)
    requires pre == "diff" + g + mid && g != [] && AllSpace(g) && NoQuote(mid)
    requires mid == [] || !IsWordChar(mid[|mid| - 1])
    ensures NoQuote(pre) && WordStart(pre, |pre|)
  {
    forall k | 0 <= k < |pre| ensures pre[k] != '"' {
      if k >= 4 + |g| {
        assert pre[k] == mid[k - 4 - |g|];
      } else if k >= 4 {
        assert pre[k] == g[k - 4];
      }
    }
    assert pre[|pre| - 1] == if mid == [] then g[|g| - 1] else mid[|mid| - 1];
  }

  /** Any other first word, `diff-x` or `python` say, leaves the output as the previous
      rule renders it. */
  lemma OtherLanguageDefault(info: string, unescape: string -> string, escape: string -> string, code: string,
                             w: string, rest: string)
    requires forall k :: 0 <= k < |w| ==> !IsSpace(w[k])
    requires rest == [] || IsSpace(rest[0])
    requires w != "diff" && CleanInfo(info, unescape) == w + rest
    ensures RenderFence(info, unescape, escape, code) == code
  {
    FirstWordOf(w, rest);
  }

  /** A `diff` block without a whole-word `title="…"` is not wrapped either. */
  lemma UntitledDefault(info: string, unescape: string -> string, escape: string -> string, code: string)
    requires Title(CleanInfo(info, unescape)).None?
    ensures RenderFence(info, unescape, escape, code) == code
  {
  }

  /** A token without an info string renders as before. */
  lemma NoInfoDefault(unescape: string -> string, escape: string -> string, code: string)
    ensures RenderFence([], unescape, escape, code) == code
  {
  }

  /** Whatever happens, the block as the previous rule renders it is part of the
      output, and it is all of it unless the title container is added around it. */
  lemma CodeKept(info: string, unescape: string -> string, escape: string -> string, code: string)
    ensures var r := RenderFence(info, unescape, escape, code);
      r == code || exists t :: r == Wrap(t, code)
  {
  }
}
