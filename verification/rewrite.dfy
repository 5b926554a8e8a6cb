/**
  The global `String.prototype.replace(regex, fn)` of JavaScript, with the regular
  expression specialised by hand: a `Matcher` says where a match tried at position `i`
  ends, and the engine tries positions left to right, replaces each match and resumes
  after it, copying every character it skips.
 */
module Rewrite {
  import opened Strings

  /** `m(s, i)` is the end of the match the pattern makes when tried at `i`, if any. */
  type Matcher = (string, nat) -> Option<nat>

  /** `rep(s, i, e)` is what replaces the match `s[i..e]`. */
  type Replacer = (string, nat, nat) -> string

  /** A non-empty match of `m` starts at `i`. */
  predicate MatchesAt(m: Matcher, s: string, i: nat) {
    m(s, i).Some? && i < m(s, i).value <= |s|
  }

  /** The replacer that deletes every match. */
  function Delete(): Replacer {
    (s: string, i: nat, e: nat) => []
  }

  /** The global replace of every match at or after `i`. */
  function ReplaceFrom(s: string, i: nat, m: Matcher, rep: Replacer): string
    requires i <= |s|
    decreases |s| - i
  {
    if i == |s| then []
    else if MatchesAt(m, s, i) then rep(s, i, m(s, i).value) + ReplaceFrom(s, m(s, i).value, m, rep)
    else [s[i]] + ReplaceFrom(s, i + 1, m, rep)
  }

  function ReplaceAll(s: string, m: Matcher, rep: Replacer): string {
    ReplaceFrom(s, 0, m, rep)
  }

  /** Text before the next match is copied unchanged. */
  lemma {:induction false} CopyUntil(s: string, i: nat, k: nat, m: Matcher, rep: Replacer)
    requires i <= k <= |s|
    requires forall j :: i <= j < k ==> !MatchesAt(m, s, j)
    ensures ReplaceFrom(s, i, m, rep) == s[i..k] + ReplaceFrom(s, k, m, rep)
    decreases k - i
  {
    if i < k {
      assert !MatchesAt(m, s, i);
      assert ReplaceFrom(s, i, m, rep) == [s[i]] + ReplaceFrom(s, i + 1, m, rep);
      CopyUntil(s, i + 1, k, m, rep);
      assert s[i..k] == [s[i]] + s[i + 1..k];
    }
  }

  /** A string in which the pattern never matches is left as it is. */
  lemma NoMatchUnchanged(s: string, m: Matcher, rep: Replacer)
    requires forall j :: 0 <= j < |s| ==> !MatchesAt(m, s, j)
    ensures ReplaceAll(s, m, rep) == s
  {
    CopyUntil(s, 0, |s|, m, rep);
  }

  /** A replacer that gives each match back leaves the string as it is. */
  lemma {:induction false} KeepingUnchanged(s: string, i: nat, m: Matcher, rep: Replacer)
    requires i <= |s|
    requires forall j :: i <= j < |s| && MatchesAt(m, s, j) ==> rep(s, j, m(s, j).value) == s[j..m(s, j).value]
    ensures ReplaceFrom(s, i, m, rep) == s[i..]
    decreases |s| - i
  {
    if i < |s| {
      if MatchesAt(m, s, i) {
        var e := m(s, i).value;
        assert ReplaceFrom(s, i, m, rep) == s[i..e] + ReplaceFrom(s, e, m, rep);
        KeepingUnchanged(s, e, m, rep);
        assert s[i..] == s[i..e] + s[e..];
      } else {
        assert ReplaceFrom(s, i, m, rep) == [s[i]] + ReplaceFrom(s, i + 1, m, rep);
        KeepingUnchanged(s, i + 1, m, rep);
        assert s[i..] == [s[i]] + s[i + 1..];
      }
    }
  }

  /** Deleting every match leaves no `c` behind when every `c` at or after `i` starts a
      match. */
  lemma {:induction false} DeleteRemoves(s: string, i: nat, m: Matcher, c: char)
    requires i <= |s|
    requires forall k :: i <= k < |s| && s[k] == c ==> MatchesAt(m, s, k)
    ensures c !in ReplaceFrom(s, i, m, Delete())
    decreases |s| - i
  {
    if i < |s| {
      if MatchesAt(m, s, i) {
        DeleteRemoves(s, m(s, i).value, m, c);
      } else {
        DeleteRemoves(s, i + 1, m, c);
      }
    }
  }

  /** The position of the first match at or after `i`. */
  function FirstMatch(s: string, i: nat, m: Matcher): (r: Option<nat>)
    requires i <= |s|
    ensures r.Some? ==> i <= r.value < |s| && MatchesAt(m, s, r.value)
    ensures r.Some? ==> forall j :: i <= j < r.value ==> !MatchesAt(m, s, j)
    ensures r.None? ==> forall j :: i <= j < |s| ==> !MatchesAt(m, s, j)
    decreases |s| - i
  {
    if i == |s| then None
    else if MatchesAt(m, s, i) then Some(i)
    else FirstMatch(s, i + 1, m)
  }

  /** The first match is the one with no match before it. */
  lemma {:induction false} FirstMatchAt(s: string, i: nat, m: Matcher, j: nat)
    requires i <= j < |s| && MatchesAt(m, s, j)
    requires forall k :: i <= k < j ==> !MatchesAt(m, s, k)
    ensures FirstMatch(s, i, m) == Some(j)
    decreases j - i
  {
    if i < j {
      FirstMatchAt(s, i + 1, m, j);
    }
  }

  /** `String.prototype.replace` with a non-global regular expression. */
  function ReplaceFirst(s: string, m: Matcher, rep: Replacer): (r: string)
    ensures FirstMatch(s, 0, m).None? ==> r == s
    ensures FirstMatch(s, 0, m).Some? ==>
      var j := FirstMatch(s, 0, m).value;
      var e := m(s, j).value;
      r == s[..j] + rep(s, j, e) + s[e..]
  {
    match FirstMatch(s, 0, m)
    case None => s
    case Some(j) => s[..j] + rep(s, j, m(s, j).value) + s[m(s, j).value..]
  }

  /** The global replace is the first replace followed by the global replace of the rest. */
  lemma FirstThenRest(s: string, m: Matcher, rep: Replacer)
    requires FirstMatch(s, 0, m).Some?
    ensures var j := FirstMatch(s, 0, m).value;
      var e := m(s, j).value;
      ReplaceAll(s, m, rep) == s[..j] + rep(s, j, e) + ReplaceFrom(s, e, m, rep)
  {
    var j := FirstMatch(s, 0, m).value;
    CopyUntil(s, 0, j, m, rep);
  }

  /** `FirstThenRest` with the first match, its end and its replacement named. */
  lemma FirstAt(s: string, m: Matcher, rep: Replacer, j: nat, e: nat, t: string)
    requires FirstMatch(s, 0, m) == Some(j) && m(s, j) == Some(e) && rep(s, j, e) == t
    ensures ReplaceAll(s, m, rep) == s[..j] + t + ReplaceFrom(s, e, m, rep)
  {
    FirstThenRest(s, m, rep);
  }

  /** Deleting every match removes the first one and copies the text before it. */
  lemma FirstDeleted(s: string, m: Matcher)
    requires FirstMatch(s, 0, m).Some?
    ensures var j := FirstMatch(s, 0, m).value;
      ReplaceAll(s, m, Delete()) == s[..j] + ReplaceFrom(s, m(s, j).value, m, Delete())
  {
    FirstThenRest(s, m, Delete());
  }

  /** `.*?x` at `j`: `.` is any character but a line terminator, so the lazy search
      ends after the first `x` that starts before the next line terminator. */
  function LineClose(s: string, j: nat, x: string): (r: Option<nat>)
    requires j <= |s|
    ensures r.Some? ==> j + |x| <= r.value <= |s|
    decreases |s| - j
  {
    if HasAt(s, j, x) then Some(j + |x|)
    else if j == |s| || IsLineTerminator(s[j]) then None
    else LineClose(s, j + 1, x)
  }

  /** The search crosses text on one line without `x` and stops at the `x` after it. */
  lemma {:induction false} LineCloseAcross(s: string, j: nat, c: nat, x: string)
    requires j <= c && HasAt(s, c, x)
    requires forall k :: j <= k < c ==> !IsLineTerminator(s[k]) && !HasAt(s, k, x)
    ensures LineClose(s, j, x) == Some(c + |x|)
    decreases c - j
  {
    if j < c {
      assert !HasAt(s, j, x) && !IsLineTerminator(s[j]);
      LineCloseAcross(s, j + 1, c, x);
    }
  }

  /** What the search crosses: text on one line without `x`, then `x`. */
  lemma {:induction false} LineCloseSound(s: string, j: nat, x: string)
    requires j <= |s| && LineClose(s, j, x).Some?
    ensures var q := LineClose(s, j, x).value;
      && HasAt(s, q - |x|, x)
      && forall k :: j <= k < q - |x| ==> !IsLineTerminator(s[k]) && !HasAt(s, k, x)
    decreases |s| - j
  {
    if !HasAt(s, j, x) {
      LineCloseSound(s, j + 1, x);
    }
  }

  /** Text on one line without the character `c`, followed by `c`, is closed by it. */
  lemma LineCloseChar(s: string, j: nat, t: string, c: char)
    requires HasAt(s, j, t + [c])
    requires forall k :: 0 <= k < |t| ==> t[k] != c && !IsLineTerminator(t[k])
    ensures LineClose(s, j, [c]) == Some(j + |t| + 1)
  {
    HasAtConcat(s, j, t, [c]);
    forall k | j <= k < j + |t| ensures !IsLineTerminator(s[k]) && !HasAt(s, k, [c]) {
      HasAtChar(s, j, t, k - j);
      HasAtSingle(s, k, c);
    }
    LineCloseAcross(s, j, j + |t|, [c]);
  }

  /** A search started anywhere inside such text stops at the same `x`. */
  lemma LineCloseWithin(s: string, j: nat, h: nat, c: nat, x: string)
    requires j <= h <= c && HasAt(s, c, x)
    requires forall k :: j <= k < c ==> !IsLineTerminator(s[k]) && !HasAt(s, k, x)
    ensures LineClose(s, h, x) == Some(c + |x|)
  {
    LineCloseAcross(s, h, c, x);
  }

  /** What `LineClose` finds for a single character `c`: the first `c`, with no line
      terminator before it. */
  lemma LineCloseCharSound(s: string, j: nat, c: char)
    requires j <= |s| && LineClose(s, j, [c]).Some?
    ensures var q := LineClose(s, j, [c]).value;
      s[q - 1] == c && forall k :: j <= k < q - 1 ==> s[k] != c && !IsLineTerminator(s[k])
  {
    var q := LineClose(s, j, [c]).value;
    LineCloseSound(s, j, [c]);
    forall k | j <= k < q - 1 ensures s[k] != c {
      HasAtSingle(s, k, c);
    }
    HasAtSingle(s, q - 1, c);
  }

  /** Text on one line that holds no `x` is crossed to the `x` written after it. */
  lemma LineCloseText(s: string, j: nat, t: string, x: string)
    requires HasAt(s, j, t + x)
    requires OneLine(t, x)
    ensures LineClose(s, j, x) == Some(j + |t| + |x|)
  {
    OneLineAt(s, j, t, x);
    LineCloseAcross(s, j, j + |t|, x);
  }

  /** `t` holds no line terminator and no `x`, not even one running into an `x`
      written after it: `.*?x` crosses it. */
  predicate OneLine(t: string, x: string) {
    forall k :: 0 <= k < |t| ==> !IsLineTerminator(t[k]) && !HasAt(t + x, k, x)
  }

  /** The whitespace `ws` at `j` is the whole run of whitespace there. */
  predicate WholeRun(s: string, j: nat, ws: string) {
    AllSpace(ws) && HasAt(s, j, ws) && (j + |ws| == |s| || !IsSpace(s[j + |ws|]))
  }

  /** `SkipSpace` takes exactly a whole run. */
  lemma RunExact(s: string, j: nat, ws: string)
    requires WholeRun(s, j, ws)
    ensures SkipSpace(s, j) == j + |ws|
  {
    HasAtSpace(s, j, ws);
    SkipSpaceIsSpan(s, j);
    SpanExact(s, j, IsSpace, j + |ws|);
  }

  /** `o.*?x\s*` at `i`: an opening, text on one line up to the first closing, and all
      the whitespace after it. */
  function EnclosedEnd(s: string, i: nat, o: string, x: string): (r: Option<nat>)
    ensures r.Some? ==> i + |o| + |x| <= r.value <= |s|
  {
    if !HasAt(s, i, o) then None
    else
      match LineClose(s, i + |o|, x)
      case None => None
      case Some(q) => Some(SkipSpace(s, q))
  }

  /** Every written enclosure is recognised, to the end of the whitespace after it. */
  lemma EnclosedRecognised(s: string, i: nat, o: string, t: string, x: string, ws: string)
    requires OneLine(t, x)
    requires HasAt(s, i, o + t + x)
    requires WholeRun(s, i + |o| + |t| + |x|, ws)
    ensures EnclosedEnd(s, i, o, x) == Some(i + |o| + |t| + |x| + |ws|)
  {
    assert o + t + x == o + (t + x);
    HasAtConcat(s, i, o, t + x);
    LineCloseText(s, i + |o|, t, x);
    RunExact(s, i + |o| + |t| + |x|, ws);
  }

  /** Everything recognised is an enclosure: the opening, text on one line, the first
      closing after it, and all the whitespace after that. */
  lemma EnclosedSound(s: string, i: nat, o: string, x: string)
    requires EnclosedEnd(s, i, o, x).Some?
    ensures var q := LineClose(s, i + |o|, x).value; var e := EnclosedEnd(s, i, o, x).value;
      && HasAt(s, i, o) && HasAt(s, q - |x|, x)
      && (forall k :: i + |o| <= k < q - |x| ==> !IsLineTerminator(s[k]) && !HasAt(s, k, x))
      && (forall k :: q <= k < e ==> IsSpace(s[k])) && (e == |s| || !IsSpace(s[e]))
  {
    var q := LineClose(s, i + |o|, x).value;
    LineCloseSound(s, i + |o|, x);
    SkipSpaceIsSpan(s, q);
  }

  /** `o\s*w\s+` at `i`: an opening, optional whitespace, a keyword and at least one
      whitespace character; the result is where the text after them starts. */
  function KeywordHead(s: string, i: nat, o: string, w: string): (r: Option<nat>)
    ensures r.Some? ==> i + |o| + |w| < r.value <= |s|
  {
    if !HasAt(s, i, o) then None
    else
      var a := SkipSpace(s, i + |o|);
      if !HasAt(s, a, w) then None
      else
        var p := SkipSpace(s, a + |w|);
        if p == a + |w| then None else Some(p)
  }

  /** `o\s*w\s+.*?x` at `i`. Each whitespace run is taken whole: a shorter first run
      leaves whitespace where the keyword starts, and a shorter second run only makes
      `.*?` cross the same whitespace to the same `x`, or cross a line break and fail. */
  function KeywordTagEnd(s: string, i: nat, o: string, w: string, x: string): (r: Option<nat>)
    ensures r.Some? ==> i + |o| + |w| + |x| < r.value <= |s|
  {
    match KeywordHead(s, i, o, w)
    case None => None
    case Some(p) => LineClose(s, p, x)
  }

  /** A keyword tag as it can be written. */
  function KeywordTagText(o: string, g1: string, w: string, g2: string, t: string, x: string): string {
    o + g1 + w + g2 + t + x
  }

  /** The keyword and the closing start with something other than whitespace, the first
      gap is whitespace, the second is non-empty whitespace, and the text is one line
      that holds no closing. */
  predicate WritableTag(g1: string, w: string, g2: string, t: string, x: string) {
    && w != [] && !IsSpace(w[0]) && x != [] && !IsSpace(x[0])
    && AllSpace(g1) && g2 != [] && AllSpace(g2) && OneLine(t, x)
  }

  /** Every written keyword tag is recognised, and ends where it is written to end. */
  lemma KeywordTagRecognised(s: string, i: nat, o: string, g1: string, w: string, g2: string, t: string, x: string)
    requires WritableTag(g1, w, g2, t, x)
    requires HasAt(s, i, KeywordTagText(o, g1, w, g2, t, x))
    ensures KeywordTagEnd(s, i, o, w, x) == Some(i + |KeywordTagText(o, g1, w, g2, t, x)|)
  {
    var a := i + |o| + |g1|;
    var p := a + |w| + |g2|;
    var c := p + |t|;
    KeywordLandmarks(s, i, o, g1, w, g2, t, x, a, p, c);
    HasAtChar(s, c, x, 0);
    KeywordHeadExact(s, i, o, w, a, p, c);
    var h := KeywordHead(s, i, o, w).value;
    LineCloseWithin(s, p, h, c, x);
    KeywordTagEndAt(s, i, o, w, x, h, c + |x|);
  }

  /** The tag ends where the lazy search from the end of the head stops. */
  lemma KeywordTagEndAt(s: string, i: nat, o: string, w: string, x: string, h: nat, q: nat)
    requires KeywordHead(s, i, o, w) == Some(h) && LineClose(s, h, x) == Some(q)
    ensures KeywordTagEnd(s, i, o, w, x) == Some(q)
  {
  }

  /** A written keyword tag, position by position: the opening at `i`, the keyword at
      `a`, the text from `p` and the closing at `c`. */
  lemma KeywordLandmarks(s: string, i: nat, o: string, g1: string, w: string, g2: string, t: string, x: string, a: nat, p: nat, c: nat)
    requires WritableTag(g1, w, g2, t, x)
    requires HasAt(s, i, KeywordTagText(o, g1, w, g2, t, x))
    requires a == i + |o| + |g1| && p == a + |w| + |g2| && c == p + |t|
    ensures HasAt(s, i, o) && HasAt(s, a, w) && HasAt(s, c, x)
    ensures forall k :: i + |o| <= k < a ==> IsSpace(s[k])
    ensures forall k :: a + |w| <= k < p ==> IsSpace(s[k])
    ensures forall k :: p <= k < c ==> !IsLineTerminator(s[k]) && !HasAt(s, k, x)
    ensures i + |KeywordTagText(o, g1, w, g2, t, x)| == c + |x|
  {
    KeywordPieces(s, i, o, g1, w, g2, t, x, a, p);
    HasAtSpace(s, i + |o|, g1);
    HasAtSpace(s, a + |w|, g2);
    OneLineAt(s, p, t, x);
  }

  /** Where the pieces of a written keyword tag sit. */
  lemma KeywordPieces(s: string, i: nat, o: string, g1: string, w: string, g2: string, t: string, x: string, a: nat, p: nat)
    requires HasAt(s, i, KeywordTagText(o, g1, w, g2, t, x))
    requires a == i + |o| + |g1| && p == a + |w| + |g2|
    ensures HasAt(s, i, o) && HasAt(s, i + |o|, g1) && HasAt(s, a, w) && HasAt(s, a + |w|, g2)
    ensures HasAt(s, p, t + x)
  {
    assert KeywordTagText(o, g1, w, g2, t, x) == o + g1 + w + g2 + (t + x);
    HasAtConcat(s, i, o + g1 + w + g2, t + x);
    HasAtConcat(s, i, o + g1 + w, g2);
    HasAtConcat(s, i, o + g1, w);
    HasAtConcat(s, i, o, g1);
  }

  /** Text on one line without `x`, written before an `x`, as the lazy search sees it. */
  lemma OneLineAt(s: string, j: nat, t: string, x: string)
    requires HasAt(s, j, t + x) && OneLine(t, x)
    ensures HasAt(s, j + |t|, x)
    ensures forall k :: j <= k < j + |t| ==> !IsLineTerminator(s[k]) && !HasAt(s, k, x)
  {
    HasAtConcat(s, j, t, x);
    forall k | j <= k < j + |t| ensures !IsLineTerminator(s[k]) && !HasAt(s, k, x) {
      assert s[k] == t[k - j];
      if HasAt(s, k, x) {
        HasAtWithin(s, j, t + x, k, x);
      }
    }
  }

  /** The head takes the whitespace after the keyword as far as it goes, which may be
      into the text: `.*?` crosses it again. */
  lemma KeywordHeadExact(s: string, i: nat, o: string, w: string, a: nat, p: nat, c: nat)
    requires HasAt(s, i, o) && i + |o| <= a && HasAt(s, a, w) && w != [] && !IsSpace(w[0])
    requires a + |w| < p <= c < |s| && !IsSpace(s[c])
    requires forall k :: i + |o| <= k < a ==> IsSpace(s[k])
    requires forall k :: a + |w| <= k < p ==> IsSpace(s[k])
    ensures KeywordHead(s, i, o, w).Some? && p <= KeywordHead(s, i, o, w).value <= c
  {
    HasAtChar(s, a, w, 0);
    SkipSpaceIsSpan(s, i + |o|);
    SpanExact(s, i + |o|, IsSpace, a);
    SkipSpaceIsSpan(s, a + |w|);
  }

  /** Everything recognised as a head is one: the opening, optional whitespace, the
      keyword, at least one whitespace character. */
  lemma KeywordHeadSound(s: string, i: nat, o: string, w: string)
    requires KeywordHead(s, i, o, w).Some?
    ensures var p := KeywordHead(s, i, o, w).value;
      && HasAt(s, i, o) && IsSpace(s[p - 1])
      && (exists a :: i + |o| <= a && a + |w| < p && HasAt(s, a, w)
            && (forall k :: i + |o| <= k < a ==> IsSpace(s[k]))
            && (forall k :: a + |w| <= k < p ==> IsSpace(s[k])))
  {
    var a := SkipSpace(s, i + |o|);
    SkipSpaceIsSpan(s, i + |o|);
    SkipSpaceIsSpan(s, a + |w|);
  }

  /** Everything recognised is a keyword tag: a head, then text on one line without
      `x`, then `x`. */
  lemma KeywordTagSound(s: string, i: nat, o: string, w: string, x: string)
    requires KeywordTagEnd(s, i, o, w, x).Some?
    ensures KeywordHead(s, i, o, w).Some?
    ensures var p := KeywordHead(s, i, o, w).value; var q := KeywordTagEnd(s, i, o, w, x).value;
      && HasAt(s, q - |x|, x)
      && (forall k :: p <= k < q - |x| ==> !IsLineTerminator(s[k]) && !HasAt(s, k, x))
  {
    LineCloseSound(s, KeywordHead(s, i, o, w).value, x);
  }

  /** Deleting never lengthens the text, and shortens it when there is a match. */
  lemma {:induction false} DeleteShortens(s: string, i: nat, m: Matcher)
    requires i <= |s|
    ensures |ReplaceFrom(s, i, m, Delete())| <= |s| - i
    ensures FirstMatch(s, i, m).Some? ==> |ReplaceFrom(s, i, m, Delete())| < |s| - i
    decreases |s| - i
  {
    if i < |s| {
      if MatchesAt(m, s, i) {
        DeleteShortens(s, m(s, i).value, m);
      } else {
        DeleteShortens(s, i + 1, m);
      }
    }
  }

  /** The end of the literal `p` when it occurs at `i`. */
  function Lit(s: string, i: nat, p: string): (r: Option<nat>)
    ensures r.Some? <==> HasAt(s, i, p)
    ensures r.Some? ==> r.value == i + |p|
  {
    if HasAt(s, i, p) then Some(i + |p|) else None
  }

  /** The end of the literal `p`, compared without ASCII case, when it occurs at `i`. */
  function LitIgnoreCase(s: string, i: nat, p: string): (r: Option<nat>)
    ensures r.Some? <==> HasAtIgnoreCase(s, i, p)
    ensures r.Some? ==> r.value == i + |p|
  {
    if HasAtIgnoreCase(s, i, p) then Some(i + |p|) else None
  }

  /** `^` in multiline mode: the start of the input or just after a line terminator. */
  predicate AtLineStart(s: string, i: nat) {
    i == 0 || (i <= |s| && IsLineTerminator(s[i - 1]))
  }
}
