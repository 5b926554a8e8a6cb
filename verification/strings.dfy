/**
  Character classes and string primitives with the meaning JavaScript gives them:
  `\s`, `\w`, line terminators, `trim`, `startsWith`, `indexOf`, `split` on one
  character and `join`, `slice`. Strings are sequences of Unicode scalar values.
 */
module Strings {

  datatype Option<+T> = None | Some(value: T)

  /** The `\s` class of JavaScript regular expressions; also what `trim()` removes. */
  predicate IsSpace(c: char) {
    || c == ' ' || c == '\t' || c == '\n' || c == '\r'
    || c == '\U{000B}' || c == '\U{000C}' || c == '\U{00A0}' || c == '\U{1680}'
    || ('\U{2000}' <= c <= '\U{200A}')
    || c == '\U{2028}' || c == '\U{2029}' || c == '\U{202F}' || c == '\U{205F}'
    || c == '\U{3000}' || c == '\U{FEFF}'
  }

  /** The `\S` class. */
  predicate NotSpace(c: char) {
    !IsSpace(c)
  }

  /** The characters `.` does not match and around which `^`/`$` match in multiline mode. */
  predicate IsLineTerminator(c: char) {
    c == '\n' || c == '\r' || c == '\U{2028}' || c == '\U{2029}'
  }

  /** The `\w` class: ASCII letters, digits and underscore. */
  predicate IsWordChar(c: char) {
    ('a' <= c <= 'z') || ('A' <= c <= 'Z') || ('0' <= c <= '9') || c == '_'
  }

  /** `[ \t]` */
  predicate IsBlank(c: char) {
    c == ' ' || c == '\t'
  }

  /** The case folding of a regular expression with the `i` flag and without `u`:
      only ASCII letters fold onto each other. */
  function LowerAscii(c: char): (r: char)
    ensures ('A' <= c <= 'Z') ==> 'a' <= r <= 'z'
    ensures !('A' <= c <= 'Z') ==> r == c
  {
    if 'A' <= c <= 'Z' then (c as int + 32) as char else c
  }

  predicate SameIgnoringCase(a: char, b: char) {
    LowerAscii(a) == LowerAscii(b)
  }

  predicate AllSpace(s: string) {
    forall k :: 0 <= k < |s| ==> IsSpace(s[k])
  }

  lemma AllSpaceConcat(a: string, b: string)
    ensures AllSpace(a + b) <==> AllSpace(a) && AllSpace(b)
  {
    if AllSpace(a + b) {
      forall k | 0 <= k < |b| ensures IsSpace(b[k]) { assert b[k] == (a + b)[|a| + k]; }
      forall k | 0 <= k < |a| ensures IsSpace(a[k]) { assert a[k] == (a + b)[k]; }
    }
    if AllSpace(a) && AllSpace(b) {
      forall k | 0 <= k < |a + b| ensures IsSpace((a + b)[k]) {
        if k < |a| { assert (a + b)[k] == a[k]; } else { assert (a + b)[k] == b[k - |a|]; }
      }
    }
  }

  /** `p` occurs in `s` at position `i`. */
  predicate HasAt(s: string, i: nat, p: string) {
    i + |p| <= |s| && forall k :: 0 <= k < |p| ==> s[i + k] == p[k]
  }

  /** `p` occurs in `s` at position `i`, comparing ASCII letters without case. */
  predicate HasAtIgnoreCase(s: string, i: nat, p: string) {
    i + |p| <= |s| && forall k :: 0 <= k < |p| ==> SameIgnoringCase(s[i + k], p[k])
  }

  predicate StartsWith(s: string, p: string) {
    HasAt(s, 0, p)
  }

  predicate EndsWith(s: string, p: string) {
    |p| <= |s| && s[|s| - |p|..] == p
  }

  /** `String.prototype.indexOf(p, from)`: the first occurrence at or after `from`. */
  function IndexOf(s: string, p: string, from: nat): (r: Option<nat>)
    ensures r.Some? ==> from <= r.value && HasAt(s, r.value, p)
    ensures r.Some? ==> forall j :: from <= j < r.value ==> !HasAt(s, j, p)
    ensures r.None? ==> forall j :: from <= j ==> !HasAt(s, j, p)
    decreases |s| - from
  {
    if from + |p| > |s| then None
    else if HasAt(s, from, p) then Some(from)
    else IndexOf(s, p, from + 1)
  }

  /** The first occurrence from `from` on is the one with none before it. */
  lemma {:induction false} IndexOfAt(s: string, p: string, from: nat, i: nat)
    requires from <= i && HasAt(s, i, p)
    requires forall j :: from <= j < i ==> !HasAt(s, j, p)
    ensures IndexOf(s, p, from) == Some(i)
    decreases i - from
  {
    if from < i {
      IndexOfAt(s, p, from + 1, i);
    }
  }

  /** `String.prototype.includes(p)` */
  predicate Contains(s: string, p: string) {
    IndexOf(s, p, 0).Some?
  }

  /** The end of the longest run of characters satisfying `p` that starts at `i`. */
  function Span(s: string, i: nat, p: char -> bool): (j: nat)
    requires i <= |s|
    ensures i <= j <= |s|
    ensures forall k :: i <= k < j ==> p(s[k])
    ensures j < |s| ==> !p(s[j])
    decreases |s| - i
  {
    if i < |s| && p(s[i]) then Span(s, i + 1, p) else i
  }

  /** `Span(s, i, IsSpace)` written first-order: cheaper to unfold inside larger
      parsers. `SkipSpaceIsSpan` gives it the properties of `Span`. */
  function SkipSpace(s: string, i: nat): (j: nat)
    requires i <= |s|
    ensures i <= j <= |s|
    decreases |s| - i
  {
    if i < |s| && IsSpace(s[i]) then SkipSpace(s, i + 1) else i
  }

  lemma {:induction false} SkipSpaceIsSpan(s: string, i: nat)
    requires i <= |s|
    ensures SkipSpace(s, i) == Span(s, i, IsSpace)
    decreases |s| - i
  {
    if i < |s| && IsSpace(s[i]) {
      SkipSpaceIsSpan(s, i + 1);
    }
  }

  /** The run `Span` finds is the only one with its two properties. */
  lemma SpanExact(s: string, i: nat, p: char -> bool, j: nat)
    requires i <= j <= |s|
    requires forall k :: i <= k < j ==> p(s[k])
    requires j == |s| || !p(s[j])
    ensures Span(s, i, p) == j
  {
  }

  /** A run that is all `p` and is not followed by `p` is exactly what `Span` finds. */
  lemma SpanPiece(s: string, i: nat, piece: string, p: char -> bool)
    requires HasAt(s, i, piece)
    requires forall k :: 0 <= k < |piece| ==> p(piece[k])
    requires i + |piece| == |s| || !p(s[i + |piece|])
    ensures Span(s, i, p) == i + |piece|
  {
    assert forall k :: i <= k < i + |piece| ==> s[k] == piece[k - i];
    SpanExact(s, i, p, i + |piece|);
  }

  /** A slice of a run of `IsSpace` characters is all whitespace. */
  lemma SpaceSlice(s: string, i: nat, j: nat)
    requires i <= j <= |s|
    requires forall k :: i <= k < j ==> IsSpace(s[k])
    ensures AllSpace(s[i..j])
  {
    assert forall k :: 0 <= k < j - i ==> s[i..j][k] == s[i + k];
  }

  lemma SliceSpace(s: string, i: nat, j: nat)
    requires i <= j <= |s| && AllSpace(s[i..j])
    ensures forall k :: i <= k < j ==> IsSpace(s[k])
  {
    forall k | i <= k < j ensures IsSpace(s[k]) {
      assert s[k] == s[i..j][k - i];
    }
  }

  /** An occurrence of whitespace is a run of whitespace. */
  lemma HasAtSpace(s: string, i: nat, g: string)
    requires HasAt(s, i, g) && AllSpace(g)
    ensures forall k :: i <= k < i + |g| ==> IsSpace(s[k])
  {
    forall k | i <= k < i + |g| ensures IsSpace(s[k]) {
      assert s[k] == g[k - i];
    }
  }

  /** An occurrence inside an occurrence of `t` is an occurrence in `t`. */
  lemma HasAtWithin(s: string, p: nat, t: string, k: nat, x: string)
    requires HasAt(s, p, t) && p <= k && k + |x| <= p + |t| && HasAt(s, k, x)
    ensures HasAt(t, k - p, x)
  {
    forall d | 0 <= d < |x| ensures t[k - p + d] == x[d] {
      assert s[p + (k - p + d)] == t[k - p + d];
      assert s[k + d] == x[d];
    }
  }

  /** The characters of an occurrence are those of the pattern. */
  lemma HasAtChar(s: string, i: nat, p: string, k: nat)
    requires HasAt(s, i, p) && k < |p|
    ensures s[i + k] == p[k]
  {
    assert s[i..i + |p|][k] == s[i + k];
  }

  /** A one-character pattern is that character. */
  lemma HasAtSingle(s: string, i: nat, c: char)
    ensures HasAt(s, i, [c]) <==> i < |s| && s[i] == c
  {
    if i < |s| {
      assert HasAt(s, i, [c]) <==> s[i + 0] == [c][0];
    }
  }

  /** The slice form of an occurrence. */
  lemma HasAtSlice(s: string, i: nat, p: string)
    ensures HasAt(s, i, p) <==> i + |p| <= |s| && s[i..i + |p|] == p
  {
    if i + |p| <= |s| && s[i..i + |p|] == p {
      forall k | 0 <= k < |p| ensures s[i + k] == p[k] {
        assert s[i..i + |p|][k] == s[i + k];
      }
    }
  }

  /** An occurrence of `x` followed by one of `y` is an occurrence of `x + y`. */
  lemma HasAtJoin(s: string, i: nat, x: string, y: string)
    requires HasAt(s, i, x) && HasAt(s, i + |x|, y)
    ensures HasAt(s, i, x + y)
  {
    forall k | 0 <= k < |x + y| ensures s[i + k] == (x + y)[k] {
      if k >= |x| {
        assert s[i + |x| + (k - |x|)] == y[k - |x|];
      }
    }
  }

  /** Both parts of a concatenation occur in it. */
  lemma HasAtParts(x: string, y: string)
    ensures HasAt(x + y, 0, x) && HasAt(x + y, |x|, y)
  {
    forall k | 0 <= k < |y| ensures (x + y)[|x| + k] == y[k] { }
  }

  /** The three parts of a concatenation occur in it, and slicing gives back the outer
      two. */
  lemma HasAtParts3(x: string, y: string, z: string)
    ensures HasAt(x + y + z, 0, x) && HasAt(x + y + z, |x|, y) && HasAt(x + y + z, |x| + |y|, z)
    ensures (x + y + z)[..|x|] == x && (x + y + z)[|x| + |y|..] == z
  {
    HasAtParts(x + y, z);
    HasAtParts(x, y);
    HasAtExtend(x + y, 0, x, z);
    HasAtExtend(x + y, |x|, y, z);
    assert (x + y + z)[..|x|] == (x + y)[..|x|];
  }

  /** An occurrence stays one when text is appended. */
  lemma HasAtExtend(x: string, i: nat, p: string, y: string)
    requires HasAt(x, i, p)
    ensures HasAt(x + y, i, p)
  {
    forall k | 0 <= k < |p| ensures (x + y)[i + k] == p[k] {
      assert x[i + k] == p[k];
    }
  }

  /** A string is its three slices around `a` and `b`. */
  lemma Pieces3(s: string, a: nat, b: nat)
    requires a <= b <= |s|
    ensures s == s[..a] + s[a..b] + s[b..]
  {
    assert s[..a] + s[a..b] == s[..b];
  }

  /** An occurrence of `x + y` is an occurrence of `x` followed by one of `y`. */
  lemma HasAtConcat(s: string, i: nat, x: string, y: string)
    requires HasAt(s, i, x + y)
    ensures HasAt(s, i, x) && HasAt(s, i + |x|, y)
  {
    assert s[i..i + |x|] == (x + y)[..|x|];
    assert s[i + |x|..i + |x| + |y|] == (x + y)[|x|..];
  }

  /** The leading whitespace of `s`: what `^(\s*)` captures. */
  function LeadingSpace(s: string): (r: string)
    ensures StartsWith(s, r) && AllSpace(r)
    ensures |r| < |s| ==> !IsSpace(s[|r|])
  {
    s[..Span(s, 0, IsSpace)]
  }

  /** The start of the trailing whitespace run of `s[..j]`. */
  function SpanBack(s: string, j: nat): (i: nat)
    requires j <= |s|
    ensures i <= j
    ensures forall k :: i <= k < j ==> IsSpace(s[k])
    ensures i > 0 ==> !IsSpace(s[i - 1])
  {
    if j > 0 && IsSpace(s[j - 1]) then SpanBack(s, j - 1) else j
  }

  /** `String.prototype.trimStart()` */
  function TrimStart(s: string): (r: string)
    ensures exists k :: 0 <= k <= |s| && r == s[k..] && AllSpace(s[..k])
    ensures r == [] || !IsSpace(r[0])
  {
    var k := Span(s, 0, IsSpace);
    assert AllSpace(s[..k]);
    s[k..]
  }

  /** `String.prototype.trimEnd()` */
  function TrimEnd(s: string): (r: string)
    ensures exists k :: 0 <= k <= |s| && r == s[..k] && AllSpace(s[k..])
    ensures r == [] || !IsSpace(r[|r| - 1])
  {
    var k := SpanBack(s, |s|);
    assert AllSpace(s[k..]);
    s[..k]
  }

  /** `String.prototype.trim()` */
  function Trim(s: string): (r: string)
    ensures r == [] || (!IsSpace(r[0]) && !IsSpace(r[|r| - 1]))
    ensures r == [] <==> AllSpace(s)
  {
    var a := Span(s, 0, IsSpace);
    var b := SpanBack(s, |s|);
    if a == |s| then
      []
    else
      assert !IsSpace(s[a]);
      assert a < b;
      s[a..b]
  }

  /** `String.prototype.slice(a, b)` for non-negative bounds: out-of-range bounds are
      clamped and a start past the end gives the empty string. */
  function Slice(s: string, a: nat, b: nat): (r: string)
    ensures a <= b <= |s| ==> r == s[a..b]
    ensures b <= a ==> r == []
  {
    var e := if b <= |s| then b else |s|;
    if a < e then s[a..e] else []
  }

  /** Slices from the start and to the end. */
  lemma SliceEnds(s: string, a: nat, b: nat)
    requires a <= |s| && b <= |s|
    ensures Slice(s, 0, a) == s[..a] && Slice(s, b, |s|) == s[b..]
  {
  }

  /** `s.replace(p, r)` with a string pattern: the first occurrence only. */
  function ReplaceFirst(s: string, p: string, r: string): (t: string)
    ensures IndexOf(s, p, 0).None? ==> t == s
    ensures IndexOf(s, p, 0).Some? ==>
      var i := IndexOf(s, p, 0).value; t == s[..i] + r + s[i + |p|..]
  {
    match IndexOf(s, p, 0)
    case None => s
    case Some(i) => s[..i] + r + s[i + |p|..]
  }

  /** `parts.find(p => names.includes(p))`: the first part that is one of `names`. */
  function FindIn(parts: seq<string>, names: seq<string>): (r: Option<string>)
    ensures r.Some? ==> r.value in names && r.value in parts
    ensures r.Some? ==> exists k :: 0 <= k < |parts| && parts[k] == r.value && forall j :: 0 <= j < k ==> parts[j] !in names
    ensures r.None? <==> forall k :: 0 <= k < |parts| ==> parts[k] !in names
  {
    if parts == [] then None
    else if parts[0] in names then Some(parts[0])
    else
      var r := FindIn(parts[1..], names);
      assert forall k :: 1 <= k < |parts| ==> parts[k] == parts[1..][k - 1];
      if r.Some? then
        var k :| 0 <= k < |parts[1..]| && parts[1..][k] == r.value && forall j :: 0 <= j < k ==> parts[1..][j] !in names;
        assert parts[k + 1] == r.value;
        r
      else r
  }

  /** `parts.join(sep)` for a one-character separator. */
  function Join(parts: seq<string>, sep: char): string
  {
    if |parts| == 0 then []
    else if |parts| == 1 then parts[0]
    else parts[0] + [sep] + Join(parts[1..], sep)
  }

  /** The first position at or after `from` holding `c`, or `|s|` when there is none. */
  function FindChar(s: string, c: char, from: nat): (r: nat)
    requires from <= |s|
    ensures from <= r <= |s|
    ensures forall k :: from <= k < r ==> s[k] != c
    ensures r < |s| ==> s[r] == c
    decreases |s| - from
  {
    if from == |s| || s[from] == c then from else FindChar(s, c, from + 1)
  }

  /** The first occurrence `FindChar` finds is the only one with its two properties. */
  lemma FindCharExact(s: string, c: char, from: nat, j: nat)
    requires from <= j <= |s|
    requires forall k :: from <= k < j ==> s[k] != c
    requires j == |s| || s[j] == c
    ensures FindChar(s, c, from) == j
  {
  }

  /** `s.split(sep)` for a one-character separator: never empty, and the pieces hold no
      separator. */
  function Split(s: string, sep: char): (r: seq<string>)
    ensures |r| >= 1
    ensures forall k :: 0 <= k < |r| ==> sep !in r[k]
    decreases |s|
  {
    var i := FindChar(s, sep, 0);
    if i == |s| then [s] else [s[..i]] + Split(s[i + 1..], sep)
  }

  /** Joining what `Split` returns gives the string back. */
  lemma {:induction false} JoinSplit(s: string, sep: char)
    ensures Join(Split(s, sep), sep) == s
    decreases |s|
  {
    var i := FindChar(s, sep, 0);
    if i < |s| {
      JoinSplit(s[i + 1..], sep);
      assert s == s[..i] + [sep] + s[i + 1..];
    }
  }

  /** Splitting a join of separator-free pieces gives the pieces back. */
  lemma {:induction false} SplitJoin(parts: seq<string>, sep: char)
    requires |parts| >= 1
    requires forall k :: 0 <= k < |parts| ==> sep !in parts[k]
    ensures Split(Join(parts, sep), sep) == parts
    decreases |parts|
  {
    var s := Join(parts, sep);
    var p := parts[0];
    if |parts| == 1 {
      assert FindChar(s, sep, 0) == |s|;
    } else {
      var rest := Join(parts[1..], sep);
      assert s == p + [sep] + rest;
      assert FindChar(s, sep, 0) == |p| by {
        assert forall k :: 0 <= k < |p| ==> s[k] == p[k];
        assert s[|p|] == sep;
        assert forall k :: 0 <= k < |p| ==> s[k] != sep;
      }
      assert s[..|p|] == p;
      assert s[|p| + 1..] == rest;
      SplitJoin(parts[1..], sep);
    }
  }

  /** Three pieces joined. */
  lemma JoinThree(a: string, b: string, c: string, sep: char)
    ensures Join([a, b, c], sep) == a + [sep] + b + [sep] + c
  {
    assert [a, b, c][1..] == [b, c];
    assert [b, c][1..] == [c];
    assert Join([b, c], sep) == b + [sep] + c;
    assert Join([a, b, c], sep) == a + [sep] + (b + [sep] + c);
  }

  /** Every `a` in `s` replaced by `b`. */
  function Substitute(s: string, a: char, b: char): (r: string)
    ensures |r| == |s|
    ensures forall k :: 0 <= k < |s| ==> r[k] == (if s[k] == a then b else s[k])
  {
    seq(|s|, k requires 0 <= k < |s| => if s[k] == a then b else s[k])
  }

  /** `s.split(a).join(b)` puts `b` wherever `a` was. */
  lemma {:induction false} JoinSplitSubstitutes(s: string, a: char, b: char)
    ensures Join(Split(s, a), b) == Substitute(s, a, b)
    decreases |s|
  {
    var i := FindChar(s, a, 0);
    if i < |s| {
      var rest := s[i + 1..];
      JoinSplitSubstitutes(rest, a, b);
      var parts := [s[..i]] + Split(rest, a);
      assert parts[1..] == Split(rest, a);
      SubstituteAt(s, i, a, b);
    } else {
      assert Substitute(s, a, b) == s;
    }
  }

  /** Substituting around the first `a`. */
  lemma SubstituteAt(s: string, i: nat, a: char, b: char)
    requires i < |s| && s[i] == a && forall k :: 0 <= k < i ==> s[k] != a
    ensures Substitute(s, a, b) == s[..i] + [b] + Substitute(s[i + 1..], a, b)
  {
    var r := s[..i] + [b] + Substitute(s[i + 1..], a, b);
    forall k | 0 <= k < |s| ensures r[k] == Substitute(s, a, b)[k] {
      if k > i {
        assert r[k] == Substitute(s[i + 1..], a, b)[k - i - 1];
      }
    }
  }

  /** Trimming keeps only characters of the trimmed string. */
  lemma TrimKeeps(s: string, c: char)
    requires c !in s
    ensures c !in Trim(s)
  {
    var a := Span(s, 0, IsSpace);
    var b := SpanBack(s, |s|);
    if a < |s| {
      assert !IsSpace(s[a]);
      assert Trim(s) == s[a..b];
    }
  }

  /** `s.split(/\r?\n/)`: split on line feeds and drop the carriage return that precedes
      each of them. */
  function SplitLines(s: string): (r: seq<string>)
    ensures |r| == |Split(s, '\n')|
  {
    var parts := Split(s, '\n');
    seq(|parts|, k requires 0 <= k < |parts| =>
      if k < |parts| - 1 && EndsWith(parts[k], "\r") then parts[k][..|parts[k]| - 1] else parts[k])
  }
}
