/**
  Writerside class-style markers: every `{:.name}` or `{:.one.two}` in the source is
  deleted before parsing
  (docs/.vitepress/plugins/markdown/writerside/markdown-it-ws-classstyles.ts).
 */
module ClassStyles {
  import opened Strings
  import opened Rewrite

  // ---------------------------------------------------------------------------------
  // The pattern  \{:\.[\w\-_]+(\.[\w\-_]+)*\}
  //
  // A class name character is never `.` or `}`, so each run of them is taken whole and
  // each `.name` group either takes the next dot with the name after it or stops: giving
  // back characters or groups leaves a name character or a dot where `.` or `}` is
  // needed. The marker is therefore read segment by segment, as below.

  /** `[\w\-_]` */
  predicate IsClassChar(c: char) {
    IsWordChar(c) || c == '-'
  }

  /** `(\.[\w\-_]+)*` at `j`: the end of the run of `.name` groups. */
  function Segments(s: string, j: nat): (r: nat)
    requires j <= |s|
    ensures j <= r <= |s|
    decreases |s| - j
  {
    if j < |s| && s[j] == '.' then
      var k := Span(s, j + 1, IsClassChar);
      if k == j + 1 then j else Segments(s, k)
    else j
  }

  /** The end of the marker starting at `i`, if one does. */
  function StyleEnd(s: string, i: nat): (r: Option<nat>)
    ensures r.Some? ==> i + 5 <= r.value <= |s|
  {
    if !HasAt(s, i, "{:.") then None
    else
      var a := Span(s, i + 3, IsClassChar);
      if a == i + 3 then None
      else
        var b := Segments(s, a);
        if b < |s| && s[b] == '}' then Some(b + 1) else None
  }

  /** The cleaned source handed to the original parser. */
  function RemoveStyles(src: string): string {
    ReplaceAll(src, StyleEnd, Delete())
  }

  // ---------------------------------------------------------------------------------
  // What a marker is

  /** `s[a..c]` is a class path: dot-separated non-empty names, each after its dot. */
  predicate PathAt(s: string, a: nat, c: nat) {
    && a + 2 <= c <= |s| && s[a] == '.' && s[c - 1] != '.'
    && (forall k :: a <= k < c ==> s[k] == '.' || IsClassChar(s[k]))
    && (forall k :: a <= k < c - 1 ==> s[k] == '.' ==> s[k + 1] != '.')
  }

  /** `s[i..e]` is a marker: `{:`, a class path, `}`. */
  predicate Marked(s: string, i: nat, e: nat) {
    i + 5 <= e <= |s| && HasAt(s, i, "{:") && PathAt(s, i + 2, e - 1) && s[e - 1] == '}'
  }

  /** Every marker is recognised, and ends at its own `}`. */
  lemma StyleRecognised(s: string, i: nat, e: nat)
    requires Marked(s, i, e)
    ensures StyleEnd(s, i) == Some(e)
  {
    var c := e - 1;
    HasAtChar(s, i, "{:", 0);
    HasAtChar(s, i, "{:", 1);
    assert HasAt(s, i, "{:.");
    var a := Span(s, i + 3, IsClassChar);
    assert s[i + 3] != '.' && IsClassChar(s[i + 3]);
    SpanInPath(s, i + 2, c, i + 3);
    SegmentsExact(s, i + 2, a, c);
  }

  /** Inside a class path, a name runs to the next dot or to the end of the path. */
  lemma SpanInPath(s: string, a: nat, c: nat, j: nat)
    requires PathAt(s, a, c) && a < j <= c && c < |s| && s[c] == '}'
    ensures var k := Span(s, j, IsClassChar); j <= k <= c && (k == c || s[k] == '.')
  {
  }

  /** The groups after the first name are read to the end of the path. */
  lemma {:induction false} SegmentsExact(s: string, a: nat, j: nat, c: nat)
    requires PathAt(s, a, c) && a < j <= c && c < |s| && s[c] == '}'
    requires j == c || s[j] == '.'
    ensures Segments(s, j) == c
    decreases c - j
  {
    if j < c {
      assert j + 1 < c;
      assert s[j + 1] != '.';
      SpanInPath(s, a, c, j + 1);
      SegmentsExact(s, a, Span(s, j + 1, IsClassChar), c);
    }
  }

  /** Everything recognised is a marker. */
  lemma StyleSound(s: string, i: nat)
    requires StyleEnd(s, i).Some?
    ensures Marked(s, i, StyleEnd(s, i).value)
  {
    var a := Span(s, i + 3, IsClassChar);
    HasAtChar(s, i, "{:.", 0);
    HasAtChar(s, i, "{:.", 1);
    HasAtChar(s, i, "{:.", 2);
    assert HasAt(s, i, "{:");
    SegmentsSound(s, i + 2, a);
  }

  /** What `(\.[\w\-_]+)*` crosses after a name that starts at `a + 1`. */
  lemma {:induction false} SegmentsSound(s: string, a: nat, j: nat)
    requires a + 2 <= j <= |s| && s[a] == '.' && s[j - 1] != '.'
    requires forall k :: a <= k < j ==> s[k] == '.' || IsClassChar(s[k])
    requires forall k :: a <= k < j - 1 ==> s[k] == '.' ==> s[k + 1] != '.'
    ensures var b := Segments(s, j);
      b < |s| && s[b] == '}' ==> PathAt(s, a, b)
    decreases |s| - j
  {
    if j < |s| && s[j] == '.' {
      var k := Span(s, j + 1, IsClassChar);
      if k != j + 1 {
        assert s[j + 1] != '.';
        SegmentsSound(s, a, k);
      }
    }
  }

  // ---------------------------------------------------------------------------------
  // The deletion

  /** The first marker goes, the text before it stays, and the search resumes after it. */
  lemma FirstStyleRemoved(src: string)
    requires FirstMatch(src, 0, StyleEnd).Some?
    ensures var i := FirstMatch(src, 0, StyleEnd).value;
      && Marked(src, i, StyleEnd(src, i).value)
      && RemoveStyles(src) == src[..i] + ReplaceFrom(src, StyleEnd(src, i).value, StyleEnd, Delete())
  {
    StyleSound(src, FirstMatch(src, 0, StyleEnd).value);
    FirstDeleted(src, StyleEnd);
  }

  /** A source in which no marker is written is parsed as it is. */
  lemma NoMarkerUnchanged(src: string)
    requires forall i, e :: 0 <= i < e <= |src| ==> !Marked(src, i, e)
    ensures RemoveStyles(src) == src
  {
    forall j | 0 <= j < |src| ensures !MatchesAt(StyleEnd, src, j) {
      if StyleEnd(src, j).Some? {
        StyleSound(src, j);
      }
    }
    NoMatchUnchanged(src, StyleEnd, Delete());
  }
}
