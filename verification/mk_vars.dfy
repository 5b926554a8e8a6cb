/**
  MkDocs version placeholders: every `{{ versions.name }}` in the source is replaced by
  the value the variable file gives `name`, and left as written when the file gives
  none (docs/.vitepress/plugins/markdown/mkdocs/markdown-it-mk-vars.ts).

  The parsed variable file is an input: `versions` is its `versions` object, `None`
  when the file is missing, unreadable or has no such object.
 */
module MkVars {
  import opened Strings
  import opened Rewrite

  // ---------------------------------------------------------------------------------
  // The pattern  \{\{\s*versions\.([a-zA-Z0-9_]+)\s*\}\}
  //
  // No choice the engine makes can be undone with profit: a space is never `v`, a name
  // character is never a space or `}`. So each run is taken whole, as below.

  /** Where the name and the end of a placeholder lie. */
  datatype Placeholder = Placeholder(from: nat, to: nat, end: nat)

  /** `\{\{\s*versions\.` at `i`: where the name starts. */
  function Head(s: string, i: nat): (r: Option<nat>)
    ensures r.Some? ==> i + 11 <= r.value <= |s|
  {
    if !HasAt(s, i, "{{") then None
    else
      var a := SkipSpace(s, i + 2);
      if HasAt(s, a, "versions.") then Some(a + 9) else None
  }

  /** `\s*\}\}` at `b`: where the placeholder ends. */
  function Tail(s: string, b: nat): (r: Option<nat>)
    requires b <= |s|
    ensures r.Some? ==> b + 2 <= r.value <= |s|
  {
    var c := SkipSpace(s, b);
    if HasAt(s, c, "}}") then Some(c + 2) else None
  }

  /** The placeholder starting at `i`, if there is one. `[a-zA-Z0-9_]` is `\w`. */
  function PlaceholderAt(s: string, i: nat): (r: Option<Placeholder>)
    ensures r.Some? ==> i + 11 <= r.value.from < r.value.to && r.value.to + 2 <= r.value.end <= |s|
  {
    match Head(s, i)
    case None => None
    case Some(a) =>
      var b := Span(s, a, IsWordChar);
      if b == a then None
      else match Tail(s, b)
        case None => None
        case Some(e) => Some(Placeholder(a, b, e))
  }

  /** The matcher of the global replace. */
  function PlaceholderEnd(s: string, i: nat): Option<nat> {
    match PlaceholderAt(s, i)
    case Some(p) => Some(p.end)
    case None => None
  }

  /** `jsonData.versions[name]` when the object exists and defines the name, else the
      placeholder as written. */
  function Resolve(versions: Option<map<string, string>>, name: string, original: string): string {
    if versions.Some? && name in versions.value then versions.value[name] else original
  }

  function ReplacementAt(versions: Option<map<string, string>>, s: string, i: nat, e: nat): string {
    match PlaceholderAt(s, i)
    case Some(p) => Resolve(versions, s[p.from..p.to], Slice(s, i, e))
    case None => Slice(s, i, e)
  }

  function Replacement(versions: Option<map<string, string>>): Replacer {
    (s: string, i: nat, e: nat) => ReplacementAt(versions, s, i, e)
  }

  /** The core rule `json_variable_replacer`. */
  function Substitute(src: string, versions: Option<map<string, string>>): string {
    ReplaceAll(src, PlaceholderEnd, Replacement(versions))
  }

  // ---------------------------------------------------------------------------------
  // The placeholder pattern, both ways

  /** A placeholder as it can be written: spaces are optional inside the braces. */
  function PlaceholderText(g1: string, name: string, g2: string): string {
    "{{" + g1 + "versions." + name + g2 + "}}"
  }

  predicate IsName(name: string) {
    name != [] && forall k :: 0 <= k < |name| ==> IsWordChar(name[k])
  }

  /** Every written placeholder is recognised, and its name is read back. */
  lemma PlaceholderRecognised(s: string, i: nat, g1: string, name: string, g2: string)
    requires AllSpace(g1) && AllSpace(g2) && IsName(name)
    requires HasAt(s, i, PlaceholderText(g1, name, g2))
    ensures var from := i + 11 + |g1|; var to := from + |name|;
      && PlaceholderAt(s, i) == Some(Placeholder(from, to, i + |PlaceholderText(g1, name, g2)|))
      && s[from..to] == name
  {
    var a := i + 2 + |g1|;
    var b := a + 9 + |name|;
    var c := b + |g2|;
    PlaceholderLandmarks(s, i, g1, name, g2);
    HeadExact(s, i, a);
    TailExact(s, b, c);
    SpanExact(s, a + 9, IsWordChar, b);
    PlaceholderStages(s, i, a + 9, b, c + 2);
  }

  /** The placeholder parser from its stages. */
  lemma PlaceholderStages(s: string, i: nat, a: nat, b: nat, e: nat)
    requires Head(s, i) == Some(a) && a < b <= |s| && Span(s, a, IsWordChar) == b && Tail(s, b) == Some(e)
    ensures PlaceholderAt(s, i) == Some(Placeholder(a, b, e))
  {
  }

  /** A written placeholder, position by position. */
  lemma PlaceholderLandmarks(s: string, i: nat, g1: string, name: string, g2: string)
    requires AllSpace(g1) && AllSpace(g2) && IsName(name)
    requires HasAt(s, i, PlaceholderText(g1, name, g2))
    ensures var a := i + 2 + |g1|; var b := a + 9 + |name|; var c := b + |g2|;
      && HasAt(s, i, "{{") && HasAt(s, a, "versions.") && HasAt(s, c, "}}")
      && (forall k :: i + 2 <= k < a ==> IsSpace(s[k]))
      && (forall k :: a + 9 <= k < b ==> IsWordChar(s[k]))
      && (forall k :: b <= k < c ==> IsSpace(s[k]))
      && (b == |s| || !IsWordChar(s[b]))
      && s[a + 9..b] == name && i + |PlaceholderText(g1, name, g2)| == c + 2
  {
    var a := i + 2 + |g1|;
    var b := a + 9 + |name|;
    var c := b + |g2|;
    PlaceholderPieces(s, i, g1, name, g2);
    SliceSpace(s, i + 2, a);
    SliceSpace(s, b, c);
    forall k | a + 9 <= k < b ensures IsWordChar(s[k]) {
      assert s[k] == name[k - a - 9];
    }
    if b == c {
      HasAtChar(s, c, "}}", 0);
    }
  }

  /** Where the pieces of a written placeholder sit. */
  lemma PlaceholderPieces(s: string, i: nat, g1: string, name: string, g2: string)
    requires HasAt(s, i, PlaceholderText(g1, name, g2))
    ensures var a := i + 2 + |g1|; var b := a + 9 + |name|; var c := b + |g2|;
      && HasAt(s, i, "{{") && s[i + 2..a] == g1 && HasAt(s, a, "versions.")
      && s[a + 9..b] == name && s[b..c] == g2 && HasAt(s, c, "}}")
  {
    HasAtConcat(s, i, "{{" + g1 + "versions." + name + g2, "}}");
    HasAtConcat(s, i, "{{" + g1 + "versions." + name, g2);
    HasAtConcat(s, i, "{{" + g1 + "versions.", name);
    HasAtConcat(s, i, "{{" + g1, "versions.");
    HasAtConcat(s, i, "{{", g1);
  }

  lemma HeadExact(s: string, i: nat, a: nat)
    requires HasAt(s, i, "{{") && i + 2 <= a && HasAt(s, a, "versions.")
    requires forall k :: i + 2 <= k < a ==> IsSpace(s[k])
    ensures Head(s, i) == Some(a + 9)
  {
    HasAtChar(s, a, "versions.", 0);
    SkipSpaceIsSpan(s, i + 2);
    SpanExact(s, i + 2, IsSpace, a);
  }

  lemma TailExact(s: string, b: nat, c: nat)
    requires b <= c && HasAt(s, c, "}}")
    requires forall k :: b <= k < c ==> IsSpace(s[k])
    ensures Tail(s, b) == Some(c + 2)
  {
    HasAtChar(s, c, "}}", 0);
    SkipSpaceIsSpan(s, b);
    SpanExact(s, b, IsSpace, c);
  }

  /** Everything the pattern recognises is a written placeholder: `{{`, spaces,
      `versions.`, a name, spaces, `}}`. */
  lemma PlaceholderSound(s: string, i: nat)
    requires PlaceholderAt(s, i).Some?
    ensures var p := PlaceholderAt(s, i).value;
      && HasAt(s, i, "{{") && HasAt(s, p.from - 9, "versions.") && HasAt(s, p.end - 2, "}}")
      && (forall k :: i + 2 <= k < p.from - 9 ==> IsSpace(s[k]))
      && IsName(s[p.from..p.to])
      && (forall k :: p.to <= k < p.end - 2 ==> IsSpace(s[k]))
  {
    var p := PlaceholderAt(s, i).value;
    HeadSound(s, i);
    TailSound(s, p.to);
    assert forall k :: 0 <= k < p.to - p.from ==> s[p.from..p.to][k] == s[p.from + k];
  }

  lemma HeadSound(s: string, i: nat)
    requires Head(s, i).Some?
    ensures var a := Head(s, i).value;
      HasAt(s, i, "{{") && HasAt(s, a - 9, "versions.") && forall k :: i + 2 <= k < a - 9 ==> IsSpace(s[k])
  {
    SkipSpaceIsSpan(s, i + 2);
  }

  lemma TailSound(s: string, b: nat)
    requires b <= |s| && Tail(s, b).Some?
    ensures var e := Tail(s, b).value;
      HasAt(s, e - 2, "}}") && forall k :: b <= k < e - 2 ==> IsSpace(s[k])
  {
    SkipSpaceIsSpan(s, b);
  }

  // ---------------------------------------------------------------------------------
  // The substitution

  /** The placeholder is replaced by the variable's value when the file defines it and
      kept as written otherwise; the text before it is copied. */
  lemma FirstPlaceholderReplaced(src: string, versions: Option<map<string, string>>)
    requires FirstMatch(src, 0, PlaceholderEnd).Some?
    ensures var i := FirstMatch(src, 0, PlaceholderEnd).value;
      var p := PlaceholderAt(src, i).value;
      var name := src[p.from..p.to];
      Substitute(src, versions)
        == src[..i]
           + (if versions.Some? && name in versions.value then versions.value[name] else src[i..p.end])
           + ReplaceFrom(src, p.end, PlaceholderEnd, Replacement(versions))
  {
    var i := FirstMatch(src, 0, PlaceholderEnd).value;
    FirstThenRest(src, PlaceholderEnd, Replacement(versions));
    ReplacementValue(versions, src, i);
  }

  /** What the replacer gives for a placeholder the pattern found. */
  lemma ReplacementValue(versions: Option<map<string, string>>, s: string, i: nat)
    requires PlaceholderAt(s, i).Some?
    ensures var p := PlaceholderAt(s, i).value;
      && PlaceholderEnd(s, i) == Some(p.end)
      && Replacement(versions)(s, i, p.end) == Resolve(versions, s[p.from..p.to], s[i..p.end])
  {
  }

  /** Placeholders whose names the file does not define, or all of them when the file has
      no `versions` object, are left exactly as written. */
  lemma UndefinedUnchanged(src: string, versions: Option<map<string, string>>)
    requires forall j :: 0 <= j < |src| && PlaceholderAt(src, j).Some? ==>
      var p := PlaceholderAt(src, j).value;
      !(versions.Some? && src[p.from..p.to] in versions.value)
    ensures Substitute(src, versions) == src
  {
    KeepingUnchanged(src, 0, PlaceholderEnd, Replacement(versions));
  }

  /** A source without `{{` is unchanged, whatever the variable file holds. */
  lemma NoBracesUnchanged(src: string, versions: Option<map<string, string>>)
    requires forall j :: 0 <= j < |src| ==> !HasAt(src, j, "{{")
    ensures Substitute(src, versions) == src
  {
    NoMatchUnchanged(src, PlaceholderEnd, Replacement(versions));
  }
}
