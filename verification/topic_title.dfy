/**
  Topic titles in the token stream: after inline parsing, a heading whose closing token
  is followed by an inline `<primary-label …/>` becomes one `<TopicTitle …/>` HTML token
  carrying the heading's id, level, title and the label's reference
  (docs/.vitepress/plugins/markdown/writerside/markdown-it-ws-topicTitle.ts).

  The slug function of the Markdown toolkit is a parameter. Tokens carry the fields the
  rule reads or writes; everything else about a parsed token is the type parameter `A`.
 */
module TopicTitle {
  import opened Strings
  import opened Rewrite

  /** A token. `Parsed` is a token of the parser; `Made` is the object the rule builds,
      which has a content and a level, and the type `html_inline`, only. */
  datatype Token<A> =
    | Parsed(kind: string, tag: string, content: string, level: int, attrs: A)
    | Made(content: string, level: int)

  /** The token's `type`. */
  function Kind<A>(t: Token<A>): string {
    match t
    case Parsed(k, _, _, _, _) => k
    case Made(_, _) => "html_inline"
  }

  // ---------------------------------------------------------------------------------
  // The label test  ^\s*<primary-label\b
  //
  // `\s*` can only stop where `<` starts, so it takes the whole leading run; `\b` after
  // the `l` asks for a character outside `[A-Za-z0-9_]`, or the end. The test is
  // case-sensitive.

  const LabelOpen := "<primary-label"

  predicate LabelStart(c: string) {
    var q := SkipSpace(c, 0);
    HasAt(c, q, LabelOpen) && (q + |LabelOpen| == |c| || !IsWordChar(c[q + |LabelOpen|]))
  }

  /** Leading whitespace, the opening and a word boundary make a label. */
  lemma LabelRecognised(g: string, x: string)
    requires AllSpace(g)
    requires x == [] || !IsWordChar(x[0])
    ensures LabelStart(g + LabelOpen + x)
  {
    var c := g + LabelOpen + x;
    assert HasAt(c, |g|, LabelOpen);
    assert c[|g|] == '<';
    assert HasAt(c, 0, g);
    RunExact(c, 0, g);
    if x != [] {
      assert c[|g| + |LabelOpen|] == x[0];
    }
  }

  /** A label is leading whitespace, the opening and a word boundary. */
  lemma LabelSound(c: string)
    requires LabelStart(c)
    ensures var q := SkipSpace(c, 0);
      && AllSpace(c[..q])
      && c == c[..q] + LabelOpen + c[q + |LabelOpen|..]
      && (q + |LabelOpen| == |c| || !IsWordChar(c[q + |LabelOpen|]))
  {
    var q := SkipSpace(c, 0);
    SkipSpaceIsSpan(c, 0);
    SpaceSlice(c, 0, q);
    HasAtSlice(c, q, LabelOpen);
    Pieces3(c, q, q + |LabelOpen|);
  }

  // ---------------------------------------------------------------------------------
  // The level  ^h([1-6])$  on the opening tag's name

  function Level(tag: string): (r: string)
    ensures r == [] || (|r| == 1 && '1' <= r[0] <= '6' && tag == "h" + r)
  {
    if |tag| == 2 && tag[0] == 'h' && '1' <= tag[1] <= '6' then [tag[1]] else []
  }

  /** `h1` … `h6` give their digit; every other tag gives nothing. */
  lemma LevelOf(tag: string, d: char)
    requires '1' <= d <= '6'
    ensures Level(tag) == [d] <==> tag == ['h', d]
    ensures Level(tag) == [] <==> !(|tag| == 2 && tag[0] == 'h' && '1' <= tag[1] <= '6')
  {
  }

  // ---------------------------------------------------------------------------------
  // The reference  ref="([^"]+)"  (first match anywhere in the label)
  //
  // `[^"]+` must be followed by `"`, so it takes everything up to the next quote, and
  // that must be at least one character.

  function RefEnd(c: string, i: nat): (r: Option<nat>)
    ensures r.Some? ==> i + 7 <= r.value <= |c|
  {
    if !HasAt(c, i, "ref=\"") then None
    else
      var e := FindChar(c, '"', i + 5);
      if i + 5 < e < |c| then Some(e + 1) else None
  }

  /** The captured value, or the empty string without a match. */
  function LabelRef(c: string): (r: string)
    ensures '"' !in r
  {
    match FirstMatch(c, 0, RefEnd)
    case None => []
    case Some(i) => c[i + 5..RefEnd(c, i).value - 1]
  }

  /** The first `ref="…"` with a non-empty value gives that value. */
  lemma RefRecognised(pre: string, v: string, post: string)
    requires '"' !in pre
    requires v != [] && '"' !in v
    ensures LabelRef(pre + "ref=\"" + v + "\"" + post) == v
  {
    var c := pre + "ref=\"" + v + "\"" + post;
    var i := |pre|;
    var e := i + 5 + |v|;
    assert HasAt(c, i, "ref=\"");
    forall k | i + 5 <= k < e ensures c[k] != '"' {
      assert c[k] == v[k - i - 5];
    }
    assert c[e] == '"';
    FindCharExact(c, '"', i + 5, e);
    forall k | 0 <= k < i ensures !MatchesAt(RefEnd, c, k) {
      assert c[k + 4] != '"';
      assert !HasAt(c, k, "ref=\"") by {
        if HasAt(c, k, "ref=\"") { HasAtChar(c, k, "ref=\"", 4); }
      }
    }
    FirstMatchAt(c, 0, RefEnd, i);
    assert c[i + 5..e] == v;
  }

  /** A value comes from a `ref="…"` in the label; an empty one means every `ref="` is
      followed by a quote at once or by none at all. */
  lemma RefSound(c: string)
    ensures LabelRef(c) != [] ==>
      HasAt(c, FirstMatch(c, 0, RefEnd).value, "ref=\"" + LabelRef(c) + "\"")
    ensures LabelRef(c) == [] ==>
      forall i :: 0 <= i < |c| && HasAt(c, i, "ref=\"") ==>
        FindChar(c, '"', i + 5) == i + 5 || FindChar(c, '"', i + 5) == |c|
  {
    match FirstMatch(c, 0, RefEnd)
    case None =>
      forall i | 0 <= i < |c| && HasAt(c, i, "ref=\"")
        ensures FindChar(c, '"', i + 5) == i + 5 || FindChar(c, '"', i + 5) == |c|
      {
        assert !MatchesAt(RefEnd, c, i);
      }
    case Some(i) =>
      assert LabelRef(c) == c[i + 5..RefEnd(c, i).value - 1];
      RefAt(c, i);
  }

  /** A match of the reference pattern at `i`, as one occurrence. */
  lemma RefAt(c: string, i: nat)
    requires RefEnd(c, i).Some?
    ensures var e := RefEnd(c, i).value;
      HasAt(c, i, "ref=\"" + c[i + 5..e - 1] + "\"")
  {
    var e := RefEnd(c, i).value;
    var v := c[i + 5..e - 1];
    HasAtSlice(c, i + 5, v);
    HasAtJoin(c, i, "ref=\"", v);
    HasAtSingle(c, e - 1, '"');
    HasAtJoin(c, i, "ref=\"" + v, "\"");
  }

  // ---------------------------------------------------------------------------------
  // The id suffix  \s*\{id="([^"]+)"\}\s*$  (first match, no `m` flag)
  //
  // `\s*` takes the whole run before `{`; `[^"]+` runs to the next quote, which must
  // start `"}`; only whitespace may follow. So a start matches exactly when the
  // whitespace run from it reaches a tail `{id="…"}` that ends the title up to
  // whitespace, and the match runs to the end of the title.

  const IdOpen := "{id=\""

  /** The tail `\{id="([^"]+)"\}\s*$` at `q`: where the value ends. */
  function IdTail(t: string, q: nat): (r: Option<nat>)
    ensures r.Some? ==> q + 5 < r.value && r.value + 2 <= |t|
  {
    if !HasAt(t, q, IdOpen) then None
    else
      var e := FindChar(t, '"', q + 5);
      if q + 5 < e && HasAt(t, e, "\"}") && SkipSpace(t, e + 2) == |t| then Some(e) else None
  }

  function IdEnd(t: string, p: nat): (r: Option<nat>)
    ensures r.Some? ==> r.value == |t|
  {
    if p <= |t| && IdTail(t, SkipSpace(t, p)).Some? then Some(|t|) else None
  }

  /** `titleIdMatch ? titleIdMatch[1] : slugify(titleText)` */
  function TitleId(t: string, slugify: string -> string): string {
    match FirstMatch(t, 0, IdEnd)
    case None => slugify(t)
    case Some(p) =>
      var q := SkipSpace(t, p);
      t[q + 5..IdTail(t, q).value]
  }

  /** `titleText.replace(pattern, '')` */
  function TitleWithoutId(t: string): string {
    Rewrite.ReplaceFirst(t, IdEnd, Delete())
  }

  /** The whole run from `p` to the end is whitespace. */
  lemma SkipToEnd(t: string, p: nat)
    requires p <= |t| && SkipSpace(t, p) == |t|
    ensures forall k :: p <= k < |t| ==> IsSpace(t[k])
  {
    SkipSpaceIsSpan(t, p);
  }

  /** A title has at most one tail: the closing `"}` of a tail is followed by
      whitespace only, so an earlier opening would have to reach past it. */
  lemma TailUnique(t: string, q1: nat, q2: nat)
    requires q1 < q2 && IdTail(t, q2).Some?
    ensures IdTail(t, q1).None?
  {
    var e2 := IdTail(t, q2).value;
    HasAtChar(t, q2, IdOpen, 4);
    HasAtChar(t, e2, "\"}", 1);
    if IdTail(t, q1).Some? {
      var e1 := IdTail(t, q1).value;
      assert e1 <= q2 + 4;
      SkipToEnd(t, e1 + 2);
      assert false;
    }
  }

  /** The pieces of a title with an id suffix, as occurrences. */
  lemma SuffixParts(base: string, g: string, v: string, ws: string)
    ensures var t := base + g + IdOpen + v + "\"}" + ws;
      var q := |base| + |g|;
      && HasAt(t, 0, base) && HasAt(t, |base|, g) && HasAt(t, q, IdOpen) && HasAt(t, q + 5, v)
      && HasAt(t, q + 5 + |v|, "\"}") && HasAt(t, q + 7 + |v|, ws) && |t| == q + 7 + |v| + |ws|
  {
    SuffixHead(base, g, v, ws);
    SuffixTail(base + g, v, ws);
  }

  lemma SuffixHead(base: string, g: string, v: string, ws: string)
    ensures var t := base + g + IdOpen + v + "\"}" + ws;
      HasAt(t, 0, base) && HasAt(t, |base|, g)
  {
    var t1 := base + g;
    var t2 := t1 + IdOpen;
    var t3 := t2 + v;
    var t4 := t3 + "\"}";
    HasAtParts(base, g);
    HasAtExtend(t1, 0, base, IdOpen);
    HasAtExtend(t2, 0, base, v);
    HasAtExtend(t3, 0, base, "\"}");
    HasAtExtend(t4, 0, base, ws);
    HasAtExtend(t1, |base|, g, IdOpen);
    HasAtExtend(t2, |base|, g, v);
    HasAtExtend(t3, |base|, g, "\"}");
    HasAtExtend(t4, |base|, g, ws);
  }

  lemma SuffixTail(t1: string, v: string, ws: string)
    ensures var t := t1 + IdOpen + v + "\"}" + ws;
      && HasAt(t, |t1|, IdOpen) && HasAt(t, |t1| + 5, v)
      && HasAt(t, |t1| + 5 + |v|, "\"}") && HasAt(t, |t1| + 7 + |v|, ws) && |t| == |t1| + 7 + |v| + |ws|
  {
    var t2 := t1 + IdOpen;
    var t3 := t2 + v;
    var t4 := t3 + "\"}";
    assert |IdOpen| == 5;
    HasAtParts(t1, IdOpen);
    HasAtParts(t2, v);
    HasAtParts(t3, "\"}");
    HasAtParts(t4, ws);
    HasAtExtend(t2, |t1|, IdOpen, v);
    HasAtExtend(t3, |t1|, IdOpen, "\"}");
    HasAtExtend(t4, |t1|, IdOpen, ws);
    HasAtExtend(t3, |t2|, v, "\"}");
    HasAtExtend(t4, |t2|, v, ws);
    HasAtExtend(t4, |t3|, "\"}", ws);
  }

  /** The id suffix found from its occurrences: the match starts at `b`, after text
      that does not end in whitespace. */
  lemma IdFound(t: string, b: nat, g: string, v: string, ws: string, slugify: string -> string)
    requires HasAt(t, b, g) && AllSpace(g)
    requires HasAt(t, b + |g|, IdOpen) && HasAt(t, b + |g| + 5, v) && v != [] && '"' !in v
    requires HasAt(t, b + |g| + 5 + |v|, "\"}") && HasAt(t, b + |g| + 7 + |v|, ws) && AllSpace(ws)
    requires |t| == b + |g| + 7 + |v| + |ws|
    requires b == 0 || !IsSpace(t[b - 1])
    ensures TitleId(t, slugify) == v && TitleWithoutId(t) == t[..b]
  {
    var q := b + |g|;
    var e := q + 5 + |v|;
    TailFound(t, q, v, ws);
    MatchFound(t, b, g);
    TitleIdAt(t, b, slugify);
    HasAtSlice(t, q + 5, v);
    assert Delete()(t, b, |t|) == [];
    assert TitleWithoutId(t) == t[..b] + [] + t[|t|..];
  }

  /** The id of a title whose first match is at `p`. */
  lemma TitleIdAt(t: string, p: nat, slugify: string -> string)
    requires FirstMatch(t, 0, IdEnd) == Some(p)
    ensures var q := SkipSpace(t, p);
      TitleId(t, slugify) == t[q + 5..IdTail(t, q).value]
  {
  }

  /** The tail `{id="v"}` and whitespace to the end. */
  lemma TailFound(t: string, q: nat, v: string, ws: string)
    requires HasAt(t, q, IdOpen) && HasAt(t, q + 5, v) && v != [] && '"' !in v
    requires HasAt(t, q + 5 + |v|, "\"}") && HasAt(t, q + 7 + |v|, ws) && AllSpace(ws)
    requires |t| == q + 7 + |v| + |ws|
    ensures IdTail(t, q) == Some(q + 5 + |v|)
  {
    var e := q + 5 + |v|;
    forall k | q + 5 <= k < e ensures t[k] != '"' {
      HasAtChar(t, q + 5, v, k - q - 5);
    }
    HasAtChar(t, e, "\"}", 0);
    FindCharExact(t, '"', q + 5, e);
    RunExact(t, e + 2, ws);
  }

  /** With a tail after the whitespace run at `b`, and no whitespace just before `b`,
      the first match is at `b`. */
  lemma MatchFound(t: string, b: nat, g: string)
    requires HasAt(t, b, g) && AllSpace(g) && IdTail(t, b + |g|).Some?
    requires b == 0 || !IsSpace(t[b - 1])
    ensures FirstMatch(t, 0, IdEnd) == Some(b) && SkipSpace(t, b) == b + |g|
  {
    var q := b + |g|;
    HasAtChar(t, q, IdOpen, 0);
    RunExact(t, b, g);
    assert IdEnd(t, b) == Some(|t|);
    forall p | 0 <= p < b ensures !MatchesAt(IdEnd, t, p) {
      SkipSpaceIsSpan(t, p);
      assert SkipSpace(t, p) < b;
      TailUnique(t, SkipSpace(t, p), q);
    }
    FirstMatchAt(t, 0, IdEnd, b);
  }

  /** A title `base`, whitespace, `{id="v"}` and whitespace: the id is `v` and the title
      is `base`. */
  lemma IdRecognised(base: string, g: string, v: string, ws: string, slugify: string -> string)
    requires AllSpace(g) && AllSpace(ws)
    requires v != [] && '"' !in v
    requires base == [] || !IsSpace(base[|base| - 1])
    ensures var t := base + g + IdOpen + v + "\"}" + ws;
      TitleId(t, slugify) == v && TitleWithoutId(t) == base
  {
    var t := base + g + IdOpen + v + "\"}" + ws;
    SuffixParts(base, g, v, ws);
    if base != [] {
      HasAtChar(t, 0, base, |base| - 1);
    }
    IdFound(t, |base|, g, v, ws, slugify);
    HasAtSlice(t, 0, base);
  }

  /** A match starts where a whitespace run starts, after the text the replacement
      keeps; the run leads to the tail. */
  lemma IdSound(t: string)
    requires FirstMatch(t, 0, IdEnd).Some?
    ensures var p := FirstMatch(t, 0, IdEnd).value;
      var q := SkipSpace(t, p);
      && TitleWithoutId(t) == t[..p]
      && (p == 0 || !IsSpace(t[p - 1]))
      && AllSpace(t[p..q])
      && IdTail(t, q).Some?
  {
    var p := FirstMatch(t, 0, IdEnd).value;
    assert TitleWithoutId(t) == t[..p] + [] + t[|t|..];
    MatchLeftmost(t);
    SkipSpaceIsSpan(t, p);
    SpaceSlice(t, p, SkipSpace(t, p));
  }

  /** The tail at the end of the run: `{id="v"}` with a non-empty value without quotes,
      then whitespace to the end; `v` is the id. */
  lemma IdValue(t: string, slugify: string -> string)
    requires FirstMatch(t, 0, IdEnd).Some?
    ensures var q := SkipSpace(t, FirstMatch(t, 0, IdEnd).value);
      var v := TitleId(t, slugify);
      && v != [] && '"' !in v
      && HasAt(t, q, IdOpen + v + "\"}")
      && AllSpace(t[q + |v| + 7..])
  {
    var p := FirstMatch(t, 0, IdEnd).value;
    var q := SkipSpace(t, p);
    var e := IdTail(t, q).value;
    assert TitleId(t, slugify) == t[q + 5..e];
    assert q + |t[q + 5..e]| + 7 == e + 2;
    IdParts(t, q);
  }

  /** The pieces of a tail at `q`. */
  lemma IdParts(t: string, q: nat)
    requires IdTail(t, q).Some?
    ensures var e := IdTail(t, q).value;
      && '"' !in t[q + 5..e]
      && HasAt(t, q, IdOpen + t[q + 5..e] + "\"}")
      && AllSpace(t[e + 2..])
  {
    var e := IdTail(t, q).value;
    var v := t[q + 5..e];
    SkipToEnd(t, e + 2);
    SpaceSlice(t, e + 2, |t|);
    HasAtSlice(t, q + 5, v);
    HasAtJoin(t, q, IdOpen, v);
    HasAtJoin(t, q, IdOpen + v, "\"}");
  }

  /** The match starts at the beginning of its whitespace run. */
  lemma MatchLeftmost(t: string)
    requires FirstMatch(t, 0, IdEnd).Some?
    ensures var p := FirstMatch(t, 0, IdEnd).value;
      p == 0 || !IsSpace(t[p - 1])
  {
    var p := FirstMatch(t, 0, IdEnd).value;
    if p > 0 {
      assert !MatchesAt(IdEnd, t, p - 1);
      assert SkipSpace(t, p - 1) != SkipSpace(t, p);
    }
  }

  /** A title that does not end in `}`, ignoring trailing whitespace, keeps its text and
      takes the slug as its id. */
  lemma NoBraceKept(t: string, slugify: string -> string)
    requires TrimEnd(t) == [] || TrimEnd(t)[|TrimEnd(t)| - 1] != '}'
    ensures TitleId(t, slugify) == slugify(t) && TitleWithoutId(t) == t
  {
    if FirstMatch(t, 0, IdEnd).Some? {
      var p := FirstMatch(t, 0, IdEnd).value;
      var q := SkipSpace(t, p);
      var e := IdTail(t, q).value;
      HasAtChar(t, e, "\"}", 1);
      SkipToEnd(t, e + 2);
      assert false;
    }
  }

  // ---------------------------------------------------------------------------------
  // The replacement token

  /** The content the rule writes: id, level, title and reference, as they are. */
  function TopicTitleTag(id: string, level: string, title: string, ref: string): string {
    "<TopicTitle id=\"" + id + "\" level=\"" + level + "\" title=\"" + title + "\" labelRef=\"" + ref + "\"/>"
  }

  /** A heading opening at `i` whose fourth token is an inline label. */
  predicate Qualifies<A>(ts: seq<Token<A>>, i: nat) {
    && i + 3 < |ts|
    && Kind(ts[i]) == "heading_open"
    && Kind(ts[i + 3]) == "html_inline"
    && LabelStart(ts[i + 3].content)
  }

  /** The token that replaces the group at `i`: built from the opening, the inline
      title and the label. */
  function Replacement<A>(ts: seq<Token<A>>, i: nat, slugify: string -> string): (r: Token<A>)
    requires Qualifies(ts, i)
  {
    Build(ts[i].tag, ts[i].level, ts[i + 1].content, ts[i + 3].content, slugify)
  }

  /** The built token, from the opening's tag and level, the title text and the label's
      content. */
  function Build<A>(tag: string, level: int, titleText: string, labelText: string, slugify: string -> string): Token<A> {
    Made(TopicTitleTag(TitleId(titleText, slugify), Level(tag), TitleWithoutId(titleText), LabelRef(labelText)), level)
  }

  /** A heading `h<d>` whose title ends in `{id="v"}` and whose label names `r` becomes
      `<TopicTitle id="v" level="d" title="base" labelRef="r"/>` at the heading's level. */
  lemma ReplacementWithId<A>(ts: seq<Token<A>>, i: nat, slugify: string -> string,
                             d: char, base: string, g: string, v: string, ws: string,
                             pre: string, r: string, post: string)
    requires Qualifies(ts, i)
    requires '1' <= d <= '6' && ts[i].tag == ['h', d]
    requires AllSpace(g) && AllSpace(ws) && v != [] && '"' !in v
    requires base == [] || !IsSpace(base[|base| - 1])
    requires ts[i + 1].content == base + g + IdOpen + v + "\"}" + ws
    requires '"' !in pre && r != [] && '"' !in r
    requires ts[i + 3].content == pre + "ref=\"" + r + "\"" + post
    ensures Replacement(ts, i, slugify) == Made(TopicTitleTag(v, [d], base, r), ts[i].level)
  {
    LevelOf(ts[i].tag, d);
    IdRecognised(base, g, v, ws, slugify);
    RefRecognised(pre, r, post);
  }

  /** A heading whose title does not end in `}` keeps its title, takes the slug as id,
      and a label without quotes gives an empty reference. */
  lemma ReplacementWithSlug<A>(ts: seq<Token<A>>, i: nat, slugify: string -> string)
    requires Qualifies(ts, i)
    requires var t := TrimEnd(ts[i + 1].content); t == [] || t[|t| - 1] != '}'
    requires '"' !in ts[i + 3].content
    ensures var t := ts[i + 1].content;
      Replacement(ts, i, slugify) == Made(TopicTitleTag(slugify(t), Level(ts[i].tag), t, []), ts[i].level)
  {
    NoBraceKept(ts[i + 1].content, slugify);
    NoQuoteNoRef(ts[i + 3].content);
  }

  /** A label without quotes has no reference. */
  lemma NoQuoteNoRef(c: string)
    requires '"' !in c
    ensures LabelRef(c) == []
  {
    forall i | 0 <= i < |c| ensures !MatchesAt(RefEnd, c, i) {
      if HasAt(c, i, "ref=\"") {
        HasAtChar(c, i, "ref=\"", 4);
      }
    }
  }

  // ---------------------------------------------------------------------------------
  // Scanning a stream for groups
  //
  // A scan walks a sequence; where `step` builds an element for the four elements
  // starting there, they are replaced by it and the scan goes on after them; any other
  // element is kept. The rule below is the scan with its own step.

  /** A group of four starts at `k`. */
  predicate GroupStart<T>(ts: seq<T>, k: nat, step: (seq<T>, nat) -> Option<T>) {
    k + 4 <= |ts| && step(ts, k).Some?
  }

  function Scan<T>(ts: seq<T>, k: nat, step: (seq<T>, nat) -> Option<T>): seq<T>
    requires k <= |ts|
    decreases |ts| - k
  {
    if k == |ts| then []
    else if GroupStart(ts, k, step) then [step(ts, k).value] + Scan(ts, k + 4, step)
    else [ts[k]] + Scan(ts, k + 1, step)
  }

  /** Elements before the next group are kept as they are, in order. */
  lemma {:induction false} ScanKeeps<T>(ts: seq<T>, j: nat, k: nat, step: (seq<T>, nat) -> Option<T>)
    requires j <= k <= |ts|
    requires forall m :: j <= m < k ==> !GroupStart(ts, m, step)
    ensures Scan(ts, j, step) == ts[j..k] + Scan(ts, k, step)
    decreases k - j
  {
    if j < k {
      ScanKeeps(ts, j + 1, k, step);
      assert Scan(ts, j, step) == [ts[j]] + Scan(ts, j + 1, step);
      assert ts[j..k] == [ts[j]] + ts[j + 1..k];
      assert [ts[j]] + (ts[j + 1..k] + Scan(ts, k, step)) == ([ts[j]] + ts[j + 1..k]) + Scan(ts, k, step);
    }
  }

  /** How many elements of `ts` satisfy `p`. */
  function Count<T>(ts: seq<T>, p: T -> bool): nat {
    if ts == [] then 0 else (if p(ts[0]) then 1 else 0) + Count(ts[1..], p)
  }

  lemma {:induction false} CountAppend<T>(a: seq<T>, b: seq<T>, p: T -> bool)
    ensures Count(a + b, p) == Count(a, p) + Count(b, p)
  {
    if a == [] {
      assert a + b == b;
    } else {
      assert (a + b)[0] == a[0];
      assert (a + b)[1..] == a[1..] + b;
      CountAppend(a[1..], b, p);
    }
  }

  /** When the step builds only elements marked `made` and the input has none, the
      scan output is three elements shorter for each element it built. */
  lemma {:induction false} ScanLength<T>(ts: seq<T>, k: nat, step: (seq<T>, nat) -> Option<T>, made: T -> bool)
    requires k <= |ts|
    requires forall m :: k <= m < |ts| ==> !made(ts[m])
    requires forall m :: k <= m < |ts| && GroupStart(ts, m, step) ==> made(step(ts, m).value)
    ensures |Scan(ts, k, step)| + 3 * Count(Scan(ts, k, step), made) == |ts| - k
    decreases |ts| - k
  {
    if k < |ts| {
      if GroupStart(ts, k, step) {
        ScanLength(ts, k + 4, step, made);
        CountAppend([step(ts, k).value], Scan(ts, k + 4, step), made);
      } else {
        ScanLength(ts, k + 1, step, made);
        CountAppend([ts[k]], Scan(ts, k + 1, step), made);
      }
    }
  }

  /** A step that only looks forward scans a suffix as if it stood alone. */
  lemma {:induction false} ScanSuffix<T>(ts: seq<T>, k: nat, j: nat, step: (seq<T>, nat) -> Option<T>)
    requires k + j <= |ts|
    requires forall m :: k <= m < |ts| ==> step(ts, m) == step(ts[k..], m - k)
    ensures Scan(ts, k + j, step) == Scan(ts[k..], j, step)
    decreases |ts| - k - j
  {
    if k + j < |ts| {
      assert step(ts, k + j) == step(ts[k..], j);
      if GroupStart(ts, k + j, step) {
        ScanSuffix(ts, k, j + 4, step);
      } else {
        ScanSuffix(ts, k, j + 1, step);
      }
    }
  }

  // ---------------------------------------------------------------------------------
  // The rule over the token stream

  /** The rule's step: the replacement of a group at `k`. */
  function Step<A>(slugify: string -> string): (seq<Token<A>>, nat) -> Option<Token<A>> {
    (ts: seq<Token<A>>, k: nat) => if Qualifies(ts, k) then Some(Replacement(ts, k, slugify)) else None
  }

  /** The tokens from `k` on after the rule. */
  function RewriteFrom<A>(ts: seq<Token<A>>, k: nat, slugify: string -> string): seq<Token<A>>
    requires k <= |ts|
  {
    Scan(ts, k, Step(slugify))
  }

  /** The step builds exactly at the groups, and builds the replacement. */
  lemma StepAt<A>(ts: seq<Token<A>>, k: nat, slugify: string -> string)
    ensures GroupStart(ts, k, Step(slugify)) <==> Qualifies(ts, k)
    ensures Qualifies(ts, k) ==> Step(slugify)(ts, k) == Some(Replacement(ts, k, slugify))
  {
  }

  /** The core rule as written: it walks the array, replaces the three heading tokens by
      the new token, removes the label after it, and steps back so that the next round
      looks at the new token, which is no heading. */
  method TopicTitleRule<A>(tokens: seq<Token<A>>, slugify: string -> string) returns (r: seq<Token<A>>)
    ensures r == RewriteFrom(tokens, 0, slugify)
  {
    r := tokens;
    var i: int := 0;
    ghost var k: nat := 0;
    ghost var pending := false;
    while i < |r|
      invariant Walked(tokens, r, i, k, pending, Step(slugify))
      decreases |r| - i
    {
      if Kind(r[i]) == "heading_open" && i + 3 < |r| && Kind(r[i + 3]) == "html_inline" && LabelStart(r[i + 3].content) {
        var openTok := r[i];
        var inlineTok := r[i + 1];
        var nextTok := r[i + 3];
        var replacement := Build(openTok.tag, openTok.level, inlineTok.content, nextTok.content, slugify);
        ghost var before := r;
        r := r[..i] + [replacement] + r[i + 3..];
        r := r[..i + 1] + r[i + 2..];
        assert !pending;
        GroupHere(tokens, k, before, i, slugify);
        WalkedGroup(tokens, before, r, i, k, replacement, Step(slugify));
        i := i - 1;
        k := k + 4;
        pending := true;
      } else {
        WalkedPast(tokens, r, i, k, pending, slugify);
        if !pending {
          k := k + 1;
        }
        pending := false;
      }
      i := i + 1;
    }
    WalkedAll(tokens, r, i, k, pending, Step(slugify));
  }

  /** The loop's invariant: the array is the output so far followed by the input from
      `k` on; right after a rewrite, the built token sits at `i`, where the next round
      looks. */
  ghost predicate Walked<A>(tokens: seq<Token<A>>, r: seq<Token<A>>, i: int, k: nat, pending: bool,
                           step: (seq<Token<A>>, nat) -> Option<Token<A>>) {
    && 0 <= i <= |r| && k <= |tokens|
    && (if pending then
          i < |r| && r[i].Made? && r[i + 1..] == tokens[k..] && r[..i + 1] + Scan(tokens, k, step) == Scan(tokens, 0, step)
        else
          r[i..] == tokens[k..] && r[..i] + Scan(tokens, k, step) == Scan(tokens, 0, step))
  }

  /** At the end of the walk the array is the scan's output. */
  lemma WalkedAll<A>(tokens: seq<Token<A>>, r: seq<Token<A>>, i: int, k: nat, pending: bool,
                     step: (seq<Token<A>>, nat) -> Option<Token<A>>)
    requires Walked(tokens, r, i, k, pending, step) && i >= |r|
    ensures r == Scan(tokens, 0, step)
  {
    assert r[..i] == r;
  }

  /** A rewrite keeps the invariant, with the built token waiting at `i`. */
  lemma WalkedGroup<A>(tokens: seq<Token<A>>, before: seq<Token<A>>, r: seq<Token<A>>, i: int, k: nat, x: Token<A>,
                       step: (seq<Token<A>>, nat) -> Option<Token<A>>)
    requires Walked(tokens, before, i, k, false, step) && 0 <= i && i + 3 < |before|
    requires k + 4 <= |tokens| && before[i + 4..] == tokens[k + 4..]
    requires Scan(tokens, k, step) == [x] + Scan(tokens, k + 4, step) && x.Made?
    requires var mid := before[..i] + [x] + before[i + 3..];
      r == mid[..i + 1] + mid[i + 2..]
    ensures Walked(tokens, r, i, k + 4, true, step)
  {
    assert r[..i + 1] == before[..i] + [x];
    assert r[i + 1..] == before[i + 4..];
  }

  /** Passing a token keeps the invariant: one that starts no group is copied, and the
      built token waiting after a rewrite is left as it is. */
  lemma WalkedPast<A>(tokens: seq<Token<A>>, r: seq<Token<A>>, i: int, k: nat, pending: bool, slugify: string -> string)
    requires Walked(tokens, r, i, k, pending, Step(slugify)) && i < |r|
    requires !(Kind(r[i]) == "heading_open" && i + 3 < |r| && Kind(r[i + 3]) == "html_inline" && LabelStart(r[i + 3].content))
    ensures Walked(tokens, r, i + 1, if pending then k else k + 1, false, Step(slugify))
  {
    if !pending {
      NoGroupHere(tokens, k, r, i, slugify);
      assert r[..i + 1] == r[..i] + [r[i]];
    }
  }

  /** Where the rule finds a group, the scan replaces it by the token the rule builds. */
  lemma GroupHere<A>(tokens: seq<Token<A>>, k: nat, r: seq<Token<A>>, i: nat, slugify: string -> string)
    requires k <= |tokens| && i < |r| && r[i..] == tokens[k..]
    requires Kind(r[i]) == "heading_open" && i + 3 < |r| && Kind(r[i + 3]) == "html_inline" && LabelStart(r[i + 3].content)
    ensures k + 4 <= |tokens| && r[i + 4..] == tokens[k + 4..]
    ensures Scan(tokens, k, Step(slugify)) ==
      [Build(r[i].tag, r[i].level, r[i + 1].content, r[i + 3].content, slugify)] + Scan(tokens, k + 4, Step(slugify))
  {
    assert r[i] == tokens[k] && r[i + 1] == tokens[k + 1] && r[i + 3] == tokens[k + 3];
    StepAt(tokens, k, slugify);
    assert r[i + 4..] == r[i..][4..];
  }

  /** Where the rule finds none, the scan keeps the token. */
  lemma NoGroupHere<A>(tokens: seq<Token<A>>, k: nat, r: seq<Token<A>>, i: nat, slugify: string -> string)
    requires k <= |tokens| && i < |r| && r[i..] == tokens[k..]
    requires !(Kind(r[i]) == "heading_open" && i + 3 < |r| && Kind(r[i + 3]) == "html_inline" && LabelStart(r[i + 3].content))
    ensures k < |tokens| && r[i + 1..] == tokens[k + 1..]
    ensures Scan(tokens, k, Step(slugify)) == [r[i]] + Scan(tokens, k + 1, Step(slugify))
  {
    assert r[i] == tokens[k];
    if k + 3 < |tokens| {
      assert r[i + 3] == tokens[k + 3];
    }
    StepAt(tokens, k, slugify);
    assert r[i + 1..] == r[i..][1..];
  }

  /** Every rewrite turns four parser tokens into one built token: the stream gets three
      tokens shorter per rewrite. */
  lemma LengthDrops<A>(ts: seq<Token<A>>, slugify: string -> string)
    requires forall m :: 0 <= m < |ts| ==> ts[m].Parsed?
    ensures var r := RewriteFrom(ts, 0, slugify);
      |r| + 3 * Count(r, (t: Token<A>) => t.Made?) == |ts|
  {
    var made := (t: Token<A>) => t.Made?;
    forall m | 0 <= m < |ts| && GroupStart(ts, m, Step(slugify)) ensures made(Step(slugify)(ts, m).value) {
      StepAt(ts, m, slugify);
    }
    ScanLength(ts, 0, Step(slugify), made);
  }

  /** A stream without a heading followed by a label comes back as it went in. */
  lemma NoGroupUnchanged<A>(ts: seq<Token<A>>, slugify: string -> string)
    requires forall m :: 0 <= m < |ts| ==> !Qualifies(ts, m)
    ensures RewriteFrom(ts, 0, slugify) == ts
  {
    forall m | 0 <= m < |ts| ensures !GroupStart(ts, m, Step(slugify)) {
      StepAt(ts, m, slugify);
    }
    ScanKeeps(ts, 0, |ts|, Step(slugify));
  }

  /** The first group is replaced, the tokens before it are kept, and the rule goes on
      after its four tokens. */
  lemma FirstGroupReplaced<A>(ts: seq<Token<A>>, k: nat, slugify: string -> string)
    requires Qualifies(ts, k)
    requires forall m :: 0 <= m < k ==> !Qualifies(ts, m)
    ensures RewriteFrom(ts, 0, slugify) == ts[..k] + [Replacement(ts, k, slugify)] + RewriteFrom(ts, k + 4, slugify)
  {
    forall m | 0 <= m < k ensures !GroupStart(ts, m, Step(slugify)) {
      StepAt(ts, m, slugify);
    }
    ScanKeeps(ts, 0, k, Step(slugify));
    StepAt(ts, k, slugify);
  }

  /** What follows a position is rewritten as if it stood alone: the rule never looks
      back. */
  lemma SuffixAlone<A>(ts: seq<Token<A>>, k: nat, slugify: string -> string)
    requires k <= |ts|
    ensures RewriteFrom(ts, k, slugify) == RewriteFrom(ts[k..], 0, slugify)
  {
    forall m | k <= m < |ts| ensures Step(slugify)(ts, m) == Step(slugify)(ts[k..], m - k) {
      StepLocal(ts, k, m, slugify);
    }
    ScanSuffix(ts, k, 0, Step(slugify));
  }

  /** The step reads only the four tokens from its position. */
  lemma StepLocal<A>(ts: seq<Token<A>>, k: nat, m: nat, slugify: string -> string)
    requires k <= m < |ts|
    ensures Step(slugify)(ts, m) == Step(slugify)(ts[k..], m - k)
  {
    var u := ts[k..];
    if m + 3 < |ts| {
      assert u[m - k] == ts[m] && u[m - k + 1] == ts[m + 1] && u[m - k + 3] == ts[m + 3];
    }
  }
}
