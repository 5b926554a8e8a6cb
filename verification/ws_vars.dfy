/**
  Writerside variables (docs/.vitepress/plugins/markdown/writerside/markdown-it-ws-vars.ts):
  `<var name="n" value="v">` tags define variables, `%n%` references use them.

  The source is scanned once, left to right, for the token pattern
    <var\s+name="([^"]+)"\s+value="([^"]+)"[^>]*\/?>  |  %([\w.-]+)%
  with the `i` flag. A definition updates the variables and is removed: with its whole
  line and the line's newline when nothing but whitespace shares the line, on its own
  otherwise. A reference to a defined name becomes the value; any other reference stays.
  The variables start from those of the doc type's variable file, which is an input here.
 */
module WsVars {
  import opened Strings

  // ---------------------------------------------------------------------------------
  // Tokens

  datatype Token = Define(name: string, value: string) | Reference(name: string)

  /** A match of the token pattern: `s[start..end]`. */
  datatype Match = Match(start: nat, end: nat, tok: Token)

  /** `[\w.-]` */
  predicate IsNameChar(c: char) {
    IsWordChar(c) || c == '.' || c == '-'
  }

  /** The greedy `[^"]+"` at `i`: the end of the run, which a quote follows. */
  function QuotedRun(s: string, i: nat): (r: Option<nat>)
    requires i <= |s|
    ensures r.Some? ==> i < r.value < |s| && s[r.value] == '"'
  {
    var e := FindChar(s, '"', i);
    if e == i || e == |s| then None else Some(e)
  }

  /** `\s+` then the keyword `key` (compared without case) at `i`: where the text after
      the keyword starts. */
  function Keyword(s: string, i: nat, key: string): (r: Option<nat>)
    requires i <= |s|
    ensures r.Some? ==> i < r.value <= |s|
  {
    var b := SkipSpace(s, i);
    if b == i || !HasAtIgnoreCase(s, b, key) then None else Some(b + |key|)
  }

  /** Where a piece of the text sits: `s[from..to]`. */
  datatype Piece = Piece(from: nat, to: nat)

  /** The value of a definition and the position of the `>` closing its tag. */
  datatype ValueEnd = ValueEnd(value: Piece, close: nat)

  /** `<var\s+name="([^"]+)"` at `i`: where the name sits. */
  function NamePart(s: string, i: nat): (r: Option<Piece>)
    requires i <= |s|
    ensures r.Some? ==> i < r.value.from < r.value.to < |s|
  {
    if !HasAtIgnoreCase(s, i, "<var") then None
    else match Keyword(s, i + 4, "name=\"")
      case None => None
      case Some(n0) => match QuotedRun(s, n0)
        case None => None
        case Some(n) => Some(Piece(n0, n))
  }

  /** `\s+value="([^"]+)"[^>]*\/?>` at `j`: where the value sits, and the tag's `>`.
      `[^>]*` runs to the first `>`, where `\/?` matches nothing and `>` ends the tag. */
  function ValuePart(s: string, j: nat): (r: Option<ValueEnd>)
    requires j <= |s|
    ensures r.Some? ==> j < r.value.value.from < r.value.value.to < r.value.close < |s|
  {
    match Keyword(s, j, "value=\"")
    case None => None
    case Some(v0) => match QuotedRun(s, v0)
      case None => None
      case Some(v) =>
        var g := FindChar(s, '>', v + 1);
        if g == |s| then None else Some(ValueEnd(Piece(v0, v), g))
  }

  /** The definition alternative `<var\s+name="([^"]+)"\s+value="([^"]+)"[^>]*\/?>` at `i`. */
  function DefineAt(s: string, i: nat): (r: Option<Match>)
    requires i <= |s|
    ensures r.Some? ==> r.value.start == i && i < r.value.end <= |s| && r.value.tok.Define?
  {
    match NamePart(s, i)
    case None => None
    case Some(nm) => match ValuePart(s, nm.to + 1)
      case None => None
      case Some(ve) => Some(Match(i, ve.close + 1, Define(s[nm.from..nm.to], s[ve.value.from..ve.value.to])))
  }

  /** A definition the pattern matches has a non-empty name and a non-empty value. */
  lemma DefineFacts(s: string, i: nat)
    requires i <= |s| && DefineAt(s, i).Some?
    ensures DefineAt(s, i).value.tok.name != [] && DefineAt(s, i).value.tok.value != []
  {
    var nm := NamePart(s, i).value;
    var ve := ValuePart(s, nm.to + 1).value;
    DefineCompose(s, i, nm, ve.value, ve.close);
  }

  /** The name holds no quote. */
  lemma NameFacts(s: string, i: nat)
    requires i <= |s| && NamePart(s, i).Some?
    ensures var nm := NamePart(s, i).value;
      s[nm.from..nm.to] != [] && '"' !in s[nm.from..nm.to]
  {
    var n0 := Keyword(s, i + 4, "name=\"").value;
    QuotedRunFree(s, n0);
  }

  /** The value holds no quote, and the tag closes at a `>`. */
  lemma ValueFacts(s: string, j: nat)
    requires j <= |s| && ValuePart(s, j).Some?
    ensures var ve := ValuePart(s, j).value;
      s[ve.value.from..ve.value.to] != [] && '"' !in s[ve.value.from..ve.value.to] && s[ve.close] == '>'
  {
    var v0 := Keyword(s, j, "value=\"").value;
    QuotedRunFree(s, v0);
  }

  lemma QuotedRunFree(s: string, i: nat)
    requires i <= |s| && QuotedRun(s, i).Some?
    ensures '"' !in s[i..QuotedRun(s, i).value]
  {
    var e := QuotedRun(s, i).value;
    assert forall k :: 0 <= k < e - i ==> s[i..e][k] == s[i + k];
  }

  /** The reference alternative `%([\w.-]+)%` at `i`. */
  function ReferenceAt(s: string, i: nat): (r: Option<Match>)
    requires i <= |s|
    ensures r.Some? ==> r.value.start == i && i + 2 < r.value.end <= |s| && r.value.tok.Reference?
    ensures r.Some? ==> s[r.value.start..r.value.end] == "%" + r.value.tok.name + "%"
    ensures r.Some? ==> forall k :: 0 <= k < |r.value.tok.name| ==> IsNameChar(r.value.tok.name[k])
  {
    if i == |s| || s[i] != '%' then None
    else
      var e := Span(s, i + 1, IsNameChar);
      if e == i + 1 || e == |s| || s[e] != '%' then None
      else
        assert s[i..e + 1] == "%" + s[i + 1..e] + "%";
        Some(Match(i, e + 1, Reference(s[i + 1..e])))
  }

  /** The token pattern at `i`: the first alternative is tried first. */
  function TokenAt(s: string, i: nat): (r: Option<Match>)
    requires i <= |s|
    ensures r.Some? ==> r.value.start == i && i < r.value.end <= |s|
  {
    if DefineAt(s, i).Some? then DefineAt(s, i) else ReferenceAt(s, i)
  }

  /** The result of the token pattern tried at every position, the end included. */
  function Table(s: string): (t: seq<Option<Match>>)
    ensures Sane(t) && |t| == |s| + 1
  {
    seq(|s| + 1, p requires 0 <= p <= |s| => TokenAt(s, p))
  }

  lemma TableEntry(s: string, p: nat)
    requires p <= |s|
    ensures Table(s)[p] == TokenAt(s, p)
  {
  }

  /** Every entry of the table is a match starting at its own position, ending within
      the text. */
  predicate Sane(t: seq<Option<Match>>) {
    forall p :: 0 <= p < |t| && t[p].Some? ==> t[p].value.start == p && p < t[p].value.end < |t|
  }

  /** The matches `exec` finds with the global flag from `i` on: each search resumes
      where the previous match ended. */
  function Scan(t: seq<Option<Match>>, i: nat): (r: seq<Match>)
    requires Sane(t) && i < |t|
    ensures forall k :: 0 <= k < |r| ==> i <= r[k].start < |t| && t[r[k].start] == Some(r[k])
    ensures forall k :: 0 <= k < |r| - 1 ==> r[k].end <= r[k + 1].start
    ensures r == [] <==> forall p :: i <= p < |t| ==> t[p].None?
    ensures r != [] ==> forall p :: i <= p < r[0].start ==> t[p].None?
    decreases |t| - i
  {
    if i == |t| - 1 then []
    else match t[i]
      case Some(m) => [m] + Scan(t, m.end)
      case None => Scan(t, i + 1)
  }

  /** Between consecutive matches, and after the last one, the pattern matches nowhere. */
  lemma {:induction false} ScanGaps(t: seq<Option<Match>>, i: nat)
    requires Sane(t) && i < |t|
    ensures var r := Scan(t, i);
      forall k :: 0 <= k < |r| - 1 ==> forall p :: r[k].end <= p < r[k + 1].start ==> t[p].None?
    ensures var r := Scan(t, i);
      r != [] ==> forall p :: r[|r| - 1].end <= p < |t| ==> t[p].None?
    decreases |t| - i
  {
    if i < |t| - 1 {
      match t[i]
      case Some(m) =>
        ScanGaps(t, m.end);
        var rest := Scan(t, m.end);
        assert Scan(t, i) == [m] + rest;
      case None =>
        ScanGaps(t, i + 1);
    }
  }

  /** The matches of the token pattern in `s`, in order. */
  function Tokens(s: string): (r: seq<Match>)
    ensures Placed(s, r)
    ensures forall k :: 0 <= k < |r| - 1 ==> r[k].end <= r[k + 1].start
  {
    Scan(Table(s), 0)
  }

  /** Each of them is what the pattern matches at its start. */
  lemma TokensMatch(s: string, k: nat)
    requires k < |Tokens(s)|
    ensures TokenAt(s, Tokens(s)[k].start) == Some(Tokens(s)[k])
  {
    TableEntry(s, Tokens(s)[k].start);
  }

  // ---------------------------------------------------------------------------------
  // Canonical tags: printing a token and scanning it back

  function DefineText(name: string, value: string): string {
    "<var name=\"" + name + "\" value=\"" + value + "\"/>"
  }

  function ReferenceText(name: string): string {
    "%" + name + "%"
  }

  /** A definition written out is read back with its name and value, whatever follows it. */
  lemma DefineRoundTrip(s: string, name: string, value: string)
    requires name != [] && '"' !in name && value != [] && '"' !in value
    requires StartsWith(s, DefineText(name, value))
    ensures DefineAt(s, 0) == Some(Match(0, |DefineText(name, value)|, Define(name, value)))
  {
    DefineLayout(s, name, value);
    DefineReadBack(s, name, value);
  }

  /** A text laid out as a definition is read back with its name and value. */
  lemma DefineReadBack(s: string, name: string, value: string)
    requires LaidOut(s, name, value)
    ensures DefineAt(s, 0) == Some(Match(0, 11 + |name| + 9 + |value| + 3, Define(name, value)))
  {
    var n := 11 + |name|;
    var v := n + 9 + |value|;
    FieldRead(s, 4, "name=\"", name, 11, n);
    FieldRead(s, n + 1, "value=\"", value, n + 9, v);
    FindCharExact(s, '>', v + 1, v + 2);
    DefineStages(s, 0, 11, n, n + 9, v, v + 2);
  }

  /** `s` starts with the definition of `name` as `value`, written out. */
  predicate LaidOut(s: string, name: string, value: string) {
    var n := 11 + |name|;
    var v := n + 9 + |value|;
    && name != [] && '"' !in name && value != [] && '"' !in value
    && v + 3 <= |s|
    && HasAtIgnoreCase(s, 0, "<var") && s[4] == ' ' && s[5..11] == "name=\""
    && s[11..n] == name && s[n] == '"' && s[n + 1] == ' '
    && s[n + 2..n + 9] == "value=\"" && s[n + 9..v] == value
    && s[v] == '"' && s[v + 1] == '/' && s[v + 2] == '>'
  }

  /** Where the pieces of a written-out definition sit. */
  lemma DefineLayout(s: string, name: string, value: string)
    requires name != [] && '"' !in name && value != [] && '"' !in value
    requires StartsWith(s, DefineText(name, value))
    ensures LaidOut(s, name, value)
    ensures |DefineText(name, value)| == 11 + |name| + 9 + |value| + 3
  {
    var t := DefineText(name, value);
    var n := 11 + |name|;
    var v := n + 9 + |value|;
    DefineTextPieces(name, value);
    PrefixAgrees(s, t, 5, 11);
    PrefixAgrees(s, t, 11, n);
    PrefixAgrees(s, t, n + 2, n + 9);
    PrefixAgrees(s, t, n + 9, v);
    PrefixChars(s, t);
    forall k | 0 <= k < 4 ensures SameIgnoringCase(s[k], "<var"[k]) {
      assert s[k] == t[..4][k];
    }
  }

  lemma DefineTextPieces(name: string, value: string)
    ensures var t := DefineText(name, value);
      var n := 11 + |name|;
      var v := n + 9 + |value|;
      && |t| == v + 3
      && t[..4] == "<var" && t[4] == ' ' && t[5..11] == "name=\"" && t[11..n] == name
      && t[n] == '"' && t[n + 1] == ' ' && t[n + 2..n + 9] == "value=\"" && t[n + 9..v] == value
      && t[v] == '"' && t[v + 1] == '/' && t[v + 2] == '>'
  {
    var t := DefineText(name, value);
    var n := 11 + |name|;
    var v := n + 9 + |value|;
    assert t == "<var name=\"" + name + "\" value=\"" + value + "\"/>";
    assert t[..4] == "<var" && t[4] == ' ';
    assert t[5..11] == "name=\"";
    assert t[11..n] == name;
    assert t[n] == '"' && t[n + 1] == ' ';
    assert t[n + 2..n + 9] == "value=\"";
    assert t[n + 9..v] == value;
  }

  lemma PrefixAgrees(s: string, t: string, a: nat, b: nat)
    requires StartsWith(s, t) && a <= b <= |t|
    ensures s[a..b] == t[a..b]
  {
    assert s[0..|t|] == t;
    assert s[a..b] == s[0..|t|][a..b];
  }

  lemma PrefixChars(s: string, t: string)
    requires StartsWith(s, t)
    ensures forall k :: 0 <= k < |t| ==> s[k] == t[k]
  {
    assert s[0..|t|] == t;
    forall k | 0 <= k < |t| ensures s[k] == t[k] {
      assert s[k] == s[0..|t|][k];
    }
  }

  /** `DefineAt` composed from its stages. */
  lemma DefineStages(s: string, i: nat, n0: nat, n: nat, v0: nat, v: nat, g: nat)
    requires i <= |s| && HasAtIgnoreCase(s, i, "<var")
    requires Keyword(s, i + 4, "name=\"") == Some(n0) && QuotedRun(s, n0) == Some(n)
    requires Keyword(s, n + 1, "value=\"") == Some(v0) && QuotedRun(s, v0) == Some(v)
    requires FindChar(s, '>', v + 1) == g && g < |s|
    ensures DefineAt(s, i) == Some(Match(i, g + 1, Define(s[n0..n], s[v0..v])))
  {
    NameStage(s, i, n0, n);
    ValueStage(s, n + 1, v0, v, g);
    DefineCompose(s, i, Piece(n0, n), Piece(v0, v), g);
  }

  lemma NameStage(s: string, i: nat, n0: nat, n: nat)
    requires i <= |s| && HasAtIgnoreCase(s, i, "<var")
    requires Keyword(s, i + 4, "name=\"") == Some(n0) && QuotedRun(s, n0) == Some(n)
    ensures NamePart(s, i) == Some(Piece(n0, n))
  {
  }

  lemma ValueStage(s: string, j: nat, v0: nat, v: nat, g: nat)
    requires j <= |s|
    requires Keyword(s, j, "value=\"") == Some(v0) && QuotedRun(s, v0) == Some(v)
    requires FindChar(s, '>', v + 1) == g && g < |s|
    ensures ValuePart(s, j) == Some(ValueEnd(Piece(v0, v), g))
  {
  }

  /** `DefineAt` from the name and the value it finds. */
  lemma DefineCompose(s: string, i: nat, nm: Piece, vl: Piece, g: nat)
    requires i <= |s| && NamePart(s, i) == Some(nm) && ValuePart(s, nm.to + 1) == Some(ValueEnd(vl, g))
    ensures DefineAt(s, i) == Some(Match(i, g + 1, Define(s[nm.from..nm.to], s[vl.from..vl.to])))
  {
  }

  /** One space at `i`, the keyword, then a quoted run from `e` to `q`: the run is read
      back. */
  lemma FieldRead(s: string, i: nat, key: string, x: string, e: nat, q: nat)
    requires e == i + 1 + |key| && q == e + |x| && q < |s|
    requires s[i] == ' ' && s[i + 1..e] == key && key != [] && 'a' <= key[0] <= 'z'
    requires s[e..q] == x && s[q] == '"' && x != [] && '"' !in x
    ensures Keyword(s, i, key) == Some(e)
    ensures QuotedRun(s, e) == Some(q)
  {
    var b := i + 1;
    assert s[b] == key[0];
    SpanExact(s, i, IsSpace, b);
    SkipSpaceIsSpan(s, i);
    assert HasAtIgnoreCase(s, b, key) by {
      forall k | 0 <= k < |key| ensures SameIgnoringCase(s[b + k], key[k]) {
        assert s[b + k] == s[b..e][k];
      }
    }
    forall k | e <= k < q ensures s[k] != '"' { assert s[k] == x[k - e]; }
    FindCharExact(s, '"', e, q);
  }

  /** A reference written out is read back with its name, whatever follows it. */
  lemma ReferenceRoundTrip(s: string, name: string)
    requires name != [] && forall k :: 0 <= k < |name| ==> IsNameChar(name[k])
    requires StartsWith(s, ReferenceText(name))
    ensures ReferenceAt(s, 0) == Some(Match(0, |ReferenceText(name)|, Reference(name)))
  {
    var t := ReferenceText(name);
    PrefixChars(s, t);
    forall k | 1 <= k < |name| + 1 ensures IsNameChar(s[k]) { assert s[k] == t[k] == name[k - 1]; }
    assert s[|name| + 1] == t[|name| + 1] == '%';
    SpanExact(s, 1, IsNameChar, |name| + 1);
    PrefixAgrees(s, t, 1, |name| + 1);
    assert t[1..|name| + 1] == name;
  }

  // ---------------------------------------------------------------------------------
  // Lines

  /** `lastIndexOf('\n', j - 1) + 1`: the start of the line holding position `j`. */
  function LineStart(s: string, j: nat): (r: nat)
    requires j <= |s|
    ensures r <= j && (r == 0 || s[r - 1] == '\n')
    ensures forall k :: r <= k < j ==> s[k] != '\n'
  {
    if j == 0 || s[j - 1] == '\n' then j else LineStart(s, j - 1)
  }

  /** Where the scan resumes after deleting the line that ends at or after `e`: past the
      line's newline, or at the end of the text. */
  function AfterLine(s: string, e: nat): (r: nat)
    requires e <= |s|
    ensures e <= r <= |s|
    ensures r == |s| || (0 < r && s[r - 1] == '\n' && forall k :: e <= k < r - 1 ==> s[k] != '\n')
  {
    var le := FindChar(s, '\n', e);
    if le < |s| then le + 1 else le
  }

  /** Nothing but whitespace shares the token's line(s): from the start of the line to
      the token, and from the token to the end of the line. */
  predicate Alone(s: string, m: Match)
    requires m.start <= m.end <= |s|
  {
    && (forall k :: LineStart(s, m.start) <= k < m.start ==> IsSpace(s[k]))
    && (forall k :: m.end <= k < FindChar(s, '\n', m.end) ==> IsSpace(s[k]))
  }

  /** This is the rule's test `(left + right).trim() === ''`, where `left` is the line up
      to the token and `right` the line after it. */
  lemma AloneTrim(s: string, m: Match)
    requires m.start <= m.end <= |s|
    ensures var left := s[LineStart(s, m.start)..m.start];
      var right := s[m.end..FindChar(s, '\n', m.end)];
      Alone(s, m) <==> Trim(left + right) == []
  {
    AloneSpace(s, m);
  }

  lemma AloneSpace(s: string, m: Match)
    requires m.start <= m.end <= |s|
    ensures var left := s[LineStart(s, m.start)..m.start];
      var right := s[m.end..FindChar(s, '\n', m.end)];
      Alone(s, m) <==> AllSpace(left + right)
  {
    var ls := LineStart(s, m.start);
    var le := FindChar(s, '\n', m.end);
    AllSpaceConcat(s[ls..m.start], s[m.end..le]);
    if AllSpace(s[ls..m.start] + s[m.end..le]) {
      SliceSpace(s, ls, m.start);
      SliceSpace(s, m.end, le);
    }
    if Alone(s, m) {
      SpaceSlice(s, ls, m.start);
      SpaceSlice(s, m.end, le);
    }
  }

  // ---------------------------------------------------------------------------------
  // Variables

  /** The variables after the definitions among the first `k` matches. */
  function Env(ms: seq<Match>, k: nat, file: map<string, string>): map<string, string>
    requires k <= |ms|
  {
    if k == 0 then file
    else match ms[k - 1].tok
      case Define(n, v) => Env(ms, k - 1, file)[n := v]
      case Reference(_) => Env(ms, k - 1, file)
  }

  /** The value of the last definition of `n` among the first `k` matches. */
  function LastDefinition(ms: seq<Match>, k: nat, n: string): (r: Option<string>)
    requires k <= |ms|
    ensures r.Some? ==> exists j :: (0 <= j < k && ms[j].tok == Define(n, r.value)
      && forall j' :: j < j' < k ==> !(ms[j'].tok.Define? && ms[j'].tok.name == n))
    ensures r.None? ==> forall j :: 0 <= j < k ==> !(ms[j].tok.Define? && ms[j].tok.name == n)
  {
    if k == 0 then None
    else if ms[k - 1].tok.Define? && ms[k - 1].tok.name == n then Some(ms[k - 1].tok.value)
    else LastDefinition(ms, k - 1, n)
  }

  /** A later definition overrides an earlier one; a name never defined in the document
      keeps the value from the variable file, if any. */
  lemma {:induction false} LastDefinitionWins(ms: seq<Match>, k: nat, file: map<string, string>, n: string)
    requires k <= |ms|
    ensures LastDefinition(ms, k, n).Some? ==> n in Env(ms, k, file) && Env(ms, k, file)[n] == LastDefinition(ms, k, n).value
    ensures LastDefinition(ms, k, n).None? ==> (n in Env(ms, k, file) <==> n in file)
    ensures LastDefinition(ms, k, n).None? && n in file ==> Env(ms, k, file)[n] == file[n]
  {
    if k > 0 {
      LastDefinitionWins(ms, k - 1, file, n);
    }
  }

  /** Every value is non-empty. */
  predicate NonEmptyValues(vars: map<string, string>) {
    forall n :: n in vars ==> vars[n] != []
  }

  /** Definitions found by the scan keep every value non-empty, so the branch of the
      rule that deletes a reference whose value is empty is never taken. */
  lemma {:induction false} EnvNonEmpty(s: string, ms: seq<Match>, k: nat, file: map<string, string>)
    requires ms == Tokens(s) && k <= |ms| && NonEmptyValues(file)
    ensures NonEmptyValues(Env(ms, k, file))
  {
    if k > 0 {
      EnvNonEmpty(s, ms, k - 1, file);
      var m := ms[k - 1];
      assert TokenAt(s, m.start) == Some(m);
      if m.tok.Define? {
        assert DefineAt(s, m.start) == Some(m);
        DefineFacts(s, m.start);
      }
    }
  }

  /** The variables of the variable file: every definition in it, later ones winning. */
  function LoadVars(x: string, i: nat, vars: map<string, string>): (r: map<string, string>)
    requires i <= |x|
    ensures NonEmptyValues(vars) ==> NonEmptyValues(r)
    ensures forall n :: n in vars ==> n in r
    decreases |x| - i
  {
    if i == |x| then vars
    else match DefineAt(x, i)
      case Some(m) =>
        DefineFacts(x, i);
        LoadVars(x, m.end, vars[m.tok.name := m.tok.value])
      case None => LoadVars(x, i + 1, vars)
  }

  function FileVars(x: string): (r: map<string, string>)
    ensures NonEmptyValues(r)
  {
    LoadVars(x, 0, map[])
  }

  // ---------------------------------------------------------------------------------
  // The rewrite

  predicate Placed(s: string, ms: seq<Match>) {
    forall k :: 0 <= k < |ms| ==> ms[k].start < ms[k].end <= |s|
  }

  /** What one match does to the output: the source is copied up to `upTo`, then `text`
      is written, and copying resumes at `resume`. */
  datatype Edit = Edit(upTo: nat, text: string, resume: nat)

  /** The branch the rule takes at match `k`, with the variables as they are there. */
  function EditAt(s: string, ms: seq<Match>, k: nat, file: map<string, string>): (r: Edit)
    requires Placed(s, ms) && k < |ms|
    ensures r.upTo <= ms[k].start && ms[k].end <= r.resume <= |s|
  {
    var m := ms[k];
    var env := Env(ms, k, file);
    match m.tok
    case Define(_, _) =>
      if Alone(s, m) then Edit(LineStart(s, m.start), [], AfterLine(s, m.end))
      else Edit(m.start, [], m.end)
    case Reference(n) =>
      if n !in env then Edit(m.start, ReferenceText(n), m.end)
      else if env[n] == [] && Alone(s, m) then Edit(LineStart(s, m.start), [], AfterLine(s, m.end))
      else Edit(m.start, env[n], m.end)
  }

  function Edits(s: string, ms: seq<Match>, file: map<string, string>): (r: seq<Edit>)
    requires Placed(s, ms)
    ensures |r| == |ms|
  {
    seq(|ms|, k requires 0 <= k < |ms| => EditAt(s, ms, k, file))
  }

  lemma EditsEntry(s: string, ms: seq<Match>, file: map<string, string>, k: nat)
    requires Placed(s, ms) && k < |ms|
    ensures Edits(s, ms, file)[k] == EditAt(s, ms, k, file)
  {
  }

  lemma EditsOne(s: string, m: Match, file: map<string, string>)
    requires m.start < m.end <= |s|
    ensures Edits(s, [m], file) == [EditAt(s, [m], 0, file)]
  {
  }

  /** The output of the edits from `k` on; `last` is how far the source has been copied.
      `slice` gives nothing when `last` is already past `upTo`. */
  function Apply(s: string, es: seq<Edit>, k: nat, last: nat): string
    requires k <= |es|
    decreases |es| - k
  {
    if k == |es| then Slice(s, last, |s|)
    else Slice(s, last, es[k].upTo) + es[k].text + Apply(s, es, k + 1, es[k].resume)
  }

  function Render(s: string, ms: seq<Match>, file: map<string, string>): string
    requires Placed(s, ms)
  {
    Apply(s, Edits(s, ms, file), 0, 0)
  }

  /** The core rule `global_variable_replacer`, with the variable file's text as input. */
  function Substitute(src: string, varFile: string): string {
    Render(src, Tokens(src), FileVars(varFile))
  }

  // ---------------------------------------------------------------------------------
  // Properties

  /** Text without a single token is left as it is. */
  lemma NoTokensUnchanged(src: string, varFile: string)
    requires forall p :: 0 <= p <= |src| ==> TokenAt(src, p).None?
    ensures Substitute(src, varFile) == src
  {
    forall p | 0 <= p < |Table(src)| ensures Table(src)[p].None? {
      TableEntry(src, p);
    }
    assert Tokens(src) == [];
  }

  /** Edits that each write back the text they skip, in order, leave the source as it is. */
  lemma {:induction false} IdentityEdits(s: string, es: seq<Edit>, k: nat, last: nat)
    requires k <= |es| && last <= |s| && (k < |es| ==> last <= es[k].upTo)
    requires forall j :: 0 <= j < |es| ==> es[j].upTo <= es[j].resume <= |s|
    requires forall j :: 0 <= j < |es| ==> es[j].text == s[es[j].upTo..es[j].resume]
    requires forall j :: 0 <= j < |es| - 1 ==> es[j].resume <= es[j + 1].upTo
    ensures Apply(s, es, k, last) == s[last..]
    decreases |es| - k
  {
    if k < |es| {
      var e := es[k];
      assert Apply(s, es, k, last) == s[last..e.upTo] + e.text + Apply(s, es, k + 1, e.resume);
      IdentityEdits(s, es, k + 1, e.resume);
      SplitAround(s, last, e.upTo, e.resume);
    }
  }

  lemma SplitAround(s: string, a: nat, b: nat, c: nat)
    requires a <= b <= c <= |s|
    ensures s[a..] == s[a..b] + s[b..c] + s[c..]
  {
  }

  /** Without definitions the variables are those of the file. */
  lemma {:induction false} NoDefinitions(ms: seq<Match>, k: nat, file: map<string, string>)
    requires k <= |ms|
    requires forall j :: 0 <= j < k ==> ms[j].tok.Reference?
    ensures Env(ms, k, file) == file
  {
    if k > 0 {
      NoDefinitions(ms, k - 1, file);
    }
  }

  /** A source whose only tokens are references to names the file does not define is
      unchanged. */
  lemma UndefinedReferencesUnchanged(src: string, varFile: string)
    requires forall j :: 0 <= j < |Tokens(src)| ==>
      Tokens(src)[j].tok.Reference? && Tokens(src)[j].tok.name !in FileVars(varFile)
    ensures Substitute(src, varFile) == src
  {
    var ms := Tokens(src);
    var file := FileVars(varFile);
    var es := Edits(src, ms, file);
    forall j | 0 <= j < |ms|
      ensures es[j] == Edit(ms[j].start, src[ms[j].start..ms[j].end], ms[j].end)
    {
      TokensMatch(src, j);
      MatchedReference(src, ms[j]);
      NoDefinitions(ms, j, file);
      EditsEntry(src, ms, file, j);
    }
    IdentityEdits(src, es, 0, 0);
  }

  /** A reference the pattern matches is its own canonical text. */
  lemma MatchedReference(s: string, m: Match)
    requires m.start <= |s| && TokenAt(s, m.start) == Some(m) && m.tok.Reference?
    ensures s[m.start..m.end] == ReferenceText(m.tok.name)
  {
    assert DefineAt(s, m.start).None?;
  }

  /** A definition is always deleted: alone on its line, with the whole line and the
      line's newline, which hold nothing but whitespace besides it; otherwise on its own. */
  lemma DefinitionRemoved(s: string, ms: seq<Match>, k: nat, file: map<string, string>)
    requires Placed(s, ms) && k < |ms| && ms[k].tok.Define?
    ensures var e := EditAt(s, ms, k, file);
      && e.text == []
      && (Alone(s, ms[k]) ==> e.upTo == LineStart(s, ms[k].start) && e.resume == AfterLine(s, ms[k].end))
      && (!Alone(s, ms[k]) ==> e.upTo == ms[k].start && e.resume == ms[k].end)
  {
  }

  /** A reference to a name some earlier definition gave a value takes the value of the
      last such definition; one to a name only the variable file defines takes the file's
      value; one to a name defined nowhere is written back. */
  lemma ReferenceResolved(src: string, varFile: string, k: nat)
    requires k < |Tokens(src)| && Tokens(src)[k].tok.Reference?
    ensures var ms := Tokens(src);
      var file := FileVars(varFile);
      var n := ms[k].tok.name;
      var e := EditAt(src, ms, k, file);
      && e.upTo == ms[k].start && e.resume == ms[k].end
      && (LastDefinition(ms, k, n).Some? ==> e.text == LastDefinition(ms, k, n).value)
      && (LastDefinition(ms, k, n).None? && n in file ==> e.text == file[n])
      && (LastDefinition(ms, k, n).None? && n !in file ==> e.text == src[ms[k].start..ms[k].end])
  {
    var ms := Tokens(src);
    var file := FileVars(varFile);
    var n := ms[k].tok.name;
    LastDefinitionWins(ms, k, file, n);
    EnvNonEmpty(src, ms, k, file);
    TokensMatch(src, k);
    MatchedReference(src, ms[k]);
  }

  /** A single edit: the text before it, its own text, the text after it. */
  lemma ApplyOne(s: string, e: Edit)
    ensures Apply(s, [e], 0, 0) == Slice(s, 0, e.upTo) + e.text + Slice(s, e.resume, |s|)
  {
    var es := [e];
    assert Apply(s, es, 1, e.resume) == Slice(s, e.resume, |s|);
  }

  /** A single edit that writes nothing cuts `s[upTo..resume]` out. */
  lemma ApplyCut(s: string, e: Edit)
    requires e.text == [] && e.upTo <= e.resume <= |s|
    ensures Apply(s, [e], 0, 0) == s[..e.upTo] + s[e.resume..]
  {
    ApplyOne(s, e);
    SliceEnds(s, e.upTo, e.resume);
  }

  /** A definition alone on its line disappears with the line, the rest of the text
      kept. */
  lemma DefinitionLineRemoved(s: string, m: Match, file: map<string, string>)
    requires m.start < m.end <= |s| && m.tok.Define? && Alone(s, m)
    ensures Render(s, [m], file) == s[..LineStart(s, m.start)] + s[AfterLine(s, m.end)..]
  {
    assert EditAt(s, [m], 0, file) == Edit(LineStart(s, m.start), [], AfterLine(s, m.end));
    EditsOne(s, m, file);
    ApplyCut(s, EditAt(s, [m], 0, file));
  }

  /** A definition sharing its line with other text is cut out of it. */
  lemma DefinitionInlineRemoved(s: string, m: Match, file: map<string, string>)
    requires m.start < m.end <= |s| && m.tok.Define? && !Alone(s, m)
    ensures Render(s, [m], file) == s[..m.start] + s[m.end..]
  {
    assert EditAt(s, [m], 0, file) == Edit(m.start, [], m.end);
    EditsOne(s, m, file);
    ApplyCut(s, EditAt(s, [m], 0, file));
  }

  /** A reference to a name with a value becomes the value, the rest of the text kept. */
  lemma ReferenceReplaced(s: string, m: Match, file: map<string, string>)
    requires m.start < m.end <= |s| && m.tok.Reference?
    requires m.tok.name in file && file[m.tok.name] != []
    ensures Render(s, [m], file) == s[..m.start] + file[m.tok.name] + s[m.end..]
  {
    assert Env([m], 0, file) == file;
    assert EditAt(s, [m], 0, file) == Edit(m.start, file[m.tok.name], m.end);
    EditsOne(s, m, file);
    ApplyOne(s, EditAt(s, [m], 0, file));
    SliceEnds(s, m.start, m.end);
  }

  /** The same for the whole rule: a document whose one token is a reference to a name of
      the variable file gets the value, which is never empty, in its place. */
  lemma OnlyReferenceReplaced(src: string, varFile: string)
    requires |Tokens(src)| == 1 && Tokens(src)[0].tok.Reference?
    requires Tokens(src)[0].tok.name in FileVars(varFile)
    ensures var m := Tokens(src)[0];
      var v := FileVars(varFile)[m.tok.name];
      v != [] && Substitute(src, varFile) == src[..m.start] + v + src[m.end..]
  {
    var ms := Tokens(src);
    assert ms == [ms[0]];
    ReferenceReplaced(src, ms[0], FileVars(varFile));
  }
}
