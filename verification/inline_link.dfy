/**
  Writerside link rewriting (docs/.vitepress/plugins/markdown/writerside/markdown-it-ws-inline-link.ts).
  Links written for the original documentation sites are turned into links of this site:
  `rewriteHref` maps one href, and two core rules apply it to the `src`/`href` values of
  HTML blocks and inline HTML before inline parsing, and to the `href` of link tokens and
  the `src` of image tokens after it.

  The site configuration is a parameter: the doc types, the locales, and each doc type's
  own `rewriteHref` hook, which answers the empty string where there is no hook or the
  hook gives nothing.
 */
module InlineLink {
  import opened Strings
  import opened Rewrite
  import opened LazySearch

  /** The site: its doc types, its locales, and the doc types' hooks, called with the
      doc type, the page's relative path and the href. */
  datatype Site = Site(docTypes: seq<string>, locales: seq<string>, hook: (string, string, string) -> string)

  /** The first segment of the page's path that names a doc type. */
  function DocType(site: Site, relativePath: string): Option<string> {
    FindIn(Split(relativePath, '/'), site.docTypes)
  }

  /** The first segment of the page's path that names a locale. */
  function Locale(site: Site, relativePath: string): Option<string> {
    FindIn(Split(relativePath, '/'), site.locales)
  }

  // ---------------------------------------------------------------------------------
  // Paths

  /** Where the last segment of `s[..j]` starts: just after its last `/`. */
  function SegmentStart(s: string, j: nat): (i: nat)
    requires j <= |s|
    ensures i <= j
    ensures forall k :: i <= k < j ==> s[k] != '/'
    ensures i > 0 ==> s[i - 1] == '/'
  {
    if j > 0 && s[j - 1] != '/' then SegmentStart(s, j - 1) else j
  }

  /** `path.basename(href)` for a path that does not end in `/`: its last segment. */
  function Basename(href: string): (r: string)
    ensures '/' !in r
    ensures EndsWith(href, r)
    ensures |r| < |href| ==> href[|href| - |r| - 1] == '/'
  {
    var i := SegmentStart(href, |href|);
    assert forall k :: 0 <= k < |href[i..]| ==> href[i..][k] == href[i + k];
    href[i..]
  }

  /** `relativePath.split('/')` without its last element (the file name). */
  function Directory(relativePath: string): (r: seq<string>)
    ensures |r| + 1 == |Split(relativePath, '/')|
    ensures forall k :: 0 <= k < |r| ==> r[k] == Split(relativePath, '/')[k]
  {
    var parts := Split(relativePath, '/');
    parts[..|parts| - 1]
  }

  /** `Array.prototype.pop()`: drops the last element, and does nothing to `[]`. */
  function Pop(segments: seq<string>): (r: seq<string>)
    ensures segments != [] ==> r + [segments[|segments| - 1]] == segments
    ensures segments == [] ==> r == []
  {
    if segments == [] then [] else segments[..|segments| - 1]
  }

  /** A site-absolute path. */
  predicate Rooted(r: string) {
    |r| > 0 && r[0] == '/'
  }

  /** The absolute form of `name` in the directory `segments`. */
  function InDirectory(segments: seq<string>, name: string): (r: string)
    ensures Rooted(r)
  {
    "/" + Join(segments, '/') + "/" + name
  }

  const SqlLatest := "https://sqldelight.github.io/sqldelight/latest/"

  // ---------------------------------------------------------------------------------
  // rewriteHref

  predicate External(href: string) {
    StartsWith(href, "https://") || StartsWith(href, "http://") || StartsWith(href, "mailto:")
  }

  /** Image files of the `kotlin` doc type. */
  predicate KotlinImage(href: string) {
    EndsWith(href, ".png") || EndsWith(href, ".svg") || EndsWith(href, ".jpeg") || EndsWith(href, ".jpg") || EndsWith(href, ".gif")
  }

  /** Image files of the `sqldelight` doc type. */
  predicate SqlImage(href: string) {
    EndsWith(href, ".png") || EndsWith(href, ".svg") || EndsWith(href, ".gif")
  }

  predicate KoinRelative(docType: string, href: string) {
    docType == "koin" && (StartsWith(href, "./") || StartsWith(href, "../"))
  }

  /** A relative koin link, made absolute against the page's directory (`./`) or its
      parent (`../`). */
  function KoinLink(relativePath: string, href: string): (r: string)
    requires StartsWith(href, "./") || StartsWith(href, "../")
    ensures Rooted(r)
  {
    if StartsWith(href, "./") then InDirectory(Directory(relativePath), href[2..])
    else InDirectory(Pop(Directory(relativePath)), href[3..])
  }

  /** The two in-place edits: koin drops its first `/docs`, kotlin its first `.md` and
      gains a leading `/`. */
  function Adjusted(docType: string, href: string): string {
    if docType == "koin" && StartsWith(href, "/docs") then Strings.ReplaceFirst(href, "/docs", "")
    else if docType == "kotlin" && Contains(href, ".md") then "/" + Strings.ReplaceFirst(href, ".md", "")
    else href
  }

  predicate KeepsFragments(docType: string) {
    docType == "kotlin" || docType == "sqldelight" || docType == "ktor"
  }

  /** The sqldelight rules: what they return, or the href they hand on to the fallback. */
  function Sqldelight(relativePath: string, href: string): (r: Result)
    ensures r.Final? ==> Rooted(r.href) || StartsWith(r.href, SqlLatest)
  {
    if '/' !in href && !StartsWith(href, "#") && '.' !in href then Final(InDirectory(Directory(relativePath), href + ".md"))
    else if StartsWith(href, "../../") then Final(Latest(href[6..]))
    else if StartsWith(href, "../2.x/") then Final(Latest(href[3..]))
    else if StartsWith(href, "../") then Next(href[2..] + ".md")
    else Final(InDirectory(Directory(relativePath), href + ".md"))
  }

  datatype Result = Final(href: string) | Next(href: string)

  /** A page of the external sqldelight site. */
  function Latest(path: string): (r: string)
    ensures StartsWith(r, SqlLatest)
  {
    HasAtParts(SqlLatest, path);
    SqlLatest + path
  }

  /** The last rule: the locale, if the path names one, and the doc type, before the
      href. */
  function Fallback(site: Site, relativePath: string, docType: string, href: string): (r: string)
    ensures Rooted(r) && EndsWith(r, "/" + docType + href)
    ensures Locale(site, relativePath).Some? ==> StartsWith(r, "/" + Locale(site, relativePath).value + "/")
    ensures Locale(site, relativePath).None? ==> r == "/" + docType + href
  {
    var localePath := match Locale(site, relativePath) case None => "" case Some(l) => "/" + l;
    var r := localePath + "/" + docType + href;
    assert r == localePath + ("/" + docType + href);
    HasAtParts(localePath, "/" + docType + href);
    r
  }

  /** `rewriteHref(env, href)`. The page must lie under a doc type: the hook lookup fails
      otherwise. */
  function RewriteHref(site: Site, relativePath: string, href: string): (r: string)
    requires DocType(site, relativePath).Some?
    ensures var d := DocType(site, relativePath).value;
      || r == site.hook(d, relativePath, href)
      || r == href
      || Rooted(r)
      || StartsWith(r, SqlLatest)
  {
    var d := DocType(site, relativePath).value;
    var hooked := site.hook(d, relativePath, href);
    if hooked != [] then hooked
    else if External(href) then href
    else if d == "kotlin" && KotlinImage(href) then "/kotlin/" + Basename(href)
    else if d == "sqldelight" && SqlImage(href) then "/sqldelight/" + Basename(href)
    else if KoinRelative(d, href) then KoinLink(relativePath, href)
    else
      var h := Adjusted(d, href);
      if KeepsFragments(d) && StartsWith(h, "#") then h
      else if d == "sqldelight" then
        match Sqldelight(relativePath, h)
        case Final(x) => x
        case Next(x) => Fallback(site, relativePath, d, x)
      else Fallback(site, relativePath, d, h)
  }

  // ---------------------------------------------------------------------------------
  // The HTML patterns
  //
  //   <img\s+([^>]*?)src\s*=\s*["']([^"']+)["']([^>]*?)>     (flags g, i)
  //   <a\s+([^>]*?)href\s*=\s*["']([^"']+)["']([^>]*?)>
  //   (<[^>]*?\s)(?:src|href)\s*=\s*["']([^"']+)["']
  //
  // Each `\s*` is taken whole: a shorter one leaves a blank where `=` or a quote is
  // needed. `[^"']+` is taken whole too, since a quote must follow it. Once the
  // attribute name is placed, the rest of the match is therefore fixed, and the lazy
  // parts try the attribute name at the first place it fits. `\s+` after the tag name
  // takes the whole run: giving some back only moves blanks into the lazy group, where
  // the attribute name cannot start. The two quotes need not be the same character.

  predicate IsQuote(c: char) {
    c == '"' || c == '\''
  }

  predicate NotQuote(c: char) {
    !IsQuote(c)
  }

  /** `\s*=\s*["']([^"']+)["']` at `n`: the value's start and its closing quote. */
  function ValueAfter(s: string, n: nat): (r: Option<(nat, nat)>)
    requires n <= |s|
    ensures r.Some? ==> n < r.value.0 < r.value.1 < |s|
  {
    var e := SkipSpace(s, n);
    if e < |s| && s[e] == '=' then
      var o := SkipSpace(s, e + 1);
      if o < |s| && IsQuote(s[o]) then
        var q := Span(s, o + 1, NotQuote);
        if o + 1 < q < |s| then Some((o + 1, q)) else None
      else None
    else None
  }

  /** Where the pieces of a tag match lie: the lazy group runs from `before` to `name`,
      the value from `value` to its closing quote `close`, and the match ends at `end`,
      just after the `>`. */
  datatype Link = Link(before: nat, name: nat, value: nat, close: nat, end: nat)

  /** `attr\s*=\s*["']([^"']+)["']([^>]*?)>` at `a`. */
  function LinkTail(s: string, a: nat, attr: string): (r: Option<(nat, nat, nat)>)
    ensures r.Some? ==> a + |attr| < r.value.0 < r.value.1 < r.value.2 <= |s|
  {
    if a > |s| || !HasAtIgnoreCase(s, a, attr) then None
    else match ValueAfter(s, a + |attr|)
      case None => None
      case Some((v, q)) =>
        var g := FindChar(s, '>', q + 1);
        if g < |s| then Some((v, q, g + 1)) else None
  }

  function LinkTails(attr: string): (string, nat) -> Option<(nat, nat, nat)> {
    (s: string, a: nat) => LinkTail(s, a, attr)
  }

  /** `<tag\s+([^>]*?)attr\s*=\s*["']([^"']+)["']([^>]*?)>` at `i`. */
  function LinkAt(s: string, i: nat, tag: string, attr: string): (r: Option<Link>)
    ensures r.Some? ==> i + |tag| + 1 < r.value.before <= r.value.name
    ensures r.Some? ==> r.value.name + |attr| < r.value.value < r.value.close < r.value.end <= |s|
  {
    if !HasAtIgnoreCase(s, i, "<" + tag) then None
    else
      var p := Span(s, i + |tag| + 1, IsSpace);
      if p == i + |tag| + 1 then None
      else match LazyUntil(s, p, '>', LinkTails(attr))
        case None => None
        case Some(found) => Some(Link(p, found.0, found.1.0, found.1.1, found.1.2))
  }

  function LinkEnd(tag: string, attr: string): Matcher {
    (s: string, i: nat) => match LinkAt(s, i, tag, attr) case Some(l) => Some(l.end) case None => None
  }

  /** Values that are already absolute, for the inline tags: `/…` or `http…`. */
  predicate KeptInline(value: string) {
    StartsWith(value, "/") || StartsWith(value, "http")
  }

  /** The tag written back: the tag name in lower case, one blank, the lazy groups as
      they were, and the attribute with its new value in double quotes. */
  function LinkText(tag: string, before: string, attr: string, value: string, after: string): string {
    "<" + tag + " " + before + attr + "=\"" + value + "\"" + after + ">"
  }

  function LinkReplacer(tag: string, attr: string, rewrite: string -> string): Replacer {
    (s: string, i: nat, e: nat) =>
      match LinkAt(s, i, tag, attr)
      case None => Slice(s, i, e)
      case Some(l) =>
        var value := s[l.value..l.close];
        if KeptInline(value) then s[i..l.end]
        else LinkText(tag, s[l.before..l.name], attr, rewrite(value), s[l.close + 1..l.end - 1])
  }

  /** One of the two inline passes: every `<tag … attr=…>` rewritten. */
  function LinkPass(content: string, tag: string, attr: string, rewrite: string -> string): string {
    ReplaceAll(content, LinkEnd(tag, attr), LinkReplacer(tag, attr, rewrite))
  }

  /** The inline HTML of an `inline` token: images first, then anchors. */
  function RewriteInline(content: string, rewrite: string -> string): string {
    LinkPass(LinkPass(content, "img", "src", rewrite), "a", "href", rewrite)
  }

  // rewriteHtmlAttributes

  /** Where the pieces of an attribute match lie: the blank before the name at `blank`,
      the value from `value` to its closing quote `close`. The match ends after it. */
  datatype Attr = Attr(blank: nat, value: nat, close: nat)

  /** `\s(?:src|href)\s*=\s*["']([^"']+)["']` at `b`. */
  function AttrTail(s: string, b: nat): (r: Option<Attr>)
    ensures r.Some? ==> r.value.blank == b && b + 1 < r.value.value < r.value.close < |s|
  {
    if b >= |s| || !IsSpace(s[b]) then None
    else
      var n := if HasAtIgnoreCase(s, b + 1, "src") then 3 else if HasAtIgnoreCase(s, b + 1, "href") then 4 else 0;
      if n == 0 then None
      else match ValueAfter(s, b + 1 + n)
        case None => None
        case Some((v, q)) => Some(Attr(b, v, q))
  }

  function AttrAt(s: string, i: nat): (r: Option<Attr>)
    ensures r.Some? ==> i < r.value.blank && r.value.blank + 1 < r.value.value < r.value.close < |s|
  {
    if i < |s| && s[i] == '<' then
      match LazyUntil(s, i + 1, '>', AttrTail)
      case None => None
      case Some(found) => Some(found.1)
    else None
  }

  function AttrEnd(s: string, i: nat): (r: Option<nat>) {
    match AttrAt(s, i) case Some(a) => Some(a.close + 1) case None => None
  }

  /** Values that are already absolute, for HTML blocks: `/…`, `http:…` or `https:…`,
      in any case. */
  predicate KeptBlock(value: string) {
    StartsWith(value, "/") || HasAtIgnoreCase(value, 0, "http:") || HasAtIgnoreCase(value, 0, "https:")
  }

  /** The replacement as written: `match.replace(value, newValue)` puts the new value
      where the old one FIRST occurs in the match, which may be before the attribute. */
  function ReplacementAsWritten(s: string, j: nat, a: Attr, rewrite: string -> string): string
    requires j <= a.value <= a.close < |s|
  {
    var value := s[a.value..a.close];
    if KeptBlock(value) then s[j..a.close + 1]
    else Strings.ReplaceFirst(s[j..a.close + 1], value, rewrite(value))
  }

  /** The replacement as intended: the new value in the place of the attribute's. */
  function Replacement(s: string, j: nat, a: Attr, rewrite: string -> string): string
    requires j <= a.value <= a.close < |s|
  {
    var value := s[a.value..a.close];
    if KeptBlock(value) then s[j..a.close + 1]
    else s[j..a.value] + rewrite(value) + s[a.close..a.close + 1]
  }

  function AttrReplacerAsWritten(rewrite: string -> string): Replacer {
    (s: string, i: nat, e: nat) =>
      match AttrAt(s, i)
      case None => Slice(s, i, e)
      case Some(a) => ReplacementAsWritten(s, i, a, rewrite)
  }

  function AttrReplacer(rewrite: string -> string): Replacer {
    (s: string, i: nat, e: nat) =>
      match AttrAt(s, i)
      case None => Slice(s, i, e)
      case Some(a) => Replacement(s, i, a, rewrite)
  }

  /** `rewriteHtmlAttributes(content, ["src", "href"], rewrite)`, as written. */
  function RewriteAttributesAsWritten(content: string, rewrite: string -> string): string {
    ReplaceAll(content, AttrEnd, AttrReplacerAsWritten(rewrite))
  }

  /** `rewriteHtmlAttributes(content, ["src", "href"], rewrite)`, as intended: each value
      is replaced in its own place. */
  function RewriteAttributes(content: string, rewrite: string -> string): string {
    ReplaceAll(content, AttrEnd, AttrReplacer(rewrite))
  }

  // ---------------------------------------------------------------------------------
  // The two core rules

  /** A token: its type, its content, its attributes and its children. A missing
      attribute list or child list is the empty one: the rules treat both alike. */
  datatype Token = Token(kind: string, content: string, attrs: seq<(string, string)>, children: seq<Token>)

  /** Every attribute called `name` gets its value rewritten. */
  function RenameValues(attrs: seq<(string, string)>, name: string, rewrite: string -> string): (r: seq<(string, string)>)
    ensures |r| == |attrs|
    ensures forall k :: 0 <= k < |r| ==> r[k].0 == attrs[k].0
    ensures forall k :: 0 <= k < |r| ==> r[k].1 == if attrs[k].0 == name then rewrite(attrs[k].1) else attrs[k].1
  {
    seq(|attrs|, k requires 0 <= k < |attrs| => if attrs[k].0 == name then (name, rewrite(attrs[k].1)) else attrs[k])
  }

  /** One child of an `inline` token after inline parsing. */
  function RewriteChild(child: Token, rewrite: string -> string): Token {
    if child.kind == "link_open" then child.(attrs := RenameValues(child.attrs, "href", rewrite))
    else if child.kind == "image" then child.(attrs := RenameValues(child.attrs, "src", rewrite))
    else child
  }

  /** The rule before `inline`: HTML blocks and the inline HTML of `inline` tokens. */
  function BeforeInline(tokens: seq<Token>, rewrite: string -> string): (r: seq<Token>)
    ensures |r| == |tokens|
  {
    seq(|tokens|, k requires 0 <= k < |tokens| =>
      var t := tokens[k];
      if t.kind == "html_block" then t.(content := RewriteAttributesAsWritten(t.content, rewrite))
      else if t.kind == "inline" && t.content != [] then t.(content := RewriteInline(t.content, rewrite))
      else t)
  }

  /** The rule after `inline`: the links and images among the children of `inline`
      tokens. */
  function AfterInline(tokens: seq<Token>, rewrite: string -> string): (r: seq<Token>)
    ensures |r| == |tokens|
  {
    seq(|tokens|, k requires 0 <= k < |tokens| =>
      var t := tokens[k];
      if t.kind == "inline" then
        t.(children := seq(|t.children|, j requires 0 <= j < |t.children| => RewriteChild(t.children[j], rewrite)))
      else t)
  }

  /** Both rules with the page's `rewriteHref`. */
  function Href(site: Site, relativePath: string): string -> string
    requires DocType(site, relativePath).Some?
  {
    (href: string) => RewriteHref(site, relativePath, href)
  }

  // ---------------------------------------------------------------------------------
  // Properties of rewriteHref

  /** A hook that answers wins over every other rule. */
  lemma HookWins(site: Site, relativePath: string, href: string)
    requires DocType(site, relativePath).Some?
    requires site.hook(DocType(site, relativePath).value, relativePath, href) != []
    ensures RewriteHref(site, relativePath, href) == site.hook(DocType(site, relativePath).value, relativePath, href)
  {
  }

  /** Without a hook's answer, `https://`, `http://` and `mailto:` links stay as they are. */
  lemma ExternalKept(site: Site, relativePath: string, href: string)
    requires DocType(site, relativePath).Some?
    requires site.hook(DocType(site, relativePath).value, relativePath, href) == []
    requires StartsWith(href, "https://") || StartsWith(href, "http://") || StartsWith(href, "mailto:")
    ensures RewriteHref(site, relativePath, href) == href
  {
  }

  /** The last segment of a path keeps every `/`-free suffix of the path. */
  lemma BasenameKeeps(href: string, ext: string)
    requires '/' !in ext && EndsWith(href, ext)
    ensures EndsWith(Basename(href), ext)
  {
    var i := SegmentStart(href, |href|);
    var b := |href| - |ext|;
    forall k | b <= k < |href| ensures href[k] != '/' {
      assert href[k] == href[b..][k - b];
    }
    assert i <= b;
    assert href[i..][|href[i..]| - |ext|..] == href[b..];
  }

  /** A kotlin image loses its directories: `/kotlin/` and its file name, which is an
      image file name still. */
  lemma KotlinImageFlattened(site: Site, relativePath: string, href: string)
    requires DocType(site, relativePath) == Some("kotlin")
    requires site.hook("kotlin", relativePath, href) == [] && !External(href) && KotlinImage(href)
    ensures RewriteHref(site, relativePath, href) == "/kotlin/" + Basename(href)
    ensures KotlinImage(Basename(href))
  {
    KotlinBasename(href);
  }

  /** Cutting the directory off a kotlin image path leaves an image file name. */
  lemma KotlinBasename(href: string)
    requires KotlinImage(href)
    ensures KotlinImage(Basename(href))
  {
    if EndsWith(href, ".png") { BasenameKeeps(href, ".png"); }
    else if EndsWith(href, ".svg") { BasenameKeeps(href, ".svg"); }
    else if EndsWith(href, ".jpeg") { BasenameKeeps(href, ".jpeg"); }
    else if EndsWith(href, ".jpg") { BasenameKeeps(href, ".jpg"); }
    else { BasenameKeeps(href, ".gif"); }
  }

  /** A sqldelight image likewise, under `/sqldelight/`; `.jpeg` and `.jpg` are not among
      its image types. */
  lemma SqlImageFlattened(site: Site, relativePath: string, href: string)
    requires DocType(site, relativePath) == Some("sqldelight")
    requires site.hook("sqldelight", relativePath, href) == [] && !External(href) && SqlImage(href)
    ensures RewriteHref(site, relativePath, href) == "/sqldelight/" + Basename(href)
    ensures SqlImage(Basename(href))
  {
    assert |"sqldelight"| != |"kotlin"|;
    SqlBasename(href);
  }

  /** Likewise for a sqldelight image path. */
  lemma SqlBasename(href: string)
    requires SqlImage(href)
    ensures SqlImage(Basename(href))
  {
    if EndsWith(href, ".png") { BasenameKeeps(href, ".png"); }
    else if EndsWith(href, ".svg") { BasenameKeeps(href, ".svg"); }
    else { BasenameKeeps(href, ".gif"); }
  }

  /** Relative koin links: `./x` is `x` in the page's directory. */
  lemma KoinSameDirectory(site: Site, relativePath: string, x: string)
    requires DocType(site, relativePath) == Some("koin")
    requires site.hook("koin", relativePath, "./" + x) == []
    ensures RewriteHref(site, relativePath, "./" + x) == InDirectory(Directory(relativePath), x)
  {
    var href := "./" + x;
    HasAtParts("./", x);
    Differs(href, "https://", 0);
    Differs(href, "http://", 0);
    Differs(href, "mailto:", 0);
    assert href[2..] == x;
    assert KoinLink(relativePath, href) == InDirectory(Directory(relativePath), x);
  }

  /** `../x` is `x` in the directory above the page's. */
  lemma KoinParentDirectory(site: Site, relativePath: string, x: string)
    requires DocType(site, relativePath) == Some("koin")
    requires site.hook("koin", relativePath, "../" + x) == []
    ensures RewriteHref(site, relativePath, "../" + x) == InDirectory(Pop(Directory(relativePath)), x)
  {
    var href := "../" + x;
    HasAtParts("../", x);
    Differs(href, "https://", 0);
    Differs(href, "http://", 0);
    Differs(href, "mailto:", 0);
    Differs(href, "./", 1);
    assert href[3..] == x;
    assert KoinLink(relativePath, href) == InDirectory(Pop(Directory(relativePath)), x);
  }

  /** A string that differs from `p` at `k` does not start with `p`. */
  lemma Differs(s: string, p: string, k: nat)
    requires k < |s| && k < |p| && s[k] != p[k]
    ensures !StartsWith(s, p)
  {
  }

  /** Fragments stay as they are for kotlin, sqldelight and ktor pages, unless an earlier
      rule claims them: an image name, or for kotlin a `.md` anywhere in the link. */
  lemma FragmentKept(site: Site, relativePath: string, href: string)
    requires DocType(site, relativePath).Some? && KeepsFragments(DocType(site, relativePath).value)
    requires site.hook(DocType(site, relativePath).value, relativePath, href) == []
    requires StartsWith(href, "#")
    requires DocType(site, relativePath) == Some("kotlin") ==> !KotlinImage(href) && !Contains(href, ".md")
    requires DocType(site, relativePath) == Some("sqldelight") ==> !SqlImage(href)
    ensures RewriteHref(site, relativePath, href) == href
  {
  }

  /** A bare sqldelight name, with no `/`, `#` or `.`, is a page in the same directory. */
  lemma SqldelightBareName(site: Site, relativePath: string, href: string)
    requires DocType(site, relativePath) == Some("sqldelight")
    requires site.hook("sqldelight", relativePath, href) == []
    requires '/' !in href && '.' !in href && !StartsWith(href, "#") && !StartsWith(href, "mailto:")
    ensures RewriteHref(site, relativePath, href) == InDirectory(Directory(relativePath), href + ".md")
  {
    assert !External(href) by {
      assert !StartsWith(href, "https://") by { NotAt(href, "https://", 6); }
      assert !StartsWith(href, "http://") by { NotAt(href, "http://", 5); }
    }
    assert !SqlImage(href) by {
      assert !EndsWith(href, ".png") by { NotEnds(href, ".png"); }
      assert !EndsWith(href, ".svg") by { NotEnds(href, ".svg"); }
      assert !EndsWith(href, ".gif") by { NotEnds(href, ".gif"); }
    }
    SqldelightRules(site, relativePath, href);
  }

  /** A string without `p[k]` has no occurrence of `p`. */
  lemma NotAt(s: string, p: string, k: nat)
    requires k < |p| && p[k] !in s
    ensures !StartsWith(s, p)
  {
    if |p| <= |s| {
      assert s[k] in s;
    }
  }

  /** A string without `.` ends in no extension. */
  lemma NotEnds(s: string, ext: string)
    requires |ext| > 0 && ext[0] == '.' && '.' !in s
    ensures !EndsWith(s, ext)
  {
    if |ext| <= |s| {
      assert s[|s| - |ext|] in s;
      assert s[|s| - |ext|..][0] == s[|s| - |ext|];
    }
  }

  /** `../../x` on a sqldelight page leaves for the external site's latest version. */
  lemma SqldelightUpTwo(site: Site, relativePath: string, x: string)
    requires DocType(site, relativePath) == Some("sqldelight")
    requires site.hook("sqldelight", relativePath, "../../" + x) == [] && !SqlImage("../../" + x)
    ensures RewriteHref(site, relativePath, "../../" + x) == SqlLatest + x
  {
    var href := "../../" + x;
    HasAtParts("../../", x);
    Differs(href, "https://", 0);
    Differs(href, "http://", 0);
    Differs(href, "mailto:", 0);
    Differs(href, "#", 0);
    assert href[6..] == x;
    assert href[2] == '/';
    assert Sqldelight(relativePath, href) == Final(SqlLatest + x);
    SqldelightRules(site, relativePath, href);
  }

  /** On a sqldelight page, a link no earlier rule claims goes to the sqldelight rules. */
  lemma SqldelightRules(site: Site, relativePath: string, href: string)
    requires DocType(site, relativePath) == Some("sqldelight")
    requires site.hook("sqldelight", relativePath, href) == [] && !External(href) && !SqlImage(href) && !StartsWith(href, "#")
    ensures Sqldelight(relativePath, href).Final? ==> RewriteHref(site, relativePath, href) == Sqldelight(relativePath, href).href
    ensures Sqldelight(relativePath, href).Next? ==>
      RewriteHref(site, relativePath, href) == Fallback(site, relativePath, "sqldelight", Sqldelight(relativePath, href).href)
  {
    assert Adjusted("sqldelight", href) == href;
  }

  /** Every link of a doc type other than sqldelight that no earlier rule claims gets the
      locale, if any, and the doc type in front, after the koin and kotlin edits. */
  lemma Prefixed(site: Site, relativePath: string, href: string, d: string)
    requires DocType(site, relativePath) == Some(d) && d != "sqldelight"
    requires site.hook(d, relativePath, href) == [] && !External(href)
    requires d == "kotlin" ==> !KotlinImage(href)
    requires !KoinRelative(d, href)
    requires KeepsFragments(d) ==> !StartsWith(Adjusted(d, href), "#")
    ensures Locale(site, relativePath).None? ==> RewriteHref(site, relativePath, href) == "/" + d + Adjusted(d, href)
    ensures Locale(site, relativePath).Some? ==>
      RewriteHref(site, relativePath, href) == "/" + Locale(site, relativePath).value + "/" + d + Adjusted(d, href)
  {
    assert RewriteHref(site, relativePath, href) == Fallback(site, relativePath, d, Adjusted(d, href));
    FallbackForm(site, relativePath, d, Adjusted(d, href));
  }

  lemma FallbackForm(site: Site, relativePath: string, d: string, h: string)
    ensures Locale(site, relativePath).None? ==> Fallback(site, relativePath, d, h) == "/" + d + h
    ensures Locale(site, relativePath).Some? ==>
      Fallback(site, relativePath, d, h) == "/" + Locale(site, relativePath).value + "/" + d + h
  {
  }

  /** A koin link `/docs` + `x` loses its `/docs` before the doc type goes in front. */
  lemma KoinDocsDropped(site: Site, relativePath: string, x: string)
    requires DocType(site, relativePath) == Some("koin")
    requires site.hook("koin", relativePath, "/docs" + x) == []
    ensures Locale(site, relativePath).None? ==> RewriteHref(site, relativePath, "/docs" + x) == "/koin" + x
    ensures Locale(site, relativePath).Some? ==>
      RewriteHref(site, relativePath, "/docs" + x) == "/" + Locale(site, relativePath).value + "/koin" + x
  {
    var href := "/docs" + x;
    HasAtParts("/docs", x);
    Differs(href, "https://", 0);
    Differs(href, "http://", 0);
    Differs(href, "mailto:", 0);
    Differs(href, "./", 0);
    Differs(href, "../", 0);
    assert IndexOf(href, "/docs", 0) == Some(0);
    assert href[5..] == x;
    assert Adjusted("koin", href) == x;
    Prefixed(site, relativePath, href, "koin");
  }

  /** A kotlin link `a` + `.md` + `b`, with no `.` in `a`, loses that `.md` and gains a
      leading `/` before the doc type goes in front: `guide.md#x` becomes
      `/kotlin/guide#x`. */
  lemma KotlinMdDropped(site: Site, relativePath: string, href: string, a: string, b: string)
    requires DocType(site, relativePath) == Some("kotlin")
    requires href == a + ".md" + b && '.' !in a
    requires site.hook("kotlin", relativePath, href) == [] && !External(href) && !KotlinImage(href)
    ensures Locale(site, relativePath).None? ==> RewriteHref(site, relativePath, href) == "/kotlin/" + a + b
    ensures Locale(site, relativePath).Some? ==>
      RewriteHref(site, relativePath, href) == "/" + Locale(site, relativePath).value + "/kotlin/" + a + b
  {
    KotlinMdEdit(a, b);
    EditedPrefixed(site, relativePath, href, "/" + a + b);
    SlashJoined(a, b, Locale(site, relativePath));
  }

  lemma SlashJoined(a: string, b: string, locale: Option<string>)
    ensures "/kotlin" + ("/" + a + b) == "/kotlin/" + a + b
    ensures locale.Some? ==> "/" + locale.value + "/kotlin" + ("/" + a + b) == "/" + locale.value + "/kotlin/" + a + b
  {
  }

  /** A kotlin link whose edit gives a rooted path goes to the fallback with it. */
  lemma EditedPrefixed(site: Site, relativePath: string, href: string, h: string)
    requires DocType(site, relativePath) == Some("kotlin")
    requires site.hook("kotlin", relativePath, href) == [] && !External(href) && !KotlinImage(href)
    requires Adjusted("kotlin", href) == h && Rooted(h)
    ensures Locale(site, relativePath).None? ==> RewriteHref(site, relativePath, href) == "/kotlin" + h
    ensures Locale(site, relativePath).Some? ==>
      RewriteHref(site, relativePath, href) == "/" + Locale(site, relativePath).value + "/kotlin" + h
  {
    Differs(h, "#", 0);
    Prefixed(site, relativePath, href, "kotlin");
  }

  /** The kotlin edit on such a link. */
  lemma KotlinMdEdit(a: string, b: string)
    requires '.' !in a
    ensures Adjusted("kotlin", a + ".md" + b) == "/" + a + b
  {
    var href := a + ".md" + b;
    HasAtParts3(a, ".md", b);
    forall j | 0 <= j < |a| ensures !HasAt(href, j, ".md") {
      assert href[j] == a[j] && a[j] in a;
      assert href[j + 0] != ".md"[0];
    }
    IndexOfAt(href, ".md", 0, |a|);
    assert href[..|a|] == a && href[|a| + 3..] == b;
  }

  // ---------------------------------------------------------------------------------
  // Properties of the HTML patterns

  /** `\s*=\s*["']([^"']+)["']` laid out from `n`: blanks up to the `=` at `m`, blanks
      up to the opening quote at `v - 1`, a quote-free value up to the closing quote at
      `q`. */
  predicate ValueShape(s: string, n: nat, m: nat, v: nat, q: nat) {
    && n <= m && m + 1 < v < q < |s|
    && (forall k :: n <= k < m ==> IsSpace(s[k]))
    && s[m] == '='
    && (forall k :: m + 1 <= k < v - 1 ==> IsSpace(s[k]))
    && IsQuote(s[v - 1])
    && (forall k :: v <= k < q ==> NotQuote(s[k]))
    && IsQuote(s[q])
  }

  /** The value is found exactly where it is laid out. */
  lemma ValueAfterSound(s: string, n: nat)
    requires n <= |s| && ValueAfter(s, n).Some?
    ensures ValueShape(s, n, SkipSpace(s, n), ValueAfter(s, n).value.0, ValueAfter(s, n).value.1)
  {
    var e := SkipSpace(s, n);
    SkipSpaceIsSpan(s, n);
    SkipSpaceIsSpan(s, e + 1);
  }

  lemma ValueAfterExact(s: string, n: nat, m: nat, v: nat, q: nat)
    requires ValueShape(s, n, m, v, q)
    ensures ValueAfter(s, n) == Some((v, q))
  {
    SkipSpaceIsSpan(s, n);
    SpanExact(s, n, IsSpace, m);
    SkipSpaceIsSpan(s, m + 1);
    SpanExact(s, m + 1, IsSpace, v - 1);
    SpanExact(s, v, NotQuote, q);
  }

  /** The tail after the lazy group: the attribute name, the value, and the first `>`
      after the closing quote. */
  predicate TailShape(s: string, a: nat, attr: string, v: nat, q: nat, e: nat) {
    && a + |attr| <= |s| && HasAtIgnoreCase(s, a, attr)
    && ValueAfter(s, a + |attr|) == Some((v, q))
    && q + 1 < e <= |s| && s[e - 1] == '>'
    && (forall k :: q + 1 <= k < e - 1 ==> s[k] != '>')
  }

  lemma LinkTailIff(s: string, a: nat, attr: string, v: nat, q: nat, e: nat)
    ensures LinkTail(s, a, attr) == Some((v, q, e)) <==> TailShape(s, a, attr, v, q, e)
  {
    if TailShape(s, a, attr, v, q, e) {
      FindCharExact(s, '>', q + 1, e - 1);
    }
  }

  /** A tag match: `<tag`, a whole run of blanks, a lazy group without `>` in which the
      tail was not found earlier, and the tail. */
  predicate LinkShape(s: string, i: nat, tag: string, attr: string, l: Link) {
    && HasAtIgnoreCase(s, i, "<" + tag)
    && i + |tag| + 1 < l.before <= l.name <= |s|
    && (forall k :: i + |tag| + 1 <= k < l.before ==> IsSpace(s[k]))
    && (l.before < |s| ==> !IsSpace(s[l.before]))
    && (forall k :: l.before <= k < l.name ==> s[k] != '>' && LinkTail(s, k, attr).None?)
    && LinkTail(s, l.name, attr) == Some((l.value, l.close, l.end))
  }

  /** The tag patterns match exactly where a tag is laid out as they describe. */
  lemma LinkAtIff(s: string, i: nat, tag: string, attr: string, l: Link)
    ensures LinkAt(s, i, tag, attr) == Some(l) <==> LinkShape(s, i, tag, attr, l)
  {
    if LinkAt(s, i, tag, attr) == Some(l) {
      LinkAtSound(s, i, tag, attr);
    }
    if LinkShape(s, i, tag, attr, l) {
      LinkAtExact(s, i, tag, attr, l);
    }
  }

  lemma LinkAtSound(s: string, i: nat, tag: string, attr: string)
    requires LinkAt(s, i, tag, attr).Some?
    ensures LinkShape(s, i, tag, attr, LinkAt(s, i, tag, attr).value)
  {
    var l := LinkAt(s, i, tag, attr).value;
    LazyUntilFirst(s, l.before, '>', LinkTails(attr));
    forall k | l.before <= k < l.name ensures LinkTail(s, k, attr).None? {
      assert LinkTails(attr)(s, k).None?;
    }
  }

  lemma LinkAtExact(s: string, i: nat, tag: string, attr: string, l: Link)
    requires LinkShape(s, i, tag, attr, l)
    ensures LinkAt(s, i, tag, attr) == Some(l)
  {
    SpanExact(s, i + |tag| + 1, IsSpace, l.before);
    forall k | l.before <= k < l.name ensures LinkTails(attr)(s, k).None? {
      assert LinkTail(s, k, attr).None?;
    }
    LazyUntilFinds(s, l.before, '>', LinkTails(attr), l.name);
    assert LazyUntil(s, l.before, '>', LinkTails(attr)) == Some((l.name, (l.value, l.close, l.end)));
    assert Span(s, i + |tag| + 1, IsSpace) == l.before;
  }

  /** The attribute tail at the blank `b`: `src` or `href`, and the value. */
  predicate AttrTailShape(s: string, b: nat, v: nat, q: nat) {
    && b < |s| && IsSpace(s[b])
    && ((HasAtIgnoreCase(s, b + 1, "src") && ValueAfter(s, b + 4) == Some((v, q)))
        || (HasAtIgnoreCase(s, b + 1, "href") && ValueAfter(s, b + 5) == Some((v, q))))
  }

  lemma AttrTailIff(s: string, b: nat, v: nat, q: nat)
    ensures AttrTail(s, b) == Some(Attr(b, v, q)) <==> AttrTailShape(s, b, v, q)
  {
    if HasAtIgnoreCase(s, b + 1, "href") {
      assert SameIgnoringCase(s[b + 1 + 0], "href"[0]);
      assert LowerAscii(s[b + 1]) == 'h';
      assert !SameIgnoringCase(s[b + 1 + 0], "src"[0]);
      assert !HasAtIgnoreCase(s, b + 1, "src");
    }
  }

  /** An attribute match: `<`, a lazy group without `>` in which the tail was not found
      earlier, and the tail. */
  predicate AttrShape(s: string, i: nat, a: Attr) {
    && i < a.blank < |s| && s[i] == '<'
    && (forall k :: i + 1 <= k < a.blank ==> s[k] != '>' && AttrTail(s, k).None?)
    && AttrTail(s, a.blank) == Some(a)
  }

  /** The attribute pattern matches exactly where an attribute is laid out as it
      describes. */
  lemma AttrAtIff(s: string, i: nat, a: Attr)
    ensures AttrAt(s, i) == Some(a) <==> AttrShape(s, i, a)
  {
    if AttrAt(s, i) == Some(a) {
      AttrAtSound(s, i);
    }
    if AttrShape(s, i, a) {
      AttrAtExact(s, i, a);
    }
  }

  lemma AttrAtSound(s: string, i: nat)
    requires AttrAt(s, i).Some?
    ensures AttrShape(s, i, AttrAt(s, i).value)
  {
    LazyUntilFirst(s, i + 1, '>', AttrTail);
  }

  lemma AttrAtExact(s: string, i: nat, a: Attr)
    requires AttrShape(s, i, a)
    ensures AttrAt(s, i) == Some(a)
  {
    var tail: (string, nat) -> Option<Attr> := AttrTail;
    forall k | i + 1 <= k < a.blank ensures s[k] != '>' && tail(s, k).None? {
      assert AttrTail(s, k).None?;
    }
    LazyUntilFinds(s, i + 1, '>', tail, a.blank);
    assert LazyUntil(s, i + 1, '>', AttrTail) == Some((a.blank, a));
  }

  // ---------------------------------------------------------------------------------
  // Properties of the HTML passes

  /** The tag at `j`, if any, has an absolute value. */
  predicate KeptLinkAt(s: string, j: nat, tag: string, attr: string) {
    match LinkAt(s, j, tag, attr)
    case None => true
    case Some(l) => KeptInline(s[l.value..l.close])
  }

  /** Where every tag already has a `/…` or `http…` value, the inline pass changes
      nothing. */
  lemma LinkPassKeeps(content: string, tag: string, attr: string, rewrite: string -> string)
    requires forall j :: 0 <= j < |content| ==> KeptLinkAt(content, j, tag, attr)
    ensures LinkPass(content, tag, attr, rewrite) == content
  {
    var m := LinkEnd(tag, attr);
    var rep := LinkReplacer(tag, attr, rewrite);
    forall j | 0 <= j < |content| && MatchesAt(m, content, j)
      ensures rep(content, j, m(content, j).value) == content[j..m(content, j).value]
    {
      assert KeptLinkAt(content, j, tag, attr);
    }
    KeepingUnchanged(content, 0, m, rep);
  }

  /** The attribute at `j`, if any, has an absolute value. */
  predicate KeptAttrAt(s: string, j: nat) {
    match AttrAt(s, j)
    case None => true
    case Some(a) => KeptBlock(s[a.value..a.close])
  }

  /** Where every `src`/`href` of an HTML block is already absolute, the block is left
      as it is, both as written and as intended. */
  lemma AttributesKeep(content: string, rewrite: string -> string)
    requires forall j :: 0 <= j < |content| ==> KeptAttrAt(content, j)
    ensures RewriteAttributes(content, rewrite) == content
    ensures RewriteAttributesAsWritten(content, rewrite) == content
  {
    forall j | 0 <= j < |content| && MatchesAt(AttrEnd, content, j)
      ensures AttrReplacer(rewrite)(content, j, AttrEnd(content, j).value) == content[j..AttrEnd(content, j).value]
      ensures AttrReplacerAsWritten(rewrite)(content, j, AttrEnd(content, j).value) == content[j..AttrEnd(content, j).value]
    {
      assert KeptAttrAt(content, j);
      var a := AttrAt(content, j).value;
      assert AttrEnd(content, j).value == a.close + 1;
      assert Replacement(content, j, a, rewrite) == content[j..a.close + 1];
      assert ReplacementAsWritten(content, j, a, rewrite) == content[j..a.close + 1];
    }
    KeepingUnchanged(content, 0, AttrEnd, AttrReplacer(rewrite));
    KeepingUnchanged(content, 0, AttrEnd, AttrReplacerAsWritten(rewrite));
  }

  /** The intended replacement changes the value and nothing else: the text up to the
      value, the new value, and the closing quote. */
  lemma AttrReplacedInPlace(s: string, j: nat, a: Attr, rewrite: string -> string)
    requires j <= a.value <= a.close < |s| && !KeptBlock(s[a.value..a.close])
    ensures var r := Replacement(s, j, a, rewrite); var x := rewrite(s[a.value..a.close]);
      && |r| == a.value - j + |x| + 1
      && HasAt(r, 0, s[j..a.value]) && HasAt(r, a.value - j, x) && r[|r| - 1] == s[a.close]
  {
    var x, z := rewrite(s[a.value..a.close]), s[a.close..a.close + 1];
    var r := s[j..a.value] + x + z;
    assert Replacement(s, j, a, rewrite) == r;
    HasAtParts3(s[j..a.value], x, z);
    assert r[|r| - 1] == z[0];
  }

  /** The value's first occurrence in the match at `j` is the attribute's own. */
  predicate ValueFirst(s: string, j: nat, a: Attr)
    requires j <= a.value <= a.close < |s|
  {
    IndexOf(s[j..a.close + 1], s[a.value..a.close], 0) == Some(a.value - j)
  }

  predicate ValueFirstAt(s: string, j: nat) {
    match AttrAt(s, j)
    case None => true
    case Some(a) => ValueFirst(s, j, a)
  }

  lemma ReplacementsAgree(s: string, j: nat, a: Attr, rewrite: string -> string)
    requires j <= a.value <= a.close < |s| && ValueFirst(s, j, a)
    ensures ReplacementAsWritten(s, j, a, rewrite) == Replacement(s, j, a, rewrite)
  {
    var m := s[j..a.close + 1];
    assert m[..a.value - j] == s[j..a.value];
    assert m[a.value - j + |s[a.value..a.close]|..] == s[a.close..a.close + 1];
  }

  /** As written and as intended agree wherever no value also occurs earlier in its own
      match. */
  lemma AsWrittenAgrees(content: string, rewrite: string -> string)
    requires forall j :: 0 <= j < |content| ==> ValueFirstAt(content, j)
    ensures RewriteAttributesAsWritten(content, rewrite) == RewriteAttributes(content, rewrite)
  {
    forall j | 0 <= j < |content| && MatchesAt(AttrEnd, content, j)
      ensures AttrReplacerAsWritten(rewrite)(content, j, AttrEnd(content, j).value) == AttrReplacer(rewrite)(content, j, AttrEnd(content, j).value)
    {
      assert ValueFirstAt(content, j);
      ReplacementsAgree(content, j, AttrAt(content, j).value, rewrite);
    }
    SameReplacements(content, 0, AttrEnd, AttrReplacerAsWritten(rewrite), AttrReplacer(rewrite));
  }

  /** `<a href="a">`: the one attribute match, and the text after it. */
  const Example := "<a href=\"a\">"

  lemma ExampleMatch()
    ensures AttrAt(Example, 0) == Some(Attr(2, 9, 10)) && AttrEnd(Example, 0) == Some(11)
  {
    ExampleTail();
    assert Example[0] == '<';
    forall k | 1 <= k < 2 ensures Example[k] != '>' && AttrTail(Example, k).None? {
      ExampleNoTail();
    }
    AttrAtExact(Example, 0, Attr(2, 9, 10));
  }

  lemma ExampleTail()
    ensures AttrTail(Example, 2) == Some(Attr(2, 9, 10))
  {
    ValueAfterExact(Example, 7, 7, 9, 10);
    assert HasAtIgnoreCase(Example, 3, "href");
    AttrTailIff(Example, 2, 9, 10);
  }

  lemma ExampleNoTail()
    ensures AttrTail(Example, 1).None?
  {
    assert !IsSpace(Example[1]);
  }

  lemma ExampleRest(rep: Replacer)
    ensures ReplaceFrom(Example, 11, AttrEnd, rep) == ">"
  {
    assert AttrAt(Example, 11).None?;
    assert ReplaceFrom(Example, 12, AttrEnd, rep) == [];
  }

  lemma NotKeptA()
    ensures !KeptBlock("a")
  {
    assert "a"[0 + 0] != "/"[0];
  }

  lemma ExampleAsWritten(rewrite: string -> string)
    ensures ReplacementAsWritten(Example, 0, Attr(2, 9, 10), rewrite) == "<" + rewrite("a") + " href=\"a\""
  {
    var m := Example[0..11];
    assert m == "<a href=\"a\"";
    assert Example[9..10] == "a";
    NotKeptA();
    assert m[0 + 0] == '<' && m[1 + 0] == 'a';
    assert !HasAt(m, 0, "a") && HasAt(m, 1, "a");
    IndexOfAt(m, "a", 0, 1);
  }

  lemma ExampleIntended(rewrite: string -> string)
    ensures Replacement(Example, 0, Attr(2, 9, 10), rewrite) == "<a href=\"" + rewrite("a") + "\""
  {
    assert Example[9..10] == "a";
    NotKeptA();
    assert Example[0..9] == "<a href=\"";
    assert Example[10..11] == "\"";
  }

  /** `<a href="a">` in an HTML block: as written, the new value replaces the tag name
      `a`, the first `a` of the match, and the link keeps its old target; as intended,
      the link gets the new target. */
  lemma TagNameOverwritten(rewrite: string -> string)
    ensures RewriteAttributesAsWritten(Example, rewrite) == "<" + rewrite("a") + " href=\"a\">"
    ensures RewriteAttributes(Example, rewrite) == "<a href=\"" + rewrite("a") + "\">"
  {
    ExampleMatch();
    assert MatchesAt(AttrEnd, Example, 0);
    FirstMatchAt(Example, 0, AttrEnd, 0);
    ExampleAsWritten(rewrite);
    ExampleRest(AttrReplacerAsWritten(rewrite));
    FirstAt(Example, AttrEnd, AttrReplacerAsWritten(rewrite), 0, 11, "<" + rewrite("a") + " href=\"a\"");
    ExampleIntended(rewrite);
    ExampleRest(AttrReplacer(rewrite));
    FirstAt(Example, AttrEnd, AttrReplacer(rewrite), 0, 11, "<a href=\"" + rewrite("a") + "\"");
  }

  // ---------------------------------------------------------------------------------
  // Properties of the two core rules

  /** Before inline parsing only the contents of HTML blocks and of non-empty `inline`
      tokens change: an HTML block's attributes are rewritten as written, an `inline`
      token's `<img>` and `<a>` tags by the two inline patterns. */
  lemma BeforeInlineKeeps(tokens: seq<Token>, rewrite: string -> string)
    ensures var r := BeforeInline(tokens, rewrite);
      forall k :: 0 <= k < |tokens| ==>
        && r[k].kind == tokens[k].kind && r[k].attrs == tokens[k].attrs && r[k].children == tokens[k].children
        && (tokens[k].kind == "html_block" ==> r[k].content == RewriteAttributesAsWritten(tokens[k].content, rewrite))
        && (tokens[k].kind == "inline" && tokens[k].content != [] ==> r[k].content == RewriteInline(tokens[k].content, rewrite))
        && (tokens[k].kind != "html_block" && (tokens[k].kind != "inline" || tokens[k].content == []) ==> r[k] == tokens[k])
  {
  }

  /** An HTML block whose `src`/`href` values are all absolute comes through the rule
      unchanged. */
  lemma AbsoluteBlockKept(tokens: seq<Token>, rewrite: string -> string, k: nat)
    requires k < |tokens| && tokens[k].kind == "html_block"
    requires forall j :: 0 <= j < |tokens[k].content| ==> KeptAttrAt(tokens[k].content, j)
    ensures BeforeInline(tokens, rewrite)[k] == tokens[k]
  {
    AttributesKeep(tokens[k].content, rewrite);
  }

  /** The rule itself shows the defect: an HTML block `<a href="a">` gets the new value
      in place of its tag name and keeps its old target. */
  lemma BlockTagNameOverwritten(rewrite: string -> string)
    ensures BeforeInline([Token("html_block", Example, [], [])], rewrite)[0].content
      == "<" + rewrite("a") + " href=\"a\">"
  {
    TagNameOverwritten(rewrite);
  }

  /** After inline parsing only the `href` of links and the `src` of images among the
      children of `inline` tokens change; every other attribute, child and token is
      kept. */
  lemma AfterInlineKeeps(tokens: seq<Token>, rewrite: string -> string)
    ensures var r := AfterInline(tokens, rewrite);
      forall k :: 0 <= k < |tokens| ==>
        && r[k].kind == tokens[k].kind && r[k].content == tokens[k].content && r[k].attrs == tokens[k].attrs
        && |r[k].children| == |tokens[k].children|
        && (tokens[k].kind != "inline" ==> r[k] == tokens[k])
        && forall j :: 0 <= j < |tokens[k].children| ==>
             var c := tokens[k].children[j];
             var d := r[k].children[j];
             && d.kind == c.kind && d.content == c.content && d.children == c.children && |d.attrs| == |c.attrs|
             && forall n :: 0 <= n < |c.attrs| ==>
                  && d.attrs[n].0 == c.attrs[n].0
                  && (d.attrs[n].1 != c.attrs[n].1 ==>
                       tokens[k].kind == "inline"
                       && ((c.kind == "link_open" && c.attrs[n].0 == "href") || (c.kind == "image" && c.attrs[n].0 == "src")))
  {
  }

  /** The `href` of every link among the children of an `inline` token is rewritten. */
  lemma LinksRewritten(tokens: seq<Token>, rewrite: string -> string, k: nat, j: nat, n: nat)
    requires k < |tokens| && tokens[k].kind == "inline" && j < |tokens[k].children|
    requires tokens[k].children[j].kind == "link_open" && n < |tokens[k].children[j].attrs|
    requires tokens[k].children[j].attrs[n].0 == "href"
    ensures AfterInline(tokens, rewrite)[k].children[j].attrs[n] == ("href", rewrite(tokens[k].children[j].attrs[n].1))
  {
  }
}
