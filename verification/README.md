# Open-Docs render-time rewriting, modelled in Dafny

Open-Docs republishes the documentation of several Kotlin-ecosystem projects (Kotlin,
Ktor, Koin, Kotlin Multiplatform, SQLDelight, Coil, Koog) as a VitePress site. The
documentation is written for Writerside or for Material for MkDocs. A set of markdown-it
plugins rewrites those dialects into what VitePress renders while the site is built. The
translation server helps bring pages into other languages.

This project models the text-rewriting core of both parts:

- **Source rewrites before block parsing**, one module per plugin:
  - `ClassStyles` removes `{:.class}` markers.
  - `RemoveCodeAttr` removes attribute blocks under fences.
  - `ContributeUrl` removes `<contribute-url>` tags and `TEST_NAME` comments.
  - `LiquidCondition` removes `{% if %}…{% endif %}` blocks.
  - `LiquidInclude` turns `{% include %}` into VitePress includes.
  - `MkVars` resolves `{{ versions.x }}`.
  - `WsVars` resolves Writerside `<var>` and `%name%`.
  - `WsFrontmatter` turns a title comment into a heading.
  - `WsContainer` turns styled blockquotes into containers.
  - `Admonitions` turns `!!!` admonitions into containers.
  - `CodeGroup` turns `===` code tabs into code groups.
  - `ContentTabs` turns `===` content tabs into `<tabs>`/`<tab>`.
  - `HlLines` turns `hl_lines="X"` into `{X}`.
  - `AutoTitle` prepends a page title.
- **Token rewrites and renderers**:
  - `TopicTitle` turns headings with a primary label into `<TopicTitle>`.
  - `InlineLink` rewrites links.
  - `Assets` prefixes image paths.
  - `RemoveScript` removes `<script>` elements.
  - `DiffCodeBlock` adds the title bar of `diff` fences.
  - `DiffMarker` is the Shiki transformer that removes `{++ ++}` markers.
- **The translation server's pure helpers**:
  - `TranslateServer` holds the clean-up of a model's answer and the target path.
  - `FileTree` holds the listing filter and the sorted documentation tree.

Shared pieces:

- `Strings` holds string functions with JavaScript's meaning: `startsWith`, `indexOf`,
  `trim`, `split`, `join`.
- `Rewrite` is `String.prototype.replace` with a global pattern. It takes a matcher that
  gives the end of the match at each position and a replacer. It searches left to right
  and resumes after each match. A match is never empty: every pattern of the modelled
  rules consumes at least one character.
- `LazySearch` holds the lazy `[^c]*?` search that the link and image patterns share.

Each regular expression of the source is modelled as a matcher. Two lemmas tie each
matcher to the pattern's text:

- *Recognised*: everything written in the pattern's shape is matched, to the end the
  engine reaches.
- *Sound*: everything matched is written in that shape.

Each rule then has lemmas about the rewrite as a whole: what happens to the first match,
and which sources come through unchanged.

A plugin is modelled as a pure function from the source (or the token list) to the new
one. Callbacks the plugin receives or calls are parameters:

- the previous renderer;
- `slugify`, `unescapeAll` and `escapeHtml`;
- the gray-matter title and the sidebar title;
- the doc-type hook of the link rewriter;
- `localeCompare`.

File reads are parameters holding the text of the file.

## Model

| member | source | states |
|---|---|---|
| ClassStyles.StyleRecognised | docs/.vitepress/plugins/markdown/writerside/markdown-it-ws-classstyles.ts:7 | every `{:.a.b}` marker (a dot-separated path of `[\w-]` names in `{: }`) is matched, ending at its own `}` |
| ClassStyles.StyleSound | docs/.vitepress/plugins/markdown/writerside/markdown-it-ws-classstyles.ts:7 | everything matched is such a marker |
| ClassStyles.FirstStyleRemoved | docs/.vitepress/plugins/markdown/writerside/markdown-it-ws-classstyles.ts:5-11 | the first marker is deleted, the text before it kept, and the search resumes after it |
| ClassStyles.NoMarkerUnchanged | docs/.vitepress/plugins/markdown/writerside/markdown-it-ws-classstyles.ts:5-11 | a source holding no marker reaches the parser unchanged |
| RemoveCodeAttr.AttrRecognised | docs/.vitepress/plugins/markdown/writerside/markdown-it-ws-remove-code-attr.ts:4 | every `{…}` block written under a bare opening fence is matched to its first `}`, and its indentation is read back |
| RemoveCodeAttr.AttrReadBack | docs/.vitepress/plugins/markdown/writerside/markdown-it-ws-remove-code-attr.ts:4 | the matcher finds the landmarks of a block laid out under a fence |
| RemoveCodeAttr.AttrSound | docs/.vitepress/plugins/markdown/writerside/markdown-it-ws-remove-code-attr.ts:4 | everything matched is an attribute block under a fence |
| RemoveCodeAttr.FirstAttrRemoved | docs/.vitepress/plugins/markdown/writerside/markdown-it-ws-remove-code-attr.ts:2-9 | the first block goes while its indentation and the fence stay; the search resumes after its `}` |
| RemoveCodeAttr.NoFenceUnchanged | docs/.vitepress/plugins/markdown/writerside/markdown-it-ws-remove-code-attr.ts:2-9 | a source with no ```` ``` ```` followed by a line break is unchanged |
| ContributeUrl.UrlRecognised | docs/.vitepress/plugins/markdown/common/markdown-it-remove-contribute-url.ts:15 | a `<contribute-url>` element on one line is matched together with all the whitespace after it |
| ContributeUrl.UrlSound | docs/.vitepress/plugins/markdown/common/markdown-it-remove-contribute-url.ts:15 | everything matched is the opening tag, one-line text, the first closing tag and the whitespace after it |
| ContributeUrl.CommentRecognised | docs/.vitepress/plugins/markdown/common/markdown-it-remove-contribute-url.ts:18 | a `<!--- TEST_NAME …-->` comment is matched with the whitespace after it |
| ContributeUrl.CommentSound | docs/.vitepress/plugins/markdown/common/markdown-it-remove-contribute-url.ts:18 | everything matched is such a comment, ending at the first `-->` |
| ContributeUrl.FirstUrlRemoved | docs/.vitepress/plugins/markdown/common/markdown-it-remove-contribute-url.ts:13-15 | the first link is deleted, the text before it kept |
| ContributeUrl.FirstCommentRemoved | docs/.vitepress/plugins/markdown/common/markdown-it-remove-contribute-url.ts:17-18 | the second pass deletes the first test-name comment in the same way |
| ContributeUrl.NoTagUnchanged | docs/.vitepress/plugins/markdown/common/markdown-it-remove-contribute-url.ts:13-22 | a source with neither opening reaches the parser unchanged |
| RemoveScript.ScriptRecognised | docs/.vitepress/plugins/markdown/common/markdown-it-remove-script.ts:15 | an opening `<script` at a word boundary followed by a closing tag, in any case, is one element ending at the first closing tag |
| RemoveScript.ScriptSound | docs/.vitepress/plugins/markdown/common/markdown-it-remove-script.ts:15 | everything matched is an opening, text without a closing tag, and that closing tag |
| RemoveScript.UnterminatedKept | docs/.vitepress/plugins/markdown/common/markdown-it-remove-script.ts:15 | an opening with no closing tag after it is not removed |
| RemoveScript.FirstScriptRemoved | docs/.vitepress/plugins/markdown/common/markdown-it-remove-script.ts:13-16 | the first element is deleted and the search resumes after it |
| RemoveScript.RenderRemoves | docs/.vitepress/plugins/markdown/common/markdown-it-remove-script.ts:10-31 | with a lower-case `<script` and an element the pattern finds, the printed text is strictly shorter than the content and begins with everything before the first element; with a lower-case `<script` but no element the raw content is printed, bypassing the previous renderer; without one the previous renderer decides |
| RemoveScript.UpperCaseScriptKept | docs/.vitepress/plugins/markdown/common/markdown-it-remove-script.ts:13-18 | content whose only elements are upper case, such as `<SCRIPT></SCRIPT>`, is printed with the element kept, although the pattern would remove it |
| RemoveScript.FixedRemovesEveryScript | docs/.vitepress/plugins/markdown/common/markdown-it-remove-script.ts:13-16 | with a guard that ignores case, every recognised element is removed, and the previous renderer only sees content the pattern leaves unchanged |
| RemoveScript.FixedAgrees | docs/.vitepress/plugins/markdown/common/markdown-it-remove-script.ts:13-18 | the corrected guard behaves as written whenever `<script` appears in lower case |
| LiquidCondition.IfTagRecognised | docs/.vitepress/plugins/markdown/mkdocs/markdown-it-mk-liquid-condition.ts:25 | every one-line `{% if … %}` tag is matched to its end |
| LiquidCondition.IfTagSound | docs/.vitepress/plugins/markdown/mkdocs/markdown-it-mk-liquid-condition.ts:25 | everything matched as an if tag is `{%`, spaces, `if`, at least one space, then a one-line condition up to the first `%}` |
| LiquidCondition.EndifRecognised | docs/.vitepress/plugins/markdown/mkdocs/markdown-it-mk-liquid-condition.ts:25 | every `{% endif %}` tag, spaces optional, is matched |
| LiquidCondition.BlockRecognised | docs/.vitepress/plugins/markdown/mkdocs/markdown-it-mk-liquid-condition.ts:25 | an if tag is deleted through the first endif tag after it, so a nested block leaves its outer `{% endif %}` behind |
| LiquidCondition.BlockSound | docs/.vitepress/plugins/markdown/mkdocs/markdown-it-mk-liquid-condition.ts:25 | everything deleted is an if tag, text without an endif tag, and an endif tag |
| LiquidCondition.FirstBlockRemoved | docs/.vitepress/plugins/markdown/mkdocs/markdown-it-mk-liquid-condition.ts:23-29 | the first block is deleted, the text before it kept |
| LiquidCondition.NoTagUnchanged | docs/.vitepress/plugins/markdown/mkdocs/markdown-it-mk-liquid-condition.ts:23-29 | a source without `{%` reaches the parser unchanged |
| LiquidInclude.DirectiveRecognised | docs/.vitepress/plugins/markdown/mkdocs/markdown-it-mk-Include.ts:13 | every `{% include 'path' %}` with either quote is matched and its path read back verbatim |
| LiquidInclude.DirectiveReadBack | docs/.vitepress/plugins/markdown/mkdocs/markdown-it-mk-Include.ts:13 | the matcher finds the landmarks of a written directive |
| LiquidInclude.DirectiveSound | docs/.vitepress/plugins/markdown/mkdocs/markdown-it-mk-Include.ts:13 | everything matched is a written directive with a quote-free path |
| LiquidInclude.FirstDirectiveReplaced | docs/.vitepress/plugins/markdown/mkdocs/markdown-it-mk-Include.ts:16-18 | the first directive becomes `<!--@include: ../path-->` and the text before it is kept |
| LiquidInclude.NoDirectiveUnchanged | docs/.vitepress/plugins/markdown/mkdocs/markdown-it-mk-Include.ts:8-21 | a source without `{%` is unchanged |
| MkVars.PlaceholderRecognised | docs/.vitepress/plugins/markdown/mkdocs/markdown-it-mk-vars.ts:30 | every `{{ versions.name }}` with optional spaces is matched and its name read back |
| MkVars.PlaceholderSound | docs/.vitepress/plugins/markdown/mkdocs/markdown-it-mk-vars.ts:30 | everything matched is `{{`, spaces, `versions.`, a `\w` name, spaces, `}}` |
| MkVars.FirstPlaceholderReplaced | docs/.vitepress/plugins/markdown/mkdocs/markdown-it-mk-vars.ts:32-39 | the first placeholder becomes the file's value when it defines the name, and stays as written otherwise |
| MkVars.UndefinedUnchanged | docs/.vitepress/plugins/markdown/mkdocs/markdown-it-mk-vars.ts:32-39 | placeholders of names the file lacks, or all of them when it has no `versions`, are kept verbatim |
| MkVars.NoBracesUnchanged | docs/.vitepress/plugins/markdown/mkdocs/markdown-it-mk-vars.ts:26-42 | a source without `{{` is unchanged whatever the file holds |
| DiffMarker.RemoveDiffMarkers | docs/.vitepress/plugins/shiki/shiki-remove-diff-marker.ts:8-14 | every token of every line keeps its place and gets its content with the six markers removed; nothing else of a token changes |
| DiffMarker.FirstMarkerRemoved | docs/.vitepress/plugins/shiki/shiki-remove-diff-marker.ts:5-11 | the first marker's three characters go and the search resumes after them |
| DiffMarker.TokenShrinksIffMarked | docs/.vitepress/plugins/shiki/shiki-remove-diff-marker.ts:8-14 | a token's text comes out shorter if and only if it held one of the six markers, and its attributes are kept |
| DiffMarker.StripShortens | docs/.vitepress/plugins/shiki/shiki-remove-diff-marker.ts:11 | text without a marker is kept; text with one gets strictly shorter |
| DiffMarker.CleanLinesUnchanged | docs/.vitepress/plugins/shiki/shiki-remove-diff-marker.ts:8-14 | lines whose tokens hold no marker come back unchanged |
| DiffMarker.SplitMarkerKept | docs/.vitepress/plugins/shiki/shiki-remove-diff-marker.ts:9-13 | a marker split over two tokens (`{+`, `+`) is kept, since each token is searched alone |
| DiffCodeBlock.CleanInfo | docs/.vitepress/plugins/markdown/mkdocs/markdown-it-mk-diff-code-block.ts:11 | the inspected info string is empty for an absent info and never starts or ends with whitespace |
| DiffCodeBlock.FirstWord | docs/.vitepress/plugins/markdown/mkdocs/markdown-it-mk-diff-code-block.ts:17-20 | the language is a prefix of the info string without whitespace, followed by whitespace or the end |
| DiffCodeBlock.FirstWordOf | docs/.vitepress/plugins/markdown/mkdocs/markdown-it-mk-diff-code-block.ts:17-20 | a word followed by whitespace or the end is the language, whatever follows |
| DiffCodeBlock.TitleRecognised | docs/.vitepress/plugins/markdown/mkdocs/markdown-it-mk-diff-code-block.ts:25 | a whole-word `title="v"` with no quote before it is found and `v` read back |
| DiffCodeBlock.TitleSound | docs/.vitepress/plugins/markdown/mkdocs/markdown-it-mk-diff-code-block.ts:25-28 | a title found is the value of the first whole-word `title="…"`, quote-free and closed by a quote |
| DiffCodeBlock.GluedTitleIgnored | docs/.vitepress/plugins/markdown/mkdocs/markdown-it-mk-diff-code-block.ts:25 | `subtitle="…"` and any `title="` after a word character is no title |
| DiffCodeBlock.DiffWithTitle | docs/.vitepress/plugins/markdown/mkdocs/markdown-it-mk-diff-code-block.ts:32-42 | a `diff` fence with a title renders as the container around the escaped title bar and the previous rendering |
| DiffCodeBlock.DiffFirst | docs/.vitepress/plugins/markdown/mkdocs/markdown-it-mk-diff-code-block.ts:17-19 | info text starting with `diff` and whitespace has the language `diff` |
| DiffCodeBlock.OtherLanguageDefault | docs/.vitepress/plugins/markdown/mkdocs/markdown-it-mk-diff-code-block.ts:32-46 | any other first word, `diff-x` included, renders as before |
| DiffCodeBlock.UntitledDefault | docs/.vitepress/plugins/markdown/mkdocs/markdown-it-mk-diff-code-block.ts:32-46 | a `diff` fence without a whole-word title renders as before |
| DiffCodeBlock.NoInfoDefault | docs/.vitepress/plugins/markdown/mkdocs/markdown-it-mk-diff-code-block.ts:11-16 | a fence without info renders as before |
| DiffCodeBlock.CodeKept | docs/.vitepress/plugins/markdown/mkdocs/markdown-it-mk-diff-code-block.ts:37-46 | the previous rendering is always part of the output, and all of it unless the title container wraps it |
| AutoTitle.FindH1 | docs/.vitepress/plugins/markdown/common/markdown-it-auto-title.ts:29-34 | the loop reports a heading exactly when one of the first twenty lines, trimmed, starts with `# ` |
| AutoTitle.StripSound | docs/.vitepress/plugins/markdown/common/markdown-it-auto-title.ts:42 | removed frontmatter starts the text: `---`, everything up to the first `---` after it, and every newline after that |
| AutoTitle.StripRecognised | docs/.vitepress/plugins/markdown/common/markdown-it-auto-title.ts:42 | frontmatter written as `---`, a body without `---`, `---` and newlines is removed exactly, leaving what follows |
| AutoTitle.NoFrontmatterKept | docs/.vitepress/plugins/markdown/common/markdown-it-auto-title.ts:42 | text that does not start with `---` keeps everything |
| AutoTitle.HeadingPrepended | docs/.vitepress/plugins/markdown/common/markdown-it-auto-title.ts:13-47 | the parser gets the source without condition blocks; a heading is prepended iff the page has a doc type other than `kotlin`, no H1 in its first twenty lines, and a title |
| AutoTitle.PrependChanges | docs/.vitepress/plugins/markdown/common/markdown-it-auto-title.ts:42-43 | prepending a heading always changes the text |
| AutoTitle.KotlinUntitled | docs/.vitepress/plugins/markdown/common/markdown-it-auto-title.ts:20-23 | `kotlin` pages and pages of no doc type only lose their condition blocks |
| AutoTitle.TitledPage | docs/.vitepress/plugins/markdown/common/markdown-it-auto-title.ts:41-44 | without frontmatter the output is `# title`, a blank line, then the page |
| WsFrontmatter.TitleRecognised | docs/.vitepress/plugins/markdown/writerside/markdown-it-ws-frontmatter.ts:4 | every `[//]: # (title: …)` comment, opening in any case, is matched with its text up to the first `)` |
| WsFrontmatter.TitleSound | docs/.vitepress/plugins/markdown/writerside/markdown-it-ws-frontmatter.ts:4 | everything matched is such a comment |
| WsFrontmatter.TitleOfLine | docs/.vitepress/plugins/markdown/writerside/markdown-it-ws-frontmatter.ts:19-20 | the title of a line starting with a comment is the comment's text, trimmed |
| WsFrontmatter.LabelRecognised | docs/.vitepress/plugins/markdown/writerside/markdown-it-ws-frontmatter.ts:5 | every `<primary-label ref="v"/>` with a non-empty quote-free value is matched |
| WsFrontmatter.LabelSound | docs/.vitepress/plugins/markdown/writerside/markdown-it-ws-frontmatter.ts:5 | everything matched is such a label |
| WsFrontmatter.LabelOfLine | docs/.vitepress/plugins/markdown/writerside/markdown-it-ws-frontmatter.ts:25 | the label of a line starting with one is its value |
| WsFrontmatter.NoTitleKept | docs/.vitepress/plugins/markdown/writerside/markdown-it-ws-frontmatter.ts:13-16 | a source with no title comment is handed on unchanged |
| WsFrontmatter.FirstTitleUsed | docs/.vitepress/plugins/markdown/writerside/markdown-it-ws-frontmatter.ts:13-40 | otherwise the heading comes from the first line with a comment, and the whole source follows it after a blank line |
| WsFrontmatter.RefFromWindow | docs/.vitepress/plugins/markdown/writerside/markdown-it-ws-frontmatter.ts:22-30 | the label is taken from the first of the four lines after the title that offers one, and from no other line |
| WsFrontmatter.BlankLabelStops | docs/.vitepress/plugins/markdown/writerside/markdown-it-ws-frontmatter.ts:24-37 | a label whose value is only whitespace ends the search, so the title becomes a `# ` heading even if a later line has a label |
| WsContainer.ContainerRecognised | docs/.vitepress/plugins/markdown/writerside/markdown-it-ws-container.ts:7 | every run of CRLF-ended quoted lines followed by a `{style="…"}` or `{type="…"}` line is matched to the end of its style line |
| WsContainer.ContainerSound | docs/.vitepress/plugins/markdown/writerside/markdown-it-ws-container.ts:7 | everything matched is such a styled blockquote |
| WsContainer.StyleRecognised | docs/.vitepress/plugins/markdown/writerside/markdown-it-ws-container.ts:7 | every style line is read with its name and its trailing whitespace up to `$` |
| WsContainer.StyleSound | docs/.vitepress/plugins/markdown/writerside/markdown-it-ws-container.ts:7 | everything read as a style line is one |
| WsContainer.LastQuotedSound | docs/.vitepress/plugins/markdown/writerside/markdown-it-ws-container.ts:7 | the quoted-lines group reads a run of quoted lines followed by CRLF |
| WsContainer.LastQuotedExact | docs/.vitepress/plugins/markdown/writerside/markdown-it-ws-container.ts:7 | a run followed by CRLF and an unquoted line is read up to that CRLF |
| WsContainer.DollarSound | docs/.vitepress/plugins/markdown/writerside/markdown-it-ws-container.ts:7 | `\s*$` in multiline mode ends at the end of the input or at the last line break of the whitespace |
| WsContainer.ContainerBlock | docs/.vitepress/plugins/markdown/writerside/markdown-it-ws-container.ts:16-20 | a match becomes the indentation followed by `::: name`, the cleaned quoted text, and `:::`; the cleaned text holds no CR or LF |
| WsContainer.UnquoteClean | docs/.vitepress/plugins/markdown/writerside/markdown-it-ws-container.ts:16 | removing the markers leaves no CR, and no LF within a run of quoted lines |
| WsContainer.UnquoteLine | docs/.vitepress/plugins/markdown/writerside/markdown-it-ws-container.ts:16 | one quoted line loses its blanks, its `>` and at most one whitespace character |
| WsContainer.ContainerizeShape | docs/.vitepress/plugins/markdown/writerside/markdown-it-ws-container.ts:18-20 | when the name and text are single lines, the container is exactly three lines, each indented |
| WsContainer.FirstContainerReplaced | docs/.vitepress/plugins/markdown/writerside/markdown-it-ws-container.ts:9-21 | the first match is replaced by its container, the text before it copied, and the search resumes after the style line |
| WsContainer.NoCrLfUnchanged | docs/.vitepress/plugins/markdown/writerside/markdown-it-ws-container.ts:6-23 | a source without CRLF reaches the parser unchanged |
| WsVars.DefineFacts | docs/.vitepress/plugins/markdown/writerside/markdown-it-ws-vars.ts:44 | a definition the pattern matches has a non-empty name and value |
| WsVars.DefineRoundTrip | docs/.vitepress/plugins/markdown/writerside/markdown-it-ws-vars.ts:44 | a definition written out is read back with its name and value, whatever follows it |
| WsVars.DefineReadBack | docs/.vitepress/plugins/markdown/writerside/markdown-it-ws-vars.ts:44 | text laid out as a definition is read back with its name and value |
| WsVars.ReferenceRoundTrip | docs/.vitepress/plugins/markdown/writerside/markdown-it-ws-vars.ts:44 | a `%name%` reference written out is read back with its name |
| WsVars.MatchedReference | docs/.vitepress/plugins/markdown/writerside/markdown-it-ws-vars.ts:44 | a matched reference is its own canonical text |
| WsVars.TokensMatch | docs/.vitepress/plugins/markdown/writerside/markdown-it-ws-vars.ts:44-48 | every token of the scan is a match of the pattern at its start |
| WsVars.ScanGaps | docs/.vitepress/plugins/markdown/writerside/markdown-it-ws-vars.ts:48 | the pattern matches nowhere between consecutive tokens or after the last |
| WsVars.LineStart | docs/.vitepress/plugins/markdown/writerside/markdown-it-ws-vars.ts:52 | the line start is at or before the token, at 0 or just after a newline, with no newline between it and the token |
| WsVars.AloneTrim | docs/.vitepress/plugins/markdown/writerside/markdown-it-ws-vars.ts:63-66 | the rule's trimmed-remainder test means the rest of the token's line is whitespace |
| WsVars.LastDefinitionWins | docs/.vitepress/plugins/markdown/writerside/markdown-it-ws-vars.ts:58-61 | a later definition overrides an earlier one; a name never defined in the page keeps the file's value |
| WsVars.EnvNonEmpty | docs/.vitepress/plugins/markdown/writerside/markdown-it-ws-vars.ts:86-97 | every value is non-empty, so the branch that deletes a reference to an empty value is never taken |
| WsVars.LoadVars | docs/.vitepress/plugins/markdown/writerside/markdown-it-ws-vars.ts:37-42 | loading the file's definitions keeps every name already known and keeps every value non-empty |
| WsVars.NoTokensUnchanged | docs/.vitepress/plugins/markdown/writerside/markdown-it-ws-vars.ts:44-106 | text without a single token is unchanged |
| WsVars.NoDefinitions | docs/.vitepress/plugins/markdown/writerside/markdown-it-ws-vars.ts:37-42 | with no definitions the variables are the file's |
| WsVars.UndefinedReferencesUnchanged | docs/.vitepress/plugins/markdown/writerside/markdown-it-ws-vars.ts:77-84 | a source whose only tokens are references to names the file does not define is unchanged |
| WsVars.DefinitionRemoved | docs/.vitepress/plugins/markdown/writerside/markdown-it-ws-vars.ts:58-74 | a definition is always deleted: with its whole line and newline when alone on it, otherwise alone |
| WsVars.ReferenceResolved | docs/.vitepress/plugins/markdown/writerside/markdown-it-ws-vars.ts:77-101 | a reference takes the value of the last earlier definition, else the file's value, else stays verbatim |
| WsVars.DefinitionLineRemoved | docs/.vitepress/plugins/markdown/writerside/markdown-it-ws-vars.ts:63-70 | a definition alone on its line disappears with the line, the rest kept |
| WsVars.DefinitionInlineRemoved | docs/.vitepress/plugins/markdown/writerside/markdown-it-ws-vars.ts:72-74 | a definition sharing its line is cut out of it |
| WsVars.ReferenceReplaced | docs/.vitepress/plugins/markdown/writerside/markdown-it-ws-vars.ts:99-101 | a reference to a name with a value becomes the value, the rest kept |
| WsVars.OnlyReferenceReplaced | docs/.vitepress/plugins/markdown/writerside/markdown-it-ws-vars.ts:8-107 | a page whose single token references a file variable gets the (non-empty) value in its place |
| Admonitions.ParseAdmonition | docs/.vitepress/plugins/markdown/mkdocs/markdown-it-mk-admonitions.ts:16-25 | a header yields a non-empty type and, as indentation, leading whitespace of the line |
| Admonitions.ParseSound | docs/.vitepress/plugins/markdown/mkdocs/markdown-it-mk-admonitions.ts:16 | whatever is accepted has one of the two header shapes, and the parts returned are that shape's |
| Admonitions.ParseTitledComplete | docs/.vitepress/plugins/markdown/mkdocs/markdown-it-mk-admonitions.ts:16 | every titled header is recognised with its indentation, type and title |
| Admonitions.ParseBareComplete | docs/.vitepress/plugins/markdown/mkdocs/markdown-it-mk-admonitions.ts:16 | every header without a title is recognised with an empty title |
| Admonitions.TitledOpening | docs/.vitepress/plugins/markdown/mkdocs/markdown-it-mk-admonitions.ts:22-35 | a header written `lead!!! kind "title"` with content opens its container with `lead::: kind title`: the type lower-cased, the title trimmed, `注意` read as `note` and titled `注意` when the title is empty, and nothing after the type for any other empty title |
| Admonitions.BareOpening | docs/.vitepress/plugins/markdown/mkdocs/markdown-it-mk-admonitions.ts:22-35 | a header written `lead!!! kind` with content opens its container with `lead::: kind` lower-cased, or `lead::: note 注意` for `注意` |
| Admonitions.OpeningOf | docs/.vitepress/plugins/markdown/mkdocs/markdown-it-mk-admonitions.ts:91-93 | the first line written for a header with content is its opening line |
| Admonitions.BlankBeforeContentEnds | docs/.vitepress/plugins/markdown/mkdocs/markdown-it-mk-admonitions.ts:55-64 | a blank line before any content ends the scan with nothing captured |
| Admonitions.ContentEndOnceStarted | docs/.vitepress/plugins/markdown/mkdocs/markdown-it-mk-admonitions.ts:47-70 | once content has started, the scan stops exactly at the end or at the first line that is neither content nor a blank under the header |
| Admonitions.DropDangling | docs/.vitepress/plugins/markdown/mkdocs/markdown-it-mk-admonitions.ts:82-89 | a dangling last fence is dropped and an even number of fences remains |
| Admonitions.FixFencesEffect | docs/.vitepress/plugins/markdown/mkdocs/markdown-it-mk-admonitions.ts:73-89 | the fix-up drops nothing but a dangling last fence, and leaves an even count whenever it drops one |
| Admonitions.EmptyHeaderKept | docs/.vitepress/plugins/markdown/mkdocs/markdown-it-mk-admonitions.ts:100-104 | a header without content is copied verbatim |
| Admonitions.ContainerEmitted | docs/.vitepress/plugins/markdown/mkdocs/markdown-it-mk-admonitions.ts:91-98 | a header with content becomes the opening line, the fixed content and `:::` at its indentation; the scan resumes after the content |
| Admonitions.NoHeadersUnchanged | docs/.vitepress/plugins/markdown/mkdocs/markdown-it-mk-admonitions.ts:105-109 | lines that are not headers come out line for line |
| Admonitions.NoAdmonitionsUnchanged | docs/.vitepress/plugins/markdown/mkdocs/markdown-it-mk-admonitions.ts:4-112 | a source without headers is unchanged |
| CodeGroup.ParseTabHeader | docs/.vitepress/plugins/markdown/mkdocs/markdown-it-mk-code-tabs.ts:11-18 | a header yields an indentation and a title of its line, placed where the shape says |
| CodeGroup.ParseTabHeaderComplete | docs/.vitepress/plugins/markdown/mkdocs/markdown-it-mk-code-tabs.ts:11 | every line of header shape is recognised with its own indentation and title |
| CodeGroup.ParseFence | docs/.vitepress/plugins/markdown/mkdocs/markdown-it-mk-code-tabs.ts:51-55 | an opening fence yields its leading whitespace and its word-character language, read to a non-word character; a line with no fence after its whitespace yields none |
| CodeGroup.SkipBlank | docs/.vitepress/plugins/markdown/mkdocs/markdown-it-mk-code-tabs.ts:43-47 | blank lines at least as deep as the header are skipped, stopping at the first other line |
| CodeGroup.CodeEnd | docs/.vitepress/plugins/markdown/mkdocs/markdown-it-mk-code-tabs.ts:61-66 | the code ends at the first line that closes the fence at its indentation, or at the end |
| CodeGroup.CollectCode | docs/.vitepress/plugins/markdown/mkdocs/markdown-it-mk-code-tabs.ts:61-70 | the code lines up to the closing fence, de-dented by the fence's indentation |
| CodeGroup.TabAt | docs/.vitepress/plugins/markdown/mkdocs/markdown-it-mk-code-tabs.ts:23-85 | a tab found starts at a header with the group's indentation and title. Its fence is the first later line that is not blank under the header, and is deeper than the header. The tab takes that fence's language and its lines up to the first close at the fence's indentation, and the next tab is looked for after that close |
| CodeGroup.TabRecognised | docs/.vitepress/plugins/markdown/mkdocs/markdown-it-mk-code-tabs.ts:28-80 | conversely, every header followed, after blank lines under it, by a deeper fence is a tab with the header's title and that fence's language and code |
| CodeGroup.GroupIsRun | docs/.vitepress/plugins/markdown/mkdocs/markdown-it-mk-code-tabs.ts:22-90 | a group's tabs are the tabs found one after another from its first header, in order, and no further tab starts where the group ends |
| CodeGroup.RunIsGroup | docs/.vitepress/plugins/markdown/mkdocs/markdown-it-mk-code-tabs.ts:22-90 | conversely, any run of consecutive tabs that cannot be extended is exactly the group collected there, with the same end line |
| CodeGroup.SkipBlankExact | docs/.vitepress/plugins/markdown/mkdocs/markdown-it-mk-code-tabs.ts:42-47 | the blank-line skip stops at the first line that is not blank under the header |
| CodeGroup.GroupShape | docs/.vitepress/plugins/markdown/mkdocs/markdown-it-mk-code-tabs.ts:92-103 | a group opens with `::: code-group`, closes with `:::`, holds two fence lines per tab around its code, every line at the header's indentation |
| CodeGroup.NoHeadersUnchanged | docs/.vitepress/plugins/markdown/mkdocs/markdown-it-mk-code-tabs.ts:111-115 | a source with no tab header comes out line for line |
| CodeGroup.LoneHeaderKept | docs/.vitepress/plugins/markdown/mkdocs/markdown-it-mk-code-tabs.ts:105-110 | a header that starts no valid group is copied verbatim and nothing of a partial group is written |
| CodeGroup.GroupEmitted | docs/.vitepress/plugins/markdown/mkdocs/markdown-it-mk-code-tabs.ts:92-104 | a header that starts a valid group is replaced by it, and the scan resumes after its last tab |
| CodeGroup.CodeEndsAtFirstClose | docs/.vitepress/plugins/markdown/mkdocs/markdown-it-mk-code-tabs.ts:61-70 | every line before the first close at the fence's indentation is kept, de-dented |
| ContentTabs.ParseHeader | docs/.vitepress/markdown-it-mk-code-tabs.ts:36-40 | a header yields an indentation and a title that fit the header shape of its line |
| ContentTabs.ParseHeaderComplete | docs/.vitepress/markdown-it-mk-code-tabs.ts:36-40 | every line of header shape, quotes inside the title included, is recognised with its own indentation and a title running to the last quote |
| ContentTabs.CloseLevels | docs/.vitepress/markdown-it-mk-code-tabs.ts:15-32 | every level from the top with indentation at least the target is popped, and its closer written innermost first |
| ContentTabs.StackInvariant | docs/.vitepress/markdown-it-mk-code-tabs.ts:34-161 | between any two lines every group sits right below its open tab at the same width, and widths never decrease upwards |
| ContentTabs.WellNested | docs/.vitepress/markdown-it-mk-code-tabs.ts:34-164 | every opener is closed exactly once, innermost first, by a closer of the same kind and indentation |
| ContentTabs.Balanced | docs/.vitepress/markdown-it-mk-code-tabs.ts:34-164 | the output has as many closers as openers for every input |
| ContentTabs.DrainAtEnd | docs/.vitepress/markdown-it-mk-code-tabs.ts:163-164 | at the end of the document every remaining level is closed, innermost first |
| ContentTabs.BlankLineKept | docs/.vitepress/markdown-it-mk-code-tabs.ts:118-121 | blank lines are copied and close nothing |
| ContentTabs.BodyLine | docs/.vitepress/markdown-it-mk-code-tabs.ts:126-146 | a line deeper than the open tab is its body: the header indentation and one unit, four spaces or a tab, are replaced by the output indentation |
| ContentTabs.BodyLineFallback | docs/.vitepress/markdown-it-mk-code-tabs.ts:131-146 | a body line that goes on after the header indentation with neither unit loses only the header indentation |
| ContentTabs.BodyLineForeign | docs/.vitepress/markdown-it-mk-code-tabs.ts:131-149 | a body line that does not begin with the header's indentation is copied as it is |
| ContentTabs.OuterLine | docs/.vitepress/markdown-it-mk-code-tabs.ts:154-159 | any other non-blank line closes every level at least as deep, then is copied |
| ContentTabs.HeaderEffect | docs/.vitepress/markdown-it-mk-code-tabs.ts:42-114 | a header at the open tab's width closes that tab and opens a sibling in the same group; any other opens a new group and its first tab; both at the output indentation of the outermost open level, or the header's own when none is open |
| ContentTabs.NoHeadersUnchanged | docs/.vitepress/markdown-it-mk-code-tabs.ts:10-167 | a source without tab headers is unchanged |
| HlLines.InfoRewritten | docs/.vitepress/plugins/markdown/mkdocs/markdown-it-mk-hl-lines.ts:12-22 | an info string `a g1 hl_lines="X" g2 b` becomes `a b`, trimmed, then ` {X}` |
| HlLines.InfoSound | docs/.vitepress/plugins/markdown/mkdocs/markdown-it-mk-hl-lines.ts:12-22 | the removed part runs from the whitespace before the first `hl_lines="X"` to the whitespace after it, and the value appended is that `X` |
| HlLines.InfoUnchanged | docs/.vitepress/plugins/markdown/mkdocs/markdown-it-mk-hl-lines.ts:12-14 | an info string without `hl_lines="X"` is left as it is |
| HlLines.RenderUnchanged | docs/.vitepress/plugins/markdown/mkdocs/markdown-it-mk-hl-lines.ts:7-27 | without `hl_lines` the previous renderer sees the tokens as they came |
| HlLines.RenderRewritten | docs/.vitepress/plugins/markdown/mkdocs/markdown-it-mk-hl-lines.ts:7-27 | with `hl_lines` the previous renderer sees the rewritten info and every other token unchanged |
| HlLines.FenceRecognised | docs/.vitepress/plugins/markdown/mkdocs/markdown-it-mk-hl-lines.ts:34-37 | every ```` ```lang hl_lines="X" ```` is recognised and becomes ```` ```lang {X} ```` |
| HlLines.FenceSound | docs/.vitepress/plugins/markdown/mkdocs/markdown-it-mk-hl-lines.ts:34 | everything recognised is a word-character language, whitespace and a non-empty quote-free value |
| HlLines.NoLanguageNoMatch | docs/.vitepress/plugins/markdown/mkdocs/markdown-it-mk-hl-lines.ts:34 | a fence whose language is missing or starts with no word character starts no match |
| HlLines.NoLanguageUnchanged | docs/.vitepress/plugins/markdown/mkdocs/markdown-it-mk-hl-lines.ts:30-40 | a source where no ```` ``` ```` is followed by a word character is unchanged |
| HlLines.FirstFenceRewritten | docs/.vitepress/plugins/markdown/mkdocs/markdown-it-mk-hl-lines.ts:30-40 | the first such fence is rewritten and the text before it copied |
| HlLines.FenceRewritten | docs/.vitepress/plugins/markdown/mkdocs/markdown-it-mk-hl-lines.ts:34-37 | a fence after text without backticks gets `{X}`, the text copied |
| TopicTitle.LabelRecognised | docs/.vitepress/plugins/markdown/writerside/markdown-it-ws-topicTitle.ts:17 | leading whitespace, `<primary-label` and a word boundary make a label |
| TopicTitle.LabelSound | docs/.vitepress/plugins/markdown/writerside/markdown-it-ws-topicTitle.ts:17 | every label is of that form |
| TopicTitle.LevelOf | docs/.vitepress/plugins/markdown/writerside/markdown-it-ws-topicTitle.ts:20-21 | `h1` to `h6` give their digit; every other tag gives the empty level |
| TopicTitle.RefRecognised | docs/.vitepress/plugins/markdown/writerside/markdown-it-ws-topicTitle.ts:23-24 | the first `ref="…"` with a non-empty value gives that value |
| TopicTitle.RefSound | docs/.vitepress/plugins/markdown/writerside/markdown-it-ws-topicTitle.ts:23-24 | a reference comes from a `ref="…"` in the label; an empty one means no `ref="` has a non-empty quoted value |
| TopicTitle.NoQuoteNoRef | docs/.vitepress/plugins/markdown/writerside/markdown-it-ws-topicTitle.ts:23-24 | a label without quotes has no reference |
| TopicTitle.TailUnique | docs/.vitepress/plugins/markdown/writerside/markdown-it-ws-topicTitle.ts:27 | a title has at most one `{id="…"}` tail |
| TopicTitle.IdRecognised | docs/.vitepress/plugins/markdown/writerside/markdown-it-ws-topicTitle.ts:27-29 | a title `base`, whitespace, `{id="v"}`, whitespace has id `v` and text `base` |
| TopicTitle.IdSound | docs/.vitepress/plugins/markdown/writerside/markdown-it-ws-topicTitle.ts:27-29 | a match starts where a whitespace run starts, after the text the replacement keeps, and leads to the tail |
| TopicTitle.NoBraceKept | docs/.vitepress/plugins/markdown/writerside/markdown-it-ws-topicTitle.ts:27-29 | a title not ending in `}` keeps its text and takes the slug as id |
| TopicTitle.ReplacementWithId | docs/.vitepress/plugins/markdown/writerside/markdown-it-ws-topicTitle.ts:20-35 | a heading `h<d>` titled `base {id="v"}` with label `r` becomes `<TopicTitle id="v" level="d" title="base" labelRef="r"/>` at the heading's level |
| TopicTitle.ReplacementWithSlug | docs/.vitepress/plugins/markdown/writerside/markdown-it-ws-topicTitle.ts:20-35 | a heading without an id keeps its title and takes the slug; a label without quotes gives an empty reference |
| TopicTitle.TopicTitleRule | docs/.vitepress/plugins/markdown/writerside/markdown-it-ws-topicTitle.ts:7-44 | the in-place loop with its splices and step back computes the same stream as a left-to-right scan of four-token groups |
| TopicTitle.LengthDrops | docs/.vitepress/plugins/markdown/writerside/markdown-it-ws-topicTitle.ts:37-41 | each rewrite turns four tokens into one: the stream gets three shorter per rewrite |
| TopicTitle.NoGroupUnchanged | docs/.vitepress/plugins/markdown/writerside/markdown-it-ws-topicTitle.ts:7-44 | a stream without a heading followed by a label comes back unchanged |
| TopicTitle.FirstGroupReplaced | docs/.vitepress/plugins/markdown/writerside/markdown-it-ws-topicTitle.ts:7-44 | the first group is replaced, the tokens before it kept, and the rule goes on after its four tokens |
| TopicTitle.SuffixAlone | docs/.vitepress/plugins/markdown/writerside/markdown-it-ws-topicTitle.ts:7-44 | what follows a position is rewritten as if it stood alone |
| TopicTitle.StepLocal | docs/.vitepress/plugins/markdown/writerside/markdown-it-ws-topicTitle.ts:8-18 | the step reads only the four tokens from its position |
| InlineLink.RewriteHref | docs/.vitepress/plugins/markdown/writerside/markdown-it-ws-inline-link.ts:13-110 | `rewriteHref` for a page under a doc type: the result is the hook's answer, the href itself, a site-rooted path, or a page of the external sqldelight site |
| InlineLink.HookWins | docs/.vitepress/plugins/markdown/writerside/markdown-it-ws-inline-link.ts:16-19 | a doc-type hook that answers wins over every other rule |
| InlineLink.ExternalKept | docs/.vitepress/plugins/markdown/writerside/markdown-it-ws-inline-link.ts:21-28 | without a hook answer, `https://`, `http://` and `mailto:` links stay |
| InlineLink.BasenameKeeps | docs/.vitepress/plugins/markdown/writerside/markdown-it-ws-inline-link.ts:34 | the basename keeps every `/`-free suffix of the path |
| InlineLink.KotlinImageFlattened | docs/.vitepress/plugins/markdown/writerside/markdown-it-ws-inline-link.ts:31-36 | a kotlin image becomes `/kotlin/` and its file name, which is still an image name |
| InlineLink.SqlImageFlattened | docs/.vitepress/plugins/markdown/writerside/markdown-it-ws-inline-link.ts:38-41 | a sqldelight image becomes `/sqldelight/` and its file name; `.jpeg` and `.jpg` are not among its types |
| InlineLink.KoinSameDirectory | docs/.vitepress/plugins/markdown/writerside/markdown-it-ws-inline-link.ts:44-63 | on a koin page `./x` is `x` in the page's directory |
| InlineLink.KoinParentDirectory | docs/.vitepress/plugins/markdown/writerside/markdown-it-ws-inline-link.ts:44-63 | on a koin page `../x` is `x` in the directory above the page's |
| InlineLink.FragmentKept | docs/.vitepress/plugins/markdown/writerside/markdown-it-ws-inline-link.ts:75-77 | fragments stay for kotlin, sqldelight and ktor pages unless an earlier rule claims them |
| InlineLink.SqldelightBareName | docs/.vitepress/plugins/markdown/writerside/markdown-it-ws-inline-link.ts:79-88 | a bare sqldelight name without `/`, `#` or `.` is the `.md` page in the same directory |
| InlineLink.SqldelightUpTwo | docs/.vitepress/plugins/markdown/writerside/markdown-it-ws-inline-link.ts:90-91 | `../../x` on a sqldelight page goes to the external site's latest version |
| InlineLink.SqldelightRules | docs/.vitepress/plugins/markdown/writerside/markdown-it-ws-inline-link.ts:79-103 | on a sqldelight page a link no earlier rule claims goes to the sqldelight rules |
| InlineLink.Prefixed | docs/.vitepress/plugins/markdown/writerside/markdown-it-ws-inline-link.ts:66-109 | on any page outside sqldelight, a link no earlier rule claims (no hook answer, not external, not a kotlin image, not a relative koin link, not a fragment where fragments stay) gets the locale, if any, and the doc type in front of the link after the koin `/docs` and kotlin `.md` edits |
| InlineLink.KoinDocsDropped | docs/.vitepress/plugins/markdown/writerside/markdown-it-ws-inline-link.ts:66-68 | a koin link `/docs` + `x` becomes `[/locale]/koin` + `x` |
| InlineLink.KotlinMdDropped | docs/.vitepress/plugins/markdown/writerside/markdown-it-ws-inline-link.ts:70-73 | a kotlin link `a.md` + `b` with no `.` in `a` loses that `.md` and gains a `/`: it becomes `[/locale]/kotlin/` + `a` + `b` |
| InlineLink.LinkAtIff | docs/.vitepress/plugins/markdown/writerside/markdown-it-ws-inline-link.ts:132 | the `<img … src=…>` and `<a … href=…>` patterns match exactly where a tag is laid out as they describe |
| InlineLink.LinkPassKeeps | docs/.vitepress/plugins/markdown/writerside/markdown-it-ws-inline-link.ts:131-143 | where every tag's value is already `/…` or `http…` the inline pass changes nothing |
| InlineLink.AttrAtIff | docs/.vitepress/plugins/markdown/writerside/markdown-it-ws-inline-link.ts:199-202 | the attribute pattern of `rewriteHtmlAttributes` matches exactly where an attribute is laid out as it describes |
| InlineLink.AttributesKeep | docs/.vitepress/plugins/markdown/writerside/markdown-it-ws-inline-link.ts:196-212 | where every `src`/`href` of an HTML block is absolute, the block is unchanged, as written and as intended |
| InlineLink.AttrReplacedInPlace | docs/.vitepress/plugins/markdown/writerside/markdown-it-ws-inline-link.ts:203-211 | the intended replacement changes the value and nothing else |
| InlineLink.AsWrittenAgrees | docs/.vitepress/plugins/markdown/writerside/markdown-it-ws-inline-link.ts:196-212 | as written and as intended agree wherever no value occurs earlier in its own match |
| InlineLink.TagNameOverwritten | docs/.vitepress/plugins/markdown/writerside/markdown-it-ws-inline-link.ts:203-211 | in `<a href="a">` the code as written overwrites the tag name and keeps the old target |
| InlineLink.BeforeInlineKeeps | docs/.vitepress/plugins/markdown/writerside/markdown-it-ws-inline-link.ts:115-161 | before inline parsing an HTML block's content gets `rewriteHtmlAttributes` as written, a non-empty `inline` token's content gets the `<img>` and `<a>` rewrites, and every other token and field is kept |
| InlineLink.AbsoluteBlockKept | docs/.vitepress/plugins/markdown/writerside/markdown-it-ws-inline-link.ts:120-126 | an HTML block whose `src` and `href` values are all absolute passes the rule unchanged |
| InlineLink.BlockTagNameOverwritten | docs/.vitepress/plugins/markdown/writerside/markdown-it-ws-inline-link.ts:120-126 | the rule turns an HTML block `<a href="a">` into `<` + new value + ` href="a">` |
| InlineLink.AfterInlineKeeps | docs/.vitepress/plugins/markdown/writerside/markdown-it-ws-inline-link.ts:164-193 | after inline parsing only link `href`s and image `src`s among `inline` children change |
| InlineLink.LinksRewritten | docs/.vitepress/plugins/markdown/writerside/markdown-it-ws-inline-link.ts:169-181 | the `href` of every link child is rewritten |
| Assets.WithSlash | docs/.vitepress/plugins/markdown/writerside/markdown-it-ws-assets.ts:8-21 | a src changes iff it needs the slash, then to `/` before it, and never needs another |
| Assets.SlashFirstSrc | docs/.vitepress/plugins/markdown/writerside/markdown-it-ws-assets.ts:30-43 | an image's attributes keep their names and order; only the first `src` can change |
| Assets.SlashFirstSrcIdempotent | docs/.vitepress/plugins/markdown/writerside/markdown-it-ws-assets.ts:30-43 | a second pass over an image changes nothing |
| Assets.SrcTailIff | docs/.vitepress/plugins/markdown/writerside/markdown-it-ws-assets.ts:50 | the `src=` tail matches exactly where it is laid out: a quote, a quote-free value, the same quote, the first `>` |
| Assets.ImgAtSound | docs/.vitepress/plugins/markdown/writerside/markdown-it-ws-assets.ts:50 | a match is `<img`, a blank, then `src=` after a blank with no `>` before it, and the tail |
| Assets.ImgRecognised | docs/.vitepress/plugins/markdown/writerside/markdown-it-ws-assets.ts:50 | every written `<img>` tag is recognised with `src=` where it is written |
| Assets.ImgsKept | docs/.vitepress/plugins/markdown/writerside/markdown-it-ws-assets.ts:52-59 | HTML with no value needing a slash is unchanged |
| Assets.ImgPrefixedInPlace | docs/.vitepress/plugins/markdown/writerside/markdown-it-ws-assets.ts:52-56 | a value needing the slash gets it in place, the rest of the tag kept |
| Assets.ImgTagRewritten | docs/.vitepress/plugins/markdown/writerside/markdown-it-ws-assets.ts:50-59 | a single written tag comes out with the value after the rule, quote and other attributes kept |
| Assets.ImgTagIdempotent | docs/.vitepress/plugins/markdown/writerside/markdown-it-ws-assets.ts:50-59 | a second pass over a written tag changes nothing |
| Assets.PrefixImageSrc | docs/.vitepress/plugins/markdown/writerside/markdown-it-ws-assets.ts:27-62 | image tokens get their first `src` fixed, HTML tokens their `<img>` tags; every other token and part is kept |
| LazySearch.LazyUntilFirst | docs/.vitepress/plugins/markdown/writerside/markdown-it-ws-inline-link.ts:200 | before the place a lazy `[^c]*?` search finds, there is no `c` and the rest of the pattern does not match |
| LazySearch.LazyUntilFinds | docs/.vitepress/plugins/markdown/writerside/markdown-it-ws-inline-link.ts:200 | the first place where the rest matches, with no `c` before it, is the one found |
| LazySearch.LazyUntilStops | docs/.vitepress/plugins/markdown/writerside/markdown-it-ws-inline-link.ts:200 | a `c` before which the rest matches nowhere stops the search |
| TranslateServer.StripOpening | translate-tool/server.mjs:562-564 | the result is the text, or the text without a leading ```` ```markdown ````, ```` ```md ```` or ```` ``` ```` line |
| TranslateServer.OpeningStrippedIff | translate-tool/server.mjs:562-564 | the opening is stripped iff the text starts with one of the three fence lines |
| TranslateServer.FenceStripped | translate-tool/server.mjs:562-564 | each of the three fences put before a body is stripped, giving the body back |
| TranslateServer.StripClosing | translate-tool/server.mjs:565 | a trailing ```` ``` ```` is removed and nothing else |
| TranslateServer.ClosingStripped | translate-tool/server.mjs:565 | a body with ```` ``` ```` appended is given back |
| TranslateServer.AdjacentEscapeKept | translate-tool/server.mjs:566 | as written, in `a\n\n` (two literal escapes) the second escape stays literal |
| TranslateServer.Unescape | translate-tool/server.mjs:566 | the corrected pass leaves no literal `\n` after a non-backslash, keeps the first character or turns it into a newline, and never lengthens the text |
| TranslateServer.UnescapePlain | translate-tool/server.mjs:566 | text without a literal escape is unchanged |
| TranslateServer.AdjacentEscapesConverted | translate-tool/server.mjs:566 | the corrected pass turns `a\n\n` into `a` and two newlines |
| TranslateServer.LeadingEscape | translate-tool/server.mjs:567 | a literal `\n` at the start becomes a newline, and nothing else changes |
| TranslateServer.Squeeze | translate-tool/server.mjs:568 | no three newlines in a row remain, and the first character is a newline iff it was |
| TranslateServer.SqueezeKeeps | translate-tool/server.mjs:568 | text without three newlines in a row is unchanged |
| TranslateServer.Cleanup | translate-tool/server.mjs:560-570 | as written: empty text gives empty text; the result is trimmed and has no three newlines in a row |
| TranslateServer.CleanupIntended | translate-tool/server.mjs:560-570 | the same clean-up with the corrected escape pass, with the same promises |
| TranslateServer.CleanupAdjacentEscapes | translate-tool/server.mjs:560-570 | on `a\n\n` (two literal escapes) the clean-up as written gives `a`, a newline and a literal `\n`; the corrected one gives `a` |
| TranslateServer.AsWrittenFrom | translate-tool/server.mjs:566-567 | from any position the pass as written reaches without standing on an unconverted escape, it produces what the corrected pass produces on the rest of the text, when no escape directly follows another |
| TranslateServer.AsWrittenAgrees | translate-tool/server.mjs:566-567 | on a text where no escape directly follows another, the pass as written plus the leading-escape pass gives what the corrected pass gives |
| TranslateServer.CleanupsAgree | translate-tool/server.mjs:560-570 | the two clean-ups agree on every reply without adjacent escapes |
| TranslateServer.FencedCleanup | translate-tool/server.mjs:562-565 | a body wrapped in any of the fences cleans up like the body alone, in both clean-ups |
| TranslateServer.TargetPath | translate-tool/server.mjs:602-607 | `zh-Hans` gives `project/file`; every other language `lang/project/file` |
| TranslateServer.TargetPathParts | translate-tool/server.mjs:602-607 | splitting the target path at `/` gives back the language (when not `zh-Hans`), project and file |
| FileTree.Listed | translate-tool/server.mjs:174-178 | an entry is kept iff it is a blob ending in `.md`/`.topic` (any case) under some root, each as often as it was listed |
| FileTree.UnderIsStrict | translate-tool/server.mjs:177 | a root does not hold itself, nor a sibling whose name merely starts with the root's |
| FileTree.FirstUnder | translate-tool/server.mjs:228 | the first root the path lies under, and none iff it lies under none |
| FileTree.RelParts | translate-tool/server.mjs:228-233 | a file is placed exactly when its first root exists and is not the empty string (the `if (!matchDP) continue` test); then the `/`-free pieces, joined and put after that root and `/`, give the path back |
| FileTree.NonEmptyRootsKeep | translate-tool/server.mjs:228-229 | with non-empty roots, as configured, a file is placed exactly when it lies under some root |
| FileTree.EmptyRootSkipped | translate-tool/server.mjs:228-229 | a file whose first root is `""` is skipped although it lies under it: with roots `[""]`, `/a.md` stays out of the tree |
| FileTree.InsertPaths | translate-tool/server.mjs:236-246 | inserting a file adds its path to the tree exactly once |
| FileTree.InsertPlaces | translate-tool/server.mjs:236-246 | an inserted file lies where its parts say |
| FileTree.InsertKeeps | translate-tool/server.mjs:236-246 | inserting keeps every file already placed |
| FileTree.InsertUnique | translate-tool/server.mjs:240-244 | a needed directory is reused, so no level gains a second directory of one name |
| FileTree.ComesTotal | translate-tool/server.mjs:250-252 | the comparator orders any two nodes one way or the other |
| FileTree.ComesTransitive | translate-tool/server.mjs:250-252 | the comparator is transitive: directories first, then names |
| FileTree.SortLevelSorted | translate-tool/server.mjs:249-253 | sorting a level orders it |
| FileTree.SortLevelKeeps | translate-tool/server.mjs:249-253 | sorting a level keeps its files and directory counts |
| FileTree.SortTreeSorted | translate-tool/server.mjs:249-255 | the recursive sort orders every level |
| FileTree.SortTreePaths | translate-tool/server.mjs:249-255 | the recursive sort keeps every file path |
| FileTree.SortTreeUnique | translate-tool/server.mjs:249-255 | sorting keeps each level free of a second directory of one name |
| FileTree.SortTreeHas | translate-tool/server.mjs:249-255 | sorting keeps every file at its place |
| FileTree.BuildTree | translate-tool/server.mjs:227-255 | the tree holds the files that pass the root test and no other, each at its path below its first root; the levels are sorted and hold no two directories of one name |

## Left out

- Reading files, the environment and the network is left out; each result a rule needs is a parameter holding the text. This covers the variable files of `WsVars` and `MkVars`, the page's relative path, and the GitHub listing.
- markdown-it itself is left out: tokenising, the renderer and `normalize`. A token is the fields a rule reads or writes, and the previous renderer is a parameter.
- `slugify`, `unescapeAll`, `escapeHtml`, gray-matter's title, the sidebar title, the doc-type `rewriteHref` hooks and `localeCompare` are parameters. Each is a library or configuration function outside the rewriting core.
- The `liquid_condition_remover` core rule of `LiquidCondition` is left out. It runs after block parsing, so its change to the source reaches no token. The `parse` override is modelled.
- `InlineLink.RewriteHref` requires the page to lie under a doc type. Without one the source's `DocsTypeConfig[docType]` lookup throws, and the model does not represent the exception.
- `Assets.PrefixImageSrc` visits the top-level token list as the source does. Images inside `inline` children are not reached there either.
- FileTree.SortLevel: ties between nodes the comparator ranks equal stay in input order. Only ordering, files and directories are stated, not the exact order of equal names.
- `localeCompare` is assumed to be a total preorder, which `BuildTree` requires. Locale-specific collation is not modelled.
- An absent (`null` or `undefined`) text, info string or attribute list is modelled as the empty one. The rules treat both alike.
- The HTTP server, the translation queue, the GenAI calls, GitHub commits and the sidebar processors of the translation server are left out. They are I/O.
- In `rewriteHtmlAttributes`, `match.replace(value, newValue)` reads `$` patterns in the new value. The model inserts the new value literally.
- MkVars.FirstPlaceholderReplaced: the variable file is a finite map from names to strings. The source's `jsonData.versions[varName]` is a JavaScript property lookup. Names from the prototype chain (`constructor`, `toString`) would resolve to functions, and numbers or objects would be turned into text. Neither is modelled, since the parsed JSON is outside the model.
- Patterns that can match the empty string are not modelled: `Rewrite.MatchesAt` demands a non-empty match, so JavaScript's step past an empty match is never taken. No replace pattern of the modelled rules can match empty.
- InlineLink.SqldelightBareName: stated for a name that does not start with `mailto:` and for which the doc-type hook gives no answer; those two rules come first.
- HlLines.InfoRewritten: stated for an info string with no quote before its first `hl_lines="X"` and no whitespace next to the whitespace runs around it. `HlLines.InfoSound` covers every info string.
- DiffCodeBlock.DiffWithTitle: stated for an info string that is `diff`, whitespace, quote-free text not ending in a word character, then the title. In that shape the title pattern's first match is that title. `DiffCodeBlock.TitleSound` covers the rest.
- TopicTitle.RefRecognised: stated for a label with no quote before its first `ref="`. `TopicTitle.RefSound` covers every label.
- HlLines.FenceRewritten: stated for a fence after text without backticks. `FirstFenceRewritten` covers any prefix.
- Strings are sequences of Unicode scalar values. JavaScript's UTF-16 code units, lone surrogates included, are not modelled.
- Several neighbours of the core are left out:
  - `preprocessContent` of the translation server, with the topic and markdown processors it imports;
  - the `vite-liquid-include` plugin, which reads files recursively;
  - the plugin registration in the markdown configuration;
  - the `ws-render-inline` wrapper;
  - the `ws-rename` plugin, which depends on configuration that is not part of this model.

## Findings

| source | as written | input that shows it | evidently intended | confidence | as-written member | corrected member |
|---|---|---|---|---|---|---|
| docs/.vitepress/plugins/markdown/common/markdown-it-remove-script.ts:13-15 | the guard `content.includes('<script')` is case-sensitive while the pattern has the `i` flag | `<SCRIPT></SCRIPT>` in an HTML block is printed with the element | remove every element the pattern recognises, in any case | not executed | RemoveScript.UpperCaseScriptKept | RemoveScript.FixedRemovesEveryScript |
| docs/.vitepress/plugins/markdown/writerside/markdown-it-ws-inline-link.ts:203-211 | `match.replace(value, newValue)` replaces the first occurrence of the value in the whole match, which can be the tag name | `<a href="a">` in an HTML block becomes `<` + new value + ` href="a">` | replace the attribute's value in place | not executed | InlineLink.BlockTagNameOverwritten | InlineLink.AttrReplacedInPlace |
| translate-tool/server.mjs:566 | `/([^\\])\\n/g` consumes the character before each escape, so the second of two adjacent literal `\n` is skipped | `a\n\n` (two literal backslash-n) becomes `a`, a newline and a literal `\n` | turn every literal `\n` not preceded by a backslash into a newline | not executed | TranslateServer.CleanupAdjacentEscapes | TranslateServer.CleanupIntended |
