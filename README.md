# web-md editor core, modelled in Dafny

web-md is a live Markdown editor for the browser. Text typed in a text area
is rendered into a preview pane. Before the text reaches the Markdown
renderer, `updatePreview` runs five regular-expression passes over it:

1. **auto-wrap**: a bare `\begin{env}…\end{env}` block is wrapped in
   `$$\n` … `\n$$`, and a block already between `$$` delimiters is left
   as it is;
2. **shield**: fenced code, inline code, `$$` blocks and environments are
   replaced by placeholders `__CJK_PROT_<i>__`, and the originals are kept
   in a list;
3. **strong**: `**x**` becomes `<strong>x</strong>`. The pattern is written
   so that it also fires right before Korean, Chinese or Japanese text,
   as in `**강조**에`;
4. **italic**: `*x*` becomes `<em>x</em>`;
5. **restore**: every placeholder is replaced by the original it indexes.

The editor also continues Markdown lists when Enter is pressed. On a
bullet or numbered item, it inserts a line feed and the next item's marker,
with the number increased by one. On an item with no content, it removes
the marker, which ends the list. Two small helpers are modelled as well:
`escapeHtml`, which escapes the five HTML-special characters, and
`isSvgPath`.

The project has eight modules:

- `Wrappers` (`wrappers.dfy`): the `Option` type.
- `Strings` (`strings.dfy`): JavaScript's `\s`, `\d` and letter classes,
  greedy runs, the leftmost search that a lazy `[\s\S]*?` performs,
  `trim`, and decimal numerals with `parseInt`.
- `Escape` (`escape.dfy`): `escapeHtml` and `isSvgPath`.
- `AutoWrap` (`autowrap.dfy`): the auto-wrap pass. It also provides the
  `$$` and `\begin{…}` matchers that the shield pass reuses.
- `Shield` (`shield.dfy`): the shield pass and the restore pass.
  - The shield pass is an imperative `method` whose loop is proved
    against a scan function.
  - Both passes are proved to be inverse to each other.
- `Emphasis` (`emphasis.dfy`): the strong and italic passes, and the
  relation "only stars were turned into tags".
- `Preview` (`preview.dfy`): the whole pipeline, as a function and as a
  `method` that runs the passes one after another, with the end-to-end
  theorems.
- `ListContinuation` (`listcontinuation.dfy`): the Enter-key handler as
  the method `KeyDown` of a class `Editor`. The class holds the text
  area's `value`, `selectionStart` and `selectionEnd`. The handler is
  proved against a pure specification, `Enter`.

Every global `replace` is modelled as a left-to-right scan: at each index,
the pattern is tried, and if it matches, its replacement is written and
the scan skips the match; otherwise one character is copied. This is how
JavaScript's `String.prototype.replace` with the `g` flag proceeds.

How backtracking resolves each pattern is written out in the matchers:

- the greedy runs of `\s*`, `\d+` and `[a-zA-Z]*` are maximal;
- a lazy `[\s\S]*?` stops at the first closing text;
- the back-reference `\1` of the auto-wrap pattern demands the name of the
  opening tag;
- the strong pattern closes at the first `**` at index 4 or later that is
  preceded by a non-space, non-star character; it closes at index 3, after
  a one-character text, only when there is no such later `**`;
- the italic pattern's closing star is the first star after the text
  starts.

## Model

| member | source | states |
|---|---|---|
| Escape.EscapeHtmlIsPerCharacter | script.js:34-39 | The five chained replacements, `&` first, equal escaping each character on its own. No entity written by one stage is rewritten by a later one. |
| Escape.EscapeHtmlAppend | script.js:34-39 | `escapeHtml` distributes over concatenation. |
| Escape.EscapeHtmlIsSafe | script.js:34-39 | The output holds no `<`, `>`, `"` or `'`. Every `&` in it starts one of `&amp;`, `&lt;`, `&gt;`, `&quot;`, `&#39;`. |
| Escape.EscapeHtmlRoundTrip | script.js:34-39 | Decoding the five entities gives back the input exactly, so escaping loses nothing. |
| Escape.EscapeHtml | script.js:34-39 | The five global replacements, `&` first. Its contract is stated by EscapeHtmlIsPerCharacter, EscapeHtmlIsSafe and EscapeHtmlRoundTrip. |
| Escape.NoEffect | script.js:35-39 | A replacement of a character that does not occur leaves the text unchanged. |
| Escape.ReplaceCharAppend | script.js:35-39 | One global single-character replacement distributes over concatenation. |
| Escape.SvgFrom | script.js:41 | The regular-expression search from index `i` succeeds exactly when `/\.svg(\?.*)?(#.*)?$/i` matches at some index `j >= i`. |
| Escape.IsSvgPath | script.js:41 | The search of `/\.svg(\?.*)?(#.*)?$/i` in the trimmed path. SvgFrom states what the search accepts; SvgExtensionIsSvg, SvgQueryIsSvg and the two counterexamples state its cases. |
| Escape.SvgExtensionIsSvg | script.js:41 | A path ending in `.svg`, in any letter case, is an SVG path. |
| Escape.SvgQueryIsSvg | script.js:41 | `.svg` followed by a one-line `?query` is an SVG path, with or without trailing whitespace. |
| Escape.SvgMatchIsSvg | script.js:41 | A match anywhere in the trimmed path makes `isSvgPath` true. |
| Escape.LongerExtensionIsNotSvg | script.js:41 | `logo.svgz` is not an SVG path: the `$` anchor rejects it. |
| Escape.OtherExtensionIsNotSvg | script.js:41 | `logo.png` is not an SVG path. |
| AutoWrap.TagAt | script.js:114 | A tag that is found starts with the opening text and ends with `}`. |
| AutoWrap.TagAtSound | script.js:114 | The name in a tag that is found matches `[a-zA-Z]*\*?`. |
| AutoWrap.TagAtComplete | script.js:114 | Every tag whose name matches `[a-zA-Z]*\*?` is found, with its whole name. |
| AutoWrap.MathBlockAt | script.js:114 | A `$$` block that is found starts with `$` and is at least four characters long. MathBlockAtShape states exactly when one is found and its shape. |
| AutoWrap.MathBlockAtShape | script.js:114 | A `$$` block is found exactly when `$$` starts the text and occurs again later. The block found holds no inner `$$`, because the lazy match stops at the first one. |
| AutoWrap.EnvBlockAt | script.js:114 | An environment block that is found is non-empty and starts with a backslash. EnvBlockAtShape and EnvBlockAtComplete state its shape in both directions. |
| AutoWrap.EnvBlockAtShape | script.js:114 | An environment block is the opening tag, then text with no closing tag of that name, then `\end{name}`. The closing name is the one the back-reference demands. |
| AutoWrap.EnvBlockAtComplete | script.js:114 | Conversely, text that starts with an environment block is matched with that block's name, exactly to its end. |
| AutoWrap.EnvBlockIsWellFormed | script.js:114 | An opening tag followed by its first matching closing tag forms such a block. |
| AutoWrap.NextSegment | script.js:114 | One step of the global scan: `$$` block, else environment, else one character. Its match is non-empty and fits in the text. |
| AutoWrap.Segments | script.js:114-117 | The global scan, left to right. SegmentsCover and SegmentsWellFormed state its contract. |
| AutoWrap.Replacement | script.js:115-116 | The callback: a `$$` block is returned as it is, an environment gets `$$\n` before and `\n$$` after. AutoWrapKeepsMathBlock and AutoWrapWrapsEnvironment state it on whole blocks. |
| AutoWrap.AutoWrap | script.js:114-117 | The auto-wrap pass. AutoWrapKeepsAbsent, AutoWrapKeepsMathBlock and AutoWrapWrapsEnvironment state its contract. |
| AutoWrap.NextSegmentShape | script.js:114 | What the scan finds at an index has the shape its alternative describes. `$$` blocks are tried before environments. |
| AutoWrap.NextSegmentPrefix | script.js:114 | The segment found is a prefix of the remaining text. |
| AutoWrap.SegmentsCover | script.js:114-117 | The global scan cuts the text into segments, without losing or reordering any character. |
| AutoWrap.SegmentsWellFormed | script.js:114-117 | Every segment that the global scan cuts out has the shape of its alternative. |
| AutoWrap.RenderedAbsent | script.js:114-117 | The replacements only add `$` and line feeds, so a pattern without those that is absent from the input stays absent. |
| AutoWrap.AutoWrapKeepsAbsent | script.js:114-117 | Auto-wrapping cannot create the placeholder prefix `__CJK_PROT_`, or any other text without `$` or line feeds. |
| AutoWrap.AutoWrapKeepsMathBlock | script.js:114-117 | Any text that is one whole `$$` block, whatever its body holds, is returned unchanged. |
| AutoWrap.AutoWrapWrapsEnvironment | script.js:114-117 | Any text that is one whole environment block becomes `$$\n` + the text + `\n$$`, whatever commands or line breaks its body holds. |
| AutoWrap.AutoWrapBareExample | script.js:114-117 | `\begin{align}x=1\end{align}` is wrapped in `$$\n`…`\n$$`. |
| AutoWrap.AutoWrapLineBreakExample | script.js:114-117 | `\begin{align}a\\b\end{align}`, whose body holds backslashes, is wrapped whole. |
| AutoWrap.AutoWrapDelimitedExample | script.js:114-117 | The same environment, already between `$$` delimiters, is left as it is. |
| Shield.Placeholder | script.js:124 | A placeholder starts with `__CJK_PROT_` and has at least three more characters. |
| Shield.FenceAt | script.js:122 | A fenced block that is found starts with a backtick and is at least six characters long. FenceAtShape states where it ends. |
| Shield.CodeAt | script.js:122 | An inline code span that is found starts with a backtick and is at least two characters long. CodeAtShape states where it ends. |
| Shield.FenceAtShape | script.js:122 | A fenced block ends at the first triple backtick after the opening one. With no closing fence, nothing is found. |
| Shield.CodeAtShape | script.js:122 | An inline code span ends at the next backtick, even across lines. With no closing backtick, nothing is found. |
| Shield.FindEndIsFirst | script.js:122 | The environment alternative ends at the first `\end{…}` tag, whatever its name. No closing tag lies before it. |
| Shield.EnvAt | script.js:122 | An environment block that is found is non-empty and starts with a backslash. EnvAtShape and EnvAtComplete state its shape in both directions. |
| Shield.EnvAtShape | script.js:122 | An environment block that is found runs from `\begin{…}` to the first `\end{…}` of any name after the opening tag. No closing tag lies between them. |
| Shield.EnvAtComplete | script.js:122 | Conversely, an opening tag followed by any `\end{…}` is always found, and the block ends at that closing tag when no other closing tag lies before it. |
| Shield.ProtectAt | script.js:122 | A protected block is non-empty. It starts with a backtick, a `$` or a backslash. |
| Shield.ShieldPieces | script.js:122-125 | The shield scan as a function. ShieldPiecesCover and the method Shield state its contract. |
| Shield.ShieldPiecesCover | script.js:122-125 | The shield scan cuts the text into pieces, without losing or reordering anything. The blocks are numbered 0, 1, 2, … in scan order. |
| Shield.Shield | script.js:121-125 | The loop builds the shielded text and the list `protectedBlocks`, which hold the placeholder text and the originals in scan order. On text without the prefix, restoring gives the input back. |
| Shield.RefAt | script.js:133 | A reference `__CJK_PROT_(\d+)__` that is found spans the prefix, a run of digits and `__`. |
| Shield.Lookup | script.js:133 | The captured digits give `protectedBlocks[i]` when they are the numeral JavaScript writes for an index `i` in range. When they name no index, the result is the text `undefined`. |
| Shield.IndexNumeral | script.js:133 | The digit strings that name an array index are exactly the canonical numerals, and each names its own value. |
| Shield.Restore | script.js:133 | The restore pass. RestoreWithoutReferences, RestorePlaceholder and ShieldThenRestore state its contract. |
| Shield.RestoreWithoutReferences | script.js:133 | Text without the placeholder prefix passes through the restore pass unchanged. |
| Shield.RestoreWithoutUnderscore | script.js:133 | Text without `_` holds no reference and is copied. |
| Shield.PlaceholderIsReference | script.js:133 | A placeholder is read back as a whole reference to its own index, whatever follows it. |
| Shield.LookupOfPlaceholder | script.js:133 | The lookup of a placeholder's digits gives `protectedBlocks[i]`. |
| Shield.RestorePlaceholder | script.js:133 | A placeholder is replaced by the original it indexes. |
| Shield.NoReferenceAcross | script.js:133 | No reference starts inside prefix-free plain text, even one that continues into a placeholder. |
| Shield.CleanWhenAbsent | script.js:122-133 | On prefix-free input, the restore pass finds a reference exactly where a placeholder was put. |
| Shield.RestorePieces | script.js:133 | Restoring shielded pieces whose placeholders index `protectedBlocks` gives back the text they were cut from. |
| Shield.ShieldThenRestore | script.js:122-133 | Shield followed by restore is the identity on any text that does not contain `__CJK_PROT_`. |
| Shield.NothingToProtect | script.js:122-125 | Text with no backtick, `$` or backslash is not changed by shielding, and no block is recorded. |
| Shield.ShieldPlainThen | script.js:122-125 | Characters that cannot start a block are scanned one at a time, and the scan of the rest is unchanged. |
| Shield.PlaceholderHasNoStar | script.js:124 | A placeholder contains no `*`, so the emphasis passes cannot split it. |
| Shield.PrefixCollision | script.js:122-133 | `__CJK_PROT_5` followed by an inline code span does not round-trip. The restore pass reads `__CJK_PROT_5__` and writes `undefined`. |
| Emphasis.CloseFrom | script.js:128 | The first index at or after `k` where the strong pattern can close, or none. |
| Emphasis.StrongAt | script.js:128 | The strong pattern matches exactly when `**`, a non-space non-star character and a possible closing follow. It closes at the first possible closing after the one-character case. |
| Emphasis.Strong | script.js:128 | The strong pass. StrongWithoutStars, StrongWraps and StrongRetags state its contract. |
| Emphasis.StrongWithoutStars | script.js:128 | Star-free text passes through the strong pass unchanged. |
| Emphasis.OnlyClosing | script.js:128 | In `**x**rest`, with star-free `x` and `rest`, the match closes right after `x`. |
| Emphasis.StrongWraps | script.js:128 | `**x**rest` becomes `<strong>x</strong>rest` when `x` and `rest` are star-free and `x` has non-space, non-star edges. |
| Emphasis.StrongBeforeHangul | script.js:127-128 | `**강조**에` becomes `<strong>강조</strong>에`: emphasis directly before a Korean particle fires. |
| Emphasis.StrongTakesLaterClosing | script.js:128 | `**x**y**` becomes `<strong>x**y</strong>`. |
| Emphasis.StrongRetags | script.js:128 | The strong pass only turns pairs of stars into `<strong>` and `</strong>`. |
| Emphasis.CloseAt | script.js:130 | The rest of the italic pattern captures the text between the stars. That text has no line feed and ends with an edge character. The boundary after it is one non-star character, or the end of the text. |
| Emphasis.ItalicAt | script.js:130 | A match of the italic pattern that is found consumes at least three characters and fits in the text. ItalicAtSound and ItalicAtComplete state it in both directions. |
| Emphasis.ItalicAtSound | script.js:130 | Every match the italic matcher returns is a match of the italic pattern: a non-star boundary or the start of the text, a star, one-line text with non-space non-star edges, a star, and a non-star boundary or the end of the text. |
| Emphasis.ItalicAtComplete | script.js:130 | Every match of the pattern at an index is the one the matcher returns, so the pattern has one match there. |
| Emphasis.ItalicMatchStep | script.js:130 | A match is replaced by `$1<em>$2</em>$3`, and the scan resumes after the consumed boundary. |
| Emphasis.Italic | script.js:130 | The italic pass. ItalicWithoutStars, ItalicWraps and ItalicRetags state its contract. |
| Emphasis.ItalicWithoutStars | script.js:130 | Star-free text passes through the italic pass unchanged. |
| Emphasis.ItalicWraps | script.js:130 | `pre*x*rest` becomes `pre<em>x</em>rest` for a one-line, star-free `x` with edge characters. |
| Emphasis.ItalicTrailingStar | script.js:130 | A star at the very end of the text is never an opening star. |
| Emphasis.ItalicFirstMatch | script.js:130 | After a match at the start of the text, the scan resumes past the boundary character it consumed. |
| Emphasis.ItalicLoneStars | script.js:130 | A starred text that follows a consumed boundary is left as it is. |
| Emphasis.ItalicConsumesBoundary | script.js:130 | In `*x* *y*` only the first span becomes `<em>`: the shared space is consumed by the first match. |
| Emphasis.ItalicRetags | script.js:130 | The italic pass only turns single stars into `<em>` and `</em>`. |
| Emphasis.RetaggedTrans | script.js:128-130 | Retagging after retagging is a retagging. |
| Emphasis.PassesRetag | script.js:128-130 | The two passes together change nothing but stars. |
| Preview.Preprocess | script.js:111-133 | The method runs the five passes in order and computes the pipeline function. On prefix-free input, every protected block reaches the output verbatim. Without stars, the output is the auto-wrapped text. |
| Preview.Preprocessed | script.js:113-133 | The five passes as one function. Preprocess is proved to compute it, and ProtectedVerbatim and PreprocessWithoutStars state its contract. |
| Preview.ProtectedVerbatim | script.js:113-133 | On input without `__CJK_PROT_`, the output is the auto-wrapped text with every protected block copied verbatim and only stars outside them retagged. |
| Preview.ShieldedPassesEmphasise | script.js:122-133 | Shield, strong, italic and restore, on prefix-free text, keep the protected blocks byte for byte. |
| Preview.PreprocessWithoutStars | script.js:113-133 | Without stars and without the prefix, the pipeline returns the auto-wrapped text. |
| Preview.RestoreRetagged | script.js:122-133 | Restoring any retagging of shielded text gives the protected originals back, in place, with only stars outside them retagged. |
| Preview.NoRefRetagged | script.js:128-133 | The tags the emphasis passes write cannot form a reference with the text around them. |
| Preview.ShieldedLacksStar | script.js:122-125 | Shielding adds no star. |
| ListContinuation.LineStart | script.js:330-331 | The line start is one past the last line feed before the cursor, or 0. No line feed lies between it and the cursor. |
| ListContinuation.MatchBullet | script.js:334-340 | A match of `^(\s*[*+-]\s+)(.*)$` is a well-formed bullet item whose text is the line. |
| ListContinuation.MatchNumbered | script.js:352-356 | A match of `^(\s*)(\d+)(\.\s+)(.*)$` is a well-formed numbered item whose text is the line. |
| ListContinuation.Classify | script.js:337-352 | The bullet pattern is tried first, then the numbered one. A result is a well-formed item spelling the line. |
| ListContinuation.ClassifyComplete | script.js:334-352 | Every well-formed item is recognised, with exactly its captures, so the patterns match exactly the well-formed items. |
| ListContinuation.BulletComplete | script.js:334-338 | The bullet pattern recognises every well-formed bullet line. |
| ListContinuation.NumberedComplete | script.js:335-352 | The numbered pattern recognises every well-formed numbered line. |
| ListContinuation.NotBullet | script.js:334-338 | A numbered line never matches the bullet pattern, so the order of the two tests does not matter for such lines. |
| ListContinuation.Decide | script.js:337-363 | The handler's choice for the current line. DecideCases states its cases. |
| ListContinuation.DecideCases | script.js:338-368 | The handler leaves the key alone exactly on lines that are not items. It ends the list exactly on items with empty content. `trim() === ''` holds only for all-whitespace content. |
| ListContinuation.InsertionStartsNextItem | script.js:347-363 | The inserted text is a line feed followed by the next item: the same indent and bullet, or the number plus one with the same separator. That item is recognised again, it stays on one line, and its number is the old number plus one. |
| ListContinuation.Insertion | script.js:347-363 | The text inserted to start the next item. InsertionStartsNextItem states its contract. |
| ListContinuation.InsertionIsNextLine | script.js:347-363 | The insertion is a line feed followed by the next item's text. |
| ListContinuation.NextItemOnOneLine | script.js:347-363 | The next item holds no line feed. |
| ListContinuation.EnterOnLine | script.js:328-365 | Only the current line decides. Not an item: the browser's default. Empty item: the text becomes `text[..lineStart] + text[start..]` with the cursor at `lineStart`. Otherwise: the insertion at the cursor, with the cursor after it. The text around the line is kept. |
| ListContinuation.Enter | script.js:327-365 | The Enter key as a function of the text and the cursor. EnterOnLine states its contract, and KeyDown is proved against it. |
| ListContinuation.Apply | script.js:341-363 | Carrying out the decision: removing the line, or inserting at the cursor. EnterOnLine states the resulting text and cursor. |
| ListContinuation.EnterAtLine | script.js:328-338 | The decision for a cursor at the end of a line is taken on that line alone. |
| ListContinuation.LineStartOf | script.js:330-331 | For a cursor at the end of a line that follows a line feed, the line start is that line's first index. |
| ListContinuation.EnterTwice | script.js:338-365 | Pressing Enter twice ends the list. The second press removes the marker inserted by the first, leaving a plain line feed after the item. |
| ListContinuation.EndListAt | script.js:341-360 | Enter on an item with no content removes its marker and puts the cursor at the line start. |
| ListContinuation.ContinueInsertsItem | script.js:347-363 | A continuation inserts a line feed and an item with no content. |
| ListContinuation.Editor.KeyDown | script.js:326-370 | Keys other than Enter and non-item lines change nothing and are not handled. Otherwise the new text and cursor are those of `Enter`, and the selection collapses onto the cursor. |
| Strings.TrimEmptyIffBlank | script.js:341 | `content.trim() === ''` holds exactly when the content is all JavaScript whitespace. |
| Strings.ParseDecimalOfDecimal | script.js:354-363 | `parseInt` of the numeral JavaScript writes for `n` is `n`, and that numeral is canonical. |
| Strings.DecimalOfParseDecimal | script.js:133 | A canonical numeral is the one JavaScript writes for its value. |
| Strings.FindFromIsLeftmost | script.js:114-122 | A lazy `[\s\S]*?` stops at the leftmost closing text: none lies before the one found, and when none is found, none exists. |

## Left out

- The DOM is not modelled: the text area, its `input` events, and the
  preview element. The handler's `e.preventDefault()` appears only as the
  boolean result of `KeyDown`. The `updatePreview()` calls are not
  modelled. The keydown event is reduced to its `key`.
- The Markdown, KaTeX and highlight.js renderers are not part of this
  model. They receive the pre-processed text and are foreign code.
- The image renderer (script.js:43-61) and `hydrateSvgImages`
  (script.js:63-102) are left out, because they fetch files and rewrite
  DOM nodes. File open and save, the clipboard, scroll synchronisation,
  and the status and word-count display are left out for the same reason.
- `Escape.IsSvgPath` takes a string. The `typeof path === 'string'` test
  for other argument types is not modelled, and neither is
  `String(value ?? '')` in `escapeHtml`.
- JavaScript strings are UTF-16 code units; here they are `seq<char>`
  code points. A character outside the Basic Multilingual Plane is one
  element here but a surrogate pair in the source. For auto-wrap, shield,
  restore, `escapeHtml`, `isSvgPath` and the list handler this changes
  nothing: each half of a pair falls in the same character classes as the
  whole character, and the text and the cursor are counted in the same
  units. The two emphasis passes differ, on the two inputs below.
- `Emphasis.StrongAt`, `Emphasis.Strong`: when the one-character text
  between `**` pairs is outside the Basic Multilingual Plane, the source
  can close right after it, because its low surrogate alone ends the
  group; the model cannot. On `**😀**b**` the model writes
  `<strong>😀**b</strong>` and the source writes `<strong>😀</strong>b**`.
- `Emphasis.Italic`, `Emphasis.ItalicFirstMatch`: when the boundary after
  a closing star is outside the Basic Multilingual Plane, the source
  consumes only its high surrogate, and the low surrogate can lead the next
  match; the model consumes the whole character. On `*a*😀*b*` the model
  writes `<em>a</em>😀*b*` and the source writes `<em>a</em>😀<em>b</em>`.
- `ListContinuation.InsertionStartsNextItem`: `parseInt` and `number + 1`
  are modelled on unbounded integers. JavaScript loses precision past
  2^53, and writes large numbers in exponent form past 10^21. Those
  digit strings are not modelled.
- `ListContinuation.Editor.KeyDown` reads `selectionStart` only, as the
  source does. A selection that is not collapsed is replaced by the
  cursor position, and its end is ignored.
- `ListContinuation.EnterTwice` is stated for a text already split at the
  current line, `pre + line + post`, with `pre` ending in a line feed. It
  is not stated for an arbitrary text and cursor. `EnterOnLine` and
  `LineStartOf` connect the two views.
- `Shield.ShieldThenRestore` and `Preview.ProtectedVerbatim` require the
  input not to contain `__CJK_PROT_`. The source makes no such check.
  `Shield.PrefixCollision` shows an input on which the round trip fails.
- The inline-code alternative `` `[^`]*?` `` of the shield pattern crosses
  line feeds, because `[^`]` matches them; the model does the same.
