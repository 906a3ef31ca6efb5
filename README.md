# WorkFlowy userscripts in Dafny

A Dafny model of the rules inside four WorkFlowy userscripts by BettyJJ:

- **KaTeXFlowy-with-AsciiMath.js** detects `$…$` LaTeX and `` `…` `` AsciiMath in an outline
  node. `handle_node` keeps one `rendered-latex` container right after the node's parent and
  marks the parent `has-latex`. `convert_to_latex` rewrites AsciiMath pairs into `$…$`.
- **KaTeXFlowy.js** puts an iframe holding the node's text right after each content node that
  holds `$…$` (`insert_iframe`). A click inside the iframe moves the single `latax-focused`
  mark to the node before it (`remove_old_focus` and the click listener).
- **Markdown-WorkFlowy.js** collects the raw Markdown of the page (`get_raw_content`). A preview
  button toggles `bmd-has-preview`. While the preview is open, `update_preview` refreshes the
  viewer whenever a content node is added.
- **Ordered-Lists-for-WorkFlowy.js** gives the nearest `.project` of an added content node the
  class `list-ol` exactly when the node holds a `#ol` tag (`add_class`).

Modules, one file each:

- `Dom` (`dom.dfy`): class lists as duplicate-free token sequences, with `add`, `remove` and
  `toggle`. It also holds the `Outcome` of a DOM callback: it ran to its end, or it threw a
  `TypeError`.
- `Delimiters` (`delimiters.dfy`): the three regular expressions, stated the way the JavaScript
  matcher runs them. Each start position is tried from left to right. The lazy `.+?` tries the
  closing delimiter before it takes another character. `.` does not match the four line
  terminators unless the `s` flag is set. `replaceAll` is a scan into kept characters and
  matches, followed by a rewrite.
- `KatexAscii` (`katex_ascii.dfy`): `handle_node` on the sibling list of the node's parent.
- `KatexFrames` (`katex_frames.dfy`): `should_render`, `insert_iframe`, `remove_old_focus` and
  the iframe click on the document as one node sequence.
- `MarkdownPreview` (`markdown_preview.dfy`): the raw-content collection, the preview panel and
  both observer callbacks.
- `OrderedLists` (`ordered_lists.dfy`): `add_class` on a map from element numbers to class
  lists, plus the observer callback.

Conventions:

- Code that changes the page is a method of a class (`Page`, `Outline`). Each such method is
  proved equal to a specification function of the old state. The properties are then proved
  about those functions.
- The `classList` of a text node is `undefined`, and a query that finds nothing gives `null`.
  Calling `contains`, `add` or `toggle` on such a value, or reading `classList` of `null`,
  throws a `TypeError` in the scripts (for example KaTeXFlowy-with-AsciiMath.js:73,
  KaTeXFlowy.js:126, Markdown-WorkFlowy.js:166). The model returns `TypeError` in those cases
  and leaves the state as it was at the throw.
- `AsciiMathParser.parse` is a function parameter, so it stays uninterpreted.

The style test of `get_raw_content` follows the code. A parent with `style=""` has an attribute
that does not contain `visibility`, so its node is left out. Only a missing attribute, or a
style that mentions `visibility` anywhere, includes the node. That includes `visibility: hidden`
(`MarkdownPreview.IncludedExamples`).

Some members are plain definitions, and their table rows are the lemmas that say what they mean:

- `Delimiters.HasLatex` is described by `Delimiters.HasLatexIff`.
- `Delimiters.HasAsciiMath` is described by `Delimiters.HasAsciiMathIff`.
- `KatexFrames.ShouldRender` is described by `KatexFrames.ShouldRenderIff`.
- `MarkdownPreview.Included` is described by `MarkdownPreview.IncludedIff`.
- `MarkdownPreview.RawContent` is described by the `MarkdownPreview.RawContent…` lemmas and by
  `MarkdownPreview.Page.GetRawContent`.

## Model

| member | source | states |
|---|---|---|
| Dom.Add | KaTeXFlowy-with-AsciiMath.js:86 | `classList.add`: the token is present afterwards and nothing else is added; a present token leaves the list as it was; an absent one goes last; no token is duplicated |
| Dom.Remove | KaTeXFlowy-with-AsciiMath.js:77 | `classList.remove`: exactly the other tokens remain; an absent token leaves the list as it was; no token is duplicated |
| Dom.RemoveCutsOut | KaTeXFlowy-with-AsciiMath.js:77 | in a list without repeats, `remove` cuts out the one occurrence of the token; the tokens before it and after it stay, in their order |
| Dom.Toggle | Markdown-WorkFlowy.js:83 | `classList.toggle`: flips membership of the token and keeps every other token |
| Dom.ToggleTwice | Markdown-WorkFlowy.js:83 | two toggles give back the same token set, and the very same list when the token was absent |
| Dom.RemoveAppended | KaTeXFlowy-with-AsciiMath.js:77-86 | removing a token just appended gives back the list it was appended to |
| Dom.RemoveThenAdd | Ordered-Lists-for-WorkFlowy.js:64-69 | remove-then-add puts the token last, and removing it once more gives back the list without it |
| Dom.AddThenRemove | KaTeXFlowy-with-AsciiMath.js:77-86 | add-then-remove is the same as remove |
| Delimiters.LazyClose | KaTeXFlowy-with-AsciiMath.js:141 | the lazy `.+?d` gives the index of a `d` at or after where it starts |
| Delimiters.LazyCloseFirst | KaTeXFlowy-with-AsciiMath.js:141 | the lazy `.+?d` stops at the first `d` it reaches through characters `.` accepts; when it fails, no such `d` exists |
| Delimiters.PairAt | KaTeXFlowy-with-AsciiMath.js:141 | a successful attempt of `d(.+?)d` at `i` starts with `d` and closes with a `d` at `j >= i+2` |
| Delimiters.PairAtIff | KaTeXFlowy-with-AsciiMath.js:141 | an attempt at `i` succeeds iff `s[i]` is `d` and a `d` at `j >= i+2` is reachable by `.`; the closing index is the first such `d` |
| Delimiters.PairFromDotAll | KaTeXFlowy-with-AsciiMath.js:141-143 | with the `s` flag, a match from `i` on exists iff two delimiters at `a` and `b >= a+2` exist from `i` on |
| Delimiters.DollarFromIsPair | KaTeXFlowy-with-AsciiMath.js:123-124 | the optional `$` groups of `/\$(\$)?(.+?)\$(\$)?/s` accept exactly what `/\$(.+?)\$/s` accepts |
| Delimiters.HasLatexIff | KaTeXFlowy-with-AsciiMath.js:120-130 | `has_latex` is true iff the text has `$` at `i` and `j` with `j >= i+2`, newlines allowed between |
| Delimiters.HasAsciiMathIff | KaTeXFlowy-with-AsciiMath.js:138-148 | `has_asciimath` is true iff the text has backticks at `i` and `j` with `j >= i+2`, newlines allowed between |
| Delimiters.Scan | KaTeXFlowy-with-AsciiMath.js:158-163 | the left-to-right, non-overlapping scan of `` /`(.+?)`/g `` covers the text exactly, in order; every match's inner part is non-empty, on one line, and shortest (no backtick after its first character); every piece is the one the matcher takes where the piece before it ends (`FollowsMatcher`) |
| Delimiters.ScanUnique | KaTeXFlowy-with-AsciiMath.js:158-163 | any sequence of pieces that follows the matcher from a position is the scan from there |
| Delimiters.CoversAgree | KaTeXFlowy-with-AsciiMath.js:158-163 | two sequences of pieces that each take, where the previous piece ends, the piece the matcher gives there are equal |
| Delimiters.MatchesAreScan | KaTeXFlowy-with-AsciiMath.js:158-163 | the scan is the only sequence of pieces that follows the matcher through a text |
| Delimiters.KeptBacktickNoMatch | KaTeXFlowy-with-AsciiMath.js:158-163 | in pieces that follow the matcher, such as the scan's, no match starts at a kept backtick: every one-line backtick pair whose opening backtick lies outside the earlier matches is converted |
| Delimiters.ConvertToLatex | KaTeXFlowy-with-AsciiMath.js:156-165 | `convert_to_latex` is the rewrite of the pieces the matcher takes, left to right: each match becomes `'$' + parse(inner) + '$'` and every other character is copied |
| Delimiters.PairInnerOk | KaTeXFlowy-with-AsciiMath.js:158 | the inner part of a match found without the `s` flag is non-empty, holds no line terminator and no later backtick |
| Delimiters.RewriteKeptOnly | KaTeXFlowy-with-AsciiMath.js:160-164 | where the scan found no match, `replaceAll` copies the text |
| Delimiters.NoBacktickUnchanged | KaTeXFlowy-with-AsciiMath.js:156-165 | `convert_to_latex` returns a string without backticks unchanged |
| Delimiters.NewlinePairDetected | KaTeXFlowy-with-AsciiMath.js:141-143 | "`a\nb`" is detected as AsciiMath |
| Delimiters.NewlinePairScan | KaTeXFlowy-with-AsciiMath.js:158 | without the `s` flag, "`a\nb`" yields no match: every character is kept |
| Delimiters.NewlinePairDetectedNotConverted | KaTeXFlowy-with-AsciiMath.js:141-158 | a backtick pair around a line break is detected by `has_asciimath` but left unconverted by `convert_to_latex` |
| Delimiters.OneLinePairConverted | KaTeXFlowy-with-AsciiMath.js:160-163 | "x`a`y" becomes "x$" + parse("a") + "$y" |
| Delimiters.ClosingBacktickNotReopened | KaTeXFlowy-with-AsciiMath.js:158-163 | matches do not overlap: in "`a`b`" the backtick closing the first match opens no second one, so the result is "$" + parse("a") + "$b`" |
| KatexAscii.NewContainer | KaTeXFlowy-with-AsciiMath.js:89-96 | the container is a `rendered-latex` element holding `convert_to_latex(innerHTML)`, whose classes are `rendered-latex` and the parent's second class |
| KatexAscii.Cleared | KaTeXFlowy-with-AsciiMath.js:72-78 | a container right after the parent is removed along with the parent's `has-latex`; everything else stays |
| KatexAscii.Inserted | KaTeXFlowy-with-AsciiMath.js:85-96 | the parent gains `has-latex` and a new container goes directly after it; the rest of the list is kept |
| KatexAscii.HandleNodeSpec | KaTeXFlowy-with-AsciiMath.js:65-96 | no parent: nothing changes; a text node after the parent: TypeError, nothing changes; otherwise the parent has `has-latex` and a fresh container after it iff the text holds LaTeX or AsciiMath, and keeps its other classes and markup (for a parent that itself stands in a sibling list) |
| KatexAscii.HandleNodeKeepsConsistent | KaTeXFlowy-with-AsciiMath.js:72-96 | `has-latex` is present iff a container follows the parent, no two containers follow it, and a container follows iff the text holds math (for a parent that itself stands in a sibling list) |
| KatexAscii.HandleNodeIdempotent | KaTeXFlowy-with-AsciiMath.js:72-93 | a second `handle_node` on the same node leaves the siblings as the first left them, so containers never pile up |
| KatexAscii.ClearingUndoesInsert | KaTeXFlowy-with-AsciiMath.js:73-96 | removing a container just inserted, with its `has-latex`, gives back the list before the insertion |
| KatexAscii.Page.HandleNode | KaTeXFlowy-with-AsciiMath.js:65-96 | the statements of `handle_node` leave exactly the state `HandleNodeSpec` describes |
| KatexFrames.ShouldRenderIff | KaTeXFlowy.js:81-95 | `should_render` is false without `innerContentContainer`, and otherwise true iff the text has two `$` at least two positions apart |
| KatexFrames.BodyTextOfSrcDoc | KaTeXFlowy.js:58-61 | the node's text can be read back from the iframe document |
| KatexFrames.SrcDocInjective | KaTeXFlowy.js:58-61 | different texts give different iframe documents |
| KatexFrames.Frame | KaTeXFlowy.js:57-61 | the new iframe has no classes and wraps the node's text as its document |
| KatexFrames.FrameShowsText | KaTeXFlowy.js:58-61 | the iframe's `srcdoc` is the fixed head, `<body style="margin:0">`, the text, `</body></html>`, and its body reads back as the text |
| KatexFrames.Spliced | KaTeXFlowy.js:53-67 | the node gains `has-latex` and the iframe stands directly after it; the rest of the document is kept |
| KatexFrames.InsertIframeSpec | KaTeXFlowy.js:48-67 | `insert_iframe` changes nothing when `should_render` is false; otherwise the node gains `has-latex` and the new iframe goes directly after it (for a node inside the document) |
| KatexFrames.SplicedAddsOneFrame | KaTeXFlowy.js:53-67 | splicing in an iframe adds exactly one iframe to the document |
| KatexFrames.InsertIframeAddsOneFrame | KaTeXFlowy.js:48-73 | `insert_iframe` adds one iframe when it renders and none otherwise; none is ever removed (for a node inside the document) |
| KatexFrames.RepeatedInsertStacksFrames | KaTeXFlowy.js:48-73 | two `insert_iframe` calls on a rendering node leave two iframes directly after it |
| KatexFrames.FocusCountZero | KaTeXFlowy.js:150-151 | the live collection is empty iff no element carries `latax-focused` |
| KatexFrames.FirstFocused | KaTeXFlowy.js:150-152 | `old_focus[0]` is the first focused element in document order |
| KatexFrames.Unfocus | KaTeXFlowy.js:152 | removing `latax-focused` unfocuses an element and keeps its tag, text, document and other classes |
| KatexFrames.UnfocusedClearsAll | KaTeXFlowy.js:149-154 | after clearing, no element is focused; clearing a document without focus changes nothing |
| KatexFrames.UnfocusFirstStep | KaTeXFlowy.js:151-153 | one loop pass shrinks the collection by one and keeps the final document, which gives termination |
| KatexFrames.ClickFrameSpec | KaTeXFlowy.js:124-127 | a click throws iff the iframe has no previous sibling or it is not an element |
| KatexFrames.ClickFocusesExactlyOne | KaTeXFlowy.js:124-127 | after a click exactly one element is focused, the iframe's previous sibling; after a throw, none is |
| KatexFrames.Page.InsertIframe | KaTeXFlowy.js:48-67 | the statements of `insert_iframe` give `InsertIframeSpec` |
| KatexFrames.Page.RemoveOldFocus | KaTeXFlowy.js:149-154 | the loop ends with `latax-focused` removed from every element and nothing else changed |
| KatexFrames.Page.ClickFrame | KaTeXFlowy.js:124-127 | the click listener gives `ClickFrameSpec` |
| MarkdownPreview.IndexFrom | Markdown-WorkFlowy.js:127 | `indexOf` from a position: -1 iff there is no occurrence there or later, else the first occurrence |
| MarkdownPreview.IndexOf | Markdown-WorkFlowy.js:127 | `indexOf`: -1 iff there is no occurrence, else the first occurrence |
| MarkdownPreview.IncludedIff | Markdown-WorkFlowy.js:127 | a node is collected iff its parent has no `style` or the style contains `visibility` |
| MarkdownPreview.IncludedExamples | Markdown-WorkFlowy.js:127 | no style is collected; `""` is not; `visibility: hidden` is; a style without the word is not |
| MarkdownPreview.RawContentAppend | Markdown-WorkFlowy.js:118-134 | the raw text of two runs of nodes is the first's followed by the second's: in order, nothing dropped or repeated |
| MarkdownPreview.RawContentSingle | Markdown-WorkFlowy.js:126-129 | one node contributes its text and `"\n"` when its parent passes the style test, nothing otherwise |
| MarkdownPreview.RawContentEmptyIff | Markdown-WorkFlowy.js:121-133 | the raw text is `""` iff no node passes the style test |
| MarkdownPreview.RawContentEndsWithNewline | Markdown-WorkFlowy.js:127-128 | a non-empty raw text ends with `"\n"` |
| MarkdownPreview.UpdatePreviewSpec | Markdown-WorkFlowy.js:163-179 | TypeError without a `.pageContainer`; no-op while `bmd-has-preview` is off or there is no box; TypeError iff the container is missing or the first box has no viewer, and then nothing changes; otherwise the viewer holds exactly the current raw text |
| MarkdownPreview.UpdatePreviewIdempotent | Markdown-WorkFlowy.js:163-179 | a second `update_preview` on the same page gives the same state and outcome |
| MarkdownPreview.ClickSpec | Markdown-WorkFlowy.js:80-89 | the click flips `bmd-has-preview` and keeps the other classes; it gives the first box a viewer with the current raw text iff the flag ends up set |
| MarkdownPreview.ClickTwice | Markdown-WorkFlowy.js:80-89 | two clicks restore the class set, and the exact class list when the preview started closed |
| MarkdownPreview.ClickMakesViewerReady | Markdown-WorkFlowy.js:80-111 | after any click, an open preview has a viewer |
| MarkdownPreview.UpdatePreviewOnReadyPage | Markdown-WorkFlowy.js:165-178 | on a loaded page whose open preview has a viewer, `update_preview` never throws and leaves the viewer showing the current raw text |
| MarkdownPreview.CountWithClass | Markdown-WorkFlowy.js:143-151 | the number of added elements with a class is 0 iff none is such an element |
| MarkdownPreview.ShowPreviewButtonSpec | Markdown-WorkFlowy.js:66-78 | without an active page the call throws and adds nothing; otherwise one box without viewer goes first and one button is added |
| MarkdownPreview.FreshBoxes | Markdown-WorkFlowy.js:75-77 | the boxes `n` calls leave: `n` of them, none with a viewer |
| MarkdownPreview.Page.GetRawContent | Markdown-WorkFlowy.js:118-134 | the loop returns `RawContent` of the node list and changes nothing, so two calls on the same page agree |
| MarkdownPreview.Page.UpdatePreview | Markdown-WorkFlowy.js:163-179 | the statements of `update_preview` give `UpdatePreviewSpec` and touch nothing else |
| MarkdownPreview.Page.ShowPreviewContent | Markdown-WorkFlowy.js:96-111 | the first box gets a viewer holding the current raw text |
| MarkdownPreview.Page.Click | Markdown-WorkFlowy.js:80-89 | the click listener throws and changes nothing without a `.pageContainer`, and otherwise gives `ClickSpec` |
| MarkdownPreview.Page.ShowPreviewButton | Markdown-WorkFlowy.js:66-78 | `show_preview_button` gives `ShowPreviewButtonSpec` |
| MarkdownPreview.Page.OnContentAdded | Markdown-WorkFlowy.js:143-151 | `update_preview` runs once per added `innerContentContainer` element and never for other nodes; the page ends as after one call; a throw stops the batch at the first call |
| MarkdownPreview.Page.OnPageAdded | Markdown-WorkFlowy.js:45-57 | `show_preview_button` runs once per added `pageContainer` element; the batch throws iff there is one and no active page |
| OrderedLists.Closest | Ordered-Lists-for-WorkFlowy.js:63 | `closest('.project')` is the first element of node-then-ancestors with class `project`, or null when there is none |
| OrderedLists.MarkList | Ordered-Lists-for-WorkFlowy.js:62-69 | after remove-then-maybe-add, `list-ol` is present iff the tag is, and the other classes are kept |
| OrderedLists.MarkListIgnoresPrior | Ordered-Lists-for-WorkFlowy.js:62-69 | the result does not depend on whether `list-ol` was there before |
| OrderedLists.MarkListIdempotent | Ordered-Lists-for-WorkFlowy.js:62-69 | marking twice equals marking once |
| OrderedLists.AddClassSpec | Ordered-Lists-for-WorkFlowy.js:56-71 | no parent: nothing changes; no `.project`: TypeError, nothing changes; otherwise that ancestor has `list-ol` iff the node holds `#ol`, and all other classes and elements are kept |
| OrderedLists.AddClassIdempotent | Ordered-Lists-for-WorkFlowy.js:62-69 | applying `add_class` twice equals applying it once |
| OrderedLists.ClosestSameProjects | Ordered-Lists-for-WorkFlowy.js:63 | `closest` depends only on which elements carry `project` |
| OrderedLists.AddClassIgnoresPrior | Ordered-Lists-for-WorkFlowy.js:62-69 | changing only the ancestor's `list-ol` before the call does not change the result |
| OrderedLists.Visit | Ordered-Lists-for-WorkFlowy.js:38-42 | a non-element, or an element without `innerContentContainer`, changes nothing |
| OrderedLists.OnMutationsSpec | Ordered-Lists-for-WorkFlowy.js:35-46 | the callback never adds or drops an element of the outline |
| OrderedLists.ContentOnly | Ordered-Lists-for-WorkFlowy.js:38-42 | the content elements of a batch: every one it keeps is a content element of the batch, every content element of the batch is kept, and none is kept when there are none |
| OrderedLists.ContentOnlyAppend | Ordered-Lists-for-WorkFlowy.js:38-42 | filtering two runs of nodes gives the filtered first run followed by the filtered second, so the kept elements stay in delivery order |
| OrderedLists.OnMutationsSkipsOthers | Ordered-Lists-for-WorkFlowy.js:36-43 | the callback does on a batch exactly what it does on the batch's content elements alone |
| OrderedLists.NoContentNoChange | Ordered-Lists-for-WorkFlowy.js:36-43 | a batch without content elements changes nothing |
| OrderedLists.OnMutationsStops | Ordered-Lists-for-WorkFlowy.js:35-46 | after a throw the rest of the batch is not run |
| OrderedLists.Outline.AddClass | Ordered-Lists-for-WorkFlowy.js:56-71 | the statements of `add_class` give `AddClassSpec` |
| OrderedLists.Outline.OnMutations | Ordered-Lists-for-WorkFlowy.js:35-46 | the callback's loop gives `OnMutationsSpec` |

## Left out

- Userscript headers and the `@require`/`@resource` loading: packaging, not logic.
- Setting up the MutationObservers and the browser event loop. Each callback is modelled on one given batch of added nodes: `MarkdownPreview.Page.OnContentAdded`, `MarkdownPreview.Page.OnPageAdded` and `OrderedLists.Outline.OnMutations`.
- The `watch_page` callbacks of the two KaTeX scripts. The AsciiMath script calls `handle_node` only for added elements of class `innerContentContainer`; KaTeXFlowy.js calls `insert_iframe` for every added element and leaves the class test to `should_render`. Each insertion shifts the positions the next call works on, so only the per-node operations are modelled.
- The rendering done by KaTeX (`renderMathInElement`) and by the toastui viewer: external libraries. A box's viewer is reduced to the Markdown string it was last given.
- The internals of `AsciiMathParser.parse`: external library. It is a function parameter.
- `iframe_onload` sizing, the iframe's `style.display` and `style.width`, and its `onload` hook: layout, not stateable.
- `load_css`, `hide_raw`, `add_style`, and the `GM.addStyle`/`GM_getResourceText` calls: CSS injection and I/O.
- The document-wide click listener in `hide_raw` of KaTeXFlowy.js only calls `remove_old_focus`, which is modelled.
- The `parent.focus()` click handler of the AsciiMath container: UI focus.
- The DOM is flattened per script:
  - `KatexAscii` sees only the sibling list of the node's parent.
  - `KatexFrames` sees one node sequence in document order. An iframe's previous sibling is the node before it in that sequence.
  - `MarkdownPreview` sees the `innerContentContainer` list, whether a `.pageContainer` exists and its classes, the preview boxes and the button count. The callbacks leave the container's existence as it is; the page adds it.
  - `OrderedLists` sees a map from element numbers to class lists.
- The parent of an `.innerContentContainer` in `get_raw_content` is taken to exist. In WorkFlowy it always does, and a missing one would make the script throw.
- `KatexFrames.Frame`: the iframe's `srcdoc` is kept as the wrapped body text, not as the string. `Html` spells out the string and `KatexFrames.FrameShowsText` states it. `BodyTextOfSrcDoc` shows that the string determines the body, so nothing is lost.
- `KatexAscii.HandleNodeIdempotent`: only the sibling list is claimed to repeat, not the outcome. A second call can throw when the first call removed a container that stood before a text node.
- `KatexAscii.HandleNodeSpec`: the parent is always an entry of a sibling list, so the model cannot state the case of a parent that has no parent of its own. There `insertAdjacentElement('afterend', …)` (KaTeXFlowy-with-AsciiMath.js:93) inserts nothing and returns null without throwing, so the parent keeps the `has-latex` added at line 86 and gets no container.
- `KatexAscii.HandleNodeKeepsConsistent`: holds only for a parent inside a sibling list. For a detached parent the source leaves `has-latex` without a container, which breaks the invariant.
- `KatexFrames.InsertIframeSpec`: the node is always an entry of the document sequence, so a detached node is not covered. For such a node holding a `$` pair, KaTeXFlowy.js:54 adds `has-latex` and the insertion at line 67 adds no iframe.
- `KatexFrames.InsertIframeAddsOneFrame`: for that detached node the source adds no iframe, so the one-more-iframe count applies only to nodes inside the document.
