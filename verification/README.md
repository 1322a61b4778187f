# spark-collector-plugin, modelled in Dafny

spark-collector-plugin is a browser extension for collecting "sparks of
inspiration". When the user selects text on a page, a floating
"💡 保存灵感" button appears. Clicking it opens a save dialog, where the
user can add comma-separated tags and notes. The snippet is then
appended to the `snippets` array in extension storage. The content
script also holds a PDF variant of the selection handler, which would
pass the document title and the current page to the dialog. That variant
is assigned only to `window.handleTextSelection` (content.js:428), while
every `mouseup` listener (content.js:356, 423-424) holds the original
handler, so as wired the dialog is only ever opened without metadata
(content.js:324, 375) and no saved record gets a source. The popup lists the snippets grouped by calendar date, newest date
first. It can delete one date's snippets or all of them, and it exports
the collection as Markdown (sectioned by date) or as plain text.

This project models that core as pure functions over immutable data:

| module | file | what it models |
|---|---|---|
| `Options` | options.dfy | `Option<T>`, used for `null` and absent values |
| `Snippets` | snippets.dfy | the stored record, and the `zh-CN` date functions as an uninterpreted `Locale` |
| `Text` | text.dfy | JavaScript `String.prototype.trim`, `split` on one character, `Array.prototype.join`, and `replace` with a string pattern |
| `Tags` | tags.dfy | tag parsing in the save dialog |
| `SaveDialog` | save_dialog.dfy | the PDF source line, the record the save button builds, the save itself, and the PDF title and metadata |
| `Store` | store.dfy | reading, appending and deleting in storage |
| `PdfPage` | pdf_page.dfy | `getCurrentPDFPage` |
| `Placement` | placement.dfy | where the quick-save button is placed, both as written and corrected |
| `QuickSave` | session.dfy | the button's life cycle and the listeners that remove it |
| `Grouping` | grouping.dfy | `groupSnippetsByDate` and the per-date filter |
| `DateOrder` | date_order.dfy | the newest-first order of the date keys |
| `Export` | export.dfy | the Markdown export (`formatExportData`) and the plain-text export |

Storage is an `Option<seq<Snippet>>`, where `None` means the key was never
written. Every reader applies `result.snippets || []` (`Store.Load`).

The date functions are parameters. `Locale.dateKey` stands for
`toLocaleDateString('zh-CN')`. `Locale.dateOrd` stands for the timestamp
the sort comparator takes from a key. `Locale.dateTime` stands for
`toLocaleString('zh-CN')`.

`Object.keys` returns keys in insertion order (first occurrence). The
sort is stable. The model therefore sorts the first-occurrence key list
with a stable insertion sort on `dateOrd`, newest first.

The title of a saved record is `metadata?.title || document.title`
(content.js:172), so an empty metadata title falls back to the page title
(`SaveDialog.NewSnippet`).

## Model

| member | source | states |
|---|---|---|
| Text.TrimParts | content.js:159-163 | `trim` removes only a whitespace prefix and a whitespace suffix, and what it leaves neither starts nor ends with whitespace |
| Text.TrimEmptyIffBlank | content.js:159-163 | a field trims to the empty string exactly when it is all whitespace, which is when `tagsInput ? … : []` and `notes` take their empty branch |
| Text.Split | content.js:163 | `split(',')` gives at least one piece, no piece contains the separator, and joining the pieces with it gives back the input |
| Text.SplitJoin | content.js:163 | splitting a join of comma-free pieces gives back exactly those pieces |
| Text.ReplaceFirst | content.js:436 | `replace` with a string pattern replaces exactly the first occurrence of the pattern and keeps everything around it; a string without the pattern is unchanged |
| Text.ReplaceFirstAt | content.js:436 | when the first occurrence is at `i`, the result is the part before `i`, the replacement, and the part after the match |
| Tags.ParseTags | content.js:159-163 | a blank field gives no tags; every tag is trimmed and non-empty; there are no more tags than comma-separated pieces |
| Tags.ParseTagsPieces | content.js:159-163 | the tags are the trimmed non-empty pieces of the untrimmed field in order, so trimming the field first changes nothing |
| Tags.ParseTagsOfJoined | content.js:159-163 | typing a list of tags joined by commas gives back that list |
| Tags.CleanTokensAppend | content.js:163 | the `map(trim)`/`filter` step works piece by piece, so it distributes over concatenation |
| Tags.CleanTokensOfTags | content.js:163 | pieces that are already clean tags pass through unchanged |
| Tags.ParseTagsExample | content.js:159-163 | `"a, b ,, c"` gives `["a", "b", "c"]` |
| SaveDialog.SourceInfo | content.js:11-14 | the dialog shows a source line exactly when the metadata says `pdf`, and that line starts with `PDF文档：` |
| SaveDialog.NewSnippet | content.js:158-179 | the record keeps the text, URL and capture time; tags are clean and empty for a blank field; notes are trimmed and empty exactly for a blank field; the title is the metadata title when non-empty and the page title otherwise; a source is written exactly when metadata is passed, and it copies the metadata; the notes are the field with only blank padding removed; the tags are the clean pieces of the field split on commas |
| SaveDialog.SavedTagsAreTyped | content.js:159-172 | a record saved with tags typed as `a,b,…` (any padding) carries exactly those tags |
| SaveDialog.Save | content.js:165-180 | the new record is appended after the stored list, which reads as empty when absent, and nothing before it changes |
| SaveDialog.PdfTitle | content.js:436 | the PDF title (with the `'PDF文档'` fallback of line 503) is never empty: it is `PDF文档` exactly when the page title with its first ` [PDF]` removed is blank, and otherwise that string trimmed; a non-blank title without the marker is just trimmed |
| SaveDialog.PdfTitleOfMarked | content.js:436 | a page title `a + " [PDF]" + b` with no marker in `a` gives `a + b` trimmed, or `PDF文档` when `a + b` is blank |
| SaveDialog.PdfMetadata | content.js:501-505 | the PDF button passes kind `pdf`, the current page, and as title the cleaned PDF title of `SaveDialog.PdfTitle` (the stripped page title, or `'PDF文档'` when that is blank), which is never empty |
| Store.Append | content.js:165-180 | storage is written, one longer, with the old list as prefix and the new record last |
| Store.AppendJoinsOwnGroup | content.js:165-180 | an appended record goes to the end of its own date's group and leaves every other group unchanged |
| Store.DeleteByDate | popup/popup.js:65-76 | afterwards no stored record has the deleted date; the kept records and that date's group together are the old list as a multiset |
| Store.DeleteByDateIdempotent | popup/popup.js:65-76 | deleting the same date twice is the same as deleting it once |
| Store.DeleteAbsentDate | popup/popup.js:65-76 | deleting a date no record has rewrites the same list |
| Store.DeleteByDateRegroups | popup/popup.js:65-76 | after deleting a date, grouping gives the old groups without that date |
| Store.DeleteAll | popup/popup.js:79-85 | a confirmed delete-all stores the empty list; a cancelled one leaves storage as it was |
| Store.DeleteDateClick | popup/popup.js:144-151 | a cancelled click leaves storage as it was; a confirmed one stores the list without that date's records |
| Grouping.OnDate | popup/popup.js:2-12 | a group holds only records of its date, and it is empty exactly when no record has that date |
| Grouping.WithoutDate | popup/popup.js:68-71 | the filter keeps no record of the target date and never grows the list |
| Grouping.WithoutDateAppend | popup/popup.js:68-71 | the filter keeps the original order: filtering a concatenation is concatenating the filtered parts |
| Grouping.OnDateAppend | popup/popup.js:4-9 | a group keeps list order: the records of a date in a concatenation are those of the first part followed by those of the second |
| Grouping.DateKeys | popup/popup.js:2-12 | the keys in first-occurrence order are distinct and are exactly the dates of the records |
| Grouping.GroupByDate | popup/popup.js:2-12 | the groups' keys are exactly the records' dates, and each group is that date's records in list order |
| Grouping.GroupOfEachSnippet | popup/popup.js:2-12 | a record is in group `k` exactly when it is in the list and its date is `k` |
| Grouping.GroupsCoverList | popup/popup.js:2-12 | visiting the groups of every key once yields the list as a multiset: nothing lost, nothing duplicated |
| Grouping.TwoDatesExample | popup/popup.js:2-12 | `[a, b, c]` with `a`, `b` on one day and `c` on another groups as `{day(a): [a, b], day(c): [c]}` |
| Grouping.DeleteRemovesExactlyTheGroup | popup/popup.js:68-71 | the filter removes exactly the target date's group: kept plus removed is the old list as a multiset |
| Grouping.WithoutDateIdempotent | popup/popup.js:68-71 | filtering out a date twice is filtering it once |
| Grouping.RegroupAfterDelete | popup/popup.js:65-76 | grouping the filtered list gives the old grouping without the deleted key |
| Grouping.DateKeysWithout | popup/popup.js:2-12 | the first-occurrence keys after the filter are the old keys without the deleted one, in the same order |
| DateOrder.InsertSorted | popup/popup.js:95-96 | inserting a key into a newest-first list keeps it newest first and adds exactly that key |
| DateOrder.SortNewestFirst | popup/popup.js:95-96 | the sorted keys are newest first and are a permutation of the input |
| DateOrder.SectionKeys | popup/popup.js:95-96 | the section keys are newest first, distinct, and exactly the records' dates |
| DateOrder.RemoveKeySort | popup/popup.js:95-96 | removing a key after sorting equals sorting after removing it |
| DateOrder.SectionKeysWithout | popup/popup.js:95-96 | after a date is deleted, the sections are the old ones without that date, in the same order |
| PdfPage.CurrentPage | content.js:531-545 | the page comes from the page-number field, else the page label, else the viewer's first numbered page (or `'1'`), else `未知页码` |
| PdfPage.CurrentPageIsFirstPresent | content.js:531-545 | the same result is the first present widget in priority order, falling back to the sentinel |
| PdfPage.UnknownOnlyWithoutWidgets | content.js:531-545 | unless a widget itself reads `未知页码`, the sentinel comes back exactly when no widget exists |
| Placement.ClampLeft | content.js:297-300 | the button never crosses the right edge; its left is kept exactly when it fits, and otherwise it sits 10 px inside the edge |
| Placement.FlipTop | content.js:302-305 | a top that fits is kept; otherwise the button is placed 5 px above the selection's top |
| Placement.PlaceAsWritten | content.js:252-305 | the code as written: the left is the box's right plus `scrollX`, clamped to the viewport; a numeric top is the box's bottom plus `scrollY`, flipped above the box's top plus `scrollY` when it overflows; the top is `NaN` exactly when there is no selection box and the pointer-based top overflows |
| Placement.FallbackFlipIsNaN | content.js:258-261 | a selection without a box, near the bottom of a 600 px viewport, gets a `NaN` top |
| Placement.ScrolledButtonOffScreen | content.js:294-295 | on a page scrolled 2000 px, the fixed-position button is placed below the viewport |
| Placement.Place | content.js:252-305 | corrected: viewport coordinates, pointer `y` as the fallback top; the left edge fits, and the top is kept or flipped above the selection |
| Placement.PlaceStaysVisible | content.js:289-305 | with the corrected rule, a selection inside the viewport with room above gets a button wholly inside the viewport's height |
| Placement.PlaceAgreesWhenUnscrolled | content.js:289-305 | with a selection box and no scrolling, the corrected rule agrees with the code as written |
| QuickSave.Remove | content.js:359-370 | removal drops the first button (the rest stay in order), unregisters every tracked listener from both events, and empties the set |
| QuickSave.Show | content.js:242-351 | a new selection removes the old button, adds one button, and registers and tracks two new listeners |
| QuickSave.Step | content.js:236-350 | a dialog is opened only by a click on a button, with that button's text; on a showing page the click, a scroll or a press off the button leaves no button and no listener; a press on the button or a blank selection changes nothing; a non-empty selection on a reachable page shows exactly one button with the trimmed text |
| QuickSave.SelectThenDismiss | content.js:338-350 | after a selection shows the button, a scroll or a press elsewhere removes it and both listeners without opening the dialog |
| QuickSave.RemoveLeavesIdle | content.js:359-370 | from any reachable state, removal leaves no button and no listener |
| QuickSave.ShowFromValid | content.js:242-351 | a non-empty selection shows exactly one button, with exactly two tracked listeners |
| QuickSave.StepKeepsValid | content.js:236-370 | every mouse-up, mouse-down, scroll or click keeps the page in a reachable state |
| QuickSave.RunKeepsOneButton | content.js:232-370 | after any sequence of events there is at most one button, and every registered removal listener is tracked |
| QuickSave.SelectThenClick | content.js:236-326 | selecting text and clicking the button opens the dialog with the trimmed selection, and the click handler leaves the page idle |
| Export.MdLines | popup/popup.js:103-125 | a Markdown block has 5 to 8 lines: content, source, link and time first, and the rule last |
| Export.MdLinesOneRule | popup/popup.js:103-125 | each block holds exactly one rule, and it is the last line |
| Export.MdLinesPdfPage | popup/popup.js:111-113 | the page line appears exactly for a `pdf` source and shows its page |
| Export.MdLinesTags | popup/popup.js:116-118 | the tags line appears exactly when there are tags, and shows them |
| Export.MdLinesNotes | popup/popup.js:121-123 | the notes block appears exactly when the notes are non-empty, and shows them |
| Export.MarkdownExport | popup/popup.js:88-130 | every export starts with the title line, and an empty collection exports only that |
| Export.DocHeadings | popup/popup.js:95-98 | the headings are the records' dates, each once, newest first |
| Export.DocVisitsEachSnippetOnce | popup/popup.js:95-101 | the entries are the stored records as a multiset: each appears exactly once |
| Export.DocEntriesUnderOwnDate | popup/popup.js:95-101 | every entry sits under the heading of its own date |
| Export.SectionsHeadings | popup/popup.js:95-98 | the headings of the sections are the section keys, in order |
| Export.SectionsUnder | popup/popup.js:97-101 | when every group holds only its own date's records, every entry sits under its own date's heading |
| Export.DropSectionOfSections | popup/popup.js:95-101 | cutting a key's section out of the document equals building the document from the keys without that key |
| Export.DocAfterDelete | popup/popup.js:65-130 | after a date is deleted, the export is the old export with that date's section cut out |
| Export.RenderAllAppend | popup/popup.js:88-130 | rendering line lists distributes over concatenation |
| Export.RenderItemsAppend | popup/popup.js:95-125 | rendering a document split in two renders the two halves one after the other |
| Export.DocOne | popup/popup.js:95-101 | one record makes one section: its date heading, then its entry |
| Export.MarkdownExportOne | popup/popup.js:88-130 | the Markdown export of one record is the title line, the `## ` heading of its date, and its rendered block |
| Export.TxtLines | popup/popup.js:256-264 | a plain-text block is content and source first, time and rule last, and has a notes line exactly when the notes are non-empty, so it has five lines with notes and four without |
| Export.TxtExport | popup/popup.js:254-264 | an empty collection exports the empty string |
| Export.TxtExportAppend | popup/popup.js:254-264 | the plain-text export of two lists is the concatenation of their exports: one block per record, in list order |
| Export.TxtExportOne | popup/popup.js:254-264 | a record with notes exports as its five fixed plain-text lines |

## Left out

- DOM rendering is not modelled: the overlay and dialog markup, CSS, `innerHTML`, the toast, the list view's HTML (popup/popup.js:15-62 beyond grouping and order), and the missing HTML escaping. They are presentation, and none is needed for the properties above.
- Storage is asynchronous. Each operation is modelled as one atomic read-modify-write, so interleaved saves from two tabs (a lost update) are not modelled.
- The `openSaveDialog` runtime message (content.js:373-377) and background.js's context menu are left out. The message opens the dialog without metadata, which `SaveDialog.NewSnippet` covers with `md = None`.
- Timing is not modelled: the 200 ms debounce, the `MutationObserver`, and the `setupPDFSupport` polling interval. `QuickSave.MouseUp` stands for the debounced handler firing.
- `isPDFViewer` is left out, and so is most of the PDF selection handler (content.js:428-525). Its title, metadata and page lookup are modelled. Its own placement (with `||` fallbacks) and its one-shot `clickOutsideListener` are not.
- SaveDialog.PdfTitle, SaveDialog.PdfMetadata and the `md = Some` branches of SaveDialog.SourceInfo and SaveDialog.NewSnippet model code that, as wired, never runs: the PDF handler is never registered as a listener (content.js:356, 423-428), so every save passes no metadata. They state what that code would do if it were reached.
- The dialog's close paths (Escape, the cancel and close buttons, a click on the overlay) are left out. Besides removing the overlay, `closeDialog` unregisters the `keydown` listener held in the global `currentKeydownListener` and sets it to `null` (content.js:148-155). Each new dialog overwrites that global without removing the old listener (content.js:211-216). So with two dialogs open, which the `openSaveDialog` message allows (content.js:373-377), closing the first removes the second's Escape listener, and the first's listener is never removed. Neither the global listener nor this overwrite is modelled.
- QuickSave.SelectThenClick: the click's own `mouseup` reaches the document's capture-phase listener (content.js:356) before the button's `stopPropagation` (content.js:316-318), so the debounced selection handler runs again 200 ms after the click and may show a new button if the selection survives. The lemma covers the click handler only; that later event is an ordinary `MouseUp` step, which QuickSave.RunKeepsOneButton covers.
- The JSON export and `downloadFile` are left out. `JSON.stringify` and file download are browser services.
- Date parsing and locale formatting are uninterpreted functions (`Locale`). Invalid dates (`Invalid Date`, `NaN` keys in the sort comparator) are not modelled.
- Pixel coordinates are integers. Fractional `getBoundingClientRect` values are not modelled.
- QuickSave.Step: a mouse-down or scroll event runs the removal once, although the code calls it once per registered listener. In every reachable state there is exactly one listener per event, so the result is the same.
- Stored records are assumed well-formed. `tags` is always an array and the fields are strings, because only the save button writes them.
- DateOrder.SortNewestFirst: stability is built into the definition (equal dates keep first-occurrence order) but is not stated as a separate property.
- Export.MarkdownExport: its own contract only states the title line and the empty case. The document's structure is stated by the `Export.Doc…` lemmas over `Export.Doc`, which the export renders line by line.

## Findings

| source | as written | input that shows it | evidently intended | confidence | as-written member | corrected member |
|---|---|---|---|---|---|---|
| content.js:258-261, 303-305 | The fallback branch needs `selection.getRangeAt(0)` to throw (no range) while the selection text checked at line 241 is non-empty, which a normal selection does not produce, so it may be unreachable. When it is reached, the fallback box has `right` and `bottom` but no `top`. The flip then computes `undefined + scrollY - 41`, which is `NaN`, so the button gets no valid `top`. | no selection box, pointer at (300, 590), no scroll, 600 px-high viewport | use the pointer's `y` as the top, as the PDF handler's fallback does at content.js:455 | low: the arithmetic is certain, reaching the branch is doubtful (not executed) | Placement.FallbackFlipIsNaN | Placement.PlaceStaysVisible |
| content.js:294-295, 268 | The button is `position: fixed`, which uses viewport coordinates, yet `left` and `top` add `scrollX` and `scrollY`. On a scrolled page the button lands away from the selection, often off screen. | selection box right 400, bottom 300, top 280; page scrolled 2000 px; viewport 1024 x 600; the flipped top is 2239 | use the box's viewport coordinates unchanged | high (not executed) | Placement.ScrolledButtonOffScreen | Placement.PlaceStaysVisible |
