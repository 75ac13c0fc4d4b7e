# NotebookLM Takeout, modelled in Dafny

NotebookLM Takeout is a browser extension that exports what a NotebookLM
notebook holds. Notes, reports and data tables become Markdown or CSV,
mind maps become trees, and audio, slides and infographics are
downloaded. Everything can also be bundled into one stored ZIP archive.
The extension has three parts:

- **The content script** (`content.js`) reads the page. The model covers
  its HTML-to-Markdown converter, the mind-map reader, the collection of
  citations from hover tooltips, the choice of a content container, the
  note lookup, and the strategy order of an artifact download
  (modules `HtmlMarkdown`, `Mindmap` and `Extraction`).
- **The side panel** (`sidebar.js`) runs the exports. The model covers
  the retry loop, the table-to-CSV export, the custom Markdown rules with
  the numbering of sources, and file-name sanitising (modules `Retry`,
  `Csv`, `NoteMarkdown`, `NoteSources` and `FileNames`).
- **The service worker** (`background.js`) renames and intercepts
  downloads and keeps the detected artifacts. It also builds the ZIP
  archive with its own CRC-32 (modules `Interception`, `ArtifactCache`,
  `Crc32`, `Zip` and `ZipWriter`).

How the service worker's state is modelled:

- Its module-level variables are the fields of a class: `Interception.Background`
  or `ArtifactCache.Cache`.
- Each handler is a method whose `ensures` ties the new fields to a pure
  function of the old ones.
- The lemmas state what the handlers promise about those functions.
- Calls into `chrome.downloads`, `chrome.action` and `chrome.storage` are
  appended to an effect log.

How the loops are modelled:

- The source's loops are methods with loop invariants. Examples are the
  stack walk of the mind map, the citation passes, the CSV rows, the
  appendix, the CRC table and the ZIP chunks.
- Each loop method is proved equal to a function.
- The function's meaning is proved in lemmas. Examples:
  - each node's children are exactly the later nodes whose nearest
    shallower predecessor it is;
  - a CSV line decodes back to its trimmed cells by RFC 4180;
  - the appendix is sorted and each label appears once;
  - the CRC matches the catalogue check value `0xCBF43926`;
  - a written ZIP archive reads back, through its end record and central
    directory, as the files it was written from.

Module `Text` holds the JavaScript string primitives the code relies on:
whitespace and `trim`, `split`, `lastIndexOf`, `parseInt` and decimal
rendering. Module `Wrappers` holds `Option` and `Result`, and module `Seqs` holds
`Array.prototype.filter` with its order, membership and multiplicity
facts. A Dafny string is a sequence of Unicode scalar values; where the
code compares JavaScript lengths, `Text.Utf16Length` counts UTF-16 code
units.

## Model

| member | source | states |
|---|---|---|
| Text.TrimShape | content.js:1562 | `trim` keeps the slice from the first to the last non-space character, and only white space lies outside it |
| Text.TrimTrimmed | content.js:1562 | trimming twice is trimming once |
| Text.TakeUnits | sidebar.js:1162 | the prefix taken is the longest one of at most n UTF-16 code units that does not split a character |
| Text.TrimEmptyIffAllSpace | content.js:1423 | a line is blank after trimming exactly when it is all white space |
| Text.Split | content.js:1420 | splitting on one character gives at least one piece, and no piece holds the separator. Joining the pieces with it gives the input back |
| Text.LastIndexOf | background.js:327 | the index found holds the character and no later position does; the result is -1 exactly when the character is absent |
| Text.ParseIntOfNatToString | sidebar.js:1129-1130 | `parseInt` of a rendered number, with or without radix 10, is that number |
| Text.ParseIntOfIntToString | content.js:1473 | `parseInt` of a rendered integer, sign included, is that integer |
| Text.NatToStringInjective | sidebar.js:952-959 | different numbers render as different strings |
| HtmlMarkdown.SelectAllInOrder | content.js:1337 | `querySelectorAll` by tag yields exactly the elements strictly inside the node that carry one of the tags, all of them, in document order |
| HtmlMarkdown.SelectFirstIsFirst | content.js:1334-1335 | `querySelector` by tag yields nothing exactly when no element inside the node has the tag, and otherwise the first such element in document order |
| HtmlMarkdown.HeadingHashes | content.js:1471-1478 | an ARIA heading gets at most six `#` |
| HtmlMarkdown.HeadingOfNumericLevel | content.js:1473-1476 | a numeric `aria-level` L gives clamp(L, 1, 6) hashes |
| HtmlMarkdown.HeadingOfMissingLevel | content.js:1473 | a missing or empty `aria-level` counts as level 1 |
| HtmlMarkdown.HeadingMarkdown | content.js:1472-1477 | a `role="heading"` element becomes a line break, clamp(L, 1, 6) hashes, a space, its converted children and a blank line |
| HtmlMarkdown.NumCols | content.js:1378 | the column count is at least every row's length and equals some row's length |
| HtmlMarkdown.Pad | content.js:1385-1387 | a padded row has exactly `n` cells: its own cells, then empty ones |
| HtmlMarkdown.PadInPlace | content.js:1385-1387 | the push loop yields the padded row |
| HtmlMarkdown.EmittedRowsShape | content.js:1383-1396 | every emitted line has as many cells as the widest row. Row i is padded, and it comes after the separator when the table has a header |
| HtmlMarkdown.TableLines | content.js:1383-1396 | the table has one line per row, plus one for the separator of a table with a header |
| HtmlMarkdown.RenderTable | content.js:1381-1399 | `processTable`'s loop yields exactly the table's Markdown |
| HtmlMarkdown.RenderRow | content.js:1383-1396 | one pass of the loop appends the row's line, and after the first row of a header table also the separator |
| HtmlMarkdown.AppendedLines | content.js:1381-1396 | after `i` rows, the text is the opening newline followed by the table's lines up to row `i` |
| HtmlMarkdown.LineOfRow | content.js:1390 | the line of row i is the padded row, joined by ` \| ` between bars |
| HtmlMarkdown.LineOfSeparator | content.js:1393-1395 | the second line of a header table is the separator with one `---` per column |
| HtmlMarkdown.NonBlankInOrder | content.js:1422-1426 | the kept continuation lines are the input lines that are not blank, in input order, each as often as it occurs |
| HtmlMarkdown.MarkersDistinct | content.js:1410 | ordered items at different positions get different markers |
| HtmlMarkdown.ContinuationLines | content.js:1422-1426 | each continuation line is the prefix followed by a non-blank input line, and every non-blank input line appears |
| HtmlMarkdown.ContinuationsInOrder | content.js:1422-1426 | the continuation lines keep the input's order, and a non-blank line occurring n times yields n continuation lines |
| HtmlMarkdown.ItemLinesShape | content.js:1408-1426 | an item's first line is the indent, the marker, a space and its first content line. The later lines are exactly the non-blank further content lines, in order, each behind two more spaces, and no line holds a line break |
| HtmlMarkdown.ListItems | content.js:1405 | a list's items are exactly its `li` element children, in order |
| HtmlMarkdown.ListItemsInOrder | content.js:1405 | the items are the list's children filtered to `li` elements, in document order and multiplicity; a node is an item iff it is an `li` child |
| HtmlMarkdown.CodeLanguageLeftmost | content.js:1540 | the language is empty exactly when the class holds no `language-` followed by a word character. Otherwise it is the whole run of word characters after the leftmost such match |
| HtmlMarkdown.ProcessChildrenAppend | content.js:1445-1562 | the children's conversions are concatenated in document order |
| HtmlMarkdown.PlainIsTextContent | content.js:1445-1559 | on a tree with no element that has a rule of its own, the converter yields exactly the text content; comments vanish |
| HtmlMarkdown.HtmlToMarkdownTrimmed | content.js:1326-1562 | a missing element gives "". Otherwise the result has no white space at either end, and a tree without formatting gives its trimmed text content |
| HtmlMarkdown.ProcessTableEmpty | content.js:1332-1400 | a table converts to "" exactly when it has no rows; otherwise its Markdown starts and ends with a line break |
| HtmlMarkdown.TableHeaderCases | content.js:1337-1393 | a `thead` anywhere inside the table gives a header row, whether or not it holds rows; a `tbody` with no `thead` gives none |
| HtmlMarkdown.ProcessListEmpty | content.js:1403-1430 | a list with no `li` child (whatever other children it has) converts to an empty line pair |
| Mindmap.NodeName | content.js:2156-2157 | a node's name is the trimmed text before the first comma when that is non-empty, and "Unnamed" otherwise; it is never empty |
| Mindmap.NodeLevel | content.js:2152 | a missing `aria-level` gives level 0 |
| Mindmap.NodeLevelOfAttribute | content.js:2152 | `parseInt` of a decimal `aria-level` gives its value; one with no decimal digit gives `NaN`, read as level 0 |
| Mindmap.FirstCountAtLeftmost | content.js:2158 | the regex match is the leftmost position where digits, white space and the word follow, and no earlier position is one |
| Mindmap.NumberAfter | content.js:2158-2159 | a label made of digit-free text, a number, a space and the word yields that number |
| Mindmap.ChildCountOfLabel | content.js:2158-2159 | the corrected count reads n from both "name, n child" and "name, n children" |
| Mindmap.SingularChildMissed | content.js:2158 | the pattern as written gives "name, 1 child" the count 0 |
| Mindmap.Parent | content.js:2185-2192 | a node's parent is the nearest earlier node with a strictly smaller level; there is none when no earlier node is shallower |
| Mindmap.ChildrenOf | content.js:2185-2197 | a node's children are exactly the nodes whose parent it is, in document order |
| Mindmap.BuildHierarchy | content.js:2181-2198 | the stack walk attaches to each node exactly the nodes whose parent it is |
| Mindmap.PopNotBelow | content.js:2187-2189 | the pops remove exactly the entries on top whose level is not below the node's |
| Mindmap.NoCloserParent | content.js:2187-2194 | after the pops, the top of the stack is the node's parent |
| Mindmap.PushStep | content.js:2196 | pushing the node keeps the stack's levels strictly increasing |
| Mindmap.AttachedOnce | content.js:2191-2194 | no node is attached to two parents |
| Mindmap.LastRoot | content.js:2171-2175 | the root is the last node of level exactly 1 |
| Mindmap.ParseNodeOfLabel | content.js:2151-2169 | a node labelled "name, n child" or "name, n children" has child count n, the label's name, the level read from `aria-level` and is expanded exactly when `aria-expanded` is "true"; a node without a label is "Unnamed" with count 0 |
| Mindmap.ExtractTree | content.js:2137-2204 | the tree counts every item and keeps the nodes in document order. Its root and title come from the last level-1 node, and its links are the parent relation |
| Mindmap.WaitForStable | content.js:1921-1941 | polling stops at the first check where the count has been equal three times in a row, and after 20 checks at most |
| Extraction.QueuedButtons | content.js:1623-1640 | a button is queued exactly when its span text is present and not blank, under its trimmed text, in document order |
| Extraction.QueueButtons | content.js:1623-1640 | the collecting loop yields that queue |
| Extraction.CollectedSources | content.js:1645-1870 | stored labels never repeat, and each source's `index` is its 1-based position. A label is stored exactly when one of its buttons gave a populated tooltip |
| Extraction.CollectedContents | content.js:1645-1870 | entry k holds the tooltip title and trimmed quote of the k-th hover that was the first populated one for its label, in queue order; every such hover gives an entry; the errors are, in queue order, one message per failed hover of a label not yet stored plus the empty-title and empty-quote messages of stored ones |
| Extraction.StepKeepsNumbering | content.js:1648-1826 | one hover keeps the numbering and adds only its own label, and only when the tooltip was populated or the label was already stored |
| Extraction.HoverAll | content.js:1645-1870 | the hover loop yields the sources and errors of the queue |
| Extraction.HoverOne | content.js:1646-1869 | one pass of the hover loop yields one step |
| Extraction.ExtractCitations | content.js:1621-1870 | the two passes together yield the collection of the queued buttons |
| Extraction.ChooseContent | content.js:1245-1268 | the selector loop settles on the first candidate longer than 50 UTF-16 code units. Failing that it takes the last selector's match, and failing that the viewer itself |
| Extraction.ChosenSelector | content.js:1246-1268 | over the source or the report viewer's selector list a choice names one of its selectors, and with no long match the fallback is the catch-all `[class*="content"]` match |
| Extraction.ContentChoice | content.js:1245-1268 | the candidate chosen is the first long one; with no long candidate it is the last selector's match, and nothing is chosen exactly when neither exists |
| Extraction.FirstLong | content.js:1256-1262 | the candidate found is longer than 50 UTF-16 code units and no earlier candidate is |
| Extraction.ContentHtml | content.js:1245-1268 | when some candidate is long, the chosen markup is longer than 50 UTF-16 code units. The markup is always the viewer's or a candidate's |
| Extraction.TitleMatch | content.js:1081-1092 | the note found is the first one whose trimmed title equals the given title; none is found only when no note has it |
| Extraction.FindNote | content.js:1075-1117 | a title match wins. Otherwise an index below the note count picks that note, and anything else is the "Note not found" error |
| Extraction.FirstTitle | content.js:2552-2569 | the title is empty exactly when no match has a non-blank text; otherwise it is the trimmed text of the first match that has one |
| Extraction.DispatchRange | content.js:2538-2540 | an out-of-range index fails before any strategy runs |
| Extraction.DispatchOrder | content.js:2493-2647 | the button is clicked only when document and infographic extraction did not deliver, and every delivery carries a non-empty title |
| Extraction.DispatchMoreOpen | content.js:2526-2647 | with the "More" menu already open the index is not checked and no item is used: the title is the given name or the type and 1-based index, infographic extraction is skipped, and the button is clicked or fails unless a document extracts |
| Retry.RetryCharacterized | sidebar.js:174-206 | the first success is returned and nothing is called after it. A missing result, `success: false` and a throw all fail and are retried, except a thrown `null` or `undefined`, which ends the loop at once. After `maxRetries` failures the last error is thrown, or the generic one when it is falsy |
| Retry.DelaySchedule | sidebar.js:198 | the waits are 1 s, 2 s, 4 s, then 5 s, never decreasing and never above 5 s |
| Retry.WaitsShape | sidebar.js:196-201 | there is one wait after each failed call except the last permitted one |
| Retry.RetryDownload | sidebar.js:174-206 | the loop's result is the characterized one; it waits once after every failed call but the last permitted one, and not after a success or an aborting throw |
| Csv.DoubleQuotesLength | sidebar.js:912-916 | doubling quotes lengthens a cell by exactly its number of quotes |
| Csv.DoubleQuotesKeeps | sidebar.js:912-916 | doubling quotes does not change whether a cell needs quoting, and leaves a quote-free text alone |
| Csv.ReadEncodedCell | sidebar.js:909-919 | an encoded cell reads back, by RFC 4180, as the trimmed text, leaving what followed it |
| Csv.DecodeEncodedRow | sidebar.js:907-923 | a row's line decodes by RFC 4180 to the row's trimmed cells |
| Csv.CsvLinesDecode | sidebar.js:825-932 | with no table, or with no row that has a cell, the export fails with its message. Otherwise line k decodes to the cells of the k-th row that has cells |
| Csv.EncodeRow | sidebar.js:907-920 | the cell loop encodes every cell, in order |
| Csv.EncodeRows | sidebar.js:887-925 | the row loop yields one line per row that has cells, in order |
| Csv.ConvertTableToCsv | sidebar.js:825-932 | the export yields the specified result, errors included |
| NoteMarkdown.OriginalIdPrecedence | sidebar.js:1064-1078 | the label comes from `data-source-index`, then an `#cite-X` href, then a button's span, then the content |
| NoteMarkdown.Displays | sidebar.js:1082-1091 | each citation shows the display number mapped to its label |
| NoteMarkdown.CitationPass | sidebar.js:1042-1104 | the rule, over the citations in visiting order, yields each citation's markup |
| NoteMarkdown.CiteAll | sidebar.js:1093-1099 | with the occurrence counters kept between calls, each citation is marked up with its occurrence number |
| NoteMarkdown.OccurrenceCounts | sidebar.js:1093-1097 | the first citation of a number counts 1, and later ones count strictly higher |
| NoteMarkdown.AnchorIdInjective | sidebar.js:1099 | an anchor id determines its display number and its occurrence |
| NoteMarkdown.AnchorsDistinct | sidebar.js:1093-1099 | no two citations of a note get the same anchor id |
| NoteMarkdown.HeadingRuleLevels | sidebar.js:968-979 | a positive level gives exactly that many `#`. A zero, empty or non-numeric level gives one, and a negative level fails |
| NoteMarkdown.NewlinesToSpaces | sidebar.js:1023 | line feeds become spaces and nothing else changes |
| NoteMarkdown.TableCellSafe | sidebar.js:1019-1023 | a table cell holds no line feed and no bare `\|`. Unescaping recovers the text when it has no backslash |
| NoteMarkdown.Dashes | sidebar.js:1031-1034 | the separator has one `---` per cell of the first row |
| NoteMarkdown.TableLayout | sidebar.js:1005-1040 | the first row is followed by the separator, and later rows follow without one |
| NoteMarkdown.CollapseNewlinesSpec | sidebar.js:1110-1111 | after the clean-up no three line feeds follow each other, and every other character is kept in order. A text without such a run is unchanged |
| NoteMarkdown.ConvertToMarkdown | sidebar.js:1106-1154 | the export is the cleaned title and body, then the Sources appendix |
| NoteMarkdown.MarkdownShape | sidebar.js:1106-1154 | the part before the appendix has no triple line feed, and the appendix is empty exactly when there are no sources |
| NoteSources.DisplayNumbersLast | sidebar.js:952-959 | a label is mapped exactly when some source carries it, to one plus the position of the last source carrying it |
| NoteSources.BuildDisplayMap | sidebar.js:952-959 | the loop yields that map |
| NoteSources.UniqueLabels | sidebar.js:1117-1123 | after de-duplication no two sources share a label, and every input label is still present |
| NoteSources.UniqueIsFirstOccurrences | sidebar.js:1117-1123 | de-duplication keeps exactly the first source of each label, in input order |
| NoteSources.DedupSources | sidebar.js:1117-1123 | the loop yields the de-duplicated list |
| NoteSources.SortBySorted | sidebar.js:1127-1132 | the sorted list is ordered by number, is a permutation of its input, and is stable: sources with the same number keep their input order |
| NoteSources.AppendixEntries | sidebar.js:1113-1152 | each label appears in exactly one entry, and the entries are ordered by number. Entry k + 1 carries anchor `src-(k+1)` and links back to `cite-ref-(k+1)-1` |
| NoteSources.WriteAppendix | sidebar.js:1137-1151 | the loop writes the appendix, numbering the entries from 1 |
| NoteSources.InlineNumberMismatch | sidebar.js:952-959 | as written, with sources listed as "2" then "1", citation "2" shows 1 while appendix entry 1 is source "1" |
| NoteSources.CorrectedNumbersAgree | sidebar.js:1137-1145 | with numbers taken from the appendix order, every citation shows the number of the appendix entry carrying its label |
| FileNames.ReplaceReservedSpec | background.js:425-427 | sanitising keeps the length and replaces every reserved character and nothing else. No reserved character is left, and a clean name is unchanged |
| FileNames.CollapseRunsApart | sidebar.js:1157-1163 | after collapsing runs into the class's own character, no two characters of the class are adjacent |
| FileNames.CollapseRunsIdentity | sidebar.js:1157-1163 | collapsing changes nothing when the class is already collapsed |
| FileNames.SanitizeSpec | sidebar.js:1157-1163 | the side panel's names are clean: at most 100 UTF-16 code units, no reserved character, no white space, no two dashes in a row. Sanitising is idempotent |
| FileNames.Take100 | sidebar.js:1162 | `substring(0, 100)` keeps the longest prefix of at most 100 UTF-16 code units, and the whole name when it fits |
| FileNames.ExtensionTables | background.js:733-754 | each table entry is a dot and a short lower-case suffix. An unknown MIME type gives no extension, and an unknown artifact type gives `.bin` |
| FileNames.ExtensionFromName | background.js:192-196 | on a name with a dot followed by something, the created handler's extension is the filename handler's |
| FileNames.ExtensionOfTrailingDot | background.js:327 | on a name ending in a dot the handlers disagree: a bare dot against no extension |
| FileNames.ExtensionFromMimeTables | background.js:199-208 | without a dot, the handlers agree on the MIME types of the smaller table and disagree on the two only the larger has |
| Interception.Background.constructor | background.js:28-41 | the worker starts with nothing pending, no mode armed and no record kept |
| Interception.Background.SetPendingDownload | background.js:64-75 | the handler sets the pending name and type |
| Interception.Background.StartInterceptDownload | background.js:77-92 | the handler arms intercept mode and schedules its expiry |
| Interception.StartAndCancel | background.js:77-112 | arming drops an earlier result, takes the new name and type and schedules one expiry. Cancelling clears only the mode |
| Interception.ExpiryOnlyDisarms | background.js:85-90 | an expiry clears only the mode |
| Interception.StaleExpiryDisarmsNewerArm | background.js:77-92 | the expiry of an earlier arm, never cancelled, disarms a later arm early |
| Interception.Background.GetInterceptedDownload | background.js:94-103 | the result is handed out and cleared |
| Interception.InterceptedOnce | background.js:94-103 | a second request right after the first gets no result |
| Interception.Background.CancelIntercept | background.js:105-112 | only the mode is cleared |
| Interception.Background.StartBatchDownload | background.js:114-124 | batch mode starts with an empty slot, unless it is already on |
| Interception.Background.EndBatchDownload | background.js:126-131 | batch mode ends |
| Interception.Background.GetCapturedDownload | background.js:133-141 | the slot is returned and emptied |
| Interception.BatchMessages | background.js:114-141 | starting batch mode twice changes nothing, and fetching the capture empties the slot |
| Interception.Background.BatchInProgress | background.js:167-172 | the reported status is the batch mode |
| Interception.Background.DownloadArtifact | background.js:401-423 | the URL is downloaded under the sanitised name, with a save prompt |
| Interception.Background.FireTimer | background.js:69-90 | a scheduled callback runs once and is removed |
| Interception.Background.OnCreated | background.js:178-289 | the created handler's new state is the specified one |
| Interception.Background.InterceptDownload | background.js:185-271 | the original is cancelled, downloaded again under the chosen name and recorded |
| Interception.ArmedDownloadIntercepted | background.js:185-271 | a NotebookLM download while armed clears the mode and drops the pending name and type. The original is cancelled and downloaded again, and its name and id are recorded |
| Interception.FirstCaptureWins | background.js:273-286 | a download is captured exactly when batch mode claims it and the slot is empty; a captured download is never replaced |
| Interception.Background.RedownloadStarted | background.js:246-268 | when the re-download starts, the result is stored with the original id |
| Interception.ResultOfRedownload | background.js:246-268 | a result is stored only when a re-download starts, carrying the original id and the chosen name |
| Interception.Background.OnDeterminingFilename | background.js:292-372 | the filename handler's new state and reply are the specified ones |
| Interception.OriginalNotRenamed | background.js:300-304 | the cancelled original is never renamed |
| Interception.RedownloadRenamedOnce | background.js:306-319 | the first matching event gets the recorded name and clears the record; a later one is renamed only through a pending name |
| Interception.RenameNeedsPendingName | background.js:315-372 | without a record, a name is suggested only with a pending name outside batch mode, and that name is consumed |
| ArtifactCache.KindOf | background.js:20-26 | an artifact type has a list exactly when it is one of the four keys |
| ArtifactCache.DetectedKeepsDistinct | background.js:374-393 | ids stay distinct in every list |
| ArtifactCache.DetectedIdempotent | background.js:377-384 | reporting an artifact again keeps the first copy and its time |
| ArtifactCache.DetectedTotal | background.js:374-393 | the total grows by one exactly for a new id of a known type. Other lists are untouched, and earlier entries stay in front |
| ArtifactCache.BadgeShowsTotal | background.js:395-399 | the badge is blank exactly when nothing is kept, and otherwise reads as the total |
| ArtifactCache.Cache.ContainsId | background.js:379 | the search finds an id exactly when the list holds it |
| ArtifactCache.Cache.CountAll | background.js:396 | the sum is the number of kept artifacts |
| ArtifactCache.Cache.UpdateBadge | background.js:395-399 | the badge is set to the total's text |
| ArtifactCache.Cache.HandleArtifactDetected | background.js:374-393 | the lists become the specified ones. The badge and storage are updated exactly when something was added |
| ArtifactCache.Cache.ClearArtifacts | background.js:474-482 | every list is emptied and stored, and the badge is blanked |
| ArtifactCache.Assign | background.js:487 | `Object.assign` replaces each list the saved object holds and keeps the others |
| ArtifactCache.RestorePersisted | background.js:484-490 | restoring what was stored gives back the stored lists, and an empty saved object changes nothing |
| ArtifactCache.Cache.Restore | background.js:484-490 | at start-up a saved object is merged into the lists and the badge shows the new total; without one nothing changes |
| Crc32.TableEntries | background.js:883-896 | the table holds the standard values: 0 for 0, the polynomial for 0x80, and the published values for 1 and 0xFF |
| Crc32.BuildTable | background.js:883-896 | the 256 entries are, in order, each byte value shifted eight times through the reflected polynomial |
| Crc32.FillEntry | background.js:886-892 | one pass of the outer loop sets entry i and keeps the earlier entries |
| Crc32.TableEntry | background.js:887-891 | the eight rounds of the inner loop give entry i of the table |
| Crc32.Crc32 | background.js:874-881 | the table-driven loop computes the CRC-32 of the bytes |
| Crc32.StepByTable | background.js:878 | a table lookup is one step of the register |
| Crc32.CheckValue | background.js:874-881 | "123456789" gives the catalogue check value 0xCBF43926 |
| Zip.Field16 | background.js:776-785 | a two-byte field reads back as the value modulo 2^16 |
| Zip.Field32 | background.js:781-783 | a four-byte field reads back as the value modulo 2^32 |
| Zip.LocalHeaderFields | background.js:771-787 | each field of a local header sits at its APPNOTE offset |
| Zip.CentralHeaderFields | background.js:805-827 | each field of a central directory header sits at its APPNOTE offset |
| Zip.EndRecordFields | background.js:832-843 | each field of the end record sits at its APPNOTE offset |
| Zip.ArchiveSections | background.js:756-854 | the archive is the local section, then the central directory, then the end record |
| Zip.ArchiveSize | background.js:848-849 | the archive's size is the local section, plus the directory, plus 22 |
| Zip.ChunksLayout | background.js:763-845 | the writer's chunks are laid out as the reader needs |
| Zip.ReadWritten | background.js:756-854 | an archive written from files whose sizes fit the fields reads back as those files, through its end record and central directory |
| ZipWriter.CreateZip | background.js:756-854 | the writer yields exactly the archive whose round trip is proved |
| ZipWriter.PushLocal | background.js:763-801 | the first loop yields the local chunks, the central entries and the section length |
| ZipWriter.PushFile | background.js:768-800 | one pass adds the file's header and data, records its entry at the current offset, and advances the offset by both |
| ZipWriter.PushCentral | background.js:803-830 | the second loop yields one header per entry and counts their bytes |
| ZipWriter.TotalLength | background.js:848 | the sum is the length of the joined chunks |
| ZipWriter.Join | background.js:847-854 | the copy loop yields the chunks joined in order |
| ZipWriter.Set | background.js:852 | copying a chunk writes it at its position and keeps the bytes around it |

`NoteMarkdown.CitationPass` takes the display-number map as a parameter.
It applies both to the map the side panel builds (`NoteSources.BuildDisplayMap`)
and to the corrected map (`NoteSources.CorrectedDisplayNumbers`). The mind
map's node parser uses the corrected count (`Mindmap.ChildCount`).

## Left out

- The page itself is not modelled: DOM queries against the live page,
  clicks, scrolling, hover events, `sleep` and the MutationObserver.
  Their observations (span texts, tooltip results, selector matches,
  node counts) are inputs.
- `injected.js` (the page-context hooks) is not part of this model.
- The HTML-to-Markdown library of the side panel is not modelled. Its
  output for a note body is an input, and its visiting order of citation
  nodes is a given sequence.
- Parsing of HTML text into nodes (`DOMParser`) is left out. Tables,
  rows and cells arrive already parsed.
- Base64 encoding and `TextEncoder` are left out. File data arrives as
  bytes, and `Zip.ReadWritten` is about those bytes.
- JSZip and the chrome UI (badge colour, side panel layout, the status
  text of batch runs) are left out.
- `runBatchDownload`, `fetchFileContent` and the other async plumbing of
  the service worker that only calls the modelled pieces are left out.
- `GET_ARTIFACTS` only replies with the lists, which are
  `ArtifactCache.Cache.Value()`; it changes nothing and has no method.
- `FETCH_FILE_CONTENT` and `BATCH_DOWNLOAD_ALL` start network fetches,
  tab messaging and notifications, which are outside the model; the ZIP
  archive that a batch run builds is `ZipWriter.CreateZip`.
- The side panel's `sourceLink` rule (sidebar.js:981-990) and
  `stripAngularComponents` rule (sidebar.js:992-1003) are left out: the
  first only formats a link from an attribute, and the second passes its
  content through unchanged; both act inside the Markdown library, which
  is not modelled.
- Messaging is not modelled: the message listener is replaced by calls to
  the handler methods, and replies are their results.
- Timer callbacks and the re-download promise are events that the
  environment fires in any order. Wall-clock time is not modelled.
- `capturedArtifacts[type]` for a type that names an object property
  (such as `constructor`) is treated as an unknown type.
- Zip.ReadWritten: the round trip is proved only for names and data
  shorter than 2^16 and 2^32 bytes. Beyond that the writer truncates the
  length fields modulo those bounds, which `Zip.Field16` and `Zip.Field32`
  state.
- Retry.RetryDownload: the waits are a ghost list, because the waiting
  itself is not modelled.
- Mindmap.ExtractTree: the `exportedAt` timestamp is left out. The tree
  uses the corrected child count; for a label ending in "1 child" the
  source stores 0 (see Findings, `Mindmap.SingularChildMissed`).
- FileNames.SanitizeSpec: when the 100th UTF-16 code unit is the first
  half of a surrogate pair, `substring` keeps a lone surrogate, which a
  Dafny string cannot hold; the model stops before that character.
- Extraction.FirstLong: the length compared is that of the markup as a
  string of scalar values, counted in UTF-16 code units; how the browser
  serialises `innerHTML` is not modelled.
- ArtifactCache.Cache.Restore: the saved object is read as a map from
  the four artifact types to lists. Extra keys, and values that are not
  arrays, are not modelled.
- Extraction.ExtractCitations: the text cleaning inside a tooltip is
  left out; a tooltip's result arrives as an input.

## Findings

| source | as written | input that shows it | evidently intended | confidence | as-written member | corrected member |
|---|---|---|---|---|---|---|
| content.js:2158 | `/(\d+)\s+children?/`: the `?` applies only to the final `n`, so the pattern needs "childre" | aria-label "Topic, 1 child" gets child count 0 | "Topic, 1 child" has child count 1 | high (not executed) | Mindmap.SingularChildMissed | Mindmap.ChildCountOfLabel |
| sidebar.js:952-959 | inline citations are numbered by position in the unsorted list, while the appendix is numbered after sorting by number | sources listed as "2" then "1": citation "2" shows and links to 1, but appendix entry 1 is source "1" | each citation's number is the number of its appendix entry | high (not executed) | NoteSources.InlineNumberMismatch | NoteSources.CorrectedNumbersAgree |
