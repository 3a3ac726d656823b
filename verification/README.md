# helix-content-sdk, Google Drive client core, in Dafny

This project models the logic inside the Google Drive client of
helix-content-sdk that does not depend on the network:

- **Document edits** (`src/gdrive/client.js`). These are the `batchUpdate` request lists that edit a Google Doc:
  - filling a new table cell by cell;
  - inserting a table;
  - replacing a table's body;
  - finding the insertion point inside a section (`#getElementPosition`, `appendBlock`);
  - addressing a table by its position among the tables;
  - addressing a table by its lower-cased header (`metadata`, `section metadata`).

  A batch is a sequence of `Request` values. Submitting it is left out.
- **Sheet helpers** (`src/gdrive/client.js`). These cover:
  - the row search over a value matrix;
  - the grid ranges used to insert and delete rows and columns;
  - the A1 column name.
- **The path <-> id cache** (`#getParents`, `#getFilePath`, `#getFileIdFromPath`). It is a state machine over an abstract drive. The drive maps ids to (title, first parent) and lists the files a title search sees. The cache is one `map<string, string>` that holds both id -> path and path -> id entries. Every step returns its result, the new cache and the number of backend calls it made.
- **The Google Docs event walk** (`src/gdrive/gdoc.parser.js`). It emits `text` and `image` events in document order.
- **`asyncFilter` and `asyncFind`** (`src/utils.js`). These are modelled sequentially: evaluate the predicate on every element, then select.

JavaScript `TypeError`s are part of the model. Reading a property of `undefined` becomes a `Failure` value that names the cause, or, in the event walk, the `thrown` flag of a parser trace. It is not a precondition that excludes the input. The document model lets an inline object's entry lack its `inlineObjectProperties` or its `embeddedObject`, so the walk's throw on either is modelled too.

Files and modules:

| file | module |
|---|---|
| `wrappers.dfy` | `Wrappers`: `Option`, `Result` |
| `utils.dfy` | `Utils`: filter, find, and the two-phase async variants |
| `gdoc.dfy` | `GDoc`: the document structure the client reads |
| `gdoc_parser.dfy` | `GDocParser`: the event walk |
| `sections.dfy` | `Sections`: break counting, element position, append position |
| `doc_requests.dfy` | `DocRequests`: fill, insert and update batches |
| `doc_editor.dfy` | `DocEditor`: `appendBlock`, `insertBlockAt`, `removeBlock`, `updateBlock`, metadata tables |
| `sheets.dfy` | `Sheets`: row search, grid ranges, column names |
| `path_cache.dfy` | `PathCache`: parent walk, path computation, path lookup |

Where the code does not do what it evidently intends, the model follows the code:

- **Column names are wrong at multiples of 26.** The name computed at src/gdrive/client.js:313-314 goes into the A1 range `${columnName}:${columnName}` at line 318. A1 column names are letters, but index 26 gives `@`. See Findings.
- **Section metadata is counted over the whole document.** `updateSectionMetadata` (lines 432-439) takes a `sectionIndex` like `appendBlock` and `insertBlockAt`, which count sections by breaks (lines 389-395). Yet it picks the `sectionIndex`-th "section metadata" table of the whole document, not the table inside section `sectionIndex`.
- **The row search fails.** `getCellRangeInSheet` returns `data.values` (line 333), and `findRowInSheet` and `findRowsInSheet` destructure `values` from that array again (lines 337 and 346). So they cannot return a row. See Findings.

Two more behaviours are easy to miss:

- `#getFilePath` stores only the two entries for the file it was asked about (lines 57-58). The ancestors that `#getParents` fetches on the way up are not stored. See `PathCache.GetFilePath`.
- The cache is one object for both directions, and `#getFileIdFromPath` consults it first (lines 63-65). So when the argument is a file id that is already cached, the answer is that file's path, not an id. See `PathCache.CachedIdAnswersWithPath`.

## Model

| member | source | states |
|---|---|---|
| `Utils.Filter` | src/utils.js:1-2 | The result is no longer than the input, and it holds exactly the input elements that satisfy the predicate. |
| `Utils.FilterKeepsOrder` | src/utils.js:1-2 | Any order relation between input elements still holds between the kept elements. Filtering preserves order. |
| `Utils.FilterConcat` | src/utils.js:1-2 | Filtering a concatenation is the concatenation of the filtered parts. |
| `Utils.FilterLength` | src/utils.js:1-2 | The number of kept elements is the number of input elements that satisfy the predicate. |
| `Utils.FindIndex` | src/utils.js:4-5 | The result is the lowest index whose element satisfies the predicate, or -1 when none does. |
| `Utils.Find` | src/utils.js:4-5 | The result is `undefined` exactly when no element satisfies the predicate. Otherwise it is the first element that does. |
| `Utils.SelectAll` | src/utils.js:1-2 | Selecting by the collected results keeps an element exactly when its result was truthy. |
| `Utils.SelectAllIsFilterOfPairs` | src/utils.js:1-2 | For any collected results, the selection is the synchronous filter over (element, result) pairs, projected to the elements: the same elements, in input order. |
| `Utils.SelectFirst` | src/utils.js:4-5 | Selecting by the collected results gives the first element with a truthy result, or `undefined` when there is none. |
| `Utils.AsyncFilterIsFilter` | src/utils.js:1-2 | With a pure predicate, `asyncFilter` equals the synchronous filter: the same elements in the same order. |
| `Utils.AsyncFindIsFind` | src/utils.js:4-5 | With a pure predicate, `asyncFind` equals the synchronous find. |
| `GDocParser.ParseText` | src/gdrive/gdoc.parser.js:13-17 | A text run emits at most one event. It emits none exactly when its content is empty after ECMAScript `trim`. |
| `GDocParser.ParseObject` | src/gdrive/gdoc.parser.js:27-32 | An inline object throws exactly when its id is missing from `inlineObjects` or its entry lacks `inlineObjectProperties` or `embeddedObject`. It emits at most one event, and every event it emits is an image of a resolved object. |
| `GDocParser.ParseStructuralElement` | src/gdrive/gdoc.parser.js:34-48 | Every event an element emits comes from a non-blank text run or from the image properties of a resolved inline object. |
| `GDocParser.ParseElements` | src/gdrive/gdoc.parser.js:19-21 | The same holds for a list of elements walked in order, stopping at the first throw. |
| `GDocParser.ParseCells` | src/gdrive/gdoc.parser.js:5-7 | The same holds for the cells of a row. |
| `GDocParser.ParseRows` | src/gdrive/gdoc.parser.js:9-11 | The same holds for the rows of a table. |
| `GDocParser.ParseTable` | src/gdrive/gdoc.parser.js:9-11 | The same holds for a table. |
| `GDocParser.Parse` | src/gdrive/gdoc.parser.js:50-56 | The same holds for the whole document body. |
| `GDocParser.ThrowsIffUnresolved` | src/gdrive/gdoc.parser.js:27-32 | Parsing an element throws exactly when some inline object the walk reaches in it does not resolve to an embedded object. |
| `GDocParser.ElementsThrowIffUnresolved` | src/gdrive/gdoc.parser.js:19-21 | A list of elements throws exactly when one of its elements has an unresolved inline object. |
| `GDocParser.RowsThrowIffUnresolved` | src/gdrive/gdoc.parser.js:5-7 | Rows throw exactly when one of their cells holds an unresolved inline object. |
| `GDocParser.CellsThrowIffUnresolved` | src/gdrive/gdoc.parser.js:1-3 | Cells throw exactly when one of their elements holds an unresolved inline object. |
| `GDocParser.ParseElementsConcat` | src/gdrive/gdoc.parser.js:50-52 | Walking `a + b` gives the events of `a` followed by those of `b`. If `a` throws, `b` is not walked. |
| `GDocParser.CellsInOrder` | src/gdrive/gdoc.parser.js:1-7 | A row's events are the events of its cells' contents laid end to end, in cell order. |
| `GDocParser.RowsInOrder` | src/gdrive/gdoc.parser.js:5-11 | A table's rows give the events of all their cell contents, row by row. |
| `GDocParser.TableEventsRowMajor` | src/gdrive/gdoc.parser.js:9-11 | A table's events are the events of its cells in row-major order. |
| `GDocParser.TextRunEvents` | src/gdrive/gdoc.parser.js:39-40 | A text-run element emits `text` with its content when the content is not blank, and nothing when it is blank. |
| `GDocParser.InlineObjectEvents` | src/gdrive/gdoc.parser.js:23-32 | A resolved inline object emits `image` with its `contentUri` when it has image properties, and nothing otherwise. |
| `GDocParser.SilentKinds` | src/gdrive/gdoc.parser.js:43-47 | Section breaks and unsupported elements emit nothing and do not throw. |
| `GDocParser.TableTakesPrecedence` | src/gdrive/gdoc.parser.js:35-36 | An element with a `table` is parsed as a table, whatever other keys it has. |
| `GDocParser.ParagraphTakesPrecedence` | src/gdrive/gdoc.parser.js:37-38 | Without a table, a `paragraph` wins over `textRun` and `inlineObjectElement`. |
| `GDocParser.TextRunTakesPrecedence` | src/gdrive/gdoc.parser.js:39-42 | Without a table or paragraph, a `textRun` wins over `inlineObjectElement`. |
| `Sections.Step` | src/gdrive/client.js:92-97 | One element moves the section counter up by one at a break. The position counter resets to 0 at a break and otherwise goes up by one. |
| `Sections.ScanForPosition` | src/gdrive/client.js:91-99 | Starting from consistent counters, the scan returns the first later element after which both counters match, or none when no element matches. |
| `Sections.GetElementPosition` | src/gdrive/client.js:88-101 | The result is -1 when no element matches (section, index). Otherwise it is the `endIndex` of the first element after which both counters match. |
| `Sections.NoBreakPositionIsLength` | src/gdrive/client.js:95-97 | Before the first break, the position counter counts every element. |
| `Sections.OriginNeverMatches` | src/gdrive/client.js:88-101 | (section 0, index 0) always yields -1. |
| `Sections.PositionZeroIsBreak` | src/gdrive/client.js:92-98 | Index 0 matches exactly at a break whose count is the section index. |
| `Sections.PositiveIndexIsContent` | src/gdrive/client.js:92-98 | A positive index only ever matches an element that is not a break. |
| `Sections.ScanForNextSection` | src/gdrive/client.js:390-395 | The search returns the first element after which the break count exceeds the section index, or -1. |
| `Sections.NextSectionIndex` | src/gdrive/client.js:389-395 | Every element before the found one is still inside the section. The found one lies past it. |
| `Sections.BreaksMonotone` | src/gdrive/client.js:391-393 | The break count never decreases along the content. |
| `Sections.NextSectionIsBreak` | src/gdrive/client.js:390-396 | Where the search stops at a positive index, that element is the break opening section `sectionIndex + 1`. |
| `Sections.NextSectionFound` | src/gdrive/client.js:390-395 | For a section index that is not negative, the search succeeds exactly when more breaks than `sectionIndex` follow. |
| `Sections.NextSectionAtStart` | src/gdrive/client.js:390-395 | The search stops at element 0 exactly when that element already lifts the count above the section index. |
| `Sections.AppendPositionCharacterization` | src/gdrive/client.js:387-398 | `appendBlock` has a sibling exactly when `0 <= sectionIndex < breaks` and it is not the case that section 0 starts with a break. The sibling is the element just before the break that closes the section. |
| `Sections.LastSectionCannotBeAppendedTo` | src/gdrive/client.js:387-398 | Appending to the last section always fails, because the sibling is undefined. |
| `DocRequests.JsLength` | src/gdrive/client.js:109 | `cell.length` counts UTF-16 code units: between one and two per character, and exactly one per character inside the BMP. |
| `DocRequests.SlotsLength` | src/gdrive/client.js:106-118 | The flattened walk has one slot per cell. |
| `DocRequests.SlotsRowMajor` | src/gdrive/client.js:106-118 | Cell (i, j) is slot `cells before row i + j`, and it opens its row exactly when `j == 0`. |
| `DocRequests.Layout` | src/gdrive/client.js:104-109 | The first cell goes at `end + 2` if it opens a row, else at `end + 1`. The next cell goes at previous start + length + 2, or + 3 when it opens a new row. |
| `DocRequests.LayoutIncreasing` | src/gdrive/client.js:104-109 | Cell locations strictly increase along the walk. |
| `DocRequests.FillTableRequests` | src/gdrive/client.js:103-119 | Every fill request is an `insertText` of a non-empty cell. Locations strictly increase, and there are no more requests than cells. |
| `DocRequests.KeptExactlyNonEmpty` | src/gdrive/client.js:118 | The truthiness filter keeps exactly the requests of cells that are not empty. |
| `DocRequests.FillIsNonEmptyCells` | src/gdrive/client.js:103-119 | A request is in the fill exactly when it inserts a non-empty cell at that cell's place in the walk. Empty cells still take their place. |
| `DocRequests.FirstCellOffset` | src/gdrive/client.js:105-109 | Cell (0,0) goes at `index + 4`. |
| `DocRequests.InsertBlockRequests` | src/gdrive/client.js:121-139 | The batch throws exactly when there is no data row. Otherwise it is one `insertTable(rows, columns of row 0, index)` followed by the fill computed from the same index. |
| `DocRequests.DeleteRowRequests` | src/gdrive/client.js:147-158 | There are n-1 `deleteTableRow` requests, and the k-th deletes row n-1-k. |
| `DocRequests.Reverse` | src/gdrive/client.js:147 | `.reverse()` keeps the length and puts element `i` at position `n - 1 - i`. |
| `DocRequests.DeleteRowsBottomUp` | src/gdrive/client.js:147-158 | Row indices go strictly down, all lie in [1, n), and every row but the header is deleted. |
| `DocRequests.UpdateBlockRequests` | src/gdrive/client.js:141-173 | The batch throws exactly when the table has no rows. Otherwise it is n-1 bottom-up deletes, then one insert per data row, then the fill anchored at `tableRows[0].endIndex`. |
| `DocRequests.RowsAfterConcat` | src/gdrive/client.js:146-170 | Applying two lists of row edits in turn is applying their concatenation. |
| `DocRequests.DeletesLeaveHeader` | src/gdrive/client.js:147-158 | Applied in order to an `n`-row table, every deletion names a row that still exists, and one row is left. |
| `DocRequests.InsertsAddRows` | src/gdrive/client.js:159-168 | Each `insertTableRow` adds one row. |
| `DocRequests.TextKeepsRows` | src/gdrive/client.js:169 | The fill's text insertions leave the row count alone. |
| `DocRequests.UpdateLeavesHeaderAndDataRows` | src/gdrive/client.js:141-173 | Applied to the table it rewrites, the batch never deletes a missing row and leaves the header row plus one row per data row. |
| `DocEditor.AppendBlock` | src/gdrive/client.js:387-398 | An undefined sibling and empty data fail. On success the batch inserts the table at the sibling's `endIndex` and fills it from there. |
| `DocEditor.AppendBlockLocation` | src/gdrive/client.js:387-398 | `appendBlock` succeeds exactly when the section is closed by a break that is not the first element and there is data. The table goes at the end of the element before that break. |
| `DocEditor.InsertBlockAt` | src/gdrive/client.js:400-404 | The call succeeds exactly when there is data. The table goes at the element position, which is -1 when nothing matches. |
| `DocEditor.InsertAtOriginTargetsMinusOne` | src/gdrive/client.js:400-404 | Inserting at (section 0, index 0) always targets index -1. |
| `DocEditor.Blocks` | src/gdrive/client.js:408 | The blocks are the content's table elements. There are as many as the content has tables. |
| `DocEditor.BlockAddressing` | src/gdrive/client.js:443-444 | The table at content position k is block number "tables before k". |
| `DocEditor.BlockHasAddress` | src/gdrive/client.js:408 | Every block is some content position's table, numbered by the tables before it. |
| `DocEditor.RemoveBlock` | src/gdrive/client.js:406-422 | An out-of-range block index fails. Otherwise the batch is exactly one `deleteContentRange`. |
| `DocEditor.RemoveBlockSpansAddressedTable` | src/gdrive/client.js:406-422 | Removing block "tables before k" deletes exactly `startIndex..endIndex` of the table at position k. |
| `DocEditor.UpdateBlockRewritesAddressedTable` | src/gdrive/client.js:441-447 | Updating block "tables before k" rebuilds the table at position k from its own start and rows. |
| `DocEditor.FindNamed` | src/gdrive/client.js:426 | The result is the first element whose header lower-cases to the name. It is a throw when the header read hits an element without a text run before any match, and `undefined` when nothing decides. |
| `DocEditor.FilterNamed` | src/gdrive/client.js:434 | The filter throws exactly when some element's header read throws. Otherwise it keeps exactly the named tables, in order. |
| `DocEditor.NamedHasHeaderRow` | src/gdrive/client.js:426 | A named element is a table with a header row. |
| `DocEditor.UpdatePageMetadata` | src/gdrive/client.js:424-430 | A throwing or missing metadata table fails. Otherwise the first metadata table is rewritten with one row per entry. |
| `DocEditor.UpdateSectionMetadata` | src/gdrive/client.js:432-439 | The call succeeds exactly when `sectionIndex` is in range of the document's "section metadata" tables. That table is rewritten. |
| `DocEditor.NameMatchIgnoresCase` | src/gdrive/client.js:426 | Headers that differ only in ASCII case are matched alike. |
| `DocEditor.AsciiLowerMatchesCaseless` | src/gdrive/client.js:426 | Two headers lower-case to the same text exactly when they agree character by character up to the case of ASCII letters. |
| `DocEditor.AsciiLowerIdempotent` | src/gdrive/client.js:426 | Lower-casing leaves no ASCII capital, so lower-casing twice is lower-casing once. |
| `DocEditor.EntriesRoundTrip` | src/gdrive/client.js:428 | The metadata rows read back as the same key/value entries, in the same order. |
| `DocEditor.MatrixOfEntries` | src/gdrive/client.js:428 | A matrix that reads back as entries is exactly the rows written for them. |
| `DocEditor.PageMetadataRowCount` | src/gdrive/client.js:424-430 | When the search finds the metadata table, the update succeeds. Request `i` deletes row `n - 1 - i` of that table, so the non-header rows go bottom-up. Then one row is inserted at that table per entry. |
| `Sheets.FindRowInSheet` | src/gdrive/client.js:338-342 | The index is the first accepted row, or -1 with `undefined` values. The values are that row. |
| `Sheets.FindRowsInSheet` | src/gdrive/client.js:347 | The result is exactly the accepted rows, in sheet order, each tagged with its original index. |
| `Sheets.FindRowIsFirstOfFindRows` | src/gdrive/client.js:336-348 | The single-row search finds nothing exactly when the multi-row search is empty. Otherwise its result is the multi-row search's first entry. |
| `Sheets.RowSearchAsWrittenAlwaysThrows` | src/gdrive/client.js:336-348 | As written, both searches throw on every sheet. |
| `Sheets.InsertRowRange` | src/gdrive/client.js:258-259 | The inserted range covers exactly zero-based row `index - 1`. |
| `Sheets.InsertColumnRange` | src/gdrive/client.js:302-303 | The inserted range covers exactly zero-based column `index - 1`. |
| `Sheets.DeleteRowRange` | src/gdrive/client.js:364-365 | The deleted range covers exactly zero-based row `index`. |
| `Sheets.DeleteRemovesFoundRow` | src/gdrive/client.js:364-365 | Deleting the index a row search reports removes exactly the row it found. |
| `Sheets.InsertAndDeleteCountDifferently` | src/gdrive/client.js:364-365 | Insertion counts rows from 1 and deletion from 0: `InsertRowRange(i) == DeleteRowRange(i - 1)`. |
| `Sheets.JsRemainder` | src/gdrive/client.js:314 | JavaScript `%` takes the sign of the dividend. For a dividend that is not negative it is the mathematical remainder. For a negative dividend it is the negated remainder of the magnitude. |
| `Sheets.ColumnName` | src/gdrive/client.js:313-314 | The name has two code units above 26 and one otherwise. Up to 26 it is `@` + `index % 26`. |
| `Sheets.ColumnNameSmallValues` | src/gdrive/client.js:313-314 | Indices 1..25 give the single letters A..Y. |
| `Sheets.ColumnNameAtMultiplesOf26` | src/gdrive/client.js:313-314 | Index 26 gives `@` and 52 gives `B@`. |
| `Sheets.ColumnNameTwoLetters` | src/gdrive/client.js:313-314 | From 27 to 701 the name is (`@` + index / 26, `@` + index % 26). |
| `Sheets.ColumnNameDiffersAtMultiplesOf26` | src/gdrive/client.js:313-314 | Up to 701 the name as written equals the bijective name exactly when the index is not a multiple of 26. |
| `Sheets.BijectiveColumnName` | src/gdrive/client.js:313-314 | The intended name is empty below 1 and otherwise made only of letters A..Z. |
| `Sheets.ColumnNumberOfName` | src/gdrive/client.js:313-314 | Reading the bijective name back gives the column number. |
| `Sheets.NameOfColumnNumber` | src/gdrive/client.js:313-314 | Every name of letters A..Z is the bijective name of its number. |
| `PathCache.ChainUnique` | src/gdrive/client.js:37-46 | A file has at most one ancestor chain. |
| `PathCache.Parents` | src/gdrive/client.js:37-46 | On success the walk returns the ancestor chain of the file, outermost first, ending at its parent and starting where there is no parent or at the root. It makes one fetch per ancestor. A missing parent fails with its id. |
| `PathCache.ParentsComplete` | src/gdrive/client.js:37-46 | Conversely, the walk returns every ancestor chain that fits in its fuel. |
| `PathCache.ChainPrefix` | src/gdrive/client.js:37-46 | Each ancestor on a chain has the part of the chain before it as its own chain. |
| `PathCache.ChainDistinct` | src/gdrive/client.js:37-46 | A walk that ends visits no file twice and never returns to the file it started from. |
| `PathCache.CycleMeansNoChain` | src/gdrive/client.js:37-46 | For a file stored in a well-formed drive, `Cycle` implies that the file has no ancestor chain. |
| `PathCache.ParentsCycleIffClimbing` | src/gdrive/client.js:37-46 | The walk with fuel `n` reports `Cycle` exactly when `n` parent fetches all succeed and the file reached still has a parent. That is when the source's recursion goes deeper than `n`. |
| `PathCache.CycleIsForever` | src/gdrive/client.js:37-46 | For a file stored in a well-formed drive, `Cycle` at fuel `|files|` means `Cycle` at every fuel. The source's recursion never reaches a top or a missing parent, so it does not end. |
| `PathCache.RootChildPath` | src/gdrive/client.js:53-56 | A file whose parent is the drive root has path `/` + title. |
| `PathCache.GetFilePath` | src/gdrive/client.js:48-60 | A truthy cached entry answers with no call and no change. Otherwise the path is computed with one call per ancestor. On success exactly two keys are added or overwritten: id -> path and path -> id. Every other entry is kept and no other key appears. A failure leaves the cache alone. |
| `PathCache.GetFilePathAgreesWithDrive` | src/gdrive/client.js:48-60 | On a consistent cache `#getFilePath` returns the file's true path and keeps the cache consistent. |
| `PathCache.Leaf` | src/gdrive/client.js:68 | `split('/').pop()` contains no slash and is no longer than the path. |
| `PathCache.LeafAppend` | src/gdrive/client.js:68 | Appending text without a slash to a path appends it to the leaf. |
| `PathCache.LeafAfterSlash` | src/gdrive/client.js:68 | The leaf of `a/t` is `t`, and a slash-free name is its own leaf. |
| `PathCache.LeafOfPath` | src/gdrive/client.js:68-70 | The last segment of a file's path is its title, so the title search lists the file. |
| `PathCache.Candidates` | src/gdrive/client.js:69-71 | The title query lists exactly the listed files with that title. |
| `PathCache.Probe` | src/gdrive/client.js:72-76 | The callback run answers once per candidate and never drops a cache key. |
| `PathCache.ProbeKeepsConsistency` | src/gdrive/client.js:72-76 | The callback run keeps a consistent cache consistent. |
| `PathCache.ProbeAnswers` | src/gdrive/client.js:72-76 | Each answer says whether that candidate's true path is the path looked up. |
| `PathCache.ProbeCachesEveryCandidate` | src/gdrive/client.js:72-76 | After a successful run every candidate is cached, not only those before the match. |
| `PathCache.CandidatePathCached` | src/gdrive/client.js:72-76 | After a successful run on a consistent cache, each candidate's id is cached against its true path. |
| `PathCache.ProbeFailure` | src/gdrive/client.js:72-76 | The run fails only when some candidate's path cannot be computed. |
| `PathCache.LookUp` | src/gdrive/client.js:66-78 | The title search makes at least one call and drops no cache key. What it finds is a candidate. |
| `PathCache.LookUpAgreesWithDrive` | src/gdrive/client.js:66-78 | On a consistent cache the search returns the first candidate whose true path is the path looked up, and every candidate's id ends up cached. |
| `PathCache.GetFileIdFromPath` | src/gdrive/client.js:62-79 | A truthy cached entry answers with no call and no change. Uncached `/` is the drive id with no call. Anything else makes at least one call. |
| `PathCache.ResolvedIdIsAtPath` | src/gdrive/client.js:62-79 | On a consistent cache, an id returned for a path that is neither `/` nor itself a file id names a file at that path. |
| `PathCache.CachedIdAnswersWithPath` | src/gdrive/client.js:63-65 | On a consistent cache, looking up a file id that is already cached returns that file's path. That path is not a file id. |
| `PathCache.ListedFileIsFound` | src/gdrive/client.js:62-79 | A listed file at the path, with no slash in its title, is always found unless the lookup fails. |
| `PathCache.GetFileIdFromPathStable` | src/gdrive/client.js:62-79 | The corrected lookup returns the same result with the same number of calls as the original, and it also stores the returned id under the path. |
| `PathCache.StableLookupRepeats` | src/gdrive/client.js:62-79 | With the correction, a second lookup of a resolved path returns the same id with no backend call and no change to the cache. |
| `PathCache.StableLookupKeepsConsistency` | src/gdrive/client.js:62-79 | The corrected lookup keeps the cache consistent. |
| `PathCache.ProbeTwoAtSamePath` | src/gdrive/client.js:72-76 | With two candidates at the same path, both match and the path ends up cached against the second. |
| `PathCache.DuplicatePathResolvesDifferently` | src/gdrive/client.js:62-79 | As written, two listed files at one path resolve to the first, then to the second on the next lookup. |
| `PathCache.TwinsAreAtSamePath` | src/gdrive/client.js:53-59 | Two files titled `t` directly under the root are both at `/t`. |
| `PathCache.TwinsListed` | src/gdrive/client.js:68-70 | The title search for the leaf of `/t` lists both of them, in listing order. |
| `PathCache.TwinsResolveDifferently` | src/gdrive/client.js:62-79 | In that drive, for any title without a slash, resolving `/t` twice gives `a`, then `b`. |

## Left out

- Network I/O: every googleapis call is left out. This includes `files.get`, `files.list`, `documents.get`, `values.get`, `values.update` and `batchUpdate`. The drive and documents are given as values, and batches are returned rather than submitted.
- `Promise.all` concurrency: `asyncFilter`, `asyncFind` and the cache callback are evaluated left to right. Under concurrency, which candidate writes a shared cache key last is a matter of timing.
- PathCache.Probe: stops at the first candidate whose path fails. Under `Promise.all` the other callbacks still run and still write the cache.
- PathCache.Parents: the walk is bounded by the number of files in the drive. `Cycle` stands for the source's endless recursion on a parent cycle; `PathCache.CycleIsForever` proves that for files stored in the drive, since more fuel never changes the verdict. For a file that is not stored, the bound can report `Cycle` where the source would report a missing parent further up. The lookups only walk listed files, and those are stored.
- Sections.IsBreak: a paragraph with no elements counts as a non-break. The source throws on `elements[0].textRun` there.
- DocEditor.AsciiLower: `toLowerCase` is modelled on ASCII only. The targets `metadata\n` and `section metadata\n` are ASCII. The only non-ASCII character whose lower case is an ASCII letter is KELVIN SIGN, which lower-cases to `k`, and neither target contains `k`.
- DocEditor.EntriesMatrix: takes the entries in `Object.entries` order as given. Integer-like keys sorting first is not modelled. Metadata values are strings here; a number or other value is not modelled.
- DocRequests.FillTableRequests: cells are strings. In the source a non-string cell, such as a number, has no `length`, so every later location becomes `NaN` (line 109). That case is not modelled.
- GDocParser.ParseStructuralElement: the `console.error` report for an unsupported element (gdoc.parser.js:46) is output and is left out. Such an element emits nothing and does not throw.
- GDocParser.ParseText: the callback's third argument, the text-run element itself (gdoc.parser.js:15), is not recorded in the `text` event.
- PathCache.Candidates: `files.list` (client.js:69-71) returns one page of results, and `listing` stands for that page. So `PathCache.ListedFileIsFound` speaks of files on that page, not of every file with the title.
- Plain-object prototype keys such as `constructor` in the cache object are not modelled. The cache is a plain map.
- Trashed files and quoting in the title query are not modelled. The listing is taken to be the non-trashed files, and the query is taken to match the title exactly.
- `getDocumentContent` is left out: it is a chain of external `@adobe/helix-gdocs2md` converters whose code is not part of this model.
- `copyFile`, `moveFile`, `deleteFile`, `listFiles`, `getFile`, `appendRowToSheet`, `appendColumnToSheet` and `getCellRangeInSheet` are left out. They only forward to the API.
- The A1 range string of `updateSheetRowAt` is not modelled. It uses `colIndexToLetter`, which client.js imports from src/utils.js but src/utils.js does not define. `updateSheetColumnAt` builds its range from the column name it computes inline (lines 313-314), and that name is modelled; the range string itself is not.
- The `sheetId` for the grid requests is looked up by title (`findIndex` over the sheets) and passed on as a sheet id. That lookup is not modelled.
- src/generic.client.js, src/sharepoint/client.js, the auth providers, src/index.js, src/client.interface.js and test-gdrive.js are not part of this model.

## Findings

| source | as written | input that shows it | evidently intended | confidence | as-written member | corrected member |
|---|---|---|---|---|---|---|
| src/gdrive/client.js:336-348 | `const { values } = await this.getCellRangeInSheet(...)` destructures `values` from the array that `getCellRangeInSheet` already returns. That binds `Array.prototype.values`, a function, or throws on `undefined`, so `values.findIndex` and `values.map` throw. | Any sheet, e.g. values `[["a"]]` with a filter accepting every row: both searches throw. | Search the returned matrix itself: `const values = await ...` | high, not executed | `Sheets.RowSearchAsWrittenAlwaysThrows` | `Sheets.FindRowInSheet` |
| src/gdrive/client.js:313-314 | The leading letter comes from `floor(index / 26)` and the last letter from `index % 26`, both offset from `@`. | Index 26 gives `@` (intended `Z`). Index 52 gives `B@` (intended `AZ`). | Bijective base-26 names A..Z, AA.. | high, not executed | `Sheets.ColumnNameDiffersAtMultiplesOf26` | `Sheets.NameOfColumnNumber` |
| src/gdrive/client.js:72-78 | Every candidate's callback stores `path -> id`, so with two files at one path the path is left cached against the last candidate. The lookup still returns the first. | Two files titled `t` under the root, listed `a` then `b`: looking up `/t` gives `a`, and the next lookup gives `b`. | The same path resolves to the same id on repeated lookups. | medium, not executed | `PathCache.DuplicatePathResolvesDifferently` | `PathCache.StableLookupRepeats` |
