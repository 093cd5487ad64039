# Site Solutions web: work-order pages, modelled in Dafny

The web front end of Site Solutions manages utility-locate work orders (WOIDs) for projects. Each
work order belongs to an address and is worked by task-force teams. This project models the data
logic of three of its pages and proves properties of that logic:

- **Address history** (`app/address-history/page.tsx`). For one address it builds:
  - the WOID-to-teams, WOID-to-reports and WOID-to-files maps;
  - the status of each WOID (void, complete, in progress, not started);
  - the completion counters and the completion percentage;
  - the activity timeline: report and ticket-update items, filtered by kind, sorted newest first and grouped by calendar day;
  - the colour of a ticket status;
  - the image-file test;
  - the latest status per utility company of each ticket.
- **Upload** (`app/upload/page.tsx`):
  - the spreadsheet extension check;
  - the preview of the first five data rows;
  - the checks of `handleUpload`, the extraction of address/work-order assignments, and the call into the bulk-insert mutation.
- **View** (`app/view/page.tsx`):
  - the search box;
  - the row style of an address (void beats complete beats default);
  - the colour class of each team status;
  - the content of each team's completion cell.

Modules:

| file | module | contents |
|---|---|---|
| `wrappers.dfy` | `Wrappers` | `Option` and JavaScript truthiness of an optional string |
| `text.dfy` | `Text` | `trim` (ECMAScript white space and line terminators), ASCII `toLowerCase`, `includes`, `endsWith`, `lastIndexOf`, `substring` |
| `sequences.dfy` | `Sequences` | `some`, `every`, `findIndex`, `filter`, deduplication, buckets of a key, counting |
| `ordered_maps.dfy` | `OrderedMaps` | a JavaScript `Map` as a value: its insertion order plus its entries; `set`, and the two loop shapes that fill a map (set-each and push-into-bucket) |
| `address_history.dfy` | `AddressHistory` | the address-history page |
| `upload.dfy` | `Upload` | the upload page |
| `view_page.dfy` | `ViewPage` | the view page |

The page code has two kinds of logic:

- **Loops that update a map or counters in place.** These are methods with loop invariants. Each is proved against a specification function: `Dedup`, `Bucket`, `LastKeyIndex`, `CountIf`, `IsLatest`, `PreviewCell` or `Assignments`.
- **Expression logic.** The callbacks of `some`, `every`, `filter` and `sort`, and the conditional class names, are functions whose contracts say what the result means.

## Model

| member | source | states |
|---|---|---|
| OrderedMaps.Set | app/address-history/page.tsx:87-88 | `Map.set` stores the value; a new key goes to the end of the insertion order and an existing key keeps its place; every key is in the order exactly once |
| OrderedMaps.SizeIsOrderLength | app/address-history/page.tsx:133 | `Map.size` equals the number of keys in insertion order |
| OrderedMaps.SetAll | app/address-history/page.tsx:92-100 | setting pairs in turn: keys are the old keys plus the pairs' keys, in first-occurrence order; a key gets the value of its last pair; untouched keys keep their value |
| OrderedMaps.GroupBy | app/address-history/page.tsx:110-117 | pushing each keyed item onto its key's bucket: the keys are the present keys in first-occurrence order, and each bucket is exactly the subsequence of items with that key; unkeyed items are dropped |
| AddressHistory.SeedWoids | app/address-history/page.tsx:86-90 | every assigned WOID once, in first-assignment order, with an empty team list |
| AddressHistory.BuildTeamMap | app/address-history/page.tsx:86-100 | the keys are the assigned WOIDs and the grouped WOIDs; a grouped WOID holds the teams of its last group; an assigned-only WOID has no teams; order is assignments first, then new grouped WOIDs |
| AddressHistory.ReportsByWoid | app/address-history/page.tsx:103-106 | one entry per report-group WOID, holding the reports of the last group of that WOID |
| AddressHistory.FilesByWoid | app/address-history/page.tsx:110-117 | files without a WOID (missing or "") are skipped; each bucket holds only files of its WOID, every file with a WOID is in its bucket with its multiplicity, and the bucket keeps input order |
| AddressHistory.FileBucketKeys | app/address-history/page.tsx:111-112 | a WOID has a bucket exactly when it is non-empty and some file carries it |
| AddressHistory.FileBucketsComplete | app/address-history/page.tsx:113-116 | every file with a WOID appears in that WOID's bucket as often as in the input |
| AddressHistory.Classify | app/address-history/page.tsx:182-189 | void iff some team is exactly "void"; complete iff the list is non-empty and all are exactly "complete"; not started iff there are no teams; in progress otherwise |
| AddressHistory.GetWoidStatus | app/address-history/page.tsx:181-190 | a WOID missing from the map is "not started"; otherwise it is the classification of its teams |
| AddressHistory.CountsPartition | app/address-history/page.tsx:123-130 | each WOID falls into exactly one of the four statuses, so the four counts add up to the number of WOIDs |
| AddressHistory.CountWoids | app/address-history/page.tsx:120-131 | the counters equal the number of complete WOIDs, the number of void WOIDs, and the number of in-progress plus team-less WOIDs; together they equal the map's size |
| AddressHistory.CompletionPercentage | app/address-history/page.tsx:133-134 | 0 with no WOIDs; otherwise the integer nearest to 100·complete/total, with halves rounded up; at most 100 when complete ≤ total |
| AddressHistory.PercentageEnds | app/address-history/page.tsx:134 | no complete WOID gives 0%; all WOIDs complete gives exactly 100% |
| AddressHistory.CompletionStats | app/address-history/page.tsx:120-134 | the three counters, the total equal to the map's size and their sum, and a percentage between 0 and 100 that is 0 with no complete WOID and 100 with all WOIDs complete |
| AddressHistory.ReportItems | app/address-history/page.tsx:138-145 | there are exactly as many items as reports in all groups together, and each is a report item dated by its report's creation time |
| AddressHistory.ReportItemsAt | app/address-history/page.tsx:138-145 | report `j` of group `i` is the item at position (reports of the groups before `i`) + `j`, carrying the group's WOID: groups one after another, each in report order |
| AddressHistory.ReportItemsFrom | app/address-history/page.tsx:138-145 | every position holds the item of some report of some group, so the flattening adds nothing |
| AddressHistory.TicketItems | app/address-history/page.tsx:146-153 | there are exactly as many items as updates in all tickets together, and each is a ticket-update item dated by its update's creation time |
| AddressHistory.TicketItemsAt | app/address-history/page.tsx:146-153 | update `j` of ticket `i` is the item at position (updates of the tickets before `i`) + `j`, carrying the ticket's id: tickets one after another, each in update order |
| AddressHistory.TicketItemsFrom | app/address-history/page.tsx:146-153 | every position holds the item of some update of some ticket, so the flattening adds nothing |
| AddressHistory.SortNewestFirst | app/address-history/page.tsx:161 | the sort result is newest first and a permutation of its input |
| AddressHistory.SortStable | app/address-history/page.tsx:161 | the sort is stable: the items of any one date keep their original relative order |
| AddressHistory.FilterSelects | app/address-history/page.tsx:155-160 | filtering by "all", "reports" or "tickets" keeps all items, only the report items, or only the ticket items |
| AddressHistory.Timeline | app/address-history/page.tsx:137-161 | the timeline is newest first, a permutation of the selected items, stable per date, and holds only items of the selected kind |
| AddressHistory.BucketSorted | app/address-history/page.tsx:164-172 | a day bucket taken from a newest-first timeline is itself newest first |
| AddressHistory.GroupedTimeline | app/address-history/page.tsx:164-172 | every day with an item has a bucket and no other day does; each bucket is the timeline's subsequence for that day with multiplicities kept; days are in first-item order; buckets of a sorted timeline are sorted |
| AddressHistory.GetStatusColor | app/address-history/page.tsx:174-179 | green iff the lower-cased status contains "clear" or "marked"; yellow iff it does not and it contains "pending" or "wait"; gray otherwise |
| AddressHistory.LatestUnique | app/address-history/page.tsx:526-527 | at most one update of a company is the kept latest one |
| AddressHistory.LatestUtilityStatus | app/address-history/page.tsx:522-531 | one entry per company with an update, in first-update order; each holds the status and date of the company's newest update, the first one among updates of equal date |
| AddressHistory.IsImageFile | app/address-history/page.tsx:76-80 | an image iff the type contains "image" or the lower-cased name ends with one of the seven image extensions |
| Upload.FileExtension | app/upload/page.tsx:58-61 | with no dot the whole lower-cased name; otherwise a lower-cased suffix that starts at a dot and holds no later dot |
| Upload.AcceptedIffEndsWith | app/upload/page.tsx:58-66 | a file is accepted iff its lower-cased name ends with ".xlsx", ".xls" or ".csv" |
| Upload.PreviewHeaderIsUploadHeader | app/upload/page.tsx:107-114 | a header the preview recognises (lower-cased, untrimmed) is also recognised by the upload (trimmed, then lower-cased) |
| Upload.PreviewColumnsFoundByUpload | app/upload/page.tsx:211-221 | whenever the preview finds both columns, the upload finds them too, at the same index or an earlier one |
| Upload.PaddedHeaderOnlyInUpload | app/upload/page.tsx:211-216 | the header " Address" is found by the upload but not by the preview |
| Upload.PreviewCell | app/upload/page.tsx:127-128 | a cell past the row's end previews as ""; any other cell previews as its trimmed text |
| Upload.PreviewSheet | app/upload/page.tsx:97-130 | an empty sheet is reported; a missing column aborts the preview; otherwise one row per data row up to five, each the trimmed address and work-order cells |
| Upload.PreviewRowsTrimmed | app/upload/page.tsx:124-130 | a preview shows at most five rows, and their cells carry no surrounding white space |
| Upload.RowAssignment | app/upload/page.tsx:236-244 | a row yields an assignment iff both trimmed cells are present and non-empty; the assignment holds those trimmed cells |
| Upload.ExtractAssignments | app/upload/page.tsx:234-245 | the loop returns the assignments of the data rows after the header, in row order |
| Upload.AssignmentsSound | app/upload/page.tsx:234-245 | every assignment comes from some data row, and there are no more assignments than rows |
| Upload.AssignmentsComplete | app/upload/page.tsx:234-245 | every data row that yields an assignment contributes it |
| Upload.AssignmentsTrimmed | app/upload/page.tsx:236-244 | every assignment sent has a non-empty address and work order with no surrounding white space |
| Upload.AssignmentsEmptyIff | app/upload/page.tsx:247-251 | there are no assignments iff no data row yields one |
| Upload.HandleUpload | app/upload/page.tsx:147-258 | exactly one outcome per case, as iffs: missing file/project/team, fewer than two rows, missing column, no valid row; otherwise a bulk insert of the non-empty assignments with the selected project and team |
| ViewPage.HandleSearch | app/view/page.tsx:59-63 | the query becomes the trimmed input when it is non-empty and a project is selected; otherwise it is unchanged |
| ViewPage.HandleSearchKeepsTrimmed | app/view/page.tsx:59-63 | `handleSearch` keeps a trimmed query trimmed and never empties a non-empty one; with the initial "" and the Clear button's "" (app/view/page.tsx:14, 171-172) the query is always trimmed |
| ViewPage.HandleSearchIgnoresBlank | app/view/page.tsx:59-63 | an all-whitespace input leaves the query unchanged; any other input, with a project selected, becomes the non-empty trimmed query |
| ViewPage.HasVoidTeam | app/view/page.tsx:298-300 | true iff some team of some WOID has status "void" in any letter case |
| ViewPage.IsAddressComplete | app/view/page.tsx:303-312 | false without a completing team; otherwise true iff some WOID has that team with status "complete" in any letter case |
| ViewPage.AddressRowStyle | app/view/page.tsx:314-318 | void style iff a void team exists; complete style iff no void team and the address is complete; default otherwise |
| ViewPage.TeamStatusColor | app/view/page.tsx:412-420 | the class of the lower-cased status's own entry; the default grey for a missing status or one without an entry |
| ViewPage.TeamStatusColorIgnoresCase | app/view/page.tsx:412 | statuses that agree after lower-casing get the same colour |
| ViewPage.StatusColorAsWritten | app/view/page.tsx:412-420 | the expression as written yields an inherited object member exactly for statuses that lower-case to "constructor" or "__proto__" |
| ViewPage.StatusColorAsWrittenLeaksInherited | app/view/page.tsx:417-419 | a team with status "Constructor" gets the inherited `constructor` member instead of a class name |
| ViewPage.StatusColorAsWrittenAgrees | app/view/page.tsx:412-420 | apart from those two names, the expression as written gives `TeamStatusColor` |
| ViewPage.CompletionCellOf | app/view/page.tsx:425-433 | "VOID" iff the status is void in any case; otherwise the date iff it is present and non-zero; otherwise a dash |
| ViewPage.VoidCellMeansVoidRow | app/view/page.tsx:298-300 | a team shown as VOID also gives its address the void row style |
| Text.Trim | app/upload/page.tsx:236-237 | `trim` removes exactly the leading and trailing white space: the result is a slice whose ends are not white space |
| Text.TrimIdempotent | app/view/page.tsx:60-61 | trimming twice is trimming once |
| Sequences.FindIndex | app/upload/page.tsx:216-221 | `findIndex`: -1 iff no element passes; otherwise the first passing index |

## Left out

- Rendering: the JSX markup, the tabs, pluralised labels and locale date and time formatting (`toLocaleDateString`, `toLocaleTimeString`) are not modelled.
- The backend (Convex queries and mutations), authentication and routing are outside the model. The query results are parameters. The bulk-insert call is the `BulkInsert` outcome; its result and the state reset after it are not modelled.
- Reading the file is not modelled: `FileReader`, the XLSX parser and the choice of sheet. A sheet is given as rows of cell texts, with "" for blank cells. A numeric cell's `toString()` is taken as already done.
- The `try`/`catch` error paths of both file handlers (a reader or parser failure) are not modelled, nor the `alert` texts.
- The per-day key `new Date(item.date).toDateString()` depends on the local time zone. It is the parameter `dayKey`.
- The JavaScript `Map` and the `Record` accumulator are modelled as values that the loops reassign, not as shared objects updated in place; aliasing is not modelled.
- Text.Lower: maps only ASCII A–Z, because the Unicode case tables of `toLowerCase` are out of scope.
- AddressHistory.CompletionPercentage: computes the exact rational rounding. It does not model the floating-point division of `Math.round((complete / total) * 100)`, which differs only where a binary rounding error crosses a .5 boundary.
- Times (`_creationTime`, `completionDate`) are JavaScript numbers; they are modelled as integers. The pages only compare them, sort by them and test them against 0, so an order-preserving integer encoding of the times behaves the same; NaN and the infinities are not modelled.
- The Tailwind class strings of the row styles and the ticket-status dots are represented by the `RowStyle` and `StatusColor` values; the mapping to strings is only markup.
- The search pages, the header component, the colour palette module and the middleware are not part of this model.

## Findings

| source | as written | input that shows it | evidently intended | confidence | as-written member | corrected member |
|---|---|---|---|---|---|---|
| app/view/page.tsx:412-420 | `statusColors[statusKey] ?? "bg-gray-100 text-gray-800"` looks the lower-cased status up on a plain object literal, so inherited members such as `constructor` and `__proto__` are found; they are not nullish, so `??` keeps them | a team status "Constructor" (or "constructor", "__proto__") puts the `Object` constructor function, resp. `Object.prototype`, into the class attribute instead of a colour class | statuses without an own entry get the default grey class | not executed | ViewPage.StatusColorAsWrittenLeaksInherited | ViewPage.TeamStatusColor |
