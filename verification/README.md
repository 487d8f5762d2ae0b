# Verified model of the deutero command line

The command line reads studies, interviews and deliveries from a remote service, keeps a local mirror of them, and
shapes what it prints. This project models the parts of it where a mistake would be silent, and proves what they are
for:

- **Paging** (`Pagination`, `Requests`, `Truncation`, `OffsetPagers`, `Export`). The server is an arbitrary function of the request
  number and the parameters sent. Whatever it answers, a run ends within its bound and keeps exactly what it received.
  Against a truthful server the pages tile the list. `paginatedGet` also marks its result whenever its last answer names
  a cursor or claims more; a total that was not reached it can pass over, and it is proved exactly when it does. Both it
  and `export` follow a chain of cursors to its end. What each request carries, which answers are gone on from and what
  each mark means is spelled out parameter by parameter in `Requests`.
- **Fan-out** (`FanOut`). The launcher, the goroutines, the semaphore, the mutex and the shared counters are a
  transition system; every interleaving is a sequence of its steps. It is safe, never stuck, bounded, and returns the
  same thing whatever the interleaving.
- **Selecting and compacting** (`Select`, `SelectProofs`, `SelectWarnings`, `Compact`). `--select` over JSON trees, with
  list envelopes and their depth cap, and `--compact` over lists of rows: both are idempotent projections. The warnings
  of `--select` are not idempotent, and it is proved exactly when they are.
- **The local mirror** (`LocalListQuery`, `ParamOrder`, `LocalList`, `LocalListBatch`). The streaming, early-stopping
  list reader against its specification and against the older batch form, and what the order of the parameters decides.
- **Text** (`EditDistance`, `Csv`, `Saturation.Tokenize`). The two-row edit distance against edit scripts; the CSV
  printer against a reader of section 2 of RFC 4180 (with LF line ends); the tokenizer against maximal runs.
- **Aggregations** (`FlowCoverage`, `CohortMeasures`, `Agreement`, `Saturation`, `Reconcile`). Each is proved against a
  declarative account, and the two that measure the same transcripts are proved to agree.

`Basics`, `Sorting` and `Numerals` hold what the others share: options, stable sorting and the order on strings, and
Go's `strconv` and wrapping `int`. Where the source loops and assigns, the model is a method with a loop, proved against
a function or a predicate; the main statements are lemmas about those. Methods that page take a ghost list and prove
what they owe *if* the server is paging through it, so one contract covers every server and every list.

## What the proofs found

- `deuteroListInterviews` explains (`internal/cli/deutero_shared.go:278-280`) that comparing a batch with the limit
  the server echoes avoids losing part of the cohort behind a server that caps its pages. It does not: the offset
  moves on by the page asked for, so the elements between the cap and the page are skipped.
  `OffsetPagers.ListInterviews` gives the exact condition: the answer is right if and only if the cap is no smaller than
  the page of 100, or the whole list or the limit fits under the cap. `paginatedGet` has the same stride
  when the server leaves the next offset to the client (`Truncation.CappedIff`).
- `paginatedGet` reads a reported total as a sign that more remains (`internal/cli/helpers.go:1316`), but a run that ends
  with fewer items than the last total told need not be marked. Two commands declare an offset and no parameter for it
  (`internal/cli/studies_interviews_find-by-external-id.go:76`, `internal/cli/studies_search_transcripts.go:86`); there
  `--all` returns the first page of a longer list without a word (`Truncation.LookUpStopsUnmarked`).
  `Truncation.UnmarkedShortIff` is the exact condition, for every run.
- `measureCohort` recovers a step from an arm's key by cutting at the first arrow
  (`internal/cli/rehearse_diff.go:204-211`). When a step's label holds an arrow, the arm can disappear from the
  report (`Agreement.ArmMayGoMissing`; `Agreement.ArmReportedIff` says which arms are reported), or be given a share of
  another step's traversals, even a share of two (`Agreement.ShareMayExceedOne`). `Agreement.SharesRightIff` says for
  which flows the shares are right whatever the transcripts: those whose labels hold no such arrow and are all different.
- A table whose rows have no columns does not read back: a row of no cells prints the line of a row of one empty
  cell. `Csv.RoundTrip` is the if-and-only-if.
- Running `--select` over its own output never changes the output or the verdict, but it can change the warnings, both
  ways. A selector that was found inside a list envelope is lost when another selector has a key beside the list
  (`SelectWarnings.WarningsMayAppearLater`); and a null that one selector enters becomes an empty array, in which
  another, not found before, might have been (`SelectWarnings.WarningsMayDisappear`).
  `SelectWarnings.SameWarningsIff` says exactly when the warnings are the same: a single selector's always are.
- The streaming list reader looks for a filter's key in all records, the batch form only in those of the parent.
  `LocalListBatch.LoadAgreesWithBatchIff` shows that this is their only difference when both read the parameters in the
  same order.
- The order can matter: parameters are kept in a map, which Go visits in any order, and of two that page alike, such as
  `limit` and `per_page`, the one visited last wins while the other is neither honoured nor reported
  (`ParamOrder.LaterLimitWins`). `ParamOrder.OrderIsIrrelevantIff` says exactly which parameters read the same in every
  order.
- `paginatedGet` marks a run as cut at the page cap whenever the rules would ask for another page, and that can be when
  nothing is left: a list of exactly a hundred full pages comes back whole and marked (`Pagination.WholeListMarked`).
  `Pagination.MarkedIff` and `Pagination.MarkedIffFromStart` give the exact condition. A total does not help there: it
  does not stop the full-page rule, and when paging starts past the first element it even counts elements that were
  never asked for.
- `export` takes an empty page for the end of the collection even if that page claims more or names the next cursor, and
  then succeeds without the rest (`Export.EmptyPageHidesTheRest`). `Export.LeavesMoreIff` is the exact condition: what
  is on offer is left behind without an error if and only if the page is empty, the limit is reached, or the resource
  does not page. None of the resources configured in `internal/cli/resource_paths.go:43-47` pages, so each of them is
  exported by one request, whatever its answer says of more.

## Model

| member | source | states |
|---|---|---|
| `Pagination.PaginatedGet` | internal/cli/helpers.go:1113-1359 | Against any server: at most 100 requests, all alike but for the cursor; in cursor mode each carries the cursor named by the answer before it and no cursor is sent twice; each request follows from the answers before it by the rules of the loop, and no answer it goes on from is a failure, moves the collection to another field or names a cursor met before; the items are all those received, less a last page that repeats the one before; the marks are exactly what there is to say of the last answer (`Requests.MarkedFor` spells it out); it fails exactly when the last request does or the collection has moved to another field. Against a server that answers these requests truthfully from a list of distinct items, naming the position of the next one or else giving a sign while more remains: a stretch of the list without gap or overlap, all of it unless marked, and marked exactly when the rules ask for another page after the hundredth. |
| `Pagination.TakePage` | internal/cli/helpers.go:1181-1336 | One round of the loop keeps the log of requests and answers, and either goes on, or stops with exactly the mark the log calls for, or fails exactly for one of the two allowed causes. |
| `Pagination.DigestFollows` | internal/cli/helpers.go:1198-1334 | What any single answer leads to: failing exactly on a failed request or a moved collection; going on exactly when there is more to ask for below the cap, which keeps the items, notes the cursor named and sends the one asked for; stopping with exactly what was found (a repetition, a cursor met before, the cap, a claim with nothing to ask for, or nothing). |
| `Pagination.DigestTiles` | internal/cli/helpers.go:1198-1334 | A truthful page at the expected position, whether or not it names the next one, extends the tiling by exactly its own items and moves the position to their end, or ends the run at the end of the list or at the cap. |
| `Pagination.OfferIsMarked` | internal/cli/helpers.go:1261-1313 | A run whose last answer names a cursor or claims more is marked. |
| `Pagination.MarkedIff` | internal/cli/helpers.go:1211-1217 | With a page size, a run over a truthful server is marked if and only if more than a hundred pages are left, or the hundredth page ends the list and the rules go past it: it is full and judged by its length alone, or a total that counts elements before the first request is taken for what is left. |
| `Pagination.MarkedIffFromStart` | internal/cli/helpers.go:1315-1327 | From the first element on, a run is marked if and only if there are more than a hundred pages, or exactly a hundred full ones and either the last is a bare array or no field is declared to look at. |
| `Pagination.SliceServes` | internal/cli/helpers.go:1150-1167 | A server that slices its list by the offset and the limit it is sent is truthful in the sense above. |
| `Pagination.WholeListMarked` | internal/cli/helpers.go:1211-1217 | Such a server with exactly a hundred pages: everything is returned, and marked as cut. |
| `Pagination.ChainIsFollowed` | internal/cli/helpers.go:1261-1280 | Down a chain of pages linked by distinct cursors, each request answered with the next page, exactly min(100, n) requests are made, the result is those pages in order, the page cap is reported if and only if there were more than 100 pages, and the only other mark is that of a single page where no field is declared. |
| `Requests.CallerParamsAreSent` | internal/cli/helpers.go:1122-1133 | Every parameter of the caller's other than cursor and limit is sent with every request, unchanged, if and only if it is not blank; nothing else is sent. |
| `Requests.OnlyCursorMoves` | internal/cli/helpers.go:1181-1336 | No parameter but the cursor differs between any request and the first. |
| `Requests.BeginsAtCallersCursor` | internal/cli/helpers.go:1122-1133 | The first request carries the caller's cursor unless it is blank, or zero and no offset. |
| `Requests.LimitIsSent` | internal/cli/helpers.go:1150-1167 | By offset or number a positive limit of the caller's is sent as given, and otherwise the default size if there is one; in cursor mode none is made up. |
| `Requests.SizeIs` | internal/cli/helpers.go:1150-1167 | The size pages are judged by: none over cursors, else the caller's positive limit, else the default. |
| `Requests.NextRequestIs` | internal/cli/helpers.go:1281-1327 | From one request to the next: the cursor named, else the next page number, else the offset moved on by the page size, or where there is none by what was received, and past an empty page by one, in wrapping arithmetic. |
| `Requests.MoreToAskIff` | internal/cli/helpers.go:1218-1223 | There is more to ask for if and only if the answer names a cursor, or the client can move the cursor on itself and the answer says there is more, or says nothing, is not empty, and falls short of the total or fills a page where no field is declared. |
| `Requests.WentOn` | internal/cli/helpers.go:1198-1327 | Each answer but the last is no failure, repeats neither page nor cursor, and leaves more to ask for. |
| `Requests.MarkedFor` | internal/cli/helpers.go:1211-1344 | Each mark stands if and only if what it reports is so, and of the first four only the first that is: the last page came twice, its cursor was sent first or named before, there is more to ask for after a hundred pages, more is claimed with nothing to ask for, or the only page of a configuration without a way to page names no cursor. |
| `Requests.SamePageAgainIff` | internal/cli/helpers.go:1211-1248 | An answer repeats the page before if and only if the last collection received is the same and, unless it is a bare array or an offset page, a token is looked up that is blank or the cursor sent. |
| `Requests.FailsIff` | internal/cli/helpers.go:1189-1234 | A run fails if and only if its last request does or its last collection is in another field than an earlier one. |
| `Requests.LastTotalIs` | internal/cli/helpers.go:1254-1256 | The total that counts is that of the last answer to tell one. |
| `Truncation.UnmarkedShortIff` | internal/cli/helpers.go:1315-1328 | A run that ends with fewer items than the last total told is unmarked if and only if its last page is no repetition, it names no cursor and claims nothing, and it says there is no more, is empty, cannot be stepped on from (cursor mode, no cursor parameter, or one that does not parse), or is a short bare array; a first page that lacks every declared signal excepted. |
| `Truncation.OnePageWithoutParameter` | internal/cli/helpers.go:1459-1462 | Without a cursor parameter a run over any server ends with its first page unless that names a cursor, and is unmarked unless that claims more or lacks every declared signal. |
| `Truncation.LookUpStopsUnmarked` | internal/cli/studies_interviews_find-by-external-id.go:72-76 | The configuration of the look-up by external id: a first page of 20 items that tells a total of 57 is returned alone and unmarked. |
| `Truncation.CappedIff` | internal/cli/helpers.go:1459-1490 | Against a server that pages by offset, leaves the next offset to the client and caps its pages: the result is the first min(length, 100 pages) elements if and only if the cap is no smaller than the page size or the whole list fits under it. |
| `Pagination.NextPosition` | internal/cli/helpers.go:1459-1490 | The client-side cursor, written out and read back, points exactly one page further on (for offsets, one step). |
| `Pagination.NextFullPageTiles` | internal/cli/helpers.go:1446-1458 | Against a truthful page the full-page rule stops only at the end of the list. |
| `Pagination.NotTheSamePage` | internal/cli/helpers.go:1564-1574 | A later page of a list of distinct items is never taken for a repeat of an earlier one. |
| `Numerals.AtoiOfItoa` | internal/cli/helpers.go:1459-1490 | Reading back a number that was written out gives that number, over the whole of Go's int. |
| `OffsetPagers.FetchBatches` | internal/cli/deutero_shared.go:253-298 | Against any server: at most `limit` requests, at offsets 0, p, 2p, ..., each made because the last batch was full and neither limit nor total was reached; everything received is kept in order, and a failed batch fails the run. Against a server that caps its batches no lower than the page: at least min(limit, length) of its list. |
| `OffsetPagers.FetchUpTo` | internal/cli/deutero_shared.go:253-303 | The batches cut to the limit, and against a server that caps its batches at any size: the first min(limit, length) elements if and only if the cap is no smaller than the page, or the whole list or the limit fits under it. |
| `OffsetPagers.OverIs` | internal/cli/deutero_shared.go:255-291 | Batch i is asked for at i pages; it is the last if and only if it failed, fills no page (judged by the limit echoed, where the pager does so and it is positive), or reaches the total or the limit. |
| `OffsetPagers.ReceivedIs` | internal/cli/deutero_shared.go:277 | What is received is the batches end to end. |
| `OffsetPagers.ListInterviews` | internal/cli/deutero_shared.go:239-299 | The same for the interviews: pages of 100 judged by the limit echoed, up to the limit asked for, or 500 without one. |
| `OffsetPagers.BulkFetchTranscripts` | internal/cli/deutero_shared.go:471-518 | The same for the bulk transcripts: pages of 50 judged by the page sent, up to the limit asked for, or 500 without one. |
| `OffsetPagers.ListDeliveries` | internal/cli/reconcile.go:130-171 | The deliveries, in batches of 200 up to ten times the limit (5000 without one, or where the product wraps to nothing) and uncut: whatever the server says, what it sends is kept in order; all of it if batches are not capped. |
| `OffsetPagers.CappedAnswer` | internal/cli/deutero_shared.go:286-303 | The arithmetic of that equivalence. |
| `OffsetPagers.Step` | internal/cli/deutero_shared.go:269-292 | One batch either leaves the run going with the offset moved by the page, or ends it with everything accounted for. |
| `Export.ExportAll` | internal/cli/export.go:105-172 | Against any server: at most 100001 requests, each the one the answers before it call for, and made exactly while the run is neither complete nor broken off; what is exported is everything received, cut to the limit; the run succeeds exactly when its last answer completes it (nothing pages, an empty page, the limit, or nothing more offered and, by offset or number, a short page), and otherwise fails on a failed request, a cursor that is missing or does not move, or too many pages; a cursor is never sent twice running. Against a truthful server: the list, up to the limit. |
| `Export.ExportPage` | internal/cli/export.go:109-171 | What one page leads to, for any server and for a truthful one. |
| `Export.RequestCarries` | internal/cli/resource_paths.go:234-260 | Each request carries the page size (100 where none is configured), trimmed to what the limit leaves unless pages are numbered, and the offset in whole pages, the page number from one, or from the second request on the cursor last named; nothing else, and nothing at all where nothing pages. |
| `Export.AnswerLeadsTo` | internal/cli/export.go:109-171 | Each answer but the last is no failure, does not end the run and over cursors names another cursor than the one before; the run succeeds if and only if its last answer brings nothing, reaches the limit, or claims no more and, where the client counts the pages, is shorter than was asked. |
| `Export.SignalsAre` | internal/cli/resource_paths.go:156-211 | The cursor is the one at the declared path, else the first that a known key holds; a declared end silences both; without a cursor the declared claim counts before the first that a known key makes. |
| `Export.LeavesMoreIff` | internal/cli/export.go:151-162 | A run whose last answer offers more succeeds if and only if nothing pages, that answer is empty or the limit is reached. |
| `Export.NoCursorIsDropped` | internal/cli/resource_paths.go:156-211 | In cursor mode a run that succeeds on a page that names a cursor has reached the limit or ends with an empty page, because a page that names a cursor claims more. |
| `Export.EmptyPageHidesTheRest` | internal/cli/export.go:151-153 | A server whose second page is empty but names a third: the export succeeds with the first page alone. |
| `Export.ChainIsExported` | internal/cli/export.go:109-172 | Down a chain of pages in which no two cursors in a row are the same, the export is all of it, up to the limit, and it succeeds if and only if there are at most 100001 pages or the limit is reached within them. |
| `Export.PageTiles` | internal/cli/resource_paths.go:234-260 | Although the last page is trimmed to what remains and the stride is not, the pages tile the list. |
| `Export.AskedFor` | internal/cli/resource_paths.go:234-260 | The parameters sent, read back by a server, ask for the elements from page times stride on. |
| `Export.SendsCursor` | internal/cli/resource_paths.go:234-275 | In cursor mode the cursor sent is the one the answer before named. |
| `FanOut.StepInv` | internal/cli/deutero_shared.go:326-374 | Every step of every goroutine and of the launcher keeps the invariant: the counters are those of the goroutines, only the mutex's holder is inside the critical section, and slot i holds what goroutine i read. |
| `FanOut.ReachableInv` | internal/cli/deutero_shared.go:308-388 | The invariant holds in every reachable state of every interleaving. |
| `FanOut.Safety` | internal/cli/deutero_shared.go:317-374 | In every reachable state at most six requests are in flight, at most one goroutine is in the critical section, and outside it done is failed plus the slots filled. |
| `FanOut.InFlight` | internal/cli/deutero_shared.go:317-345 | In every reachable state at most six goroutines are between acquiring the semaphore and the answer to their request. |
| `FanOut.FirstToRecord` | internal/cli/deutero_shared.go:352-360 | In every run the error kept is that of the first goroutine to record one. |
| `FanOut.SlotOwnership` | internal/cli/deutero_shared.go:349-373 | A slot is written once, by its own goroutine, with what that goroutine read. |
| `FanOut.NeverStuck` | internal/cli/deutero_shared.go:326-375 | In every reachable state that has not returned, some step can be taken. |
| `FanOut.RunsAreBounded` | internal/cli/deutero_shared.go:326-387 | No run is longer than 9n + 2 steps. |
| `FanOut.Deterministic` | internal/cli/deutero_shared.go:375-387 | Whatever the interleaving, what is returned is the successes of the launched prefix in input order and the number of its failures; every launched request is counted; it is an error exactly when nothing was read and some request itself failed, and then with the error of such a request. |
| `FanOut.SuccessesAre` | internal/cli/deutero_shared.go:375-387 | Those successes are the values read, by increasing index, and the failures the outcomes that are none. |
| `FanOut.SameReport` | internal/cli/deutero_shared.go:392-466 | Two complete runs over the same outcomes, cancelled at the same point, return the same list, count and verdict. |
| `FanOut.NothingAfterReturn` | internal/cli/deutero_shared.go:334-375 | After the wait nothing can move: no goroutine is left writing. |
| `EditDistance.LevenshteinDistance` | internal/cli/helpers.go:3177-3214 | The result is the cost of the cheapest script of insertions, deletions and substitutions from one byte string to the other, although the strings may change places and two rows are reused. |
| `EditDistance.FillTable` | internal/cli/helpers.go:3187-3213 | Two rows filled in place and swapped compute the last cell of the full table. |
| `EditDistance.DistanceIsEditDistance` | internal/cli/helpers.go:3195-3209 | For the recurrence there is a script of that cost and none cheaper. |
| `EditDistance.EditDistanceUnique` | internal/cli/helpers.go:3177-3214 | There is only one such number. |
| `EditDistance.DistanceSymmetric` | internal/cli/helpers.go:3184-3186 | Swapping the strings does not change the distance. |
| `EditDistance.DistanceZeroIffEqual` | internal/cli/helpers.go:3177-3214 | The distance is zero if and only if the strings are equal. |
| `EditDistance.DistanceTriangle` | internal/cli/helpers.go:3177-3214 | The triangle inequality. |
| `EditDistance.SuggestFlag` | internal/cli/helpers.go:3217-3235 | The first name visited of least distance of all, if that is at most 3 and at most two fifths of the length typed, or nothing. |
| `EditDistance.TrimDashesIs` | internal/cli/helpers.go:3217-3218 | All the leading dashes are removed, and nothing else. |
| `SelectProofs.FilterIdempotent` | internal/cli/helpers.go:2358-2431 | Selecting from the output of a selection gives the same tree and the same match state, for every tree, path set, anchoring and depth. |
| `SelectProofs.EnvelopeIdempotent` | internal/cli/helpers.go:2433-2485 | The same for the list-envelope fallback. |
| `SelectProofs.FilterProjects` | internal/cli/helpers.go:2358-2431 | The output is a projection of the input: arrays keep length and order, keys are a subset, other leaves are unchanged, and only a null the recursion enters becomes an empty array. |
| `SelectProofs.EnvelopeProjects` | internal/cli/helpers.go:2433-2485 | The fallback is a projection that drops no key. |
| `SelectProofs.SelectedIsKept` | internal/cli/helpers.go:2358-2413 | A value addressed by a complete selector is kept verbatim and reported as matched. |
| `SelectProofs.OnlyRequestedSurvives` | internal/cli/helpers.go:2358-2431 | Nothing else survives, except inside list envelopes. |
| `SelectProofs.EnvelopeKeepsEveryKey` | internal/cli/helpers.go:2410-2425 | An object no selector names is emptied, or kept key for key with the selectors applied inside its arrays. |
| `SelectProofs.EnvelopeDepthCap` | internal/cli/helpers.go:2433-2485 | The fallback finds an array through up to 32 nested objects and through no more. |
| `SelectProofs.JointMatchIsSingle` | internal/cli/helpers.go:2260-2304 | If the selectors together match something, one of them does so alone. |
| `SelectProofs.FilterFieldsChecked` | internal/cli/helpers.go:2260-2304 | The call is refused if and only if there are selectors, none of them finds anything alone, and together they find not even an empty array; the output is the input when they find nothing together, and their joint selection otherwise; warned about are exactly those that find nothing alone, in the order given. |
| `SelectProofs.AnswersTo` | internal/cli/helpers.go:2487-2501 | A field answers to a selector by its name in lower case, or failing that in kebab case. |
| `SelectProofs.KebabSplits` | internal/cli/helpers.go:2503-2513 | A name in kebab case has a hyphen between two characters exactly where the first is a lower-case letter and the second an upper-case one. |
| `SelectProofs.FoundIsNotRefused` | internal/cli/helpers.go:2260-2304 | A call whose selection found something, or an empty array, is never refused. |
| `SelectProofs.RefusedReturnsInput` | internal/cli/helpers.go:2260-2304 | A refused call hands back its input unchanged. |
| `SelectProofs.CheckIdempotent` | internal/cli/helpers.go:2260-2304 | The same `--select` over its own output changes neither output nor verdict. |
| `SelectWarnings.FindsIff` | internal/cli/helpers.go:2280-2295 | A selector alone finds something in a document, or in what a selection leaves of it, exactly when a search of the original document by its own recursion does. |
| `SelectWarnings.FindsSomewhere` | internal/cli/helpers.go:2358-2485 | What a selector finds, before or after the selection, it finds apart from the other selectors or in a place contested by one of them. |
| `SelectWarnings.WarnedIff` | internal/cli/helpers.go:2280-2295 | A selector is warned about on the first run if and only if it finds nothing apart from the others and nothing in contested places, and on the second if and only if it finds nothing apart and nothing in what is left of those places. |
| `SelectWarnings.SameWarningsIff` | internal/cli/helpers.go:2260-2304 | The two runs warn about the same selectors if and only if nothing was found at all, or each selector finds something apart from the others, or in contested places both before and after or neither. |
| `SelectWarnings.UncontestedIsSteady` | internal/cli/helpers.go:2260-2304 | If no selector, on its way through the document, passes an object where it has no key but another has one, or a key that answers to another spelling, the two runs warn about the same. |
| `SelectWarnings.SingleSelectorIsSteady` | internal/cli/helpers.go:2260-2304 | The warnings of a single selector never change. |
| `SelectWarnings.WarningsMayAppearLater` | internal/cli/helpers.go:2260-2304 | A family of documents and selectors whose second run warns about a selector that the first one found. |
| `SelectWarnings.WarningsMayDisappear` | internal/cli/helpers.go:2260-2304 | A family whose first run warns about a selector and whose second does not. |
| `Compact.CompactListFields` | internal/cli/helpers.go:2697-2775 | The loops compute the compacted rows, one for each row. |
| `Compact.CountKeys` | internal/cli/helpers.go:2735-2743 | Each non-verbose key is counted once for each row that has it. |
| `Compact.KeepFields` | internal/cli/helpers.go:2698-2758 | A key is kept if it is listed, or documented and identifying, or frequent where no schema is known. |
| `Compact.KeptIff` | internal/cli/helpers.go:2698-2757 | A key is kept if and only if it is a listed one, or documented and identifying, or no schema is known, it is not verbose, some row has it and at least four in five rows do (of up to four rows, all but one). |
| `Compact.Threshold` | internal/cli/helpers.go:2744-2752 | Four fifths of the rows rounded up, but never all of two or more. |
| `Compact.CompactOnlyCuts` | internal/cli/helpers.go:2760-2772 | Rows are not added, emptied or altered; a row with a kept key is cut down to its kept keys, and any other stays whole. |
| `Compact.OneMissingRowCannotVeto` | internal/cli/helpers.go:2744-2757 | Without a schema a non-verbose key missing from one row only is kept in all the others. |
| `Compact.CompactIdempotent` | internal/cli/helpers.go:2697-2775 | Compacting twice is compacting once. |
| `LocalListQuery.ParseLocalListQuery` | internal/cli/data_source.go:983-1033 | The loop reads the parameters as the specification does, page arithmetic and its wrap-around included. |
| `LocalListQuery.NoParamDropped` | internal/cli/data_source.go:989-1024 | Each non-blank parameter is reported as unsupported, or filters by its trimmed value, or pages, and only one of these. |
| `LocalListQuery.ParamFates` | internal/cli/data_source.go:936-1024 | By name: cursors and controls are reported whatever they say, a limit or offset that is no number from zero and a page that is none from one too, and what has no name of its own filters by its trimmed value. |
| `LocalListQuery.BlankIsDropped` | internal/cli/data_source.go:989-996 | A parameter whose trimmed value is blank neither filters nor is reported. |
| `ParamOrder.PagingParamTakesEffectIff` | internal/cli/data_source.go:1000-1020 | An accepted paging parameter takes effect if and only if no accepted one of its kind comes after it, or the last of those has the same value. |
| `ParamOrder.LaterLimitWins` | internal/cli/data_source.go:938-1006 | Of any two limits the later one is used and the other is neither used nor reported. |
| `ParamOrder.OrderIsIrrelevantIff` | internal/cli/data_source.go:983-1033 | The parsed query, with its reports in any order, is the same for every order of the parameters if and only if no two accepted ones ask for different limits, for different offsets, or for pages that come to different things under the limit. |
| `ParamOrder.OneValueOfAKindIsSettled` | internal/cli/data_source.go:983-1033 | In particular if no kind has two accepted parameters with different values. |
| `LocalList.LocalScan.Visit` | internal/cli/data_source.go:1083-1136 | One row's effect on the fields of the scan, and when it asks to stop. |
| `LocalList.VisitTallies` | internal/cli/data_source.go:1083-1136 | A visit keeps the tally that of the rows seen so far, and stops exactly when the window is full, every key being known by then. |
| `LocalList.Scan` | internal/cli/data_source.go:1073-1149 | Stopping early loses nothing: the items are the requested window of all accepted rows, the keys reported are exactly those no parsed record has, at most `limit` items are collected, and the scan stops at the first row that fills the window. |
| `LocalList.UnmatchedEqualityKeys` | internal/cli/data_source.go:1151-1160 | The keys not seen, sorted, each once. |
| `LocalList.SecondScanMatchesAll` | internal/cli/data_source.go:1059-1068 | After the unmatched keys are dropped, the second scan has none. |
| `LocalList.LoadLocalList` | internal/cli/data_source.go:1040-1071 | The window of the rows that meet the remaining filters, and the unsupported parameters with the dropped keys, sorted (`LocalList.LoadedExactly` spells it out); and whether any record was seen. |
| `LocalList.LoadedExactly` | internal/cli/data_source.go:1040-1149 | A load returns, from the offset on and up to the limit, the records in order of exactly the rows that are not empty, belong to the parent, and decode to a record that meets each condition on a key some record has; it reports exactly the unsupported parameters and the conditions on other keys. |
| `LocalList.StoredUnder` | internal/cli/data_source.go:900-906 | A row whose id is a non-empty text without a zero byte, a zero byte and a non-empty owner is in scope of a parent if and only if the owner is its id. |
| `LocalList.JudgedByRecord` | internal/cli/data_source.go:1096-1104 | Any other row is in scope if and only if its record decodes and its stored parent field matches. |
| `LocalList.LoadsChildren` | internal/cli/data_source.go:1073-1149 | Under a parent, without conditions or paging, a load of rows with composite ids returns in order exactly the records owned by that parent. |
| `LocalList.IndexOfNul` | internal/cli/data_source.go:900-906 | The first zero byte of a composite id. |
| `LocalListBatch.ApplyLocalListFilters` | internal/cli/data_source.go:1162-1270 | The batch form against the same parameters: filter, then window, with presence counted over the rows given. |
| `LocalListBatch.LoadAgreesWithBatchIff` | internal/cli/data_source.go:1040-1270 | The streaming form and the batch form give the same items and reports if and only if scoping to the parent hides no filter key. |
| `LocalListBatch.LoadRefinesBatch` | internal/cli/data_source.go:1040-1270 | With no parent and no empty records they always agree. |
| `LocalListBatch.PagesTile` | internal/cli/data_source.go:1029-1031 | Pages 1 to k at limit n of any list, end to end, are its first k * n elements. |
| `LocalListBatch.LoadedPagesTile` | internal/cli/data_source.go:983-1071 | Loading with page = 1 to k and limit = n among the parameters, in whatever order, gives pages that laid end to end are the first k * n matches of the other parameters. |
| `Csv.WriteCSVRow` | internal/cli/helpers.go:2928-2938 | One line of escaped cells. |
| `Csv.WriteCSVRows` | internal/cli/helpers.go:2895-2926 | The text is that of a table whose header is the sorted set of all keys and whose rows all have its width. |
| `Csv.HeaderKeys` | internal/cli/helpers.go:2899-2909 | The header: every key of every row, once, in order. |
| `Csv.ReadTableBack` | internal/cli/helpers.go:2895-2938 | Any table without an empty row reads back as itself, whatever commas, quotes, carriage returns and line feeds its cells hold. |
| `Csv.EmptyRowReadsAsOneCell` | internal/cli/helpers.go:2928-2938 | A row of no cells reads back as one empty cell, and only such a row is changed. |
| `Csv.RoundTrip` | internal/cli/helpers.go:2895-2926 | The printed items read back as header and rows if and only if some item has a key. |
| `Csv.CellsReadBack` | internal/cli/helpers.go:2912-2924 | Under each column a row reads back as the value it holds there, and as the empty cell where it holds none or null. |
| `Csv.PlainIsPrintedAsIs` | internal/cli/helpers.go:2928-2937 | A cell is quoted if and only if it holds a comma, a quote, a carriage return or a line feed. |
| `FlowCoverage.BuildFlowCoverage` | internal/cli/flow_coverage.go:141-287 | Each branch, step and variable observed is reported exactly once, with the counts of the decisions, interviews and transcripts concerned, branches and variables by key and steps by reach and then by key (the lemmas below spell the parts out). |
| `FlowCoverage.ArmsAreReported` | internal/cli/flow_coverage.go:180-239 | An arm labelled l counts the decisions of its branch that matched l, if l is not empty, or that matched nothing, if l is "(otherwise)" and they used the default or l is "(unmatched)" and they did not; each arm taken is listed, the most taken first, then by label. |
| `FlowCoverage.BranchIsCounted` | internal/cli/flow_coverage.go:161-176 | A branch's traversals, defaults and errors are the numbers of its decisions, of those that used the default and of those with a non-empty error. |
| `FlowCoverage.RateIsReported` | internal/cli/flow_coverage.go:247-250 | The default rate times the traversals is the number of defaults. |
| `FlowCoverage.NotTakenIff` | internal/cli/flow_coverage.go:241-246 | A class is listed as not taken if and only if some decision of the branch offered it and none took it. |
| `FlowCoverage.StepsAreReported` | internal/cli/flow_coverage.go:263-269 | Every step is listed with the number of interviews that reached it, the most reached first, then by key. |
| `FlowCoverage.InterviewsAreReported` | internal/cli/flow_coverage.go:189-206 | An interview is counted for a step if and only if one of its transcripts has a message at that node, and for a variable if and only if one has it. |
| `FlowCoverage.VariablesAreReported` | internal/cli/flow_coverage.go:271-285 | Every variable is listed with its interviews, and its capture rate times the transcripts is their number. |
| `FlowCoverage.ArmsAddUp` | internal/cli/flow_coverage.go:180-187 | Every traversal is counted in exactly one arm. |
| `FlowCoverage.BranchAddsUp` | internal/cli/flow_coverage.go:231-261 | In the report the arms of a branch add up to its traversals, and an offered class is listed as not taken exactly when it is not one of them. |
| `FlowCoverage.ReportArms` | internal/cli/flow_coverage.go:233-239 | One arm for each class taken, most taken first and by label among equals. |
| `FlowRecords.HoldersCount` | internal/cli/flow_coverage.go:189-206 | With distinct ids, counting interviews in a set and counting transcripts agree. |
| `FlowRecords.StepIsShown` | internal/cli/deutero_shared.go:544-567 | A step is shown by its id; a missing id, and one made of an n and digits, are said to be so. |
| `CohortMeasures.MeasureCohort` | internal/cli/rehearse_diff.go:156-217 | Step reach, arm shares and variable capture as rates of the counts over the transcripts (the next three spell them out). |
| `CohortMeasures.SharesAreCounted` | internal/cli/rehearse_diff.go:179-212 | A share times the decisions whose step's label is the key up to its first arrow is the number of decisions whose label, an arrow and the arm taken (the class matched, "(otherwise)" or "(unmatched)") make up the key. |
| `CohortMeasures.RatesAreCounted` | internal/cli/rehearse_diff.go:191-215 | A variable's capture rate times the transcripts is the number of those that have it, and every variable seen is reported. |
| `CohortMeasures.ReachIsCounted` | internal/cli/rehearse_diff.go:170-203 | A reach times the transcripts is the number of those with a message at some node of that label. |
| `CohortMeasures.IndexOf` | internal/cli/rehearse_diff.go:205-208 | The first place a text occurs, or none. |
| `Agreement.SharesAgree` | internal/cli/rehearse_diff.go:204-212 | On the same transcripts an arm's share in the cohort measures is its count over its branch's traversals in the coverage report. |
| `Agreement.SharesAddUpToOne` | internal/cli/rehearse_diff.go:161-189 | The shares of one branch add up to one. |
| `Agreement.ReachAgrees` | internal/cli/rehearse_diff.go:170-203 | With distinct interview ids and labels, the reach of each step of a coverage report is its interviews over the transcripts. |
| `Agreement.CaptureAgrees` | internal/cli/rehearse_diff.go:191-215 | With distinct interview ids, each variable of a coverage report has the same capture rate in the cohort measures. |
| `Agreement.ArmReportedIff` | internal/cli/rehearse_diff.go:204-212 | An arm is reported if and only if its step's label, cut at the first arrow, is the label of an observed step. |
| `Agreement.ArmMayGoMissing` | internal/cli/rehearse_diff.go:204-212 | A study whose only arm is not reported. |
| `Agreement.SharesRightIff` | internal/cli/rehearse_diff.go:187-212 | For any set of branches: every arm taken is reported with its share of its own branch, whatever the transcripts, if and only if the labels of the branches hold no arrow that could be taken for the separator and no two are the same. |
| `Agreement.UncleanGoesMissing` | internal/cli/rehearse_diff.go:204-212 | Any label that does: one decision there is not reported. |
| `Agreement.TwinsShare` | internal/cli/rehearse_diff.go:187-189 | Any two branches with the same label: one decision at each, with different arms, and both shares are halved. |
| `Agreement.ShareMayExceedOne` | internal/cli/rehearse_diff.go:204-212 | Two decisions at a step and one at the step its label is cut to: the arm is given a share of two. |
| `Agreement.KeyIsInjective` | internal/cli/rehearse_diff.go:187-189 | For labels without an arrow the key determines step and arm. |
| `Saturation.Tokenize` | internal/cli/saturation.go:183-206 | The words are the maximal runs of word characters, in order, but for short words and stop words. |
| `Saturation.WordsEnd` | internal/cli/saturation.go:183-206 | A word is among them exactly when it is such a run. |
| `Saturation.EarlierStrictWeak` | internal/cli/saturation.go:109-119 | The chronological comparator is a strict weak order, unparsed starts included. |
| `Saturation.BuildSaturation` | internal/cli/saturation.go:107-166 | The curve follows a permutation of the transcripts in which parsed starts come first and do not decrease and those without one are in order of id; each point counts the terms its transcript adds to all earlier ones; from the plateau on every share is below the threshold, and the share before it is not. |
| `Saturation.TiesKeepArrival` | internal/cli/saturation.go:107-117 | Transcripts with the same start, or with the same id and no start, keep their order of arrival. |
| `Saturation.PointsCount` | internal/cli/saturation.go:127-154 | A point's new terms are those of its transcript that no earlier one has, and its share is their part of all its terms, or zero. |
| `Saturation.TermsIff` | internal/cli/saturation.go:128-136 | The terms of a transcript are the words of its participants' turns. |
| `Saturation.CorpusHolds` | internal/cli/saturation.go:119-142 | A term has been seen if and only if it is a word of a participant's turn in one of the transcripts so far. |
| `Saturation.NewTermsAreTheCorpus` | internal/cli/saturation.go:121-149 | In whatever order the transcripts arrive, the new terms add up to the number of distinct terms of the corpus. |
| `Saturation.CurveIgnoresArrivalOrder` | internal/cli/saturation.go:107-149 | If no two transcripts tie, the curve does not depend on the order they arrive in. |
| `Saturation.FindPlateau` | internal/cli/saturation.go:154-161 | Scanning backwards finds the least such index. |
| `Reconcile.IndexDeliveries` | internal/cli/reconcile.go:203-226 | The aggregate of each participant is what that participant's deliveries come to, and the rest are counted as unattributed. |
| `Reconcile.BuildReconcile` | internal/cli/reconcile.go:192-268 | The hash join computes the nested-loop anti-join, sorted stably by participant, and its counts (`Reconcile.ReportIs` spells them out). |
| `Reconcile.ReportIs` | internal/cli/reconcile.go:192-268 | For each participant the report lists exactly the completed interviews of which no delivery succeeded, in order of arrival, with what was heard of the participant; participants follow each other by id; completed, without an id and unattributed are the numbers of interviews and deliveries they describe, never delivered is the number of rows, and delivered is the rest. |
| `Reconcile.LastHeard` | internal/cli/reconcile.go:220-225 | The status and the error shown are those of the last delivery for the participant that has one. |
| `Reconcile.AttemptsAre` | internal/cli/reconcile.go:205-216 | The attempts are the number of deliveries for the participant. |
| `Reconcile.MissingExactly` | internal/cli/reconcile.go:235-267 | The rows are exactly those of completed interviews with an id and no successful delivery for it, in order. |
| `Reconcile.DeliveryOrderIsIrrelevant` | internal/cli/reconcile.go:205-226 | Reordering the deliveries changes neither which interviews are missing, nor their attempts, nor the count of unattributed deliveries. |

## Left out

- `paginatedGet` without `--all`, its dry run, the text of its warnings and the reassembly of the response's envelope; a warning is modelled as its reason.
- What a response says (its items, cursor, total and has-more field) is given, not decoded; the field a collection is kept in is compared after case folding.
- Pagination.DigestTiles: assumes positions well below Go's largest int; the wrap-around itself is modelled in the cursors.
- Pagination.PaginatedGet: with no page size the number of pages a truthful server may cut is not fixed, so at the cap the stretch returned is only known to start at the first position.
- Pagination.ChainIsFollowed: assumes that the last page is not the page before it over again, which the loop takes for a repetition.
- The splitting and lower-casing of the `--select` argument and the text of its messages; selectors are given as lists of lower-case segments.
- JSON decoding, case folding, trimming, time parsing and the formatting of values are parameters, as are the lookup and comparison of a record's field and the test for identifying field names in `--compact`.
- Go's map iteration order is the order of a sequence where it can matter (query parameters); elsewhere it is shown not to matter.
- Pagination.PaginatedGet: "truthful" asks for distinct items, for totals and has-more fields that are right, and, from an answer that names no next position while more remains, for one of the signs the loop looks at (a has-more field, the total, or a configuration that declares neither field and so goes by full pages).
- The typed table and the untyped table of the mirror are one sequence of rows; the hint about incomplete tables is left out, and so is `localReadPathParents`, which only finds the parent.
- The fan-out's progress output; the outcome of each request is fixed before the run and quantified over.
- FanOut.SameReport: which of several errors is returned depends on the schedule; it is that of the first to be recorded.
- The request parameters of the pagers that select a cohort, and the fan-out over simulated sections, which repeat the modelled loops.
- `export` of single items, its output formats and its file.
- Where `extractResourcePage` and `resourcePagination` look: which keys may hold the array, the cursors and the has-more flags, and the worklist of nested envelopes; what they make of the values found there is modelled.
- The aggregates of branches and participants are values replaced in a map rather than structures shared by pointer.
- Branch modes, the types, sources and loop counts of variables, durations, completion rates and average messages: sums and sets of the same kind as those modelled.
- Rates and shares are exact rationals, not floating-point numbers.
- Camel-case field names are matched as `camelToKebab` does, for any choice of which characters have case.
