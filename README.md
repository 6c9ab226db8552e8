# yesil — a verified model of the live topic-page updater

yesil is a browser extension for the ekşi sözlük forum. On a topic page
(`/pena--31782`) or an entry page (`/entry/105`) it polls the page it is
showing. It parses the fetched HTML into a `Topic`: entries, current page
and page count. It then merges the result into the page the user is reading:

- it patches the content and favourite counter of entries already shown;
- it appends entries it has not seen, under a "N. SAYFA" separator when a
  new page has opened;
- it follows the page cursor to a newly opened last page and rewrites
  every pager (`div.pager`) to match;
- it highlights each changed element once the user has scrolled it into
  view.

This project models that core in Dafny. It models the `Yesil` class of
`src/index.ts` and the helpers of `src/utils.ts` it relies on.

- `Wrappers` holds `Option` and `Result`.
- `Text` holds the JavaScript string and number built-ins the code leans on:
  - `parseInt` and `Number.prototype.toString`;
  - `String.prototype.trim` and its whitespace set;
  - `split("~")[0]`, `split("/").at(-1)`, and `replace("/", "")`, which
    replaces only the first occurrence.
- `Dates` holds the strict dayjs parse with the formats `DD.MM.YYYY HH:mm` and
  `DD.MM.YYYY`, and the `DD.MM.YYYY HH:mm` formatting.
- `Types` holds `Entry`, `Topic` and `YesilOptions`.
- `Dom` is the part of the document the code reads and writes:
  - the entry list items, with their dataset, content, favourite counter,
    date text, avatar and author link;
  - the pagers, with their select, prev/next/last links and data
    attributes;
  - element rectangles and the window size.
- `Utils` models `src/utils.ts`:
  - `stringToBoolean`;
  - `getElementByXpath`, a method over the nodes the XPath query returns;
  - `isElementInViewport`;
  - the two URL tests `isEksiSlug` and `isEksiEntryPath`;
  - `createEntryElement`, as the item node it produces;
  - the error kinds.
- `Extraction` models `parseTopicPage`, as a function with a method proved
  equal to it. Its possible results are:
  - a topic;
  - "no entries" (`undefined`);
  - an exception: a typia guard failure, a `YesilError`, or the `TypeError`
    of an entry without an author link (src/index.ts:175).
- `Sync` states one poll (`refreshPage`) as a function of the object's
  state. `Merge` is the loop over the fetched entries, `PatchEntry` is
  `updateEntryElement` and `Render` is `addEntryElement`. `TrackPages` covers
  the cursor, and `UpdatePagers` covers `updatePaginations`. `CheckHighlights`
  and `Highlight` cover the highlight queue. The lemmas beside them state
  what the code promises:
  - which entries get appended and in what order;
  - when a page separator appears;
  - where the cursor goes;
  - that every pager lists pages 1..count and selects the current one;
  - that patching converges and is idempotent;
  - that a poll with fetching off is idempotent;
  - that the highlight queue is partitioned into what is shown and what
    stays.
- `Index` holds the class `Yesil` itself. Its fields are `entries`,
  `currentPage`, `pageCount`, `newEntriesFromNewPage`, the highlight queue,
  the rendered list and the pagers. Its methods (`RefreshPage`,
  `UpdateEntryElement`, `AddEntryElement`, `UpdatePaginations`,
  `CheckHighlightElements`, …) are loops and field updates, and each is
  proved to leave the state that the matching `Sync` function computes.
  `Create` is the constructor's guard and set-up.

The fetched page, the viewport and the user's settings are parameters. The
network, the timer and the scroll listener are outside the model.

Two polls of an unchanged page leave the view unchanged when fetching is
off and the fetched entries have distinct ids (`Sync.SecondPollChangesNothing`).
With fetching on they do not: an appended entry is rendered by
`createEntryElement` with an empty, hidden favourite counter. The next poll
sees that entry as known and writes its nonzero `favoriteCount` into that
counter (`Sync.SecondPollRewritesNewCounter`).

The constructor checks the `a` query parameter with `assert<Sort>`
(src/index.ts:47). `Sort` (src/types.d.ts:9) admits `undefined` for the
default order, but `URLSearchParams.get` returns `null` for an absent
parameter, so as written a topic page opened without `?a=` fails the guard
and the constructor throws. The model follows the code (`Index.SortGuard`,
`Index.Create`). The `day` parameter is checked against `string | null`,
which every result of `get` passes.

## Model

| member | source | states |
|---|---|---|
| `Text.ParseInt` | src/index.ts:156-160 | a number is read only from a non-empty string (NaN otherwise) |
| `Text.IntToStringRoundTrip` | src/utils.ts:41-47 | parseInt of an integer's decimal text gives that integer back |
| `Text.IntToStringInjective` | src/index.ts:195 | two integers print the same text exactly when they are equal, so the counter comparison is a comparison of numbers |
| `Text.TrimStart` | src/index.ts:166 | the result is a suffix of the input that does not start with whitespace, and everything removed is whitespace |
| `Text.TrimEnd` | src/index.ts:166 | the result is a prefix of the input that does not end with whitespace, and everything removed is whitespace |
| `Text.TrimAround` | src/index.ts:166 | trimming text padded with whitespace on both sides gives the text back |
| `Text.BeforeFirst` | src/index.ts:166 | `split(sep)[0]` is the longest prefix without the separator, followed in the input by the separator unless it is the whole input |
| `Text.AfterLast` | src/index.ts:176 | `split(sep).at(-1)` is the longest suffix without the separator, preceded by the separator unless it is the whole input |
| `Text.AfterLastOfSuffix` | src/index.ts:176 | the last path segment of `prefix + "/" + x` is `x` when `x` has no slash |
| `Text.RemoveFirst` | src/index.ts:40 | `replace("/", "")` leaves a string without a slash alone; otherwise it is the text before the first slash followed by the text after it, one character shorter |
| `Text.PadValue` | src/utils.ts:107 | a zero-padded field has the width asked for, only digits, and the value padded |
| `Dates.ParseStrict` | src/index.ts:168-172 | an accepted date is a valid calendar date, and the text is its exact `DD.MM.YYYY HH:mm` form or its `DD.MM.YYYY` form at midnight |
| `Dates.FormatDateTimeRoundTrip` | src/utils.ts:106-108 | strictly parsing the `DD.MM.YYYY HH:mm` text of a valid date gives the date back |
| `Dates.FormatDateRoundTrip` | src/index.ts:165-168 | strictly parsing the `DD.MM.YYYY` text of a valid midnight date gives the date back |
| `Dates.ParseStrictExactly` | src/index.ts:168-172 | strict parsing accepts a text exactly when it is one of the two formats of a valid date |
| `Dates.ThirtyFirstOfFebruaryRejected` | src/index.ts:168-172 | "31.02.2023" is rejected rather than rolled over to March |
| `Dates.LeapDayAccepted` | src/index.ts:168-172 | "29.02.2024" is accepted as midnight of that day |
| `Utils.StringToBoolean` | src/utils.ts:4-7 | true exactly for the boolean `true` and the string "true" |
| `Utils.BoolToString` | src/utils.ts:43-45 | the text written for a boolean is read back as that boolean |
| `Utils.StringToBooleanRejects` | src/utils.ts:4-7 | "True", "1", undefined, the number 1 and `false` all read as false |
| `Utils.GetElementByXpath` | src/utils.ts:9-18 | without a parent, the first node; with one, the first node the parent contains, and null exactly when it contains none |
| `Utils.IsElementInViewport` | src/utils.ts:20-29 | true exactly when the rectangle lies inside the window, with a zero window size falling back to the document's client size |
| `Utils.SlugPatternIffAnchor` | src/utils.ts:31-33 | the regex `[\w\d-]+--\d+` matches somewhere exactly when some ASCII letter, digit, `_` or `-` is followed by `--` and a digit |
| `Utils.IsEksiSlug` | src/utils.ts:31-33 | true exactly when an ASCII letter, digit, `_` or `-`, then `--`, then a digit occur in a row |
| `Utils.EntryPathPatternIffAnchor` | src/utils.ts:35-37 | the regex `entry\/([1-9]+)` matches somewhere exactly when `entry/` is followed by a digit 1-9 |
| `Utils.IsEksiEntryPath` | src/utils.ts:35-37 | true exactly when `entry/` followed by a digit 1-9 occurs in the path |
| `Utils.UrlTestExamples` | src/utils.ts:31-37 | "pena--31782" is a slug, "--1" is not, "/entry/105" is an entry path, "/entry/0" is not |
| `Extraction.ExtractedEntry` | src/index.ts:149-177 | an extracted entry takes every field from its item: numbers parsed from the dataset, the date strictly parsed from the publish part of the date text, the content, avatar, author name, the last segment of the author link, and the three flags read by `stringToBoolean` from `ispinned`, `ispinnedonprofile` and the optional `isfavorite` |
| `Extraction.ItemOutcomeAt` | src/index.ts:149-177 | the `i`-th outcome of the walk is what the `i`-th list item yields |
| `Extraction.Collect` | src/index.ts:149-179 | the loop stops at the first item that aborts or throws, with every earlier item extracted; otherwise it yields all entries in order |
| `Extraction.ExtractItemAt` | src/index.ts:150-177 | the outcome of one pass of the item loop |
| `Extraction.ParseItems` | src/index.ts:149-178 | the item loop yields exactly what `Collect` says of the items' outcomes |
| `Extraction.ParseTopicPage` | src/index.ts:130-180 | the method yields exactly the page's extraction |
| `Extraction.CollectStopsAt` | src/index.ts:149-177 | the first failing item decides the outcome |
| `Extraction.CollectAllOk` | src/index.ts:149-179 | when every item extracts, the entries are those items' entries in order |
| `Extraction.ExtractTopicFound` | src/index.ts:130-180 | a topic is found exactly when the pager is well formed, the list is non-empty and every item extracts; its entries are the items' entries in order, and page 1 of 1 without a pager |
| `Extraction.FirstFailureDecides` | src/index.ts:149-177 | an abort at the first failing item means "no entries", a throw there is the page's exception |
| `Extraction.AllItemsExtract` | src/index.ts:133-179 | a well-formed page whose items all extract gives exactly those entries with the pager's numbers |
| `Extraction.BadDateSpoilsPage` | src/index.ts:166-172 | one item with a missing, empty or invalid date makes the whole page yield no topic |
| `Extraction.CreatedDateText` | src/utils.ts:106-108 | the date text of a created element has the entry's date in `DD.MM.YYYY HH:mm` form as its publish part |
| `Extraction.CreatedDataset` | src/utils.ts:41-47 | a created element's dataset carries every field parseTopicPage reads, as the entry's own values |
| `Extraction.CreatedFields` | src/utils.ts:39-47 | the attributes and author link of a created element read back, through parseInt, stringToBoolean and the last path segment, as the entry's own values |
| `Extraction.CreatedDate` | src/utils.ts:106-108 | the publish date of a created element is non-empty and parses strictly to the entry's date |
| `Extraction.CreateEntryElementRoundTrip` | src/utils.ts:39-132 | extracting a created element gives the entry back, with a missing avatar read as the text "undefined" |
| `Extraction.RenderedPageRoundTrip` | src/index.ts:130-180 | a page of created elements under a pager parses back to the same topic |
| `Sync.Highlight` | src/index.ts:326-330 | nothing changes when highlighting is off; only the queue and the highlighted elements change otherwise |
| `Sync.SurvivorsKeepOrder` | src/index.ts:308-324 | the queue left after a check is a subsequence of the queue before it |
| `Sync.CheckPartitionsQueue` | src/index.ts:308-324 | a check splits the queue into highlighted and remaining elements, losing and duplicating none |
| `Sync.HitsAreVisible` | src/index.ts:311-321 | only elements inside the viewport are highlighted |
| `Sync.InvisibleSurvives` | src/index.ts:308-324 | an element outside the viewport stays queued |
| `Sync.NothingVisibleKeepsQueue` | src/index.ts:308-324 | with nothing in view the queue is unchanged and nothing is highlighted |
| `Sync.VisibleShrinksQueue` | src/index.ts:308-324 | with one queued element in view, the queue shrinks |
| `Sync.CheckProgress` | src/index.ts:308-324 | the queue shrinks exactly when some queued element is in view |
| `Sync.CheckSkipsShiftedElement` | src/index.ts:309-321 | of two visible queued elements, the second slides into the spliced slot and is skipped until the next check |
| `Sync.FindEntry` | src/index.ts:65 | `entries.find` by id: none exactly when no entry has the id, otherwise an entry with that id |
| `Sync.FindItem` | src/index.ts:183 | the first list item whose dataset id is the entry's id, or -1 when there is none |
| `Sync.PatchContentStep` | src/index.ts:188-193 | the content step rewrites at most the content of the entry's item, to the entry's content, and touches no other item and nothing but the highlight queue; it changes nothing when the content is absent or already the entry's |
| `Sync.PatchFavoriteCountStep` | src/index.ts:194-200 | the counter step rewrites at most the counter of the entry's item, so that afterwards it is absent, the count is zero or it reads the count, and touches no other item and nothing but the highlight queue; it changes nothing when the counter is absent, the count is zero or the counter already reads it, and otherwise the counter reads the count and is shown |
| `Sync.PatchEntryFrame` | src/index.ts:182-201 | patching rewrites at most the content and counter of the entry's own item, and the queue; it never changes the list's shape, the entries or the cursor |
| `Sync.MergeStepEntries` | src/index.ts:64-87 | one fetched entry is appended to the known entries exactly when fetching is on and its id is new |
| `Sync.MergeEntries` | src/index.ts:64-88 | the known entries grow by the fetched entries with unknown ids, in fetched order, duplicates in one fetch counted once |
| `Sync.MergeStepView` | src/index.ts:64-87 | a new entry is appended to the list under a separator when the new-page flag is set, clearing the flag; a known entry is patched in place |
| `Sync.MergeView` | src/index.ts:64-88 | the list after the merge has the old list's shape followed by the new entries' items, with one separator labelled by the fetched page count before them when the flag was set |
| `Sync.PatchSettles` | src/index.ts:182-201 | after a patch the entry's item shows its content and, unless zero, its favourite count |
| `Sync.SettledPatchIsNoOp` | src/index.ts:189-195 | patching an item that already shows the entry changes nothing and highlights nothing |
| `Sync.PatchIdempotent` | src/index.ts:182-201 | patching twice with the same entry is the same as patching once |
| `Sync.PatchKeepsOtherSettled` | src/index.ts:182-201 | patching one entry never unsettles another entry's item |
| `Sync.PatchKeepsOtherItem` | src/index.ts:182-201 | patching one entry leaves every other list element as it was |
| `Sync.MergeKeepsSettled` | src/index.ts:64-70 | with fetching off, a merge that does not mention an entry keeps its item settled |
| `Sync.MergeSettles` | src/index.ts:64-70 | with updating on and fetching off, every known entry of the fetch is shown as fetched afterwards |
| `Sync.MergeSettledIsNoOp` | src/index.ts:64-70 | with fetching off, merging a fetch whose known entries are already shown changes nothing |
| `Sync.IndexOf` | src/index.ts:278 | the first option with the label, or -1 exactly when no option has it |
| `Sync.SelectPagesLabels` | src/index.ts:277-283 | the options after the loop are the old ones followed by the missing page numbers 1..count in ascending order |
| `Sync.SelectPagesCovers` | src/index.ts:277-283 | every page 1..count has an option afterwards |
| `Sync.SelectPagesSelected` | src/index.ts:284-286 | when the current page is in 1..count, the selected option is labelled with it; otherwise the selection is unchanged |
| `Sync.UpdatePagerOutcome` | src/index.ts:271-304 | one pager gets the cursor in its data attributes, the full page list, the current page selected, prev/next links to the neighbouring pages (a next link created when not on the last page) and its last link set to the page count |
| `Sync.FirstWithoutSelect` | src/index.ts:275-276 | the first pager without a select, or the number of pagers |
| `Sync.UpdatePagersOutcome` | src/index.ts:269-306 | pagers before the first one without a select are fully updated; that one gets only its data attributes and ELEMENT_NOT_FOUND is raised; the rest are untouched |
| `Sync.PollEntriesAndView` | src/index.ts:60-88 | a successful poll appends the new entries and their items, as `Merge` describes |
| `Sync.PollCursor` | src/index.ts:89-106 | with fetching off the cursor and pagers are untouched; with it on, the cursor is the fetched one, advanced by one onto a newly opened page that also sets the flag and the address, and pagers are rewritten exactly when the page count changed |
| `Sync.PollKeepsCursorInRange` | src/index.ts:89-106 | a cursor within the fetched page count stays within it after the poll |
| `Sync.NewPageAppears` | src/index.ts:95-103 | at page 5 of 5, a fetch reporting 6 pages moves to page 6, sets the flag and writes p=6 into the address |
| `Sync.EmptyPollChangesNothing` | src/index.ts:60-62 | a fetch without entries changes nothing; an exception is reported exactly when the parse threw |
| `Sync.SecondPollChangesNothing` | src/index.ts:60-108 | with fetching off, polling the same page a second time changes nothing |
| `Sync.CreateEntryElementRendersEmptyCounter` | src/utils.ts:93 | a created element's favourite counter is empty and hidden |
| `Sync.FirstPollRendersEmptyCounter` | src/index.ts:85 | a new entry is appended with an empty favourite counter |
| `Sync.SecondPollShowsCounter` | src/index.ts:194-199 | the next poll writes a nonzero favourite count into that counter |
| `Sync.SecondPollRewritesNewCounter` | src/index.ts:60-108 | with fetching and updating on, a second poll of an unchanged page changes the list when a new entry has a nonzero favourite count |
| `Index.IntervalPeriod` | src/index.ts:38 | the polling period is never zero |
| `Index.IntervalPeriodRoundTrip` | src/index.ts:38 | a stored nonzero integer is used as the period |
| `Index.IntervalPeriodFallback` | src/index.ts:38 | a missing, zero, empty or non-numeric setting falls back to 5000 |
| `Index.ListView` | src/index.ts:146-147 | the list as found at start-up, one element per entry item |
| `Index.SortGuard` | src/index.ts:47 | `assert<Sort>` on the `a` parameter passes exactly `popular`, `nice` and `dailynice`, and an absent parameter (`null`) throws a guard failure |
| `Index.SortGuardRoundTrip` | src/index.ts:47 | each named order's parameter passes the guard as that order |
| `Index.Create` | src/index.ts:35-58 | a non-topic, non-entry path or a page without entries is NOT_APPLICABLE; a parse exception propagates; a rejected `a` parameter throws a guard failure; otherwise the object holds the slug, sort and day, the parsed entries and cursor, the live list and pagers, an empty queue and the period read from the setting |
| `Index.Yesil.constructor` | src/index.ts:44-58 | the fields start from the parsed page, and polling is on when fetching or updating is |
| `Index.Yesil.CheckHighlightElements` | src/index.ts:308-324 | the in-place splice loop leaves the state `CheckHighlights` describes |
| `Index.Yesil.HighlightElement` | src/index.ts:326-330 | queue the element and check the queue, as `Highlight` describes |
| `Index.Yesil.UpdateEntryElement` | src/index.ts:182-201 | the fields change as `PatchEntry` describes |
| `Index.Yesil.AddEntryElement` | src/index.ts:203-232 | the created element is appended and highlighted, as `Render` describes |
| `Index.Yesil.MergeEntry` | src/index.ts:65-87 | one pass of the merge loop, as `MergeStep` describes |
| `Index.Yesil.RefreshPage` | src/index.ts:60-108 | the new state and the reported exception are those of `Poll` on the fetched page's extraction |
| `Index.Yesil.MergeFetchedEntries` | src/index.ts:64-88 | the merge loop leaves the state `Merge` describes |
| `Index.Yesil.FollowPages` | src/index.ts:89-106 | the cursor update leaves the state and error `TrackPages` describes |
| `Index.Yesil.UpdatePaginations` | src/index.ts:269-306 | the pager loop leaves the pagers and error `UpdatePagers` describes and changes nothing else |
| `Index.Yesil.UpdatePagination` | src/index.ts:271-305 | one pager is updated, or gets only its data attributes and ELEMENT_NOT_FOUND when it has no select |
| `Index.Yesil.FillPageSelect` | src/index.ts:277-287 | the page loop leaves the select `SelectPages` describes |
| `Index.Yesil.NextPageOption` | src/index.ts:277-287 | one pass of the page loop extends the select by one page |
| `Index.Yesil.SelectPageOption` | src/index.ts:278-286 | the XPath lookup of the page's option, adding it when missing and selecting it when it is the current page |
| `Index.FirstOf` | src/utils.ts:12-16 | the first node inside the given pager, or -1 exactly when there is none |
| `Index.LabelledFirst` | src/index.ts:278 | the first node of the document-wide XPath result inside a pager is that pager's first option with the label |
| `Index.XpathFindsOption` | src/index.ts:278 | what `getElementByXpath` returns for a pager is its first option with the label, or null exactly when it has none |

## Left out

- Fetching: `fetchTopicPage` (src/index.ts:113-124) builds the URL from the slug, sort and day and downloads the page. The model takes the fetched document as a parameter of `RefreshPage`. The slug, sort and day are kept on the object but nothing in the model reads them.
- `voteEntry`, `favoriteEntry` and the click listeners bound in `addEntryElement` (src/index.ts:218-230, 237-267) are left out: they are network calls the poll never reads back.
- `setInterval`, the scroll listener and the 3-second `setTimeout` that fades a highlight are left out. Polls that overlap because `fetch` is slow are not modelled either: each poll is one atomic step.
- Styles written by `checkHighlightElements` and `updateEntryElement` (borders, backgrounds, `display: inline`) are reduced to "highlighted" and "shown" flags.
- HTML: templating, escaping, `innerHTML` normalisation and URL resolution of `href`/`src` are not modelled. Content is compared as the text stored, and the author link is taken as an already-resolved string. `createEntryElement` is modelled as the item it yields.
- The `ELEMENT_NOT_FOUND` thrown when `ul#entry-item-list` is missing during a poll (src/index.ts:81, 206) is not modelled. The list is taken as present, since start-up found it.
- The `ELEMENT_NOT_FOUND` for a missing like/dislike/favourite link (src/index.ts:212-217) is not modelled: a created element always has those links.
- The `ELEMENT_WRONG_TYPE` check (src/index.ts:150-152) is modelled by a flag on each item.
- The typia guards are modelled as explicit checks that yield `TypeGuardError`. Their error messages are not modelled.
- `Text.ParseInt`: only an optional sign followed by decimal digits is read. Leading whitespace, trailing garbage, `0x` prefixes and numbers beyond exact double precision are not modelled.
- The pager's `data-currentpage`/`data-pagecount` attributes are held as integers. A missing attribute throws as typia would.
- `Dates.ParseStrict`: time zones, daylight-saving gaps and the JavaScript `Date` value are not modelled. A date is its day, month, year, hour and minute. Years outside 100..9999 are refused.
- One viewport (element rectangles and window size) holds for a whole poll or scroll check. Layout changes caused by the poll's own insertions are not modelled.
- The XPath result (`UNORDERED_NODE_ITERATOR_TYPE`) is taken in document order: every pager's options, pager by pager.
- `history.replaceState` is recorded as the page number last written to the URL. The rest of the URL is not modelled.
- The debug and log output, the `YESIL_PLUGIN_DEBUG` flag and the bootstrap at the end of src/index.ts (reading options from extension storage, src/index.ts:341-363) are left out.
- The `for…in` loop with `splice` in `checkHighlightElements` is modelled as written: an element that slides into a freed slot is skipped until the next check (`Sync.CheckSkipsShiftedElement`).
- `Sync.SecondPollChangesNothing`: idempotence is stated only with fetching of new entries off (the code does not promise more, see `Sync.SecondPollRewritesNewCounter`) and for a fetched page whose entries have distinct ids. A page that repeats an id patches the same item once per copy on every poll, so its second poll need not be a no-op.
- The element factory is a parameter of a poll (`Env.template`). The class always passes `createEntryElement`, and the lemmas that need its shape state it as a precondition.
