# Reading tracker core, in Dafny

A model of the pure logic underneath a React reading tracker that stores
each user's readings in a Firebase collection. The model covers six areas:

- **The catalog normaliser** (`helpers.js`). It derives a genre label and a
  fiction flag from a catalog volume's category strings, and it strips
  hyphens and whitespace from ISBNs.
- **The display order** (`Dashboard.jsx`, `BooksDisplay.jsx`).
  - The Dashboard's fetch order.
  - The "All Time" view: newest first.
  - A year's view: manual position first, then read date.
  - Drag-over reordering, and the drop that writes positions 0..n-1.
  - Bulk editing: each row's read month is edited, and its read year is
    taken from the stored read date.
  - Search.
- **The statistics page** (`Stats.jsx`). The year picker and the summary of
  a period: totals, average and extreme page counts, the fiction split,
  genre, author, month, decade and country tallies, and the decade chart's
  book list.
- **Adding books** (`AddBook.jsx`). Building a draft from a search result,
  saving one book or a hand-typed one, tokenising and pasting ISBN lists,
  and saving a batch of found books.
- **The goal banner** (`UI.jsx`, `GoalProgress`). Which message it shows, its
  text, and the progress percentage.
- **JavaScript semantics the above relies on**.
  - `Array.prototype.sort` is stable, and it treats a `NaN` comparator
    result as 0 (section 23.1.3.30 of ECMA-262). It is modelled as an
    insertion sort. `StableSort.SortedUnique` shows that when the comparator
    orders the list strictly, with no ties, a sort has only one possible
    result. This is the case for positions 0..n-1 and `base + k`. With
    ties, the result is fixed by stability.
  - `?? Infinity`, and `Infinity - Infinity` being `NaN`, are modelled by a
    small number type, `Books.Num`.
  - The `\s` class and `trim`, `toLowerCase` and `includes` come from the
    `Text` module.

Modules, one per file:

- `Wrappers`: `Option` and `Result`.
- `Seqs`: filter, map and sum.
- `Text`: strings.
- `Catalog`: `helpers.js`.
- `Books`: records, dates and comparator arithmetic.
- `StableSort`: the stable sort.
- `Display`: `Dashboard.jsx` and `BooksDisplay.jsx`.
- `Tally`: counting by key.
- `Stats`: `Stats.jsx`.
- `IsbnList`: the batch form's ISBN list.
- `AddBook`: `AddBook.jsx`.
- `Goal`: `GoalProgress`.

Side effects are parameters or are left out:

- The clock (`Date.now()`, the current year and month) is passed in.
- The book search service is a function from ISBN to `AddBook.Lookup`.
- A document write is the record it would write.
- A batch is the sequence of its writes.
- A parsed date is `Books.Date`, and an unparseable one is `None`.

## Model

| member | source | states |
|---|---|---|
| Catalog.CategorySplitRoundTrip | src/core/src/core/helpers.js:11 | splitting a category on `" / "` and `" > "` loses nothing: the parts rejoined with the separators found give the category back |
| Catalog.UnseparatedCategoryIsOnePart | src/core/src/core/helpers.js:11 | a category with neither exact separator is a single part (so `"A/B"` stays whole) |
| Catalog.CategoryParts | src/core/src/core/helpers.js:11 | the split yields at least one part and no part contains a separator |
| Catalog.Candidates | src/core/src/core/helpers.js:10-18 | every collected candidate is trimmed, non-empty and not one of the six forbidden terms in lower case |
| Catalog.CandidatesAppend | src/core/src/core/helpers.js:10-18 | candidates are collected category by category, in encounter order |
| Catalog.ParseGenre | src/core/src/core/helpers.js:4-21 | the genre is never empty; it is either "General" or a trimmed non-forbidden part; an absent list gives "General" |
| Catalog.ParseGenreIsLastCandidate | src/core/src/core/helpers.js:13-20 | "General" comes back exactly when no category has a usable part; otherwise the genre is the last usable part |
| Catalog.ParseGenreAppend | src/core/src/core/helpers.js:10-20 | appending a category with a usable part makes that category decide the genre; appending one without leaves the genre unchanged |
| Catalog.FallbackIsForbidden | src/core/src/core/helpers.js:5-7 | "General" is itself forbidden, so the fallback can never be mistaken for a found part |
| Catalog.ParseGenreExamples | src/core/src/core/helpers.js:5 | an absent and an empty category list both give "General" |
| Catalog.IsNonFiction | src/core/src/core/helpers.js:23-28 | an absent or empty list is fiction; otherwise the volume is non-fiction exactly when some keyword occurs in the lower-cased, space-joined categories |
| Catalog.KeywordInCategory | src/core/src/core/helpers.js:25-27 | a keyword inside any one category makes the volume non-fiction |
| Catalog.IsNonFictionMonotone | src/core/src/core/helpers.js:26-27 | appending categories never turns a non-fiction volume into fiction |
| Catalog.KeywordAcrossCategories | src/core/src/core/helpers.js:26-27 | matches may span a category boundary: `["true", "crime"]` is non-fiction |
| Catalog.IsNonFictionExamples | src/core/src/core/helpers.js:24-27 | absent and empty lists are fiction; `["History"]` is non-fiction |
| Catalog.HasKeywordConcat | src/core/src/core/helpers.js:27 | a keyword found in part of a text is found in the whole |
| Catalog.SanitizeIsbn | src/core/src/core/helpers.js:30-32 | the result is no longer than the input, holds no `-` or whitespace, and keeps every other character as often as it occurs |
| Catalog.SanitizeConcat | src/core/src/core/helpers.js:31 | sanitising works piecewise, so the kept characters stay in order |
| Catalog.SanitizeIdempotent | src/core/src/core/helpers.js:31 | sanitising twice is sanitising once |
| Catalog.SanitizeClean | src/core/src/core/helpers.js:31 | an ISBN with nothing to strip is unchanged |
| Catalog.SanitizeCons | src/core/src/core/helpers.js:31 | a character is kept exactly when it is neither `-` nor whitespace |
| Books.StampOrder | src/components/Dashboard.jsx:34-35 | the stand-in for `getTime()` orders dates chronologically, separates different dates, and maps 1 January 1970 to 0 |
| Books.Sub | src/components/Dashboard.jsx:30 | JavaScript subtraction: finite minus finite is the difference; the result is `NaN` exactly when an operand is `NaN` or both are the same infinity |
| Books.SortSign | src/components/Dashboard.jsx:29-37 | the sort only sees a comparator result's sign, and `NaN` counts as 0 |
| Books.CmpRankFlip | src/components/Dashboard.jsx:29-37 | lexicographic comparison of sort keys is antisymmetric |
| Books.CmpRankTransitive | src/components/Dashboard.jsx:29-37 | lexicographic comparison of sort keys is transitive |
| Books.JsReadDate | src/components/AddBook.jsx:129 | `new Date(year, month, 15)` as written: day 15, the month carried into the year, and years 0 to 99 read as 1900 plus the year |
| Books.ReadDate | src/components/AddBook.jsx:129 | the read date intended: day 15 of the chosen month of the chosen year |
| Books.TwoDigitYearMismatch | src/components/AddBook.jsx:129 | a read year typed as 24 gets a read date in 1924, while the corrected date stays in year 24 |
| Books.ReadDateAgrees | src/components/AddBook.jsx:129 | outside years 0 to 99 the written and the corrected date agree |
| StableSort.Insert | src/components/Dashboard.jsx:29 | inserting adds exactly the one element |
| StableSort.Sort | src/components/Dashboard.jsx:29 | the sorted list is a permutation of its input |
| StableSort.SortSorted | src/components/Dashboard.jsx:29-37 | under a consistent comparator the result is sorted |
| StableSort.SortOfSorted | src/components/Dashboard.jsx:29 | stability: an already sorted list is left as it is |
| StableSort.SortedUnique | src/components/Dashboard.jsx:29 | a sorted permutation of a strictly sorted list is that list, so the engine's result is determined |
| StableSort.SortIdempotent | src/components/Dashboard.jsx:29 | sorting twice is sorting once |
| StableSort.SortFilterCommute | src/components/BooksDisplay.jsx:78-90 | under a consistent comparator filtering then sorting equals sorting then filtering |
| StableSort.SortFirstIsLeast | src/components/Stats.jsx:99-100 | under a consistent comparator the first element of the sorted list is taken from the input and is not greater than any of its elements, as `sorted[0]` in the shortest and longest book relies on |
| Display.YearCompareMeaning | src/components/Dashboard.jsx:29-37 | the year comparator allows `a` before `b` exactly when `a` has a position and `b` has none, or both have positions and `a`'s is lower, or positions tie (or both are missing) and `a`'s read date, 0 when unparseable, is not later |
| Display.YearCompareIsLexicographic | src/components/BooksDisplay.jsx:80-90 | the year comparator is the lexicographic order on (has no position, position, read date) |
| Display.YearCompareConsistent | src/components/BooksDisplay.jsx:80-90 | the year comparator is consistent on all books, so the stable sort's result is determined |
| Display.SortedIsYearOrdered | src/components/Dashboard.jsx:29-37 | a list sorted by the year comparator is in year order pairwise |
| Display.FetchBooks | src/components/Dashboard.jsx:27-37 | the fetched list is a permutation of the tagged query result |
| Display.FetchedBooksAreDocs | src/components/Dashboard.jsx:27 | every fetched book is some stored document under its own id |
| Display.FetchBooksOrdered | src/components/Dashboard.jsx:29-37 | positioned books come first by ascending position, then the rest by ascending read date |
| Display.YearView | src/components/BooksDisplay.jsx:77-90 | a year's view holds exactly the books read that year, each as often as in the library |
| Display.YearViewOrdered | src/components/BooksDisplay.jsx:80-90 | a year's view is in year order |
| Display.YearViewOfFetched | src/components/BooksDisplay.jsx:78-90 | a year's view of the fetched list is the fetched list filtered by year, since the two comparators are the same and the sort is stable |
| Display.YearViewAfterSort | src/components/BooksDisplay.jsx:78-90 | re-sorting an already sorted library gives the same year view as filtering it |
| Display.AllTimeCompareMeaning | src/components/BooksDisplay.jsx:67-75 | when both dates parse and differ, the newer read comes first; otherwise a book without a position comes first and then positions descend |
| Display.AllTimeCompareIsLexicographic | src/components/BooksDisplay.jsx:67-75 | with parseable dates the "All Time" comparator is lexicographic on (date descending, has a position, position descending) |
| Display.AllTimeCompareConsistent | src/components/BooksDisplay.jsx:67-75 | the "All Time" comparator is consistent on books whose dates parse |
| Display.AllTimeCycle | src/components/BooksDisplay.jsx:69-74 | with an unparseable date the "All Time" comparator is cyclic on three concrete books, so it is not consistent |
| Display.AllTimeView | src/components/BooksDisplay.jsx:65-75 | the "All Time" view is a permutation of all the books |
| Display.AllTimeViewOrdered | src/components/BooksDisplay.jsx:65-75 | when every date parses, reads are newest first, and same-day reads follow the tie rule |
| Display.View | src/components/BooksDisplay.jsx:63-91 | "All Time" shows every book; a year shows exactly that year's books |
| Display.DragOver | src/components/BooksDisplay.jsx:125-134 | hovering over the dragged book changes nothing; otherwise the dragged book is in the list and the others remain |
| Display.DragOverMoves | src/components/BooksDisplay.jsx:125-134 | with unique ids the result is a permutation of the same length, the dragged book is at the hovered index, and the other books keep their order |
| Display.DropPositions | src/components/BooksDisplay.jsx:136-145 | with unique ids, the drop's writes give the book at position `i` the `orderIndex` `i` |
| Display.RenumberStrictlySorted | src/components/BooksDisplay.jsx:136-145 | positions 0..n-1 put the dropped list strictly in year order |
| Display.DropRoundTrip | src/components/BooksDisplay.jsx:136-145 | once the drop is committed and the books are fetched again, the year's view is exactly the dropped list, now positioned 0..n-1 |
| Display.CommittedYearBooks | src/components/BooksDisplay.jsx:136-145 | committing the drop renumbers exactly the year's books and moves no book to another year |
| Display.SortRenumbered | src/components/BooksDisplay.jsx:80-90 | any arrangement of the renumbered books sorts back into the dropped order |
| Display.BulkSave | src/components/BooksDisplay.jsx:265-296 | one write per row whose year and month are numbers, each what that row writes |
| Display.SaveRowAgrees | src/components/BooksDisplay.jsx:278-286 | a written record's read year is the year of its read date, day 15 |
| Display.BulkSaveAgrees | src/components/BooksDisplay.jsx:268-288 | every record a bulk save writes has agreeing read year and read date |
| Display.BulkSaveConcat | src/components/BooksDisplay.jsx:268-288 | rows are saved independently and in order |
| Display.BulkSaveSkips | src/components/BooksDisplay.jsx:272-275 | a row with a `NaN` year or month writes nothing |
| Display.Search | src/components/BooksDisplay.jsx:606-620 | a blank term finds nothing; otherwise the results are the books whose lowercased title or author contains the lowercased term |
| Display.SearchConcat | src/components/BooksDisplay.jsx:613-618 | search results keep library order |
| Display.SearchIdempotent | src/components/BooksDisplay.jsx:613-618 | searching the results again gives them back |
| Tally.Count | src/components/Stats.jsx:119-122 | a tally has one entry per distinct value, each counting that value's occurrences, at least once |
| Tally.CountTotal | src/components/Stats.jsx:119-122 | a tally's counts add up to the number of values counted |
| Tally.CountKeys | src/components/Stats.jsx:119-122 | a tally's keys are exactly the values counted |
| Tally.CountSize | src/components/Stats.jsx:126 | a tally has as many entries as there are distinct values |
| Tally.CountKeysSatisfy | src/components/Stats.jsx:105-117 | every key of a tally is one of the values counted |
| Tally.DistinctKeysPermutation | src/components/Stats.jsx:124-125 | reordering a tally keeps one entry per key |
| Stats.DistinctDescending | src/components/Stats.jsx:86-89 | the distinct values, strictly descending |
| Stats.AvailableYears | src/components/Stats.jsx:85-90 | "All Time" first, then, strictly descending, exactly the current year and the truthy read years |
| Stats.InPeriod | src/components/Stats.jsx:93 | "All Time" covers every book; a year covers exactly the books read that year |
| Stats.ComputeStats | src/components/Stats.jsx:92-160 | no statistics exactly when the period has no books; otherwise fiction and non-fiction add up to the total, the month charts stay at zero for "All Time", there are at most ten top authors, and there are no more distinct authors than books |
| Stats.AveragePages | src/components/Stats.jsx:96-98 | the page total over the number of books with pages, rounded half up, or 0 when no book has pages |
| Stats.RoundDiv | src/components/Stats.jsx:98 | `Math.round` of a quotient: the nearest integer, halves up |
| Stats.Shortest | src/components/Stats.jsx:99 | a book with pages and no more pages than any other book with pages; none exactly when no book has pages |
| Stats.Longest | src/components/Stats.jsx:100 | a book with pages and at least as many pages as any book; none exactly when no book has pages |
| Stats.NonFictionCount | src/components/Stats.jsx:102-103 | the total minus the fiction count is the number of books not flagged as fiction |
| Stats.FilterPartition | src/components/Stats.jsx:102-103 | a predicate and its negation split a list |
| Stats.GenreCounts | src/components/Stats.jsx:105-117 | only books with a genre are counted; each key is a non-empty genre counted once per book with it; the counts add up to the books with a genre |
| Stats.GenreSplit | src/components/Stats.jsx:105-117 | the fiction genre counts add up to at most the fiction count, and the non-fiction ones to at most the non-fiction count |
| Stats.TallyByField | src/components/Stats.jsx:140-153 | counting a field over the books a test keeps counts, for a key, the books kept that have that key |
| Stats.TopAuthors | src/components/Stats.jsx:119-128 | at most ten authors, as many as there are distinct authors up to ten, by non-increasing count, each listed once with their number of books; any author left out has no more books than the last listed |
| Stats.UniqueAuthors | src/components/Stats.jsx:126 | the number of distinct authors, equal to the author tally's size and at most the number of books |
| Stats.MonthlyCounts | src/components/Stats.jsx:130-138 | twelve buckets, one per month |
| Stats.MonthlyCountAt | src/components/Stats.jsx:130-138 | a month's count is the number of books read in that month |
| Stats.MonthlyPagesAt | src/components/Stats.jsx:130-138 | a month's pages are the page total of the books read in that month |
| Stats.MonthlyPagesStep | src/components/Stats.jsx:130-138 | adding one book to the front changes a month's page total by exactly what it adds to the page total of that month's books |
| Stats.MonthlyTotal | src/components/Stats.jsx:130-138 | the monthly counts add up to the number of books whose read date parses |
| Stats.Decade | src/components/Stats.jsx:142 | a year lies in its decade, which is a multiple of 10 |
| Stats.DecadeCounts | src/components/Stats.jsx:140-146 | books with a truthy publication year counted by decade: each key is a multiple of 10, listed once, and counts the books published in that decade; the counts add up to the books with a publication year |
| Stats.CountryCounts | src/components/Stats.jsx:148-153 | books with a country counted by country; each key is non-empty and counted once per book from there |
| Stats.DecadeBooks | src/components/Stats.jsx:238-240 | the decade chart lists books of the period published in the clicked decade |
| Stats.DecadeModalMatchesBucket | src/components/Stats.jsx:238-240 | the decade chart lists exactly as many books as the clicked bar counts |
| Stats.Take10 | src/components/Stats.jsx:124-125 | `slice(0, 10)` keeps the first ten entries, or all when fewer |
| IsbnList.SplitRuns | src/components/AddBook.jsx:420 | the regular-expression split gives at least one piece and no piece holds a separator |
| IsbnList.Tokens | src/components/AddBook.jsx:420 | every ISBN token is non-empty and holds no whitespace or comma |
| IsbnList.TokensAreWords | src/components/AddBook.jsx:420 | splitting on runs of whitespace and commas and dropping blank pieces yields exactly the words of the list, read left to right |
| IsbnList.WordsConcat | src/components/AddBook.jsx:420 | words on either side of a run of separators stay apart |
| IsbnList.WordsOfTrim | src/components/AddBook.jsx:407 | trimming does not change the words |
| IsbnList.Paste | src/components/AddBook.jsx:405-412 | blank pasted text changes nothing; otherwise the list keeps its text as a prefix and grows |
| IsbnList.PasteAppendsTokens | src/components/AddBook.jsx:405-412 | the ISBNs after pasting are the listed ISBNs followed by the pasted ones |
| IsbnList.JoinTokensRoundTrip | src/components/AddBook.jsx:410 | ISBNs joined with ", " tokenise back to themselves |
| AddBook.Placeholder | src/components/AddBook.jsx:99 | the placeholder cover is the address followed by the title with every space replaced by `+` |
| AddBook.DraftOf | src/components/AddBook.jsx:91-101 | a found volume gets its own title, or "No Title Provided"; its authors joined with ", ", or "N/A"; the fiction flag `!isNonFiction` and the genre `parseGenre` of its categories; its page count and publication year; its thumbnail, or the generated placeholder for the title; and no country |
| AddBook.DraftOfFictionFlag | src/components/AddBook.jsx:97 | a volume with a non-fiction keyword in any one category is drafted as non-fiction |
| AddBook.DraftOfGenre | src/components/AddBook.jsx:98 | the drafted genre is "General" exactly when no category part is usable, otherwise the last usable part; a volume without categories is drafted as fiction with genre "General" |
| AddBook.SaveDraft | src/components/AddBook.jsx:129-143 | the saved record's read year is the year of its read date, day 15 of the chosen month |
| AddBook.AddSingle | src/components/AddBook.jsx:125-155 | nothing happens without a found book; a `NaN` year throws "Invalid time value" before saving; otherwise the record carries the sanitized ISBN and `Date.now()` as its position |
| AddBook.AddManual | src/components/AddBook.jsx:157-190 | a missing title or author is rejected with "Title and Author are required."; a `NaN` year throws; otherwise there is no ISBN, no publication year, and a cover, generated when none was given |
| AddBook.SavedBookListed | src/components/AddBook.jsx:142 | a saved book appears, after refetching, in the view of the year it was read |
| AddBook.EntryFor | src/components/AddBook.jsx:428-451 | a found ISBN gives a row keyed by the sanitized ISBN, read this month; a missing one keeps the raw token |
| AddBook.FindBooks | src/components/AddBook.jsx:414-460 | an empty list gives "Please enter at least one ISBN."; a failed lookup gives the fetch error; otherwise one row per token, in order |
| AddBook.FoundIsbnsAreClean | src/components/AddBook.jsx:429 | a found row's ISBN has no hyphen or whitespace |
| AddBook.AddAll | src/components/AddBook.jsx:478-516 | only found rows are saved, with "No valid books to add." when there are none and "Failed to save books." on a `NaN` year; the k-th saved record is positioned `base + k` with agreeing read year and date |
| AddBook.BatchStrictlySorted | src/components/AddBook.jsx:487-505 | positions `base`, `base + 1`, ... are strictly in year order |
| AddBook.BatchKeepsEnteredOrder | src/components/AddBook.jsx:487-505 | however the saved batch comes back, the year comparator sorts it into the order the rows were entered |
| Goal.Select | src/components/UI.jsx:30-41 | "achieved" exactly when the count reaches the goal, whatever the year; otherwise "short" for a past year, "set for" for a future year and "to go" for the current year |
| Goal.RenderInjective | src/components/UI.jsx:34-42 | different banner messages, or the same message with different numbers, never render to the same text, so the text determines the message and its number |
| Goal.IntToStringInjective | src/components/UI.jsx:37-41 | different numbers print differently in the template literals |
| Goal.ShortSingular | src/components/UI.jsx:36-37 | the "short" message says "book" exactly when one book is missing |
| Goal.IntToStringRoundTrip | src/components/UI.jsx:37-41 | numbers print in decimal and read back as themselves |
| Goal.NatToString | src/components/UI.jsx:37-41 | decimal digits without a leading zero |
| Goal.Percentage | src/components/UI.jsx:29 | with a positive goal the percentage is between 0 and 100; it is `NaN` only for no books against a goal of 0 |
| Goal.FullIffAchieved | src/components/UI.jsx:29-35 | with a positive goal the bar is full exactly when the goal is achieved |

## Left out

- Firebase. The query, `addDoc`, `updateDoc`, `writeBatch` and `commit` are
  left out, and so are authentication and the user id stored with each
  record. A write is modelled as the record it writes; a drop or bulk save
  is the sequence of its writes, applied in order.
- The book search service and the barcode scanner. A lookup is a function
  parameter, and `Promise.all` is an order-preserving map. Which failure
  `Promise.all` reports first is not modelled.
- Rendering, React state and hooks, DOM drag events, charts, modals and the
  lightbox. These are UI plumbing.
- The single-book edit form (`handleSaveEdit`), deletion and the genre and
  country pickers. These are UI around a single write.
- Date parsing and time zones. A stored date is a parsed `Books.Date`, or
  `None` when it does not parse.
  - `new Date(y, m, 15).toISOString()` is day 14 in time zones east of UTC.
    The month and year are unaffected. The model keeps day 15.
  - `getFullYear` of a published date is left to the lookup.
- Dates outside the range `Date` accepts (years beyond ±275760). There,
  `toISOString` throws, in the bulk save as well. These are not modelled.
- Floating point. `Math.round` is exact rounding, half up, on integers, and
  the percentage is a real number.
- Unicode case folding. Lowercasing is ASCII only.
- The order of keys in JavaScript objects. A tally lists its keys in
  order of first occurrence. JavaScript enumerates integer-like keys first,
  in ascending numeric order, and the other keys in insertion order. This
  applies to decades, and to any genre, author or country named like "1984".
  The tallies' contracts state their contents, not their order. Their
  counts assume plain keys; see the `Tally.Count` line below for names that
  collide with `Object.prototype`.
- String-to-number parsing (`Number`, `parseInt`). Its result is an
  `Option<int>`, with `None` for `NaN`. The save paths that are modelled
  write `Number(x) || 0` for the page count, so a `NaN` page count becomes
  0 and page counts are ints. The single-book edit form, which is not
  modelled, writes `Number(pageCount)` and can store `NaN`.
- The year in `GoalProgress`. The goal comes from `core/config.js`, which is
  not part of this model, and is a parameter.
- Tally.Count: it gives every key its exact multiplicity. The source
  tallies into a `{}` literal with `acc[k] = (acc[k] || 0) + 1`
  (Stats.jsx:108, 115, 120, 150). A name equal to an inherited
  `Object.prototype` property, such as "constructor" or "toString", starts
  from that function, so its count becomes a string. The name "__proto__"
  is dropped by the prototype setter and never reaches `Object.entries`.
  Only plain names are modelled.
- Stats.GenreCounts: a genre named after an `Object.prototype` property
  gets a string count or is dropped in the source, as in the `Tally.Count`
  line. The model counts it exactly.
- Stats.CountryCounts: a country named after an `Object.prototype` property
  gets a string count or is dropped in the source, as in the `Tally.Count`
  line. The model counts it exactly.
- Stats.TopAuthors: an author named after an `Object.prototype` property
  gets a string count in the source, so `b[1] - a[1]` (Stats.jsx:125) is
  `NaN` for that entry and the sort's result is implementation-defined.
  The model counts the author exactly.
- Stats.TopAuthors: among authors tied on count, the model keeps the tally's
  first-occurrence order. The source stable-sorts `Object.entries`, which
  puts integer-like names first. So with ties at the tenth place, which
  tied author makes the cut can differ. The contract holds in both cases:
  an author left out has no more books than the last one listed.
- AddBook.SaveDraft: writes the corrected read date `Books.ReadDate`. The
  source writes `new Date(y, m, 15)` (`Books.JsReadDate`). For read years 0
  to 99 that date lies in 1900 + y, so the promised agreement of read year
  and read date holds only in the corrected model. Outside 0 to 99 the two
  writes are equal (`Books.ReadDateAgrees`). See "## Findings".
- AddBook.AddSingle: writes the corrected read date, as for
  `AddBook.SaveDraft`. For read years 0 to 99 the stored date differs from
  the source's.
- AddBook.AddManual: writes the corrected read date, as for
  `AddBook.SaveDraft`. For read years 0 to 99 the stored date differs from
  the source's.
- AddBook.AddAll: writes the corrected read date for every row. Its
  agreement of read year and read date holds only in the corrected model
  for read years 0 to 99.
- Display.BulkSave: the save itself is modelled, but the source never
  lets a user reach it. The Bulk Edit button shows only when a year is
  selected (BooksDisplay.jsx:328). The effect at BooksDisplay.jsx:95-97
  turns bulk editing off whenever a year is selected, so it switches off on
  the next render. The effect's condition was evidently meant to be
  `=== 'All Time'`. The model describes what `handleSaveBulkEdit` writes
  when it runs.
- Display.BulkSave: writes the corrected read date for every row. For read
  years 0 to 99 the stored date differs from the source's.
- Display.SaveRowAgrees: the agreement of read year and read date holds for
  the corrected date. The source's write disagrees for read years 0 to 99.
- Display.BulkSaveAgrees: the agreement holds for the corrected date only.
  The source's bulk save disagrees for read years 0 to 99.
- Display.DragOver: the source compares the hovered and the dragged book by
  object identity, and the model compares them by value. With unique ids
  the two agree.
- A stored `id` field overriding the document id in `{ id: doc.id, ...doc.data() }`.
  No save path writes one.
- Display.AllTimeView: with an unparseable read date the comparator is not
  consistent, so the engine's order is implementation-defined. Only the
  permutation is stated then.
- Stats.Shortest: it does not state which of several equally short books is
  chosen. The stable sort picks the first in list order.
- Stats.Longest: it does not state which of several equally long books is
  chosen. The stable sort picks the first in list order.
- Catalog.ParseGenre: the worked examples `["Fiction / Fantasy / Epic"]` →
  "Epic" and `["Biography & Autobiography"]` → "General" are not proved
  separately. They follow from `Catalog.ParseGenreIsLastCandidate`.
- Catalog.SanitizeIsbn: the worked example "978-0-13-468599-1" →
  "9780134685991" is not proved separately. It follows from
  `Catalog.SanitizeCons`.

## Findings

| source | as written | input that shows it | evidently intended | confidence | as-written member | corrected member |
|---|---|---|---|---|---|---|
| src/components/AddBook.jsx:129 (also 164, 491 and src/components/BooksDisplay.jsx:278) | `new Date(readYear, readMonth, 15)` treats years 0 to 99 as 1900 plus the year | a read year typed as 24 is stored with `readYear` 24 and a `readDate` in 1924 | the read date lies in the read year for every year typed | low, not executed | Books.JsReadDate (counterexample Books.TwoDigitYearMismatch) | Books.ReadDate (agreement proved by AddBook.SaveDraft and Display.SaveRowAgrees) |
