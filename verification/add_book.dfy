/** Adding books: turning a looked-up volume into a draft, saving one book
    (found by ISBN or typed in by hand), and the batch form that looks up a
    list of ISBNs and saves every book found. The book search service, the
    clock and the document store are parameters. */
module AddBook {
  import opened Wrappers
  import opened Seqs
  import opened Text
  import opened Books
  import opened Catalog
  import opened IsbnList
  import Display
  import StableSort

  const NoTitle: string := "No Title Provided"
  const NoAuthor: string := "N/A"
  const PlaceholderBase: string := "https://placehold.co/128x192/1f2937/ffffff?text="
  const NoIsbnMessage: string := "Please enter at least one ISBN."
  const FetchFailedMessage: string := "An error occurred while fetching book data."
  const NoValidBooksMessage: string := "No valid books to add."
  const SaveFailedMessage: string := "Failed to save books."
  const RequiredMessage: string := "Title and Author are required."
  /** The message of the `RangeError` that `toISOString` throws for an
      invalid date. */
  const InvalidTimeValue: string := "Invalid time value"

  /** The fields of a search result's `volumeInfo` that are read. An empty
      title or thumbnail stands for a missing one; `pageCount` is already
      `book.pageCount || 0`; `publishedYear` is `None` when there is no
      published date or its year is `NaN`. */
  datatype Volume = Volume(
    title: string,
    authors: Option<seq<string>>,
    categories: Option<seq<string>>,
    pageCount: int,
    publishedYear: Option<int>,
    thumbnail: string)

  /** What looking up one ISBN gives: the first matching volume, no match
      (`totalItems` is 0), or a failed request. */
  datatype Lookup = Found(volume: Volume) | NotFound | Failed

  /** The editable draft of a book about to be saved. */
  datatype Draft = Draft(
    title: string,
    author: string,
    isFiction: bool,
    genre: string,
    pageCount: int,
    publicationYear: Option<int>,
    coverUrl: string,
    country: string)

  /** The generated cover for a book without a thumbnail:
      `title.split(' ').join('+')` after the placeholder address. */
  function Placeholder(title: string): (r: string)
    ensures r == PlaceholderBase + Replace(title, ' ', '+')
    ensures |r| == |PlaceholderBase| + |title|
    ensures forall i :: |PlaceholderBase| <= i < |r| ==> r[i] != ' '
  {
    SplitJoinReplaces(title, ' ', '+');
    PlaceholderBase + Join(SplitChar(title, ' '), "+")
  }

  lemma {:induction false} DefaultsNonEmpty()
    ensures |NoTitle| > 0 && |PlaceholderBase| > 0
  {
    assert |NoTitle| == 17;
    assert |PlaceholderBase| == 48;
  }

  /** `book.authors ? book.authors.join(', ') : 'N/A'`. */
  function AuthorsText(authors: Option<seq<string>>): (r: string)
    ensures authors.Some? ==> r == Join(authors.value, ", ")
    ensures authors.None? ==> r == NoAuthor
  {
    match authors
    case Some(a) => Join(a, ", ")
    case None => NoAuthor
  }

  /** The draft built from a search result: the volume's fields, with
      "No Title Provided" for a missing title, "N/A" for missing authors, the
      fiction flag and genre from the categories, the placeholder cover for a
      missing thumbnail and no country. */
  function DraftOf(v: Volume): (d: Draft)
    ensures d.title != "" && (v.title != "" ==> d.title == v.title)
    ensures v.title == "" ==> d.title == NoTitle
    ensures v.authors.Some? ==> d.author == Join(v.authors.value, ", ")
    ensures v.authors.None? ==> d.author == NoAuthor
    ensures d.isFiction == !IsNonFiction(v.categories)
    ensures d.genre == ParseGenre(v.categories) && d.genre != ""
    ensures d.pageCount == v.pageCount && d.publicationYear == v.publishedYear
    ensures d.coverUrl != ""
    ensures v.thumbnail != "" ==> d.coverUrl == v.thumbnail
    ensures v.thumbnail == "" ==> d.coverUrl == Placeholder(d.title)
    ensures d.country == ""
  {
    DefaultsNonEmpty();
    var title := if v.title == "" then NoTitle else v.title;
    Draft(
      title := title,
      author := AuthorsText(v.authors),
      isFiction := !IsNonFiction(v.categories),
      genre := ParseGenre(v.categories),
      pageCount := v.pageCount,
      publicationYear := v.publishedYear,
      coverUrl := if v.thumbnail != "" then v.thumbnail else Placeholder(title),
      country := "")
  }

  /** A volume with a non-fiction keyword in any one of its categories is
      drafted as non-fiction; a volume without categories as fiction. */
  lemma {:induction false} DraftOfFictionFlag(v: Volume, i: int)
    requires v.categories.Some? && 0 <= i < |v.categories.value|
    requires HasKeyword(Lower(v.categories.value[i]))
    ensures !DraftOf(v).isFiction
  {
    KeywordInCategory(v.categories.value, i);
  }

  /** The drafted genre is "General" exactly when no category part is
      usable, and otherwise the last usable part. */
  lemma {:induction false} DraftOfGenre(v: Volume)
    ensures v.categories.None? ==> DraftOf(v).genre == Fallback && DraftOf(v).isFiction
    ensures v.categories.Some? ==>
      (DraftOf(v).genre == Fallback <==> Candidates(v.categories.value) == [])
    ensures v.categories.Some? && Candidates(v.categories.value) != [] ==>
      DraftOf(v).genre == Last(Candidates(v.categories.value))
  {
    var d := DraftOf(v);
    assert d.genre == ParseGenre(v.categories);
    if v.categories.Some? {
      var cats := v.categories.value;
      assert v.categories == Some(cats);
      ParseGenreIsLastCandidate(cats);
    }
  }

  /** The last element of a non-empty list. */
  function Last(s: seq<string>): string
    requires s != []
  {
    s[|s| - 1]
  }

  /** The record saved for a draft read in `readYear` and `readMonth`. */
  function SaveDraft(d: Draft, isbn: string, readYear: int, readMonth: Month, orderIndex: int): (r: Record)
    ensures YearsAgree(r)
    ensures r.readYear == Some(readYear) && r.readDate.value.month == readMonth
    ensures r.isbn == isbn && r.orderIndex == Some(orderIndex)
    ensures r.title == d.title && r.author == d.author && r.genre == d.genre && r.isFiction == d.isFiction
  {
    Record(
      title := d.title,
      author := d.author,
      isFiction := d.isFiction,
      genre := d.genre,
      pageCount := d.pageCount,
      publicationYear := d.publicationYear,
      coverUrl := d.coverUrl,
      country := d.country,
      isbn := isbn,
      readYear := Some(readYear),
      readDate := Some(ReadDate(readYear, readMonth)),
      orderIndex := Some(orderIndex))
  }

  // ---------------------------------------------------------------------
  // Adding one book.
  // ---------------------------------------------------------------------

  /** What a save handler does: nothing, show a validation message, throw
      before saving, or save a record. */
  datatype Outcome = Unchanged | Rejected(message: string) | Thrown(error: string) | Saved(record: Record)

  /** `handleAddBook`: saves the looked-up draft with the sanitized ISBN
      typed in, positioned at `now` (`Date.now()`). A year that is `NaN`
      makes the read date invalid, and its `toISOString` throws before
      anything is saved. */
  function AddSingle(draft: Option<Draft>, isbnInput: string, readYear: Option<int>, readMonth: Month, now: int): (r: Outcome)
    ensures r.Unchanged? <==> draft.None?
    ensures r.Thrown? <==> draft.Some? && readYear.None?
    ensures r.Thrown? ==> r.error == InvalidTimeValue
    ensures !r.Rejected?
    ensures r.Saved? ==> && YearsAgree(r.record)
                         && r.record.readYear == readYear
                         && r.record.isbn == SanitizeIsbn(isbnInput)
                         && r.record.orderIndex == Some(now)
                         && r.record.title == draft.value.title
                         && r.record.author == draft.value.author
  {
    match (draft, readYear)
    case (None, _) => Unchanged
    case (Some(_), None) => Thrown(InvalidTimeValue)
    case (Some(d), Some(y)) => Saved(SaveDraft(d, SanitizeIsbn(isbnInput), y, readMonth, now))
  }

  /** The manual form's fields. */
  datatype ManualForm = ManualForm(
    title: string,
    author: string,
    isFiction: bool,
    genre: string,
    pageCount: int,
    coverUrl: string,
    country: string)

  /** `handleSaveManualBook`: title and author are required; the record has
      no ISBN and no publication year, and a generated cover when none was
      given. */
  function AddManual(form: ManualForm, readYear: Option<int>, readMonth: Month, now: int): (r: Outcome)
    ensures r.Rejected? <==> form.title == "" || form.author == ""
    ensures r.Rejected? ==> r.message == RequiredMessage
    ensures r.Thrown? <==> form.title != "" && form.author != "" && readYear.None?
    ensures !r.Unchanged?
    ensures r.Saved? ==> && YearsAgree(r.record)
                         && r.record.readYear == readYear
                         && r.record.title == form.title && r.record.author == form.author
                         && r.record.isbn == "" && r.record.publicationYear.None?
                         && r.record.coverUrl != ""
                         && (form.coverUrl == "" ==> r.record.coverUrl == PlaceholderBase + Replace(form.title, ' ', '+'))
                         && r.record.orderIndex == Some(now)
  {
    if form.title == "" || form.author == "" then Rejected(RequiredMessage)
    else
      match readYear
      case None => Thrown(InvalidTimeValue)
      case Some(y) =>
        var cover := if form.coverUrl != "" then form.coverUrl else Placeholder(form.title);
        var d := Draft(form.title, form.author, form.isFiction, form.genre, form.pageCount, None, cover, form.country);
        Saved(SaveDraft(d, "", y, readMonth, now))
  }

  /** A saved record (its read year and date agree, as every save path
      ensures) is listed, once the books are fetched again, in the view of
      the year it was read in. */
  lemma {:induction false} SavedBookListed(docs: seq<Doc>, id: string, rec: Record)
    requires rec.readYear.Some?
    ensures Book(id, rec) in Display.YearView(Display.FetchBooks(docs + [Doc(id, rec)]), rec.readYear.value)
  {
    var all := docs + [Doc(id, rec)];
    var b := Book(id, rec);
    var tagged := Map(all, Display.Tag);
    assert all[|docs|] == Doc(id, rec);
    assert tagged[|docs|] == b;
    assert multiset(tagged)[b] >= 1;
    var fetched := Display.FetchBooks(all);
    assert multiset(fetched)[b] >= 1;
    var v := Display.YearView(fetched, rec.readYear.value);
    assert multiset(v)[b] >= 1;
  }

  // ---------------------------------------------------------------------
  // Adding a batch.
  // ---------------------------------------------------------------------

  /** One row of the batch form: a found book with its editable draft, read
      month and read year (`None` is `NaN`), or an ISBN that was not
      found. */
  datatype Entry =
    | Ready(isbn: string, draft: Draft, readMonth: Month, readYear: Option<int>)
    | Missing(isbn: string)

  /** The row for one listed ISBN: a found book is keyed by the sanitized
      ISBN and starts out read this month; a missing one keeps the ISBN as
      typed. */
  function EntryFor(token: string, found: Lookup, year: int, month: Month): (e: Entry)
    requires !found.Failed?
    ensures e.Ready? <==> found.Found?
    ensures e.Ready? ==> e.isbn == SanitizeIsbn(token) && e.draft == DraftOf(found.volume) && e.readYear == Some(year) && e.readMonth == month
    ensures e.Missing? ==> e.isbn == token
  {
    match found
    case Found(v) => Ready(SanitizeIsbn(token), DraftOf(v), month, Some(year))
    case NotFound => Missing(token)
  }

  /** Some listed ISBN's lookup failed. */
  predicate AnyFailed(tokens: seq<string>, lookup: string -> Lookup) {
    exists k | 0 <= k < |tokens| :: lookup(SanitizeIsbn(tokens[k])).Failed?
  }

  /** `handleFindBooks`: one row per listed ISBN, in order, unless the list
      is empty or a lookup fails; `year` and `month` are today's. */
  function FindBooks(list: string, lookup: string -> Lookup, year: int, month: Month): (r: Result<seq<Entry>>)
    ensures (r.Err? && r.message == NoIsbnMessage) <==> Tokens(list) == []
    ensures (r.Err? && r.message == FetchFailedMessage) <==> Tokens(list) != [] && AnyFailed(Tokens(list), lookup)
    ensures r.Ok? ==> |r.value| == |Tokens(list)|
    ensures r.Ok? ==> forall k :: 0 <= k < |r.value| ==>
      && (r.value[k].Ready? <==> lookup(SanitizeIsbn(Tokens(list)[k])).Found?)
      && (r.value[k].Ready? ==> r.value[k].isbn == SanitizeIsbn(Tokens(list)[k]) && r.value[k].draft == DraftOf(lookup(SanitizeIsbn(Tokens(list)[k])).volume))
      && (r.value[k].Missing? ==> r.value[k].isbn == Tokens(list)[k])
  {
    var tokens := Tokens(list);
    if tokens == [] then Err(NoIsbnMessage)
    else if AnyFailed(tokens, lookup) then Err(FetchFailedMessage)
    else Ok(seq(|tokens|, k requires 0 <= k < |tokens| => EntryFor(tokens[k], lookup(SanitizeIsbn(tokens[k])), year, month)))
  }

  /** The ISBN of a found row has only ISBN characters. */
  lemma {:induction false} FoundIsbnsAreClean(list: string, lookup: string -> Lookup, year: int, month: Month)
    ensures var r := FindBooks(list, lookup, year, month);
      r.Ok? ==> forall k, i :: 0 <= k < |r.value| && r.value[k].Ready? && 0 <= i < |r.value[k].isbn| ==> KeptInIsbn(r.value[k].isbn[i])
  {
  }

  function IsReady(): Entry -> bool {
    (e: Entry) => e.Ready?
  }

  /** Some row to save has a year that is `NaN`. */
  predicate AnyYearMissing(ready: seq<Entry>) {
    exists k | 0 <= k < |ready| :: ready[k].Ready? && ready[k].readYear.None?
  }

  /** `handleAddAllBooks`: saves every found row, in order, positioned
      `base + k` where `base` is `Date.now()`; a `NaN` year makes the batch
      throw inside its `try`, so nothing is saved. */
  function AddAll(entries: seq<Entry>, base: int): (r: Result<seq<Record>>)
    ensures (r.Err? && r.message == NoValidBooksMessage) <==> Filter(entries, IsReady()) == []
    ensures (r.Err? && r.message == SaveFailedMessage) <==> Filter(entries, IsReady()) != [] && AnyYearMissing(Filter(entries, IsReady()))
    ensures r.Ok? ==> |r.value| == |Filter(entries, IsReady())|
    ensures r.Ok? ==> forall k :: 0 <= k < |r.value| ==>
      && YearsAgree(r.value[k])
      && r.value[k].orderIndex == Some(base + k)
      && r.value[k].isbn == Filter(entries, IsReady())[k].isbn
      && r.value[k].readYear == Filter(entries, IsReady())[k].readYear
      && r.value[k].title == Filter(entries, IsReady())[k].draft.title
  {
    var ready := Filter(entries, IsReady());
    if ready == [] then Err(NoValidBooksMessage)
    else if AnyYearMissing(ready) then Err(SaveFailedMessage)
    else
      var saved := seq(|ready|, k requires 0 <= k < |ready| =>
        SaveDraft(ready[k].draft, ready[k].isbn, ready[k].readYear.value, ready[k].readMonth, base + k));
      SavedRecords(ready, base, saved);
      Ok(saved)
  }

  /** The k-th saved record is the k-th ready row's, positioned `base + k`. */
  lemma {:induction false} SavedRecords(ready: seq<Entry>, base: int, saved: seq<Record>)
    requires forall k :: 0 <= k < |ready| ==> ready[k].Ready? && ready[k].readYear.Some?
    requires |saved| == |ready|
    requires forall k :: 0 <= k < |saved| ==>
      saved[k] == SaveDraft(ready[k].draft, ready[k].isbn, ready[k].readYear.value, ready[k].readMonth, base + k)
    ensures forall k :: 0 <= k < |saved| ==>
      && YearsAgree(saved[k])
      && saved[k].orderIndex == Some(base + k)
      && saved[k].isbn == ready[k].isbn
      && saved[k].readYear == ready[k].readYear
      && saved[k].title == ready[k].draft.title
  {
  }

  /** The saved records under the document ids the store gives them. */
  function Stored(ids: seq<string>, records: seq<Record>): (r: seq<Book>)
    requires |ids| == |records|
    ensures |r| == |records|
    ensures forall k :: 0 <= k < |r| ==> r[k].id == ids[k] && r[k].data == records[k]
  {
    seq(|records|, k requires 0 <= k < |records| => Book(ids[k], records[k]))
  }

  /** A batch is shown in the order it was entered: however the store
      returns the saved books, the year comparator sorts them back into the
      order of the rows. */
  lemma {:induction false} BatchKeepsEnteredOrder(entries: seq<Entry>, base: int, ids: seq<string>, s: seq<Book>)
    requires AddAll(entries, base).Ok?
    requires |ids| == |AddAll(entries, base).value|
    requires multiset(s) == multiset(Stored(ids, AddAll(entries, base).value))
    ensures StableSort.Sort(s, Display.YearCompare) == Stored(ids, AddAll(entries, base).value)
  {
    var stored := Stored(ids, AddAll(entries, base).value);
    BatchStrictlySorted(stored, base);
    Display.YearCompareConsistent();
    Display.AllBooksOk(s);
    Display.AllBooksOk(stored);
    StableSort.SortSorted(s, Display.YearCompare, Display.AnyBook());
    StableSort.SortedUnique(StableSort.Sort(s, Display.YearCompare), stored, Display.YearCompare, Display.AnyBook());
  }

  /** Books positioned `base`, `base + 1`, ... are strictly in year
      order. */
  lemma {:induction false} BatchStrictlySorted(stored: seq<Book>, base: int)
    requires forall k :: 0 <= k < |stored| ==> stored[k].data.orderIndex == Some(base + k)
    ensures StableSort.StrictlySorted(stored, Display.YearCompare)
  {
    forall i, j | 0 <= i < j < |stored|
      ensures Display.YearCompare(stored[i], stored[j]) < 0
    {
      Display.YearCompareIsLexicographic(stored[i], stored[j]);
    }
  }
}
