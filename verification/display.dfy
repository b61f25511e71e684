/** The display order of the library: the Dashboard's fetch order, the "All
    Time" and per-year views, drag and drop reordering, bulk editing and
    search. */
module Display {
  import opened Wrappers
  import opened Seqs
  import opened Text
  import opened Books
  import StableSort

  /** Every book is a value the year comparator handles consistently. */
  function AnyBook(): Book -> bool {
    (b: Book) => true
  }

  // ---------------------------------------------------------------------
  // The year comparator, shared by the Dashboard fetch and the year view.
  // ---------------------------------------------------------------------

  /** `(a.orderIndex ?? Infinity) - (b.orderIndex ?? Infinity)` decides when
      it is neither 0 nor `NaN`; otherwise the read dates decide, oldest
      first, with an unparseable date counting as 0. */
  function YearCompare(a: Book, b: Book): int {
    var orderDiff := Sub(OrderKey(a), OrderKey(b));
    if Decides(orderDiff) then SortSign(orderDiff)
    else SortSign(Sub(Fin(TimeOrZero(a)), Fin(TimeOrZero(b))))
  }

  /** Whether `a` may be shown before `b` in a year's list: books with a
      manual position come first, by ascending position; books with equal
      or no position follow their read dates, oldest first. */
  predicate YearOrdered(a: Book, b: Book) {
    match (a.data.orderIndex, b.data.orderIndex)
    case (Some(i), Some(j)) => i < j || (i == j && TimeOrZero(a) <= TimeOrZero(b))
    case (Some(_), None) => true
    case (None, Some(_)) => false
    case (None, None) => TimeOrZero(a) <= TimeOrZero(b)
  }

  /** The year order as a lexicographic key. */
  function YearRank(b: Book): Rank {
    match b.data.orderIndex
    case Some(i) => Rank(0, i, TimeOrZero(b))
    case None => Rank(1, 0, TimeOrZero(b))
  }

  lemma {:induction false} YearCompareIsLexicographic(a: Book, b: Book)
    ensures YearCompare(a, b) == CmpRank(YearRank(a), YearRank(b))
  {
  }

  /** The comparator says "not after" exactly when the year order allows
      `a` before `b`. */
  lemma {:induction false} YearCompareMeaning(a: Book, b: Book)
    ensures YearCompare(a, b) <= 0 <==> YearOrdered(a, b)
    ensures YearCompare(a, b) < 0 <==> !YearOrdered(b, a)
  {
    YearCompareIsLexicographic(a, b);
    YearCompareIsLexicographic(b, a);
    CmpRankFlip(YearRank(a), YearRank(b));
  }

  /** The year comparator is a consistent comparator on all books, so the
      stable sort's result is fully determined. */
  lemma {:induction false} YearCompareConsistent()
    ensures StableSort.Consistent(YearCompare, AnyBook())
  {
    forall a: Book, b: Book
      ensures YearCompare(a, b) == -YearCompare(b, a)
    {
      YearCompareIsLexicographic(a, b);
      YearCompareIsLexicographic(b, a);
      CmpRankFlip(YearRank(a), YearRank(b));
    }
    forall a: Book, b: Book, c: Book | YearCompare(a, b) <= 0 && YearCompare(b, c) <= 0
      ensures YearCompare(a, c) <= 0
    {
      YearCompareIsLexicographic(a, b);
      YearCompareIsLexicographic(b, c);
      YearCompareIsLexicographic(a, c);
      CmpRankTransitive(YearRank(a), YearRank(b), YearRank(c));
    }
  }

  lemma {:induction false} AllBooksOk(s: seq<Book>)
    ensures StableSort.AllOk(s, AnyBook())
  {
  }

  /** A sequence sorted by the year comparator is in year order. */
  lemma {:induction false} SortedIsYearOrdered(s: seq<Book>)
    requires StableSort.Sorted(s, YearCompare)
    ensures forall i, j :: 0 <= i < j < |s| ==> YearOrdered(s[i], s[j])
  {
    forall i, j | 0 <= i < j < |s|
      ensures YearOrdered(s[i], s[j])
    {
      YearCompareMeaning(s[i], s[j]);
    }
  }

  // ---------------------------------------------------------------------
  // Dashboard: fetching the user's books.
  // ---------------------------------------------------------------------

  /** `{ id: doc.id, ...doc.data() }`. */
  function Tag(d: Doc): (b: Book)
    ensures b.id == d.id && b.data == d.data
  {
    Book(d.id, d.data)
  }

  /** The Dashboard's list: the query result tagged with document ids and
      sorted with the year comparator. */
  function FetchBooks(docs: seq<Doc>): (r: seq<Book>)
    ensures |r| == |docs|
    ensures multiset(r) == multiset(Map(docs, Tag))
  {
    StableSort.Sort(Map(docs, Tag), YearCompare)
  }

  /** Every fetched book is a stored document under its own id. */
  lemma {:induction false} FetchedBooksAreDocs(docs: seq<Doc>, i: int)
    requires 0 <= i < |docs|
    ensures exists k :: 0 <= k < |docs| && FetchBooks(docs)[i] == Book(docs[k].id, docs[k].data)
  {
    var r := FetchBooks(docs);
    StableSort.MemberOfPermutation(r, Map(docs, Tag), i);
    var k :| 0 <= k < |docs| && Map(docs, Tag)[k] == r[i];
  }

  /** The fetched list is in year order: books with a position first, by
      ascending position, then by read date. */
  lemma {:induction false} FetchBooksOrdered(docs: seq<Doc>)
    ensures var r := FetchBooks(docs);
      forall i, j :: 0 <= i < j < |r| ==> YearOrdered(r[i], r[j])
  {
    YearCompareConsistent();
    AllBooksOk(Map(docs, Tag));
    StableSort.SortSorted(Map(docs, Tag), YearCompare, AnyBook());
    SortedIsYearOrdered(FetchBooks(docs));
  }

  // ---------------------------------------------------------------------
  // BooksDisplay: the two views.
  // ---------------------------------------------------------------------

  /** A year's view: the books read that year, sorted by the year comparator. */
  function YearView(books: seq<Book>, y: int): (r: seq<Book>)
    ensures forall b :: multiset(r)[b] == if b.data.readYear == Some(y) then multiset(books)[b] else 0
  {
    FilterMultiset(books, InYear(y));
    StableSort.Sort(Filter(books, InYear(y)), YearCompare)
  }

  /** A year's view is in year order. */
  lemma {:induction false} YearViewOrdered(books: seq<Book>, y: int)
    ensures var r := YearView(books, y);
      forall i, j :: 0 <= i < j < |r| ==> YearOrdered(r[i], r[j])
  {
    YearCompareConsistent();
    AllBooksOk(Filter(books, InYear(y)));
    StableSort.SortSorted(Filter(books, InYear(y)), YearCompare, AnyBook());
    SortedIsYearOrdered(YearView(books, y));
  }

  /** Because both sorts are stable and use the same comparator, a year's
      view of the fetched list is that list filtered by year. */
  lemma {:induction false} YearViewOfFetched(docs: seq<Doc>, y: int)
    ensures YearView(FetchBooks(docs), y) == Filter(FetchBooks(docs), InYear(y))
  {
    var s := Map(docs, Tag);
    YearCompareConsistent();
    AllBooksOk(s);
    AllBooksOk(Filter(s, InYear(y)));
    StableSort.SortFilterCommute(s, YearCompare, InYear(y), AnyBook());
    StableSort.SortIdempotent(Filter(s, InYear(y)), YearCompare, AnyBook());
  }

  /** Sorting before taking a year's view changes nothing. */
  lemma {:induction false} YearViewAfterSort(s: seq<Book>, y: int)
    ensures YearView(StableSort.Sort(s, YearCompare), y) == YearView(s, y)
  {
    YearCompareConsistent();
    AllBooksOk(s);
    AllBooksOk(Filter(s, InYear(y)));
    StableSort.SortFilterCommute(s, YearCompare, InYear(y), AnyBook());
    StableSort.SortIdempotent(Filter(s, InYear(y)), YearCompare, AnyBook());
  }

  /** The "All Time" comparator: newest read date first when both dates
      parse and differ; otherwise `(b.orderIndex ?? Infinity) -
      (a.orderIndex ?? Infinity)`, where two missing positions give `NaN`
      and so count as equal. */
  function AllTimeCompare(a: Book, b: Book): int {
    var dateDiff := Sub(Time(b), Time(a));
    if Decides(dateDiff) then SortSign(dateDiff)
    else SortSign(Sub(OrderKey(b), OrderKey(a)))
  }

  /** The tie rule of the "All Time" order: a book without a position comes
      first, then positions descend. */
  function PositionDescending(a: Book, b: Book): int {
    match (a.data.orderIndex, b.data.orderIndex)
    case (None, None) => 0
    case (None, Some(_)) => -1
    case (Some(_), None) => 1
    case (Some(i), Some(j)) => Cmp(j, i)
  }

  /** The read dates decide when both parse and differ, newest first; in
      every other case the tie rule decides. */
  lemma {:induction false} AllTimeCompareMeaning(a: Book, b: Book)
    ensures a.data.readDate.Some? && b.data.readDate.Some? && a.data.readDate != b.data.readDate ==>
      AllTimeCompare(a, b) == Cmp(Stamp(b.data.readDate.value), Stamp(a.data.readDate.value))
    ensures !(a.data.readDate.Some? && b.data.readDate.Some? && a.data.readDate != b.data.readDate) ==>
      AllTimeCompare(a, b) == PositionDescending(a, b)
  {
    if a.data.readDate.Some? && b.data.readDate.Some? {
      StampOrder(a.data.readDate.value, b.data.readDate.value);
    }
  }

  /** The book's read date parses. */
  function HasDate(): Book -> bool {
    (b: Book) => b.data.readDate.Some?
  }

  /** With parseable dates the "All Time" order is lexicographic: date
      descending, then books without a position, then positions descending. */
  function AllTimeRank(b: Book): Rank
    requires b.data.readDate.Some?
  {
    var t := -Stamp(b.data.readDate.value);
    match b.data.orderIndex
    case None => Rank(t, 0, 0)
    case Some(i) => Rank(t, 1, -i)
  }

  lemma {:induction false} AllTimeCompareIsLexicographic(a: Book, b: Book)
    requires a.data.readDate.Some? && b.data.readDate.Some?
    ensures AllTimeCompare(a, b) == CmpRank(AllTimeRank(a), AllTimeRank(b))
  {
    StampOrder(a.data.readDate.value, b.data.readDate.value);
  }

  /** On books whose dates parse, the "All Time" comparator is consistent. */
  lemma {:induction false} AllTimeCompareConsistent()
    ensures StableSort.Consistent(AllTimeCompare, HasDate())
  {
    forall a: Book, b: Book | HasDate()(a) && HasDate()(b)
      ensures AllTimeCompare(a, b) == -AllTimeCompare(b, a)
    {
      AllTimeCompareIsLexicographic(a, b);
      AllTimeCompareIsLexicographic(b, a);
      CmpRankFlip(AllTimeRank(a), AllTimeRank(b));
    }
    forall a: Book, b: Book, c: Book | HasDate()(a) && HasDate()(b) && HasDate()(c) && AllTimeCompare(a, b) <= 0 && AllTimeCompare(b, c) <= 0
      ensures AllTimeCompare(a, c) <= 0
    {
      AllTimeCompareIsLexicographic(a, b);
      AllTimeCompareIsLexicographic(b, c);
      AllTimeCompareIsLexicographic(a, c);
      CmpRankTransitive(AllTimeRank(a), AllTimeRank(b), AllTimeRank(c));
    }
  }

  /** With an unparseable date the "All Time" comparator is not transitive:
      an older book positioned 5, an undated book positioned 3 and a newer
      book positioned 1 each come before the next, in a cycle. The engine
      may then return any of several orders. */
  lemma {:induction false} AllTimeCycle()
    ensures var rec := Record("", "", true, "", 0, None, "", "", "", None, None, None);
      var older := Book("a", rec.(readDate := Some(Date(2020, 0, 15)), orderIndex := Some(5)));
      var undated := Book("b", rec.(orderIndex := Some(3)));
      var newer := Book("c", rec.(readDate := Some(Date(2021, 0, 15)), orderIndex := Some(1)));
      AllTimeCompare(older, undated) < 0 && AllTimeCompare(undated, newer) < 0 && AllTimeCompare(newer, older) < 0
  {
  }

  /** The "All Time" view: every book, sorted with the "All Time" comparator. */
  function AllTimeView(books: seq<Book>): (r: seq<Book>)
    ensures |r| == |books|
    ensures multiset(r) == multiset(books)
  {
    StableSort.Sort(books, AllTimeCompare)
  }

  /** When every date parses, the "All Time" view lists newer reads first,
      and same-day reads by the tie rule. */
  lemma {:induction false} AllTimeViewOrdered(books: seq<Book>)
    requires forall i :: 0 <= i < |books| ==> books[i].data.readDate.Some?
    ensures var r := AllTimeView(books);
      forall i, j :: 0 <= i < j < |r| ==>
        r[i].data.readDate.Some? && r[j].data.readDate.Some? &&
        Stamp(r[i].data.readDate.value) >= Stamp(r[j].data.readDate.value) &&
        (r[i].data.readDate == r[j].data.readDate ==> PositionDescending(r[i], r[j]) <= 0)
  {
    var r := AllTimeView(books);
    AllTimeCompareConsistent();
    assert StableSort.AllOk(books, HasDate());
    StableSort.SortSorted(books, AllTimeCompare, HasDate());
    StableSort.PermutationAllOk(r, books, HasDate());
    forall i, j | 0 <= i < j < |r|
      ensures Stamp(r[i].data.readDate.value) >= Stamp(r[j].data.readDate.value)
      ensures r[i].data.readDate == r[j].data.readDate ==> PositionDescending(r[i], r[j]) <= 0
    {
      assert HasDate()(r[i]) && HasDate()(r[j]);
      AllTimeCompareMeaning(r[i], r[j]);
      StampOrder(r[i].data.readDate.value, r[j].data.readDate.value);
    }
  }

  /** The list a period shows. */
  function View(books: seq<Book>, period: Period): (r: seq<Book>)
    ensures period == AllTime ==> multiset(r) == multiset(books)
    ensures period.Year? ==> forall b :: multiset(r)[b] == if b.data.readYear == Some(period.year) then multiset(books)[b] else 0
  {
    match period
    case AllTime => AllTimeView(books)
    case Year(y) => YearView(books, y)
  }

  // ---------------------------------------------------------------------
  // Drag and drop.
  // ---------------------------------------------------------------------

  /** The book does not have the given id. */
  function NotId(id: string): Book -> bool {
    (b: Book) => b.id != id
  }

  /** `handleDragOver(index)`: hovering over the dragged book itself changes
      nothing; otherwise the dragged book is taken out and put back at
      `index` (`splice` clamps an index past the end). */
  function DragOver(displayed: seq<Book>, dragged: Book, index: int): (r: seq<Book>)
    requires 0 <= index < |displayed|
    ensures displayed[index] == dragged ==> r == displayed
    ensures displayed[index] != dragged ==> |r| == |Filter(displayed, NotId(dragged.id))| + 1 && dragged in r
  {
    if displayed[index] == dragged then displayed
    else
      var items := Filter(displayed, NotId(dragged.id));
      var k := if index <= |items| then index else |items|;
      items[..k] + [dragged] + items[k..]
  }

  /** In a list with unique ids, a book occurs once and no other book
      shares its id. */
  lemma {:induction false} UniqueOccurrence(s: seq<Book>, i: int)
    requires UniqueIds(s) && 0 <= i < |s|
    ensures multiset(s)[s[i]] == 1
    ensures forall x: Book :: x.id == s[i].id && x != s[i] ==> multiset(s)[x] == 0
  {
    Seqs.RemoveAtMultiset(s, i);
    var rest := s[..i] + s[i + 1..];
    forall k | 0 <= k < |rest|
      ensures rest[k].id != s[i].id
    {
      if k < i {
        assert rest[k] == s[k];
      } else {
        assert rest[k] == s[k + 1];
      }
    }
    assert s[i] !in multiset(rest);
    forall x: Book | x.id == s[i].id && x != s[i]
      ensures multiset(s)[x] == 0
    {
      assert x !in rest;
    }
  }

  /** Removing the dragged book by id removes exactly one book. */
  lemma {:induction false} RemoveDragged(displayed: seq<Book>, dragged: Book)
    requires UniqueIds(displayed) && dragged in displayed
    ensures multiset(Filter(displayed, NotId(dragged.id))) + multiset{dragged} == multiset(displayed)
  {
    var i :| 0 <= i < |displayed| && displayed[i] == dragged;
    UniqueOccurrence(displayed, i);
    FilterMultiset(displayed, NotId(dragged.id));
    var items := Filter(displayed, NotId(dragged.id));
    forall x
      ensures (multiset(items) + multiset{dragged})[x] == multiset(displayed)[x]
    {
      if x.id == dragged.id && x != dragged {
      }
    }
  }

  /** Putting a book with a fresh id back into a list at `k`. */
  lemma {:induction false} SpliceFacts(items: seq<Book>, dragged: Book, k: int)
    requires 0 <= k <= |items|
    requires forall i :: 0 <= i < |items| ==> items[i].id != dragged.id
    ensures var r := items[..k] + [dragged] + items[k..];
      && |r| == |items| + 1
      && r[k] == dragged
      && multiset(r) == multiset(items) + multiset{dragged}
      && Filter(r, NotId(dragged.id)) == items
  {
    var a, b := items[..k], items[k..];
    assert items == a + b;
    assert (a + [dragged] + b)[k] == dragged;
    SpliceFilter(a, b, dragged);
  }

  /** Filtering out the dragged book's id undoes the splice. */
  lemma {:induction false} SpliceFilter(a: seq<Book>, b: seq<Book>, dragged: Book)
    requires forall i :: 0 <= i < |a| ==> a[i].id != dragged.id
    requires forall i :: 0 <= i < |b| ==> b[i].id != dragged.id
    ensures Filter(a + [dragged] + b, NotId(dragged.id)) == a + b
  {
    var p := NotId(dragged.id);
    assert forall x :: x in a ==> p(x) by {
      forall x | x in a
        ensures p(x)
      {
        var i :| 0 <= i < |a| && a[i] == x;
      }
    }
    assert forall x :: x in b ==> p(x) by {
      forall x | x in b
        ensures p(x)
      {
        var i :| 0 <= i < |b| && b[i] == x;
      }
    }
    FilterKeepsAll(a, p);
    FilterKeepsAll(b, p);
    var ad := a + [dragged];
    FilterConcat(a, [dragged], p);
    assert Filter([dragged], p) == [];
    assert Filter(ad, p) == a;
    FilterConcat(ad, b, p);
  }

  /** Drag-over with unique ids moves the dragged book to `index` and
      nothing else: the result is a permutation of the list, the dragged
      book sits at `index`, and the other books keep their relative order. */
  lemma {:induction false} DragOverMoves(displayed: seq<Book>, dragged: Book, index: int)
    requires 0 <= index < |displayed|
    requires UniqueIds(displayed) && dragged in displayed
    ensures |DragOver(displayed, dragged, index)| == |displayed|
    ensures multiset(DragOver(displayed, dragged, index)) == multiset(displayed)
    ensures DragOver(displayed, dragged, index)[index] == dragged
    ensures Filter(DragOver(displayed, dragged, index), NotId(dragged.id)) == Filter(displayed, NotId(dragged.id))
  {
    var items := Filter(displayed, NotId(dragged.id));
    RemoveDragged(displayed, dragged);
    assert |items| + 1 == |displayed| by {
      assert |multiset(items) + multiset{dragged}| == |multiset(displayed)|;
    }
    if displayed[index] != dragged {
      SpliceFacts(items, dragged, index);
    }
  }

  /** One write of `handleDrop`'s batch: a document id and its new position. */
  datatype PositionUpdate = PositionUpdate(id: string, orderIndex: int)

  /** `handleDrop`'s batch: each displayed book gets its position in the
      list as its `orderIndex`. */
  function DropUpdates(displayed: seq<Book>): (r: seq<PositionUpdate>)
    ensures |r| == |displayed|
    ensures forall i :: 0 <= i < |r| ==> r[i] == PositionUpdate(displayed[i].id, i)
  {
    seq(|displayed|, i requires 0 <= i < |displayed| => PositionUpdate(displayed[i].id, i))
  }

  /** The write at `k` is the last one to document `id`. */
  predicate LastWriteAt(updates: seq<PositionUpdate>, id: string, k: int) {
    0 <= k < |updates| && updates[k].id == id && forall m :: k < m < |updates| ==> updates[m].id != id
  }

  /** The position the batch finally writes for `id`: a later write to the
      same document overrides an earlier one. */
  function LastPosition(updates: seq<PositionUpdate>, id: string): (r: Option<int>)
    ensures r.None? <==> forall k :: 0 <= k < |updates| ==> updates[k].id != id
    ensures r.Some? ==> exists k :: LastWriteAt(updates, id, k) && updates[k].orderIndex == r.value
  {
    if updates == [] then None
    else
      var last := updates[|updates| - 1];
      if last.id == id then Some(last.orderIndex)
      else
        var init := updates[..|updates| - 1];
        assert forall k :: LastWriteAt(init, id, k) ==> LastWriteAt(updates, id, k) by {
          assert forall k :: 0 <= k < |init| ==> init[k] == updates[k];
        }
        LastPosition(init, id)
  }

  /** A document's record once the batch is committed. */
  function Committed(d: Doc, updates: seq<PositionUpdate>): Doc {
    match LastPosition(updates, d.id)
    case Some(i) => Doc(d.id, d.data.(orderIndex := Some(i)))
    case None => d
  }

  /** The stored collection after the batch is committed. */
  function Commit(docs: seq<Doc>, updates: seq<PositionUpdate>): (r: seq<Doc>)
    ensures |r| == |docs|
  {
    Map(docs, (d: Doc) => Committed(d, updates))
  }

  /** The book at position `i` with `orderIndex` set to `i`. */
  function Renumber(displayed: seq<Book>): (r: seq<Book>)
    ensures |r| == |displayed|
    ensures forall i :: 0 <= i < |r| ==> r[i].id == displayed[i].id && r[i].data == displayed[i].data.(orderIndex := Some(i))
  {
    seq(|displayed|, i requires 0 <= i < |displayed| => Book(displayed[i].id, displayed[i].data.(orderIndex := Some(i))))
  }

  /** With unique ids the batch writes each book its own position. */
  lemma {:induction false} DropPositions(displayed: seq<Book>, i: int)
    requires UniqueIds(displayed) && 0 <= i < |displayed|
    ensures LastPosition(DropUpdates(displayed), displayed[i].id) == Some(i)
  {
    var u := DropUpdates(displayed);
    var r := LastPosition(u, displayed[i].id);
    assert u[i].id == displayed[i].id;
    var k :| LastWriteAt(u, displayed[i].id, k) && u[k].orderIndex == r.value;
  }

  /** Committing a book's update, seen through `Tag`. */
  function CommitBook(updates: seq<PositionUpdate>): Book -> Book {
    (b: Book) => Tag(Committed(Doc(b.id, b.data), updates))
  }

  lemma {:induction false} CommitTagged(docs: seq<Doc>, updates: seq<PositionUpdate>)
    ensures Map(Commit(docs, updates), Tag) == Map(Map(docs, Tag), CommitBook(updates))
  {
  }

  /** Renumbered books are strictly in year order. */
  lemma {:induction false} RenumberStrictlySorted(displayed: seq<Book>)
    ensures StableSort.StrictlySorted(Renumber(displayed), YearCompare)
  {
  }

  /** Dropping and refetching reproduces the dropped list: if `displayed` is
      a reordering of the year's books and ids are unique, then once the
      drop's batch is committed and the books are fetched again, the year's
      view is exactly `displayed`, each book now carrying its position. */
  lemma {:induction false} DropRoundTrip(docs: seq<Doc>, displayed: seq<Book>, y: int)
    requires UniqueIds(displayed)
    requires multiset(displayed) == multiset(Filter(Map(docs, Tag), InYear(y)))
    ensures YearView(FetchBooks(Commit(docs, DropUpdates(displayed))), y) == Renumber(displayed)
  {
    var after := Map(Commit(docs, DropUpdates(displayed)), Tag);
    YearViewAfterSort(after, y);
    CommittedYearBooks(docs, displayed, y);
    SortRenumbered(Filter(after, InYear(y)), displayed);
  }

  /** Committing the drop's batch gives each of the year's books its
      position, and no book changes year. */
  lemma {:induction false} CommittedYearBooks(docs: seq<Doc>, displayed: seq<Book>, y: int)
    requires UniqueIds(displayed)
    requires multiset(displayed) == multiset(Filter(Map(docs, Tag), InYear(y)))
    ensures multiset(Filter(Map(Commit(docs, DropUpdates(displayed)), Tag), InYear(y))) == multiset(Renumber(displayed))
  {
    var u := DropUpdates(displayed);
    var f := CommitBook(u);
    var books := Map(docs, Tag);
    CommitTagged(docs, u);
    FilterMap(books, f, InYear(y), InYear(y));
    MapMultiset(Filter(books, InYear(y)), displayed, f);
    RenumberIsCommit(displayed);
  }

  lemma {:induction false} RenumberIsCommit(displayed: seq<Book>)
    requires UniqueIds(displayed)
    ensures Map(displayed, CommitBook(DropUpdates(displayed))) == Renumber(displayed)
  {
    var f := CommitBook(DropUpdates(displayed));
    forall i | 0 <= i < |displayed|
      ensures Map(displayed, f)[i] == Renumber(displayed)[i]
    {
      DropPositions(displayed, i);
    }
  }

  /** Any arrangement of the renumbered books sorts back into it. */
  lemma {:induction false} SortRenumbered(s: seq<Book>, displayed: seq<Book>)
    requires multiset(s) == multiset(Renumber(displayed))
    ensures StableSort.Sort(s, YearCompare) == Renumber(displayed)
  {
    YearCompareConsistent();
    AllBooksOk(s);
    AllBooksOk(Renumber(displayed));
    StableSort.SortSorted(s, YearCompare, AnyBook());
    RenumberStrictlySorted(displayed);
    StableSort.SortedUnique(StableSort.Sort(s, YearCompare), Renumber(displayed), YearCompare, AnyBook());
  }

  // ---------------------------------------------------------------------
  // Bulk editing.
  // ---------------------------------------------------------------------

  /** One row of the bulk editor: the book with its edited fields, and the
      year, month and page count as `Number` reads them (`None` is `NaN`). */
  datatype BulkRow = BulkRow(book: Book, readYear: Option<int>, readMonth: Option<int>, pageCount: Option<int>)

  /** One write of the bulk save: the document id and its new record. */
  datatype RecordUpdate = RecordUpdate(id: string, data: Record)

  /** The row's year and month are numbers. */
  function Dated(): BulkRow -> bool {
    (row: BulkRow) => row.readYear.Some? && row.readMonth.Some?
  }

  /** The record a dated row writes: its fields with the page count falling
      back to 0, the read date on day 15 of the chosen month and the row's
      year. The editor's own fields (`id`, `readMonth` and the two
      "adding new" flags) are not part of a `Record` and so are not written. */
  function SaveRow(row: BulkRow): RecordUpdate
    requires Dated()(row)
  {
    var y, m := row.readYear.value, row.readMonth.value;
    RecordUpdate(row.book.id, row.book.data.(
      pageCount := row.pageCount.GetOr(0),
      readDate := Some(ReadDate(y, m)),
      readYear := Some(y)))
  }

  /** The update is what some dated row writes. */
  ghost predicate SavedFrom(rows: seq<BulkRow>, u: RecordUpdate) {
    exists k :: 0 <= k < |rows| && Dated()(rows[k]) && u == SaveRow(rows[k])
  }

  lemma {:induction false} SavedFromTail(rows: seq<BulkRow>, r: seq<RecordUpdate>)
    requires rows != []
    requires forall i :: 0 <= i < |r| ==> SavedFrom(rows[1..], r[i])
    ensures forall i :: 0 <= i < |r| ==> SavedFrom(rows, r[i])
  {
    forall i | 0 <= i < |r|
      ensures SavedFrom(rows, r[i])
    {
      assert SavedFrom(rows[1..], r[i]);
      var k :| 0 <= k < |rows| - 1 && Dated()(rows[1..][k]) && r[i] == SaveRow(rows[1..][k]);
      assert rows[1..][k] == rows[k + 1];
    }
  }

  /** `handleSaveBulkEdit`: rows whose year or month is `NaN` are skipped; the
      others are written, in order. */
  function BulkSave(rows: seq<BulkRow>): (r: seq<RecordUpdate>)
    ensures |r| == |Filter(rows, Dated())|
    ensures forall i :: 0 <= i < |r| ==> SavedFrom(rows, r[i])
  {
    if rows == [] then []
    else
      var tail := BulkSave(rows[1..]);
      SavedFromTail(rows, tail);
      if Dated()(rows[0]) then [SaveRow(rows[0])] + tail else tail
  }

  /** Each written record's read year is the year of its read date, day 15,
      when the month comes from the month picker (0 to 11). */
  lemma {:induction false} SaveRowAgrees(row: BulkRow)
    requires Dated()(row) && 0 <= row.readMonth.value < 12
    ensures YearsAgree(SaveRow(row).data)
  {
  }

  lemma {:induction false} BulkSaveAgrees(rows: seq<BulkRow>)
    requires forall k :: 0 <= k < |rows| && rows[k].readMonth.Some? ==> 0 <= rows[k].readMonth.value < 12
    ensures forall i :: 0 <= i < |BulkSave(rows)| ==> YearsAgree(BulkSave(rows)[i].data)
  {
    var r := BulkSave(rows);
    forall i | 0 <= i < |r|
      ensures YearsAgree(r[i].data)
    {
      assert SavedFrom(rows, r[i]);
      var k :| 0 <= k < |rows| && Dated()(rows[k]) && r[i] == SaveRow(rows[k]);
      SaveRowAgrees(rows[k]);
    }
  }

  /** Rows are saved independently and in order. */
  lemma {:induction false} BulkSaveConcat(a: seq<BulkRow>, b: seq<BulkRow>)
    ensures BulkSave(a + b) == BulkSave(a) + BulkSave(b)
  {
    if a == [] {
      assert a + b == b;
    } else {
      assert (a + b)[1..] == a[1..] + b;
      BulkSaveConcat(a[1..], b);
    }
  }

  /** A row with a `NaN` year or month writes nothing. */
  lemma {:induction false} BulkSaveSkips(row: BulkRow)
    ensures BulkSave([row]) == if Dated()(row) then [SaveRow(row)] else []
  {
  }

  // ---------------------------------------------------------------------
  // Search.
  // ---------------------------------------------------------------------

  /** The book's lowercased title or author contains `lowered`. */
  function Matches(lowered: string): Book -> bool {
    (b: Book) => Contains(Lower(b.data.title), lowered) || Contains(Lower(b.data.author), lowered)
  }

  /** The search results: nothing for a blank term; otherwise the books
      whose lowercased title or author contains the lowercased term (the
      term itself is not trimmed), in library order. */
  function Search(books: seq<Book>, term: string): (r: seq<Book>)
    ensures AllSpace(term) ==> r == []
    ensures !AllSpace(term) ==> forall b :: multiset(r)[b] == if Matches(Lower(term))(b) then multiset(books)[b] else 0
  {
    if Trim(term) == "" then []
    else
      FilterMultiset(books, Matches(Lower(term)));
      Filter(books, Matches(Lower(term)))
  }

  /** Searching keeps library order: the results for a concatenation are
      the results for each part, in turn. */
  lemma {:induction false} SearchConcat(a: seq<Book>, b: seq<Book>, term: string)
    ensures Search(a + b, term) == Search(a, term) + Search(b, term)
  {
    if Trim(term) != "" {
      FilterConcat(a, b, Matches(Lower(term)));
    }
  }

  /** Searching the results again with the same term gives them back. */
  lemma {:induction false} SearchIdempotent(books: seq<Book>, term: string)
    ensures Search(Search(books, term), term) == Search(books, term)
  {
    if Trim(term) != "" {
      FilterIdempotent(books, Matches(Lower(term)));
    }
  }
}
