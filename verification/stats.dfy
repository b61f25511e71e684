/** The statistics page: the year picker and the summary of a period's
    books (totals, page counts, fiction split, genre, author, month, decade
    and country tallies). */
module Stats {
  import opened Wrappers
  import opened Seqs
  import opened Books
  import StableSort
  import Tally

  // ---------------------------------------------------------------------
  // The year picker.
  // ---------------------------------------------------------------------

  /** Strictly decreasing. */
  ghost predicate Descending(s: seq<int>) {
    forall i, j :: 0 <= i < j < |s| ==> s[i] > s[j]
  }

  /** Adds `y` to a strictly decreasing list unless it is already there. */
  function InsertDescending(y: int, s: seq<int>): (r: seq<int>)
    requires Descending(s)
    ensures Descending(r)
    ensures forall x :: x in r <==> x == y || x in s
  {
    if s == [] then [y]
    else if y == s[0] then s
    else if y > s[0] then [y] + s
    else
      var rest := InsertDescending(y, s[1..]);
      assert forall x :: x in rest ==> s[0] > x by {
        forall x | x in rest
          ensures s[0] > x
        {
          if x != y {
            var j :| 0 <= j < |s[1..]| && s[1..][j] == x;
            assert s[j + 1] == x;
          }
        }
      }
      assert forall k :: 0 <= k < |rest| ==> rest[k] in rest;
      [s[0]] + rest
  }

  /** The distinct values of `ys`, largest first: `Array.from(new Set(ys))
      .sort((a, b) => b - a)`. */
  function DistinctDescending(ys: seq<int>): (r: seq<int>)
    ensures Descending(r)
    ensures forall x :: x in r <==> x in ys
  {
    if ys == [] then [] else InsertDescending(ys[0], DistinctDescending(ys[1..]))
  }

  /** The book has a truthy `readYear`: a number other than 0. */
  predicate HasReadYear(b: Book) {
    b.data.readYear.Some? && b.data.readYear.value != 0
  }

  /** The years with a truthy read year, in library order. */
  function ReadYears(books: seq<Book>): (r: seq<int>)
    ensures forall y :: y in r <==> exists i :: 0 <= i < |books| && HasReadYear(books[i]) && books[i].data.readYear.value == y
  {
    if books == [] then []
    else
      var rest := ReadYears(books[1..]);
      assert forall i :: 1 <= i < |books| ==> books[i] == books[1..][i - 1];
      if HasReadYear(books[0]) then [books[0].data.readYear.value] + rest else rest
  }

  /** `availableYears`: "All Time" first, then every truthy read year and
      the current year, each once, latest first. */
  function AvailableYears(books: seq<Book>, currentYear: int): (r: seq<Period>)
    ensures |r| >= 2 && r[0] == AllTime
    ensures forall i :: 1 <= i < |r| ==> r[i].Year?
    ensures forall i, j :: 1 <= i < j < |r| ==> r[i].year > r[j].year
    ensures forall y :: Year(y) in r <==>
      y == currentYear || exists k :: 0 <= k < |books| && HasReadYear(books[k]) && books[k].data.readYear.value == y
  {
    var years := DistinctDescending([currentYear] + ReadYears(books));
    YearChoices(books, currentYear, years);
    var r := [AllTime] + Map(years, YearOf);
    PeriodMenu(years, r);
    r
  }

  function YearOf(y: int): Period {
    Year(y)
  }

  /** The years offered: the current year and every truthy read year. */
  lemma {:induction false} YearChoices(books: seq<Book>, currentYear: int, years: seq<int>)
    requires years == DistinctDescending([currentYear] + ReadYears(books))
    ensures currentYear in years
    ensures forall y :: y in years <==>
      y == currentYear || exists k :: 0 <= k < |books| && HasReadYear(books[k]) && books[k].data.readYear.value == y
  {
    assert currentYear in [currentYear] + ReadYears(books);
  }

  /** The picker's entries: "All Time", then one entry per year, in order. */
  lemma {:induction false} PeriodMenu(years: seq<int>, r: seq<Period>)
    requires r == [AllTime] + Map(years, YearOf)
    ensures |r| == |years| + 1 && r[0] == AllTime
    ensures forall i :: 1 <= i < |r| ==> r[i] == Year(years[i - 1])
    ensures forall y :: Year(y) in r <==> y in years
  {
    forall y | Year(y) in r
      ensures y in years
    {
      var i :| 0 <= i < |r| && r[i] == Year(y);
      assert r[i] == Year(years[i - 1]);
    }
    forall y | y in years
      ensures Year(y) in r
    {
      var i :| 0 <= i < |years| && years[i] == y;
      assert r[i + 1] == Year(y);
    }
  }

  // ---------------------------------------------------------------------
  // The summary.
  // ---------------------------------------------------------------------

  /** The books a period covers: all of them, or those read in its year. */
  function InPeriod(books: seq<Book>, period: Period): (r: seq<Book>)
    ensures period == AllTime ==> r == books
    ensures period.Year? ==> forall b :: multiset(r)[b] == if b.data.readYear == Some(period.year) then multiset(books)[b] else 0
  {
    match period
    case AllTime => books
    case Year(y) => FilterMultiset(books, InYear(y)); Filter(books, InYear(y))
  }

  function PageCount(b: Book): int {
    b.data.pageCount
  }

  function Author(b: Book): string {
    b.data.author
  }

  function Genre(b: Book): string {
    b.data.genre
  }

  function Country(b: Book): string {
    b.data.country
  }

  /** `b.pageCount > 0`. */
  function HasPages(): Book -> bool {
    (b: Book) => b.data.pageCount > 0
  }

  function IsFictionBook(): Book -> bool {
    (b: Book) => b.data.isFiction
  }

  function IsNonFictionBook(): Book -> bool {
    (b: Book) => !b.data.isFiction
  }

  /** `if (book.genre)`: the genre is not empty. */
  function HasGenre(): Book -> bool {
    (b: Book) => b.data.genre != ""
  }

  /** `if (book.country)`. */
  function HasCountry(): Book -> bool {
    (b: Book) => b.data.country != ""
  }

  /** `book.publicationYear && !isNaN(book.publicationYear)`: a number
      other than 0. */
  function HasPublicationYear(): Book -> bool {
    (b: Book) => b.data.publicationYear.Some? && b.data.publicationYear.value != 0
  }

  /** `Math.floor(year / 10) * 10`. */
  function Decade(year: int): (d: int)
    ensures d <= year < d + 10
    ensures d % 10 == 0
  {
    (year / 10) * 10
  }

  /** The decade a book with a publication year falls in. */
  function BookDecade(b: Book): (d: int)
    ensures d % 10 == 0
  {
    match b.data.publicationYear
    case Some(y) => Decade(y)
    case None => 0
  }

  /** `Math.round(total / n)` for a positive `n`: the integer nearest to the
      quotient, halves rounded up. */
  function RoundDiv(total: int, n: int): (r: int)
    requires n > 0
    ensures 2 * n * r <= 2 * total + n < 2 * n * r + 2 * n
  {
    (2 * total + n) / (2 * n)
  }

  /** Compares page counts, fewest first (`a.pageCount - b.pageCount`). */
  function ByPagesAscending(a: Book, b: Book): int {
    Cmp(a.data.pageCount, b.data.pageCount)
  }

  /** Compares page counts, most first (`b.pageCount - a.pageCount`). */
  function ByPagesDescending(a: Book, b: Book): int {
    Cmp(b.data.pageCount, a.data.pageCount)
  }

  /** Compares tally entries, highest count first (`b[1] - a[1]`). */
  function ByCountDescending(a: Tally.Entry<string>, b: Tally.Entry<string>): int {
    Cmp(b.count, a.count)
  }

  function AnyBook(): Book -> bool {
    (b: Book) => true
  }

  function AnyEntry(): Tally.Entry<string> -> bool {
    (e: Tally.Entry<string>) => true
  }

  lemma {:induction false} PageComparatorsConsistent()
    ensures StableSort.Consistent(ByPagesAscending, AnyBook())
    ensures StableSort.Consistent(ByPagesDescending, AnyBook())
  {
  }

  lemma {:induction false} CountComparatorConsistent()
    ensures StableSort.Consistent(ByCountDescending, AnyEntry())
  {
  }

  /** The total of the page counts (`Number(book.pageCount || 0)` summed). */
  function TotalPages(books: seq<Book>): int {
    Sum(Map(books, PageCount))
  }

  /** `averagePageCount`: the page total of all the books divided by the
      number of books that have pages, rounded to the nearest integer with
      halves up, or 0 when no book has pages. */
  function AveragePages(books: seq<Book>): (r: int)
    ensures var n := |Filter(books, HasPages())|;
      && (n == 0 ==> r == 0)
      && (n > 0 ==> 2 * n * r <= 2 * TotalPages(books) + n < 2 * n * r + 2 * n)
  {
    var n := |Filter(books, HasPages())|;
    if n > 0 then RoundDiv(TotalPages(books), n) else 0
  }

  /** `shortestBook`: a book with pages and no more pages than any other
      book with pages, or none when no book has pages. */
  function Shortest(books: seq<Book>): (r: Option<Book>)
    ensures r.None? <==> forall k :: 0 <= k < |books| ==> books[k].data.pageCount <= 0
    ensures r.Some? ==> r.value in books && r.value.data.pageCount > 0
    ensures r.Some? ==> forall k :: 0 <= k < |books| && books[k].data.pageCount > 0 ==> r.value.data.pageCount <= books[k].data.pageCount
  {
    var withPages := Filter(books, HasPages());
    if |withPages| > 0 then
      var first := StableSort.Sort(withPages, ByPagesAscending)[0];
      ShortestFacts(books, withPages, first);
      Some(first)
    else
      None
  }

  /** The first book of the books with pages, sorted by `ByPagesAscending`. */
  lemma {:induction false} ShortestFacts(books: seq<Book>, withPages: seq<Book>, first: Book)
    requires withPages == Filter(books, HasPages()) && |withPages| > 0
    requires first == StableSort.Sort(withPages, ByPagesAscending)[0]
    ensures first in books && first.data.pageCount > 0
    ensures forall k :: 0 <= k < |books| && books[k].data.pageCount > 0 ==> first.data.pageCount <= books[k].data.pageCount
  {
    ShortestFirst(withPages, first);
    forall k | 0 <= k < |books| && books[k].data.pageCount > 0
      ensures first.data.pageCount <= books[k].data.pageCount
    {
      if books[k].data.pageCount > 0 {
        assert books[k] in withPages;
        var i :| 0 <= i < |withPages| && withPages[i] == books[k];
      }
    }
  }

  /** After sorting by `ByPagesAscending`, the first book is one of them and
      bounds the page count of every one. */
  lemma {:induction false} ShortestFirst(withPages: seq<Book>, first: Book)
    requires |withPages| > 0 && first == StableSort.Sort(withPages, ByPagesAscending)[0]
    ensures first in withPages
    ensures forall i :: 0 <= i < |withPages| ==> first.data.pageCount <= withPages[i].data.pageCount
  {
    PageComparatorsConsistent();
    StableSort.SortFirstIsLeast(withPages, ByPagesAscending, AnyBook());
    forall i | 0 <= i < |withPages|
      ensures first.data.pageCount <= withPages[i].data.pageCount
    {
      assert ByPagesAscending(first, withPages[i]) <= 0;
    }
  }

  /** `longestBook`: a book with pages and no fewer pages than any other
      book, or none when no book has pages. */
  function Longest(books: seq<Book>): (r: Option<Book>)
    ensures r.None? <==> forall k :: 0 <= k < |books| ==> books[k].data.pageCount <= 0
    ensures r.Some? ==> r.value in books && r.value.data.pageCount > 0
    ensures r.Some? ==> forall k :: 0 <= k < |books| ==> r.value.data.pageCount >= books[k].data.pageCount
  {
    var withPages := Filter(books, HasPages());
    if |withPages| > 0 then
      var first := StableSort.Sort(withPages, ByPagesDescending)[0];
      LongestFacts(books, withPages, first);
      Some(first)
    else
      None
  }

  /** The first book of the books with pages, sorted by `ByPagesDescending`. */
  lemma {:induction false} LongestFacts(books: seq<Book>, withPages: seq<Book>, first: Book)
    requires withPages == Filter(books, HasPages()) && |withPages| > 0
    requires first == StableSort.Sort(withPages, ByPagesDescending)[0]
    ensures first in books && first.data.pageCount > 0
    ensures forall k :: 0 <= k < |books| ==> first.data.pageCount >= books[k].data.pageCount
  {
    LongestFirst(withPages, first);
    forall k | 0 <= k < |books|
      ensures first.data.pageCount >= books[k].data.pageCount
    {
      if books[k].data.pageCount > 0 {
        assert books[k] in withPages;
        var i :| 0 <= i < |withPages| && withPages[i] == books[k];
      }
    }
  }

  /** After sorting by `ByPagesDescending`, the first book is one of them and
      bounds the page count of every one. */
  lemma {:induction false} LongestFirst(withPages: seq<Book>, first: Book)
    requires |withPages| > 0 && first == StableSort.Sort(withPages, ByPagesDescending)[0]
    ensures first in withPages
    ensures forall i :: 0 <= i < |withPages| ==> first.data.pageCount >= withPages[i].data.pageCount
  {
    PageComparatorsConsistent();
    StableSort.SortFirstIsLeast(withPages, ByPagesDescending, AnyBook());
    forall i | 0 <= i < |withPages|
      ensures first.data.pageCount >= withPages[i].data.pageCount
    {
      assert ByPagesDescending(first, withPages[i]) <= 0;
    }
  }

  /** `fictionCount`: the books flagged as fiction. */
  function FictionCount(books: seq<Book>): nat {
    |Filter(books, IsFictionBook())|
  }

  lemma {:induction false} FilterPartition<T>(s: seq<T>, p: T -> bool, q: T -> bool)
    requires forall x :: q(x) == !p(x)
    ensures |Filter(s, p)| + |Filter(s, q)| == |s|
  {
    if s != [] {
      FilterPartition(s[1..], p, q);
    }
  }

  /** `nonfictionCount`, computed as the total minus the fiction count, is
      the number of books not flagged as fiction. */
  lemma {:induction false} NonFictionCount(books: seq<Book>)
    ensures |books| - FictionCount(books) == |Filter(books, IsNonFictionBook())|
  {
    FilterPartition(books, IsFictionBook(), IsNonFictionBook());
  }

  /** A genre tally: books without a genre are skipped; every key is a
      genre that occurs, counted once per book with that genre; the counts
      add up to the number of books with a genre. */
  function GenreCounts(books: seq<Book>): (t: seq<Tally.Entry<string>>)
    ensures forall i :: 0 <= i < |t| ==> t[i].key != "" && t[i].count >= 1
    ensures forall i :: 0 <= i < |t| ==> t[i].count == |Filter(books, HasGenreNamed(t[i].key))|
    ensures forall i, j :: 0 <= i < j < |t| ==> t[i].key != t[j].key
    ensures Tally.Total(t) == |Filter(books, HasGenre())| <= |books|
  {
    var t := Tally.Count(Map(Filter(books, HasGenre()), Genre));
    GenreCountsKeys(books, t);
    GenreCountsPerKey(books, t);
    t
  }

  /** The keys of the genre tally and its total. */
  lemma {:induction false} GenreCountsKeys(books: seq<Book>, t: seq<Tally.Entry<string>>)
    requires t == Tally.Count(Map(Filter(books, HasGenre()), Genre))
    ensures forall i :: 0 <= i < |t| ==> t[i].key != ""
    ensures Tally.Total(t) == |Filter(books, HasGenre())|
  {
    var g := Map(Filter(books, HasGenre()), Genre);
    Tally.CountTotal(g);
    Tally.CountKeysSatisfy(g, (x: string) => x != "");
  }

  /** Each key of the genre tally counts the books with that key. */
  lemma {:induction false} GenreCountsPerKey(books: seq<Book>, t: seq<Tally.Entry<string>>)
    requires t == Tally.Count(Map(Filter(books, HasGenre()), Genre))
    ensures forall i :: 0 <= i < |t| ==> t[i].count == |Filter(books, HasGenreNamed(t[i].key))|
  {
    forall i | 0 <= i < |t|
      ensures t[i].count == |Filter(books, HasGenreNamed(t[i].key))|
    {
      GenreCountsAt(books, t[i].key);
    }
  }

  /** The books with genre `v` are counted under `v`. */
  lemma {:induction false} GenreCountsAt(books: seq<Book>, v: string)
    ensures multiset(Map(Filter(books, HasGenre()), Genre))[v] == |Filter(books, HasGenreNamed(v))|
  {
    TallyByField(books, HasGenre(), Genre, HasGenreNamed(v), v);
  }

  /** The book's genre is `g`, which is not empty. */
  function HasGenreNamed(g: string): Book -> bool {
    (b: Book) => b.data.genre != "" && b.data.genre == g
  }

  /** Counting the values of `f` over the books `p` keeps counts, for a key
      `v`, the books that `p` keeps and `f` maps to `v`. */
  lemma {:induction false} TallyByField<V>(s: seq<Book>, p: Book -> bool, f: Book -> V, q: Book -> bool, v: V)
    requires forall b :: q(b) == (p(b) && f(b) == v)
    ensures multiset(Map(Filter(s, p), f))[v] == |Filter(s, q)|
  {
    if s != [] {
      TallyByField(s[1..], p, f, q, v);
      if p(s[0]) {
        assert Map(Filter(s, p), f) == [f(s[0])] + Map(Filter(s[1..], p), f);
      }
    }
  }

  /** The genre tallies of the fiction and the non-fiction books: each
      counts at most as many books as its side of the split has. */
  lemma {:induction false} GenreSplit(books: seq<Book>)
    ensures Tally.Total(GenreCounts(Filter(books, IsFictionBook()))) <= FictionCount(books)
    ensures Tally.Total(GenreCounts(Filter(books, IsNonFictionBook()))) <= |books| - FictionCount(books)
  {
    NonFictionCount(books);
  }

  /** `topAuthors`: at most ten authors with their numbers of books, most
      first; as many as there are distinct authors when there are at most
      ten; and an author left out has no more books than the last one
      listed. */
  function TopAuthors(authors: seq<string>): (r: seq<Tally.Entry<string>>)
    ensures |r| == if |Tally.Count(authors)| <= 10 then |Tally.Count(authors)| else 10
    ensures |r| <= 10
    ensures forall i, j :: 0 <= i < j < |r| ==> r[i].count >= r[j].count
    ensures forall i :: 0 <= i < |r| ==> r[i].key in authors && r[i].count == multiset(authors)[r[i].key]
    ensures forall i, j :: 0 <= i < j < |r| ==> r[i].key != r[j].key
    ensures forall a :: a in authors && (forall i :: 0 <= i < |r| ==> r[i].key != a) ==>
      |r| > 0 && multiset(authors)[a] <= r[|r| - 1].count
  {
    var sorted := StableSort.Sort(Tally.Count(authors), ByCountDescending);
    var r := Take10(sorted);
    TopAuthorsListed(authors, sorted, r);
    TopAuthorsCutoff(authors, sorted, r);
    r
  }

  /** The listed authors: by non-increasing count, each once, with their
      number of books. */
  lemma {:induction false} TopAuthorsListed(authors: seq<string>, sorted: seq<Tally.Entry<string>>, r: seq<Tally.Entry<string>>)
    requires sorted == StableSort.Sort(Tally.Count(authors), ByCountDescending)
    requires r == Take10(sorted)
    ensures forall i, j :: 0 <= i < j < |r| ==> r[i].count >= r[j].count
    ensures forall i :: 0 <= i < |r| ==> r[i].key in authors && r[i].count == multiset(authors)[r[i].key]
    ensures forall i, j :: 0 <= i < j < |r| ==> r[i].key != r[j].key
  {
    SortedTallyFacts(authors, Tally.Count(authors), sorted);
    forall i, j | 0 <= i < j < |r|
      ensures r[i].count >= r[j].count && r[i].key != r[j].key
    {
      assert r[i] == sorted[i] && r[j] == sorted[j];
      assert ByCountDescending(sorted[i], sorted[j]) <= 0;
    }
  }

  /** The cut-off: an author left out has no more books than the last one
      listed. */
  lemma {:induction false} TopAuthorsCutoff(authors: seq<string>, sorted: seq<Tally.Entry<string>>, r: seq<Tally.Entry<string>>)
    requires sorted == StableSort.Sort(Tally.Count(authors), ByCountDescending)
    requires r == Take10(sorted)
    ensures forall a :: a in authors && (forall i :: 0 <= i < |r| ==> r[i].key != a) ==>
      |r| > 0 && multiset(authors)[a] <= r[|r| - 1].count
  {
    SortedTallyFacts(authors, Tally.Count(authors), sorted);
    forall a | a in authors && (forall i :: 0 <= i < |r| ==> r[i].key != a)
      ensures |r| > 0 && multiset(authors)[a] <= r[|r| - 1].count
    {
      LeftOutAuthor(authors, sorted, r, a);
    }
  }

  /** The author tally sorted by count: ordered, made of the tally's
      entries, with distinct keys. */
  lemma {:induction false} SortedTallyFacts(authors: seq<string>, tally: seq<Tally.Entry<string>>, sorted: seq<Tally.Entry<string>>)
    requires tally == Tally.Count(authors) && sorted == StableSort.Sort(tally, ByCountDescending)
    ensures StableSort.Sorted(sorted, ByCountDescending)
    ensures forall i :: 0 <= i < |sorted| ==> sorted[i].key in authors && sorted[i].count == multiset(authors)[sorted[i].key]
    ensures Tally.DistinctKeys(sorted)
  {
    CountComparatorConsistent();
    StableSort.SortSorted(tally, ByCountDescending, AnyEntry());
    Tally.CountKeysSatisfy(authors, (x: string) => x in authors);
    forall i | 0 <= i < |sorted|
      ensures sorted[i] in tally
    {
      StableSort.MemberOfPermutation(sorted, tally, i);
    }
    Tally.DistinctKeysPermutation(tally, sorted);
  }

  /** Every author has an entry in any reordering of the author tally. */
  lemma {:induction false} AuthorInSorted(authors: seq<string>, tally: seq<Tally.Entry<string>>, sorted: seq<Tally.Entry<string>>, a: string) returns (j: int)
    requires Tally.Covers(tally, authors)
    requires multiset(tally) == multiset(sorted)
    requires a in authors
    ensures 0 <= j < |sorted| && sorted[j].key == a
  {
    var ja :| 0 <= ja < |authors| && authors[ja] == a;
    assert Tally.HasKey(tally, a);
    var k := Tally.FindKey(tally, a);
    StableSort.MemberOfPermutation(tally, sorted, k);
    j :| 0 <= j < |sorted| && sorted[j] == tally[k];
  }

  /** An author missing from the first ten has no more books than the
      tenth. */
  lemma {:induction false} LeftOutAuthor(authors: seq<string>, sorted: seq<Tally.Entry<string>>, r: seq<Tally.Entry<string>>, a: string)
    requires sorted == StableSort.Sort(Tally.Count(authors), ByCountDescending)
    requires StableSort.Sorted(sorted, ByCountDescending)
    requires forall i :: 0 <= i < |sorted| ==> sorted[i].count == multiset(authors)[sorted[i].key]
    requires r == Take10(sorted)
    requires a in authors && forall i :: 0 <= i < |r| ==> r[i].key != a
    ensures |r| > 0 && multiset(authors)[a] <= r[|r| - 1].count
  {
    var j := AuthorInSorted(authors, Tally.Count(authors), sorted, a);
    assert j >= |r|;
    assert ByCountDescending(sorted[|r| - 1], sorted[j]) <= 0;
  }

  /** `uniqueAuthors`: the number of distinct authors, which is also the
      number of entries of the author tally. */
  function UniqueAuthors(books: seq<Book>): (n: nat)
    ensures n == |Tally.Count(Map(books, Author))|
    ensures n <= |books|
  {
    Tally.CountSize(Map(books, Author));
    Tally.CountTotal(Map(books, Author));
    EntriesAtMostTotal(Tally.Count(Map(books, Author)));
    |set a | a in Map(books, Author)|
  }

  /** A tally with counts of at least one has no more entries than its
      total. */
  lemma {:induction false} EntriesAtMostTotal<K>(t: seq<Tally.Entry<K>>)
    requires forall i :: 0 <= i < |t| ==> t[i].count >= 1
    ensures |t| <= Tally.Total(t)
  {
    if t != [] {
      EntriesAtMostTotal(t[1..]);
    }
  }

  /** The book read in month `m` (of its parsed read date). */
  function InMonth(m: int): Book -> bool {
    (b: Book) => b.data.readDate.Some? && b.data.readDate.value.month == m
  }

  function HasReadDate(): Book -> bool {
    (b: Book) => b.data.readDate.Some?
  }

  /** Twelve zeros (`Array(12).fill(0)`). */
  function Zeros(): (r: seq<int>)
    ensures |r| == 12 && forall m :: 0 <= m < 12 ==> r[m] == 0
  {
    seq(12, m => 0)
  }

  /** `monthlyCounts`: one more in the month of each book's read date; a
      book whose date does not parse lands in no month. */
  function MonthlyCounts(books: seq<Book>): (r: seq<int>)
    ensures |r| == 12
  {
    if books == [] then Zeros()
    else
      var rest := MonthlyCounts(books[1..]);
      match books[0].data.readDate
      case Some(d) => rest[d.month := rest[d.month] + 1]
      case None => rest
  }

  /** `pagesPerMonth`: each book's pages added to the month of its read
      date. */
  function MonthlyPages(books: seq<Book>): (r: seq<int>)
    ensures |r| == 12
  {
    if books == [] then Zeros()
    else
      var rest := MonthlyPages(books[1..]);
      match books[0].data.readDate
      case Some(d) => rest[d.month := rest[d.month] + books[0].data.pageCount]
      case None => rest
  }

  /** A month's count is the number of books read in that month. */
  lemma {:induction false} MonthlyCountAt(books: seq<Book>, m: int)
    requires 0 <= m < 12
    ensures MonthlyCounts(books)[m] == |Filter(books, InMonth(m))|
  {
    if books != [] {
      MonthlyCountAt(books[1..], m);
    }
  }

  /** A month's page total is the sum of the page counts of the books read
      in that month. */
  lemma {:induction false} MonthlyPagesAt(books: seq<Book>, m: int)
    requires 0 <= m < 12
    ensures MonthlyPages(books)[m] == TotalPages(Filter(books, InMonth(m)))
  {
    if books != [] {
      MonthlyPagesAt(books[1..], m);
      MonthlyPagesStep(books, m);
    }
  }

  /** The first book changes a month's page total and the page total of
      the books read in that month by the same amount. */
  lemma {:induction false} MonthlyPagesStep(books: seq<Book>, m: int)
    requires books != [] && 0 <= m < 12
    ensures MonthlyPages(books)[m] - MonthlyPages(books[1..])[m]
         == TotalPages(Filter(books, InMonth(m))) - TotalPages(Filter(books[1..], InMonth(m)))
  {
    var p := InMonth(m);
    var f := Filter(books[1..], p);
    if p(books[0]) {
      assert Filter(books, p) == [books[0]] + f;
      assert Map([books[0]] + f, PageCount) == [PageCount(books[0])] + Map(f, PageCount);
    } else {
      assert Filter(books, p) == f;
    }
  }

  /** The twelve monthly counts add up to the number of books with a read
      date. */
  lemma {:induction false} MonthlyTotal(books: seq<Book>)
    ensures Sum(MonthlyCounts(books)) == |Filter(books, HasReadDate())|
  {
    if books == [] {
      SumAllZero(Zeros());
    } else {
      MonthlyTotal(books[1..]);
      MonthlyStep(books);
    }
  }

  /** One book adds one to the monthly counts' sum exactly when its read
      date parses. */
  lemma {:induction false} MonthlyStep(books: seq<Book>)
    requires books != []
    ensures Sum(MonthlyCounts(books)) == Sum(MonthlyCounts(books[1..])) + if books[0].data.readDate.Some? then 1 else 0
  {
    var rest := MonthlyCounts(books[1..]);
    match books[0].data.readDate
    case Some(d) =>
      assert MonthlyCounts(books) == rest[d.month := rest[d.month] + 1];
      SumUpdate(rest, d.month, rest[d.month] + 1);
    case None =>
  }

  lemma {:induction false} SumAllZero(s: seq<int>)
    requires forall i :: 0 <= i < |s| ==> s[i] == 0
    ensures Sum(s) == 0
  {
    if s != [] {
      SumAllZero(s[1..]);
    }
  }

  lemma {:induction false} SumUpdate(s: seq<int>, i: int, v: int)
    requires 0 <= i < |s|
    ensures Sum(s[i := v]) == Sum(s) - s[i] + v
  {
    if i > 0 {
      assert s[i := v][1..] == s[1..][i - 1 := v];
      SumUpdate(s[1..], i - 1, v);
    }
  }

  /** `book.publicationYear && Math.floor(book.publicationYear / 10) * 10
      === decade`: the books the decade chart lists for `decade`. */
  function InDecade(decade: int): Book -> bool {
    (b: Book) => b.data.publicationYear.Some? && b.data.publicationYear.value != 0 && Decade(b.data.publicationYear.value) == decade
  }

  /** `booksByDecade`: books with a publication year counted by decade;
      each key is a decade, and its count is the number of books the
      decade chart lists when that bar is clicked. */
  function DecadeCounts(books: seq<Book>): (t: seq<Tally.Entry<int>>)
    ensures forall i :: 0 <= i < |t| ==> t[i].key % 10 == 0 && t[i].count >= 1
    ensures forall i :: 0 <= i < |t| ==> t[i].count == |Filter(books, InDecade(t[i].key))|
    ensures forall i, j :: 0 <= i < j < |t| ==> t[i].key != t[j].key
    ensures Tally.Total(t) == |Filter(books, HasPublicationYear())|
  {
    var t := Tally.Count(Map(Filter(books, HasPublicationYear()), BookDecade));
    DecadeCountsKeys(books, t);
    DecadeCountsPerKey(books, t);
    t
  }

  /** The keys of the decade tally and its total. */
  lemma {:induction false} DecadeCountsKeys(books: seq<Book>, t: seq<Tally.Entry<int>>)
    requires t == Tally.Count(Map(Filter(books, HasPublicationYear()), BookDecade))
    ensures forall i :: 0 <= i < |t| ==> t[i].key % 10 == 0
    ensures Tally.Total(t) == |Filter(books, HasPublicationYear())|
  {
    var ds := Map(Filter(books, HasPublicationYear()), BookDecade);
    Tally.CountTotal(ds);
    DecadesOnly(Filter(books, HasPublicationYear()));
    Tally.CountKeysSatisfy(ds, IsDecade);
  }

  /** Every value `BookDecade` maps to is a decade. */
  lemma {:induction false} DecadesOnly(bs: seq<Book>)
    ensures forall j :: 0 <= j < |bs| ==> IsDecade(Map(bs, BookDecade)[j])
  {
    forall j | 0 <= j < |bs|
      ensures IsDecade(Map(bs, BookDecade)[j])
    {
      var d := BookDecade(bs[j]);
      assert d % 10 == 0;
    }
  }

  predicate IsDecade(y: int) {
    y % 10 == 0
  }

  /** Each key of the decade tally counts the books with that key. */
  lemma {:induction false} DecadeCountsPerKey(books: seq<Book>, t: seq<Tally.Entry<int>>)
    requires t == Tally.Count(Map(Filter(books, HasPublicationYear()), BookDecade))
    ensures forall i :: 0 <= i < |t| ==> t[i].count == |Filter(books, InDecade(t[i].key))|
  {
    forall i | 0 <= i < |t|
      ensures t[i].count == |Filter(books, InDecade(t[i].key))|
    {
      DecadeCountsAt(books, t[i].key);
    }
  }

  /** The books with decade `v` are counted under `v`. */
  lemma {:induction false} DecadeCountsAt(books: seq<Book>, v: int)
    ensures multiset(Map(Filter(books, HasPublicationYear()), BookDecade))[v] == |Filter(books, InDecade(v))|
  {
    TallyByField(books, HasPublicationYear(), BookDecade, InDecade(v), v);
  }

  /** The book's country is `c`, which is not empty. */
  function InCountry(c: string): Book -> bool {
    (b: Book) => b.data.country != "" && b.data.country == c
  }

  /** `booksByCountry`: books with a country counted by country. */
  function CountryCounts(books: seq<Book>): (t: seq<Tally.Entry<string>>)
    ensures forall i :: 0 <= i < |t| ==> t[i].key != "" && t[i].count >= 1
    ensures forall i :: 0 <= i < |t| ==> t[i].count == |Filter(books, InCountry(t[i].key))|
    ensures forall i, j :: 0 <= i < j < |t| ==> t[i].key != t[j].key
    ensures Tally.Total(t) == |Filter(books, HasCountry())|
  {
    var t := Tally.Count(Map(Filter(books, HasCountry()), Country));
    CountryCountsKeys(books, t);
    CountryCountsPerKey(books, t);
    t
  }

  /** The keys of the country tally and its total. */
  lemma {:induction false} CountryCountsKeys(books: seq<Book>, t: seq<Tally.Entry<string>>)
    requires t == Tally.Count(Map(Filter(books, HasCountry()), Country))
    ensures forall i :: 0 <= i < |t| ==> t[i].key != ""
    ensures Tally.Total(t) == |Filter(books, HasCountry())|
  {
    var cs := Map(Filter(books, HasCountry()), Country);
    Tally.CountTotal(cs);
    Tally.CountKeysSatisfy(cs, (x: string) => x != "");
  }

  /** Each key of the country tally counts the books with that key. */
  lemma {:induction false} CountryCountsPerKey(books: seq<Book>, t: seq<Tally.Entry<string>>)
    requires t == Tally.Count(Map(Filter(books, HasCountry()), Country))
    ensures forall i :: 0 <= i < |t| ==> t[i].count == |Filter(books, InCountry(t[i].key))|
  {
    forall i | 0 <= i < |t|
      ensures t[i].count == |Filter(books, InCountry(t[i].key))|
    {
      CountryCountsAt(books, t[i].key);
    }
  }

  /** The books with country `v` are counted under `v`. */
  lemma {:induction false} CountryCountsAt(books: seq<Book>, v: string)
    ensures multiset(Map(Filter(books, HasCountry()), Country))[v] == |Filter(books, InCountry(v))|
  {
    TallyByField(books, HasCountry(), Country, InCountry(v), v);
  }

  /** The summary of a period. */
  datatype Summary = Summary(
    total: nat,
    totalPagesRead: int,
    averagePageCount: int,
    shortestBook: Option<Book>,
    longestBook: Option<Book>,
    fictionCount: nat,
    nonfictionCount: int,
    fictionGenreCounts: seq<Tally.Entry<string>>,
    nonFictionGenreCounts: seq<Tally.Entry<string>>,
    topAuthors: seq<Tally.Entry<string>>,
    uniqueAuthors: nat,
    monthlyCounts: seq<int>,
    pagesPerMonth: seq<int>,
    booksByDecade: seq<Tally.Entry<int>>,
    booksByCountry: seq<Tally.Entry<string>>)

  /** The first ten entries, or all of them when there are fewer
      (`slice(0, 10)`). */
  function Take10<T>(s: seq<T>): (r: seq<T>)
    ensures |r| == if |s| <= 10 then |s| else 10
    ensures forall i :: 0 <= i < |r| ==> r[i] == s[i]
  {
    if |s| <= 10 then s else s[..10]
  }

  /** The `stats` memo: no statistics when the period has no books;
      otherwise the summary of the period's books, with the month charts
      left at zero for "All Time". */
  function ComputeStats(books: seq<Book>, period: Period): (r: Option<Summary>)
    ensures r.None? <==> InPeriod(books, period) == []
    ensures r.Some? ==> r.value.total == |InPeriod(books, period)| > 0
    ensures r.Some? ==> r.value.fictionCount + r.value.nonfictionCount == r.value.total
    ensures r.Some? && period == AllTime ==> r.value.monthlyCounts == Zeros() && r.value.pagesPerMonth == Zeros()
    ensures r.Some? ==> |r.value.topAuthors| <= 10 && r.value.uniqueAuthors <= r.value.total
  {
    var fb := InPeriod(books, period);
    if |fb| == 0 then None
    else
      var fiction := FictionCount(fb);
      Some(Summary(
        total := |fb|,
        totalPagesRead := TotalPages(fb),
        averagePageCount := AveragePages(fb),
        shortestBook := Shortest(fb),
        longestBook := Longest(fb),
        fictionCount := fiction,
        nonfictionCount := |fb| - fiction,
        fictionGenreCounts := GenreCounts(Filter(fb, IsFictionBook())),
        nonFictionGenreCounts := GenreCounts(Filter(fb, IsNonFictionBook())),
        topAuthors := TopAuthors(Map(fb, Author)),
        uniqueAuthors := UniqueAuthors(fb),
        monthlyCounts := if period.Year? then MonthlyCounts(fb) else Zeros(),
        pagesPerMonth := if period.Year? then MonthlyPages(fb) else Zeros(),
        booksByDecade := DecadeCounts(fb),
        booksByCountry := CountryCounts(fb)))
  }

  /** The books the decade chart lists when the bar for `decade` is
      clicked: those of the period published in that decade. */
  function DecadeBooks(books: seq<Book>, period: Period, decade: int): (r: seq<Book>)
    ensures forall k :: 0 <= k < |r| ==> r[k] in InPeriod(books, period)
    ensures forall k :: 0 <= k < |r| ==> r[k].data.publicationYear.Some? && Decade(r[k].data.publicationYear.value) == decade
  {
    Filter(InPeriod(books, period), InDecade(decade))
  }

  /** Clicking a decade's bar lists exactly as many books as the bar
      counts. */
  lemma {:induction false} DecadeModalMatchesBucket(books: seq<Book>, period: Period)
    ensures var st := ComputeStats(books, period);
      st.Some? ==> forall i :: 0 <= i < |st.value.booksByDecade| ==>
        |DecadeBooks(books, period, st.value.booksByDecade[i].key)| == st.value.booksByDecade[i].count
  {
  }
}
