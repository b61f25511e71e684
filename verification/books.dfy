/** The reading record as stored in the `readings` collection, and the pieces
    of JavaScript number and `Date` semantics its comparators rely on. */
module Books {
  import opened Wrappers

  /** A month as `Date.prototype.getMonth` reports it: 0 is January. */
  type Month = m: int | 0 <= m < 12

  /** A day of the month. */
  type Day = d: int | 1 <= d <= 31 witness 1

  /** A calendar date. A stored `readDate` that parses becomes one of these. */
  datatype Date = Date(year: int, month: Month, day: Day)

  /** A stored reading. `None` stands for a missing field, or for one that
      parses to `NaN` (`readYear`, `publicationYear`, `readDate`);
      `orderIndex` is the manual position used by drag and drop. */
  datatype Record = Record(
    title: string,
    author: string,
    isFiction: bool,
    genre: string,
    pageCount: int,
    publicationYear: Option<int>,
    coverUrl: string,
    country: string,
    isbn: string,
    readYear: Option<int>,
    readDate: Option<Date>,
    orderIndex: Option<int>)

  /** A record together with the id of the document holding it. */
  datatype Book = Book(id: string, data: Record)

  /** A stored document as the query returns it. */
  datatype Doc = Doc(id: string, data: Record)

  /** The period a view shows: every book, or the books read in one year. */
  datatype Period = AllTime | Year(year: int)

  /** No two books share a document id. */
  ghost predicate UniqueIds(books: seq<Book>) {
    forall i, j :: 0 <= i < j < |books| ==> books[i].id != books[j].id
  }

  /** The book belongs to the view of year `y` (`b.readYear === y`). */
  function InYear(y: int): Book -> bool {
    (b: Book) => b.data.readYear == Some(y)
  }

  /** Stands for `new Date(readDate).getTime()`: dates are numbered so that
      later dates get larger numbers and the epoch day, 1 January 1970,
      gets 0, which is all the comparators observe. */
  function Stamp(d: Date): int {
    ((d.year - 1970) * 12 + d.month) * 31 + (d.day - 1)
  }

  /** Chronological order of dates, written field by field. */
  predicate DateBefore(a: Date, b: Date) {
    a.year < b.year || (a.year == b.year && (a.month < b.month || (a.month == b.month && a.day < b.day)))
  }

  /** `Stamp` orders dates chronologically and tells different dates apart. */
  lemma {:induction false} StampOrder(a: Date, b: Date)
    ensures Stamp(a) < Stamp(b) <==> DateBefore(a, b)
    ensures Stamp(a) == Stamp(b) <==> a == b
    ensures Stamp(Date(1970, 0, 1)) == 0
  {
    var ma := (a.year - 1970) * 12 + a.month;
    var mb := (b.year - 1970) * 12 + b.month;
    assert ma < mb <==> a.year < b.year || (a.year == b.year && a.month < b.month);
    assert Stamp(a) == ma * 31 + (a.day - 1) && Stamp(b) == mb * 31 + (b.day - 1);
    if ma < mb {
      assert (mb - ma) * 31 >= 31;
    } else if mb < ma {
      assert (ma - mb) * 31 >= 31;
    }
  }

  /** A JavaScript number as far as the comparators need one: `orderIndex ??
      Infinity` is infinite when the index is missing, an unparseable date
      gives `NaN`, and `Infinity - Infinity` is `NaN`. */
  datatype Num = Fin(v: int) | PosInf | NegInf | NaN

  /** JavaScript subtraction on `Num`. */
  function Sub(a: Num, b: Num): (r: Num)
    ensures a.Fin? && b.Fin? ==> r == Fin(a.v - b.v)
    ensures r == NaN <==> a == NaN || b == NaN || (a == b && !a.Fin?)
  {
    match (a, b)
    case (NaN, _) => NaN
    case (_, NaN) => NaN
    case (Fin(x), Fin(y)) => Fin(x - y)
    case (PosInf, PosInf) => NaN
    case (NegInf, NegInf) => NaN
    case (PosInf, _) => PosInf
    case (NegInf, _) => NegInf
    case (Fin(_), PosInf) => NegInf
    case (Fin(_), NegInf) => PosInf
  }

  /** What `Array.prototype.sort` makes of a comparator's result: only its
      sign matters, and `NaN` counts as 0 (section 23.1.3.30.2 of ECMA-262,
      "SortCompare"). */
  function SortSign(n: Num): (r: int)
    ensures -1 <= r <= 1
    ensures r == 0 <==> n == NaN || n == Fin(0)
  {
    match n
    case Fin(v) => if v < 0 then -1 else if v > 0 then 1 else 0
    case PosInf => 1
    case NegInf => -1
    case NaN => 0
  }

  /** `d !== 0 && !isNaN(d)`: the first key of a comparator decides. */
  predicate Decides(d: Num) {
    d != Fin(0) && d != NaN
  }

  /** `b.orderIndex ?? Infinity`. */
  function OrderKey(b: Book): Num {
    match b.data.orderIndex
    case Some(i) => Fin(i)
    case None => PosInf
  }

  /** `new Date(b.readDate).getTime()`: `NaN` when the date is missing or
      does not parse. */
  function Time(b: Book): Num {
    match b.data.readDate
    case Some(d) => Fin(Stamp(d))
    case None => NaN
  }

  /** `new Date(b.readDate).getTime() || 0`. */
  function TimeOrZero(b: Book): int {
    match b.data.readDate
    case Some(d) => Stamp(d)
    case None => 0
  }

  /** Three-way comparison of integers. */
  function Cmp(x: int, y: int): (r: int)
    ensures r < 0 <==> x < y
    ensures r == 0 <==> x == y
    ensures r > 0 <==> x > y
    ensures -1 <= r <= 1
  {
    if x < y then -1 else if x > y then 1 else 0
  }

  /** A sort key of three integers. */
  datatype Rank = Rank(first: int, second: int, third: int)

  /** Lexicographic three-way comparison of ranks. */
  function CmpRank(a: Rank, b: Rank): (r: int)
    ensures -1 <= r <= 1
    ensures r == 0 <==> a == b
  {
    if a.first != b.first then Cmp(a.first, b.first)
    else if a.second != b.second then Cmp(a.second, b.second)
    else Cmp(a.third, b.third)
  }

  /** Lexicographic comparison is antisymmetric in sign. */
  lemma {:induction false} CmpRankFlip(a: Rank, b: Rank)
    ensures CmpRank(a, b) == -CmpRank(b, a)
  {
  }

  /** Lexicographic order is transitive. */
  lemma {:induction false} CmpRankTransitive(a: Rank, b: Rank, c: Rank)
    requires CmpRank(a, b) <= 0 && CmpRank(b, c) <= 0
    ensures CmpRank(a, c) <= 0
  {
  }

  /** The date `new Date(year, month, 15)` as JavaScript builds it: a month
      outside 0..11 carries into the year, and a year from 0 to 99 is taken
      to mean 1900 plus that year. */
  function JsReadDate(year: int, month: int): (d: Date)
    ensures d.day == 15
    ensures d.month == month % 12
    ensures 0 <= year <= 99 ==> d.year == 1900 + year + month / 12
    ensures !(0 <= year <= 99) ==> d.year == year + month / 12
  {
    var y := if 0 <= year <= 99 then 1900 + year else year;
    Date(y + month / 12, month % 12, 15)
  }

  /** The read date the save paths evidently intend: day 15 of `month` in
      `year`, with the same carrying of months into years but without the
      two-digit-year rule. */
  function ReadDate(year: int, month: int): (d: Date)
    ensures d.day == 15
    ensures 0 <= month < 12 ==> d.year == year && d.month == month
  {
    Date(year + month / 12, month % 12, 15)
  }

  /** The record's read year is the year of its read date, day 15. */
  predicate YearsAgree(r: Record) {
    && r.readYear.Some?
    && r.readDate.Some?
    && r.readDate.value.year == r.readYear.value
    && r.readDate.value.day == 15
  }

  /** A year typed as `24` is stored with `readYear` 24 but a `readDate` in
      1924: the record's two year fields disagree. */
  lemma {:induction false} TwoDigitYearMismatch()
    ensures JsReadDate(24, 0).year == 1924
    ensures JsReadDate(24, 0).year != 24
    ensures ReadDate(24, 0).year == 24
  {
  }

  /** Outside years 0 to 99 the two constructions agree. */
  lemma {:induction false} ReadDateAgrees(year: int, month: int)
    requires !(0 <= year <= 99)
    ensures JsReadDate(year, month) == ReadDate(year, month)
  {
  }
}
