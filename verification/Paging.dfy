/** Which slice of a list to show (attendance/pagination.py), and the archive route's own
    arithmetic for the same thing (attendance/routes/records.py:38-68). */
module Paging {
  import opened Options
  import opened Search

  /** Worked out once, in the constructor, and never changed. */
  datatype Page = Page(number: int, count: int, offset: int, size: int, total: int) {
    predicate HasPrevious() { number > 1 }
    predicate HasNext() { number < count }
    predicate Needed() { count > 1 }
  }

  function Max(a: int, b: int): int { if a >= b then a else b }
  function Min(a: int, b: int): int { if a <= b then a else b }

  function Negated(n: int): int { -n }

  /** `-(-total // size)`; a size of 0 is a ZeroDivisionError. */
  function Ceiling(total: nat, size: nat): int
    requires size >= 1
  {
    -(Negated(total) / size)
  }

  /** paginate: None is a page number that was missing or not a number. */
  function Paginate(number: Option<int>, total: nat, size: nat): Page
    requires size >= 1
  {
    var count := Max(1, Ceiling(total, size));
    var wanted := if number.None? || number.value == 0 then 1 else number.value;
    var landed := Min(Max(wanted, 1), count);
    Page(landed, count, (landed - 1) * size, size, total)
  }

  const PAGE_SIZE: nat := 50

  /** attendance_all: page, pages and offset. */
  function ArchiveRoute(requested: Option<int>, total: nat): (int, int, int) {
    var asked := if requested.None? then 1 else requested.value;
    var page := if asked == 0 then 1 else asked;
    var pages := Max(1, -(Negated(total) / PAGE_SIZE));
    var landed := Min(Max(page, 1), pages);
    (landed, pages, (landed - 1) * PAGE_SIZE)
  }

  /** A remark: the two are the same arithmetic. */
  lemma RouteAgreesWithPage(requested: Option<int>, total: nat)
    ensures var p := Paginate(requested, total, PAGE_SIZE);
            ArchiveRoute(requested, total) == (p.number, p.count, p.offset)
  {
  }

  lemma CeilingIsLeast(total: nat, size: nat)
    requires size >= 1
    ensures Ceiling(total, size) * size >= total > (Ceiling(total, size) - 1) * size
    ensures Ceiling(total, size) >= 0
  {
    var q := Negated(total) / size;
    assert Negated(total) == q * size + Negated(total) % size;
    assert (-q) * size == -(q * size) && (-q - 1) * size == -(q * size) - size;
  }

  /** Any requested number lands on an existing page, itself when that page exists, and a
      page shows something whenever there is anything to show. */
  lemma EveryNumberLands(number: Option<int>, total: nat, size: nat)
    requires size >= 1
    ensures var p := Paginate(number, total, size);
            && 1 <= p.number <= p.count
            && (number.Some? && 1 <= number.value <= p.count ==> p.number == number.value)
            && 0 <= p.offset
            && (p.offset < total || (total == 0 && p.offset == 0))
            && (p.HasNext() <==> p.offset + size < total)
            && (p.HasPrevious() <==> p.offset > 0)
            && (p.Needed() <==> total > size)
  {
    var p := Paginate(number, total, size);
    CeilingIsLeast(total, size);
    MonotoneTimes(p.number - 1, p.count - 1, size);
    if p.number < p.count {
      MonotoneTimes(p.number, p.count - 1, size);
      assert p.number * size == p.offset + size;
    } else {
      assert p.count * size == (p.count - 1) * size + size;
    }
    if p.number > 1 {
      MonotoneTimes(1, p.number - 1, size);
    }
    if p.count > 1 {
      MonotoneTimes(1, p.count - 1, size);
    }
  }

  /** A missing number, 0 and anything negative land on the first page, and a number past the end
      on the last. */
  lemma StrayNumbersLand(number: Option<int>, total: nat, size: nat)
    requires size >= 1
    ensures var p := Paginate(number, total, size);
            && (number == None || number.value <= 0 ==> p.number == 1 && p.offset == 0)
            && (number.Some? && number.value >= p.count ==> p.number == p.count && p.offset + size >= total)
            && p.count == Paginate(None, total, size).count && p.size == size && p.total == total
  {
    CeilingIsLeast(total, size);
    var p := Paginate(number, total, size);
    if p.number == p.count {
      assert p.count * size == p.offset + size;
      MonotoneTimes(Ceiling(total, size), p.count, size);
    }
  }

  lemma MonotoneTimes(a: int, b: int, size: nat)
    requires a <= b
    ensures a * size <= b * size
  {
  }

  // --- all the pages ------------------------------------------------------------------------

  /** The rows shown on page k. */
  function Shown(rows: seq<Record>, k: int, size: nat): seq<Record>
    requires size >= 1
  {
    var p := Paginate(Some(k), |rows|, size);
    if p.offset >= 0 then Slice(rows, Some(size), p.offset) else []
  }

  function FirstPages(rows: seq<Record>, n: nat, size: nat): seq<Record>
    requires size >= 1
  {
    if n == 0 then [] else FirstPages(rows, n - 1, size) + Shown(rows, n, size)
  }

  lemma PageIsTheNextSlice(rows: seq<Record>, n: nat, size: nat)
    requires size >= 1 && 1 <= n <= Paginate(None, |rows|, size).count
    ensures 0 <= (n - 1) * size <= n * size
    ensures Shown(rows, n, size) == rows[Min((n - 1) * size, |rows|)..Min(n * size, |rows|)]
  {
    EveryNumberLands(Some(n), |rows|, size);
    assert n * size == (n - 1) * size + size;
  }

  lemma {:induction false} FirstPagesArePrefix(rows: seq<Record>, n: nat, size: nat)
    requires size >= 1 && n <= Paginate(None, |rows|, size).count
    ensures n * size >= 0
    ensures FirstPages(rows, n, size) == rows[..Min(n * size, |rows|)]
  {
    if n == 0 {
    } else {
      FirstPagesArePrefix(rows, n - 1, size);
      PageIsTheNextSlice(rows, n, size);
      var from, to := Min((n - 1) * size, |rows|), Min(n * size, |rows|);
      assert rows[..from] + rows[from..to] == rows[..to];
    }
  }

  /** Paging partitions the result: pages 1 to count, one after another, are exactly the rows,
      each once and in order. */
  lemma PagesPartitionTheResult(rows: seq<Record>, size: nat)
    requires size >= 1
    ensures FirstPages(rows, Paginate(None, |rows|, size).count, size) == rows
  {
    var count := Paginate(None, |rows|, size).count;
    FirstPagesArePrefix(rows, count, size);
    CeilingIsLeast(|rows|, size);
    if count > Ceiling(|rows|, size) {
      assert |rows| <= 0;
    }
    assert rows[..|rows|] == rows;
  }

  /** Search and paging together: over all the pages of a query, every row whose name or date
      contains it appears exactly as often as in the register, and no other row at all. */
  lemma PagesShowTheSearch(table: seq<Record>, query: string, rows: seq<Record>, size: nat, r: Record)
    requires IsAnswer(table, query, rows) && size >= 1
    ensures var count := Paginate(None, ArchiveSummary(table, query).0, size).count;
            multiset(FirstPages(rows, count, size))[r] ==
            if query == "" || Contains(r.name, query) || Contains(r.date, query) then multiset(table)[r] else 0
  {
    AnswerIsTheSearch(table, query, rows, r);
    PagesPartitionTheResult(rows, size);
  }
}
