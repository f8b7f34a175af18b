/** Searching the archive (attendance/attendance_db.py:137-208). */
module Search {
  import opened Options
  import opened Text

  // --- LIKE ... ESCAPE '\' (subclause 8.5 of ISO/IEC 9075:1992, folding ASCII as SQLite does) ---

  const ESCAPE := '\\'

  function Fold(c: char): char {
    if 'A' <= c <= 'Z' then (c as int + 32) as char else c
  }

  predicate Like(pattern: string, text: string)
    decreases |pattern| + |text|
  {
    if pattern == "" then text == ""
    else if pattern[0] == '%' then Like(pattern[1..], text) || (text != "" && Like(pattern, text[1..]))
    else if pattern[0] == ESCAPE then
      |pattern| > 1 && text != "" && Fold(pattern[1]) == Fold(text[0]) && Like(pattern[2..], text[1..])
    else if pattern[0] == '_' then text != "" && Like(pattern[1..], text[1..])
    else text != "" && Fold(pattern[0]) == Fold(text[0]) && Like(pattern[1..], text[1..])
  }

  /** Python's str.replace for a single character. */
  function Replace(s: string, c: char, with: string): string {
    if s == "" then "" else (if s[0] == c then with else [s[0]]) + Replace(s[1..], c, with)
  }

  function Escaped(query: string): string {
    Replace(Replace(Replace(query, '\\', "\\\\"), '%', "\\%"), '_', "\\_")
  }

  function Pattern(query: string): string {
    "%" + Escaped(query) + "%"
  }

  /** The query sits at position k of the text, ignoring the case of ASCII letters. */
  predicate FoundAt(text: string, query: string, k: nat) {
    k + |query| <= |text| && forall i :: 0 <= i < |query| ==> Fold(query[i]) == Fold(text[k + i])
  }

  predicate Contains(text: string, query: string) {
    exists k :: 0 <= k <= |text| && FoundAt(text, query, k)
  }

  /** One character at a time, which is what the three replaces amount to. */
  function Guarded(c: char): string {
    if c == ESCAPE || c == '%' || c == '_' then [ESCAPE, c] else [c]
  }

  function GuardedAll(query: string): string {
    if query == "" then "" else Guarded(query[0]) + GuardedAll(query[1..])
  }

  lemma {:induction false} ReplaceBoth(a: string, b: string, c: char, with: string)
    ensures Replace(a + b, c, with) == Replace(a, c, with) + Replace(b, c, with)
  {
    if a == "" {
      assert a + b == b;
    } else {
      assert (a + b)[1..] == a[1..] + b;
      ReplaceBoth(a[1..], b, c, with);
    }
  }

  lemma ReplaceOne(x: char, c: char, with: string)
    ensures Replace([x], c, with) == if x == c then with else [x]
  {
    assert [x][1..] == "";
  }

  lemma EscapedOne(x: char)
    ensures Escaped([x]) == Guarded(x)
  {
    ReplaceOne(x, '\\', "\\\\");
    ReplaceOne(x, '%', "\\%");
    ReplaceOne(x, '_', "\\_");
    ReplaceOne(ESCAPE, '%', "\\%");
    ReplaceOne(ESCAPE, '_', "\\_");
    ReplaceOne('%', '_', "\\_");
    assert "\\\\" == [ESCAPE] + [ESCAPE] && "\\%" == [ESCAPE] + ['%'];
    ReplaceBoth([ESCAPE], [ESCAPE], '%', "\\%");
    ReplaceBoth([ESCAPE], [ESCAPE], '_', "\\_");
    ReplaceBoth([ESCAPE], ['%'], '_', "\\_");
  }

  /** The order of the replaces matters: the escape character itself goes first, so nothing
      is escaped twice. */
  lemma {:induction false} EscapedIsGuarded(query: string)
    ensures Escaped(query) == GuardedAll(query)
  {
    if query == "" {
    } else {
      var x, rest := [query[0]], query[1..];
      assert query == x + rest;
      ReplaceBoth(x, rest, '\\', "\\\\");
      ReplaceBoth(Replace(x, '\\', "\\\\"), Replace(rest, '\\', "\\\\"), '%', "\\%");
      ReplaceBoth(Replace(Replace(x, '\\', "\\\\"), '%', "\\%"),
                  Replace(Replace(rest, '\\', "\\\\"), '%', "\\%"), '_', "\\_");
      EscapedOne(query[0]);
      EscapedIsGuarded(rest);
    }
  }

  lemma GuardedMatches(x: char, pattern: string, text: string)
    ensures Like(Guarded(x) + pattern, text) <==>
            text != "" && Fold(x) == Fold(text[0]) && Like(pattern, text[1..])
  {
    var p := Guarded(x) + pattern;
    if |Guarded(x)| == 2 {
      assert p[0] == ESCAPE && p[1] == x && p[2..] == pattern;
    } else {
      assert p[0] == x && p[1..] == pattern;
    }
  }

  lemma {:induction false} GuardedAllMatches(query: string, pattern: string, text: string)
    ensures Like(GuardedAll(query) + pattern, text) <==> FoundAt(text, query, 0) && Like(pattern, text[|query|..])
  {
    if query == "" {
      assert GuardedAll(query) + pattern == pattern && text[0..] == text;
    } else {
      var rest := query[1..];
      assert GuardedAll(query) + pattern == Guarded(query[0]) + (GuardedAll(rest) + pattern);
      GuardedMatches(query[0], GuardedAll(rest) + pattern, text);
      if text != "" {
        GuardedAllMatches(rest, pattern, text[1..]);
        if |query| <= |text| {
          assert text[1..][|rest|..] == text[|query|..];
        }
        FoundOneOn(text, query);
      }
    }
  }

  lemma FoundOneOn(text: string, query: string)
    requires text != "" && query != ""
    ensures FoundAt(text, query, 0) <==> Fold(query[0]) == Fold(text[0]) && FoundAt(text[1..], query[1..], 0)
  {
    if Fold(query[0]) == Fold(text[0]) && FoundAt(text[1..], query[1..], 0) {
      forall i | 0 <= i < |query| ensures Fold(query[i]) == Fold(text[0 + i]) {
        if i > 0 {
          assert query[i] == query[1..][i - 1] && text[i] == text[1..][0 + (i - 1)];
        }
      }
    }
    if FoundAt(text, query, 0) {
      forall i | 0 <= i < |query| - 1 ensures Fold(query[1..][i]) == Fold(text[1..][0 + i]) {
        assert Fold(query[i + 1]) == Fold(text[0 + (i + 1)]);
      }
    }
  }

  lemma {:induction false} PercentMatchesAnything(text: string)
    ensures Like("%", text)
  {
    assert "%"[1..] == "";
    if text == "" {
    } else {
      PercentMatchesAnything(text[1..]);
    }
  }

  lemma {:induction false} PercentSkips(pattern: string, text: string)
    ensures Like("%" + pattern, text) <==> exists k :: 0 <= k <= |text| && Like(pattern, text[k..])
    decreases |text|
  {
    assert ("%" + pattern)[1..] == pattern && text[0..] == text;
    if text == "" {
    } else {
      PercentSkips(pattern, text[1..]);
      if k :| 0 <= k <= |text| - 1 && Like(pattern, text[1..][k..]) {
        assert text[1..][k..] == text[k + 1..];
      }
      if k :| 0 < k <= |text| && Like(pattern, text[k..]) {
        assert text[1..][k - 1..] == text[k..];
      }
    }
  }

  /** Folding tells letters apart except for their case: a capital and its small letter are 32 apart. */
  lemma FoldingIsCase(c: char, d: char)
    ensures Fold(c) == Fold(d)
       <==> || c == d
            || ('A' <= c <= 'Z' && d as int == c as int + 32)
            || ('A' <= d <= 'Z' && c as int == d as int + 32)
  {
  }

  /** Unescaped, a query of one wildcard would match every text there is, or every one but the
      empty one. */
  lemma WildcardsMatchTooMuch(text: string)
    ensures Like("%" + "%" + "%", text)
    ensures Like("%" + "_" + "%", text) <==> text != ""
  {
    assert "%" + "%" + "%" == "%" + ("%" + "%") && "%" + "_" + "%" == "%" + ("_" + "%");
    PercentSkips("%" + "%", text);
    PercentSkips("_" + "%", text);
    PercentSkips("%", text[|text|..]);
    PercentMatchesAnything(text[|text|..]);
    assert text[|text|..][0..] == text[|text|..];
    assert Like("%" + "%", text[|text|..]);
    if text != "" {
      PercentMatchesAnything(text[1..]);
      assert ("_" + "%")[1..] == "%" && text[0..] == text;
      assert Like("_" + "%", text[0..]);
    }
  }

  /** LIKE escaping is exact: for every query and every text, the pattern matches exactly when
      the query is a substring, ignoring the case of ASCII letters. */
  lemma EscapingIsExact(query: string, text: string)
    ensures Like(Pattern(query), text) <==> Contains(text, query)
  {
    var tail := GuardedAll(query) + "%";
    EscapedIsGuarded(query);
    assert Pattern(query) == "%" + tail;
    PercentSkips(tail, text);
    forall k | 0 <= k <= |text| ensures Like(tail, text[k..]) <==> FoundAt(text, query, k) {
      GuardedAllMatches(query, "%", text[k..]);
      if k + |query| <= |text| {
        PercentMatchesAnything(text[k..][|query|..]);
      }
      FoundFurtherOn(text, query, k);
    }
  }

  lemma FoundFurtherOn(text: string, query: string, k: nat)
    requires k <= |text|
    ensures FoundAt(text[k..], query, 0) <==> FoundAt(text, query, k)
  {
    if FoundAt(text[k..], query, 0) {
      forall i | 0 <= i < |query| ensures Fold(query[i]) == Fold(text[k + i]) {
        assert text[k..][0 + i] == text[k + i];
      }
    }
    if FoundAt(text, query, k) {
      forall i | 0 <= i < |query| ensures Fold(query[i]) == Fold(text[k..][0 + i]) {
        assert text[k..][0 + i] == text[k + i];
      }
    }
  }

  // --- the archive -----------------------------------------------------------------------------

  /** One joined row: students.name and the columns of attendance. */
  datatype Record = Record(name: string, date: string, timeIn: string, timeOut: Option<string>,
                           confidence: Option<real>)

  /** search_filter: no WHERE clause for an empty query. */
  function SearchFilter(query: string): Option<string> {
    if query == "" then None else Some(Pattern(query))
  }

  predicate Selects(filter: Option<string>, r: Record) {
    filter.None? || Like(filter.value, r.name) || Like(filter.value, r.date)
  }

  function Where(table: seq<Record>, filter: Option<string>): seq<Record> {
    if table == [] then []
    else Where(table[..|table| - 1], filter) +
         if Selects(filter, table[|table| - 1]) then [table[|table| - 1]] else []
  }

  /** archive_summary: rows, distinct people, distinct days. */
  function ArchiveSummary(table: seq<Record>, query: string): (nat, nat, nat) {
    var rows := Where(table, SearchFilter(query));
    (|rows|, |set r | r in rows :: r.name|, |set r | r in rows :: r.date|)
  }

  /** ORDER BY date DESC, time_in DESC */
  ghost predicate NewestFirst(rows: seq<Record>) {
    forall i, j :: 0 <= i < j < |rows| ==>
      && !Before(rows[i].date, rows[j].date)
      && (rows[i].date == rows[j].date ==> !Before(rows[i].timeIn, rows[j].timeIn))
  }

  /** The rows get_all_attendance pages through: the selected ones, newest first, in whatever
      order SQLite gives to ties. */
  ghost predicate IsAnswer(table: seq<Record>, query: string, rows: seq<Record>) {
    multiset(rows) == multiset(Where(table, SearchFilter(query))) && NewestFirst(rows)
  }

  /** LIMIT ? OFFSET ?, with LIMIT -1 for None. */
  function Slice(rows: seq<Record>, limit: Option<nat>, offset: nat): seq<Record> {
    if offset >= |rows| then []
    else if limit.None? || offset + limit.value >= |rows| then rows[offset..]
    else rows[offset..offset + limit.value]
  }

  /** A page holds `limit` rows from `offset` on, or as many as there are. */
  lemma SliceIs(rows: seq<Record>, limit: Option<nat>, offset: nat)
    ensures |Slice(rows, limit, offset)|
         == if offset >= |rows| then 0
            else if limit.Some? && limit.value < |rows| - offset then limit.value
            else |rows| - offset
    ensures forall i :: 0 <= i < |Slice(rows, limit, offset)| ==>
              offset + i < |rows| && Slice(rows, limit, offset)[i] == rows[offset + i]
  {
  }

  /** The export, which has no limit, is everything. */
  lemma ExportIsEverything(rows: seq<Record>)
    ensures Slice(rows, None, 0) == rows
  {
    SliceIs(rows, None, 0);
  }

  /** The first row is of the latest day, and of that day's arrivals the last as text. */
  lemma TheNewestComesFirst(table: seq<Record>, query: string, rows: seq<Record>, r: Record)
    requires IsAnswer(table, query, rows) && r in rows
    ensures r.date == rows[0].date || Before(r.date, rows[0].date)
    ensures r.date == rows[0].date ==> r.timeIn == rows[0].timeIn || Before(r.timeIn, rows[0].timeIn)
  {
    var k :| 0 <= k < |rows| && rows[k] == r;
    Trichotomy(r.date, rows[0].date);
    Trichotomy(r.timeIn, rows[0].timeIn);
  }

  lemma SelectsIsSearch(query: string, r: Record)
    ensures Selects(SearchFilter(query), r) <==> query == "" || Contains(r.name, query) || Contains(r.date, query)
  {
    EscapingIsExact(query, r.name);
    EscapingIsExact(query, r.date);
  }

  lemma {:induction false} WhereCounts(table: seq<Record>, filter: Option<string>, r: Record)
    ensures multiset(Where(table, filter))[r] == if Selects(filter, r) then multiset(table)[r] else 0
  {
    if table == [] {
    } else {
      WhereCounts(table[..|table| - 1], filter, r);
      assert table == table[..|table| - 1] + [table[|table| - 1]];
    }
  }

  /** Whatever is paged through is exactly the rows whose name or date contains the query,
      each as often as the register has it; an empty query selects every row; and the total
      counted by archive_summary is its length. */
  lemma AnswerIsTheSearch(table: seq<Record>, query: string, rows: seq<Record>, r: Record)
    requires IsAnswer(table, query, rows)
    ensures multiset(rows)[r] ==
            if query == "" || Contains(r.name, query) || Contains(r.date, query) then multiset(table)[r] else 0
    ensures |rows| == ArchiveSummary(table, query).0
  {
    SelectsIsSearch(query, r);
    WhereCounts(table, SearchFilter(query), r);
    assert |multiset(rows)| == |rows|;
    assert |multiset(Where(table, SearchFilter(query)))| == |Where(table, SearchFilter(query))|;
  }

  /** The summary describes the whole result, not one page of it. */
  lemma SummaryIsOfTheWholeResult(table: seq<Record>, query: string, rows: seq<Record>)
    requires IsAnswer(table, query, rows)
    ensures ArchiveSummary(table, query) ==
            (|rows|, |set r | r in rows :: r.name|, |set r | r in rows :: r.date|)
  {
    var selected := Where(table, SearchFilter(query));
    assert |multiset(rows)| == |rows| && |multiset(selected)| == |selected|;
    forall r ensures r in rows <==> r in selected {
      assert r in multiset(rows) <==> r in multiset(selected);
    }
    assert (set r | r in rows :: r.name) == (set r | r in selected :: r.name);
    assert (set r | r in rows :: r.date) == (set r | r in selected :: r.date);
  }
}
