/** How times are written down and read back (attendance/clock.py, and duration in
    attendance/formatting.py). */
module Clock {
  import opened Options
  import opened Text

  // --- moments ---------------------------------------------------------------------------------

  /** What a clock on the wall and a calendar beside it show. */
  datatype Wall = Wall(year: nat, month: nat, day: nat, hour: nat, minute: nat, second: nat, micro: nat)

  /** A wall clock, and how many seconds it is ahead of UTC. */
  datatype Moment = Moment(wall: Wall, offset: int)

  predicate Leap(year: nat) {
    year % 4 == 0 && (year % 100 != 0 || year % 400 == 0)
  }

  function DaysIn(year: nat, month: nat): nat {
    if month == 2 then (if Leap(year) then 29 else 28)
    else if month in {4, 6, 9, 11} then 30
    else 31
  }

  predicate ValidWall(w: Wall) {
    && 1 <= w.year <= 9999 && 1 <= w.month <= 12 && 1 <= w.day <= DaysIn(w.year, w.month)
    && w.hour < 24 && w.minute < 60 && w.second < 60 && w.micro < 1000000
  }

  predicate ValidOffset(offset: int) {
    -86400 < offset < 86400
  }

  predicate Valid(m: Moment) {
    ValidWall(m.wall) && ValidOffset(m.offset)
  }

  /** Thirty days have four of the months, and February has what is left. */
  lemma MonthLengths(year: nat)
    ensures DaysIn(year, 4) == DaysIn(year, 6) == DaysIn(year, 9) == DaysIn(year, 11) == 30
    ensures DaysIn(year, 1) == DaysIn(year, 3) == DaysIn(year, 5) == DaysIn(year, 7) == DaysIn(year, 8) == 31
    ensures DaysIn(year, 10) == DaysIn(year, 12) == 31
    ensures DaysIn(year, 2) == 29 <==> year % 400 == 0 || (year % 4 == 0 && year % 100 != 0)
    ensures DaysIn(year, 2) == 28 || DaysIn(year, 2) == 29
  {
    LeapSteps(year);
  }

  function DaysBeforeYear(year: nat): int {
    var y := year - 1;
    365 * y + y / 4 - y / 100 + y / 400
  }

  function DaysBeforeMonth(year: nat, month: nat): nat {
    if month <= 1 then 0 else DaysBeforeMonth(year, month - 1) + DaysIn(year, month - 1)
  }

  /** 1 January of the year 1 is day 1. */
  function DayNumber(year: nat, month: nat, day: nat): int {
    DaysBeforeYear(year) + DaysBeforeMonth(year, month) + day
  }

  function SecondOfDay(w: Wall): nat {
    3600 * w.hour + 60 * w.minute + w.second
  }

  /** The wall clock's whole seconds. */
  function WallSeconds(w: Wall): int {
    86400 * DayNumber(w.year, w.month, w.day) + SecondOfDay(w)
  }

  /** The instant, in whole seconds of UTC. */
  function Seconds(m: Moment): int {
    WallSeconds(m.wall) - m.offset
  }

  // --- printing ----------------------------------------------------------------------------------

  function Digit(d: nat): char
    requires d < 10
  {
    '0' + d as char
  }

  /** The last `width` digits of n. */
  function Digits(width: nat, n: nat): (s: string)
    ensures |s| == width
  {
    if width == 0 then "" else Digits(width - 1, n / 10) + [Digit(n % 10)]
  }

  function DateText(w: Wall): (s: string)
    ensures |s| == 10
  {
    Digits(4, w.year) + ("-" + (Digits(2, w.month) + ("-" + Digits(2, w.day))))
  }

  function TimeText(w: Wall): (s: string)
    ensures |s| == 8
  {
    Digits(2, w.hour) + (":" + (Digits(2, w.minute) + (":" + Digits(2, w.second))))
  }

  /** Seconds of offset are printed only when there are any. */
  function OddSeconds(seconds: nat): string {
    if seconds == 0 then "" else ":" + Digits(2, seconds)
  }

  function SizeText(h: nat, m: nat, seconds: nat): string {
    Digits(2, h) + (":" + (Digits(2, m) + OddSeconds(seconds)))
  }

  function Size(offset: int): nat {
    if offset < 0 then -offset else offset
  }

  function ZoneText(offset: int): string {
    var size := Size(offset);
    [if offset < 0 then '-' else '+'] + SizeText(size / 3600, size / 60 % 60, size % 60)
  }

  /** stamp: sections 5.1 and 5.6 of RFC 3339, to the second */
  function Stamp(m: Moment): string {
    DateText(m.wall) + ("T" + (TimeText(m.wall) + ZoneText(m.offset)))
  }

  /** local_date */
  function LocalDate(m: Moment): string {
    DateText(m.wall)
  }

  // --- reading -----------------------------------------------------------------------------------

  predicate IsDigit(c: char) {
    '0' <= c <= '9'
  }

  function ValueOf(c: char): nat
    requires IsDigit(c)
  {
    (c - '0') as nat
  }

  function Number(s: string): Option<nat> {
    if s == "" then Some(0)
    else
      match Number(s[..|s| - 1])
      case None => None
      case Some(n) => if IsDigit(s[|s| - 1]) then Some(10 * n + ValueOf(s[|s| - 1])) else None
  }

  datatype Read = Read(value: nat, rest: string)

  /** A number of fixed width at the front, and what follows it. */
  function Take(width: nat, s: string): Option<Read> {
    if |s| < width then None
    else
      match Number(s[..width])
      case None => None
      case Some(n) => Some(Read(n, s[width..]))
  }

  /** The same after a separator. */
  function TakeAfter(mark: char, width: nat, s: string): Option<Read> {
    if s == "" || s[0] != mark then None else Take(width, s[1..])
  }

  datatype ReadThree = ReadThree(first: nat, second: nat, third: nat, rest: string)

  /** Three numbers with the mark between them. */
  function TakeThree(width: nat, mark: char, s: string): Option<ReadThree> {
    match Take(width, s)
    case None => None
    case Some(a) =>
      match TakeAfter(mark, 2, a.rest)
      case None => None
      case Some(b) =>
        match TakeAfter(mark, 2, b.rest)
        case None => None
        case Some(c) => Some(ReadThree(a.value, b.value, c.value, c.rest))
  }

  /** Hours, minutes and perhaps seconds of offset, to the end of the text. */
  function TakeSize(s: string): Option<ReadThree> {
    match Take(2, s)
    case None => None
    case Some(h) =>
      match TakeAfter(':', 2, h.rest)
      case None => None
      case Some(m) =>
        if m.rest == "" then Some(ReadThree(h.value, m.value, 0, ""))
        else
          match TakeAfter(':', 2, m.rest)
          case None => None
          case Some(c) => Some(ReadThree(h.value, m.value, c.value, c.rest))
  }

  function ReadZone(s: string): Option<int> {
    if s == "" || s[0] !in {'+', '-'} then None
    else
      match TakeSize(s[1..])
      case None => None
      case Some(z) =>
        var size := 3600 * z.first + 60 * z.second + z.third;
        if z.rest != "" || z.second >= 60 || z.third >= 60 || size >= 86400 then None
        else Some(if s[0] == '-' then -size else size)
  }

  /** A date and a time of day that exist. */
  function ReadWall(date: string, time: string): Option<Wall> {
    match TakeThree(4, '-', date)
    case None => None
    case Some(d) =>
      match TakeThree(2, ':', time)
      case None => None
      case Some(t) =>
        var w := Wall(d.first, d.second, d.third, t.first, t.second, t.third, 0);
        if d.rest == "" && t.rest == "" && ValidWall(w) then Some(w) else None
  }

  /** parse */
  function Parse(s: string): Option<Moment> {
    if |s| < 20 || s[10] != 'T' then None
    else
      match ReadWall(s[..10], s[11..19])
      case None => None
      case Some(w) =>
        match ReadZone(s[19..])
        case None => None
        case Some(offset) => Some(Moment(w, offset))
  }

  /** Where the first field ends: at the mark, or with the text. */
  function FieldEnd(mark: char, s: string): (n: nat)
    ensures n <= |s|
  {
    if s == "" || s[0] == mark then 0 else 1 + FieldEnd(mark, s[1..])
  }

  function PadField(field: string): string {
    if |field| == 1 then "0" + field else field
  }

  /** strptime takes one digit where two are written. */
  function Padded(mark: char, s: string): string
    decreases |s|
  {
    var n := FieldEnd(mark, s);
    if n == |s| then PadField(s) else PadField(s[..n]) + ([mark] + Padded(mark, s[n + 1..]))
  }

  /** combine; the zone says how far ahead of UTC each wall clock is */
  function Combine(date: string, time: string, zone: Wall -> int): Option<Moment> {
    match ReadWall(Padded('-', date), Padded(':', time))
    case None => None
    case Some(w) => Some(Moment(w, zone(w)))
  }

  // --- printing and reading undo each other -------------------------------------------------------

  function Power10(k: nat): nat {
    if k == 0 then 1 else 10 * Power10(k - 1)
  }

  lemma {:induction false} NumberUndoesDigits(width: nat, n: nat)
    requires n < Power10(width)
    ensures Number(Digits(width, n)) == Some(n)
  {
    if width == 0 {
    } else {
      var s := Digits(width, n);
      assert s[..width - 1] == Digits(width - 1, n / 10);
      NumberUndoesDigits(width - 1, n / 10);
      assert ValueOf(Digit(n % 10)) == n % 10;
    }
  }

  lemma TakeUndoesDigits(width: nat, n: nat, rest: string)
    requires n < Power10(width)
    ensures Take(width, Digits(width, n) + rest) == Some(Read(n, rest))
  {
    var s := Digits(width, n) + rest;
    assert s[..width] == Digits(width, n) && s[width..] == rest;
    NumberUndoesDigits(width, n);
  }

  lemma TakeAfterUndoesDigits(mark: char, n: nat, rest: string)
    requires n < 100
    ensures TakeAfter(mark, 2, [mark] + (Digits(2, n) + rest)) == Some(Read(n, rest))
  {
    var s := [mark] + (Digits(2, n) + rest);
    assert s[1..] == Digits(2, n) + rest;
    assert Power10(2) == 100;
    TakeUndoesDigits(2, n, rest);
  }

  lemma ThreeUndone(width: nat, mark: char, a: nat, b: nat, c: nat)
    requires a < Power10(width) && b < 100 && c < 100
    ensures TakeThree(width, mark, Digits(width, a) + ([mark] + (Digits(2, b) + ([mark] + Digits(2, c)))))
         == Some(ReadThree(a, b, c, ""))
  {
    TakeUndoesDigits(width, a, [mark] + (Digits(2, b) + ([mark] + Digits(2, c))));
    TakeAfterUndoesDigits(mark, b, [mark] + Digits(2, c));
    TakeAfterUndoesDigits(mark, c, "");
    assert Digits(2, c) + "" == Digits(2, c);
  }

  lemma DateAndTimeUndone(w: Wall)
    requires ValidWall(w)
    ensures ReadWall(DateText(w), TimeText(w)) == Some(w.(micro := 0))
  {
    assert Power10(4) == 10000 && Power10(2) == 100;
    ThreeUndone(4, '-', w.year, w.month, w.day);
    ThreeUndone(2, ':', w.hour, w.minute, w.second);
  }

  lemma SizeUndone(h: nat, m: nat, seconds: nat)
    requires h < 100 && m < 100 && seconds < 100
    ensures TakeSize(SizeText(h, m, seconds)) == Some(ReadThree(h, m, seconds, ""))
  {
    assert Power10(2) == 100;
    TakeUndoesDigits(2, h, ":" + (Digits(2, m) + OddSeconds(seconds)));
    TakeAfterUndoesDigits(':', m, OddSeconds(seconds));
    if seconds != 0 {
      TakeAfterUndoesDigits(':', seconds, "");
      assert Digits(2, seconds) + "" == Digits(2, seconds);
    }
  }

  lemma SizeParts(size: nat)
    requires size < 86400
    ensures 3600 * (size / 3600) + 60 * (size / 60 % 60) + size % 60 == size
    ensures size / 3600 < 24
  {
  }

  lemma ZoneUndone(offset: int)
    requires ValidOffset(offset)
    ensures ReadZone(ZoneText(offset)) == Some(offset)
  {
    var size := Size(offset);
    var h, m, c := size / 3600, size / 60 % 60, size % 60;
    SizeParts(size);
    SizeUndone(h, m, c);
    SignedZoneUndone(if offset < 0 then '-' else '+', SizeText(h, m, c), ReadThree(h, m, c, ""));
  }

  lemma SignedZoneUndone(sign: char, text: string, z: ReadThree)
    requires sign in {'+', '-'} && TakeSize(text) == Some(z) && z.rest == ""
    requires z.second < 60 && z.third < 60 && 3600 * z.first + 60 * z.second + z.third < 86400
    ensures var size := 3600 * z.first + 60 * z.second + z.third;
            ReadZone([sign] + text) == Some(if sign == '-' then -size else size)
  {
    assert ([sign] + text)[1..] == text;
  }

  /** Reading a printed stamp gives back the same moment, to the second. */
  lemma ParseUndoesStamp(m: Moment)
    requires Valid(m)
    ensures Parse(Stamp(m)) == Some(m.(wall := m.wall.(micro := 0)))
    ensures Seconds(Parse(Stamp(m)).value) == Seconds(m)
  {
    var s := Stamp(m);
    assert s[..10] == DateText(m.wall) && s[10] == 'T';
    assert s[11..19] == TimeText(m.wall) && s[19..] == ZoneText(m.offset);
    DateAndTimeUndone(m.wall);
    ZoneUndone(m.offset);
  }

  /** Whatever is read is a real moment: no 30 February, no 25 o'clock. */
  lemma OnlyRealMomentsAreRead(s: string)
    ensures Parse(s).Some? ==> Valid(Parse(s).value)
  {
    if |s| >= 20 && ReadWall(s[..10], s[11..19]).Some? {
      assert ValidWall(ReadWall(s[..10], s[11..19]).value);
    }
  }

  lemma {:induction false} DigitsUndoNumber(s: string)
    requires Number(s).Some?
    ensures Number(s).value < Power10(|s|) && Digits(|s|, Number(s).value) == s
  {
    if s == "" {
    } else {
      DigitsUndoNumber(s[..|s| - 1]);
      assert s == s[..|s| - 1] + [s[|s| - 1]];
    }
  }

  lemma TakenIsDigits(width: nat, s: string)
    requires Take(width, s).Some?
    ensures s == Digits(width, Take(width, s).value.value) + Take(width, s).value.rest
  {
    DigitsUndoNumber(s[..width]);
    assert s == s[..width] + s[width..];
  }

  lemma TakenAfterIsDigits(mark: char, s: string)
    requires TakeAfter(mark, 2, s).Some?
    ensures var r := TakeAfter(mark, 2, s).value; s == [mark] + (Digits(2, r.value) + r.rest)
  {
    TakenIsDigits(2, s[1..]);
    assert s == [mark] + s[1..];
  }

  lemma ThreeIsDigits(width: nat, mark: char, s: string)
    requires TakeThree(width, mark, s).Some? && TakeThree(width, mark, s).value.rest == ""
    ensures var r := TakeThree(width, mark, s).value;
            s == Digits(width, r.first) + ([mark] + (Digits(2, r.second) + ([mark] + Digits(2, r.third))))
  {
    TakenIsDigits(width, s);
    var a := Take(width, s).value;
    TakenAfterIsDigits(mark, a.rest);
    var b := TakeAfter(mark, 2, a.rest).value;
    TakenAfterIsDigits(mark, b.rest);
    var c := TakeAfter(mark, 2, b.rest).value;
    assert Digits(2, c.value) + "" == Digits(2, c.value);
  }

  /** A row stored without an offset keeps its wall clock when it is given one: the new text is
      the old date, a T, the old time and the offset, one-digit fields written with two. */
  lemma CombineKeepsTheWallClock(date: string, time: string, zone: Wall -> int)
    requires Combine(date, time, zone).Some?
    ensures var m := Combine(date, time, zone).value;
            && Stamp(m) == Padded('-', date) + ("T" + (Padded(':', time) + ZoneText(m.offset)))
            && LocalDate(m) == Padded('-', date)
  {
    ThreeIsDigits(4, '-', Padded('-', date));
    ThreeIsDigits(2, ':', Padded(':', time));
  }

  lemma {:induction false} FieldOnce(mark: char, field: string, rest: string)
    requires mark !in field
    ensures FieldEnd(mark, field) == |field| && FieldEnd(mark, field + ([mark] + rest)) == |field|
  {
    if field == "" {
      assert field + ([mark] + rest) == [mark] + rest;
    } else {
      assert field[0] in field && forall c :: c in field[1..] ==> c in field;
      FieldOnce(mark, field[1..], rest);
      assert (field + ([mark] + rest))[1..] == field[1..] + ([mark] + rest);
    }
  }

  lemma PaddedOnce(mark: char, field: string, rest: string)
    requires mark !in field
    ensures Padded(mark, field + ([mark] + rest)) == PadField(field) + ([mark] + Padded(mark, rest))
    ensures Padded(mark, field) == PadField(field)
  {
    var s := field + ([mark] + rest);
    FieldOnce(mark, field, rest);
    assert s[..|field|] == field && s[|field| + 1..] == rest;
  }

  lemma PaddedFields(mark: char, p: string, q: string, r: string)
    requires mark !in p && mark !in q && mark !in r
    ensures Padded(mark, p + ([mark] + (q + ([mark] + r))))
         == PadField(p) + ([mark] + (PadField(q) + ([mark] + PadField(r))))
  {
    PaddedOnce(mark, p, q + ([mark] + r));
    PaddedOnce(mark, q, r);
    PaddedOnce(mark, r, "");
  }

  /** A number below 100 as it may be written: with one digit, if it has only one, or with two. */
  function Loose(n: nat, short: bool): string {
    if short && n < 10 then [Digit(n)] else Digits(2, n)
  }

  lemma LooseIsPadded(n: nat, short: bool, mark: char)
    requires n < 100 && !IsDigit(mark)
    ensures PadField(Loose(n, short)) == Digits(2, n) && mark !in Loose(n, short)
  {
    assert Digits(2, n) == [Digit(n / 10 % 10), Digit(n % 10)];
  }

  lemma {:induction false} NoMarkInDigits(width: nat, n: nat, mark: char)
    requires !IsDigit(mark)
    ensures mark !in Digits(width, n)
  {
    if width == 0 {
    } else {
      NoMarkInDigits(width - 1, n / 10, mark);
    }
  }

  /** Every way of writing a date and a time, leading zeros or not, is read as that wall clock. */
  lemma LooseFieldsAreRead(w: Wall, zone: Wall -> int, a: bool, b: bool, c: bool, d: bool, e: bool)
    requires ValidWall(w) && w.micro == 0
    ensures Combine(Digits(4, w.year) + ("-" + (Loose(w.month, a) + ("-" + Loose(w.day, b)))),
                    Loose(w.hour, c) + (":" + (Loose(w.minute, d) + (":" + Loose(w.second, e)))), zone)
         == Some(Moment(w, zone(w)))
  {
    NoMarkInDigits(4, w.year, '-');
    LooseIsPadded(w.month, a, '-');
    LooseIsPadded(w.day, b, '-');
    PaddedFields('-', Digits(4, w.year), Loose(w.month, a), Loose(w.day, b));
    LooseIsPadded(w.hour, c, ':');
    LooseIsPadded(w.minute, d, ':');
    LooseIsPadded(w.second, e, ':');
    PaddedFields(':', Loose(w.hour, c), Loose(w.minute, d), Loose(w.second, e));
    DateAndTimeUndone(w);
  }

  /** A remark: a stamp begins with its own local date. */
  lemma StampStartsWithItsDate(m: Moment)
    ensures Stamp(m)[..10] == LocalDate(m)
  {
  }

  lemma YearLooksLikeThis()
    ensures Digits(4, 2026) == "2026"
  {
    assert Digits(2, 20) == "20" && Digits(3, 202) == "202";
  }

  lemma DateLooksLikeThis()
    ensures DateText(Wall(2026, 8, 12, 9, 15, 42, 0)) == "2026-08-12"
  {
    YearLooksLikeThis();
    assert Digits(2, 8) == "08" && Digits(2, 12) == "12";
  }

  lemma TimeLooksLikeThis()
    ensures TimeText(Wall(2026, 8, 12, 9, 15, 42, 0)) == "09:15:42"
  {
    assert Digits(2, 9) == "09" && Digits(2, 15) == "15" && Digits(2, 42) == "42";
  }

  lemma EastLooksLikeThis()
    ensures ZoneText(18000) == "+05:00"
  {
    assert Digits(2, 5) == "05" && Digits(2, 0) == "00";
  }

  /** West of Greenwich there is a minus. */
  lemma WestLooksLikeThis()
    ensures ZoneText(-12600) == "-03:30"
  {
    assert Digits(2, 3) == "03" && Digits(2, 30) == "30";
  }

  /** Odd seconds of offset are written out. */
  lemma OddOffsetLooksLikeThis()
    ensures ZoneText(-75) == "-00:01:15"
  {
    assert Digits(2, 0) == "00" && Digits(2, 1) == "01" && Digits(2, 15) == "15";
  }

  /** The form that is promised: 2026-08-12T09:15:42+05:00. */
  lemma AStampLooksLikeThis()
    ensures Stamp(Moment(Wall(2026, 8, 12, 9, 15, 42, 0), 18000)) == "2026-08-12" + ("T" + ("09:15:42" + "+05:00"))
  {
    DateLooksLikeThis();
    TimeLooksLikeThis();
    EastLooksLikeThis();
  }

  // --- string order is time order --------------------------------------------------------------------

  lemma {:induction false} DigitsInOrder(width: nat, a: nat, b: nat)
    requires a < Power10(width) && b < Power10(width)
    ensures Before(Digits(width, a), Digits(width, b)) <==> a < b
    ensures Digits(width, a) == Digits(width, b) <==> a == b
  {
    if width == 0 {
    } else {
      DigitsInOrder(width - 1, a / 10, b / 10);
      StartDecides(Digits(width - 1, a / 10), Digits(width - 1, b / 10), [Digit(a % 10)], [Digit(b % 10)]);
      assert [Digit(a % 10)][1..] == "" && [Digit(b % 10)][1..] == "";
      NumberUndoesDigits(width, a);
      NumberUndoesDigits(width, b);
    }
  }

  predicate ThreeBefore(a: nat, b: nat, c: nat, a': nat, b': nat, c': nat) {
    a < a' || (a == a' && (b < b' || (b == b' && c < c')))
  }

  /** Three fields of fixed width, each in the order of its number, are in the order of the three. */
  lemma ThreeDecide(mark: string, p: string, q: string, r: string, p': string, q': string, r': string,
                    a: nat, b: nat, c: nat, a': nat, b': nat, c': nat)
    requires |p| == |p'| && |q| == |q'|
    requires Agrees(p, p', a, a') && Agrees(q, q', b, b') && Agrees(r, r', c, c')
    ensures Before(p + (mark + (q + (mark + r))), p' + (mark + (q' + (mark + r'))))
       <==> ThreeBefore(a, b, c, a', b', c')
  {
    StartDecides(p, p', mark + (q + (mark + r)), mark + (q' + (mark + r')));
    CommonStart(mark, q + (mark + r), q' + (mark + r'));
    StartDecides(q, q', mark + r, mark + r');
    CommonStart(mark, r, r');
  }

  predicate Agrees(p: string, q: string, a: nat, b: nat) {
    (Before(p, q) <==> a < b) && (p == q <==> a == b)
  }

  predicate DayBefore(a: Wall, b: Wall) {
    ThreeBefore(a.year, a.month, a.day, b.year, b.month, b.day)
  }

  predicate SameDay(a: Wall, b: Wall) {
    a.year == b.year && a.month == b.month && a.day == b.day
  }

  lemma TimeTextInOrder(a: Wall, b: Wall)
    requires ValidWall(a) && ValidWall(b)
    ensures Before(TimeText(a), TimeText(b)) <==> SecondOfDay(a) < SecondOfDay(b)
  {
    assert Power10(2) == 100;
    DigitsInOrder(2, a.hour, b.hour);
    DigitsInOrder(2, a.minute, b.minute);
    DigitsInOrder(2, a.second, b.second);
    ThreeDecide(":", Digits(2, a.hour), Digits(2, a.minute), Digits(2, a.second),
                Digits(2, b.hour), Digits(2, b.minute), Digits(2, b.second),
                a.hour, a.minute, a.second, b.hour, b.minute, b.second);
  }

  lemma DateTextInOrder(a: Wall, b: Wall)
    requires ValidWall(a) && ValidWall(b)
    ensures Before(DateText(a), DateText(b)) <==> DayBefore(a, b)
  {
    assert Power10(4) == 10000 && Power10(2) == 100;
    DigitsInOrder(4, a.year, b.year);
    DigitsInOrder(2, a.month, b.month);
    DigitsInOrder(2, a.day, b.day);
    ThreeDecide("-", Digits(4, a.year), Digits(2, a.month), Digits(2, a.day),
                Digits(4, b.year), Digits(2, b.month), Digits(2, b.day),
                a.year, a.month, a.day, b.year, b.month, b.day);
  }

  lemma SameText(a: Wall, b: Wall)
    requires ValidWall(a) && ValidWall(b)
    ensures DateText(a) == DateText(b) <==> SameDay(a, b)
    ensures TimeText(a) == TimeText(b) <==> SecondOfDay(a) == SecondOfDay(b)
  {
    DateTextInOrder(a, b);
    DateTextInOrder(b, a);
    Trichotomy(DateText(a), DateText(b));
    TimeTextInOrder(a, b);
    TimeTextInOrder(b, a);
    Trichotomy(TimeText(a), TimeText(b));
  }

  // --- the calendar ------------------------------------------------------------------------------

  lemma QuotientSteps(n: nat)
    requires n >= 1
    ensures n / 4 == (n - 1) / 4 + if n % 4 == 0 then 1 else 0
    ensures n / 100 == (n - 1) / 100 + if n % 100 == 0 then 1 else 0
    ensures n / 400 == (n - 1) / 400 + if n % 400 == 0 then 1 else 0
  {
  }

  lemma LeapSteps(n: nat)
    ensures Leap(n) <==> n % 4 == 0 && (n % 100 != 0 || n % 400 == 0)
    ensures n % 400 == 0 ==> n % 100 == 0
    ensures n % 100 == 0 ==> n % 4 == 0
  {
    if n % 100 == 0 {
      assert n == 4 * (25 * (n / 100));
    }
    if n % 400 == 0 {
      assert n == 100 * (4 * (n / 400));
    }
  }

  lemma YearLength(year: nat)
    requires year >= 1
    ensures DaysBeforeYear(year + 1) == DaysBeforeYear(year) + if Leap(year) then 366 else 365
  {
    QuotientSteps(year);
    LeapSteps(year);
  }

  lemma {:induction false} YearsInOrder(a: nat, b: nat)
    requires 1 <= a < b
    ensures DaysBeforeYear(a + 1) <= DaysBeforeYear(b)
  {
    if a + 1 == b {
    } else {
      YearsInOrder(a, b - 1);
      YearLength(b - 1);
    }
  }

  lemma {:induction false} MonthsInOrder(year: nat, a: nat, b: nat)
    requires 1 <= a < b <= 13
    ensures DaysBeforeMonth(year, a) + DaysIn(year, a) <= DaysBeforeMonth(year, b)
  {
    if a + 1 == b {
    } else {
      MonthsInOrder(year, a, b - 1);
    }
  }

  lemma YearHoldsItsMonths(year: nat)
    requires year >= 1
    ensures DaysBeforeMonth(year, 13) == if Leap(year) then 366 else 365
  {
    var feb := DaysIn(year, 2);
    assert DaysBeforeMonth(year, 2) == 31;
    assert DaysBeforeMonth(year, 3) == 31 + feb;
    assert DaysBeforeMonth(year, 5) == 92 + feb;
    assert DaysBeforeMonth(year, 7) == 153 + feb;
    assert DaysBeforeMonth(year, 9) == 215 + feb;
    assert DaysBeforeMonth(year, 11) == 276 + feb;
  }

  /** The calendar, one day at a time. */
  function Tomorrow(w: Wall): Wall {
    if w.day < DaysIn(w.year, w.month) then w.(day := w.day + 1)
    else if w.month < 12 then w.(month := w.month + 1, day := 1)
    else w.(year := w.year + 1, month := 1, day := 1)
  }

  /** Day numbers count days: each day's is one more than the last, from 1 January of year 1. */
  lemma DayNumbersCountDays(w: Wall)
    requires ValidWall(w)
    ensures WallSeconds(Tomorrow(w)) == WallSeconds(w) + 86400
    ensures DayNumber(1, 1, 1) == 1
  {
    if w.day == DaysIn(w.year, w.month) && w.month == 12 {
      YearHoldsItsMonths(w.year);
      YearLength(w.year);
    }
  }

  lemma DaysInOrder(a: Wall, b: Wall)
    requires ValidWall(a) && ValidWall(b) && DayBefore(a, b)
    ensures DayNumber(a.year, a.month, a.day) < DayNumber(b.year, b.month, b.day)
  {
    if a.year < b.year {
      MonthsInOrder(a.year, a.month, 13);
      YearHoldsItsMonths(a.year);
      YearLength(a.year);
      YearsInOrder(a.year, b.year);
    } else if a.month < b.month {
      MonthsInOrder(a.year, a.month, b.month);
    }
  }

  /** The day number is the calendar's order. */
  lemma WallsInOrder(a: Wall, b: Wall)
    requires ValidWall(a) && ValidWall(b)
    ensures WallSeconds(a) < WallSeconds(b)
       <==> DayBefore(a, b) || (SameDay(a, b) && SecondOfDay(a) < SecondOfDay(b))
  {
    assert SecondOfDay(a) < 86400 && SecondOfDay(b) < 86400;
    if DayBefore(a, b) {
      DaysInOrder(a, b);
    } else if DayBefore(b, a) {
      DaysInOrder(b, a);
    }
  }

  /** Stored text sorts as the wall clocks do; only equal wall clocks look to the offset. */
  lemma TextSortsByWallClock(a: Moment, b: Moment)
    requires Valid(a) && Valid(b)
    ensures Before(Stamp(a), Stamp(b))
       <==> || WallSeconds(a.wall) < WallSeconds(b.wall)
            || (WallSeconds(a.wall) == WallSeconds(b.wall) && Before(ZoneText(a.offset), ZoneText(b.offset)))
  {
    var x, y := TimeText(a.wall) + ZoneText(a.offset), TimeText(b.wall) + ZoneText(b.offset);
    StartDecides(DateText(a.wall), DateText(b.wall), "T" + x, "T" + y);
    CommonStart("T", x, y);
    StartDecides(TimeText(a.wall), TimeText(b.wall), ZoneText(a.offset), ZoneText(b.offset));
    DateTextInOrder(a.wall, b.wall);
    TimeTextInOrder(a.wall, b.wall);
    SameText(a.wall, b.wall);
    WallsInOrder(a.wall, b.wall);
    WallsInOrder(b.wall, a.wall);
  }

  // --- when string order is time order ------------------------------------------------------------

  lemma OddSecondsInOrder(c: nat, c': nat)
    requires c < 100 && c' < 100
    ensures Agrees(OddSeconds(c), OddSeconds(c'), c, c')
  {
    assert Power10(2) == 100;
    DigitsInOrder(2, c, c');
    if c != 0 && c' != 0 {
      CommonStart(":", Digits(2, c), Digits(2, c'));
      assert OddSeconds(c)[1..] == Digits(2, c) && OddSeconds(c')[1..] == Digits(2, c');
    }
  }

  /** Two fields of fixed width and whatever follows them, each in the order of its number. */
  lemma TwoAndMoreDecide(mark: string, p: string, q: string, r: string, p': string, q': string, r': string,
                         a: nat, b: nat, c: nat, a': nat, b': nat, c': nat)
    requires |p| == |p'| && |q| == |q'|
    requires Agrees(p, p', a, a') && Agrees(q, q', b, b') && Agrees(r, r', c, c')
    ensures Before(p + (mark + (q + r)), p' + (mark + (q' + r'))) <==> ThreeBefore(a, b, c, a', b', c')
  {
    StartDecides(p, p', mark + (q + r), mark + (q' + r'));
    CommonStart(mark, q + r, q' + r');
    StartDecides(q, q', r, r');
  }

  lemma SizesInOrder(h: nat, m: nat, c: nat, h': nat, m': nat, c': nat)
    requires h < 100 && m < 100 && c < 100 && h' < 100 && m' < 100 && c' < 100
    ensures Before(SizeText(h, m, c), SizeText(h', m', c')) <==> ThreeBefore(h, m, c, h', m', c')
  {
    assert Power10(2) == 100;
    DigitsInOrder(2, h, h');
    DigitsInOrder(2, m, m');
    OddSecondsInOrder(c, c');
    TwoAndMoreDecide(":", Digits(2, h), Digits(2, m), OddSeconds(c), Digits(2, h'), Digits(2, m'), OddSeconds(c'),
                     h, m, c, h', m', c');
  }

  lemma SizeOrder(x: nat, y: nat)
    requires x < 86400 && y < 86400
    ensures ThreeBefore(x / 3600, x / 60 % 60, x % 60, y / 3600, y / 60 % 60, y % 60) <==> x < y
  {
    SizeParts(x);
    SizeParts(y);
  }

  /** A plus sorts before a minus, and a small offset before a large one of the same sign. */
  predicate ZoneBefore(x: int, y: int) {
    if x >= 0 then y < 0 || x < y else y < x
  }

  lemma SignsDecide(sign: char, text: string, sign': char, text': string)
    ensures Before([sign] + text, [sign'] + text') <==> sign < sign' || (sign == sign' && Before(text, text'))
  {
    assert ([sign] + text)[1..] == text && ([sign'] + text')[1..] == text';
  }

  lemma ZoneTextInOrder(x: int, y: int)
    requires ValidOffset(x) && ValidOffset(y)
    ensures Before(ZoneText(x), ZoneText(y)) <==> ZoneBefore(x, y)
  {
    var a, b := Size(x), Size(y);
    SizeParts(a);
    SizeParts(b);
    SizesInOrder(a / 3600, a / 60 % 60, a % 60, b / 3600, b / 60 % 60, b % 60);
    SizeOrder(a, b);
    SignsDecide(if x < 0 then '-' else '+', SizeText(a / 3600, a / 60 % 60, a % 60),
                if y < 0 then '-' else '+', SizeText(b / 3600, b / 60 % 60, b % 60));
  }

  /** How much later b is than a on the clock faces, and by how much its offset is ahead. */
  function Gap(a: Moment, b: Moment): int {
    WallSeconds(b.wall) - WallSeconds(a.wall)
  }

  function Change(a: Moment, b: Moment): int {
    b.offset - a.offset
  }

  /** The faces differ by less than the offsets do, and in the same direction; at the two ends the
      text of the offsets has the last word. */
  predicate InTheBand(gap: int, change: int, zoneFirst: bool) {
    || 0 < gap <= change
    || change < gap < 0
    || (gap == 0 && change > 0 && zoneFirst)
    || (gap == 0 && change < 0 && !zoneFirst)
  }

  /** String order and time order agree on two stamps exactly outside that band. */
  lemma StringOrderIsTimeOrderExactlyWhen(a: Moment, b: Moment)
    requires Valid(a) && Valid(b)
    ensures (Before(Stamp(a), Stamp(b)) <==> Seconds(a) < Seconds(b))
       <==> !InTheBand(Gap(a, b), Change(a, b), ZoneBefore(a.offset, b.offset))
  {
    TextSortsByWallClock(a, b);
    ZoneTextInOrder(a.offset, b.offset);
    OrdersAgree(WallSeconds(a.wall), a.offset, WallSeconds(b.wall), b.offset);
  }

  lemma OrdersAgree(x: int, p: int, y: int, q: int)
    ensures ((x < y || (x == y && ZoneBefore(p, q))) <==> x - p < y - q)
       <==> !InTheBand(y - x, q - p, ZoneBefore(p, q))
  {
  }

  /** So with one offset, string order is time order: there is no band. */
  lemma StringOrderIsTimeOrder(a: Moment, b: Moment)
    requires Valid(a) && Valid(b) && a.offset == b.offset
    ensures Before(Stamp(a), Stamp(b)) <==> Seconds(a) < Seconds(b)
  {
    StringOrderIsTimeOrderExactlyWhen(a, b);
  }

  /** When the clocks go back it is not: these two are twenty minutes apart, and sort the other
      way round. */
  lemma WhenTheClocksGoBack()
    ensures var early := Moment(Wall(2026, 10, 25, 1, 50, 0, 0), 7200);
            var late := Moment(Wall(2026, 10, 25, 1, 10, 0, 0), 3600);
            Seconds(late) == Seconds(early) + 1200 && Before(Stamp(late), Stamp(early))
  {
    var early := Moment(Wall(2026, 10, 25, 1, 50, 0, 0), 7200);
    var late := Moment(Wall(2026, 10, 25, 1, 10, 0, 0), 3600);
    TextSortsByWallClock(late, early);
  }

  ghost predicate NotBefore(a: Moment, b: Moment) {
    !Before(Stamp(a), Stamp(b))
  }

  /** A day's rows, newest arrival first as text. */
  ghost predicate NewestTextFirst(day: seq<Moment>) {
    forall i, j :: 0 <= i < j < |day| ==> NotBefore(day[i], day[j])
  }

  lemma NotBeforeIsNotEarlier(a: Moment, b: Moment)
    requires Valid(a) && Valid(b) && a.offset == b.offset && (a == b || NotBefore(a, b))
    ensures !Earlier(a, b)
  {
    if a != b {
      StringOrderIsTimeOrder(a, b);
    }
  }

  predicate Earlier(a: Moment, b: Moment) {
    Seconds(a) < Seconds(b)
  }

  /** The last row of a day spent at one offset is the earliest arrival: none is before it. */
  lemma LastRowIsTheEarliest(day: seq<Moment>, k: nat)
    requires k < |day| && NewestTextFirst(day)
    requires forall i :: 0 <= i < |day| ==> Valid(day[i]) && day[i].offset == day[0].offset
    ensures !Earlier(day[k], day[|day| - 1])
  {
    assert k == |day| - 1 || NotBefore(day[k], day[|day| - 1]);
    NotBeforeIsNotEarlier(day[k], day[|day| - 1]);
  }
}
