/** How long somebody stayed, in words (duration in attendance/formatting.py). */
module Duration {
  import opened Options
  import opened Clock

  /** MISSING, an em dash */
  const MISSING: string := "\U{2014}"

  /** A number as people write it. */
  function Decimal(n: nat): (s: string)
    ensures s != ""
  {
    if n < 10 then [Digit(n)] else Decimal(n / 10) + [Digit(n % 10)]
  }

  function Spoken(total: nat): string {
    var hours, minutes := total / 60, total % 60;
    if hours != 0 && minutes != 0 then Decimal(hours) + ("h " + (Decimal(minutes) + "m"))
    else if hours != 0 then Decimal(hours) + "h"
    else Decimal(minutes) + "m"
  }

  /** A stored time may still be one without an offset. */
  datatype Stored = Aware(moment: Moment) | Naive(wall: Wall)

  function ParseStored(value: Option<string>): Option<Stored> {
    if value == None then None
    else
      match Parse(value.value)
      case Some(moment) => Some(Aware(moment))
      case None => ParseNaive(value.value)
  }

  function ParseNaive(s: string): Option<Stored> {
    if |s| != 19 || s[10] != 'T' then None
    else
      match ReadWall(s[..10], s[11..])
      case None => None
      case Some(w) => Some(Naive(w))
  }

  /** What is shown, or Python refusing to subtract a time with an offset from one without. */
  datatype Answer = Says(text: string) | TypeError

  /** Whole minutes from one instant to another, rounded down. */
  function Minutes(from: int, to: int): int {
    (to - from) / 60
  }

  function Shown(minutes: int): string {
    if minutes < 0 then MISSING else Spoken(minutes)
  }

  /** duration */
  function Between(timeIn: Option<string>, timeOut: Option<string>): Answer {
    match (ParseStored(timeIn), ParseStored(timeOut))
    case (Some(Aware(start)), Some(Aware(end))) => Says(Shown(Minutes(Seconds(start), Seconds(end))))
    case (Some(Naive(start)), Some(Naive(end))) => Says(Shown(Minutes(WallSeconds(start), WallSeconds(end))))
    case (Some(_), Some(_)) => TypeError
    case _ => Says(MISSING)
  }

  // --- the words give the minutes back -----------------------------------------------------------

  predicate AllDigits(s: string) {
    forall c :: c in s ==> IsDigit(c)
  }

  lemma {:induction false} DecimalIsDigits(n: nat)
    ensures AllDigits(Decimal(n)) && Number(Decimal(n)) == Some(n)
  {
    if n >= 10 {
      DecimalIsDigits(n / 10);
      assert Decimal(n)[..|Decimal(n)| - 1] == Decimal(n / 10);
    } else {
      assert Decimal(n)[..0] == "";
    }
  }

  /** The first character that is not a digit ends the number. */
  lemma {:induction false} NumberEnds(d: string, e: string, more: string, rest: string)
    requires AllDigits(d) && AllDigits(e) && d + more == e + rest
    requires more != "" && rest != "" && !IsDigit(more[0]) && !IsDigit(rest[0])
    ensures d == e && more == rest
  {
    if d == "" || e == "" {
      assert (d + more)[0] == (e + rest)[0];
      assert d == "" && e == "";
      assert d + more == more && e + rest == rest;
    } else {
      assert (d + more)[0] == d[0] && (e + rest)[0] == e[0];
      assert (d + more)[1..] == d[1..] + more && (e + rest)[1..] == e[1..] + rest;
      NumberEnds(d[1..], e[1..], more, rest);
      assert d == [d[0]] + d[1..] && e == [e[0]] + e[1..];
    }
  }

  lemma SameDecimalSameRest(a: nat, b: nat, more: string, rest: string)
    requires Decimal(a) + more == Decimal(b) + rest
    requires more != "" && rest != "" && !IsDigit(more[0]) && !IsDigit(rest[0])
    ensures a == b && more == rest
  {
    DecimalIsDigits(a);
    DecimalIsDigits(b);
    NumberEnds(Decimal(a), Decimal(b), more, rest);
  }

  /** What follows the first number, which is the hours if there are any. */
  function Leading(total: nat): nat {
    if total / 60 != 0 then total / 60 else total % 60
  }

  function Following(total: nat): string {
    if total / 60 == 0 then "m"
    else if total % 60 == 0 then "h"
    else "h " + (Decimal(total % 60) + "m")
  }

  /** Where the leading number ends. */
  function NumberEnd(s: string): (n: nat)
    ensures n <= |s|
  {
    if s == "" || !IsDigit(s[0]) then 0 else 1 + NumberEnd(s[1..])
  }

  /** How a person reads it: hours before an h, minutes before an m. */
  function ReadWords(s: string): Option<nat> {
    var n := NumberEnd(s);
    match Number(s[..n])
    case None => None
    case Some(first) =>
      var rest := s[n..];
      if rest == "m" then Some(first)
      else if rest == "h" then Some(60 * first)
      else if |rest| > 2 && rest[..2] == "h " && rest[|rest| - 1] == 'm' then
        (match Number(rest[2..|rest| - 1])
         case None => None
         case Some(second) => if second < 60 then Some(60 * first + second) else None)
      else None
  }

  lemma {:induction false} NumberEndsThere(d: string, more: string)
    requires AllDigits(d) && more != "" && !IsDigit(more[0])
    ensures NumberEnd(d + more) == |d|
  {
    if d == "" {
      assert d + more == more;
    } else {
      assert d[0] in d && forall c :: c in d[1..] ==> c in d;
      NumberEndsThere(d[1..], more);
      assert (d + more)[1..] == d[1..] + more;
    }
  }

  /** Read back, the words give the minutes they were made from. */
  lemma WordsSayTheMinutes(total: nat)
    ensures ReadWords(Spoken(total)) == Some(total)
  {
    var d, more := Decimal(Leading(total)), Following(total);
    DecimalIsDigits(Leading(total));
    DecimalIsDigits(total % 60);
    assert Spoken(total) == d + more;
    NumberEndsThere(d, more);
    assert Spoken(total)[..|d|] == d && Spoken(total)[|d|..] == more;
    if total / 60 != 0 && total % 60 != 0 {
      assert more[..2] == "h " && more[2..|more| - 1] == Decimal(total % 60);
    }
  }

  /** No number is written with a zero in front. */
  lemma {:induction false} NoLeadingZero(n: nat)
    requires n > 0
    ensures Decimal(n)[0] != '0'
  {
    if n < 10 {
    } else {
      NoLeadingZero(n / 10);
    }
  }

  /** The minutes are whole ones, rounded down, before or after. */
  lemma MinutesAreWhole(from: int, to: int)
    ensures 60 * Minutes(from, to) <= to - from < 60 * Minutes(from, to) + 60
  {
  }

  /** Different whole minutes are always told apart. */
  lemma SpokenIsUnambiguous(a: nat, b: nat)
    requires Spoken(a) == Spoken(b)
    ensures a == b
  {
    assert Spoken(a) == Decimal(Leading(a)) + Following(a);
    assert Spoken(b) == Decimal(Leading(b)) + Following(b);
    SameDecimalSameRest(Leading(a), Leading(b), Following(a), Following(b));
    if a / 60 != 0 && b / 60 != 0 && a % 60 != 0 && b % 60 != 0 {
      assert Following(a)[2..] == Decimal(a % 60) + "m" && Following(b)[2..] == Decimal(b % 60) + "m";
      SameDecimalSameRest(a % 60, b % 60, "m", "m");
    } else if a / 60 != 0 && b / 60 != 0 {
      assert |Following(a)| == |Following(b)|;
    }
  }

  lemma SpokenIsNeverMissing(total: nat)
    ensures Spoken(total) != MISSING
  {
    DecimalIsDigits(Leading(total));
    assert Spoken(total) == Decimal(Leading(total)) + Following(total);
    assert Spoken(total)[0] == Decimal(Leading(total))[0];
    assert Decimal(Leading(total))[0] in Decimal(Leading(total));
  }

  lemma ShownSaysTheMinutes(a: int, b: int)
    ensures Shown(a) == Shown(b) <==> a == b || (a < 0 && b < 0)
  {
    if a >= 0 { SpokenIsNeverMissing(a); }
    if b >= 0 { SpokenIsNeverMissing(b); }
    if a >= 0 && b >= 0 && Spoken(a) == Spoken(b) {
      SpokenIsUnambiguous(a, b);
    }
  }

  lemma BetweenStamps(a: Moment, b: Moment)
    requires Valid(a) && Valid(b)
    ensures Between(Some(Stamp(a)), Some(Stamp(b))) == Says(Shown(Minutes(Seconds(a), Seconds(b))))
  {
    ParseUndoesStamp(a);
    ParseUndoesStamp(b);
  }

  /** What is shown for two stored times says exactly how many whole minutes passed between the
      two instants: no more (pairs the same number of minutes apart show the same) and no less
      (pairs that show the same are the same number of minutes apart), unless the leaving time
      comes first. */
  lemma DurationIsTheInstants(a: Moment, b: Moment, c: Moment, d: Moment)
    requires Valid(a) && Valid(b) && Valid(c) && Valid(d)
    ensures Between(Some(Stamp(a)), Some(Stamp(b))) == Between(Some(Stamp(c)), Some(Stamp(d)))
       <==> || Minutes(Seconds(a), Seconds(b)) == Minutes(Seconds(c), Seconds(d))
            || (Minutes(Seconds(a), Seconds(b)) < 0 && Minutes(Seconds(c), Seconds(d)) < 0)
  {
    BetweenStamps(a, b);
    BetweenStamps(c, d);
    ShownSaysTheMinutes(Minutes(Seconds(a), Seconds(b)), Minutes(Seconds(c), Seconds(d)));
  }

  /** How far apart two moments look on the clock faces, put right by the change of offset. */
  function FacesApart(a: Moment, b: Moment): int {
    WallSeconds(b.wall) - WallSeconds(a.wall) - (b.offset - a.offset)
  }

  /** Over a change of offset the clock faces are wrong by exactly the change. */
  lemma ClockFacesAreOffByTheChange(a: Moment, b: Moment)
    requires Valid(a) && Valid(b)
    ensures Between(Some(Stamp(a)), Some(Stamp(b))) == Says(Shown(Minutes(0, FacesApart(a, b))))
  {
    BetweenStamps(a, b);
    SameGap(Seconds(a), Seconds(b), 0, FacesApart(a, b));
  }

  lemma SameGap(a: int, b: int, c: int, d: int)
    requires b - a == d - c
    ensures Shown(Minutes(a, b)) == Shown(Minutes(c, d))
  {
    assert Minutes(a, b) == Minutes(c, d);
  }

  /** The instant of a stored time, or its clock face when that is all there is. */
  function SecondsOf(s: Stored): int {
    match s
    case Aware(moment) => Seconds(moment)
    case Naive(wall) => WallSeconds(wall)
  }

  /** A dash is shown exactly when a time is missing or unreadable, or the leaving time comes
      first; someone who has been here no time at all is shown minutes. */
  lemma ADashMeans(timeIn: Option<string>, timeOut: Option<string>)
    ensures Between(timeIn, timeOut) == Says(MISSING)
       <==> || ParseStored(timeIn) == None || ParseStored(timeOut) == None
            || (Comparable(ParseStored(timeIn).value, ParseStored(timeOut).value)
                && SecondsOf(ParseStored(timeOut).value) < SecondsOf(ParseStored(timeIn).value))
    ensures Between(timeIn, timeOut) == TypeError
       <==> && ParseStored(timeIn) != None && ParseStored(timeOut) != None
            && !Comparable(ParseStored(timeIn).value, ParseStored(timeOut).value)
  {
    var start, end := ParseStored(timeIn), ParseStored(timeOut);
    if start != None && end != None {
      DashForNegative(SecondsOf(start.value), SecondsOf(end.value));
    }
  }

  /** Both with an offset, or both without. */
  predicate Comparable(a: Stored, b: Stored) {
    a.Aware? <==> b.Aware?
  }

  /** A stored time that was never given its offset cannot be set against one that has one; a
      naive pair is measured by the clock faces. */
  lemma NaiveTimes(a: Moment, w: Wall, v: Wall)
    requires Valid(a) && ValidWall(w) && ValidWall(v) && w.micro == 0 && v.micro == 0
    ensures var naive, later := DateText(w) + ("T" + TimeText(w)), DateText(v) + ("T" + TimeText(v));
            && Between(Some(Stamp(a)), Some(naive)) == TypeError == Between(Some(naive), Some(Stamp(a)))
            && Between(Some(naive), Some(later)) == Says(Shown(Minutes(WallSeconds(w), WallSeconds(v))))
  {
    ParseUndoesStamp(a);
    NaiveIsRead(w);
    NaiveIsRead(v);
  }

  lemma NaiveIsRead(w: Wall)
    requires ValidWall(w) && w.micro == 0
    ensures ParseStored(Some(DateText(w) + ("T" + TimeText(w)))) == Some(Naive(w))
  {
    var s := DateText(w) + ("T" + TimeText(w));
    assert s[..10] == DateText(w) && s[11..] == TimeText(w) && s[10] == 'T';
    DateAndTimeUndone(w);
  }

  lemma DashForNegative(from: int, to: int)
    ensures Shown(Minutes(from, to)) == MISSING <==> to < from
  {
    if Minutes(from, to) >= 0 {
      SpokenIsNeverMissing(Minutes(from, to));
    }
  }
}
