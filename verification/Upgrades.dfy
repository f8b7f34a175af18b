/** What the migration promises: the shape it reaches, what it keeps, that it can be run again,
    and what a death half way through does (attendance/db.py). */
module Upgrades {
  import opened Options
  import opened Text
  import opened Clock
  import opened Migration

  // --- the shape -----------------------------------------------------------------------------------

  /** Every row has the table's columns. */
  predicate WellFormed(t: Table) {
    forall id :: id in t.rows ==> t.rows[id].Keys == t.columns
  }

  predicate AllWellFormed(db: Tables) {
    && (db.students.Some? ==> WellFormed(db.students.value))
    && (db.attendance.Some? ==> WellFormed(db.attendance.value))
    && (db.users.Some? ==> WellFormed(db.users.value))
  }

  predicate Current(db: Tables) {
    && db.students.Some? && db.attendance.Some? && db.users.Some? && db.indexed
    && {"student_id", "date", "time_in", "time_out"} <= db.attendance.value.columns
    && {"is_approved", "student_id"} <= db.users.value.columns
  }

  lemma ShapedAttendance(a: Table, zone: Zone)
    requires WellFormed(a) && {"date", "student_id"} <= a.columns
    requires "time" in a.columns || "time_in" in a.columns
    ensures WellFormed(MigratedAttendance(a, zone))
    ensures {"student_id", "date", "time_in", "time_out"} <= MigratedAttendance(a, zone).columns
    ensures MigratedAttendance(a, zone).columns
         == (if "time_in" in a.columns then a.columns else a.columns - {"time"}) + {"time_in", "time_out"}
  {
    var b := WithTimeOut(WithTimeIn(a));
    assert WellFormed(WithTimeIn(a));
    assert WellFormed(b);
    forall id | id in b.rows ensures Fixed(b.rows[id], zone).Keys == b.columns {
      assert {"time_in", "time_out"} <= b.rows[id].Keys;
    }
  }

  lemma ShapedUsers(u: Table)
    requires WellFormed(u)
    ensures WellFormed(MigratedUsers(u))
    ensures MigratedUsers(u).columns == u.columns + {"is_approved", "student_id"}
  {
    assert WellFormed(Approved(u));
  }

  /** One run takes every shape there has been to the present one. */
  lemma ReachesTheCurrentShape(db: Tables, zone: Zone)
    requires Historical(db) && AllWellFormed(db)
    ensures Current(Migrated(db, zone)) && AllWellFormed(Migrated(db, zone))
  {
    ShapedAttendance(Created(db.attendance, ATTENDANCE), zone);
    ShapedUsers(Created(db.users, USERS));
  }

  // --- what is kept ------------------------------------------------------------------------------------

  /** The same row, in all that the migration has no business with. */
  predicate SameRecord(before: Row, after: Row) {
    forall column :: column in (before.Keys + after.Keys) - {"time", "time_in", "time_out"}
                ==> Field(before, column) == Field(after, column)
  }

  /** Every attendance row keeps its id, its student, its date and its confidence; none is added
      and none is lost. */
  lemma AttendanceIsKept(a: Table, zone: Zone)
    ensures MigratedAttendance(a, zone).rows.Keys == a.rows.Keys
    ensures forall id :: id in a.rows ==> SameRecord(a.rows[id], MigratedAttendance(a, zone).rows[id])
  {
  }

  /** The arrival time a row has, under either name. */
  function Arrival(a: Table, id: nat): Value
    requires id in a.rows
  {
    Field(a.rows[id], if "time" in a.columns && "time_in" !in a.columns then "time" else "time_in")
  }

  /** The departure time, when there is such a column. */
  function Departure(a: Table, id: nat): Value
    requires id in a.rows
  {
    if "time_out" in a.columns then Field(a.rows[id], "time_out") else Null
  }

  /** Once the columns are right, the arrival and the departure are under their present names. */
  lemma TimesInPlace(a: Table, id: nat)
    requires id in a.rows
    ensures var row := WithTimeOut(WithTimeIn(a)).rows[id];
            && Field(row, "date") == Field(a.rows[id], "date")
            && Field(row, "time_in") == Arrival(a, id)
            && Field(row, "time_out") == Departure(a, id)
  {
  }

  /** The two times of one row, rewritten or not. */
  predicate Rewritten(row: Row, arrival: Value, departure: Value, date: Value, zone: Zone) {
    var moment := CombineValues(date, arrival, zone);
    if Naive(arrival) && moment.Some? then
      && Field(row, "time_in") == Text(Stamp(moment.value))
      && Field(row, "time_out") == StampOrNull(CombineValues(date, departure, zone))
    else
      Field(row, "time_in") == arrival && Field(row, "time_out") == departure
  }

  lemma FixedRewrites(row: Row, zone: Zone)
    ensures Rewritten(Fixed(row, zone), Field(row, "time_in"), Field(row, "time_out"), Field(row, "date"), zone)
  {
  }

  lemma TimesAfter(a: Table, id: nat, zone: Zone)
    requires id in a.rows
    ensures Rewritten(MigratedAttendance(a, zone).rows[id], Arrival(a, id), Departure(a, id),
                      Field(a.rows[id], "date"), zone)
  {
    TimesInPlace(a, id);
    var b := WithTimeOut(WithTimeIn(a));
    FixedRewrites(b.rows[id], zone);
    assert MigratedAttendance(a, zone).rows[id] == Fixed(b.rows[id], zone);
  }

  /** A naive arrival that can be read becomes a stamp with the same wall clock, which reads back
      as that moment; anything else is left as it was. */
  lemma ArrivalsKeepTheirWallClock(a: Table, id: nat, zone: Zone)
    requires id in a.rows && forall w :: ValidOffset(zone(w))
    ensures var row, was, now := a.rows[id], Arrival(a, id), Field(MigratedAttendance(a, zone).rows[id], "time_in");
            var moment := CombineValues(Field(row, "date"), was, zone);
            if Naive(was) && moment.Some? then
              && Field(row, "date").Text? && now.Text?
              && now.s == Padded('-', Field(row, "date").s)
                          + ("T" + (Padded(':', was.s) + ZoneText(zone(moment.value.wall))))
              && Parse(now.s) == moment
            else now == was
  {
    TimesAfter(a, id, zone);
    var row, was := a.rows[id], Arrival(a, id);
    var moment := CombineValues(Field(row, "date"), was, zone);
    if Naive(was) && moment.Some? {
      CombineKeepsTheWallClock(Field(row, "date").s, was.s, zone);
      CombinedIsValid(Field(row, "date").s, was.s, zone);
      ParseUndoesStamp(moment.value);
    }
  }

  lemma CombinedIsValid(date: string, time: string, zone: Zone)
    requires Combine(date, time, zone).Some? && forall w :: ValidOffset(zone(w))
    ensures Valid(Combine(date, time, zone).value) && Combine(date, time, zone).value.wall.micro == 0
  {
  }

  /** A departure disappears exactly when its row is rewritten and it cannot be read beside the
      row's date; a departure that already carried an offset is among those. */
  lemma DeparturesAreLostExactlyWhen(a: Table, id: nat, zone: Zone)
    requires id in a.rows && Departure(a, id) != Null
    ensures Field(MigratedAttendance(a, zone).rows[id], "time_out") == Null
       <==> && Naive(Arrival(a, id))
            && CombineValues(Field(a.rows[id], "date"), Arrival(a, id), zone).Some?
            && CombineValues(Field(a.rows[id], "date"), Departure(a, id), zone) == None
  {
    TimesAfter(a, id, zone);
  }

  /** A row from a day the offset was recorded for the departure only. */
  const MIXED: Row := map["student_id" := Int(1), "date" := Text("2026-08-12"), "time_in" := Text("09:15:42"),
                          "time_out" := Text("2026-08-12T17:30:00+05:00"), "confidence" := Null]

  lemma MixedDate()
    ensures Digits(4, 2026) + ("-" + (Loose(8, false) + ("-" + Loose(12, false)))) == "2026-08-12"
  {
    YearLooksLikeThis();
    assert Digits(2, 8) == "08" && Digits(2, 12) == "12";
  }

  lemma MixedTime()
    ensures Loose(9, false) + (":" + (Loose(15, false) + (":" + Loose(42, false)))) == "09:15:42"
  {
    assert Digits(2, 9) == "09" && Digits(2, 15) == "15" && Digits(2, 42) == "42";
  }

  lemma StampIsNoTime(s: string)
    requires |s| > 2 && s[2] != ':' && ':' !in s[..3]
    ensures TakeThree(2, ':', Padded(':', s)) == None
  {
    FieldIsLong(s, ':', 3);
    var n := FieldEnd(':', s);
    var p := Padded(':', s);
    assert p[2] == s[2];
    if Take(2, p).Some? {
      assert p[2..][0] == p[2];
    }
  }

  lemma {:induction false} FieldIsLong(s: string, mark: char, n: nat)
    requires n <= |s| && mark !in s[..n]
    ensures FieldEnd(mark, s) >= n
  {
    if n == 0 {
    } else {
      assert s[0] == s[..n][0] && s[1..][..n - 1] == s[..n][1..];
      assert forall c :: c in s[..n][1..] ==> c in s[..n];
      FieldIsLong(s[1..], mark, n - 1);
    }
  }

  lemma MixedArrivalReads(zone: Zone)
    ensures CombineValues(Text("2026-08-12"), Text("09:15:42"), zone).Some?
  {
    MixedDate();
    MixedTime();
    LooseFieldsAreRead(Wall(2026, 8, 12, 9, 15, 42, 0), zone, false, false, false, false, false);
  }

  lemma MixedDepartureDoesNot(zone: Zone)
    ensures CombineValues(Text("2026-08-12"), Text("2026-08-12T17:30:00+05:00"), zone) == None
  {
    StampIsNoTime("2026-08-12T17:30:00+05:00");
  }

  lemma DropsTheDeparture(row: Row, zone: Zone, date: Value, arrival: Value, departure: Value)
    requires Field(row, "date") == date && Field(row, "time_in") == arrival && Field(row, "time_out") == departure
    requires Naive(arrival) && CombineValues(date, arrival, zone).Some?
    requires departure != Null && CombineValues(date, departure, zone) == None
    ensures Field(Fixed(row, zone), "time_out") == Null && Field(Fixed(row, zone), "time_in").Text?
  {
  }

  lemma MixedIsNaive()
    ensures Naive(Text("09:15:42"))
  {
  }

  lemma MixedFields()
    ensures Field(MIXED, "date") == Text("2026-08-12") && Field(MIXED, "time_in") == Text("09:15:42")
    ensures Field(MIXED, "time_out") == Text("2026-08-12T17:30:00+05:00")
  {
  }

  /** Its departure, a readable instant, is dropped in every zone. */
  lemma MixedRowLosesItsDeparture(zone: Zone)
    ensures Field(Fixed(MIXED, zone), "time_out") == Null && Field(Fixed(MIXED, zone), "time_in").Text?
  {
    MixedArrivalReads(zone);
    MixedDepartureDoesNot(zone);
    MixedIsNaive();
    MixedFields();
    DropsTheDeparture(MIXED, zone, Text("2026-08-12"), Text("09:15:42"), Text("2026-08-12T17:30:00+05:00"));
  }

  /** Accounts keep all they had, and are approved only when the column was missing. */
  lemma ApprovesOnlyWhenTheColumnWasMissing(u: Table, id: nat)
    requires id in u.rows
    ensures MigratedUsers(u).rows.Keys == u.rows.Keys
    ensures Field(MigratedUsers(u).rows[id], "is_approved")
         == if "is_approved" in u.columns then Field(u.rows[id], "is_approved") else Int(1)
    ensures Field(MigratedUsers(u).rows[id], "student_id")
         == if "student_id" in u.columns then Field(u.rows[id], "student_id") else Null
    ensures forall column :: column in u.rows[id] && column !in {"is_approved", "student_id"}
              ==> Field(MigratedUsers(u).rows[id], column) == Field(u.rows[id], column)
  {
  }

  // --- running it again ------------------------------------------------------------------------------

  lemma StampHasAT(m: Moment)
    ensures 'T' in Stamp(m)
  {
    assert Stamp(m)[10] == 'T';
  }

  /** Whether a time can be read beside a date; the zone has no say in it. */
  predicate Readable(date: Value, time: Value) {
    date.Text? && time.Text? && ReadWall(Padded('-', date.s), Padded(':', time.s)).Some?
  }

  lemma ReadableInAnyZone(date: Value, time: Value, zone: Zone)
    ensures CombineValues(date, time, zone).Some? <==> Readable(date, time)
  {
  }

  /** A row there is nothing to do for, whatever the zone. */
  predicate SettledRow(row: Row) {
    !(Unconverted(row) && Readable(Field(row, "date"), Field(row, "time_in")))
  }

  lemma SettledRowIsFixed(row: Row, zone: Zone)
    ensures SettledRow(row) ==> Fixed(row, zone) == row
    ensures SettledRow(Fixed(row, zone))
  {
    ReadableInAnyZone(Field(row, "date"), Field(row, "time_in"), zone);
    var moment := CombineValues(Field(row, "date"), Field(row, "time_in"), zone);
    if moment.Some? {
      StampHasAT(moment.value);
    }
  }

  /** A row once fixed stays as it is, even if the zone has changed since. */
  lemma FixedIsFixed(row: Row, zone: Zone, other: Zone)
    ensures Fixed(Fixed(row, zone), other) == Fixed(row, zone)
  {
    SettledRowIsFixed(row, zone);
    SettledRowIsFixed(Fixed(row, zone), other);
  }

  /** A table nothing is left to do for. */
  predicate SettledAttendance(a: Table) {
    && "time_in" in a.columns && "time_out" in a.columns
    && forall id :: id in a.rows ==> SettledRow(a.rows[id])
  }

  predicate SettledUsers(u: Table) {
    "is_approved" in u.columns && "student_id" in u.columns
  }

  predicate Settled(db: Tables) {
    && db.students.Some? && db.attendance.Some? && db.users.Some? && db.indexed
    && SettledAttendance(db.attendance.value) && SettledUsers(db.users.value)
  }

  lemma SettledIsUnchanged(db: Tables, zone: Zone)
    requires Settled(db)
    ensures Migrated(db, zone) == db
  {
    var a := db.attendance.value;
    forall id | id in a.rows ensures Fixed(a.rows[id], zone) == a.rows[id] {
      SettledRowIsFixed(a.rows[id], zone);
    }
    assert WithOffsets(a, zone) == a;
  }

  lemma OffsetsSettle(a: Table, zone: Zone)
    requires "time_in" in a.columns && "time_out" in a.columns
    ensures SettledAttendance(WithOffsets(a, zone))
  {
    forall id | id in a.rows ensures SettledRow(WithOffsets(a, zone).rows[id]) {
      SettledRowIsFixed(a.rows[id], zone);
    }
  }

  lemma MigratedIsSettled(db: Tables, zone: Zone)
    requires Historical(db)
    ensures Settled(Migrated(db, zone))
  {
    OffsetsSettle(WithTimeOut(WithTimeIn(Created(db.attendance, ATTENDANCE))), zone);
  }

  /** What goes on between two runs. */
  datatype Event =
    | SignUp(account: nat, details: Row)
    | Approve(account: nat)
    | Link(account: nat, student: nat)
    | CheckIn(id: nat, student: nat, when: Moment, confidence: real)
    | CheckOut(id: nat, at: Moment)

  /** A pending account is new; a row is new, or already there when it is completed. */
  function Happens(db: Tables, e: Event): Tables
    requires db.attendance.Some? && db.users.Some?
  {
    var a, u := db.attendance.value, db.users.value;
    match e
    case SignUp(account, details) =>
      if account in u.rows then db
      else db.(users := Some(u.(rows := u.rows[account := details["is_approved" := Int(0)]])))
    case Approve(account) =>
      if account !in u.rows then db
      else db.(users := Some(u.(rows := u.rows[account := u.rows[account]["is_approved" := Int(1)]])))
    case Link(account, student) =>
      if account !in u.rows then db
      else db.(users := Some(u.(rows := u.rows[account := u.rows[account]["student_id" := Int(student)]])))
    case CheckIn(id, student, when, confidence) =>
      if id in a.rows then db
      else db.(attendance := Some(a.(rows := a.rows[id := map[
        "student_id" := Int(student), "date" := Text(LocalDate(when)), "time_in" := Text(Stamp(when)),
        "time_out" := Null, "confidence" := Real(confidence)]])))
    case CheckOut(id, at) =>
      if id !in a.rows then db
      else db.(attendance := Some(a.(rows := a.rows[id := a.rows[id]["time_out" := Text(Stamp(at))]])))
  }

  function Life(db: Tables, events: seq<Event>): (after: Tables)
    requires db.attendance.Some? && db.users.Some?
    ensures after.attendance.Some? && after.users.Some?
  {
    if events == [] then db else Happens(Life(db, events[..|events| - 1]), events[|events| - 1])
  }

  /** A row that was checked in is settled, and completing a row leaves it as settled as it was:
      it is rewritten only for its arrival. */
  lemma StaysSettled(db: Tables, e: Event)
    requires Settled(db)
    ensures Settled(Happens(db, e))
  {
    var a := db.attendance.value;
    match e
    case CheckIn(id, _, when, _) =>
      if id !in a.rows {
        CheckedInIsSettled(Happens(db, e).attendance.value.rows[id], when);
      }
    case CheckOut(id, at) =>
      if id in a.rows {
        CheckedOutIsSettled(a.rows[id], Text(Stamp(at)));
      }
    case _ =>
  }

  lemma CheckedInIsSettled(row: Row, when: Moment)
    requires Field(row, "time_in") == Text(Stamp(when))
    ensures SettledRow(row)
  {
    StampHasAT(when);
  }

  lemma CheckedOutIsSettled(row: Row, departure: Value)
    requires SettledRow(row)
    ensures SettledRow(row["time_out" := departure])
  {
  }

  lemma {:induction false} StaysSettledForLife(db: Tables, events: seq<Event>)
    requires Settled(db)
    ensures Settled(Life(db, events))
  {
    if events == [] {
    } else {
      StaysSettledForLife(db, events[..|events| - 1]);
      StaysSettled(Life(db, events[..|events| - 1]), events[|events| - 1]);
    }
  }

  /** A second run changes nothing, whatever signups, approvals, check-ins and check-outs there
      have been since the first, and whatever zone is configured by then. */
  lemma SecondRunChangesNothing(db: Tables, events: seq<Event>, zone: Zone, other: Zone)
    requires Historical(db)
    ensures var later := Life(Migrated(db, zone), events); Migrated(later, other) == later
  {
    MigratedIsSettled(db, zone);
    StaysSettledForLife(Migrated(db, zone), events);
    SettledIsUnchanged(Life(Migrated(db, zone), events), other);
  }

  // --- dying half way -----------------------------------------------------------------------------

  /** A table part of the way there ends up in the same place. */
  lemma AttendanceFromPartWay(a: Table, zone: Zone)
    ensures MigratedAttendance(WithTimeIn(a), zone) == MigratedAttendance(a, zone)
    ensures MigratedAttendance(WithTimeOut(WithTimeIn(a)), zone) == MigratedAttendance(a, zone)
  {
    assert WithTimeIn(WithTimeIn(a)) == WithTimeIn(a);
    assert WithTimeIn(WithTimeOut(WithTimeIn(a))) == WithTimeOut(WithTimeIn(a));
  }

  /** There were accounts, from before accounts had to be approved. */
  predicate OldAccounts(db: Tables) {
    db.users.Some? && "is_approved" !in db.users.value.columns && db.users.value.rows != map[]
  }

  /** A run from there, in whatever zone is configured by then, ends as a run from the start in
      that zone, or as the first run would have ended. */
  ghost predicate Recovers(db: Tables, d: Tables, zone: Zone, other: Zone) {
    Migrated(d, other) == Migrated(db, other) || Migrated(d, other) == Migrated(db, zone)
  }

  lemma FromAWaypoint(db: Tables, d: Tables, zone: Zone, other: Zone)
    requires Historical(db) && d in Waypoints(db, zone) && !(Unapproved(db) && d == Approving(db))
    ensures Recovers(db, d, zone, other)
  {
    MigratedIsSettled(db, zone);
    SettledIsUnchanged(Migrated(db, zone), other);
    AttendanceFromPartWay(Created(db.attendance, ATTENDANCE), other);
    assert Linked(Linked(Created(db.users, USERS))) == Linked(Created(db.users, USERS));
  }

  /** If the process dies between adding the approval column and committing the approvals, the
      next run takes everyone for a new signup. */
  lemma StrandedAccounts(db: Tables, zone: Zone, account: nat)
    requires Unapproved(db) && account in Created(db.users, USERS).rows
    ensures account in Migrated(Approving(db), zone).users.value.rows
    ensures Field(Migrated(Approving(db), zone).users.value.rows[account], "is_approved") == Int(0)
    ensures Field(Migrated(db, zone).users.value.rows[account], "is_approved") == Int(1)
  {
  }

  lemma NobodyToStrand(db: Tables, zone: Zone)
    requires Unapproved(db) && !OldAccounts(db)
    ensures Migrated(Approving(db), zone) == Migrated(db, zone)
  {
    var u := Created(db.users, USERS);
    assert u.rows == map[];
    assert MigratedUsers(WithAll(u, "is_approved", Int(0))) == MigratedUsers(u);
  }

  ghost predicate EveryDeathIsHarmless(db: Tables, zone: Zone, other: Zone) {
    forall d :: d in Waypoints(db, zone) ==> Recovers(db, d, zone, other)
  }

  /** Whatever is on disk when a run dies, the next run finishes the job: exactly when there are
      no accounts from before approvals. */
  lemma DeathIsHarmlessExactlyWhen(db: Tables, zone: Zone, other: Zone)
    requires Historical(db)
    ensures EveryDeathIsHarmless(db, zone, other) <==> !OldAccounts(db)
  {
    if OldAccounts(db) {
      var account :| account in db.users.value.rows;
      StrandedAccounts(db, zone, account);
      StrandedAccounts(db, other, account);
      assert Approving(db) in Waypoints(db, zone);
      assert !Recovers(db, Approving(db), zone, other);
    } else {
      forall d | d in Waypoints(db, zone) ensures Recovers(db, d, zone, other) {
        if Unapproved(db) && d == Approving(db) {
          NobodyToStrand(db, other);
        } else {
          FromAWaypoint(db, d, zone, other);
        }
      }
    }
  }

  /** Which student an account is linked to, if any. */
  function LinkOf(users: Option<Table>, account: nat): Value {
    if users.Some? && account in users.value.rows && "student_id" in users.value.columns
    then Field(users.value.rows[account], "student_id") else Null
  }

  /** No run links an account: each is linked to whom it was, and to nobody if there was no such
      column, whatever zone it is. */
  lemma NoRunLinksAnybody(db: Tables, zone: Zone, account: nat)
    ensures account in Created(db.users, USERS).rows <==> account in Migrated(db, zone).users.value.rows
    ensures LinkOf(Migrated(db, zone).users, account) == LinkOf(db.users, account)
  {
  }

  /** Nor does a run that takes up where another died. */
  lemma NoDeathLinksAnybody(db: Tables, d: Tables, zone: Zone, other: Zone, account: nat)
    requires d in Waypoints(db, zone)
    ensures LinkOf(d.users, account) == LinkOf(db.users, account)
    ensures LinkOf(Migrated(d, other).users, account) == LinkOf(db.users, account)
  {
    NoRunLinksAnybody(db, zone, account);
    NoRunLinksAnybody(d, other, account);
  }

  /** The enrolled students are none of the migration's business. */
  lemma StudentsAreKept(db: Tables, zone: Zone)
    ensures db.students.Some? ==> Migrated(db, zone).students == db.students
  {
  }

  /** From nothing at all a run makes the three tables of today, with no rows in them. */
  lemma FreshDatabase(zone: Zone)
    ensures Migrated(Tables(None, None, None, false), zone)
         == Tables(Some(Table({"name", "date_registered"}, map[])),
                   Some(Table({"student_id", "date", "time_in", "time_out", "confidence"}, map[])),
                   Some(Table({"username", "password_hash", "role", "is_approved", "student_id"}, map[])),
                   true)
  {
    var users := Linked(Approved(Table(USERS, map[])));
    assert users.columns == {"username", "password_hash", "role", "is_approved", "student_id"};
    assert users.rows == map[];
    assert MigratedAttendance(Table(ATTENDANCE, map[]), zone).rows == map[];
  }
}
