/** The attendance register: students, one row per person per day, and the three calls that
    write to it (attendance/attendance_db.py:5-116, attendance/db.py:85-127). */
module Register {
  import opened Options

  /** One reading of the clock: the local date, and the instant. */
  datatype Moment = Moment(date: int, instant: int)

  datatype Student = Student(id: int, name: string)
  datatype Row = Row(studentId: int, date: int, timeIn: int, timeOut: Option<int>, confidence: Option<real>)

  /** The two tables. AUTOINCREMENT hands out `nextId` next. */
  datatype Db = Db(students: seq<Student>, nextId: int, rows: seq<Row>)

  const EMPTY := Db([], 1, [])

  datatype Answer = CheckedIn | AlreadyIn | CheckedOut | AlreadyOut | NotCheckedIn | Enlisted(id: int) | IntegrityError

  // --- one SQL statement each ----------------------------------------------------------

  /** SELECT id FROM students WHERE name = ? */
  function SelectId(students: seq<Student>, name: string): Option<int> {
    if students == [] then None
    else if students[0].name == name then Some(students[0].id)
    else SelectId(students[1..], name)
  }

  /** INSERT OR IGNORE INTO students */
  function InsertStudent(db: Db, name: string): Db {
    if SelectId(db.students, name).Some? then db
    else db.(students := db.students + [Student(db.nextId, name)], nextId := db.nextId + 1)
  }

  predicate HasStudent(students: seq<Student>, id: int) {
    exists k :: 0 <= k < |students| && students[k].id == id
  }

  predicate IsFor(row: Row, id: int, date: int) {
    row.studentId == id && row.date == date
  }

  /** SELECT 1 FROM attendance WHERE student_id = ? AND date = ? */
  predicate HasRow(rows: seq<Row>, id: int, date: int) {
    exists k :: 0 <= k < |rows| && IsFor(rows[k], id, date)
  }

  /** INSERT OR IGNORE INTO attendance: the unique index makes it ignore, the foreign key raise. */
  function InsertRow(db: Db, row: Row): Db {
    if HasStudent(db.students, row.studentId) && !HasRow(db.rows, row.studentId, row.date)
    then db.(rows := db.rows + [row]) else db
  }

  predicate IsOpen(row: Row, id: int, date: int) {
    IsFor(row, id, date) && row.timeOut.None?
  }

  /** UPDATE attendance SET time_out = ? WHERE student_id = ? AND date = ? AND time_out IS NULL */
  function Closed(rows: seq<Row>, id: int, date: int, left: int): seq<Row> {
    if rows == [] then []
    else Closed(rows[..|rows| - 1], id, date, left) +
         var last := rows[|rows| - 1];
         [if IsOpen(last, id, date) then last.(timeOut := Some(left)) else last]
  }

  /** Its rowcount. */
  function OpenRows(rows: seq<Row>, id: int, date: int): nat {
    if rows == [] then 0
    else OpenRows(rows[..|rows| - 1], id, date) + if IsOpen(rows[|rows| - 1], id, date) then 1 else 0
  }

  // --- the calls, one at a time ----------------------------------------------------------

  ghost predicate DbInv(db: Db) {
    && (forall i, j :: 0 <= i < j < |db.students| ==>
          db.students[i].name != db.students[j].name && db.students[i].id != db.students[j].id)
    && (forall i :: 0 <= i < |db.students| ==> db.students[i].id < db.nextId)
    && RowsInv(db)
  }

  ghost predicate RowsInv(db: Db) {
    && (forall i, j :: 0 <= i < j < |db.rows| ==>
          !(db.rows[i].studentId == db.rows[j].studentId && db.rows[i].date == db.rows[j].date))
    && (forall i :: 0 <= i < |db.rows| ==> HasStudent(db.students, db.rows[i].studentId))
  }

  /** What the register says about one person on one day. */
  datatype Status = Absent | In | Out

  function StatusOf(db: Db, name: string, date: int): Status {
    match SelectId(db.students, name)
    case None => Absent
    case Some(id) =>
      if !HasRow(db.rows, id, date) then Absent
      else if OpenRows(db.rows, id, date) > 0 then In
      else Out
  }

  function AfterCheckIn(db: Db, name: string, confidence: Option<real>, moment: Moment): Db {
    var known := InsertStudent(db, name);
    match SelectId(known.students, name)
    case None => known
    case Some(id) => InsertRow(known, Row(id, moment.date, moment.instant, None, confidence))
  }

  function AfterCheckOut(db: Db, name: string, moment: Moment): Db {
    match SelectId(db.students, name)
    case None => db
    case Some(id) => db.(rows := Closed(db.rows, id, moment.date, moment.instant))
  }

  lemma {:induction false} SelectIdFinds(students: seq<Student>, name: string)
    ensures SelectId(students, name).None? <==> forall k :: 0 <= k < |students| ==> students[k].name != name
    ensures SelectId(students, name).Some? ==>
              exists k :: 0 <= k < |students| && students[k] == Student(SelectId(students, name).value, name)
  {
    if students == [] {
    } else {
      SelectIdFinds(students[1..], name);
      if students[0].name == name {
        assert students[0] == Student(students[0].id, name);
      } else if SelectId(students[1..], name).Some? {
        var k :| 0 <= k < |students| - 1 && students[1..][k] == Student(SelectId(students, name).value, name);
        assert students[k + 1] == students[1..][k];
      } else {
        forall k | 0 <= k < |students| ensures students[k].name != name {
          assert k > 0 ==> students[k] == students[1..][k - 1];
        }
      }
    }
  }

  lemma {:induction false} SelectIdAppend(students: seq<Student>, s: Student, name: string)
    ensures SelectId(students + [s], name) ==
            if SelectId(students, name).Some? then SelectId(students, name)
            else if s.name == name then Some(s.id) else None
  {
    if students == [] {
    } else {
      SelectIdAppend(students[1..], s, name);
      assert (students + [s])[1..] == students[1..] + [s];
    }
  }

  lemma InsertStudentKeeps(db: Db, name: string)
    requires DbInv(db)
    ensures DbInv(InsertStudent(db, name))
    ensures SelectId(InsertStudent(db, name).students, name).Some?
    ensures HasStudent(InsertStudent(db, name).students, SelectId(InsertStudent(db, name).students, name).value)
    ensures db.students <= InsertStudent(db, name).students
  {
    var after := InsertStudent(db, name);
    SelectIdFinds(db.students, name);
    SelectIdAppend(db.students, Student(db.nextId, name), name);
    SelectIdFinds(after.students, name);
    forall i | 0 <= i < |db.rows| ensures HasStudent(after.students, db.rows[i].studentId) {
      var k :| 0 <= k < |db.students| && db.students[k].id == db.rows[i].studentId;
      assert after.students[k] == db.students[k];
    }
  }

  lemma InsertRowKeeps(db: Db, row: Row)
    requires DbInv(db)
    ensures DbInv(InsertRow(db, row))
  {
  }

  lemma {:induction false} ClosedRows(rows: seq<Row>, id: int, date: int, left: int)
    ensures |Closed(rows, id, date, left)| == |rows|
    ensures forall k :: 0 <= k < |rows| ==>
              Closed(rows, id, date, left)[k] ==
              if IsOpen(rows[k], id, date) then rows[k].(timeOut := Some(left)) else rows[k]
  {
    if rows == [] {
    } else {
      ClosedRows(rows[..|rows| - 1], id, date, left);
    }
  }

  lemma {:induction false} NoneStaysOpen(rows: seq<Row>, id: int, date: int, left: int)
    ensures OpenRows(Closed(rows, id, date, left), id, date) == 0
    ensures OpenRows(rows, id, date) == 0 ==> Closed(rows, id, date, left) == rows
  {
    if rows == [] {
    } else {
      NoneStaysOpen(rows[..|rows| - 1], id, date, left);
    }
  }

  /** The update changes leaving times that were empty, and nothing else. */
  lemma ClosedFacts(rows: seq<Row>, id: int, date: int, left: int)
    ensures |Closed(rows, id, date, left)| == |rows|
    ensures forall k :: 0 <= k < |rows| ==>
              Closed(rows, id, date, left)[k] ==
              if IsOpen(rows[k], id, date) then rows[k].(timeOut := Some(left)) else rows[k]
    ensures OpenRows(Closed(rows, id, date, left), id, date) == 0
    ensures OpenRows(rows, id, date) == 0 ==> Closed(rows, id, date, left) == rows
  {
    ClosedRows(rows, id, date, left);
    NoneStaysOpen(rows, id, date, left);
  }

  lemma ClosedKeeps(db: Db, id: int, date: int, left: int)
    requires DbInv(db)
    ensures DbInv(db.(rows := Closed(db.rows, id, date, left)))
  {
    var after := Closed(db.rows, id, date, left);
    assert |after| == |db.rows|
           && forall k :: 0 <= k < |after| ==>
                after[k].studentId == db.rows[k].studentId && after[k].date == db.rows[k].date by {
      ClosedFacts(db.rows, id, date, left);
    }
  }

  lemma ClosedHasTheSameRows(rows: seq<Row>, id: int, date: int, left: int, id': int, date': int)
    ensures HasRow(Closed(rows, id, date, left), id', date') <==> HasRow(rows, id', date')
  {
    ClosedFacts(rows, id, date, left);
    var after := Closed(rows, id, date, left);
    if HasRow(rows, id', date') {
      var k :| 0 <= k < |rows| && IsFor(rows[k], id', date');
      assert IsFor(after[k], id', date');
    }
    if HasRow(after, id', date') {
      var k :| 0 <= k < |after| && IsFor(after[k], id', date');
      assert IsFor(rows[k], id', date');
    }
  }

  lemma {:induction false} ClosedOthers(rows: seq<Row>, id: int, date: int, left: int, id': int, date': int)
    requires id != id' || date != date'
    ensures OpenRows(Closed(rows, id, date, left), id', date') == OpenRows(rows, id', date')
  {
    if rows == [] {
    } else {
      ClosedOthers(rows[..|rows| - 1], id, date, left, id', date');
    }
  }

  lemma HasRowAppend(rows: seq<Row>, row: Row, id: int, date: int)
    ensures HasRow(rows + [row], id, date) <==> HasRow(rows, id, date) || IsFor(row, id, date)
  {
    if HasRow(rows, id, date) {
      var k :| 0 <= k < |rows| && IsFor(rows[k], id, date);
      assert IsFor((rows + [row])[k], id, date);
    }
    if IsFor(row, id, date) {
      assert IsFor((rows + [row])[|rows|], id, date);
    }
  }

  lemma {:induction false} NoRowNoneOpen(rows: seq<Row>, id: int, date: int)
    requires !HasRow(rows, id, date)
    ensures OpenRows(rows, id, date) == 0
  {
    if rows == [] {
    } else {
      assert !IsFor(rows[|rows| - 1], id, date);
      assert !HasRow(rows[..|rows| - 1], id, date);
      NoRowNoneOpen(rows[..|rows| - 1], id, date);
    }
  }

  /** An id belongs to one name. */
  lemma OneNamePerId(db: Db, a: string, b: string)
    requires DbInv(db) && SelectId(db.students, a).Some? && SelectId(db.students, a) == SelectId(db.students, b)
    ensures a == b
  {
    SelectIdFinds(db.students, a);
    SelectIdFinds(db.students, b);
  }

  /** With one row per person per day the rowcount is 1 or 0, and 1 exactly when it is open. */
  lemma {:induction false} OpenRowsIsOneOrNone(rows: seq<Row>, id: int, date: int)
    requires forall i, j :: 0 <= i < j < |rows| ==>
               !(rows[i].studentId == rows[j].studentId && rows[i].date == rows[j].date)
    ensures OpenRows(rows, id, date) <= 1
    ensures OpenRows(rows, id, date) == 1 <==> exists k :: 0 <= k < |rows| && IsOpen(rows[k], id, date)
  {
    if rows == [] {
    } else {
      var front := rows[..|rows| - 1];
      OpenRowsIsOneOrNone(front, id, date);
      if exists k :: 0 <= k < |front| && IsOpen(front[k], id, date) {
        var k :| 0 <= k < |front| && IsOpen(front[k], id, date);
        assert IsOpen(rows[k], id, date);
      }
      if IsOpen(rows[|rows| - 1], id, date) {
        forall k | 0 <= k < |front| ensures !IsOpen(front[k], id, date) {
          assert front[k] == rows[k];
        }
      }
    }
  }

  lemma {:induction false} OpenRowsAppend(rows: seq<Row>, row: Row, id: int, date: int)
    ensures OpenRows(rows + [row], id, date) == OpenRows(rows, id, date) + if IsOpen(row, id, date) then 1 else 0
  {
    assert (rows + [row])[..|rows|] == rows;
  }

  /** What the UPDATE's rowcount, and the SELECT after it, say of the status before. */
  lemma CheckOutAnswer(db: Db, name: string, id: int, moment: Moment)
    requires DbInv(db) && SelectId(db.students, name) == Some(id)
    ensures StatusOf(db, name, moment.date)
         == if OpenRows(db.rows, id, moment.date) == 1 then In
            else if HasRow(Closed(db.rows, id, moment.date, moment.instant), id, moment.date) then Out
            else Absent
  {
    ClosedHasTheSameRows(db.rows, id, moment.date, moment.instant, id, moment.date);
    OpenRowsIsOneOrNone(db.rows, id, moment.date);
    if !HasRow(db.rows, id, moment.date) {
      NoRowNoneOpen(db.rows, id, moment.date);
    }
  }

  /** A check-in of somebody absent adds exactly one row after the old ones: that person, the day
      and the instant of the clock, no departure, and the confidence it was given. Otherwise the
      rows are as they were. */
  lemma CheckInRow(db: Db, name: string, confidence: Option<real>, moment: Moment)
    requires DbInv(db)
    ensures var after := AfterCheckIn(db, name, confidence, moment);
            && SelectId(after.students, name).Some?
            && after.rows
            == if !StatusOf(db, name, moment.date).Absent? then db.rows
               else db.rows + [Row(SelectId(after.students, name).value, moment.date, moment.instant, None, confidence)]
  {
    CheckInAnswer(db, name, moment.date);
    InsertStudentKeeps(db, name);
  }

  /** Whoever is known stays as they were, and somebody unknown comes last, under the next id. */
  lemma CheckInStudents(db: Db, name: string, confidence: Option<real>, moment: Moment)
    ensures AfterCheckIn(db, name, confidence, moment).students
         == if SelectId(db.students, name).Some? then db.students else db.students + [Student(db.nextId, name)]
  {
  }

  /** Row k, of that person and day and without a departure, is the one that gets it. */
  ghost predicate ClosesOnly(before: seq<Row>, after: seq<Row>, id: int, moment: Moment, k: nat) {
    && k < |before| && before[k].studentId == id && before[k].date == moment.date && before[k].timeOut == None
    && after == before[k := before[k].(timeOut := Some(moment.instant))]
  }

  /** A check-out of somebody in writes the instant of the clock into exactly one row, theirs of
      that day; of anybody else it writes nothing. */
  lemma CheckOutRow(db: Db, name: string, moment: Moment)
    requires DbInv(db)
    ensures var after := AfterCheckOut(db, name, moment);
            && after.students == db.students
            && if StatusOf(db, name, moment.date).In?
               then SelectId(db.students, name).Some?
                    && exists k :: ClosesOnly(db.rows, after.rows, SelectId(db.students, name).value, moment, k)
               else after.rows == db.rows
  {
    if SelectId(db.students, name).Some? {
      var id := SelectId(db.students, name).value;
      ClosedFacts(db.rows, id, moment.date, moment.instant);
      OpenRowsIsOneOrNone(db.rows, id, moment.date);
      if !HasRow(db.rows, id, moment.date) {
        NoRowNoneOpen(db.rows, id, moment.date);
      }
      if k :| 0 <= k < |db.rows| && IsOpen(db.rows[k], id, moment.date) {
        OnlyOneCloses(db, id, moment, k);
      }
    }
  }

  lemma OnlyOneCloses(db: Db, id: int, moment: Moment, k: nat)
    requires DbInv(db) && k < |db.rows| && IsOpen(db.rows[k], id, moment.date)
    ensures ClosesOnly(db.rows, Closed(db.rows, id, moment.date, moment.instant), id, moment, k)
  {
    var after := Closed(db.rows, id, moment.date, moment.instant);
    ClosedFacts(db.rows, id, moment.date, moment.instant);
    forall j | 0 <= j < |db.rows| ensures after[j] == db.rows[k := after[k]][j] {
      if j != k {
        assert !IsFor(db.rows[j], id, moment.date);
      }
    }
  }

  class Attendance {
    var students: seq<Student>
    var nextId: int
    var rows: seq<Row>

    constructor ()
      ensures Value() == EMPTY
    {
      students, nextId, rows := [], 1, [];
    }

    function Value(): Db
      reads this
    {
      Db(students, nextId, rows)
    }

    /** register_student: the id is read back, so it is right whether or not a row went in. */
    method RegisterStudent(name: string) returns (id: int)
      requires DbInv(Value())
      modifies this
      ensures Value() == InsertStudent(old(Value()), name) && DbInv(Value())
      ensures SelectId(students, name) == Some(id) && rows == old(rows)
      ensures students == if old(SelectId(students, name)).Some? then old(students)
                          else old(students) + [Student(old(nextId), name)]
    {
      InsertStudentKeeps(Value(), name);
      if SelectId(students, name).None? {
        students := students + [Student(nextId, name)];
        nextId := nextId + 1;
      }
      return SelectId(students, name).value;
    }

    /** check_in */
    method CheckIn(name: string, confidence: Option<real>, moment: Moment) returns (answer: Answer)
      requires DbInv(Value())
      modifies this
      ensures DbInv(Value()) && Value() == AfterCheckIn(old(Value()), name, confidence, moment)
      ensures answer == if old(StatusOf(Value(), name, moment.date)).Absent? then CheckedIn else AlreadyIn
      ensures SelectId(students, name).Some?
      ensures rows == if answer.CheckedIn?
                      then old(rows) + [Row(SelectId(students, name).value, moment.date, moment.instant, None,
                                            confidence)]
                      else old(rows)
    {
      CheckInRow(Value(), name, confidence, moment);
      CheckInAnswer(Value(), name, moment.date);
      InsertStudentKeeps(Value(), name);
      var id: int;
      if SelectId(students, name).None? {
        id := RegisterStudent(name);
      } else {
        id := SelectId(students, name).value;
      }
      var row := Row(id, moment.date, moment.instant, None, confidence);
      InsertRowKeeps(Value(), row);
      if HasRow(rows, id, moment.date) {
        return AlreadyIn;
      }
      rows := rows + [row];
      return CheckedIn;
    }

    /** check_out */
    method CheckOut(name: string, moment: Moment) returns (answer: Answer)
      requires DbInv(Value())
      modifies this`rows
      ensures DbInv(Value()) && Value() == AfterCheckOut(old(Value()), name, moment)
      ensures answer == match old(StatusOf(Value(), name, moment.date))
                        case Absent => NotCheckedIn case In => CheckedOut case Out => AlreadyOut
      ensures if answer.CheckedOut?
              then SelectId(students, name).Some?
                   && exists k :: ClosesOnly(old(rows), rows, SelectId(students, name).value, moment, k)
              else rows == old(rows)
    {
      CheckOutRow(Value(), name, moment);
      if SelectId(students, name).None? {
        return NotCheckedIn;
      }
      var id := SelectId(students, name).value;
      ClosedKeeps(Value(), id, moment.date, moment.instant);
      CheckOutAnswer(Value(), name, id, moment);
      var rowcount := OpenRows(rows, id, moment.date);
      rows := Closed(rows, id, moment.date, moment.instant);
      if rowcount == 1 {
        return CheckedOut;
      }
      return if HasRow(rows, id, moment.date) then AlreadyOut else NotCheckedIn;
    }
  }

  lemma NobodyNewHasARow(db: Db, name: string, date: int)
    requires DbInv(db) && SelectId(db.students, name).None?
    ensures !HasRow(db.rows, db.nextId, date)
  {
    forall k | 0 <= k < |db.rows| ensures !IsFor(db.rows[k], db.nextId, date) {
      assert HasStudent(db.students, db.rows[k].studentId);
    }
  }

  /** The insert goes in exactly when the person was absent. */
  lemma CheckInAnswer(db: Db, name: string, date: int)
    requires DbInv(db)
    ensures var known := InsertStudent(db, name);
            SelectId(known.students, name).Some?
            && (HasRow(db.rows, SelectId(known.students, name).value, date) <==> !StatusOf(db, name, date).Absent?)
  {
    InsertStudentKeeps(db, name);
    if SelectId(db.students, name).None? {
      NobodyNewHasARow(db, name, date);
      SelectIdAppend(db.students, Student(db.nextId, name), name);
    }
  }

  // --- the automaton absent -> in -> out ---------------------------------------------------

  /** Registering somebody changes nobody's status. */
  lemma RegisteringMovesNobody(db: Db, name: string, other: string, date: int)
    requires DbInv(db)
    ensures StatusOf(InsertStudent(db, name), other, date) == StatusOf(db, other, date)
  {
    SelectIdAppend(db.students, Student(db.nextId, name), other);
    if SelectId(db.students, name).None? {
      NobodyNewHasARow(db, name, date);
    }
  }

  /** One check-in moves this person from absent to in on this day, or nothing at all; nobody
      else, and no other day, moves. */
  lemma CheckInMoves(db: Db, name: string, confidence: Option<real>, moment: Moment, other: string, date: int)
    requires DbInv(db)
    ensures DbInv(AfterCheckIn(db, name, confidence, moment))
    ensures StatusOf(AfterCheckIn(db, name, confidence, moment), other, date) ==
            if other == name && date == moment.date && StatusOf(db, name, date).Absent? then In
            else StatusOf(db, other, date)
  {
    RegisteringMovesNobody(db, name, other, date);
    InsertStudentKeeps(db, name);
    var known := InsertStudent(db, name);
    var id := SelectId(known.students, name).value;
    var row := Row(id, moment.date, moment.instant, None, confidence);
    InsertRowKeeps(known, row);
    if SelectId(known.students, other).Some? && !HasRow(known.rows, id, moment.date) {
      var id' := SelectId(known.students, other).value;
      if other != name && id' == id {
        OneNamePerId(known, name, other);
      }
      HasRowAppend(known.rows, row, id', date);
      OpenRowsAppend(known.rows, row, id', date);
    }
    CheckInAnswer(db, name, moment.date);
  }

  /** One check-out moves this person from in to out on this day, or nothing at all. */
  lemma CheckOutMoves(db: Db, name: string, moment: Moment, other: string, date: int)
    requires DbInv(db)
    ensures DbInv(AfterCheckOut(db, name, moment))
    ensures StatusOf(AfterCheckOut(db, name, moment), other, date) ==
            if other == name && date == moment.date && StatusOf(db, name, date).In? then Out
            else StatusOf(db, other, date)
  {
    if SelectId(db.students, name).Some? {
      var id := SelectId(db.students, name).value;
      ClosedKeeps(db, id, moment.date, moment.instant);
      if SelectId(db.students, other).Some? {
        var id' := SelectId(db.students, other).value;
        if other != name && id' == id {
          OneNamePerId(db, name, other);
        }
        ClosedHasTheSameRows(db.rows, id, moment.date, moment.instant, id', date);
        if id' != id || date != moment.date {
          ClosedOthers(db.rows, id, moment.date, moment.instant, id', date);
        } else {
          ClosedFacts(db.rows, id, moment.date, moment.instant);
        }
      }
    }
  }

  // --- calls one after another ---------------------------------------------------------------

  datatype Visit = Arrive(name: string, confidence: Option<real>, moment: Moment) | Leave(name: string, moment: Moment)

  function AfterVisits(visits: seq<Visit>): Db {
    if visits == [] then EMPTY
    else
      var before := AfterVisits(visits[..|visits| - 1]);
      match visits[|visits| - 1]
      case Arrive(name, confidence, moment) => AfterCheckIn(before, name, confidence, moment)
      case Leave(name, moment) => AfterCheckOut(before, name, moment)
  }

  /** A clock that is never set back, read once by each call. */
  ghost predicate ClockNeverGoesBack(visits: seq<Visit>, now: int) {
    visits == [] ||
    (visits[|visits| - 1].moment.instant <= now
     && ClockNeverGoesBack(visits[..|visits| - 1], visits[|visits| - 1].moment.instant))
  }

  ghost predicate Ordered(r: Row, now: int) {
    r.timeIn <= now && (r.timeOut.Some? ==> r.timeIn <= r.timeOut.value)
  }

  ghost predicate AllOrdered(rows: seq<Row>, now: int) {
    forall k :: 0 <= k < |rows| ==> Ordered(rows[k], now)
  }

  lemma ArrivingKeepsOrder(db: Db, name: string, confidence: Option<real>, moment: Moment)
    requires AllOrdered(db.rows, moment.instant)
    ensures AllOrdered(AfterCheckIn(db, name, confidence, moment).rows, moment.instant)
  {
  }

  lemma LeavingKeepsOrder(db: Db, name: string, moment: Moment)
    requires AllOrdered(db.rows, moment.instant)
    ensures AllOrdered(AfterCheckOut(db, name, moment).rows, moment.instant)
  {
    if SelectId(db.students, name).Some? {
      var id := SelectId(db.students, name).value;
      ClosedFacts(db.rows, id, moment.date, moment.instant);
      forall k | 0 <= k < |db.rows| ensures Ordered(AfterCheckOut(db, name, moment).rows[k], moment.instant) {
        assert Ordered(db.rows[k], moment.instant);
      }
    }
  }

  /** Calls that do not overlap never record a departure before the arrival. */
  lemma {:induction false} LeavingIsAfterArriving(visits: seq<Visit>, now: int)
    requires ClockNeverGoesBack(visits, now)
    ensures AllOrdered(AfterVisits(visits).rows, now)
  {
    if visits == [] {
    } else {
      var front, last := visits[..|visits| - 1], visits[|visits| - 1];
      LeavingIsAfterArriving(front, last.moment.instant);
      match last
      case Arrive(name, confidence, moment) => ArrivingKeepsOrder(AfterVisits(front), name, confidence, moment);
      case Leave(name, moment) => LeavingKeepsOrder(AfterVisits(front), name, moment);
      assert forall k :: 0 <= k < |AfterVisits(visits).rows| ==>
               Ordered(AfterVisits(visits).rows[k], last.moment.instant);
    }
  }
}
