/** The register under overlapping requests: every SQL statement, and every reading of the
    clock, is one atomic step of one request (attendance/attendance_db.py:5-116). */
module RegisterRuns {
  import opened Options
  import opened Register

  datatype Request = CheckIn(name: string, confidence: Option<real>) | CheckOut(name: string) | Enlist(name: string)

  /** The statement a request will run next. */
  datatype Pc =
    | SelectingId
    | InsertingStudent
    | ReadingBack
    | ReadingClock(id: int)
    | Writing(id: int, moment: Moment)
    | Asking(id: int, moment: Moment)
    | Done(answer: Answer)

  datatype Call = Call(request: Request, pc: Pc)
  datatype State = State(db: Db, clock: Moment, calls: seq<Call>)

  datatype Step = Begin(request: Request) | Advance(i: nat) | SetClock(moment: Moment)

  /** What one statement does to the request that runs it. */
  function Move(db: Db, clock: Moment, c: Call): Pc {
    match c.pc
    case SelectingId =>
      (match SelectId(db.students, c.request.name)
       case Some(id) => ReadingClock(id)
       case None => if c.request.CheckIn? then InsertingStudent else Done(NotCheckedIn))
    case InsertingStudent => ReadingBack
    case ReadingBack =>
      (match SelectId(db.students, c.request.name)
       case Some(id) => if c.request.CheckIn? then ReadingClock(id) else Done(Enlisted(id))
       case None => Done(IntegrityError))
    case ReadingClock(id) => Writing(id, clock)
    case Writing(id, moment) =>
      if c.request.CheckIn? then
        if !HasStudent(db.students, id) then Done(IntegrityError)
        else if HasRow(db.rows, id, moment.date) then Done(AlreadyIn)
        else Done(CheckedIn)
      else if OpenRows(db.rows, id, moment.date) == 1 then Done(CheckedOut)
      else Asking(id, moment)
    case Asking(id, moment) => Done(if HasRow(db.rows, id, moment.date) then AlreadyOut else NotCheckedIn)
    case Done(_) => c.pc
  }

  /** What it does to the tables. */
  function Write(db: Db, c: Call): Db {
    match c.pc
    case InsertingStudent => InsertStudent(db, c.request.name)
    case Writing(id, moment) =>
      if c.request.CheckIn?
      then InsertRow(db, Row(id, moment.date, moment.instant, None, c.request.confidence))
      else db.(rows := Closed(db.rows, id, moment.date, moment.instant))
    case _ => db
  }

  function Do(s: State, step: Step): State {
    match step
    case Begin(request) =>
      s.(calls := s.calls + [Call(request, if request.Enlist? then InsertingStudent else SelectingId)])
    case Advance(i) =>
      if i < |s.calls|
      then State(Write(s.db, s.calls[i]), s.clock, s.calls[i := s.calls[i].(pc := Move(s.db, s.clock, s.calls[i]))])
      else s
    case SetClock(moment) => s.(clock := moment)
  }

  function Run(steps: seq<Step>, clock: Moment): State {
    if steps == [] then State(EMPTY, clock, [])
    else Do(Run(steps[..|steps| - 1], clock), steps[|steps| - 1])
  }

  // --- conservation -----------------------------------------------------------------------

  function Answers(calls: seq<Call>, a: Answer): nat {
    if calls == [] then 0
    else Answers(calls[..|calls| - 1], a) + if calls[|calls| - 1].pc == Done(a) then 1 else 0
  }

  function Departures(rows: seq<Row>): nat {
    if rows == [] then 0
    else Departures(rows[..|rows| - 1]) + if rows[|rows| - 1].timeOut.Some? then 1 else 0
  }

  /** An id a request holds on to is its own person's id. */
  ghost predicate CallInv(db: Db, c: Call) {
    match c.pc
    case ReadingBack => SelectId(db.students, c.request.name).Some?
    case ReadingClock(id) => SelectId(db.students, c.request.name) == Some(id) && !c.request.Enlist?
    case Writing(id, _) => SelectId(db.students, c.request.name) == Some(id) && !c.request.Enlist?
    case Asking(id, _) => SelectId(db.students, c.request.name) == Some(id) && c.request.CheckOut?
    case Done(a) => a != IntegrityError
    case SelectingId => !c.request.Enlist?
    case InsertingStudent => !c.request.CheckOut?
  }

  ghost predicate Inv(s: State) {
    && DbInv(s.db)
    && (forall i :: 0 <= i < |s.calls| ==> CallInv(s.db, s.calls[i]))
    && Answers(s.calls, CheckedIn) == |s.db.rows|
    && Answers(s.calls, CheckedOut) == Departures(s.db.rows)
  }

  /** Nothing in the register is ever taken back: students keep their ids, rows keep their
      person, day, arrival and confidence, and a departure once written stays. */
  ghost predicate Extends(a: Db, b: Db) {
    && a.students <= b.students
    && |a.rows| <= |b.rows|
    && forall k :: 0 <= k < |a.rows| ==> Keeps(a.rows[k], b.rows[k])
  }

  ghost predicate Keeps(r: Row, r': Row) {
    r'.(timeOut := r.timeOut) == r && (r.timeOut.Some? ==> r' == r)
  }

  lemma {:induction false} AnswersUpdate(calls: seq<Call>, i: nat, c: Call, a: Answer)
    requires i < |calls|
    ensures Answers(calls[i := c], a) + (if calls[i].pc == Done(a) then 1 else 0) ==
            Answers(calls, a) + (if c.pc == Done(a) then 1 else 0)
  {
    var n := |calls| - 1;
    if i == n {
      assert calls[i := c][..n] == calls[..n];
    } else {
      assert calls[i := c][..n] == calls[..n][i := c];
      AnswersUpdate(calls[..n], i, c, a);
    }
  }

  lemma {:induction false} ClosedDepartures(rows: seq<Row>, id: int, date: int, left: int)
    ensures Departures(Closed(rows, id, date, left)) == Departures(rows) + OpenRows(rows, id, date)
  {
    if rows == [] {
    } else {
      ClosedDepartures(rows[..|rows| - 1], id, date, left);
    }
  }

  lemma {:induction false} SelectIdStays(students: seq<Student>, more: seq<Student>, name: string)
    requires students <= more && SelectId(students, name).Some?
    ensures SelectId(more, name) == SelectId(students, name)
  {
    if students[0].name == name {
    } else {
      SelectIdStays(students[1..], more[1..], name);
    }
  }

  lemma WriteKeepsDbInv(db: Db, c: Call)
    requires DbInv(db)
    ensures DbInv(Write(db, c))
  {
    match c.pc
    case InsertingStudent => InsertStudentKeeps(db, c.request.name);
    case Writing(id, moment) =>
      if c.request.CheckIn? {
        InsertRowKeeps(db, Row(id, moment.date, moment.instant, None, c.request.confidence));
      } else {
        ClosedKeeps(db, id, moment.date, moment.instant);
      }
    case _ =>
  }

  lemma WriteExtends(db: Db, c: Call)
    ensures Extends(db, Write(db, c))
  {
    if c.pc.Writing? {
      ClosedFacts(db.rows, c.pc.id, c.pc.moment.date, c.pc.moment.instant);
    }
  }

  lemma CallInvStays(a: Db, b: Db, c: Call)
    requires Extends(a, b) && CallInv(a, c)
    ensures CallInv(b, c)
  {
    if SelectId(a.students, c.request.name).Some? {
      SelectIdStays(a.students, b.students, c.request.name);
    }
  }

  lemma MoverKeepsInv(db: Db, clock: Moment, c: Call)
    requires DbInv(db) && CallInv(db, c)
    ensures CallInv(Write(db, c), c.(pc := Move(db, clock, c)))
  {
    match c.pc
    case InsertingStudent => InsertStudentKeeps(db, c.request.name);
    case SelectingId =>
    case ReadingBack =>
    case ReadingClock(id) =>
    case Writing(id, moment) =>
      SelectIdFinds(db.students, c.request.name);
    case Asking(id, moment) =>
    case Done(_) =>
  }

  ghost predicate JustAnswered(db: Db, clock: Moment, c: Call, a: Answer) {
    Move(db, clock, c) == Done(a) && c.pc != Done(a)
  }

  lemma ArrivalIsCounted(db: Db, clock: Moment, c: Call)
    requires DbInv(db) && CallInv(db, c) && c.pc.Writing? && c.request.CheckIn?
    ensures |Write(db, c).rows| == |db.rows| + if JustAnswered(db, clock, c, CheckedIn) then 1 else 0
    ensures Departures(Write(db, c).rows) == Departures(db.rows)
  {
    SelectIdFinds(db.students, c.request.name);
    var row := Row(c.pc.id, c.pc.moment.date, c.pc.moment.instant, None, c.request.confidence);
    assert (db.rows + [row])[..|db.rows|] == db.rows;
  }

  lemma DepartureIsCounted(db: Db, clock: Moment, c: Call)
    requires DbInv(db) && CallInv(db, c) && c.pc.Writing? && c.request.CheckOut?
    ensures |Write(db, c).rows| == |db.rows|
    ensures Departures(Write(db, c).rows) ==
            Departures(db.rows) + if JustAnswered(db, clock, c, CheckedOut) then 1 else 0
  {
    var id, moment := c.pc.id, c.pc.moment;
    ClosedDepartures(db.rows, id, moment.date, moment.instant);
    AtMostOneCloses(db, id, moment);
  }

  lemma AtMostOneCloses(db: Db, id: int, moment: Moment)
    requires DbInv(db)
    ensures OpenRows(db.rows, id, moment.date) <= 1
    ensures |Closed(db.rows, id, moment.date, moment.instant)| == |db.rows|
  {
    ClosedFacts(db.rows, id, moment.date, moment.instant);
    OpenRowsIsOneOrNone(db.rows, id, moment.date);
  }

  /** A row appears exactly with a "checked_in", a departure exactly with a "checked_out". */
  lemma MoverIsCounted(db: Db, clock: Moment, c: Call)
    requires DbInv(db) && CallInv(db, c)
    ensures |Write(db, c).rows| == |db.rows| + if JustAnswered(db, clock, c, CheckedIn) then 1 else 0
    ensures Departures(Write(db, c).rows) ==
            Departures(db.rows) + if JustAnswered(db, clock, c, CheckedOut) then 1 else 0
    ensures c.pc.Done? ==> Move(db, clock, c) == c.pc
  {
    if c.pc.Writing? {
      if c.request.CheckIn? {
        ArrivalIsCounted(db, clock, c);
      } else {
        DepartureIsCounted(db, clock, c);
      }
    }
  }

  lemma StepKeepsInv(s: State, step: Step)
    requires Inv(s)
    ensures Inv(Do(s, step)) && Extends(s.db, Do(s, step).db)
  {
    var t := Do(s, step);
    match step
    case SetClock(_) =>
    case Begin(request) =>
      assert t.calls[..|s.calls|] == s.calls;
    case Advance(i) =>
      if i < |s.calls| {
        var c := s.calls[i];
        WriteKeepsDbInv(s.db, c);
        WriteExtends(s.db, c);
        MoverKeepsInv(s.db, s.clock, c);
        forall k | 0 <= k < |t.calls| ensures CallInv(t.db, t.calls[k]) {
          if k != i {
            CallInvStays(s.db, t.db, s.calls[k]);
          }
        }
        MoverIsCounted(s.db, s.clock, c);
        AnswersUpdate(s.calls, i, t.calls[i], CheckedIn);
        AnswersUpdate(s.calls, i, t.calls[i], CheckedOut);
      }
  }

  // --- every run --------------------------------------------------------------------------

  lemma {:induction false} RunKeepsInv(steps: seq<Step>, clock: Moment)
    ensures Inv(Run(steps, clock))
  {
    if steps == [] {
    } else {
      RunKeepsInv(steps[..|steps| - 1], clock);
      StepKeepsInv(Run(steps[..|steps| - 1], clock), steps[|steps| - 1]);
    }
  }

  /** Over every interleaving from an empty register: as many rows as "checked_in" answers, as
      many leaving times as "checked_out" answers, at most one row per person and day, every
      row naming a student, and no request ever hitting a constraint. */
  lemma RegisterConserves(steps: seq<Step>, clock: Moment)
    ensures var s := Run(steps, clock);
            && Answers(s.calls, CheckedIn) == |s.db.rows|
            && Answers(s.calls, CheckedOut) == Departures(s.db.rows)
            && DbInv(s.db)
            && forall i :: 0 <= i < |s.calls| ==> s.calls[i].pc != Done(IntegrityError)
  {
    RunKeepsInv(steps, clock);
    var s := Run(steps, clock);
    forall i | 0 <= i < |s.calls| ensures s.calls[i].pc != Done(IntegrityError) {
      assert CallInv(s.db, s.calls[i]);
    }
  }

  lemma ExtendsChains(a: Db, b: Db, c: Db)
    requires Extends(a, b) && Extends(b, c)
    ensures Extends(a, c)
  {
    forall k | 0 <= k < |a.rows| ensures Keeps(a.rows[k], c.rows[k]) {
      assert Keeps(a.rows[k], b.rows[k]) && Keeps(b.rows[k], c.rows[k]);
    }
  }

  /** Whatever happens afterwards, ids, arrivals and confidences never change and a leaving
      time is written at most once. */
  lemma {:induction false} NothingIsTakenBack(before: seq<Step>, more: seq<Step>, clock: Moment)
    ensures Extends(Run(before, clock).db, Run(before + more, clock).db)
  {
    if more == [] {
      assert before + more == before;
    } else {
      var front := more[..|more| - 1];
      assert (before + more)[..|before + more| - 1] == before + front;
      NothingIsTakenBack(before, front, clock);
      RunKeepsInv(before + front, clock);
      StepKeepsInv(Run(before + front, clock), more[|more| - 1]);
      ExtendsChains(Run(before, clock).db, Run(before + front, clock).db, Run(before + more, clock).db);
    }
  }

  // --- a request that runs alone is the sequential call ---------------------------------------

  datatype Solo = Solo(db: Db, call: Call)

  function Tick(p: Solo, clock: Moment): Solo {
    Solo(Write(p.db, p.call), p.call.(pc := Move(p.db, clock, p.call)))
  }

  function Alone(s: State, i: nat, statements: nat): State {
    if statements == 0 then s else Do(Alone(s, i, statements - 1), Advance(i))
  }

  function Ticks(p: Solo, clock: Moment, statements: nat): Solo {
    if statements == 0 then p else Tick(Ticks(p, clock, statements - 1), clock)
  }

  lemma {:induction false} AloneIsSolo(s: State, i: nat, n: nat)
    requires i < |s.calls|
    ensures Alone(s, i, n).clock == s.clock && |Alone(s, i, n).calls| == |s.calls|
    ensures Solo(Alone(s, i, n).db, Alone(s, i, n).calls[i]) == Ticks(Solo(s.db, s.calls[i]), s.clock, n)
  {
    if n == 0 {
    } else {
      AloneIsSolo(s, i, n - 1);
    }
  }

  lemma FirstTicks(p: Solo, clock: Moment, n: nat)
    ensures Ticks(p, clock, 1) == Tick(p, clock) && Ticks(p, clock, 2) == Tick(Tick(p, clock), clock)
    ensures Ticks(p, clock, n + 1) == Tick(Ticks(p, clock, n), clock)
  {
    assert Ticks(p, clock, 1) == Tick(Ticks(p, clock, 0), clock);
    assert Ticks(p, clock, 2) == Tick(Ticks(p, clock, 1), clock);
  }

  lemma SoloCheckOut(db: Db, clock: Moment, c: Call)
    requires DbInv(db) && c.request.CheckOut? && c.pc.SelectingId?
    ensures Ticks(Solo(db, c), clock, 4) ==
            Solo(AfterCheckOut(db, c.request.name, clock),
                 c.(pc := Done(match StatusOf(db, c.request.name, clock.date)
                               case Absent => NotCheckedIn case In => CheckedOut case Out => AlreadyOut)))
  {
    var p := Solo(db, c);
    FirstTicks(p, clock, 2);
    FirstTicks(p, clock, 3);
    if SelectId(db.students, c.request.name).Some? {
      var id := SelectId(db.students, c.request.name).value;
      assert Ticks(p, clock, 2) == Solo(db, c.(pc := Writing(id, clock)));
      AtMostOneCloses(db, id, clock);
      ClosedHasTheSameRows(db.rows, id, clock.date, clock.instant, id, clock.date);
      if !HasRow(db.rows, id, clock.date) {
        NoRowNoneOpen(db.rows, id, clock.date);
      }
    } else {
      assert Ticks(p, clock, 2) == Solo(db, c.(pc := Done(NotCheckedIn)));
    }
  }

  lemma SoloCheckIn(db: Db, clock: Moment, c: Call)
    requires DbInv(db) && c.request.CheckIn? && c.pc.SelectingId?
    ensures Ticks(Solo(db, c), clock, 5) ==
            Solo(AfterCheckIn(db, c.request.name, c.request.confidence, clock),
                 c.(pc := Done(if StatusOf(db, c.request.name, clock.date).Absent? then CheckedIn else AlreadyIn)))
  {
    var p := Solo(db, c);
    FirstTicks(p, clock, 2);
    FirstTicks(p, clock, 3);
    FirstTicks(p, clock, 4);
    var name := c.request.name;
    InsertStudentKeeps(db, name);
    CheckInAnswer(db, name, clock.date);
    var known := InsertStudent(db, name);
    var id := SelectId(known.students, name).value;
    if SelectId(db.students, name).Some? {
      assert Ticks(p, clock, 2) == Solo(db, c.(pc := Writing(id, clock)));
      LastTicks(p, clock, 2);
    } else {
      assert Ticks(p, clock, 2) == Solo(known, c.(pc := ReadingBack));
      assert Ticks(p, clock, 4) == Solo(known, c.(pc := Writing(id, clock)));
    }
  }

  /** A request that has answered stays as it is. */
  lemma LastTicks(p: Solo, clock: Moment, n: nat)
    requires Tick(Ticks(p, clock, n), clock).call.pc.Done?
    ensures Ticks(p, clock, n + 1) == Tick(Ticks(p, clock, n), clock)
    ensures Ticks(p, clock, n + 2) == Ticks(p, clock, n + 1) == Ticks(p, clock, n + 3)
  {
  }

  /** Four statements without interruption are check_out. */
  lemma LoneCheckOutIsExact(s: State, i: nat)
    requires DbInv(s.db) && i < |s.calls| && s.calls[i].request.CheckOut? && s.calls[i].pc.SelectingId?
    ensures var name, t := s.calls[i].request.name, Alone(s, i, 4);
            && t.db == AfterCheckOut(s.db, name, s.clock)
            && i < |t.calls|
            && t.calls[i].pc == Done(match StatusOf(s.db, name, s.clock.date)
                                     case Absent => NotCheckedIn case In => CheckedOut case Out => AlreadyOut)
  {
    AloneIsSolo(s, i, 4);
    SoloCheckOut(s.db, s.clock, s.calls[i]);
  }

  /** Five statements without interruption are check_in. */
  lemma LoneCheckInIsExact(s: State, i: nat)
    requires DbInv(s.db) && i < |s.calls| && s.calls[i].request.CheckIn? && s.calls[i].pc.SelectingId?
    ensures var request, t := s.calls[i].request, Alone(s, i, 5);
            && t.db == AfterCheckIn(s.db, request.name, request.confidence, s.clock)
            && i < |t.calls|
            && t.calls[i].pc
            == Done(if StatusOf(s.db, request.name, s.clock.date).Absent? then CheckedIn else AlreadyIn)
  {
    AloneIsSolo(s, i, 5);
    SoloCheckIn(s.db, s.clock, s.calls[i]);
  }

  /** Two statements without interruption are register_student: the answer is the person's id, old
      or new, and nothing but the one student is added. */
  lemma LoneEnlistIsExact(s: State, i: nat)
    requires DbInv(s.db) && i < |s.calls| && s.calls[i].request.Enlist? && s.calls[i].pc.InsertingStudent?
    ensures var name, t := s.calls[i].request.name, Alone(s, i, 2);
            && i < |t.calls| && t.db.rows == s.db.rows
            && SelectId(t.db.students, name).Some?
            && t.calls[i].pc == Done(Enlisted(SelectId(t.db.students, name).value))
            && t.db.students == (if SelectId(s.db.students, name).Some? then s.db.students
                                 else s.db.students + [Student(s.db.nextId, name)])
  {
    var p := Solo(s.db, s.calls[i]);
    AloneIsSolo(s, i, 2);
    FirstTicks(p, s.clock, 2);
    InsertStudentKeeps(s.db, s.calls[i].request.name);
  }

  // --- what overlapping requests can and cannot be told --------------------------------------

  predicate HasLeft(rows: seq<Row>, id: int, date: int) {
    exists k :: 0 <= k < |rows| && IsFor(rows[k], id, date) && rows[k].timeOut.Some?
  }

  /** The UPDATE of some check-out that finds this person's row of this day open. */
  predicate Closing(s: State, step: Step, id: int, date: int) {
    && step.Advance? && step.i < |s.calls|
    && var c := s.calls[step.i];
       c.request.CheckOut? && c.pc.Writing? && c.pc.id == id && c.pc.moment.date == date
       && OpenRows(s.db.rows, id, date) == 1
  }

  lemma ClosedHasLeft(rows: seq<Row>, id: int, date: int, left: int, id': int, date': int)
    ensures HasLeft(Closed(rows, id, date, left), id', date')
       <==> HasLeft(rows, id', date') || (id' == id && date' == date && HasOpen(rows, id, date))
  {
    ClosedFacts(rows, id, date, left);
    var after := Closed(rows, id, date, left);
    if HasLeft(rows, id', date') {
      var k :| 0 <= k < |rows| && IsFor(rows[k], id', date') && rows[k].timeOut.Some?;
      assert after[k] == rows[k];
    }
    if id' == id && date' == date && HasOpen(rows, id, date) {
      var k :| 0 <= k < |rows| && IsOpen(rows[k], id, date);
      assert IsFor(after[k], id', date') && after[k].timeOut.Some?;
    }
    if HasLeft(after, id', date') {
      var k :| 0 <= k < |rows| && IsFor(after[k], id', date') && after[k].timeOut.Some?;
      assert IsOpen(rows[k], id, date) || after[k] == rows[k];
    }
  }

  predicate HasOpen(rows: seq<Row>, id: int, date: int) {
    exists k :: 0 <= k < |rows| && IsOpen(rows[k], id, date)
  }

  lemma ArrivingIsNotLeaving(db: Db, row: Row, id: int, date: int)
    requires row.timeOut == None
    ensures HasLeft(InsertRow(db, row).rows, id, date) <==> HasLeft(db.rows, id, date)
  {
    var after := InsertRow(db, row).rows;
    if HasLeft(db.rows, id, date) {
      var k :| 0 <= k < |db.rows| && IsFor(db.rows[k], id, date) && db.rows[k].timeOut.Some?;
      assert after[k] == db.rows[k];
    }
  }

  /** One step lets somebody have left exactly when it is the UPDATE that closes their row. */
  lemma LeavingTakesAClosing(s: State, step: Step, id: int, date: int)
    requires Inv(s)
    ensures HasLeft(Do(s, step).db.rows, id, date) <==> HasLeft(s.db.rows, id, date) || Closing(s, step, id, date)
  {
    if step.Advance? && step.i < |s.calls| && s.calls[step.i].pc.Writing? {
      var c := s.calls[step.i];
      var moment := c.pc.moment;
      assert CallInv(s.db, c);
      if c.request.CheckIn? {
        ArrivingIsNotLeaving(s.db, Row(c.pc.id, moment.date, moment.instant, None, c.request.confidence), id, date);
      } else {
        ClosedHasLeft(s.db.rows, c.pc.id, moment.date, moment.instant, id, date);
        OpenRowsIsOneOrNone(s.db.rows, c.pc.id, moment.date);
        assert HasOpen(s.db.rows, c.pc.id, moment.date) <==> OpenRows(s.db.rows, c.pc.id, moment.date) == 1;
      }
    }
  }

  /** Step k of `more`, which follows `before`, is such an UPDATE. */
  predicate ClosingAt(before: seq<Step>, more: seq<Step>, clock: Moment, id: int, date: int, k: int) {
    0 <= k < |more| && Closing(Run(before + more[..k], clock), more[k], id, date)
  }

  ghost predicate ClosedMeanwhile(before: seq<Step>, more: seq<Step>, clock: Moment, id: int, date: int) {
    exists k :: ClosingAt(before, more, clock, id, date, k)
  }

  lemma ClosingAtFront(before: seq<Step>, more: seq<Step>, clock: Moment, id: int, date: int, k: int)
    requires more != [] && k < |more| - 1
    ensures ClosingAt(before, more, clock, id, date, k) <==> ClosingAt(before, more[..|more| - 1], clock, id, date, k)
  {
    if 0 <= k {
      assert more[..|more| - 1][..k] == more[..k];
    }
  }

  lemma ClosedOneLater(before: seq<Step>, more: seq<Step>, clock: Moment, id: int, date: int)
    requires more != []
    ensures ClosedMeanwhile(before, more, clock, id, date)
       <==> || ClosedMeanwhile(before, more[..|more| - 1], clock, id, date)
            || ClosingAt(before, more, clock, id, date, |more| - 1)
  {
    var front := more[..|more| - 1];
    if k :| ClosingAt(before, more, clock, id, date, k) && k < |more| - 1 {
      ClosingAtFront(before, more, clock, id, date, k);
      assert ClosingAt(before, front, clock, id, date, k);
    }
    if k :| ClosingAt(before, front, clock, id, date, k) {
      ClosingAtFront(before, more, clock, id, date, k);
      assert ClosingAt(before, more, clock, id, date, k);
    }
  }

  lemma RunFurther(before: seq<Step>, more: seq<Step>, clock: Moment)
    requires more != []
    ensures Run(before + more, clock) == Do(Run(before + more[..|more| - 1], clock), more[|more| - 1])
  {
    assert (before + more)[..|before + more| - 1] == before + more[..|more| - 1];
  }

  /** Over any stretch of any run. */
  lemma {:induction false} LeftExactlyWhenClosed(before: seq<Step>, more: seq<Step>, clock: Moment, id: int, date: int)
    ensures HasLeft(Run(before + more, clock).db.rows, id, date)
       <==> || HasLeft(Run(before, clock).db.rows, id, date)
            || ClosedMeanwhile(before, more, clock, id, date)
  {
    if more == [] {
      assert before + more == before;
    } else {
      var front := more[..|more| - 1];
      LeftExactlyWhenClosed(before, front, clock, id, date);
      ClosedOneLater(before, more, clock, id, date);
      RunFurther(before, more, clock);
      RunKeepsInv(before + front, clock);
      LeavingTakesAClosing(Run(before + front, clock), more[|more| - 1], id, date);
    }
  }

  /** Of somebody whose row is there, who has no open row: they have left. */
  lemma NotOpenIsLeft(db: Db, id: int, date: int)
    requires DbInv(db) && OpenRows(db.rows, id, date) != 1
    ensures HasRow(db.rows, id, date) <==> HasLeft(db.rows, id, date)
  {
    OpenRowsIsOneOrNone(db.rows, id, date);
    if HasRow(db.rows, id, date) {
      var k :| 0 <= k < |db.rows| && IsFor(db.rows[k], id, date);
      assert !IsOpen(db.rows[k], id, date);
    }
  }

  lemma OutIsLeft(db: Db, name: string, id: int, date: int)
    requires DbInv(db) && SelectId(db.students, name) == Some(id)
    ensures StatusOf(db, name, date).Absent? <==> !HasRow(db.rows, id, date)
    ensures StatusOf(db, name, date).Out? <==> HasLeft(db.rows, id, date)
  {
    OpenRowsIsOneOrNone(db.rows, id, date);
    if HasLeft(db.rows, id, date) {
      var k :| 0 <= k < |db.rows| && IsFor(db.rows[k], id, date) && db.rows[k].timeOut.Some?;
      forall j | 0 <= j < |db.rows| ensures !IsOpen(db.rows[j], id, date) {
        assert j != k ==> !IsFor(db.rows[j], id, date);
      }
    } else if HasRow(db.rows, id, date) {
      var k :| 0 <= k < |db.rows| && IsFor(db.rows[k], id, date);
      assert IsOpen(db.rows[k], id, date);
    }
  }

  /** A check-out is about to run its UPDATE, which finds nothing to close; `more` starts with
      that UPDATE and ends just before its SELECT, which finds a row. */
  ghost predicate AnswersAlreadyOut(before: seq<Step>, more: seq<Step>, clock: Moment, i: nat) {
    var s, t := Run(before, clock), Run(before + more, clock);
    && more != [] && more[0] == Advance(i)
    && i < |s.calls| && s.calls[i].request.CheckOut? && s.calls[i].pc.Writing?
    && OpenRows(s.db.rows, s.calls[i].pc.id, s.calls[i].pc.moment.date) != 1
    && i < |t.calls| && t.calls[i].pc.Asking? && Move(t.db, t.clock, t.calls[i]) == Done(AlreadyOut)
  }

  /** From its UPDATE on a request remembers who it is about, which person and which day. */
  ghost predicate Remembers(c: Call, c': Call) {
    c'.request == c.request && (c'.pc.Asking? ==> c.pc.Writing? && c'.pc.id == c.pc.id && c'.pc.moment == c.pc.moment)
    && (c'.pc == c.pc || c'.pc.Asking? || c'.pc.Done?)
  }

  lemma {:induction false} RequestRemembers(before: seq<Step>, more: seq<Step>, clock: Moment, i: nat)
    requires i < |Run(before, clock).calls| && Run(before, clock).calls[i].pc.Writing?
    ensures i < |Run(before + more, clock).calls|
    ensures Remembers(Run(before, clock).calls[i], Run(before + more, clock).calls[i])
  {
    if more == [] {
      assert before + more == before;
    } else {
      RequestRemembers(before, more[..|more| - 1], clock, i);
      RunFurther(before, more, clock);
    }
  }

  /** When "already_out" is right: exactly when the person's row was there at the UPDATE, or
      another check-out of the same person closed it between the UPDATE and the SELECT. */
  lemma AlreadyOutIsRightExactlyWhen(before: seq<Step>, more: seq<Step>, clock: Moment, i: nat)
    requires AnswersAlreadyOut(before, more, clock, i)
    ensures var s, t := Run(before, clock), Run(before + more, clock);
            var name, id, date := s.calls[i].request.name, s.calls[i].pc.id, s.calls[i].pc.moment.date;
            (StatusOf(t.db, name, date).Out?
             <==> !StatusOf(s.db, name, date).Absent? || ClosedMeanwhile(before, more, clock, id, date))
  {
    var s, t := Run(before, clock), Run(before + more, clock);
    var name, id, date := s.calls[i].request.name, s.calls[i].pc.id, s.calls[i].pc.moment.date;
    RunKeepsInv(before, clock);
    RunKeepsInv(before + more, clock);
    assert CallInv(s.db, s.calls[i]);
    RequestRemembers(before, more, clock, i);
    assert CallInv(t.db, t.calls[i]);
    OutIsLeft(s.db, name, id, date);
    OutIsLeft(t.db, name, id, date);
    NotOpenIsLeft(s.db, id, date);
    LeftExactlyWhenClosed(before, more, clock, id, date);
  }

  /** What a caller can rely on: for somebody who had arrived that day when the request began,
      "already_out" is right, whatever overlaps it. */
  lemma AlreadyOutIsRightForWhoeverHadArrived(began: seq<Step>, since: seq<Step>, more: seq<Step>,
                                              clock: Moment, i: nat)
    requires AnswersAlreadyOut(began + since, more, clock, i)
    requires var c := Run(began + since, clock).calls[i];
             !StatusOf(Run(began, clock).db, c.request.name, c.pc.moment.date).Absent?
    ensures var c := Run(began + since, clock).calls[i];
            StatusOf(Run(began + since + more, clock).db, c.request.name, c.pc.moment.date).Out?
  {
    var s := Run(began + since, clock);
    var c := s.calls[i];
    RunKeepsInv(began, clock);
    RunKeepsInv(began + since, clock);
    NothingIsTakenBack(began, since, clock);
    ArrivedStays(Run(began, clock).db, s.db, c.request.name, c.pc.moment.date);
    AlreadyOutIsRightExactlyWhen(began + since, more, clock, i);
  }

  lemma ArrivedStays(a: Db, b: Db, name: string, date: int)
    requires Extends(a, b) && !StatusOf(a, name, date).Absent?
    ensures !StatusOf(b, name, date).Absent?
  {
    SelectIdStays(a.students, b.students, name);
    var id := SelectId(a.students, name).value;
    var k :| 0 <= k < |a.rows| && IsFor(a.rows[k], id, date);
    assert Keeps(a.rows[k], b.rows[k]) && IsFor(b.rows[k], id, date);
  }

  lemma RunOneMore(steps: seq<Step>, step: Step, clock: Moment)
    ensures Run(steps + [step], clock) == Do(Run(steps, clock), step)
  {
    assert (steps + [step])[..|steps|] == steps;
  }

  /** Ann is enlisted; then her check-out and her check-in are both under way, the check-out
      having read the clock at 5 and the check-in not yet. */
  function AnnSetup(): seq<Step> {
    [Begin(Enlist("Ann"))] + [Advance(0)] + [Advance(0)] + [Begin(CheckOut("Ann"))]
      + [Begin(CheckIn("Ann", None))] + [Advance(1)] + [Advance(1)] + [Advance(2)]
  }

  function AnnEnlisted(): seq<Step> {
    [Begin(Enlist("Ann"))] + [Advance(0)] + [Advance(0)]
  }

  lemma AnnIsEnlisted(clock: Moment)
    ensures Run(AnnEnlisted(), clock)
         == State(Db([Student(1, "Ann")], 2, []), clock, [Call(Enlist("Ann"), Done(Enlisted(1)))])
  {
    var s0 := [Begin(Enlist("Ann"))];
    RunOneMore([], Begin(Enlist("Ann")), clock);
    assert [] + s0 == s0;
    RunOneMore(s0, Advance(0), clock);
    RunOneMore(s0 + [Advance(0)], Advance(0), clock);
  }

  lemma AnnState(clock: Moment)
    ensures Run(AnnSetup(), clock) ==
            State(Db([Student(1, "Ann")], 2, []), clock,
                  [Call(Enlist("Ann"), Done(Enlisted(1))), Call(CheckOut("Ann"), Writing(1, clock)),
                   Call(CheckIn("Ann", None), ReadingClock(1))])
  {
    var s2 := AnnEnlisted();
    var s3 := s2 + [Begin(CheckOut("Ann"))];
    var s4 := s3 + [Begin(CheckIn("Ann", None))];
    var s5 := s4 + [Advance(1)];
    var s6 := s5 + [Advance(1)];
    AnnIsEnlisted(clock);
    RunOneMore(s2, Begin(CheckOut("Ann")), clock);
    RunOneMore(s3, Begin(CheckIn("Ann", None)), clock);
    RunOneMore(s4, Advance(1), clock);
    RunOneMore(s5, Advance(1), clock);
    RunOneMore(s6, Advance(2), clock);
    assert s6 + [Advance(2)] == AnnSetup();
  }

  lemma AnnArrives(clock: Moment)
    ensures Run(AnnSetup() + [Advance(1)] + [Advance(2)] + [Advance(2)], clock) ==
            State(Db([Student(1, "Ann")], 2, [Row(1, clock.date, clock.instant, None, None)]), clock,
                  [Call(Enlist("Ann"), Done(Enlisted(1))), Call(CheckOut("Ann"), Asking(1, clock)),
                   Call(CheckIn("Ann", None), Done(CheckedIn))])
  {
    var s0 := AnnSetup();
    AnnState(clock);
    RunOneMore(s0, Advance(1), clock);
    RunOneMore(s0 + [Advance(1)], Advance(2), clock);
    RunOneMore(s0 + [Advance(1)] + [Advance(2)], Advance(2), clock);
    assert HasStudent([Student(1, "Ann")], 1) by {
      assert [Student(1, "Ann")][0].id == 1;
    }
  }

  /** Overlapping a check-in, "already_out" can be said of somebody who has not left. */
  lemma AlreadyOutCanBeWrong(clock: Moment)
    ensures var t := Run(AnnSetup() + [Advance(1)] + [Advance(2)] + [Advance(2)] + [Advance(1)], clock);
            && |t.calls| == 3 && t.calls[1].pc == Done(AlreadyOut)
            && t.db.rows == [Row(1, clock.date, clock.instant, None, None)]
  {
    AnnArrives(clock);
    RunOneMore(AnnSetup() + [Advance(1)] + [Advance(2)] + [Advance(2)], Advance(1), clock);
    assert IsFor([Row(1, clock.date, clock.instant, None, None)][0], 1, clock.date);
  }

  lemma LateArrival(early: Moment, late: Moment)
    ensures Run(AnnSetup() + [SetClock(late)] + [Advance(2)] + [Advance(2)], early) ==
            State(Db([Student(1, "Ann")], 2, [Row(1, late.date, late.instant, None, None)]), late,
                  [Call(Enlist("Ann"), Done(Enlisted(1))), Call(CheckOut("Ann"), Writing(1, early)),
                   Call(CheckIn("Ann", None), Done(CheckedIn))])
  {
    var s0 := AnnSetup();
    AnnState(early);
    RunOneMore(s0, SetClock(late), early);
    RunOneMore(s0 + [SetClock(late)], Advance(2), early);
    RunOneMore(s0 + [SetClock(late)] + [Advance(2)], Advance(2), early);
    assert HasStudent([Student(1, "Ann")], 1) by {
      assert [Student(1, "Ann")][0].id == 1;
    }
  }

  /** And a departure can be recorded before the arrival, though the clock only moves on. */
  lemma OverlapCanInvertTimes(early: Moment, late: Moment)
    requires early.date == late.date && early.instant < late.instant
    ensures var t := Run(AnnSetup() + [SetClock(late)] + [Advance(2)] + [Advance(2)] + [Advance(1)], early);
            t.db.rows == [Row(1, late.date, late.instant, Some(early.instant), None)]
  {
    LateArrival(early, late);
    RunOneMore(AnnSetup() + [SetClock(late)] + [Advance(2)] + [Advance(2)], Advance(1), early);
    var row := Row(1, late.date, late.instant, None, None);
    assert [row][..0] == [];
    assert Closed([row], 1, early.date, early.instant) == [row.(timeOut := Some(early.instant))];
  }
}
