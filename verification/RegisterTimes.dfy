/** When a recorded departure can come before the arrival: every interleaving of requests, under
    a clock that is never set back (attendance/attendance_db.py:42-116). */
module RegisterTimes {
  import opened Options
  import opened Register
  import opened RegisterRuns

  /** The state before step j of a run. */
  function StateAt(steps: seq<Step>, clock: Moment, j: nat): State
    requires j <= |steps|
  {
    Run(steps[..j], clock)
  }

  /** Whenever the clock changes, it moves on or stays. */
  ghost predicate ClockMovesOn(steps: seq<Step>, clock: Moment) {
    forall j :: 0 <= j < |steps| && steps[j].SetClock? ==>
      StateAt(steps, clock, j).clock.instant <= steps[j].moment.instant
  }

  /** Step j is a statement of request i, which is at `pc` before it. */
  predicate Runs(steps: seq<Step>, clock: Moment, j: nat, i: nat, pc: Pc) {
    && j < |steps| && steps[j] == Advance(i)
    && i < |StateAt(steps, clock, j).calls| && StateAt(steps, clock, j).calls[i].pc == pc
  }

  /** Request i reads the clock at step r. */
  ghost predicate ReadsAt(steps: seq<Step>, clock: Moment, i: nat, r: nat) {
    exists id :: Runs(steps, clock, r, i, ReadingClock(id))
  }

  /** Request i, having read `moment` off the clock, writes for student `id` at step w. */
  predicate WritesAt(steps: seq<Step>, clock: Moment, i: nat, w: nat, id: int, moment: Moment) {
    Runs(steps, clock, w, i, Writing(id, moment))
  }

  /** Check-in i puts in row k at step w. */
  ghost predicate InsertsAt(steps: seq<Step>, clock: Moment, i: nat, w: nat, k: nat) {
    && (exists id, moment :: WritesAt(steps, clock, i, w, id, moment))
    && StateAt(steps, clock, w).calls[i].request.CheckIn?
    && |StateAt(steps, clock, w).db.rows| == k < |StateAt(steps, clock, w + 1).db.rows|
  }

  /** Check-out o writes the leaving time of row k at step w. */
  ghost predicate ClosesAt(steps: seq<Step>, clock: Moment, o: nat, w: nat, k: nat) {
    exists id, moment ::
      WritesAt(steps, clock, o, w, id, moment) && ClosesRow(StateAt(steps, clock, w), o, k, id, moment)
  }

  predicate ClosesRow(s: State, o: nat, k: nat, id: int, moment: Moment) {
    && o < |s.calls| && s.calls[o].request.CheckOut?
    && k < |s.db.rows| && IsOpen(s.db.rows[k], id, moment.date)
  }

  lemma NextState(steps: seq<Step>, clock: Moment, j: nat)
    requires j < |steps|
    ensures StateAt(steps, clock, j + 1) == Do(StateAt(steps, clock, j), steps[j])
  {
    assert steps[..j + 1][..j] == steps[..j];
  }

  lemma StartState(steps: seq<Step>, clock: Moment)
    ensures StateAt(steps, clock, 0) == State(EMPTY, clock, [])
  {
    assert steps[..0] == [];
  }

  // --- what a request wrote is what it read ---------------------------------------------------

  /** Once it has read the clock, a request never reads it again and keeps what it read. */
  ghost predicate HasRead(pc: Pc, moment: Moment) {
    match pc
    case Writing(_, m) => m == moment
    case Asking(_, m) => m == moment
    case Done(_) => true
    case _ => false
  }

  lemma {:induction false} KeepsItsReading(steps: seq<Step>, clock: Moment, i: nat, r: nat, w: nat)
    requires ReadsAt(steps, clock, i, r) && r < w <= |steps|
    ensures i < |StateAt(steps, clock, w).calls|
    ensures HasRead(StateAt(steps, clock, w).calls[i].pc, StateAt(steps, clock, r).clock)
  {
    NextState(steps, clock, w - 1);
    if w == r + 1 {
    } else {
      KeepsItsReading(steps, clock, i, r, w - 1);
    }
  }

  /** A request that is about to write has read the clock before. */
  lemma {:induction false} ReadingCameFirst(steps: seq<Step>, clock: Moment, i: nat, w: nat) returns (r: nat)
    requires w <= |steps| && i < |StateAt(steps, clock, w).calls| && StateAt(steps, clock, w).calls[i].pc.Writing?
    ensures r < w && ReadsAt(steps, clock, i, r)
    ensures StateAt(steps, clock, r).clock == StateAt(steps, clock, w).calls[i].pc.moment
  {
    StartState(steps, clock);
    if w == 0 {
      assert false;
    } else {
      NextState(steps, clock, w - 1);
      var before := StateAt(steps, clock, w - 1);
      if i < |before.calls| && before.calls[i].pc.Writing? {
        r := ReadingCameFirst(steps, clock, i, w - 1);
      } else {
        r := w - 1;
        assert Runs(steps, clock, r, i, ReadingClock(before.calls[i].pc.id));
      }
    }
  }

  // --- rows over time ---------------------------------------------------------------------------

  lemma {:induction false} RowsKept(steps: seq<Step>, clock: Moment, j: nat, j': nat)
    requires j <= j' <= |steps|
    ensures Extends(StateAt(steps, clock, j).db, StateAt(steps, clock, j').db)
  {
    assert steps[..j'] == steps[..j] + steps[j..j'];
    NothingIsTakenBack(steps[..j], steps[j..j'], clock);
  }

  lemma InsertedRow(steps: seq<Step>, clock: Moment, i: nat, w: nat, k: nat)
    requires InsertsAt(steps, clock, i, w, k)
    ensures var s, t := StateAt(steps, clock, w), StateAt(steps, clock, w + 1);
            && i < |s.calls| && s.calls[i].pc.Writing? && k < |t.db.rows|
            && t.db.rows[k].timeIn == s.calls[i].pc.moment.instant && t.db.rows[k].studentId == s.calls[i].pc.id
            && t.db.rows[k].date == s.calls[i].pc.moment.date && t.db.rows[k].timeOut == None
            && s.calls[i].request.CheckIn? && t.db.rows[k].confidence == s.calls[i].request.confidence
  {
    NextState(steps, clock, w);
  }

  lemma ClosedRow(steps: seq<Step>, clock: Moment, o: nat, w: nat, k: nat)
    requires ClosesAt(steps, clock, o, w, k)
    ensures var s, t := StateAt(steps, clock, w), StateAt(steps, clock, w + 1);
            && o < |s.calls| && s.calls[o].pc.Writing? && k < |s.db.rows| && k < |t.db.rows|
            && t.db.rows[k].timeOut == Some(s.calls[o].pc.moment.instant)
            && s.db.rows[k].studentId == s.calls[o].pc.id
  {
    NextState(steps, clock, w);
    var pc := StateAt(steps, clock, w).calls[o].pc;
    ClosedFacts(StateAt(steps, clock, w).db.rows, pc.id, pc.moment.date, pc.moment.instant);
  }

  /** Every row was put in by a check-in, after it had read the clock. */
  lemma {:induction false} EveryRowWasInserted(steps: seq<Step>, clock: Moment, j: nat, k: nat) returns (i: nat, w: nat)
    requires j <= |steps| && k < |StateAt(steps, clock, j).db.rows|
    ensures w < j && InsertsAt(steps, clock, i, w, k)
  {
    StartState(steps, clock);
    if j == 0 {
      assert false;
    } else {
      NextState(steps, clock, j - 1);
      var s := StateAt(steps, clock, j - 1);
      if k < |s.db.rows| {
        i, w := EveryRowWasInserted(steps, clock, j - 1, k);
      } else {
        RunKeepsInv(steps[..j - 1], clock);
        i, w := steps[j - 1].i, j - 1;
        OnlyCheckInInserts(s, i);
        assert WritesAt(steps, clock, i, w, s.calls[i].pc.id, s.calls[i].pc.moment);
      }
    }
  }

  lemma OnlyCheckInInserts(s: State, i: nat)
    requires Inv(s) && |Do(s, Advance(i)).db.rows| > |s.db.rows|
    ensures i < |s.calls| && s.calls[i].pc.Writing? && s.calls[i].request.CheckIn?
    ensures |Do(s, Advance(i)).db.rows| == |s.db.rows| + 1
  {
    var c := s.calls[i];
    if c.pc.Writing? && !c.request.CheckIn? {
      ClosedFacts(s.db.rows, c.pc.id, c.pc.moment.date, c.pc.moment.instant);
    }
  }

  /** Every leaving time was written by a check-out. */
  lemma {:induction false} EveryDepartureWasWritten(steps: seq<Step>, clock: Moment, j: nat, k: nat)
    returns (o: nat, w: nat)
    requires j <= |steps| && k < |StateAt(steps, clock, j).db.rows|
    requires StateAt(steps, clock, j).db.rows[k].timeOut.Some?
    ensures w < j && ClosesAt(steps, clock, o, w, k)
  {
    StartState(steps, clock);
    if j == 0 {
      assert false;
    } else {
      NextState(steps, clock, j - 1);
      var s := StateAt(steps, clock, j - 1);
      if k < |s.db.rows| && s.db.rows[k].timeOut.Some? {
        o, w := EveryDepartureWasWritten(steps, clock, j - 1, k);
      } else {
        RunKeepsInv(steps[..j - 1], clock);
        o, w := steps[j - 1].i, j - 1;
        OnlyCheckOutCloses(s, o, k);
        assert WritesAt(steps, clock, o, w, s.calls[o].pc.id, s.calls[o].pc.moment);
      }
    }
  }

  lemma OnlyCheckOutCloses(s: State, o: nat, k: nat)
    requires Inv(s) && k < |Do(s, Advance(o)).db.rows| && Do(s, Advance(o)).db.rows[k].timeOut.Some?
    requires k < |s.db.rows| ==> s.db.rows[k].timeOut.None?
    ensures o < |s.calls| && s.calls[o].pc.Writing?
    ensures ClosesRow(s, o, k, s.calls[o].pc.id, s.calls[o].pc.moment)
  {
    if o < |s.calls| {
      var c := s.calls[o];
      assert CallInv(s.db, c);
      if c.pc.Writing? && !c.request.CheckIn? {
        ClosedFacts(s.db.rows, c.pc.id, c.pc.moment.date, c.pc.moment.instant);
      }
    }
  }

  // --- inverted times -----------------------------------------------------------------------------

  lemma {:induction false} ClockIsLater(steps: seq<Step>, clock: Moment, j: nat, j': nat)
    requires ClockMovesOn(steps, clock) && j <= j' <= |steps|
    ensures StateAt(steps, clock, j).clock.instant <= StateAt(steps, clock, j').clock.instant
  {
    if j == j' {
    } else {
      ClockIsLater(steps, clock, j, j' - 1);
      NextState(steps, clock, j' - 1);
    }
  }

  /** Check-in i read the clock at step rin and put row k in at step win; check-out o read it at
      step rout and wrote the row's leaving time at step wout. */
  ghost predicate Recorded(steps: seq<Step>, clock: Moment, k: nat,
                           i: nat, rin: nat, win: nat, o: nat, rout: nat, wout: nat) {
    && ReadsAt(steps, clock, i, rin) && rin < win && InsertsAt(steps, clock, i, win, k)
    && ReadsAt(steps, clock, o, rout) && rout < wout && ClosesAt(steps, clock, o, wout, k)
  }

  /** There is such a check-in and such a check-out for every row with a leaving time. */
  lemma EveryPairWasRecorded(steps: seq<Step>, clock: Moment, k: nat)
    returns (i: nat, rin: nat, win: nat, o: nat, rout: nat, wout: nat)
    requires k < |Run(steps, clock).db.rows| && Run(steps, clock).db.rows[k].timeOut.Some?
    ensures Recorded(steps, clock, k, i, rin, win, o, rout, wout)
  {
    assert steps[..|steps|] == steps;
    i, win := EveryRowWasInserted(steps, clock, |steps|, k);
    o, wout := EveryDepartureWasWritten(steps, clock, |steps|, k);
    rin := ReadingCameFirst(steps, clock, i, win);
    rout := ReadingCameFirst(steps, clock, o, wout);
  }

  /** A row's arrival is what its check-in read off the clock. */
  lemma ArrivalIsTheReading(steps: seq<Step>, clock: Moment, k: nat, i: nat, rin: nat, win: nat)
    requires ReadsAt(steps, clock, i, rin) && rin < win && InsertsAt(steps, clock, i, win, k)
    ensures k < |Run(steps, clock).db.rows|
    ensures Run(steps, clock).db.rows[k].timeIn == StateAt(steps, clock, rin).clock.instant
  {
    InsertedRow(steps, clock, i, win, k);
    KeepsItsReading(steps, clock, i, rin, win);
    RowsKept(steps, clock, win + 1, |steps|);
    assert steps[..|steps|] == steps;
  }

  /** Every row of every run is what one check-in asked for: its person, the day and the instant it
      read off the clock, and the confidence it came with. */
  lemma EveryRowIsItsCheckIn(steps: seq<Step>, clock: Moment, k: nat) returns (i: nat, rin: nat)
    requires k < |Run(steps, clock).db.rows|
    ensures rin < |steps| && i < |Run(steps, clock).calls| && ReadsAt(steps, clock, i, rin)
    ensures var row, request, read :=
              Run(steps, clock).db.rows[k], Run(steps, clock).calls[i].request, StateAt(steps, clock, rin).clock;
            && request.CheckIn? && row.confidence == request.confidence
            && row.date == read.date && row.timeIn == read.instant
            && SelectId(Run(steps, clock).db.students, request.name) == Some(row.studentId)
  {
    assert steps[..|steps|] == steps;
    var win: nat;
    i, win := EveryRowWasInserted(steps, clock, |steps|, k);
    rin := ReadingCameFirst(steps, clock, i, win);
    InsertedRow(steps, clock, i, win, k);
    RowsKept(steps, clock, win + 1, |steps|);
    RowsKept(steps, clock, win, |steps|);
    RequestStays(steps, clock, i, win, |steps|);
    RunKeepsInv(steps[..win], clock);
    var s := StateAt(steps, clock, win);
    assert CallInv(s.db, s.calls[i]);
    SelectIdStays(s.db.students, Run(steps, clock).db.students, s.calls[i].request.name);
  }

  /** And its departure what its check-out read. */
  lemma DepartureIsTheReading(steps: seq<Step>, clock: Moment, k: nat, o: nat, rout: nat, wout: nat)
    requires ReadsAt(steps, clock, o, rout) && rout < wout && ClosesAt(steps, clock, o, wout, k)
    ensures k < |Run(steps, clock).db.rows|
    ensures Run(steps, clock).db.rows[k].timeOut == Some(StateAt(steps, clock, rout).clock.instant)
  {
    ClosedRow(steps, clock, o, wout, k);
    KeepsItsReading(steps, clock, o, rout, wout);
    RowsKept(steps, clock, wout + 1, |steps|);
    assert steps[..|steps|] == steps;
  }

  /** A row is closed after it is put in. */
  lemma InsertedFirst(steps: seq<Step>, clock: Moment, k: nat, i: nat, win: nat, o: nat, wout: nat)
    requires InsertsAt(steps, clock, i, win, k) && ClosesAt(steps, clock, o, wout, k)
    ensures win < wout
  {
    ClosedRow(steps, clock, o, wout, k);
    if wout <= win {
      RowsKept(steps, clock, wout, win);
    }
  }

  /** Exactly when a departure is recorded before the arrival: when the check-out read the clock
      first and the clock moved before the check-in read it. The check-in then read and wrote
      between the reading and the writing of the check-out. */
  lemma InvertedExactlyWhen(steps: seq<Step>, clock: Moment, k: nat,
                            i: nat, rin: nat, win: nat, o: nat, rout: nat, wout: nat)
    requires ClockMovesOn(steps, clock) && Recorded(steps, clock, k, i, rin, win, o, rout, wout)
    ensures k < |Run(steps, clock).db.rows| && Run(steps, clock).db.rows[k].timeOut.Some?
    ensures Run(steps, clock).db.rows[k].timeOut.value < Run(steps, clock).db.rows[k].timeIn
       <==> rout < rin && StateAt(steps, clock, rout).clock.instant < StateAt(steps, clock, rin).clock.instant
    ensures Run(steps, clock).db.rows[k].timeOut.value < Run(steps, clock).db.rows[k].timeIn
        ==> rout < rin < win < wout
  {
    ArrivalIsTheReading(steps, clock, k, i, rin, win);
    DepartureIsTheReading(steps, clock, k, o, rout, wout);
    InsertedFirst(steps, clock, k, i, win, o, wout);
    if rin <= rout {
      ClockIsLater(steps, clock, rin, rout);
    }
  }

  /** A row that is there when a check-out reads its clock is never closed before its arrival,
      whatever else is under way. */
  lemma StandingRowIsClosedInOrder(steps: seq<Step>, clock: Moment, k: nat, o: nat, rout: nat, wout: nat)
    requires ClockMovesOn(steps, clock)
    requires ReadsAt(steps, clock, o, rout) && rout < wout && ClosesAt(steps, clock, o, wout, k)
    requires k < |StateAt(steps, clock, rout).db.rows|
    ensures k < |Run(steps, clock).db.rows| && Run(steps, clock).db.rows[k].timeOut.Some?
    ensures Run(steps, clock).db.rows[k].timeIn <= Run(steps, clock).db.rows[k].timeOut.value
  {
    var i, win := EveryRowWasInserted(steps, clock, rout, k);
    var rin := ReadingCameFirst(steps, clock, i, win);
    InvertedExactlyWhen(steps, clock, k, i, rin, win, o, rout, wout);
  }

  // --- requests about one person that do not overlap ------------------------------------------------

  /** At no time are two requests about this person under way. Requests about others may overlap
      them, and one another, in any way. */
  ghost predicate NeverOverlapping(steps: seq<Step>, clock: Moment, name: string) {
    forall j :: 0 <= j <= |steps| ==> OneAtATime(StateAt(steps, clock, j).calls, name)
  }

  predicate OneAtATime(calls: seq<Call>, name: string) {
    forall a, b :: 0 <= a < b < |calls| && calls[a].request.name == name && calls[b].request.name == name ==>
      calls[a].pc.Done? || calls[b].pc.Done?
  }

  /** Whoever writes a row writes about the person the row is for. */
  lemma WritesForItsPerson(steps: seq<Step>, clock: Moment, w: nat, i: nat, name: string)
    requires w <= |steps| && i < |StateAt(steps, clock, w).calls| && StateAt(steps, clock, w).calls[i].pc.Writing?
    requires SelectId(Run(steps, clock).db.students, name) == Some(StateAt(steps, clock, w).calls[i].pc.id)
    ensures StateAt(steps, clock, w).calls[i].request.name == name
  {
    RowsKept(steps, clock, w, |steps|);
    assert steps[..|steps|] == steps;
    RunKeepsInv(steps[..w], clock);
    RunKeepsInv(steps, clock);
    var c := StateAt(steps, clock, w).calls[i];
    assert CallInv(StateAt(steps, clock, w).db, c);
    SelectIdStays(StateAt(steps, clock, w).db.students, Run(steps, clock).db.students, c.request.name);
    OneNamePerId(Run(steps, clock).db, c.request.name, name);
  }

  lemma WrittenForItsPerson(steps: seq<Step>, clock: Moment, k: nat, i: nat, win: nat, o: nat, wout: nat, name: string)
    requires InsertsAt(steps, clock, i, win, k) && ClosesAt(steps, clock, o, wout, k)
    requires k < |Run(steps, clock).db.rows|
    requires SelectId(Run(steps, clock).db.students, name) == Some(Run(steps, clock).db.rows[k].studentId)
    ensures i < |StateAt(steps, clock, win).calls| && StateAt(steps, clock, win).calls[i].request.name == name
    ensures o < |StateAt(steps, clock, wout).calls| && StateAt(steps, clock, wout).calls[o].request.name == name
  {
    assert steps[..|steps|] == steps;
    InsertedRow(steps, clock, i, win, k);
    RowsKept(steps, clock, win + 1, |steps|);
    WritesForItsPerson(steps, clock, win, i, name);
    ClosedRow(steps, clock, o, wout, k);
    RowsKept(steps, clock, wout, |steps|);
    WritesForItsPerson(steps, clock, wout, o, name);
  }

  /** Who a request is about never changes, and an answer is final. */
  lemma {:induction false} RequestStays(steps: seq<Step>, clock: Moment, i: nat, j: nat, j': nat)
    requires j <= j' <= |steps| && i < |StateAt(steps, clock, j).calls|
    ensures i < |StateAt(steps, clock, j').calls|
    ensures StateAt(steps, clock, j').calls[i].request == StateAt(steps, clock, j).calls[i].request
    ensures StateAt(steps, clock, j).calls[i].pc.Done? ==> StateAt(steps, clock, j').calls[i].pc.Done?
  {
    if j == j' {
    } else {
      RequestStays(steps, clock, i, j, j' - 1);
      NextState(steps, clock, j' - 1);
    }
  }

  /** So a person whose requests do not overlap each other never has a departure before the
      arrival, whatever everybody else is doing. */
  lemma NoOverlapNoInversion(steps: seq<Step>, clock: Moment, k: nat, name: string)
    requires ClockMovesOn(steps, clock) && NeverOverlapping(steps, clock, name)
    requires k < |Run(steps, clock).db.rows| && Run(steps, clock).db.rows[k].timeOut.Some?
    requires SelectId(Run(steps, clock).db.students, name) == Some(Run(steps, clock).db.rows[k].studentId)
    ensures Run(steps, clock).db.rows[k].timeIn <= Run(steps, clock).db.rows[k].timeOut.value
  {
    var i, rin, win, o, rout, wout := EveryPairWasRecorded(steps, clock, k);
    InvertedExactlyWhen(steps, clock, k, i, rin, win, o, rout, wout);
    if rout < rin < win < wout {
      WrittenForItsPerson(steps, clock, k, i, win, o, wout, name);
      KeepsItsReading(steps, clock, o, rout, win);
      RequestStays(steps, clock, o, win, wout);
      assert OneAtATime(StateAt(steps, clock, win).calls, name);
    }
  }
}
