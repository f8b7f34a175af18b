/** What one camera frame does to the register (attendance/routes/recognition.py:91-107,
    237-332). */
module Frames {
  import opened Options
  import opened EncodingStore
  import Register
  import RegisterRuns

  /** The status field of one face's result. */
  datatype Pill =
    | CheckedIn | CheckedOut | AlreadyIn | AlreadyOut | Spoof | LivenessError
    | NotCheckedIn | Mismatch | NotLinked | Unknown

  datatype Result = Result(status: Pill, name: Option<string>, distance: Option<real>, marked: bool)

  datatype Response = NoFace | Frame(status: Pill, results: seq<Result>)

  /** LIVENESS_ENABLED, LIVENESS_THRESHOLD, KIOSK_MODE, and the student the signed-in account
      is linked to. */
  datatype Settings = Settings(liveness: bool, threshold: real, kiosk: bool, linked: Option<int>)

  type Loaded = people: People | WellLoaded(people) witness []

  /** One detected face: its liveness score (None when the model could not run), its encoding
      (None when it could not be encoded), the dictionary in force and the clock when it is
      handled. */
  datatype Face = Face(score: Option<real>, encoding: Option<Encoding>, known: Loaded, moment: Register.Moment)

  const MAX_FACES_PER_FRAME := 5
  const TOLERANCE := 0.5

  const STATUS_PRIORITY: seq<Pill> :=
    [CheckedIn, CheckedOut, AlreadyIn, AlreadyOut, Spoof, LivenessError, NotCheckedIn, Mismatch, NotLinked, Unknown]

  predicate Seen(results: seq<Result>, status: Pill) {
    exists k :: 0 <= k < |results| && results[k].status == status
  }

  /** summarise: the first entry of STATUS_PRIORITY that was seen. */
  method Summarise(results: seq<Result>) returns (status: Pill)
    ensures status == Summary(results)
  {
    for i := 0 to |STATUS_PRIORITY|
      invariant forall j :: 0 <= j < i ==> !Seen(results, STATUS_PRIORITY[j])
    {
      if Seen(results, STATUS_PRIORITY[i]) {
        SummaryIs(results, i);
        return STATUS_PRIORITY[i];
      }
    }
    NothingSeen(results, STATUS_PRIORITY);
    return Unknown;
  }

  function FirstSeen(results: seq<Result>, order: seq<Pill>): Pill {
    if order == [] then Unknown
    else if Seen(results, order[0]) then order[0]
    else FirstSeen(results, order[1..])
  }

  function Summary(results: seq<Result>): Pill {
    FirstSeen(results, STATUS_PRIORITY)
  }

  lemma {:induction false} FirstSeenIs(results: seq<Result>, order: seq<Pill>, i: nat)
    requires i < |order| && Seen(results, order[i]) && forall j :: 0 <= j < i ==> !Seen(results, order[j])
    ensures FirstSeen(results, order) == order[i]
  {
    if i == 0 {
    } else {
      FirstSeenIs(results, order[1..], i - 1);
    }
  }

  lemma {:induction false} NothingSeen(results: seq<Result>, order: seq<Pill>)
    requires forall j :: 0 <= j < |order| ==> !Seen(results, order[j])
    ensures FirstSeen(results, order) == Unknown
  {
    if order == [] {
    } else {
      NothingSeen(results, order[1..]);
    }
  }

  lemma SummaryIs(results: seq<Result>, i: nat)
    requires i < |STATUS_PRIORITY| && Seen(results, STATUS_PRIORITY[i])
    requires forall j :: 0 <= j < i ==> !Seen(results, STATUS_PRIORITY[j])
    ensures Summary(results) == STATUS_PRIORITY[i]
  {
    FirstSeenIs(results, STATUS_PRIORITY, i);
  }

  // --- one face ---------------------------------------------------------------------------

  predicate Live(settings: Settings, face: Face) {
    !settings.liveness || (face.score.Some? && face.score.value >= settings.threshold)
  }

  function FromAnswer(a: Register.Answer): Pill {
    match a
    case CheckedIn => CheckedIn
    case AlreadyIn => AlreadyIn
    case CheckedOut => CheckedOut
    case AlreadyOut => AlreadyOut
    case _ => NotCheckedIn
  }

  /** What check_in or check_out will answer. */
  function Verdict(db: Register.Db, name: string, mode: string, date: int): Pill {
    match Register.StatusOf(db, name, date)
    case Absent => if mode == "out" then NotCheckedIn else CheckedIn
    case In => if mode == "out" then CheckedOut else AlreadyIn
    case Out => if mode == "out" then AlreadyOut else AlreadyIn
  }

  /** A face that has been identified, in personal mode against the signed-in account. */
  function Judged(settings: Settings, db: Register.Db, m: Match, mode: string, date: int): Result
    requires m.Match?
  {
    if m.name == UNKNOWN then Result(Unknown, None, m.distance, false)
    else if !settings.kiosk && settings.linked.None? then Result(NotLinked, None, None, false)
    else if !settings.kiosk && settings.linked != Register.SelectId(db.students, m.name)
    then Result(Mismatch, None, None, false)
    else
      var status := Verdict(db, m.name, mode, date);
      Result(status, Some(m.name), m.distance, status.CheckedIn? || status.CheckedOut?)
  }

  /** The gates, in order. None: detected but not encodable. */
  ghost function Outcome(d: Metric, settings: Settings, db: Register.Db, face: Face, mode: string): Option<Result> {
    if settings.liveness && face.score.None? then Some(Result(LivenessError, None, None, false))
    else if settings.liveness && face.score.value < settings.threshold then Some(Result(Spoof, None, None, false))
    else if face.encoding.None? then None
    else
      var m := Identify(d, face.encoding.value, face.known, TOLERANCE);
      Some(Judged(settings, db, m, mode, face.moment.date))
  }

  /** Everything about an outcome that does not depend on who was recognised. */
  lemma OutcomeShape(d: Metric, settings: Settings, db: Register.Db, face: Face, mode: string)
    ensures var o := Outcome(d, settings, db, face, mode);
            || o.None?
            || o == Some(Result(LivenessError, None, None, false))
            || o == Some(Result(Spoof, None, None, false))
            || exists m: Match :: m.Match? && o.value == Judged(settings, db, m, mode, face.moment.date)
  {
  }

  /** Only a face that is named reaches the register. */
  ghost function AfterFace(d: Metric, settings: Settings, db: Register.Db, face: Face, mode: string): Register.Db {
    match Outcome(d, settings, db, face, mode)
    case None => db
    case Some(r) => Recorded(db, r, mode, face.moment)
  }

  function Recorded(db: Register.Db, r: Result, mode: string, moment: Register.Moment): Register.Db {
    if r.name.None? then db
    else if mode == "out" then Register.AfterCheckOut(db, r.name.value, moment)
    else Register.AfterCheckIn(db, r.name.value, r.distance, moment)
  }

  /** handle_one_face */
  method HandleOneFace(d: Metric, settings: Settings, register: Register.Attendance, face: Face, mode: string)
    returns (outcome: Option<Result>)
    requires Register.DbInv(register.Value())
    modifies register
    ensures outcome == Outcome(d, settings, old(register.Value()), face, mode)
    ensures register.Value() == AfterFace(d, settings, old(register.Value()), face, mode)
    ensures Register.DbInv(register.Value())
  {
    if settings.liveness {
      if face.score.None? {
        return Some(Result(LivenessError, None, None, false));
      }
      if face.score.value < settings.threshold {
        return Some(Result(Spoof, None, None, false));
      }
    }
    if face.encoding.None? {
      return None;
    }
    var m := IdentifyFace(d, face.encoding.value, face.known, TOLERANCE);
    var result := HandleIdentified(settings, register, m, mode, face.moment);
    return Some(result);
  }

  /** The second half of handle_one_face, once there is an answer from identify_face. */
  method HandleIdentified(settings: Settings, register: Register.Attendance, m: Match, mode: string,
                          moment: Register.Moment)
    returns (result: Result)
    requires Register.DbInv(register.Value()) && m.Match?
    modifies register
    ensures result == Judged(settings, old(register.Value()), m, mode, moment.date)
    ensures register.Value() == Recorded(old(register.Value()), result, mode, moment)
    ensures Register.DbInv(register.Value())
  {
    if m.name == UNKNOWN {
      return Result(Unknown, None, m.distance, false);
    }
    if !settings.kiosk {
      if settings.linked.None? {
        return Result(NotLinked, None, None, false);
      }
      if settings.linked != Register.SelectId(register.students, m.name) {
        return Result(Mismatch, None, None, false);
      }
    }
    var answer: Register.Answer;
    if mode == "out" {
      answer := register.CheckOut(m.name, moment);
    } else {
      answer := register.CheckIn(m.name, m.distance, moment);
    }
    var status := FromAnswer(answer);
    return Result(status, Some(m.name), m.distance, status.CheckedIn? || status.CheckedOut?);
  }

  // --- the frame ----------------------------------------------------------------------------

  /** The faces one after another. */
  ghost function AfterFaces(d: Metric, settings: Settings, db: Register.Db, faces: seq<Face>, mode: string)
    : Register.Db
  {
    if faces == [] then db
    else AfterFace(d, settings, AfterFaces(d, settings, db, faces[..|faces| - 1], mode), faces[|faces| - 1], mode)
  }

  ghost function Outcomes(d: Metric, settings: Settings, db: Register.Db, faces: seq<Face>, mode: string): seq<Result> {
    if faces == [] then []
    else
      var front := faces[..|faces| - 1];
      Outcomes(d, settings, db, front, mode) +
      match Outcome(d, settings, AfterFaces(d, settings, db, front, mode), faces[|faces| - 1], mode)
      case None => [] case Some(r) => [r]
  }

  function Handled(faces: seq<Face>): seq<Face> {
    if |faces| <= MAX_FACES_PER_FRAME then faces else faces[..MAX_FACES_PER_FRAME]
  }

  lemma OneMoreFace(d: Metric, settings: Settings, db: Register.Db, faces: seq<Face>, i: nat, mode: string)
    requires i < |faces|
    ensures var before := AfterFaces(d, settings, db, faces[..i], mode);
            && AfterFaces(d, settings, db, faces[..i + 1], mode) == AfterFace(d, settings, before, faces[i], mode)
            && Outcomes(d, settings, db, faces[..i + 1], mode)
               == Outcomes(d, settings, db, faces[..i], mode) +
                  match Outcome(d, settings, before, faces[i], mode) case None => [] case Some(r) => [r]
  {
    assert faces[..i + 1][..i] == faces[..i];
  }

  /** recognize, once the frame has been decoded and its faces found. */
  method Recognize(d: Metric, settings: Settings, register: Register.Attendance, faces: seq<Face>, mode: string)
    returns (response: Response)
    requires Register.DbInv(register.Value())
    modifies register
    ensures Register.DbInv(register.Value())
    ensures register.Value() == AfterFaces(d, settings, old(register.Value()), Handled(faces), mode)
    ensures var results := Outcomes(d, settings, old(register.Value()), Handled(faces), mode);
            response == if results == [] then NoFace else Frame(Summary(results), results)
  {
    ghost var db := register.Value();
    var handled := Handled(faces);
    var outcomes: seq<Result> := [];
    for i := 0 to |handled|
      invariant Register.DbInv(register.Value())
      invariant register.Value() == AfterFaces(d, settings, db, handled[..i], mode)
      invariant outcomes == Outcomes(d, settings, db, handled[..i], mode)
    {
      OneMoreFace(d, settings, db, handled, i, mode);
      var outcome := HandleOneFace(d, settings, register, handled[i], mode);
      if outcome.Some? {
        outcomes := outcomes + [outcome.value];
      }
    }
    assert handled[..|handled|] == handled;
    if outcomes == [] {
      return NoFace;
    }
    var status := Summarise(outcomes);
    return Frame(status, outcomes);
  }

  // --- what a frame can do --------------------------------------------------------------------

  function Marked(results: seq<Result>): nat {
    if results == [] then 0
    else Marked(results[..|results| - 1]) + if results[|results| - 1].marked then 1 else 0
  }

  /** Rows in the register plus leaving times written in them. */
  function Entries(db: Register.Db): nat {
    |db.rows| + RegisterRuns.Departures(db.rows)
  }

  lemma CheckInIsCounted(db: Register.Db, name: string, confidence: Option<real>, moment: Register.Moment)
    requires Register.DbInv(db)
    ensures Register.DbInv(Register.AfterCheckIn(db, name, confidence, moment))
    ensures var after := Register.AfterCheckIn(db, name, confidence, moment);
            if Register.StatusOf(db, name, moment.date).Absent? then Entries(after) == Entries(db) + 1
            else after == db
  {
    Register.InsertStudentKeeps(db, name);
    Register.CheckInAnswer(db, name, moment.date);
    Register.CheckInMoves(db, name, confidence, moment, name, moment.date);
    var id := Register.SelectId(Register.InsertStudent(db, name).students, name).value;
    var row := Register.Row(id, moment.date, moment.instant, None, confidence);
    assert (db.rows + [row])[..|db.rows|] == db.rows;
  }

  lemma CheckOutIsCounted(db: Register.Db, name: string, moment: Register.Moment)
    requires Register.DbInv(db)
    ensures Register.DbInv(Register.AfterCheckOut(db, name, moment))
    ensures var after := Register.AfterCheckOut(db, name, moment);
            if Register.StatusOf(db, name, moment.date).In? then Entries(after) == Entries(db) + 1
            else after == db
  {
    Register.CheckOutMoves(db, name, moment, name, moment.date);
    if Register.SelectId(db.students, name).Some? {
      var id := Register.SelectId(db.students, name).value;
      RegisterRuns.ClosedDepartures(db.rows, id, moment.date, moment.instant);
      RegisterRuns.AtMostOneCloses(db, id, moment);
      Register.ClosedFacts(db.rows, id, moment.date, moment.instant);
      if !Register.HasRow(db.rows, id, moment.date) {
        Register.NoRowNoneOpen(db.rows, id, moment.date);
      }
    }
  }

  lemma NamedIsCounted(db: Register.Db, r: Result, mode: string, moment: Register.Moment)
    requires Register.DbInv(db) && r.name.Some? && r.status == Verdict(db, r.name.value, mode, moment.date)
    ensures Register.DbInv(Recorded(db, r, mode, moment))
    ensures if r.status.CheckedIn? || r.status.CheckedOut?
            then Entries(Recorded(db, r, mode, moment)) == Entries(db) + 1
            else Recorded(db, r, mode, moment) == db
  {
    if mode == "out" {
      CheckOutIsCounted(db, r.name.value, moment);
    } else {
      CheckInIsCounted(db, r.name.value, r.distance, moment);
    }
  }

  lemma JudgedIsCounted(settings: Settings, db: Register.Db, m: Match, mode: string, moment: Register.Moment)
    requires Register.DbInv(db) && m.Match?
    ensures var r := Judged(settings, db, m, mode, moment.date);
            && Register.DbInv(Recorded(db, r, mode, moment))
            && if r.marked then Entries(Recorded(db, r, mode, moment)) == Entries(db) + 1
               else Recorded(db, r, mode, moment) == db
  {
    var r := Judged(settings, db, m, mode, moment.date);
    if r.name.Some? {
      NamedIsCounted(db, r, mode, moment);
    }
  }

  /** One face: a marked result is one entry, and an unmarked one changes nothing at all. */
  lemma FaceIsCounted(d: Metric, settings: Settings, db: Register.Db, face: Face, mode: string)
    requires Register.DbInv(db)
    ensures Register.DbInv(AfterFace(d, settings, db, face, mode))
    ensures var o, after := Outcome(d, settings, db, face, mode), AfterFace(d, settings, db, face, mode);
            if o.Some? && o.value.marked then Entries(after) == Entries(db) + 1 else after == db
  {
    OutcomeShape(d, settings, db, face, mode);
    var o := Outcome(d, settings, db, face, mode);
    if m: Match :| o.Some? && m.Match? && o.value == Judged(settings, db, m, mode, face.moment.date) {
      JudgedIsCounted(settings, db, m, mode, face.moment);
    }
  }

  /** Frame accounting: as many marked results as rows added plus leaving times set. */
  lemma {:induction false} FrameIsCounted(d: Metric, settings: Settings, db: Register.Db, faces: seq<Face>,
                                           mode: string)
    requires Register.DbInv(db)
    ensures Register.DbInv(AfterFaces(d, settings, db, faces, mode))
    ensures Entries(AfterFaces(d, settings, db, faces, mode)) ==
            Entries(db) + Marked(Outcomes(d, settings, db, faces, mode))
  {
    if faces == [] {
    } else {
      var front := faces[..|faces| - 1];
      FrameIsCounted(d, settings, db, front, mode);
      var before := AfterFaces(d, settings, db, front, mode);
      FaceIsCounted(d, settings, before, faces[|faces| - 1], mode);
      var so, o := Outcomes(d, settings, db, front, mode), Outcome(d, settings, before, faces[|faces| - 1], mode);
      if o.Some? {
        assert (so + [o.value])[..|so|] == so;
      } else {
        assert so + [] == so;
      }
    }
  }

  ghost predicate HonestlyMarked(r: Result) {
    && (r.marked <==> r.status.CheckedIn? || r.status.CheckedOut?)
    && (r.name.Some? ==> r.status in {CheckedIn, AlreadyIn, CheckedOut, AlreadyOut, NotCheckedIn})
  }

  lemma JudgedIsHonest(settings: Settings, db: Register.Db, m: Match, mode: string, date: int)
    requires m.Match?
    ensures HonestlyMarked(Judged(settings, db, m, mode, date))
  {
  }

  lemma OutcomeIsHonest(d: Metric, settings: Settings, db: Register.Db, face: Face, mode: string)
    requires Outcome(d, settings, db, face, mode).Some?
    ensures HonestlyMarked(Outcome(d, settings, db, face, mode).value)
  {
    OutcomeShape(d, settings, db, face, mode);
    var o := Outcome(d, settings, db, face, mode);
    if m: Match :| m.Match? && o.value == Judged(settings, db, m, mode, face.moment.date) {
      JudgedIsHonest(settings, db, m, mode, face.moment.date);
    }
  }

  lemma {:induction false} ResultsAreHonest(d: Metric, settings: Settings, db: Register.Db, faces: seq<Face>,
                                             mode: string)
    ensures forall k :: 0 <= k < |Outcomes(d, settings, db, faces, mode)| ==>
              HonestlyMarked(Outcomes(d, settings, db, faces, mode)[k])
  {
    if faces == [] {
    } else {
      var front, last := faces[..|faces| - 1], faces[|faces| - 1];
      var before := AfterFaces(d, settings, db, front, mode);
      ResultsAreHonest(d, settings, db, front, mode);
      if Outcome(d, settings, before, last, mode).Some? {
        OutcomeIsHonest(d, settings, before, last, mode);
      }
    }
  }

  /** The summary was really seen, and nothing that outranks it was. */
  lemma SummaryOutranks(results: seq<Result>)
    requires results != []
    ensures Seen(results, Summary(results))
    ensures exists i :: 0 <= i < |STATUS_PRIORITY| && STATUS_PRIORITY[i] == Summary(results)
                        && forall j :: 0 <= j < i ==> !Seen(results, STATUS_PRIORITY[j])
  {
    EveryStatusIsRanked(results[0].status);
    var k :| 0 <= k < |STATUS_PRIORITY| && STATUS_PRIORITY[k] == results[0].status;
    assert Seen(results, STATUS_PRIORITY[k]);
    FirstOfSeen(results, k);
  }

  lemma EveryStatusIsRanked(p: Pill)
    ensures p in STATUS_PRIORITY
  {
    assert STATUS_PRIORITY[0].CheckedIn? && STATUS_PRIORITY[1].CheckedOut? && STATUS_PRIORITY[2].AlreadyIn?
           && STATUS_PRIORITY[3].AlreadyOut? && STATUS_PRIORITY[4].Spoof? && STATUS_PRIORITY[5].LivenessError?
           && STATUS_PRIORITY[6].NotCheckedIn? && STATUS_PRIORITY[7].Mismatch? && STATUS_PRIORITY[8].NotLinked?
           && STATUS_PRIORITY[9].Unknown?;
  }

  lemma FirstOfSeen(results: seq<Result>, k: nat)
    requires k < |STATUS_PRIORITY| && Seen(results, STATUS_PRIORITY[k])
    ensures exists i :: 0 <= i < |STATUS_PRIORITY| && STATUS_PRIORITY[i] == Summary(results)
                        && Seen(results, STATUS_PRIORITY[i])
                        && forall j :: 0 <= j < i ==> !Seen(results, STATUS_PRIORITY[j])
    decreases k
  {
    if j :| 0 <= j < k && Seen(results, STATUS_PRIORITY[j]) {
      FirstOfSeen(results, j);
    } else {
      SummaryIs(results, k);
    }
  }

  lemma HonestSummary(results: seq<Result>)
    requires results != [] && forall k :: 0 <= k < |results| ==> HonestlyMarked(results[k])
    ensures Summary(results).CheckedIn? || Summary(results).CheckedOut? <==>
            exists k :: 0 <= k < |results| && results[k].marked
  {
    SummaryOutranks(results);
    if k :| 0 <= k < |results| && results[k].marked {
      assert HonestlyMarked(results[k]);
      assert STATUS_PRIORITY[0].CheckedIn? && STATUS_PRIORITY[1].CheckedOut?;
      assert Seen(results, STATUS_PRIORITY[0]) || Seen(results, STATUS_PRIORITY[1]);
    }
  }

  /** The pill says "checked_in" or "checked_out" exactly when some face was marked. */
  lemma SummaryTellsOfMarks(d: Metric, settings: Settings, db: Register.Db, faces: seq<Face>, mode: string)
    requires Outcomes(d, settings, db, faces, mode) != []
    ensures var results := Outcomes(d, settings, db, faces, mode);
            Summary(results).CheckedIn? || Summary(results).CheckedOut? <==>
            exists k :: 0 <= k < |results| && results[k].marked
  {
    ResultsAreHonest(d, settings, db, faces, mode);
    HonestSummary(Outcomes(d, settings, db, faces, mode));
  }

  /** A face refused by liveness, or met while the model is broken, changes nothing and
      carries no name. */
  lemma RefusedFaceLeavesNoTrace(d: Metric, settings: Settings, db: Register.Db, face: Face, mode: string)
    requires !Live(settings, face)
    ensures AfterFace(d, settings, db, face, mode) == db
    ensures var o := Outcome(d, settings, db, face, mode);
            o.Some? && o.value.name.None? && !o.value.marked
            && o.value.status == if face.score.None? then LivenessError else Spoof
  {
  }

  ghost predicate SameButFor(a: Register.Db, b: Register.Db, id: int) {
    && a.students == b.students
    && |a.rows| <= |b.rows|
    && (forall k :: 0 <= k < |a.rows| && a.rows[k].studentId != id ==> b.rows[k] == a.rows[k])
    && (forall k :: 0 <= k < |a.rows| ==> b.rows[k].studentId == a.rows[k].studentId)
    && (forall k :: |a.rows| <= k < |b.rows| ==> b.rows[k].studentId == id)
  }

  ghost predicate OnlyItsOwner(settings: Settings, a: Register.Db, b: Register.Db) {
    if settings.linked.None? then b == a else SameButFor(a, b, settings.linked.value)
  }

  lemma CheckOutTouchesOnly(db: Register.Db, name: string, id: int, moment: Register.Moment)
    requires Register.SelectId(db.students, name) == Some(id)
    ensures SameButFor(db, Register.AfterCheckOut(db, name, moment), id)
  {
    Register.ClosedFacts(db.rows, id, moment.date, moment.instant);
  }

  lemma CheckInTouchesOnly(db: Register.Db, name: string, id: int, confidence: Option<real>, moment: Register.Moment)
    requires Register.SelectId(db.students, name) == Some(id)
    ensures SameButFor(db, Register.AfterCheckIn(db, name, confidence, moment), id)
  {
  }

  /** A name is given only to the linked student. */
  lemma PersonalName(settings: Settings, db: Register.Db, m: Match, mode: string, date: int)
    requires !settings.kiosk && m.Match? && Judged(settings, db, m, mode, date).name.Some?
    ensures settings.linked.Some?
    ensures settings.linked == Register.SelectId(db.students, Judged(settings, db, m, mode, date).name.value)
  {
  }

  lemma PersonalJudgement(settings: Settings, db: Register.Db, m: Match, mode: string, moment: Register.Moment)
    requires !settings.kiosk && m.Match?
    ensures OnlyItsOwner(settings, db, Recorded(db, Judged(settings, db, m, mode, moment.date), mode, moment))
  {
    var r := Judged(settings, db, m, mode, moment.date);
    if r.name.Some? {
      PersonalName(settings, db, m, mode, moment.date);
      CheckOutTouchesOnly(db, r.name.value, settings.linked.value, moment);
      CheckInTouchesOnly(db, r.name.value, settings.linked.value, r.distance, moment);
    }
  }

  /** One face in personal mode: a name is given only for the linked person. */
  lemma PersonalFaceTouchesOnlyItsOwner(d: Metric, settings: Settings, db: Register.Db, face: Face, mode: string)
    requires !settings.kiosk
    ensures OnlyItsOwner(settings, db, AfterFace(d, settings, db, face, mode))
    ensures var o := Outcome(d, settings, db, face, mode);
            o.Some? && o.value.name.Some? ==>
              settings.linked.Some? && settings.linked == Register.SelectId(db.students, o.value.name.value)
  {
    OutcomeShape(d, settings, db, face, mode);
    var o := Outcome(d, settings, db, face, mode);
    if m: Match :| o.Some? && m.Match? && o.value == Judged(settings, db, m, mode, face.moment.date) {
      PersonalJudgement(settings, db, m, mode, face.moment);
      if o.value.name.Some? {
        PersonalName(settings, db, m, mode, face.moment.date);
      }
    }
  }

  /** In personal mode only the linked student's rows can change, whoever stands in front of
      the camera, and nobody is registered. */
  lemma {:induction false} PersonalModeTouchesOnlyItsOwner(d: Metric, settings: Settings, db: Register.Db,
                                                            faces: seq<Face>, mode: string)
    requires !settings.kiosk
    ensures OnlyItsOwner(settings, db, AfterFaces(d, settings, db, faces, mode))
  {
    if faces == [] {
    } else {
      var front := faces[..|faces| - 1];
      PersonalModeTouchesOnlyItsOwner(d, settings, db, front, mode);
      PersonalFaceTouchesOnlyItsOwner(d, settings, AfterFaces(d, settings, db, front, mode), faces[|faces| - 1], mode);
    }
  }

  // --- who is named, and what is recorded of them ----------------------------------------------------

  /** No photo of anybody enrolled is within the tolerance of this face. */
  ghost predicate NobodyWithin(d: Metric, face: Encoding, people: People, tolerance: real) {
    forall p, e :: p in people && e in p.encodings ==> d(e, face) > tolerance
  }

  lemma LoadedAreFilled(people: Loaded)
    ensures FilledUpTo(people, |people|)
  {
    forall j | 0 <= j < |people| ensures people[j].encodings != [] {
      assert people[j] in people;
    }
  }

  lemma NobodyIsIdentified(d: Metric, face: Encoding, people: Loaded, tolerance: real)
    requires NobodyWithin(d, face, people, tolerance)
    ensures Identify(d, face, people, tolerance).Match? && Identify(d, face, people, tolerance).name == "Unknown"
    ensures Identify(d, face, people, tolerance).distance == None <==> people == []
  {
    LoadedAreFilled(people);
    if people == [] {
    } else {
      ClosestIsClosest(d, face, people, |people|);
      var i := Closest(d, face, people, |people|);
      IdentifyIsTheClosest(d, face, people, tolerance, i);
      NearestIsTheMinimum(d, face, people[i].encodings);
      var e :| e in people[i].encodings && Nearest(d, face, people[i].encodings) == d(e, face);
      assert people[i] in people;
    }
  }

  /** A live face like nobody's enrolled is told it is unknown, in either mode; it is given no name
      and leaves the register as it was. */
  lemma StrangerLeavesNoTrace(d: Metric, settings: Settings, db: Register.Db, face: Face, mode: string)
    requires Live(settings, face) && face.encoding.Some?
    requires NobodyWithin(d, face.encoding.value, face.known, TOLERANCE)
    ensures AfterFace(d, settings, db, face, mode) == db
    ensures var o := Outcome(d, settings, db, face, mode);
            && o.Some? && o.value.status == Pill.Unknown && o.value.name == None && !o.value.marked
            && (o.value.distance == None <==> face.known == [])
  {
    NobodyIsIdentified(d, face.encoding.value, face.known, TOLERANCE);
  }

  /** The gate: no score from a broken model is an error, a score under the threshold is a spoof, and
      nothing else ever is; a score of exactly the threshold passes. */
  lemma TheGate(d: Metric, settings: Settings, db: Register.Db, face: Face, mode: string)
    ensures var o := Outcome(d, settings, db, face, mode);
            && ((o.Some? && o.value.status.LivenessError?) <==> settings.liveness && face.score == None)
            && ((o.Some? && o.value.status.Spoof?) <==>
                  settings.liveness && face.score.Some? && face.score.value < settings.threshold)
            && (Live(settings, face) <==> !(o.Some? && (o.value.status.LivenessError? || o.value.status.Spoof?)))
  {
  }

  /** A live face that cannot be encoded is not reported at all. */
  lemma UnencodableFaceIsSkipped(d: Metric, settings: Settings, db: Register.Db, face: Face, mode: string)
    requires Live(settings, face) && face.encoding.None?
    ensures Outcome(d, settings, db, face, mode) == None && AfterFace(d, settings, db, face, mode) == db
  {
  }

  /** Person i is the closest to this face, and close enough. */
  ghost predicate Recognised(d: Metric, face: Face, i: nat) {
    && face.encoding.Some? && FilledUpTo(face.known, |face.known|)
    && IsClosest(d, face.encoding.value, face.known, |face.known|, i)
    && NearestOf(d, face.encoding.value, face.known, i) <= TOLERANCE
    && face.known[i].name != "Unknown"
  }

  lemma RecognisedIsIdentified(d: Metric, face: Face, i: nat)
    requires Recognised(d, face, i)
    ensures Identify(d, face.encoding.value, face.known, TOLERANCE)
         == Match(face.known[i].name, Some(NearestOf(d, face.encoding.value, face.known, i)))
  {
    IdentifyIsTheClosest(d, face.encoding.value, face.known, TOLERANCE, i);
  }

  /** Kiosk mode, or an account linked to the student of that name. */
  predicate MayMark(settings: Settings, db: Register.Db, name: string) {
    settings.kiosk || (settings.linked.Some? && Register.SelectId(db.students, name) == settings.linked)
  }

  /** What a recognised person is told, by what the register said of their day before. */
  lemma RecognisedIsNamed(d: Metric, settings: Settings, db: Register.Db, face: Face, mode: string, i: nat)
    requires Live(settings, face) && Recognised(d, face, i) && MayMark(settings, db, face.known[i].name)
    ensures Outcome(d, settings, db, face, mode).Some?
    ensures var r, before := Outcome(d, settings, db, face, mode).value,
                             Register.StatusOf(db, face.known[i].name, face.moment.date);
            && r.name == Some(face.known[i].name)
            && r.distance == Some(NearestOf(d, face.encoding.value, face.known, i))
            && (mode == "out" ==> && (before.Absent? ==> r.status == Pill.NotCheckedIn && !r.marked)
                                  && (before.In? ==> r.status == Pill.CheckedOut && r.marked)
                                  && (before.Out? ==> r.status == Pill.AlreadyOut && !r.marked))
            && (mode != "out" ==> && (before.Absent? ==> r.status == Pill.CheckedIn && r.marked)
                                  && (!before.Absent? ==> r.status == Pill.AlreadyIn && !r.marked))
  {
    RecognisedIsIdentified(d, face, i);
  }

  lemma RecognisedIsRecorded(d: Metric, settings: Settings, db: Register.Db, face: Face, mode: string, i: nat)
    requires Live(settings, face) && Recognised(d, face, i) && MayMark(settings, db, face.known[i].name)
    ensures AfterFace(d, settings, db, face, mode)
         == if mode == "out" then Register.AfterCheckOut(db, face.known[i].name, face.moment)
            else Register.AfterCheckIn(db, face.known[i].name,
                                       Some(NearestOf(d, face.encoding.value, face.known, i)), face.moment)
  {
    RecognisedIsIdentified(d, face, i);
  }

  /** That person's day moves on as it should, and nobody else's day and no other day of theirs
      moves at all. */
  lemma RecognisedMoves(d: Metric, settings: Settings, db: Register.Db, face: Face, mode: string, i: nat,
                        other: string, date: int)
    requires Register.DbInv(db)
    requires Live(settings, face) && Recognised(d, face, i) && MayMark(settings, db, face.known[i].name)
    ensures var before, after := Register.StatusOf(db, other, date),
                                 Register.StatusOf(AfterFace(d, settings, db, face, mode), other, date);
            after == if other != face.known[i].name || date != face.moment.date then before
                     else if mode == "out" then (if before.In? then Register.Out else before)
                     else if before.Absent? then Register.In else before
  {
    RecognisedIsRecorded(d, settings, db, face, mode, i);
    var name := face.known[i].name;
    Register.CheckOutMoves(db, name, face.moment, other, date);
    Register.CheckInMoves(db, name, Some(NearestOf(d, face.encoding.value, face.known, i)), face.moment, other, date);
  }

  /** An arrival is one new row, with the distance that was reported for its confidence. */
  lemma ArrivalIsOneRow(d: Metric, settings: Settings, db: Register.Db, face: Face, mode: string, i: nat)
    requires Register.DbInv(db) && mode != "out"
    requires Live(settings, face) && Recognised(d, face, i) && MayMark(settings, db, face.known[i].name)
    requires Register.StatusOf(db, face.known[i].name, face.moment.date).Absent?
    ensures var after, r := AfterFace(d, settings, db, face, mode), Outcome(d, settings, db, face, mode);
            && r.Some? && r.value.name.Some? && Register.SelectId(after.students, r.value.name.value).Some?
            && after.rows == db.rows + [Register.Row(Register.SelectId(after.students, r.value.name.value).value,
                                                     face.moment.date, face.moment.instant, None, r.value.distance)]
  {
    RecognisedIsRecorded(d, settings, db, face, mode, i);
    RecognisedIsNamed(d, settings, db, face, mode, i);
    Register.CheckInRow(db, face.known[i].name, Some(NearestOf(d, face.encoding.value, face.known, i)), face.moment);
  }

  /** Somebody else's face in personal mode: the account is told so, and not whose it is. */
  lemma OthersAreNotNamed(d: Metric, settings: Settings, db: Register.Db, face: Face, mode: string, i: nat)
    requires Live(settings, face) && Recognised(d, face, i) && !MayMark(settings, db, face.known[i].name)
    ensures Outcome(d, settings, db, face, mode)
         == Some(Result(if settings.linked.None? then Pill.NotLinked else Pill.Mismatch, None, None, false))
    ensures AfterFace(d, settings, db, face, mode) == db
  {
    RecognisedIsIdentified(d, face, i);
  }

  // --- every face in turn ---------------------------------------------------------------------------

  /** Up to five faces are all handled, of more the first five. */
  lemma TheFirstFiveAreHandled(faces: seq<Face>)
    ensures Handled(faces) <= faces
    ensures |Handled(faces)| == if |faces| < 5 then |faces| else 5
  {
  }

  /** Each face meets the register as the faces before it left it, and results come in their order. */
  lemma {:induction false} FacesTakeTurns(d: Metric, settings: Settings, db: Register.Db, a: seq<Face>, b: seq<Face>,
                                          mode: string)
    ensures AfterFaces(d, settings, db, a + b, mode)
         == AfterFaces(d, settings, AfterFaces(d, settings, db, a, mode), b, mode)
    ensures Outcomes(d, settings, db, a + b, mode)
         == Outcomes(d, settings, db, a, mode) + Outcomes(d, settings, AfterFaces(d, settings, db, a, mode), b, mode)
  {
    if b == [] {
      assert a + b == a;
      assert Outcomes(d, settings, db, a, mode) + [] == Outcomes(d, settings, db, a, mode);
    } else {
      FacesTakeTurns(d, settings, db, a, b[..|b| - 1], mode);
      assert (a + b)[..|a + b| - 1] == a + b[..|b| - 1];
    }
  }

  lemma OneFace(d: Metric, settings: Settings, db: Register.Db, face: Face, mode: string)
    ensures AfterFaces(d, settings, db, [face], mode) == AfterFace(d, settings, db, face, mode)
    ensures Outcomes(d, settings, db, [face], mode)
         == match Outcome(d, settings, db, face, mode) case None => [] case Some(r) => [r]
  {
    assert [face][..0] == [];
  }

  // --- the pill ------------------------------------------------------------------------------------

  /** What happened comes before what had happened, a refused spoof and a broken model before
      anything that merely did not work out, and a stranger last. */
  function Rank(p: Pill): nat {
    match p
    case CheckedIn => 0
    case CheckedOut => 1
    case AlreadyIn => 2
    case AlreadyOut => 3
    case Spoof => 4
    case LivenessError => 5
    case NotCheckedIn => 6
    case Mismatch => 7
    case NotLinked => 8
    case Unknown => 9
  }

  lemma PriorityIsRank(i: nat)
    requires i < |STATUS_PRIORITY|
    ensures Rank(STATUS_PRIORITY[i]) == i
  {
    assert |STATUS_PRIORITY| == 10;
    if i < 5 {
      assert i == 0 || i == 1 || i == 2 || i == 3 || i == 4;
    } else {
      assert i == 5 || i == 6 || i == 7 || i == 8 || i == 9;
    }
  }

  /** The pill shows the result that ranks first, and unknown when there is none. */
  lemma PillRanksFirst(results: seq<Result>)
    ensures if results == [] then Summary(results) == Pill.Unknown
            else exists k :: 0 <= k < |results| && results[k].status == Summary(results)
    ensures forall k :: 0 <= k < |results| ==> Rank(Summary(results)) <= Rank(results[k].status)
  {
    if results == [] {
      NothingSeen(results, STATUS_PRIORITY);
      return;
    }
    SummaryOutranks(results);
    var i :| 0 <= i < |STATUS_PRIORITY| && STATUS_PRIORITY[i] == Summary(results)
             && forall j :: 0 <= j < i ==> !Seen(results, STATUS_PRIORITY[j]);
    PriorityIsRank(i);
    forall k | 0 <= k < |results| ensures Rank(Summary(results)) <= Rank(results[k].status) {
      EveryStatusIsRanked(results[k].status);
      var j :| 0 <= j < |STATUS_PRIORITY| && STATUS_PRIORITY[j] == results[k].status;
      PriorityIsRank(j);
      assert Seen(results, STATUS_PRIORITY[j]);
    }
  }
}
