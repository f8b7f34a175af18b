/** Every interleaving of readers and writers of the encoding file, over any number of
    worker processes, any of which may die at any step (attendance/enrolment.py:71-107,
    216-226, 332-350; attendance/recognition.py:152-191). */
module EncodingProtocol {
  import opened Options
  import opened EncodingStore
  import opened EncodingCache

  /** What one enrol or remove_person does to the dictionary. */
  datatype Edit = Enrol(name: string, vectors: seq<Encoding>) | Remove(name: string)

  /** enrol() refuses a submission with no usable photo, or a name with anything but letters,
      digits and a few signs in it, before it reaches the file. */
  predicate WellFormed(e: Edit) {
    e.Enrol? ==> e.vectors != [] && Clean(e.name)
  }

  /** remove_person raises when the person is not there. */
  predicate Accepts(people: People, e: Edit) {
    e.Remove? ==> Has(people, e.name)
  }

  function Change(people: People, e: Edit): People {
    match e
    case Enrol(name, vectors) => Add(people, name, vectors)
    case Remove(name) => if Has(people, name) then Without(people, name) else people
  }

  /** The serial specification: the edits one after another. */
  function Replay(start: People, log: seq<Entry>): People {
    if log == [] then start
    else Change(Replay(start, log[..|log| - 1]), log[|log| - 1].edit)
  }

  /** Where one process is. The number is the call it is working on, `start` the file
      version current when the read began. */
  datatype Pc =
    | Idle
    | Stating(start: nat)
    | Loading(start: nat, seen: Option<Stamp>)
    | Opening(start: nat, seen: Option<Stamp>)
    | Waiting(call: nat)
    | Locked(call: nat)
    | Holding(call: nat, copy: People)
    | Changed(call: nat, copy: People)
    | Saved(call: nat)
    | Reloading

  datatype Worker = Worker(cache: Cache, pc: Pc)

  datatype Outcome = Running | Succeeded | Refused(version: nat) | TimedOut | Died

  datatype Call = Call(edit: Edit, outcome: Outcome)
  datatype Entry = Entry(call: nat, edit: Edit)
  datatype Read = Read(start: nat, end: nat, result: People)

  /** `history` lists every version of the file, `log` every save in order, `calls` and
      `answers` what callers were told. */
  datatype State = State(
    history: seq<File>, lock: Option<nat>, workers: seq<Worker>,
    calls: seq<Call>, log: seq<Entry>, answers: seq<Read>)
  {
    function Now(): nat
      requires history != []
    {
      |history| - 1
    }

    function Disk(): File
      requires history != []
    {
      history[|history| - 1]
    }
  }

  datatype Step =
    | BeginRead(p: nat)
    | BeginReload(p: nat)
    | Stat(p: nat)
    | Look(p: nat)
    | LoadFile(p: nat)
    | BeginEdit(p: nat, edit: Edit)
    | Acquire(p: nat)
    | GiveUp(p: nat)
    | ReadForEdit(p: nat)
    | ChangeCopy(p: nat)
    | SaveCopy(p: nat, stamp: Stamp)
    | Release(p: nat)
    | Crash(p: nat)

  function At(s: State, p: nat, w: Worker): State
    requires p < |s.workers|
  {
    s.(workers := s.workers[p := w])
  }

  function Settle(s: State, call: nat, o: Outcome): State {
    if call < |s.calls| then s.(calls := s.calls[call := s.calls[call].(outcome := o)]) else s
  }

  predicate InCritical(pc: Pc) {
    pc.Locked? || pc.Holding? || pc.Changed? || pc.Saved?
  }

  predicate Editing(pc: Pc) {
    pc.Waiting? || InCritical(pc)
  }

  /** One atomic step. A step that is not enabled leaves everything as it was, so any
      sequence of steps is a run. A writer's read is one step: it holds the lock, so the file
      stays what it is. */
  function Do(s: State, step: Step): State
    requires s.history != []
  {
    if step.p >= |s.workers| then s else
    var p, w := step.p, s.workers[step.p];
    match (step, w.pc)
    case (BeginRead(_), Idle) => At(s, p, w.(pc := Stating(s.Now())))
    case (BeginReload(_), Idle) => At(s, p, Worker(EMPTY, Stating(s.Now())))
    case (BeginReload(_), Reloading) => At(s, p, Worker(EMPTY, Stating(s.Now())))
    case (Stat(_), Stating(start)) =>
      if Hit(w.cache, FileStamp(s.Disk()))
      then At(s, p, w.(pc := Idle)).(answers := s.answers + [Read(start, s.Now(), w.cache.known.value)])
      else At(s, p, w.(pc := Loading(start, FileStamp(s.Disk()))))
    case (Look(_), Loading(start, seen)) =>
      if s.Disk().Absent?
      then At(s, p, Worker(Cache(Some(Load(s.Disk())), seen), Idle))
             .(answers := s.answers + [Read(start, s.Now(), Load(s.Disk()))])
      else At(s, p, w.(pc := Opening(start, seen)))
    case (LoadFile(_), Opening(start, seen)) =>
      At(s, p, Worker(Cache(Some(Load(s.Disk())), seen), Idle))
        .(answers := s.answers + [Read(start, s.Now(), Load(s.Disk()))])
    case (BeginEdit(_, e), Idle) =>
      if WellFormed(e)
      then At(s, p, w.(pc := Waiting(|s.calls|))).(calls := s.calls + [Call(e, Running)])
      else s
    case (Acquire(_), Waiting(c)) =>
      if s.lock.None? then At(s, p, w.(pc := Locked(c))).(lock := Some(p)) else s
    case (GiveUp(_), Waiting(c)) => Settle(At(s, p, w.(pc := Idle)), c, TimedOut)
    case (ReadForEdit(_), Locked(c)) => At(s, p, w.(pc := Holding(c, Load(s.Disk()))))
    case (ChangeCopy(_), Holding(c, copy)) =>
      if c < |s.calls| && Accepts(copy, s.calls[c].edit)
      then At(s, p, w.(pc := Changed(c, Change(copy, s.calls[c].edit))))
      else Settle(At(s, p, w.(pc := Idle)).(lock := None), c, Refused(s.Now()))
    case (SaveCopy(_, stamp), Changed(c, copy)) =>
      if c < |s.calls|
      then At(s, p, w.(pc := Saved(c)))
             .(history := s.history + [Present(stamp, Pack(copy))],
               log := s.log + [Entry(c, s.calls[c].edit)])
      else s
    case (Release(_), Saved(c)) =>
      Settle(At(s, p, w.(pc := Reloading)).(lock := None), c, Succeeded)
    case (Crash(_), pc) =>
      var freed := At(s, p, Worker(EMPTY, Idle)).(lock := if s.lock == Some(p) then None else s.lock);
      if Editing(pc) then Settle(freed, pc.call, Died) else freed
    case _ => s
  }

  function Run(s: State, steps: seq<Step>): (t: State)
    requires s.history != []
    ensures t.history != []
    decreases |steps|
  {
    if steps == [] then s
    else Do(Run(s, steps[..|steps| - 1]), steps[|steps| - 1])
  }

  /** Freshly started workers in front of any file, or none. */
  ghost predicate Initial(s: State) {
    && |s.history| == 1 && s.lock == None && s.calls == [] && s.log == [] && s.answers == []
    && forall p :: 0 <= p < |s.workers| ==> s.workers[p] == Worker(EMPTY, Idle)
  }

  // --- invariants ---------------------------------------------------------------------

  ghost predicate InLog(log: seq<Entry>, call: nat) {
    exists k :: 0 <= k < |log| && log[k].call == call
  }

  /** The lock is held by exactly the process in the critical section, and its private copy
      is the file it is about to replace. */
  ghost predicate LockInv(s: State)
    requires s.history != []
  {
    forall p :: 0 <= p < |s.workers| ==> Exclusive(s, p, s.workers[p].pc)
  }

  ghost predicate Exclusive(s: State, p: nat, pc: Pc)
    requires s.history != []
  {
    (InCritical(pc) <==> s.lock == Some(p)) && CopyInv(s, pc)
  }

  predicate OwnsAnEdit(s: State, pc: Pc) {
    Editing(pc) ==> pc.call < |s.calls| && WellFormed(s.calls[pc.call].edit)
  }

  /** What a process holds on to is its own edit, and the file as it is. */
  ghost predicate CopyInv(s: State, pc: Pc)
    requires s.history != []
  {
    && OwnsAnEdit(s, pc)
    && (pc.Holding? ==> pc.copy == Load(s.Disk()))
    && (pc.Changed? ==>
          && Accepts(Load(s.Disk()), s.calls[pc.call].edit)
          && pc.copy == Change(Load(s.Disk()), s.calls[pc.call].edit))
  }

  /** Version k of the file is the serial replay of the first k saves. */
  ghost predicate FileInv(s: State) {
    Versions(s.history, s.log)
  }

  ghost predicate Versions(history: seq<File>, log: seq<Entry>) {
    && |history| == |log| + 1
    && forall k :: 0 <= k < |history| ==> Load(history[k]) == Replay(Load(history[0]), log[..k])
  }

  /** Every save belongs to one call, and no call saves twice. */
  ghost predicate LogInv(s: State) {
    && (forall i, j :: 0 <= i < j < |s.log| ==> s.log[i].call != s.log[j].call)
    && (forall k :: 0 <= k < |s.log| ==>
          s.log[k].call < |s.calls| && s.log[k].edit == s.calls[s.log[k].call].edit)
  }

  /** Each call is worked on by at most one process, and its save is in the log exactly
      when that process is past it. */
  ghost predicate CallInv(s: State) {
    && (forall p :: 0 <= p < |s.workers| ==> Owned(s, s.workers[p].pc))
    && (forall p, q :: 0 <= p < q < |s.workers| && Editing(s.workers[p].pc) && Editing(s.workers[q].pc) ==>
          s.workers[p].pc.call != s.workers[q].pc.call)
  }

  ghost predicate Owned(s: State, pc: Pc) {
    Editing(pc) ==>
      && pc.call < |s.calls|
      && s.calls[pc.call].outcome == Running
      && (InLog(s.log, pc.call) <==> pc.Saved?)
  }

  /** What each caller was told about its save. */
  ghost predicate OutcomesInv(s: State) {
    forall c :: 0 <= c < |s.calls| ==> OutcomeInv(s, c)
  }

  ghost predicate OutcomeInv(s: State, c: nat)
    requires c < |s.calls|
  {
    match s.calls[c].outcome
    case Running => true
    case Died => true
    case Succeeded => InLog(s.log, c)
    case TimedOut => !InLog(s.log, c)
    case Refused(v) =>
      && !InLog(s.log, c) && v < |s.history|
      && s.calls[c].edit.Remove? && !Has(Load(s.history[v]), s.calls[c].edit.name)
  }

  ghost predicate ReadInv(s: State)
    requires s.history != []
  {
    && (forall p :: 0 <= p < |s.workers| ==> Reading(s.history, s.workers[p]))
    && (StampsTellApart(s.history) ==> forall k :: 0 <= k < |s.answers| ==> Current(s.history, s.answers[k]))
  }

  ghost predicate Reading(history: seq<File>, w: Worker)
    requires history != []
  {
    && Traced(history, w.cache, |history| - 1)
    && (w.pc.Stating? ==> w.pc.start < |history|)
    && (w.pc.Loading? || w.pc.Opening? ==> SeenSince(history, w.pc.start, w.pc.seen))
  }

  ghost predicate SeenSince(history: seq<File>, start: nat, seen: Option<Stamp>) {
    exists v :: start <= v < |history| && FileStamp(history[v]) == seen
  }

  /** The answer was the file's contents at some moment between the call and its return. */
  ghost predicate Current(history: seq<File>, r: Read) {
    exists v :: r.start <= v <= r.end && v < |history| && r.result == Load(history[v])
  }

  // --- every step keeps them ------------------------------------------------------------

  lemma LoadedIsWellLoaded(f: File)
    ensures WellLoaded(Load(f)) && CleanNames(Load(f))
  {
    if f.Present? {
      GroupIsByName(Zip(f.arrays), "");
      ReadNamesAreClean(f.arrays);
    }
  }

  lemma ChangeKeepsClean(people: People, e: Edit)
    requires CleanNames(people) && WellFormed(e)
    ensures CleanNames(Change(people, e))
  {
    if e.Enrol? {
      AddKeepsClean(people, e.name, e.vectors);
    }
  }

  lemma ChangeKeepsWellLoaded(people: People, e: Edit)
    requires WellLoaded(people) && WellFormed(e)
    ensures WellLoaded(Change(people, e))
  {
    if e.Enrol? {
      AddLookup(people, e.name, e.vectors, e.name);
    } else if Has(people, e.name) {
      WithoutLookup(people, e.name, e.name);
    }
  }

  /** What one step by process p can touch. */
  ghost predicate Frame(s: State, t: State, p: nat)
    requires s.history != []
  {
    && t.history != [] && |t.workers| == |s.workers| && p < |s.workers|
    && (forall q :: 0 <= q < |s.workers| && q != p ==> t.workers[q] == s.workers[q])
    && (t.lock == s.lock || (t.lock == None && s.lock == Some(p)) || (t.lock == Some(p) && s.lock == None))
    && |s.calls| <= |t.calls|
    && (forall c :: 0 <= c < |s.calls| ==> t.calls[c].edit == s.calls[c].edit)
    && (t.history != s.history ==> s.workers[p].pc.Changed?)
  }

  lemma StepFrame(s: State, step: Step)
    requires s.history != [] && LockInv(s)
    ensures Do(s, step) == s || Frame(s, Do(s, step), step.p)
  {
    if step.p < |s.workers| {
      assert Exclusive(s, step.p, s.workers[step.p].pc);
    }
  }

  lemma OthersStayExclusive(s: State, t: State, p: nat, q: nat)
    requires s.history != [] && LockInv(s) && Frame(s, t, p) && q < |s.workers| && q != p
    ensures Exclusive(t, q, t.workers[q].pc)
  {
    assert Exclusive(s, q, s.workers[q].pc) && Exclusive(s, p, s.workers[p].pc);
  }

  lemma MoverKeepsTheLock(s: State, step: Step)
    requires s.history != [] && step.p < |s.workers|
    requires InCritical(s.workers[step.p].pc) <==> s.lock == Some(step.p)
    requires Editing(s.workers[step.p].pc) ==> s.workers[step.p].pc.call < |s.calls|
    ensures step.p < |Do(s, step).workers|
    ensures InCritical(Do(s, step).workers[step.p].pc) <==> Do(s, step).lock == Some(step.p)
  {
  }

  lemma MoverKeepsItsEdit(s: State, step: Step)
    requires s.history != [] && step.p < |s.workers| && OwnsAnEdit(s, s.workers[step.p].pc)
    ensures step.p < |Do(s, step).workers| && OwnsAnEdit(Do(s, step), Do(s, step).workers[step.p].pc)
  {
  }

  lemma ReaderHoldsTheFile(s: State, step: Step)
    requires s.history != [] && step.p < |s.workers| && CopyInv(s, s.workers[step.p].pc) && step.ReadForEdit?
    ensures CopyInv(Do(s, step), Do(s, step).workers[step.p].pc)
  {
  }

  lemma ChangerHoldsTheChange(s: State, step: Step)
    requires s.history != [] && step.p < |s.workers| && CopyInv(s, s.workers[step.p].pc) && step.ChangeCopy?
    ensures CopyInv(Do(s, step), Do(s, step).workers[step.p].pc)
  {
  }

  lemma OthersHoldWhatTheyHeld(s: State, step: Step)
    requires s.history != [] && step.p < |s.workers| && !step.ReadForEdit? && !step.ChangeCopy?
    ensures step.p < |Do(s, step).workers|
    ensures var pc, pc' := s.workers[step.p].pc, Do(s, step).workers[step.p].pc;
            (pc'.Holding? || pc'.Changed?) ==>
              pc' == pc && Do(s, step).history == s.history && Do(s, step).calls == s.calls
  {
  }

  lemma MoverKeepsItsCopy(s: State, step: Step)
    requires s.history != [] && step.p < |s.workers| && CopyInv(s, s.workers[step.p].pc)
    ensures step.p < |Do(s, step).workers| && CopyInv(Do(s, step), Do(s, step).workers[step.p].pc)
  {
    MoverKeepsItsEdit(s, step);
    if step.ReadForEdit? {
      ReaderHoldsTheFile(s, step);
    } else if step.ChangeCopy? {
      ChangerHoldsTheChange(s, step);
    } else {
      OthersHoldWhatTheyHeld(s, step);
    }
  }

  lemma LockStep(s: State, step: Step)
    requires s.history != [] && LockInv(s)
    ensures LockInv(Do(s, step))
  {
    StepFrame(s, step);
    var t := Do(s, step);
    if t != s {
      assert Exclusive(s, step.p, s.workers[step.p].pc);
      MoverKeepsTheLock(s, step);
      MoverKeepsItsCopy(s, step);
      forall q | 0 <= q < |t.workers| ensures Exclusive(t, q, t.workers[q].pc) {
        if q != step.p {
          OthersStayExclusive(s, t, step.p, q);
        }
      }
    }
  }

  /** The copy being saved is the current file with one edit made to it. */
  lemma SavedFileLoads(s: State, p: nat, call: nat, copy: People, stamp: Stamp)
    requires s.history != [] && LockInv(s)
    requires Exclusive(s, p, Changed(call, copy))
    ensures Load(Present(stamp, Pack(copy))) == Change(Load(s.Disk()), s.calls[call].edit)
  {
    LoadedIsWellLoaded(s.Disk());
    ChangeKeepsWellLoaded(Load(s.Disk()), s.calls[call].edit);
    ChangeKeepsClean(Load(s.Disk()), s.calls[call].edit);
    SavedIsLoaded(copy);
  }

  /** A version and a save, added together. */
  lemma OneMoreVersion(history: seq<File>, log: seq<Entry>, file: File, entry: Entry)
    requires Versions(history, log)
    requires Load(file) == Change(Load(history[|history| - 1]), entry.edit)
    ensures Versions(history + [file], log + [entry])
  {
    assert log[..|log|] == log;
    forall k | 0 <= k <= |history|
      ensures Load((history + [file])[k]) == Replay(Load(history[0]), (log + [entry])[..k])
    {
      if k < |history| {
        assert (log + [entry])[..k] == log[..k];
      } else {
        assert (log + [entry])[..k] == log + [entry] && (log + [entry])[..|log|] == log;
      }
    }
  }

  lemma WhatIsSaved(s: State, step: Step)
    requires s.history != [] && Do(s, step).log != s.log
    ensures step.p < |s.workers| && step.SaveCopy?
    ensures var pc := s.workers[step.p].pc;
            && pc.Changed? && pc.call < |s.calls|
            && Do(s, step).history == s.history + [Present(step.stamp, Pack(pc.copy))]
            && Do(s, step).log == s.log + [Entry(pc.call, s.calls[pc.call].edit)]
  {
  }

  lemma FileStep(s: State, step: Step)
    requires s.history != [] && LockInv(s) && FileInv(s)
    ensures FileInv(Do(s, step))
  {
    if Do(s, step).log == s.log {
      StepCallFrame(s, step);
    } else {
      WhatIsSaved(s, step);
      var pc := s.workers[step.p].pc;
      SavedFileLoads(s, step.p, pc.call, pc.copy, step.stamp);
      OneMoreVersion(s.history, s.log, Present(step.stamp, Pack(pc.copy)), Entry(pc.call, s.calls[pc.call].edit));
    }
  }

  lemma InLogOneMore(log: seq<Entry>, e: Entry, call: nat)
    ensures InLog(log + [e], call) <==> InLog(log, call) || e.call == call
  {
    if InLog(log, call) {
      var k :| 0 <= k < |log| && log[k].call == call;
      assert (log + [e])[k].call == call;
    }
    assert (log + [e])[|log|] == e;
  }

  /** What one step can do to the calls: only the mover's own call is settled or logged,
      and a new call gets a number nobody has seen. */
  ghost predicate CallFrame(s: State, t: State, w: Worker) {
    && |s.calls| <= |t.calls| <= |s.calls| + 1
    && (forall c :: 0 <= c < |s.calls| ==> t.calls[c].edit == s.calls[c].edit)
    && (forall c :: 0 <= c < |s.calls| && !(Editing(w.pc) && w.pc.call == c) ==> t.calls[c] == s.calls[c])
    && (|t.calls| > |s.calls| ==> t.calls[|s.calls|].outcome == Running)
    && (t.log == s.log || (w.pc.Changed? && w.pc.call < |s.calls|
                           && t.log == s.log + [Entry(w.pc.call, s.calls[w.pc.call].edit)]))
    && s.history <= t.history && (t.log == s.log <==> t.history == s.history)
  }

  lemma StepCallFrame(s: State, step: Step)
    requires s.history != []
    ensures Do(s, step) == s || (step.p < |s.workers| && CallFrame(s, Do(s, step), s.workers[step.p]))
  {
  }

  lemma LogStep(s: State, step: Step)
    requires s.history != [] && LogInv(s) && CallInv(s)
    ensures LogInv(Do(s, step))
  {
    StepCallFrame(s, step);
    var t := Do(s, step);
    if t.log != s.log {
      assert Owned(s, s.workers[step.p].pc);
    }
  }

  lemma MoverStaysOwner(s: State, step: Step)
    requires s.history != [] && LogInv(s) && CallInv(s) && step.p < |s.workers|
    ensures Owned(Do(s, step), Do(s, step).workers[step.p].pc)
  {
    assert Owned(s, s.workers[step.p].pc);
    StepCallFrame(s, step);
    var w := s.workers[step.p];
    if w.pc.Changed? {
      InLogOneMore(s.log, Entry(w.pc.call, s.calls[w.pc.call].edit), w.pc.call);
    }
  }

  lemma OthersStayOwners(s: State, t: State, p: nat, q: nat)
    requires s.history != [] && LockInv(s) && CallInv(s) && Frame(s, t, p) && CallFrame(s, t, s.workers[p])
    requires q < |s.workers| && q != p
    ensures Owned(t, t.workers[q].pc)
  {
    assert Owned(s, s.workers[q].pc) && Owned(s, s.workers[p].pc);
    if t.log != s.log && Editing(s.workers[q].pc) {
      var c := s.workers[p].pc.call;
      InLogOneMore(s.log, Entry(c, s.calls[c].edit), s.workers[q].pc.call);
    }
  }

  lemma MoverKeepsItsNumber(s: State, step: Step)
    requires s.history != [] && step.p < |s.workers|
    ensures var pc, pc' := s.workers[step.p].pc, Do(s, step).workers[step.p].pc;
            Editing(pc') ==> (Editing(pc) && pc'.call == pc.call) || pc'.call == |s.calls|
  {
  }

  lemma CallStep(s: State, step: Step)
    requires s.history != [] && LockInv(s) && LogInv(s) && CallInv(s)
    ensures CallInv(Do(s, step))
  {
    StepFrame(s, step);
    StepCallFrame(s, step);
    var t := Do(s, step);
    if t != s {
      MoverStaysOwner(s, step);
      MoverKeepsItsNumber(s, step);
      forall q | 0 <= q < |t.workers| ensures Owned(t, t.workers[q].pc) {
        if q != step.p {
          OthersStayOwners(s, t, step.p, q);
        }
      }
      forall q | 0 <= q < |t.workers| && q != step.p && Editing(t.workers[q].pc) && Editing(t.workers[step.p].pc)
        ensures t.workers[q].pc.call != t.workers[step.p].pc.call
      {
        assert Owned(s, s.workers[q].pc);
      }
    }
  }

  lemma MoverSettlesTruthfully(s: State, step: Step)
    requires s.history != [] && LockInv(s) && CallInv(s) && OutcomesInv(s)
    requires step.p < |s.workers| && Editing(s.workers[step.p].pc)
    ensures var c := s.workers[step.p].pc.call;
            c < |s.calls| <= |Do(s, step).calls| && OutcomeInv(Do(s, step), c)
  {
    var pc := s.workers[step.p].pc;
    assert Owned(s, pc) && Exclusive(s, step.p, pc) && OutcomeInv(s, pc.call);
    StepCallFrame(s, step);
  }

  lemma OutcomeStep(s: State, step: Step)
    requires s.history != [] && LockInv(s) && LogInv(s) && CallInv(s) && OutcomesInv(s)
    ensures OutcomesInv(Do(s, step))
  {
    StepCallFrame(s, step);
    var t := Do(s, step);
    if t != s {
      var pc := s.workers[step.p].pc;
      forall c | 0 <= c < |t.calls| ensures OutcomeInv(t, c) {
        if Editing(pc) && pc.call == c {
          MoverSettlesTruthfully(s, step);
        } else if c < |s.calls| {
          assert OutcomeInv(s, c);
          if t.log != s.log {
            InLogOneMore(s.log, Entry(pc.call, s.calls[pc.call].edit), c);
          }
        }
      }
    }
  }

  // --- readers ---------------------------------------------------------------------------

  lemma TracedLater(h: seq<File>, h': seq<File>, w: Worker)
    requires h != [] && h <= h' && Reading(h, w)
    ensures Reading(h', w)
  {
    if w.cache.known.Some? {
      var i, j :| 0 <= i <= j <= |h| - 1 && FileStamp(h[i]) == w.cache.stamp && Load(h[j]) == w.cache.known.value;
      assert FileStamp(h'[i]) == w.cache.stamp && Load(h'[j]) == w.cache.known.value;
    }
    if w.pc.Loading? || w.pc.Opening? {
      var v :| w.pc.start <= v < |h| && FileStamp(h[v]) == w.pc.seen;
      assert FileStamp(h'[v]) == w.pc.seen;
    }
  }

  lemma LoadedIsTraced(h: seq<File>, pc: Pc)
    requires h != [] && (pc.Loading? || pc.Opening?) && SeenSince(h, pc.start, pc.seen)
    ensures Traced(h, Cache(Some(Load(h[|h| - 1])), pc.seen), |h| - 1)
  {
    var v :| pc.start <= v < |h| && FileStamp(h[v]) == pc.seen;
  }

  lemma MoverKeepsReading(s: State, step: Step)
    requires s.history != [] && step.p < |s.workers| && Reading(s.history, s.workers[step.p])
    ensures Reading(Do(s, step).history, Do(s, step).workers[step.p])
  {
    var h, w := s.history, s.workers[step.p];
    var t := Do(s, step);
    if t.history != h {
      TracedLater(h, t.history, w);
    } else if (w.pc.Loading? && step.Look?) || (w.pc.Opening? && step.LoadFile?) {
      LoadedIsTraced(h, w.pc);
    } else if w.pc.Stating? && step.Stat? {
      assert FileStamp(h[|h| - 1]) == FileStamp(s.Disk());
    }
  }

  /** When the stamp matches, the cached value is what is on disk right now. */
  lemma HitIsCurrent(h: seq<File>, w: Worker)
    requires h != [] && StampsTellApart(h) && Reading(h, w)
    requires Hit(w.cache, FileStamp(h[|h| - 1]))
    ensures w.cache.known.value == Load(h[|h| - 1])
  {
    var i, j :| 0 <= i <= j <= |h| - 1 && FileStamp(h[i]) == w.cache.stamp && Load(h[j]) == w.cache.known.value;
    assert Load(h[j]) == Load(h[|h| - 1]);
  }

  lemma MoverAnswersTruthfully(s: State, step: Step)
    requires s.history != [] && step.p < |s.workers| && Reading(s.history, s.workers[step.p])
    requires StampsTellApart(s.history)
    ensures s.answers <= Do(s, step).answers
    ensures forall k :: |s.answers| <= k < |Do(s, step).answers| ==> Current(s.history, Do(s, step).answers[k])
  {
    var h, w := s.history, s.workers[step.p];
    assert s.Disk() == h[|h| - 1];
    if w.pc.Stating? && step.Stat? && Hit(w.cache, FileStamp(s.Disk())) {
      HitIsCurrent(h, w);
      assert Current(h, Read(w.pc.start, s.Now(), w.cache.known.value));
    } else if (w.pc.Loading? && step.Look?) || (w.pc.Opening? && step.LoadFile?) {
      assert Current(h, Read(w.pc.start, s.Now(), Load(s.Disk())));
    }
  }

  /** The version a load finds: none at all when there was none to be seen, or the one there is
      by the time it is opened. */
  function Found(atLook: File, atOpen: File): File {
    if atLook.Absent? then atLook else atOpen
  }

  /** Process p is where it was: nobody else moves it. */
  ghost predicate StillThere(s: State, t: State, p: nat) {
    p < |s.workers| && p < |t.workers| && t.workers[p] == s.workers[p]
  }

  /** From s to t process p has answered, and left its cache like that. */
  ghost predicate Answers(s: State, t: State, p: nat, cache: Cache, start: nat, people: People)
    requires s.history != []
  {
    && p < |t.workers| && t.workers[p] == Worker(cache, Idle)
    && t.answers == s.answers + [Read(start, s.Now(), people)]
  }

  /** The steps of a read are get_known_encodings. When the stamp matches the stat is all there is
      to it, whatever the file would have held by the time of a load. */
  lemma HitIsGetKnownEncodings(a: State, p: nat, atLoad: File)
    requires a.history != [] && p < |a.workers| && a.workers[p].pc.Stating?
    requires Hit(a.workers[p].cache, FileStamp(a.Disk()))
    ensures var cache := a.workers[p].cache;
            Answers(a, Do(a, Stat(p)), p, Refreshed(cache, a.Disk(), atLoad),
                    a.workers[p].pc.start, Served(cache, a.Disk(), atLoad))
  {
  }

  /** Otherwise, with the file as `a` has it at the stat, as `b` has it when it is looked for and
      as `c` has it when it is opened, others having done anything in between, the answer is what
      the method serves and the cache what the method leaves. */
  lemma MissIsGetKnownEncodings(a: State, b: State, c: State, p: nat)
    requires a.history != [] && b.history != [] && c.history != []
    requires p < |a.workers| && a.workers[p].pc.Stating?
    requires !Hit(a.workers[p].cache, FileStamp(a.Disk()))
    requires StillThere(Do(a, Stat(p)), b, p) && StillThere(Do(b, Look(p)), c, p)
    ensures var cache, start, found := a.workers[p].cache, a.workers[p].pc.start, Found(b.Disk(), c.Disk());
            var after, people := Refreshed(cache, a.Disk(), found), Served(cache, a.Disk(), found);
            if b.Disk().Absent? then Answers(b, Do(b, Look(p)), p, after, start, people)
            else Answers(c, Do(c, LoadFile(p)), p, after, start, people)
  {
  }

  lemma CurrentLater(h: seq<File>, h': seq<File>, r: Read)
    requires h <= h' && Current(h, r)
    ensures Current(h', r)
  {
    var v :| r.start <= v <= r.end && v < |h| && r.result == Load(h[v]);
    assert r.result == Load(h'[v]);
  }

  lemma ReadStep(s: State, step: Step)
    requires s.history != [] && LockInv(s) && ReadInv(s)
    ensures ReadInv(Do(s, step))
  {
    StepFrame(s, step);
    StepCallFrame(s, step);
    var t := Do(s, step);
    if t != s {
      forall q | 0 <= q < |t.workers| ensures Reading(t.history, t.workers[q]) {
        if q == step.p {
          MoverKeepsReading(s, step);
        } else {
          TracedLater(s.history, t.history, s.workers[q]);
        }
      }
      if StampsTellApart(t.history) {
        assert StampsTellApart(s.history);
        MoverAnswersTruthfully(s, step);
        forall k | 0 <= k < |t.answers| ensures Current(t.history, t.answers[k]) {
          assert k < |s.answers| ==> t.answers[k] == s.answers[k];
          CurrentLater(s.history, t.history, t.answers[k]);
        }
      }
    }
  }

  // --- every run ---------------------------------------------------------------------------

  ghost predicate Inv(s: State) {
    s.history != [] && LockInv(s) && FileInv(s) && LogInv(s) && CallInv(s) && OutcomesInv(s) && ReadInv(s)
  }

  lemma {:induction false} RunKeepsInv(s: State, steps: seq<Step>)
    requires Initial(s)
    ensures Inv(Run(s, steps))
    decreases |steps|
  {
    if steps == [] {
      assert s.log[..0] == [];
    } else {
      var before, step := Run(s, steps[..|steps| - 1]), steps[|steps| - 1];
      RunKeepsInv(s, steps[..|steps| - 1]);
      LockStep(before, step);
      FileStep(before, step);
      LogStep(before, step);
      CallStep(before, step);
      OutcomeStep(before, step);
      ReadStep(before, step);
    }
  }

  /** Linearizable reads: whatever the interleaving and whoever dies, every completed read
      returned the file's contents at some instant inside that call. */
  lemma ReadsAreLinearizable(s: State, steps: seq<Step>, k: nat)
    requires Initial(s)
    requires StampsTellApart(Run(s, steps).history)
    requires k < |Run(s, steps).answers|
    ensures Current(Run(s, steps).history, Run(s, steps).answers[k])
  {
    RunKeepsInv(s, steps);
  }

  /** No lost updates: the file is the serial replay of every save, in lock order, on top
      of what was there at the start. */
  lemma NoLostUpdates(s: State, steps: seq<Step>)
    requires Initial(s)
    ensures Load(Run(s, steps).Disk()) == Replay(Load(s.Disk()), Run(s, steps).log)
  {
    RunKeepsInv(s, steps);
    HistoryOnlyGrows(s, steps);
    var t := Run(s, steps);
    assert t.log[..|t.log|] == t.log;
    assert t.history[0] == s.history[0];
  }

  /** All or nothing: a call that was told it succeeded is in the log exactly once, with its
      own edit; one that timed out or was refused is not in it; a call whose process died is
      in it at most once; and a refused removal named nobody then on file. */
  lemma EveryCallIsAllOrNothing(s: State, steps: seq<Step>, c: nat)
    requires Initial(s) && c < |Run(s, steps).calls|
    ensures LogInv(Run(s, steps)) && OutcomeInv(Run(s, steps), c)
  {
    RunKeepsInv(s, steps);
  }

  /** A dead process holds no lock: whoever holds it is alive in the critical section. */
  lemma LockIsHeldByTheLiving(s: State, steps: seq<Step>, p: nat)
    requires Initial(s) && p < |s.workers|
    ensures |Run(s, steps).workers| == |s.workers|
    ensures Run(s, steps).lock == Some(p) <==> InCritical(Run(s, steps).workers[p].pc)
  {
    RunKeepsInv(s, steps);
    WorkersStay(s, steps);
    assert Exclusive(Run(s, steps), p, Run(s, steps).workers[p].pc);
  }

  lemma NobodyJoins(s: State, step: Step)
    requires s.history != []
    ensures |Do(s, step).workers| == |s.workers|
  {
  }

  lemma {:induction false} WorkersStay(s: State, steps: seq<Step>)
    requires s.history != []
    ensures |Run(s, steps).workers| == |s.workers|
    decreases |steps|
  {
    if steps == [] {
    } else {
      WorkersStay(s, steps[..|steps| - 1]);
      NobodyJoins(Run(s, steps[..|steps| - 1]), steps[|steps| - 1]);
    }
  }

  lemma {:induction false} HistoryOnlyGrows(s: State, steps: seq<Step>)
    requires s.history != []
    ensures s.history <= Run(s, steps).history
    decreases |steps|
  {
    if steps == [] {
    } else {
      HistoryOnlyGrows(s, steps[..|steps| - 1]);
      StepCallFrame(Run(s, steps[..|steps| - 1]), steps[|steps| - 1]);
    }
  }

  // --- what the replay means for one person ------------------------------------------------

  /** The vectors a log leaves one person with, looking only at that person's edits. */
  function VectorsAfter(start: Option<seq<Encoding>>, log: seq<Entry>, name: string): Option<seq<Encoding>> {
    if log == [] then start
    else
      var before := VectorsAfter(start, log[..|log| - 1], name);
      match log[|log| - 1].edit
      case Enrol(n, vectors) =>
        if n != name then before else Some((if before.Some? then before.value else []) + vectors)
      case Remove(n) => if n != name then before else None
  }

  /** Other people's encodings are untouched: each person's vectors depend on that person's
      edits and nobody else's. */
  lemma {:induction false} ReplayByPerson(start: People, log: seq<Entry>, name: string)
    requires WellLoaded(start) && forall k :: 0 <= k < |log| ==> WellFormed(log[k].edit)
    ensures WellLoaded(Replay(start, log))
    ensures Lookup(Replay(start, log), name) == VectorsAfter(Lookup(start, name), log, name)
  {
    if log == [] {
    } else {
      var front, e := log[..|log| - 1], log[|log| - 1].edit;
      ReplayByPerson(start, front, name);
      var people := Replay(start, front);
      ChangeKeepsWellLoaded(people, e);
      if e.Enrol? {
        AddLookup(people, e.name, e.vectors, name);
      } else if Has(people, e.name) {
        WithoutLookup(people, e.name, name);
      }
    }
  }

  lemma {:induction false} GoneUntilEnrolledAgain(start: Option<seq<Encoding>>, log: seq<Entry>, name: string, r: nat)
    requires r < |log| && log[r].edit == Remove(name)
    requires forall k :: r < k < |log| && log[k].edit.Enrol? ==> log[k].edit.name != name
    ensures VectorsAfter(start, log, name) == None
  {
    if r == |log| - 1 {
    } else {
      GoneUntilEnrolledAgain(start, log[..|log| - 1], name, r);
    }
  }

  /** Nobody enrols this person again between the removal and the end of the read. */
  ghost predicate NotBackBy(log: seq<Entry>, r: nat, end: nat, name: string) {
    forall j :: r < j < |log| && j < end && log[j].edit.Enrol? ==> log[j].edit.name != name
  }

  lemma GoneInThatVersion(history: seq<File>, log: seq<Entry>, read: Read, r: nat, name: string)
    requires Versions(history, log) && Current(history, read)
    requires forall k :: 0 <= k < |log| ==> WellFormed(log[k].edit)
    requires r < |log| && r < read.start && log[r].edit == Remove(name) && NotBackBy(log, r, read.end, name)
    ensures !Has(read.result, name)
  {
    var v :| read.start <= v <= read.end && v < |history| && read.result == Load(history[v]);
    GoneAtVersion(history, log, v, r, name);
  }

  lemma GoneAtVersion(history: seq<File>, log: seq<Entry>, v: nat, r: nat, name: string)
    requires Versions(history, log) && r < v < |history| && log[r].edit == Remove(name)
    requires forall k :: 0 <= k < |log| ==> WellFormed(log[k].edit)
    requires NotBackBy(log, r, v, name)
    ensures !Has(Load(history[v]), name)
  {
    LoadedIsWellLoaded(history[0]);
    ReplayByPerson(Load(history[0]), log[..v], name);
    GoneUntilEnrolledAgain(Lookup(Load(history[0]), name), log[..v], name, r);
  }

  /** Once a removal has been saved, no later read in any process returns that person until
      somebody enrols them again. */
  lemma RemovedPersonStaysGone(s: State, steps: seq<Step>, k: nat, r: nat, name: string)
    requires Initial(s)
    requires var t := Run(s, steps);
             && StampsTellApart(t.history) && k < |t.answers| && r < |t.log|
             && t.log[r].edit == Remove(name) && r < t.answers[k].start
             && NotBackBy(t.log, r, t.answers[k].end, name)
    ensures !Has(Run(s, steps).answers[k].result, name)
  {
    ReadsAreLinearizable(s, steps, k);
    RunKeepsInv(s, steps);
    RunKeepsEditsWellFormed(s, steps);
    GoneInThatVersion(Run(s, steps).history, Run(s, steps).log, Run(s, steps).answers[k], r, name);
  }

  lemma {:induction false} RunKeepsEditsWellFormed(s: State, steps: seq<Step>)
    requires Initial(s)
    ensures forall c :: 0 <= c < |Run(s, steps).calls| ==> WellFormed(Run(s, steps).calls[c].edit)
    ensures forall k :: 0 <= k < |Run(s, steps).log| ==> WellFormed(Run(s, steps).log[k].edit)
    decreases |steps|
  {
    if steps == [] {
    } else {
      RunKeepsEditsWellFormed(s, steps[..|steps| - 1]);
      EditsStayWellFormed(Run(s, steps[..|steps| - 1]), steps[|steps| - 1]);
    }
  }

  lemma EditsStayWellFormed(s: State, step: Step)
    requires s.history != []
    requires forall c :: 0 <= c < |s.calls| ==> WellFormed(s.calls[c].edit)
    requires forall k :: 0 <= k < |s.log| ==> WellFormed(s.log[k].edit)
    ensures forall c :: 0 <= c < |Do(s, step).calls| ==> WellFormed(Do(s, step).calls[c].edit)
    ensures forall k :: 0 <= k < |Do(s, step).log| ==> WellFormed(Do(s, step).log[k].edit)
  {
  }

  // --- removing somebody who is not there ---------------------------------------------------------

  /** Whoever a save removes was in the version before it. */
  ghost predicate RemovedWereThere(history: seq<File>, log: seq<Entry>) {
    forall k :: 0 <= k < |log| && k < |history| && log[k].edit.Remove? ==> Has(Load(history[k]), log[k].edit.name)
  }

  lemma RemovalStep(s: State, step: Step)
    requires s.history != [] && LockInv(s) && FileInv(s) && RemovedWereThere(s.history, s.log)
    ensures RemovedWereThere(Do(s, step).history, Do(s, step).log)
  {
    if Do(s, step).log == s.log {
      StepCallFrame(s, step);
    } else {
      WhatIsSaved(s, step);
      assert Exclusive(s, step.p, s.workers[step.p].pc);
      RemovedOneMore(s.history, s.log, Do(s, step).history, Do(s, step).log);
    }
  }

  lemma RemovedOneMore(history: seq<File>, log: seq<Entry>, history': seq<File>, log': seq<Entry>)
    requires |history| == |log| + 1 && history <= history' && log <= log' && |log'| == |log| + 1
    requires RemovedWereThere(history, log)
    requires log'[|log|].edit.Remove? ==> Has(Load(history[|log|]), log'[|log|].edit.name)
    ensures RemovedWereThere(history', log')
  {
    forall k | 0 <= k < |log'| && log'[k].edit.Remove? ensures Has(Load(history'[k]), log'[k].edit.name) {
      assert history'[k] == history[k];
      if k < |log| {
        assert log'[k] == log[k];
      }
    }
  }

  lemma {:induction false} RunRemovesOnlyWhoIsThere(s: State, steps: seq<Step>)
    requires Initial(s)
    ensures RemovedWereThere(Run(s, steps).history, Run(s, steps).log)
    decreases |steps|
  {
    if steps == [] {
    } else {
      RunRemovesOnlyWhoIsThere(s, steps[..|steps| - 1]);
      RunKeepsInv(s, steps[..|steps| - 1]);
      RemovalStep(Run(s, steps[..|steps| - 1]), steps[|steps| - 1]);
    }
  }

  /** In every run, a removal that was saved removed somebody: the name was in the version of the
      file it replaced. */
  lemma OnlyTheEnrolledAreRemoved(s: State, steps: seq<Step>, k: nat, name: string)
    requires Initial(s) && k < |Run(s, steps).log| && Run(s, steps).log[k].edit == Remove(name)
    ensures k < |Run(s, steps).history| && Has(Load(Run(s, steps).history[k]), name)
  {
    RunKeepsInv(s, steps);
    RunRemovesOnlyWhoIsThere(s, steps);
  }

  lemma RemovalDecided(t: State, p: nat, c: nat, copy: People, name: string)
    requires t.history != [] && p < |t.workers| && t.workers[p].pc == Holding(c, copy)
    requires c < |t.calls| && t.calls[c] == Call(Remove(name), Running)
    ensures var u := Do(t, ChangeCopy(p));
            && u.history == t.history && c < |u.calls| && p < |u.workers|
            && (u.calls[c].outcome.Refused? <==> !Has(copy, name))
            && (Has(copy, name) ==> u.calls == t.calls && u.workers[p].pc == Changed(c, Without(copy, name)))
  {
  }

  /** A removal is refused exactly when, at the moment it is decided, the file has no such name;
      otherwise it goes on with a copy without them. */
  lemma RemovalIsRefusedExactlyWhen(s: State, steps: seq<Step>, p: nat, c: nat, copy: People, name: string)
    requires Initial(s) && p < |Run(s, steps).workers| && Run(s, steps).workers[p].pc == Holding(c, copy)
    requires c < |Run(s, steps).calls| ==> Run(s, steps).calls[c].edit == Remove(name)
    ensures c < |Run(s, steps).calls|
    ensures var file, u := Load(Run(s, steps).Disk()), Do(Run(s, steps), ChangeCopy(p));
            && u.history == Run(s, steps).history && c < |u.calls| && p < |u.workers|
            && (u.calls[c].outcome.Refused? <==> !Has(file, name))
            && (Has(file, name) ==>
                  u.calls == Run(s, steps).calls && u.workers[p].pc == Changed(c, Without(file, name)))
  {
    RunKeepsInv(s, steps);
    HolderHasTheFile(Run(s, steps), p);
    RemovalDecided(Run(s, steps), p, c, copy, name);
  }

  lemma HolderHasTheFile(t: State, p: nat)
    requires Inv(t) && p < |t.workers| && t.workers[p].pc.Holding?
    ensures var pc := t.workers[p].pc;
            pc.call < |t.calls| && t.calls[pc.call].outcome == Running && pc.copy == Load(t.Disk())
  {
    assert Exclusive(t, p, t.workers[p].pc) && Owned(t, t.workers[p].pc);
  }

  // --- one edit without interruption -----------------------------------------------------------------

  /** The six steps of an edit, one after another. */
  function Alone(s: State, p: nat, e: Edit, stamp: Stamp): State
    requires s.history != []
  {
    Run(s, [BeginEdit(p, e)] + [Acquire(p)] + [ReadForEdit(p)] + [ChangeCopy(p)] + [SaveCopy(p, stamp)] + [Release(p)])
  }

  lemma RunOneMore(s: State, steps: seq<Step>, step: Step)
    requires s.history != []
    ensures Run(s, steps + [step]) == Do(Run(s, steps), step)
  {
    assert (steps + [step])[..|steps|] == steps;
  }

  lemma FirstThreeSteps(s: State, p: nat, e: Edit)
    requires s.history != [] && s.lock == None && p < |s.workers| && s.workers[p].pc.Idle? && WellFormed(e)
    ensures var t := Do(Do(Do(s, BeginEdit(p, e)), Acquire(p)), ReadForEdit(p));
            && t.history == s.history && t.log == s.log && t.calls == s.calls + [Call(e, Running)]
            && p < |t.workers| && t.workers[p].pc == Holding(|s.calls|, Load(s.Disk()))
  {
    var t := Do(s, BeginEdit(p, e));
    assert t.workers[p].pc == Waiting(|s.calls|) && t.lock == None;
    var u := Do(t, Acquire(p));
    assert u.workers[p].pc == Locked(|s.calls|) && u.history == s.history;
  }

  lemma AloneHolds(s: State, p: nat, e: Edit)
    requires s.history != [] && s.lock == None && p < |s.workers| && s.workers[p].pc.Idle? && WellFormed(e)
    ensures var t := Run(s, [BeginEdit(p, e)] + [Acquire(p)] + [ReadForEdit(p)]);
            && t.history == s.history && t.log == s.log && t.calls == s.calls + [Call(e, Running)]
            && p < |t.workers| && t.workers[p].pc == Holding(|s.calls|, Load(s.Disk()))
  {
    var s1 := [BeginEdit(p, e)];
    assert [] + s1 == s1;
    RunOneMore(s, [], BeginEdit(p, e));
    RunOneMore(s, s1, Acquire(p));
    RunOneMore(s, s1 + [Acquire(p)], ReadForEdit(p));
    FirstThreeSteps(s, p, e);
  }

  lemma AloneFromHolding(s: State, p: nat, e: Edit, stamp: Stamp)
    requires s.history != []
    ensures Alone(s, p, e, stamp)
         == Do(Do(Do(Run(s, [BeginEdit(p, e)] + [Acquire(p)] + [ReadForEdit(p)]),
                     ChangeCopy(p)), SaveCopy(p, stamp)), Release(p))
  {
    var s3 := [BeginEdit(p, e)] + [Acquire(p)] + [ReadForEdit(p)];
    RunOneMore(s, s3, ChangeCopy(p));
    RunOneMore(s, s3 + [ChangeCopy(p)], SaveCopy(p, stamp));
    RunOneMore(s, s3 + [ChangeCopy(p)] + [SaveCopy(p, stamp)], Release(p));
  }

  lemma RefusedSteps(u: State, p: nat, c: nat, copy: People, name: string, stamp: Stamp)
    requires u.history != [] && p < |u.workers| && u.workers[p].pc == Holding(c, copy)
    requires c < |u.calls| && u.calls[c] == Call(Remove(name), Running) && !Has(copy, name)
    ensures var t := Do(Do(Do(u, ChangeCopy(p)), SaveCopy(p, stamp)), Release(p));
            && t.history == u.history && t.log == u.log && t.lock == None
            && t.calls == u.calls[c := Call(Remove(name), Refused(u.Now()))]
  {
    var v := Do(u, ChangeCopy(p));
    assert v.workers[p].pc == Idle && Do(v, SaveCopy(p, stamp)) == v;
  }

  /** A removal of somebody who is not on file, left to itself, is refused and saves nothing. */
  lemma LoneRemovalOfNobody(s: State, p: nat, name: string, stamp: Stamp)
    requires s.history != [] && s.lock == None && p < |s.workers| && s.workers[p].pc.Idle?
    requires !Has(Load(s.Disk()), name)
    ensures var t := Alone(s, p, Remove(name), stamp);
            && t.history == s.history && t.log == s.log && t.lock == None
            && |t.calls| == |s.calls| + 1 && t.calls[|s.calls|] == Call(Remove(name), Refused(s.Now()))
  {
    AloneHolds(s, p, Remove(name));
    AloneFromHolding(s, p, Remove(name), stamp);
    RefusedSteps(Run(s, [BeginEdit(p, Remove(name))] + [Acquire(p)] + [ReadForEdit(p)]), p, |s.calls|,
                 Load(s.Disk()), name, stamp);
  }

  lemma LastThreeSteps(u: State, p: nat, e: Edit, c: nat, copy: People, stamp: Stamp)
    requires u.history != [] && p < |u.workers| && u.workers[p].pc == Holding(c, copy)
    requires c < |u.calls| && u.calls[c] == Call(e, Running) && (e.Remove? ==> Has(copy, e.name))
    ensures var t := Do(Do(Do(u, ChangeCopy(p)), SaveCopy(p, stamp)), Release(p));
            && t.history == u.history + [Present(stamp, Pack(Change(copy, e)))] && t.lock == None
            && t.calls == u.calls[c := Call(e, Succeeded)]
  {
    var v := Do(u, ChangeCopy(p));
    assert v == At(u, p, u.workers[p].(pc := Changed(c, Change(copy, e))));
    var w := Do(v, SaveCopy(p, stamp));
    assert w.workers[p].pc == Saved(c) && w.calls == u.calls;
  }

  lemma EditedFileLoads(f: File, e: Edit, stamp: Stamp)
    requires WellFormed(e)
    ensures Load(Present(stamp, Pack(Change(Load(f), e)))) == Change(Load(f), e)
  {
    LoadedIsWellLoaded(f);
    ChangeKeepsWellLoaded(Load(f), e);
    ChangeKeepsClean(Load(f), e);
    SavedIsLoaded(Change(Load(f), e));
  }

  /** An edit that is left to itself and not refused is saved, and told so. */
  lemma LoneEditIsSaved(s: State, p: nat, e: Edit, stamp: Stamp)
    requires s.history != [] && s.lock == None && p < |s.workers| && s.workers[p].pc.Idle? && WellFormed(e)
    requires e.Remove? ==> Has(Load(s.Disk()), e.name)
    ensures var t := Alone(s, p, e, stamp);
            && |t.history| == |s.history| + 1 && s.history <= t.history && t.lock == None
            && FileStamp(t.Disk()) == Some(stamp) && Load(t.Disk()) == Change(Load(s.Disk()), e)
            && |t.calls| == |s.calls| + 1 && t.calls[|s.calls|] == Call(e, Succeeded)
  {
    AloneHolds(s, p, e);
    AloneFromHolding(s, p, e, stamp);
    LastThreeSteps(Run(s, [BeginEdit(p, e)] + [Acquire(p)] + [ReadForEdit(p)]), p, e, |s.calls|, Load(s.Disk()), stamp);
    EditedFileLoads(s.Disk(), e, stamp);
  }

  /** So for each person: who was removed is gone, who was enrolled has the new vectors after the
      old ones, and everybody else has what they had. */
  lemma LoneEditByPerson(s: State, p: nat, e: Edit, stamp: Stamp, name: string)
    requires s.history != [] && s.lock == None && p < |s.workers| && s.workers[p].pc.Idle? && WellFormed(e)
    requires e.Remove? ==> Has(Load(s.Disk()), e.name)
    ensures var before, after := Load(s.Disk()), Load(Alone(s, p, e, stamp).Disk());
            (Lookup(after, name)
             == if name != e.name then Lookup(before, name)
                else if e.Remove? then None
                else Some((if Has(before, name) then Lookup(before, name).value else []) + e.vectors))
  {
    LoneEditIsSaved(s, p, e, stamp);
    LoadedIsWellLoaded(s.Disk());
    if e.Enrol? {
      AddLookup(Load(s.Disk()), e.name, e.vectors, name);
    } else {
      WithoutLookup(Load(s.Disk()), e.name, name);
    }
  }

  // --- what one is told ------------------------------------------------------------------------------

  /** Giving up on the lock leaves everything alone and is told as such. */
  lemma GivingUpIsTold(s: State, p: nat, c: nat)
    requires s.history != [] && p < |s.workers| && s.workers[p].pc == Waiting(c) && c < |s.calls|
    ensures var t := Do(s, GiveUp(p));
            && t.history == s.history && t.log == s.log && t.lock == s.lock && t.answers == s.answers
            && t.calls == s.calls[c := s.calls[c].(outcome := TimedOut)] && t.workers[p].pc == Idle
  {
  }

  /** Only a death is told as one. */
  lemma OnlyDeathIsDeath(s: State, step: Step, c: nat)
    requires s.history != [] && c < |s.calls| && s.calls[c].outcome != Died
    requires c < |Do(s, step).calls| && Do(s, step).calls[c].outcome == Died
    ensures step.Crash?
  {
  }

  /** Whoever replaces a dead process starts with nothing: no cache, no call, and no lock. */
  lemma DeathLeavesNothing(s: State, p: nat)
    requires s.history != [] && p < |s.workers|
    ensures var t := Do(s, Crash(p));
            && p < |t.workers| && t.workers[p] == Worker(EMPTY, Idle)
            && t.lock != Some(p) && (s.lock != Some(p) ==> t.lock == s.lock)
            && t.history == s.history && t.log == s.log && t.answers == s.answers
  {
  }

  // --- a reload always loads ----------------------------------------------------------------------------

  /** Clearing the cache first, a reload goes to the file whatever its stamp. */
  lemma AReloadAlwaysLoads(s: State, p: nat)
    requires s.history != [] && p < |s.workers| && (s.workers[p].pc.Idle? || s.workers[p].pc.Reloading?)
    ensures var t := Do(Do(s, BeginReload(p)), Stat(p));
            && t.answers == s.answers && p < |t.workers|
            && t.workers[p] == Worker(EMPTY, Loading(s.Now(), FileStamp(s.Disk())))
  {
  }
}
