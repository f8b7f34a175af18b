/** Who goes when the limiter is over its ceiling: the idle first, and the live only when there
    are too many of them (attendance/ratelimit.py:108-138). */
module RateLimiterCap {
  import opened Options
  import opened RateLimiter
  import opened RateLimiterRuns

  /** An attempt was admitted within the last MAX_IDLE_SECONDS. */
  predicate Alive(hits: seq<real>, now: real) {
    exists i :: 0 <= i < |hits| && hits[i] >= now - MAX_IDLE_SECONDS
  }

  ghost predicate AllAlive(s: Store, now: real) {
    forall c :: c in s.hits ==> Alive(s.hits[c], now)
  }

  /** Everyone with an admission within the last MAX_IDLE_SECONDS, by the log. */
  function LiveInLog(log: seq<Admission>, now: real): set<Counter> {
    set i | 0 <= i < |log| && log[i].time >= now - MAX_IDLE_SECONDS :: log[i].counter
  }

  /** The counters the store would have to hold. */
  function Tracked(w: World, call: Call): set<Counter> {
    w.store.hits.Keys + {call.counter}
  }

  // --- one store ------------------------------------------------------------------------------

  lemma AliveIsNotIdle(hits: seq<real>, now: real)
    requires Sorted(hits)
    ensures Alive(hits, now) <==> !Idle(hits, now)
  {
    if hits != [] && !Idle(hits, now) {
      assert hits[|hits| - 1] >= now - MAX_IDLE_SECONDS;
    }
  }

  lemma PrunedAreAlive(s: Store, now: real)
    requires forall c :: c in s.hits ==> Sorted(s.hits[c])
    ensures AllAlive(Pruned(s, now), now)
  {
    forall c | c in Pruned(s, now).hits ensures Alive(Pruned(s, now).hits[c], now) {
      AliveIsNotIdle(s.hits[c], now);
    }
  }

  lemma EvictedAreAlive(s: Store, now: real)
    requires AllAlive(s, now)
    ensures AllAlive(Evicted(s), now)
  {
    forall c | c in Evicted(s).hits ensures Alive(Evicted(s).hits[c], now) {
      EvictedSubset(s, c);
    }
  }

  /** Popping stops at the ceiling, and a popped counter is gone. */
  lemma {:induction false} PoppedAreGone(s: Store, k: nat)
    requires WellFormed(s) && k < |Popped(s)|
    ensures |Evicted(s).order| == MAX_TRACKED_CLIENTS
    ensures Popped(s)[k].counter in s.hits && Popped(s)[k].counter !in Evicted(s).hits
    decreases |s.order|
  {
    var c := s.order[0];
    var first, rest := Tagged(c, HitsOf(s, c)), Store(s.order[1..], s.hits - {c});
    assert forall x :: x in s.order <==> x == c || x in s.order[1..];
    if k < |first| {
      TaggedTimes(c, HitsOf(s, c));
      EvictedSubset(rest, c);
      EvictedToTheCeiling(s);
    } else {
      PoppedAreGone(rest, k - |first|);
      EvictedSubset(rest, Popped(s)[k].counter);
    }
  }

  lemma {:induction false} EvictedToTheCeiling(s: Store)
    requires |s.order| > MAX_TRACKED_CLIENTS
    ensures |Evicted(s).order| == MAX_TRACKED_CLIENTS
    decreases |s.order|
  {
    if |s.order| == MAX_TRACKED_CLIENTS + 1 {
    } else {
      EvictedToTheCeiling(Store(s.order[1..], s.hits - {s.order[0]}));
    }
  }

  /** Where nobody is idle, popping anybody loses something. */
  lemma PoppingTheLiveLoses(s: Store, now: real)
    requires WellFormed(s) && AllAlive(s, now) && |s.order| > MAX_TRACKED_CLIENTS
    ensures Popped(s) != []
  {
    var c := s.order[0];
    assert c in s.order;
    assert s.hits[c] != [];
    assert Tagged(c, s.hits[c]) != [];
  }

  lemma NothingPoppedNothingGone(s: Store, now: real)
    requires WellFormed(s) && AllAlive(s, now) && Popped(s) == []
    ensures Evicted(s) == s
  {
    if |s.order| > MAX_TRACKED_CLIENTS {
      PoppingTheLiveLoses(s, now);
    }
  }

  /** Whoever the cap pops was live, and so is everybody it leaves, as many as it may. */
  lemma VictimOfTheCap(full: Store, now: real, k: nat)
    requires WellFormed(full) && forall c :: c in full.hits ==> Sorted(full.hits[c])
    requires k < |Thrown(full, now)|
    ensures var victim := Thrown(full, now)[k].counter;
            victim in full.hits && Alive(full.hits[victim], now) && victim !in Capped(full, now).hits
    ensures |Capped(full, now).order| == MAX_TRACKED_CLIENTS && AllAlive(Capped(full, now), now)
  {
    PrunedAreAlive(full, now);
    EvictedAreAlive(Pruned(full, now), now);
    StepsKeepWellFormed(full, Counter("", ""), [], now);
    PoppedAreGone(Pruned(full, now), k);
    var victim := Thrown(full, now)[k].counter;
    assert Alive(Pruned(full, now).hits[victim], now);
  }

  // --- one call -----------------------------------------------------------------------------------

  lemma FullTracks(w: World, rules: Rules, call: Call)
    requires Shape(w.store)
    ensures BeforeCap(w, rules, call).hits.Keys == Tracked(w, call)
    ensures |BeforeCap(w, rules, call).order| == |Tracked(w, call)|
  {
    var full := BeforeCap(w, rules, call);
    NextKeepsShape(rules, w, call);
    DistinctSize(full.order);
    assert (set c | c in full.order) == full.hits.Keys;
  }

  lemma FullIsSorted(w: World, rules: Rules, call: Call)
    requires Inv(w, rules, call.now)
    ensures forall c :: c in BeforeCap(w, rules, call).hits ==> Sorted(BeforeCap(w, rules, call).hits[c])
  {
    forall c | c in BeforeCap(w, rules, call).hits ensures Sorted(BeforeCap(w, rules, call).hits[c]) {
      assert CounterInv(w, rules, c, call.now) && CounterInv(w, rules, call.counter, call.now);
      if c == call.counter {
        CallersHitsAreHis(w, rules, call);
        CallersDeque(w, rules, call, call.now, Cutoff(RuleOf(rules, c), call.now));
      }
    }
  }

  /** Over the ceiling, nobody idle is left behind. */
  lemma OverTheCapNobodyIsIdle(rules: Rules, calls: seq<Call>, call: Call)
    requires InTime(calls, call.now) && Answered(rules, calls, call).Admitted?
    requires |Tracked(Run(rules, calls), call)| > MAX_TRACKED_CLIENTS
    ensures AllAlive(Next(rules, Run(rules, calls), call).store, call.now)
  {
    RunKeepsInv(rules, calls, call.now);
    RefusedWhenFull(rules, calls, call);
    OverTheCap(rules, Run(rules, calls), call);
  }

  lemma OverTheCap(rules: Rules, w: World, call: Call)
    requires Inv(w, rules, call.now) && !Refuses(w, rules, call) && |Tracked(w, call)| > MAX_TRACKED_CLIENTS
    ensures AllAlive(Next(rules, w, call).store, call.now)
  {
    var full := BeforeCap(w, rules, call);
    FullTracks(w, rules, call);
    FullIsSorted(w, rules, call);
    NextIsCapped(rules, w, call);
    PrunedAreAlive(full, call.now);
    EvictedAreAlive(Pruned(full, call.now), call.now);
  }

  /** At or under it, everybody else is left as they were. */
  lemma UnderTheCapNobodyIsForgotten(rules: Rules, calls: seq<Call>, call: Call, c: Counter)
    requires InTime(calls, call.now) && c != call.counter
    requires |Tracked(Run(rules, calls), call)| <= MAX_TRACKED_CLIENTS
    ensures var before, after := Run(rules, calls).store, Next(rules, Run(rules, calls), call).store;
            && (c in after.hits <==> c in before.hits)
            && (c in before.hits ==> after.hits[c] == before.hits[c])
  {
    RunKeepsInv(rules, calls, call.now);
    FullTracks(Run(rules, calls), rules, call);
    NextIsCapped(rules, Run(rules, calls), call);
  }

  /** Nobody live is forgotten by a call that throws no admission away: what it forgets is idle. */
  lemma OnlyTheIdleAreForgotten(rules: Rules, calls: seq<Call>, call: Call, c: Counter)
    requires InTime(calls, call.now) && c != call.counter && c in Run(rules, calls).store.hits
    requires Next(rules, Run(rules, calls), call).lost == Run(rules, calls).lost
    requires Alive(Run(rules, calls).store.hits[c], call.now)
    ensures var after := Next(rules, Run(rules, calls), call).store;
            c in after.hits && after.hits[c] == Run(rules, calls).store.hits[c]
  {
    RunKeepsInv(rules, calls, call.now);
    TheLiveStay(rules, Run(rules, calls), call, c);
  }

  lemma TheLiveStay(rules: Rules, w: World, call: Call, c: Counter)
    requires Inv(w, rules, call.now) && c != call.counter && c in w.store.hits
    requires Next(rules, w, call).lost == w.lost && Alive(w.store.hits[c], call.now)
    ensures c in Next(rules, w, call).store.hits && Next(rules, w, call).store.hits[c] == w.store.hits[c]
  {
    var full := BeforeCap(w, rules, call);
    NextIsCapped(rules, w, call);
    NextKeepsShape(rules, w, call);
    if !Refuses(w, rules, call) && |full.order| > MAX_TRACKED_CLIENTS {
      FullIsSorted(w, rules, call);
      PrunedAreAlive(full, call.now);
      StepsKeepWellFormed(full, call.counter, [], call.now);
      NothingPoppedNothingGone(Pruned(full, call.now), call.now);
      AliveIsNotIdle(full.hits[c], call.now);
    }
  }

  // --- what is lost ----------------------------------------------------------------------------------

  /** Every hit in the store is an admission in the log. */
  ghost predicate Logged(s: Store, log: seq<Admission>) {
    forall c, i :: c in s.hits && 0 <= i < |s.hits[c]| ==> Admission(c, s.hits[c][i]) in log
  }

  lemma {:induction false} SweptWereThere(hits: seq<real>, cutoff: real)
    ensures forall i :: 0 <= i < |Fresh(hits, cutoff)| ==> Fresh(hits, cutoff)[i] in hits
  {
    if hits != [] && hits[0] < cutoff {
      SweptWereThere(hits[1..], cutoff);
    }
  }

  lemma FullIsLogged(rules: Rules, w: World, call: Call)
    requires Logged(w.store, w.log)
    ensures Logged(BeforeCap(w, rules, call), Next(rules, w, call).log)
  {
    NextIsCapped(rules, w, call);
    SweptWereThere(HitsOf(w.store, call.counter), Cutoff(RuleOf(rules, call.counter), call.now));
    var full, log := BeforeCap(w, rules, call), Next(rules, w, call).log;
    forall c, i | c in full.hits && 0 <= i < |full.hits[c]| ensures Admission(c, full.hits[c][i]) in log {
      if c == call.counter {
        CallersHitsAreHis(w, rules, call);
        var mine := Mine(w, rules, call);
        if i < |mine| {
          var k :| 0 <= k < |HitsOf(w.store, c)| && HitsOf(w.store, c)[k] == mine[i];
          assert Admission(c, w.store.hits[c][k]) in w.log;
        }
      } else {
        assert Admission(c, w.store.hits[c][i]) in w.log;
      }
    }
  }

  lemma CapStaysLogged(full: Store, now: real, log: seq<Admission>)
    requires Logged(full, log)
    ensures Logged(Capped(full, now), log)
  {
    if |full.order| > MAX_TRACKED_CLIENTS {
      forall c, i | c in Capped(full, now).hits && 0 <= i < |Capped(full, now).hits[c]|
        ensures Admission(c, Capped(full, now).hits[c][i]) in log
      {
        EvictedSubset(Pruned(full, now), c);
        assert Admission(c, full.hits[c][i]) in log;
      }
    }
  }

  lemma {:induction false} RunStaysLogged(rules: Rules, calls: seq<Call>)
    ensures Logged(Run(rules, calls).store, Run(rules, calls).log)
  {
    if calls == [] {
    } else {
      var front, last := calls[..|calls| - 1], calls[|calls| - 1];
      RunStaysLogged(rules, front);
      FullIsLogged(rules, Run(rules, front), last);
      NextIsCapped(rules, Run(rules, front), last);
      CapStaysLogged(BeforeCap(Run(rules, front), rules, last), last.now, Run(rules, calls).log);
    }
  }

  lemma AliveIsLiveInLog(s: Store, log: seq<Admission>, c: Counter, now: real)
    requires Logged(s, log) && c in s.hits && Alive(s.hits[c], now)
    ensures c in LiveInLog(log, now)
  {
    var i :| 0 <= i < |s.hits[c]| && s.hits[c][i] >= now - MAX_IDLE_SECONDS;
    var k :| 0 <= k < |log| && log[k] == Admission(c, s.hits[c][i]);
  }

  lemma TrackedCount(s: Store)
    requires WellFormed(s)
    ensures |s.hits| == |s.order|
  {
    DistinctSize(s.order);
    assert (set c | c in s.order) == s.hits.Keys;
    assert |s.hits| == |s.hits.Keys|;
  }

  /** A call throws admissions away only when more counters than the ceiling were admitted within
      the last MAX_IDLE_SECONDS; whoever loses theirs was one of them, and so is everybody left. */
  lemma LosingTakesTooManyLive(rules: Rules, calls: seq<Call>, call: Call, k: nat)
    requires InTime(calls, call.now)
    requires |Run(rules, calls).lost| <= k < |Next(rules, Run(rules, calls), call).lost|
    ensures var after := Next(rules, Run(rules, calls), call);
            && |LiveInLog(after.log, call.now)| > MAX_TRACKED_CLIENTS
            && after.lost[k].counter in LiveInLog(after.log, call.now)
            && after.store.hits.Keys <= LiveInLog(after.log, call.now)
            && AllAlive(after.store, call.now)
  {
    RunKeepsInv(rules, calls, call.now);
    RunStaysLogged(rules, calls);
    TooManyLive(rules, Run(rules, calls), call, k);
  }

  lemma TooManyLive(rules: Rules, w: World, call: Call, k: nat)
    requires Inv(w, rules, call.now) && Logged(w.store, w.log)
    requires |w.lost| <= k < |Next(rules, w, call).lost|
    ensures var after := Next(rules, w, call);
            && |LiveInLog(after.log, call.now)| > MAX_TRACKED_CLIENTS
            && after.lost[k].counter in LiveInLog(after.log, call.now)
            && after.store.hits.Keys <= LiveInLog(after.log, call.now)
            && AllAlive(after.store, call.now)
  {
    var full, after := BeforeCap(w, rules, call), Next(rules, w, call);
    NextIsCapped(rules, w, call);
    NextKeepsShape(rules, w, call);
    FullIsSorted(w, rules, call);
    assert after.lost[k] == Thrown(full, call.now)[k - |w.lost|];
    VictimOfTheCap(full, call.now, k - |w.lost|);
    FullIsLogged(rules, w, call);
    CapStaysLogged(full, call.now, after.log);
    forall c | c in after.store.hits ensures c in LiveInLog(after.log, call.now) {
      AliveIsLiveInLog(after.store, after.log, c, call.now);
    }
    AliveIsLiveInLog(full, after.log, after.lost[k].counter, call.now);
    TrackedCount(after.store);
    OneMoreThan(after.store.hits.Keys, after.lost[k].counter, LiveInLog(after.log, call.now));
  }

  lemma OneMoreThan(some: set<Counter>, c: Counter, all: set<Counter>)
    requires some <= all && c in all && c !in some
    ensures |all| > |some|
  {
    SubsetIsSmaller(some + {c}, all);
  }
}
