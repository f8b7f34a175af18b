/** What the rate limiter guarantees over whole runs: it agrees with the full log of
    admitted attempts, and the cap costs exactly what it threw away. */
module RateLimiterRuns {
  import opened Options
  import opened RateLimiter

  datatype Call = Call(counter: Counter, now: real)
  datatype Admission = Admission(counter: Counter, time: real)

  /** `log` is every admitted attempt, never pruned. `lost` is what enforce_cap has thrown
      away by popping a counter from the front. */
  datatype World = World(store: Store, log: seq<Admission>, lost: seq<Admission>, answers: seq<Answer>)

  function Tagged(c: Counter, hits: seq<real>): seq<Admission> {
    if hits == [] then [] else Tagged(c, hits[..|hits| - 1]) + [Admission(c, hits[|hits| - 1])]
  }

  /** The admissions popitem throws away on the way down to the cap. */
  function Popped(s: Store): seq<Admission>
    decreases |s.order|
  {
    if |s.order| <= MAX_TRACKED_CLIENTS then []
    else Tagged(s.order[0], HitsOf(s, s.order[0])) + Popped(Store(s.order[1..], s.hits - {s.order[0]}))
  }

  function Thrown(full: Store, now: real): seq<Admission> {
    if |full.order| <= MAX_TRACKED_CLIENTS then [] else Popped(Pruned(full, now))
  }

  function RuleOf(rules: Rules, c: Counter): Rule {
    rules(c.bucket)
  }

  /** The caller's deque once the sweep is over. */
  function Mine(w: World, rules: Rules, call: Call): seq<real> {
    Swept(w.store, call.counter, RuleOf(rules, call.counter), call.now)
  }

  function Next(rules: Rules, w: World, call: Call): World {
    var rule := RuleOf(rules, call.counter);
    var answer := AnswerTo(w.store, call.counter, rule, call.now);
    var store := StoreAfter(w.store, call.counter, rule, call.now);
    if answer.RetryAfter? then World(store, w.log, w.lost, w.answers + [answer])
    else
      World(store, w.log + [Admission(call.counter, call.now)],
            w.lost + Thrown(Touched(w.store, call.counter, Mine(w, rules, call) + [call.now]), call.now),
            w.answers + [answer])
  }

  function Run(rules: Rules, calls: seq<Call>): World {
    if calls == [] then World(Store([], map[]), [], [], [])
    else Next(rules, Run(rules, calls[..|calls| - 1]), calls[|calls| - 1])
  }

  /** A monotonic clock: the calls came one after another, all of them by `now`. */
  ghost predicate InTime(calls: seq<Call>, now: real) {
    calls == [] ||
    (calls[|calls| - 1].now <= now && InTime(calls[..|calls| - 1], calls[|calls| - 1].now))
  }

  // --- counting -------------------------------------------------------------------------------

  /** Admissions of one counter at or after `from`. */
  function Count(log: seq<Admission>, c: Counter, from: real): nat {
    if log == [] then 0
    else Count(log[..|log| - 1], c, from) +
         if log[|log| - 1].counter == c && log[|log| - 1].time >= from then 1 else 0
  }

  /** Admissions of one counter in the closed window [from, to]. */
  function CountIn(log: seq<Admission>, c: Counter, from: real, to: real): nat {
    if log == [] then 0
    else CountIn(log[..|log| - 1], c, from, to) +
         if log[|log| - 1].counter == c && from <= log[|log| - 1].time <= to then 1 else 0
  }

  function CountHits(hits: seq<real>, from: real): nat {
    if hits == [] then 0
    else CountHits(hits[..|hits| - 1], from) + if hits[|hits| - 1] >= from then 1 else 0
  }

  lemma {:induction false} CountBoth(a: seq<Admission>, b: seq<Admission>, c: Counter, from: real)
    ensures Count(a + b, c, from) == Count(a, c, from) + Count(b, c, from)
  {
    if b == [] {
      assert a + b == a;
    } else {
      CountBoth(a, b[..|b| - 1], c, from);
      assert (a + b)[..|a + b| - 1] == a + b[..|b| - 1];
    }
  }

  lemma {:induction false} CountTagged(k: Counter, hits: seq<real>, c: Counter, from: real)
    ensures Count(Tagged(k, hits), c, from) == if k == c then CountHits(hits, from) else 0
  {
    if hits == [] {
    } else {
      CountTagged(k, hits[..|hits| - 1], c, from);
    }
  }

  lemma {:induction false} CountIsWindow(log: seq<Admission>, c: Counter, from: real, to: real)
    requires forall k :: 0 <= k < |log| ==> log[k].time <= to
    ensures CountIn(log, c, from, to) == Count(log, c, from)
  {
    if log == [] {
    } else {
      CountIsWindow(log[..|log| - 1], c, from, to);
    }
  }

  lemma {:induction false} CountShrinks(log: seq<Admission>, c: Counter, from: real, later: real, to: real)
    requires from <= later
    ensures CountIn(log, c, later, to) <= Count(log, c, later) <= Count(log, c, from)
  {
    if log == [] {
    } else {
      CountShrinks(log[..|log| - 1], c, from, later, to);
    }
  }

  ghost predicate Sorted(hits: seq<real>) {
    forall i, j :: 0 <= i < j < |hits| ==> hits[i] <= hits[j]
  }

  lemma {:induction false} CountHitsTail(hits: seq<real>, from: real)
    requires hits != []
    ensures CountHits(hits, from) == CountHits(hits[1..], from) + if hits[0] >= from then 1 else 0
  {
    if |hits| <= 1 {
    } else {
      CountHitsTail(hits[..|hits| - 1], from);
      assert hits[..|hits| - 1][1..] == hits[1..][..|hits| - 2];
    }
  }

  lemma {:induction false} CountHitsAll(hits: seq<real>, from: real)
    requires hits == [] || hits[0] >= from
    requires Sorted(hits)
    ensures CountHits(hits, from) == |hits|
  {
    if |hits| <= 1 {
    } else {
      CountHitsAll(hits[..|hits| - 1], from);
    }
  }

  lemma {:induction false} CountHitsNone(hits: seq<real>, from: real)
    requires forall i :: 0 <= i < |hits| ==> hits[i] < from
    ensures CountHits(hits, from) == 0
  {
    if hits == [] {
    } else {
      CountHitsNone(hits[..|hits| - 1], from);
    }
  }

  /** Sweeping keeps exactly the hits in the window. */
  lemma {:induction false} FreshIsTheWindow(hits: seq<real>, cutoff: real, from: real)
    requires Sorted(hits) && from >= cutoff
    ensures Sorted(Fresh(hits, cutoff)) && |Fresh(hits, cutoff)| <= |hits|
    ensures CountHits(Fresh(hits, cutoff), from) == CountHits(hits, from)
    ensures |Fresh(hits, cutoff)| == CountHits(hits, cutoff)
    ensures Fresh(hits, cutoff) != [] ==> Fresh(hits, cutoff)[0] >= cutoff
    ensures forall h :: h in Fresh(hits, cutoff) ==> h in hits
  {
    if hits != [] && hits[0] < cutoff {
      FreshIsTheWindow(hits[1..], cutoff, from);
      CountHitsTail(hits, from);
      CountHitsTail(hits, cutoff);
    } else {
      CountHitsAll(hits, cutoff);
    }
  }

  // --- the invariant ----------------------------------------------------------------------------

  ghost predicate Deque(hits: seq<real>, rule: Rule, now: real) {
    && Sorted(hits) && |hits| <= rule.limit
    && forall i :: 0 <= i < |hits| ==> hits[i] <= now
  }

  /** Log, loss and store agree on everything that is still inside c's own window. */
  ghost predicate Balanced(w: World, rules: Rules, c: Counter, now: real) {
    forall from :: from >= Cutoff(RuleOf(rules, c), now) ==>
      Count(w.log, c, from) == Count(w.lost, c, from) + CountHits(HitsOf(w.store, c), from)
  }

  ghost predicate CounterInv(w: World, rules: Rules, c: Counter, now: real) {
    Deque(HitsOf(w.store, c), RuleOf(rules, c), now) && Balanced(w, rules, c, now)
  }

  ghost predicate Shape(s: Store) {
    WellFormed(s) && |s.order| <= MAX_TRACKED_CLIENTS
  }

  ghost predicate Inv(w: World, rules: Rules, now: real) {
    && Shape(w.store)
    && (forall c :: CounterInv(w, rules, c, now))
    && (forall k :: 0 <= k < |w.log| ==> w.log[k].time <= now)
  }

  lemma {:induction false} EvictedHits(s: Store, c: Counter, from: real)
    requires WellFormed(s)
    ensures Count(Popped(s), c, from) + CountHits(HitsOf(Evicted(s), c), from) == CountHits(HitsOf(s, c), from)
    ensures HitsOf(Evicted(s), c) == HitsOf(s, c) || HitsOf(Evicted(s), c) == []
    decreases |s.order|
  {
    if |s.order| <= MAX_TRACKED_CLIENTS {
    } else {
      var k := s.order[0];
      var rest := Store(s.order[1..], s.hits - {k});
      assert forall x :: x in s.order <==> x == k || x in s.order[1..];
      EvictedHits(rest, c, from);
      CountTagged(k, HitsOf(s, k), c, from);
      CountBoth(Tagged(k, HitsOf(s, k)), Popped(rest), c, from);
      if c == k {
        EvictedSubset(rest, c);
      }
    }
  }

  lemma {:induction false} EvictedSubset(s: Store, c: Counter)
    ensures c in Evicted(s).hits ==> c in s.hits && Evicted(s).hits[c] == s.hits[c]
    decreases |s.order|
  {
    if |s.order| <= MAX_TRACKED_CLIENTS {
    } else {
      EvictedSubset(Store(s.order[1..], s.hits - {s.order[0]}), c);
    }
  }

  /** Forgetting a quiet counter changes no count inside any window the decorator allows. */
  lemma PrunedHits(s: Store, rules: Rules, c: Counter, now: real, from: real)
    requires c in s.hits ==> Sorted(s.hits[c])
    requires from >= Cutoff(RuleOf(rules, c), now)
    ensures CountHits(HitsOf(Pruned(s, now), c), from) == CountHits(HitsOf(s, c), from)
    ensures HitsOf(Pruned(s, now), c) == HitsOf(s, c) || HitsOf(Pruned(s, now), c) == []
  {
    if c in s.hits && Idle(s.hits[c], now) {
      CountHitsNone(s.hits[c], from);
    }
  }

  lemma CapAccounts(full: Store, rules: Rules, c: Counter, now: real, from: real)
    requires WellFormed(full) && (c in full.hits ==> Sorted(full.hits[c]))
    requires from >= Cutoff(RuleOf(rules, c), now)
    ensures Count(Thrown(full, now), c, from) + CountHits(HitsOf(Capped(full, now), c), from) ==
            CountHits(HitsOf(full, c), from)
    ensures HitsOf(Capped(full, now), c) == HitsOf(full, c) || HitsOf(Capped(full, now), c) == []
  {
    if |full.order| > MAX_TRACKED_CLIENTS {
      StepsKeepWellFormed(full, c, [], now);
      PrunedHits(full, rules, c, now, from);
      EvictedHits(Pruned(full, now), c, from);
    }
  }

  lemma CapKeepsShape(full: Store, now: real)
    requires WellFormed(full)
    ensures Shape(Capped(full, now))
  {
    if |full.order| > MAX_TRACKED_CLIENTS {
      StepsKeepWellFormed(full, Counter("", ""), [], now);
      EvictedKeepsWellFormed(Pruned(full, now));
    }
  }

  /** The caller's deque decides exactly as the full log would, less what was thrown away. */
  lemma SweptCounts(w: World, rules: Rules, call: Call, last: real)
    requires CounterInv(w, rules, call.counter, last) && last <= call.now
    ensures var from := Cutoff(RuleOf(rules, call.counter), call.now);
            |Mine(w, rules, call)| == Count(w.log, call.counter, from) - Count(w.lost, call.counter, from)
    ensures Deque(Mine(w, rules, call), RuleOf(rules, call.counter), call.now)
    ensures Mine(w, rules, call) != [] ==> Mine(w, rules, call)[0] >= Cutoff(RuleOf(rules, call.counter), call.now)
  {
    var from := Cutoff(RuleOf(rules, call.counter), call.now);
    FreshIsTheWindow(HitsOf(w.store, call.counter), from, from);
    var kept := Mine(w, rules, call);
    forall i | 0 <= i < |kept| ensures kept[i] <= call.now {
      assert kept[i] in HitsOf(w.store, call.counter);
    }
  }

  /** A key nobody has seen cannot be refused, so a refusal never adds a key. */
  lemma RefusedKeepsShape(w: World, rules: Rules, call: Call)
    requires Shape(w.store)
    requires |Mine(w, rules, call)| >= RuleOf(rules, call.counter).limit
    ensures Shape(Touched(w.store, call.counter, Mine(w, rules, call)))
  {
    StepsKeepWellFormed(w.store, call.counter, Mine(w, rules, call), call.now);
    assert call.counter in w.store.order;
    DropOne(w.store.order, call.counter);
  }

  lemma {:induction false} DropOne(order: seq<Counter>, c: Counter)
    requires forall i, j :: 0 <= i < j < |order| ==> order[i] != order[j]
    ensures |Drop(order, {c})| == |order| - if c in order then 1 else 0
  {
    if order == [] {
    } else {
      DropOne(order[..|order| - 1], c);
    }
  }

  predicate Refuses(w: World, rules: Rules, call: Call) {
    |Mine(w, rules, call)| >= RuleOf(rules, call.counter).limit
  }

  /** Everyone's deque before the cap is enforced, whichever way the call went. */
  function BeforeCap(w: World, rules: Rules, call: Call): Store {
    Touched(w.store, call.counter,
      if Refuses(w, rules, call) then Mine(w, rules, call) else Mine(w, rules, call) + [call.now])
  }

  lemma NextIsCapped(rules: Rules, w: World, call: Call)
    ensures var w', full := Next(rules, w, call), BeforeCap(w, rules, call);
            if Refuses(w, rules, call)
            then w'.store == full && w'.lost == w.lost && w'.log == w.log
            else w'.store == Capped(full, call.now) && w'.lost == w.lost + Thrown(full, call.now)
                 && w'.log == w.log + [Admission(call.counter, call.now)]
  {
  }

  lemma OneMoreHit(hits: seq<real>, rule: Rule, now: real, from: real)
    requires Deque(hits, rule, now) && |hits| < rule.limit
    ensures Deque(hits + [now], rule, now)
    ensures CountHits(hits + [now], from) == CountHits(hits, from) + if now >= from then 1 else 0
  {
    assert (hits + [now])[..|hits|] == hits;
  }

  lemma OneMoreAdmission(log: seq<Admission>, a: Admission, c: Counter, from: real)
    ensures Count(log + [a], c, from) ==
            Count(log, c, from) + if a.counter == c && a.time >= from then 1 else 0
  {
    assert (log + [a])[..|log|] == log;
  }

  /** What the caller's deque holds before the cap is enforced. */
  function CallersHits(w: World, rules: Rules, call: Call): seq<real> {
    if Refuses(w, rules, call) then Mine(w, rules, call) else Mine(w, rules, call) + [call.now]
  }

  lemma CallersHitsAreHis(w: World, rules: Rules, call: Call)
    ensures HitsOf(BeforeCap(w, rules, call), call.counter) == CallersHits(w, rules, call)
  {
  }

  lemma CallersDeque(w: World, rules: Rules, call: Call, last: real, from: real)
    requires CounterInv(w, rules, call.counter, last) && last <= call.now
    requires from >= Cutoff(RuleOf(rules, call.counter), call.now)
    ensures Deque(CallersHits(w, rules, call), RuleOf(rules, call.counter), call.now)
    ensures CountHits(CallersHits(w, rules, call), from)
         == CountHits(HitsOf(w.store, call.counter), from)
            + if !Refuses(w, rules, call) && call.now >= from then 1 else 0
  {
    SweptCounts(w, rules, call, last);
    FreshIsTheWindow(HitsOf(w.store, call.counter), Cutoff(RuleOf(rules, call.counter), call.now), from);
    if !Refuses(w, rules, call) {
      OneMoreHit(Mine(w, rules, call), RuleOf(rules, call.counter), call.now, from);
    }
  }

  lemma CallersLog(w: World, rules: Rules, call: Call, from: real)
    ensures Count(Next(rules, w, call).log, call.counter, from)
         == Count(w.log, call.counter, from) + if !Refuses(w, rules, call) && call.now >= from then 1 else 0
  {
    NextIsCapped(rules, w, call);
    OneMoreAdmission(w.log, Admission(call.counter, call.now), call.counter, from);
  }

  /** Recorded in the log and in the deque together, or in neither. */
  lemma CallerBeforeCap(w: World, rules: Rules, call: Call, last: real, from: real)
    requires CounterInv(w, rules, call.counter, last) && last <= call.now
    requires from >= Cutoff(RuleOf(rules, call.counter), call.now)
    ensures Deque(HitsOf(BeforeCap(w, rules, call), call.counter), RuleOf(rules, call.counter), call.now)
    ensures CountHits(HitsOf(BeforeCap(w, rules, call), call.counter), from)
            - Count(Next(rules, w, call).log, call.counter, from)
         == CountHits(HitsOf(w.store, call.counter), from) - Count(w.log, call.counter, from)
  {
    CallersHitsAreHis(w, rules, call);
    CallersDeque(w, rules, call, last, from);
    CallersLog(w, rules, call, from);
  }

  lemma OtherBeforeCap(w: World, rules: Rules, call: Call, c: Counter, from: real)
    requires c != call.counter
    ensures HitsOf(BeforeCap(w, rules, call), c) == HitsOf(w.store, c)
    ensures Count(Next(rules, w, call).log, c, from) == Count(w.log, c, from)
  {
    NextIsCapped(rules, w, call);
    OneMoreAdmission(w.log, Admission(call.counter, call.now), c, from);
  }

  /** Enforcing the cap moves hits from the store to the loss, and nowhere else. */
  lemma AfterCap(w: World, rules: Rules, call: Call, c: Counter, from: real)
    requires WellFormed(BeforeCap(w, rules, call))
    requires Deque(HitsOf(BeforeCap(w, rules, call), c), RuleOf(rules, c), call.now)
    requires from >= Cutoff(RuleOf(rules, c), call.now)
    ensures Count(Next(rules, w, call).lost, c, from) + CountHits(HitsOf(Next(rules, w, call).store, c), from)
            == Count(w.lost, c, from) + CountHits(HitsOf(BeforeCap(w, rules, call), c), from)
    ensures Deque(HitsOf(Next(rules, w, call).store, c), RuleOf(rules, c), call.now)
  {
    var full := BeforeCap(w, rules, call);
    NextIsCapped(rules, w, call);
    CapAccounts(full, rules, c, call.now, from);
    CountBoth(w.lost, Thrown(full, call.now), c, from);
  }

  lemma NextBalancesAt(rules: Rules, w: World, call: Call, last: real, c: Counter, from: real)
    requires CounterInv(w, rules, call.counter, last) && CounterInv(w, rules, c, last) && last <= call.now
    requires WellFormed(BeforeCap(w, rules, call))
    requires from >= Cutoff(RuleOf(rules, c), call.now)
    ensures Count(Next(rules, w, call).log, c, from) ==
            Count(Next(rules, w, call).lost, c, from) + CountHits(HitsOf(Next(rules, w, call).store, c), from)
    ensures Deque(HitsOf(Next(rules, w, call).store, c), RuleOf(rules, c), call.now)
  {
    if c == call.counter {
      CallerBeforeCap(w, rules, call, last, from);
    } else {
      OtherBeforeCap(w, rules, call, c, from);
    }
    AfterCap(w, rules, call, c, from);
  }

  lemma NextBalances(rules: Rules, w: World, call: Call, last: real, c: Counter)
    requires CounterInv(w, rules, call.counter, last) && CounterInv(w, rules, c, last) && last <= call.now
    requires WellFormed(BeforeCap(w, rules, call))
    ensures CounterInv(Next(rules, w, call), rules, c, call.now)
  {
    var w' := Next(rules, w, call);
    NextBalancesAt(rules, w, call, last, c, Cutoff(RuleOf(rules, c), call.now));
    forall from | from >= Cutoff(RuleOf(rules, c), call.now)
      ensures Count(w'.log, c, from) == Count(w'.lost, c, from) + CountHits(HitsOf(w'.store, c), from)
    {
      NextBalancesAt(rules, w, call, last, c, from);
    }
  }

  lemma NextKeepsShape(rules: Rules, w: World, call: Call)
    requires Shape(w.store)
    ensures WellFormed(BeforeCap(w, rules, call)) && Shape(Next(rules, w, call).store)
  {
    var full := BeforeCap(w, rules, call);
    StepsKeepWellFormed(w.store, call.counter, full.hits[call.counter], call.now);
    NextIsCapped(rules, w, call);
    if Refuses(w, rules, call) {
      RefusedKeepsShape(w, rules, call);
    } else {
      CapKeepsShape(full, call.now);
    }
  }

  lemma NextKeepsInv(rules: Rules, w: World, call: Call, last: real)
    requires Inv(w, rules, last) && last <= call.now
    ensures Inv(Next(rules, w, call), rules, call.now)
  {
    NextKeepsShape(rules, w, call);
    NextIsCapped(rules, w, call);
    forall c ensures CounterInv(Next(rules, w, call), rules, c, call.now) {
      NextBalances(rules, w, call, last, c);
    }
  }

  // --- every run ------------------------------------------------------------------------------

  lemma {:induction false} RunKeepsInv(rules: Rules, calls: seq<Call>, now: real)
    requires InTime(calls, now)
    ensures Inv(Run(rules, calls), rules, now)
  {
    if calls == [] {
    } else {
      var front, last := calls[..|calls| - 1], calls[|calls| - 1];
      RunKeepsInv(rules, front, last.now);
      NextKeepsInv(rules, Run(rules, front), last, last.now);
      InvLater(Run(rules, calls), rules, last.now, now);
    }
  }

  lemma InvLater(w: World, rules: Rules, now: real, later: real)
    requires Inv(w, rules, now) && now <= later
    ensures Inv(w, rules, later)
  {
    forall c ensures CounterInv(w, rules, c, later) {
      assert CounterInv(w, rules, c, now);
    }
  }

  lemma SweptAfterRun(rules: Rules, calls: seq<Call>, call: Call)
    requires InTime(calls, call.now)
    ensures var w, from := Run(rules, calls), Cutoff(RuleOf(rules, call.counter), call.now);
            |Mine(w, rules, call)| == CountIn(w.log, call.counter, from, call.now)
                                       - CountIn(w.lost, call.counter, from, call.now)
  {
    var w, from := Run(rules, calls), Cutoff(RuleOf(rules, call.counter), call.now);
    assert |Mine(w, rules, call)| == Count(w.log, call.counter, from) - Count(w.lost, call.counter, from)
           && (forall k :: 0 <= k < |w.log| ==> w.log[k].time <= call.now) by {
      RunKeepsInv(rules, calls, call.now);
      assert CounterInv(w, rules, call.counter, call.now);
      SweptCounts(w, rules, call, call.now);
    }
    LostWasLogged(rules, calls, call.now);
    CountIsWindow(w.log, call.counter, from, call.now);
    CountIsWindow(w.lost, call.counter, from, call.now);
  }

  /** What the limiter answers to one more call. */
  function Answered(rules: Rules, calls: seq<Call>, call: Call): Answer {
    AnswerTo(Run(rules, calls).store, call.counter, RuleOf(rules, call.counter), call.now)
  }

  lemma RefusedWhenFull(rules: Rules, calls: seq<Call>, call: Call)
    ensures Answered(rules, calls, call).RetryAfter? <==>
            |Mine(Run(rules, calls), rules, call)| >= RuleOf(rules, call.counter).limit
  {
  }

  /** Admissions of the caller in the closed window [now - perSeconds, now]. */
  function InWindow(log: seq<Admission>, rules: Rules, call: Call): nat {
    CountIn(log, call.counter, Cutoff(RuleOf(rules, call.counter), call.now), call.now)
  }

  /** The limiter refines the full log: every decision of every run is "at least `limit`
      admissions in the closed window, not counting those enforce_cap threw away". */
  lemma DecisionIsTheLogs(rules: Rules, calls: seq<Call>, call: Call)
    requires InTime(calls, call.now)
    ensures Answered(rules, calls, call).RetryAfter? <==>
            InWindow(Run(rules, calls).log, rules, call) - InWindow(Run(rules, calls).lost, rules, call)
            >= RuleOf(rules, call.counter).limit
  {
    RefusedWhenFull(rules, calls, call);
    SweptAfterRun(rules, calls, call);
  }

  /** Even with evictions no refusal is unjust: it means `limit` real admissions in the window. */
  lemma RefusalIsJust(rules: Rules, calls: seq<Call>, call: Call)
    requires InTime(calls, call.now)
    requires Answered(rules, calls, call).RetryAfter?
    ensures InWindow(Run(rules, calls).log, rules, call) >= RuleOf(rules, call.counter).limit
  {
    DecisionIsTheLogs(rules, calls, call);
  }

  /** For a counter the cap never popped, the limiter is exactly the unpruned log: sweeping
      and pruning never change a decision. */
  lemma UntouchedCounterIsExact(rules: Rules, calls: seq<Call>, call: Call)
    requires InTime(calls, call.now)
    requires NeverLost(Run(rules, calls), call.counter)
    ensures Answered(rules, calls, call).RetryAfter? <==>
            InWindow(Run(rules, calls).log, rules, call) >= RuleOf(rules, call.counter).limit
  {
    DecisionIsTheLogs(rules, calls, call);
    NeverLostCounts(Run(rules, calls).lost, call.counter,
      Cutoff(RuleOf(rules, call.counter), call.now), call.now);
  }

  ghost predicate NeverLost(w: World, c: Counter) {
    forall k :: 0 <= k < |w.lost| ==> w.lost[k].counter != c
  }

  lemma {:induction false} NeverLostCounts(lost: seq<Admission>, c: Counter, from: real, to: real)
    requires forall k :: 0 <= k < |lost| ==> lost[k].counter != c
    ensures CountIn(lost, c, from, to) == 0 && Count(lost, c, from) == 0
  {
    if lost == [] {
    } else {
      NeverLostCounts(lost[..|lost| - 1], c, from, to);
    }
  }

  lemma {:induction false} TaggedTimes(c: Counter, hits: seq<real>)
    ensures forall k :: 0 <= k < |Tagged(c, hits)| ==>
              Tagged(c, hits)[k].counter == c && Tagged(c, hits)[k].time in hits
  {
    if hits == [] {
    } else {
      TaggedTimes(c, hits[..|hits| - 1]);
    }
  }

  lemma {:induction false} PoppedTimes(s: Store, now: real)
    requires forall c :: c in s.hits ==> forall i :: 0 <= i < |s.hits[c]| ==> s.hits[c][i] <= now
    ensures forall k :: 0 <= k < |Popped(s)| ==> Popped(s)[k].time <= now
    decreases |s.order|
  {
    if |s.order| <= MAX_TRACKED_CLIENTS {
    } else {
      TaggedTimes(s.order[0], HitsOf(s, s.order[0]));
      PoppedTimes(Store(s.order[1..], s.hits - {s.order[0]}), now);
    }
  }

  lemma ThrownTimes(w: World, rules: Rules, call: Call)
    requires Inv(w, rules, call.now)
    ensures forall k :: 0 <= k < |Thrown(BeforeCap(w, rules, call), call.now)| ==>
              Thrown(BeforeCap(w, rules, call), call.now)[k].time <= call.now
  {
    var full := BeforeCap(w, rules, call);
    SweptCounts(w, rules, call, call.now);
    forall c | c in full.hits ensures forall i :: 0 <= i < |full.hits[c]| ==> full.hits[c][i] <= call.now {
      assert CounterInv(w, rules, c, call.now);
    }
    PoppedTimes(Pruned(full, call.now), call.now);
  }

  lemma {:induction false} LostWasLogged(rules: Rules, calls: seq<Call>, now: real)
    requires InTime(calls, now)
    ensures forall k :: 0 <= k < |Run(rules, calls).lost| ==> Run(rules, calls).lost[k].time <= now
  {
    if calls == [] {
    } else {
      var front, last := calls[..|calls| - 1], calls[|calls| - 1];
      var w := Run(rules, front);
      LostWasLogged(rules, front, last.now);
      RunKeepsInv(rules, front, last.now);
      ThrownTimes(w, rules, last);
      NextIsCapped(rules, w, last);
    }
  }

  // --- how much gets through --------------------------------------------------------------------

  lemma LostOnlyGrows(rules: Rules, calls: seq<Call>)
    requires calls != []
    ensures Run(rules, calls[..|calls| - 1]).lost <= Run(rules, calls).lost
  {
    NextIsCapped(rules, Run(rules, calls[..|calls| - 1]), calls[|calls| - 1]);
  }

  lemma {:induction false} CountInOneMore(log: seq<Admission>, a: Admission, c: Counter, from: real, to: real)
    ensures CountIn(log + [a], c, from, to) ==
            CountIn(log, c, from, to) + if a.counter == c && from <= a.time <= to then 1 else 0
  {
    assert (log + [a])[..|log|] == log;
  }

  /** Admissions of c in the closed window of its rule's length that starts at `from`. */
  function Burst(log: seq<Admission>, rules: Rules, c: Counter, from: real): nat {
    CountIn(log, c, from, from + RuleOf(rules, c).perSeconds)
  }

  /** Every window of the rule's length, wherever it starts, holds at most `limit` admissions. */
  lemma {:induction false} AtMostLimitInAnyWindow(rules: Rules, calls: seq<Call>, now: real, c: Counter, from: real)
    requires InTime(calls, now) && NeverLost(Run(rules, calls), c)
    ensures Burst(Run(rules, calls).log, rules, c, from) <= RuleOf(rules, c).limit
  {
    if calls == [] {
    } else {
      var front, last := calls[..|calls| - 1], calls[|calls| - 1];
      LostOnlyGrows(rules, calls);
      assert NeverLost(Run(rules, front), c);
      AtMostLimitInAnyWindow(rules, front, last.now, c, from);
      NextIsCapped(rules, Run(rules, front), last);
      if !Refuses(Run(rules, front), rules, last) {
        CountInOneMore(Run(rules, front).log, Admission(last.counter, last.now), c, from,
          from + RuleOf(rules, c).perSeconds);
        if last.counter == c && last.now <= from + RuleOf(rules, c).perSeconds {
          RoomForOneMore(rules, front, last, from);
        }
      }
    }
  }

  lemma RoomInWindow(w: World, rules: Rules, call: Call, from: real)
    requires CounterInv(w, rules, call.counter, call.now) && NeverLost(w, call.counter)
    requires !Refuses(w, rules, call)
    requires Cutoff(RuleOf(rules, call.counter), call.now) <= from
    ensures Burst(w.log, rules, call.counter, from) < RuleOf(rules, call.counter).limit
  {
    var cutoff := Cutoff(RuleOf(rules, call.counter), call.now);
    SweptCounts(w, rules, call, call.now);
    NeverLostCounts(w.lost, call.counter, cutoff, call.now);
    CountShrinks(w.log, call.counter, cutoff, from, from + RuleOf(rules, call.counter).perSeconds);
  }

  lemma RoomForOneMore(rules: Rules, calls: seq<Call>, call: Call, from: real)
    requires InTime(calls, call.now) && NeverLost(Run(rules, calls), call.counter)
    requires !Refuses(Run(rules, calls), rules, call)
    requires call.now <= from + RuleOf(rules, call.counter).perSeconds
    ensures Burst(Run(rules, calls).log, rules, call.counter, from) < RuleOf(rules, call.counter).limit
  {
    RunKeepsInv(rules, calls, call.now);
    assert CounterInv(Run(rules, calls), rules, call.counter, call.now);
    RoomInWindow(Run(rules, calls), rules, call, from);
  }

  function TotalBurst(worlds: seq<World>, rules: Rules, c: Counter, from: real): nat {
    if worlds == [] then 0
    else TotalBurst(worlds[..|worlds| - 1], rules, c, from) + Burst(worlds[|worlds| - 1].log, rules, c, from)
  }

  /** One worker's own history, in which the cap never popped c. */
  ghost predicate Reached(rules: Rules, w: World, now: real, c: Counter) {
    NeverLost(w, c) && exists calls :: InTime(calls, now) && w == Run(rules, calls)
  }

  /** Each worker keeps its own store, so W of them together admit at most W times the limit. */
  lemma {:induction false} WorkersMultiplyTheLimit(rules: Rules, worlds: seq<World>, now: real, c: Counter, from: real)
    requires forall k :: 0 <= k < |worlds| ==> Reached(rules, worlds[k], now, c)
    ensures TotalBurst(worlds, rules, c, from) <= |worlds| * RuleOf(rules, c).limit
  {
    if worlds == [] {
    } else {
      var n := |worlds| - 1;
      WorkersMultiplyTheLimit(rules, worlds[..n], now, c, from);
      assert Reached(rules, worlds[n], now, c);
      OneWorker(rules, worlds[n], now, c, from);
      OneMoreTimes(n, RuleOf(rules, c).limit);
    }
  }

  lemma OneWorker(rules: Rules, w: World, now: real, c: Counter, from: real)
    requires Reached(rules, w, now, c)
    ensures Burst(w.log, rules, c, from) <= RuleOf(rules, c).limit
  {
    var calls :| InTime(calls, now) && w == Run(rules, calls);
    AtMostLimitInAnyWindow(rules, calls, now, c, from);
  }

  lemma OneMoreTimes(n: nat, limit: nat)
    ensures (n + 1) * limit == n * limit + limit
  {
  }

  // --- the cap ------------------------------------------------------------------------------------

  /** The store never holds more than the ceiling once a call has returned. */
  lemma StoreStaysUnderTheCap(rules: Rules, calls: seq<Call>, now: real)
    requires InTime(calls, now)
    ensures |Run(rules, calls).store.hits| <= MAX_TRACKED_CLIENTS
  {
    RunKeepsInv(rules, calls, now);
    var s := Run(rules, calls).store;
    assert s.hits.Keys == set c | c in s.order;
    DistinctSize(s.order);
    assert |s.hits| == |s.hits.Keys|;
  }

  lemma {:induction false} DistinctSize(order: seq<Counter>)
    requires forall i, j :: 0 <= i < j < |order| ==> order[i] != order[j]
    ensures |set c | c in order| == |order|
  {
    if order == [] {
    } else {
      var front, last := order[..|order| - 1], order[|order| - 1];
      DistinctSize(front);
      assert (set c | c in order) == (set c | c in front) + {last};
    }
  }

  lemma {:induction false} EvictedKeepsTheLast(s: Store)
    requires WellFormed(s) && s.order != []
    ensures s.order[|s.order| - 1] in Evicted(s).hits
    decreases |s.order|
  {
    if |s.order| <= MAX_TRACKED_CLIENTS {
    } else {
      assert forall k :: k in s.order <==> k == s.order[0] || k in s.order[1..];
      EvictedKeepsTheLast(Store(s.order[1..], s.hits - {s.order[0]}));
    }
  }

  lemma {:induction false} DropKeepsTheLast(order: seq<Counter>, gone: set<Counter>)
    requires order != [] && order[|order| - 1] !in gone
    ensures Drop(order, gone) != [] && Drop(order, gone)[|Drop(order, gone)| - 1] == order[|order| - 1]
  {
  }

  /** A call never evicts the counter it has just touched. */
  lemma CallerIsNeverEvicted(rules: Rules, calls: seq<Call>, call: Call)
    requires InTime(calls, call.now)
    ensures call.counter in Next(rules, Run(rules, calls), call).store.hits
  {
    RunKeepsInv(rules, calls, call.now);
    CallerSurvives(rules, Run(rules, calls), call);
  }

  lemma TheLastSurvives(full: Store, c: Counter, now: real)
    requires WellFormed(full) && full.order != [] && full.order[|full.order| - 1] == c
    requires c !in Quiet(full, now)
    ensures c in Capped(full, now).hits
  {
    if |full.order| > MAX_TRACKED_CLIENTS {
      StepsKeepWellFormed(full, c, [], now);
      DropKeepsTheLast(full.order, Quiet(full, now));
      EvictedKeepsTheLast(Pruned(full, now));
    } else {
      assert c in full.order;
    }
  }

  lemma CallerSurvives(rules: Rules, w: World, call: Call)
    requires Shape(w.store)
    ensures call.counter in Next(rules, w, call).store.hits
  {
    NextIsCapped(rules, w, call);
    NextKeepsShape(rules, w, call);
    if !Refuses(w, rules, call) {
      TheLastSurvives(BeforeCap(w, rules, call), call.counter, call.now);
    }
  }

  // --- what it takes to lose a live counter ----------------------------------------------------

  /** Position of a counter's last attempt, refused ones included. */
  function LastTouch(calls: seq<Call>, c: Counter): int
    ensures -1 <= LastTouch(calls, c) < |calls|
  {
    if calls == [] then -1
    else if calls[|calls| - 1].counter == c then |calls| - 1
    else LastTouch(calls[..|calls| - 1], c)
  }

  /** The other counters touched since c was. */
  function TouchedSince(calls: seq<Call>, c: Counter): set<Counter> {
    set i | LastTouch(calls, c) < i < |calls| :: calls[i].counter
  }

  /** The order of the store is the order of last touches. */
  ghost predicate ByTouch(order: seq<Counter>, calls: seq<Call>) {
    forall i, j :: 0 <= i < j < |order| ==> LastTouch(calls, order[i]) < LastTouch(calls, order[j])
  }

  lemma {:induction false} DropByTouch(order: seq<Counter>, gone: set<Counter>, calls: seq<Call>)
    requires ByTouch(order, calls)
    ensures ByTouch(Drop(order, gone), calls)
  {
    if order == [] {
    } else {
      DropByTouch(order[..|order| - 1], gone, calls);
      DropKeeps(order[..|order| - 1], gone);
      var front := Drop(order[..|order| - 1], gone);
      forall i | 0 <= i < |front| ensures LastTouch(calls, front[i]) < LastTouch(calls, order[|order| - 1]) {
        assert front[i] in order[..|order| - 1];
      }
    }
  }

  lemma {:induction false} EvictedByTouch(s: Store, calls: seq<Call>)
    requires ByTouch(s.order, calls)
    ensures ByTouch(Evicted(s).order, calls)
    decreases |s.order|
  {
    if |s.order| <= MAX_TRACKED_CLIENTS {
    } else {
      EvictedByTouch(Store(s.order[1..], s.hits - {s.order[0]}), calls);
    }
  }

  lemma TouchedByTouch(order: seq<Counter>, calls: seq<Call>, call: Call)
    requires ByTouch(order, calls)
    ensures ByTouch(Drop(order, {call.counter}) + [call.counter], calls + [call])
  {
    DropByTouch(order, {call.counter}, calls);
    DropKeeps(order, {call.counter});
    var kept := Drop(order, {call.counter});
    assert (calls + [call])[..|calls|] == calls;
    forall i | 0 <= i < |kept| ensures LastTouch(calls + [call], kept[i]) == LastTouch(calls, kept[i]) {
      assert kept[i] in kept;
    }
  }

  lemma {:induction false} RunIsByTouch(rules: Rules, calls: seq<Call>)
    ensures ByTouch(Run(rules, calls).store.order, calls)
  {
    if calls == [] {
    } else {
      var front, last := calls[..|calls| - 1], calls[|calls| - 1];
      RunIsByTouch(rules, front);
      assert front + [last] == calls;
      TouchedByTouch(Run(rules, front).store.order, front, last);
      NextIsCapped(rules, Run(rules, front), last);
      CapByTouch(BeforeCap(Run(rules, front), rules, last), last.now, calls);
    }
  }

  lemma CapByTouch(full: Store, now: real, calls: seq<Call>)
    requires ByTouch(full.order, calls)
    ensures ByTouch(Capped(full, now).order, calls)
  {
    if |full.order| > MAX_TRACKED_CLIENTS {
      DropByTouch(full.order, Quiet(full, now), calls);
      EvictedByTouch(Pruned(full, now), calls);
    }
  }

  /** Whatever popitem takes had a full ceiling of counters behind it in the queue. */
  lemma {:induction false} PoppedFromTheFront(s: Store, k: nat) returns (i: nat)
    requires WellFormed(s) && k < |Popped(s)|
    ensures i < |s.order| && s.order[i] == Popped(s)[k].counter && |s.order| - i > MAX_TRACKED_CLIENTS
    decreases |s.order|
  {
    var first := Tagged(s.order[0], HitsOf(s, s.order[0]));
    if k < |first| {
      TaggedTimes(s.order[0], HitsOf(s, s.order[0]));
      i := 0;
    } else {
      assert forall c :: c in s.order <==> c == s.order[0] || c in s.order[1..];
      i := PoppedFromTheFront(Store(s.order[1..], s.hits - {s.order[0]}), k - |first|);
      i := i + 1;
    }
  }

  lemma BehindMeansSince(order: seq<Counter>, calls: seq<Call>, i: nat)
    requires (forall a, b :: 0 <= a < b < |order| ==> order[a] != order[b]) && ByTouch(order, calls) && i < |order|
    ensures |TouchedSince(calls, order[i])| >= |order| - i - 1
  {
    var behind := order[i + 1..];
    DistinctSize(behind);
    forall c | c in behind ensures c in TouchedSince(calls, order[i]) {
      var j :| 0 <= j < |behind| && behind[j] == c;
      assert LastTouch(calls, order[i]) < LastTouch(calls, order[i + 1 + j]);
      LastTouchIsATouch(calls, c);
    }
    SubsetIsSmaller((set c | c in behind), TouchedSince(calls, order[i]));
  }

  lemma {:induction false} LastTouchIsATouch(calls: seq<Call>, c: Counter)
    ensures LastTouch(calls, c) >= 0 ==> calls[LastTouch(calls, c)].counter == c
  {
    if calls == [] {
    } else {
      LastTouchIsATouch(calls[..|calls| - 1], c);
    }
  }

  lemma {:induction false} SubsetIsSmaller(a: set<Counter>, b: set<Counter>)
    requires a <= b
    ensures |a| <= |b|
  {
    assert b == a + (b - a);
  }

  /** A counter loses live hits only once at least MAX_TRACKED_CLIENTS other counters have
      been touched since it last was. */
  lemma LosingACounterTakesACrowd(rules: Rules, calls: seq<Call>, call: Call, k: nat)
    requires InTime(calls, call.now)
    requires var w := Run(rules, calls);
             |w.lost| <= k < |Next(rules, w, call).lost|
    ensures var victim := Next(rules, Run(rules, calls), call).lost[k].counter;
            |TouchedSince(calls + [call], victim)| >= MAX_TRACKED_CLIENTS
  {
    var w := Run(rules, calls);
    var full := BeforeCap(w, rules, call);
    RunKeepsInv(rules, calls, call.now);
    NextKeepsShape(rules, w, call);
    NextIsCapped(rules, w, call);
    StepsKeepWellFormed(full, call.counter, [], call.now);
    var i := PoppedFromTheFront(Pruned(full, call.now), k - |w.lost|);
    RunIsByTouch(rules, calls);
    TouchedByTouch(w.store.order, calls, call);
    DropByTouch(full.order, Quiet(full, call.now), calls + [call]);
    BehindMeansSince(Pruned(full, call.now).order, calls + [call], i);
  }

  // --- a crowd that fits loses nothing --------------------------------------------------------

  /** Everyone who has called. */
  function Callers(calls: seq<Call>): set<Counter> {
    set i | 0 <= i < |calls| :: calls[i].counter
  }

  lemma CapAddsNobody(full: Store, now: real, c: Counter)
    requires c in Capped(full, now).hits
    ensures c in full.hits
  {
    if |full.order| > MAX_TRACKED_CLIENTS {
      EvictedSubset(Pruned(full, now), c);
    }
  }

  lemma CallersGrow(calls: seq<Call>)
    requires calls != []
    ensures Callers(calls) == Callers(calls[..|calls| - 1]) + {calls[|calls| - 1].counter}
  {
    var front, last := calls[..|calls| - 1], calls[|calls| - 1];
    forall c | c in Callers(calls) ensures c in Callers(front) || c == last.counter {
      var i :| 0 <= i < |calls| && calls[i].counter == c;
      assert i < |front| ==> front[i] == calls[i];
    }
    forall c | c in Callers(front) ensures c in Callers(calls) {
      var i :| 0 <= i < |front| && front[i].counter == c;
      assert calls[i] == front[i];
    }
  }

  /** Only callers are tracked. */
  lemma {:induction false} TrackedHaveCalled(rules: Rules, calls: seq<Call>, c: Counter)
    requires c in Run(rules, calls).store.hits
    ensures c in Callers(calls)
  {
    if calls == [] {
      assert false;
    } else {
      var front, last := calls[..|calls| - 1], calls[|calls| - 1];
      var w := Run(rules, front);
      CallersGrow(calls);
      NextIsCapped(rules, w, last);
      if !Refuses(w, rules, last) {
        CapAddsNobody(BeforeCap(w, rules, last), last.now, c);
      }
      if c != last.counter {
        TrackedHaveCalled(rules, front, c);
      }
    }
  }

  lemma FewAreBelowTheCap(full: Store, some: set<Counter>)
    requires WellFormed(full) && full.hits.Keys <= some && |some| <= MAX_TRACKED_CLIENTS
    ensures |full.order| <= MAX_TRACKED_CLIENTS
  {
    DistinctSize(full.order);
    assert (set c | c in full.order) <= some;
    SubsetIsSmaller((set c | c in full.order), some);
  }

  /** While no more counters have called than the ceiling allows, enforce_cap throws nothing away. */
  lemma {:induction false} ACrowdThatFitsLosesNothing(rules: Rules, calls: seq<Call>, now: real)
    requires InTime(calls, now) && |Callers(calls)| <= MAX_TRACKED_CLIENTS
    ensures Run(rules, calls).lost == []
  {
    if calls == [] {
    } else {
      var front, last := calls[..|calls| - 1], calls[|calls| - 1];
      var w := Run(rules, front);
      CallersGrow(calls);
      SubsetIsSmaller(Callers(front), Callers(calls));
      ACrowdThatFitsLosesNothing(rules, front, last.now);
      RunKeepsInv(rules, front, last.now);
      NextKeepsShape(rules, w, last);
      NextIsCapped(rules, w, last);
      forall c | c in BeforeCap(w, rules, last).hits ensures c in Callers(calls) {
        if c != last.counter {
          TrackedHaveCalled(rules, front, c);
        }
      }
      FewAreBelowTheCap(BeforeCap(w, rules, last), Callers(calls));
    }
  }

  /** So for them the limiter is the unpruned log, for every counter and at every call. */
  lemma ACrowdThatFitsIsExact(rules: Rules, calls: seq<Call>, call: Call)
    requires InTime(calls, call.now) && |Callers(calls)| <= MAX_TRACKED_CLIENTS
    ensures Answered(rules, calls, call).RetryAfter? <==>
            InWindow(Run(rules, calls).log, rules, call) >= RuleOf(rules, call.counter).limit
  {
    ACrowdThatFitsLosesNothing(rules, calls, call.now);
    UntouchedCounterIsExact(rules, calls, call);
  }

  // --- Retry-After ----------------------------------------------------------------------------------

  /** Between two attempts on c: every other attempt on it was refused, and the cap never
      popped it. */
  ghost predicate OnlyRefused(rules: Rules, calls: seq<Call>, mid: seq<Call>, c: Counter) {
    mid == [] ||
    (var front, last := mid[..|mid| - 1], mid[|mid| - 1];
     && OnlyRefused(rules, calls, front, c)
     && (last.counter == c ==> Answered(rules, calls + front, last).RetryAfter?)
     && SameLoss(Run(rules, calls + front), Run(rules, calls + mid), c))
  }

  ghost predicate SameLoss(before: World, after: World, c: Counter) {
    forall k :: |before.lost| <= k < |after.lost| ==> after.lost[k].counter != c
  }

  lemma {:induction false} OnlyRefusedMovesNothing(rules: Rules, calls: seq<Call>, mid: seq<Call>, c: Counter,
                                                    from: real)
    requires OnlyRefused(rules, calls, mid, c)
    ensures Count(Run(rules, calls + mid).log, c, from) - Count(Run(rules, calls + mid).lost, c, from)
            == Count(Run(rules, calls).log, c, from) - Count(Run(rules, calls).lost, c, from)
  {
    if mid == [] {
      assert calls + mid == calls;
    } else {
      var front, last := mid[..|mid| - 1], mid[|mid| - 1];
      OnlyRefusedMovesNothing(rules, calls, front, c, from);
      RunOneMore(rules, calls, mid);
      OneCallMovesNothing(rules, Run(rules, calls + front), last, c, from);
    }
  }

  lemma RunOneMore(rules: Rules, calls: seq<Call>, mid: seq<Call>)
    requires mid != []
    ensures Run(rules, calls + mid) == Next(rules, Run(rules, calls + mid[..|mid| - 1]), mid[|mid| - 1])
  {
    LastOfBoth(calls, mid);
  }

  lemma LastOfBoth(calls: seq<Call>, mid: seq<Call>)
    requires mid != []
    ensures (calls + mid)[..|calls + mid| - 1] == calls + mid[..|mid| - 1]
    ensures (calls + mid)[|calls + mid| - 1] == mid[|mid| - 1]
  {
  }

  lemma OneCallMovesNothing(rules: Rules, w: World, call: Call, c: Counter, from: real)
    requires call.counter == c ==> Refuses(w, rules, call)
    requires SameLoss(w, Next(rules, w, call), c)
    ensures Count(Next(rules, w, call).log, c, from) == Count(w.log, c, from)
    ensures Count(Next(rules, w, call).lost, c, from) == Count(w.lost, c, from)
  {
    var w' := Next(rules, w, call);
    NextIsCapped(rules, w, call);
    OneMoreAdmission(w.log, Admission(call.counter, call.now), c, from);
    var thrown := w'.lost[|w.lost|..];
    assert w'.lost == w.lost + thrown;
    forall k | 0 <= k < |thrown| ensures thrown[k].counter != c {
      assert thrown[k] == w'.lost[|w.lost| + k];
    }
    NeverLostCounts(thrown, c, from, from);
    CountBoth(w.lost, thrown, c, from);
  }

  lemma {:induction false} FullDequeCount(hits: seq<real>, from: real)
    requires Sorted(hits) && hits != []
    ensures CountHits(hits, from) == |hits| <==> hits[0] >= from
  {
    CountHitsTail(hits, from);
    CountHitsAtMost(hits[1..], from);
    if hits[0] >= from {
      CountHitsAll(hits, from);
    }
  }

  lemma {:induction false} CountHitsAtMost(hits: seq<real>, from: real)
    ensures CountHits(hits, from) <= |hits|
  {
    if hits == [] {
    } else {
      CountHitsAtMost(hits[..|hits| - 1], from);
    }
  }

  /** A refused deque is exactly full, so the window opens when its oldest hit leaves it. */
  lemma RefusedUntilTheOldestLeaves(w: World, rules: Rules, call: Call, from: real)
    requires CounterInv(w, rules, call.counter, call.now) && Refuses(w, rules, call)
    requires from >= Cutoff(RuleOf(rules, call.counter), call.now)
    ensures Count(w.log, call.counter, from) - Count(w.lost, call.counter, from) >= RuleOf(rules, call.counter).limit
            <==> Mine(w, rules, call)[0] >= from
  {
    SweptCounts(w, rules, call, call.now);
    FreshIsTheWindow(HitsOf(w.store, call.counter), Cutoff(RuleOf(rules, call.counter), call.now), from);
    FullDequeCount(Mine(w, rules, call), from);
    CountHitsAtMost(Mine(w, rules, call), from);
  }

  /** Waiting r seconds is enough, r - 1 is not. */
  lemma WaitIsLeast(rule: Rule, now: real, oldest: real, k: nat)
    requires Cutoff(rule, now) <= oldest <= now
    ensures 1 <= Wait(rule, now, oldest) && Wait(rule, now, oldest) as real <= rule.perSeconds + 1.0
    ensures oldest >= Cutoff(rule, now + k as real) <==> k < Wait(rule, now, oldest)
  {
  }

  /** Retry-After is exact: r is between 1 and perSeconds + 1, and an attempt a whole number k
      of seconds later is admitted exactly when k >= r, however often the counter was
      refused in between. */
  lemma RetryAfterIsExact(rules: Rules, calls: seq<Call>, call: Call, mid: seq<Call>, k: nat)
    requires InTime(calls, call.now) && Answered(rules, calls, call).RetryAfter?
    requires InTime(calls + mid, call.now + k as real)
    requires OnlyRefused(rules, calls, mid, call.counter)
    ensures var r := Answered(rules, calls, call).seconds;
            && 1 <= r && r as real <= RuleOf(rules, call.counter).perSeconds + 1.0
            && (Answered(rules, calls + mid, Call(call.counter, call.now + k as real)).Admitted? <==> k >= r)
  {
    var w, later := Run(rules, calls), Call(call.counter, call.now + k as real);
    RefusedWhenFull(rules, calls, call);
    RunKeepsInv(rules, calls, call.now);
    assert CounterInv(w, rules, call.counter, call.now);
    SweptCounts(w, rules, call, call.now);
    var from := Cutoff(RuleOf(rules, call.counter), later.now);
    RefusedUntilTheOldestLeaves(w, rules, call, from);
    WaitIsLeast(RuleOf(rules, call.counter), call.now, Mine(w, rules, call)[0], k);
    OnlyRefusedMovesNothing(rules, calls, mid, call.counter, from);
    CountAfterRun(rules, calls + mid, later);
  }

  lemma CountAfterRun(rules: Rules, calls: seq<Call>, call: Call)
    requires InTime(calls, call.now)
    ensures var w, from := Run(rules, calls), Cutoff(RuleOf(rules, call.counter), call.now);
            Answered(rules, calls, call).RetryAfter? <==>
            Count(w.log, call.counter, from) - Count(w.lost, call.counter, from) >= RuleOf(rules, call.counter).limit
  {
    RunKeepsInv(rules, calls, call.now);
    assert CounterInv(Run(rules, calls), rules, call.counter, call.now);
    SweptCounts(Run(rules, calls), rules, call, call.now);
    RefusedWhenFull(rules, calls, call);
  }

  // --- paced clients -----------------------------------------------------------------------------

  /** Attempts on c are at least g apart. */
  ghost predicate Paced(calls: seq<Call>, c: Counter, g: real) {
    forall i, j :: 0 <= i < j < |calls| && calls[i].counter == c && calls[j].counter == c ==>
      calls[j].now - calls[i].now >= g
  }

  ghost predicate Attempted(calls: seq<Call>, c: Counter, time: real) {
    exists k :: 0 <= k < |calls| && calls[k].counter == c && calls[k].now == time
  }

  /** Each hit is the time of an attempt, and they are g apart. */
  ghost predicate PacedHits(hits: seq<real>, calls: seq<Call>, c: Counter, g: real) {
    && (forall i :: 0 <= i < |hits| ==> Attempted(calls, c, hits[i]))
    && (forall i :: 0 < i < |hits| ==> hits[i] - hits[i - 1] >= g)
  }

  lemma {:induction false} FreshStaysPaced(hits: seq<real>, cutoff: real, calls: seq<Call>, c: Counter, g: real)
    requires PacedHits(hits, calls, c, g)
    ensures PacedHits(Fresh(hits, cutoff), calls, c, g)
  {
    if hits != [] && hits[0] < cutoff {
      FreshStaysPaced(hits[1..], cutoff, calls, c, g);
    }
  }

  lemma {:induction false} RunStaysPaced(rules: Rules, calls: seq<Call>, c: Counter, g: real)
    requires Paced(calls, c, g)
    ensures PacedHits(HitsOf(Run(rules, calls).store, c), calls, c, g)
  {
    if calls == [] {
    } else {
      var front, last := calls[..|calls| - 1], calls[|calls| - 1];
      var w := Run(rules, front);
      RunStaysPaced(rules, front, c, g);
      PacedLater(HitsOf(w.store, c), front, calls, c, g);
      FreshStaysPaced(HitsOf(w.store, c), Cutoff(RuleOf(rules, c), last.now), calls, c, g);
      FreshStaysPaced(HitsOf(w.store, c), Cutoff(RuleOf(rules, c), last.now), front, c, g);
      if last.counter == c {
        OneMorePacedHit(Mine(w, rules, last), front, last, g);
        assert front + [last] == calls;
      }
      NextIsCapped(rules, w, last);
      CapKeepsHitsOrDropsThem(BeforeCap(w, rules, last), last.now, c);
    }
  }

  lemma PacedLater(hits: seq<real>, front: seq<Call>, calls: seq<Call>, c: Counter, g: real)
    requires front <= calls && PacedHits(hits, front, c, g)
    ensures PacedHits(hits, calls, c, g)
  {
    forall i | 0 <= i < |hits| ensures Attempted(calls, c, hits[i]) {
      assert Attempted(front, c, hits[i]);
      var k :| 0 <= k < |front| && front[k].counter == c && front[k].now == hits[i];
      assert calls[k] == front[k];
    }
  }

  lemma OneMorePacedHit(hits: seq<real>, front: seq<Call>, call: Call, g: real)
    requires PacedHits(hits, front, call.counter, g) && Paced(front + [call], call.counter, g)
    ensures PacedHits(hits + [call.now], front + [call], call.counter, g)
  {
    var calls := front + [call];
    PacedLater(hits, front, calls, call.counter, g);
    assert calls[|front|] == call && Attempted(calls, call.counter, call.now);
    if hits != [] {
      assert Attempted(front, call.counter, hits[|hits| - 1]);
      var k :| 0 <= k < |front| && front[k].counter == call.counter && front[k].now == hits[|hits| - 1];
      assert calls[k] == front[k];
    }
  }

  lemma CapKeepsHitsOrDropsThem(full: Store, now: real, c: Counter)
    ensures HitsOf(Capped(full, now), c) == HitsOf(full, c) || HitsOf(Capped(full, now), c) == []
  {
    if |full.order| > MAX_TRACKED_CLIENTS {
      EvictedSubset(Pruned(full, now), c);
    }
  }

  /** n hits g apart, and one more g later, span n times g. */
  lemma {:induction false} SpreadOut(hits: seq<real>, now: real, g: real)
    requires hits != [] && now - hits[|hits| - 1] >= g
    requires forall i :: 0 < i < |hits| ==> hits[i] - hits[i - 1] >= g
    ensures now - hits[0] >= |hits| as real * g
  {
    var n := |hits|;
    if n <= 1 {
    } else {
      SpreadOut(hits[..n - 1], hits[n - 1], g);
      assert n as real * g == (n - 1) as real * g + g;
    }
  }

  /** Hits this far apart cannot fill the window. */
  lemma PacedHitsFit(hits: seq<real>, calls: seq<Call>, call: Call, rule: Rule, g: real)
    requires g > 0.0 && rule.limit as real * g > rule.perSeconds
    requires PacedHits(hits + [call.now], calls, call.counter, g)
    requires hits != [] ==> hits[0] >= Cutoff(rule, call.now)
    ensures |hits| < rule.limit
  {
    if hits != [] {
      var all := hits + [call.now];
      assert all[|hits|] - all[|hits| - 1] >= g;
      forall i | 0 < i < |hits| ensures hits[i] - hits[i - 1] >= g {
        assert all[i] - all[i - 1] >= g;
      }
      SpreadOut(hits, call.now, g);
      FewerThanTheLimit(|hits|, rule.limit, g, call.now - hits[0], rule.perSeconds);
    }
  }

  lemma FewerThanTheLimit(n: nat, limit: nat, g: real, span: real, perSeconds: real)
    requires g > 0.0 && n as real * g <= span <= perSeconds < limit as real * g
    ensures n < limit
  {
    if n >= limit {
      MoreHitsSpanMore(limit, n, g);
    }
  }

  lemma PacedSoFar(calls: seq<Call>, call: Call, c: Counter, g: real)
    requires Paced(calls + [call], c, g)
    ensures Paced(calls, c, g)
  {
    forall i, j | 0 <= i < j < |calls| && calls[i].counter == c && calls[j].counter == c
      ensures calls[j].now - calls[i].now >= g
    {
      assert (calls + [call])[i] == calls[i] && (calls + [call])[j] == calls[j];
    }
  }

  lemma MineIsPaced(rules: Rules, calls: seq<Call>, call: Call, g: real)
    requires Paced(calls + [call], call.counter, g)
    ensures PacedHits(Mine(Run(rules, calls), rules, call) + [call.now], calls + [call], call.counter, g)
  {
    PacedSoFar(calls, call, call.counter, g);
    RunStaysPaced(rules, calls, call.counter, g);
    FreshStaysPaced(HitsOf(Run(rules, calls).store, call.counter),
      Cutoff(RuleOf(rules, call.counter), call.now), calls, call.counter, g);
    OneMorePacedHit(Mine(Run(rules, calls), rules, call), calls, call, g);
  }

  /** A client whose attempts are at least g apart is never refused when limit times g is
      longer than the window, whatever any other counter does. */
  lemma PacedClientIsNeverRefused(rules: Rules, calls: seq<Call>, call: Call, g: real)
    requires g > 0.0 && Paced(calls + [call], call.counter, g)
    requires RuleOf(rules, call.counter).limit as real * g > RuleOf(rules, call.counter).perSeconds
    ensures Answered(rules, calls, call).Admitted?
  {
    MineIsPaced(rules, calls, call, g);
    FreshStartsInside(HitsOf(Run(rules, calls).store, call.counter),
      Cutoff(RuleOf(rules, call.counter), call.now));
    PacedHitsFit(Mine(Run(rules, calls), rules, call), calls + [call], call, RuleOf(rules, call.counter), g);
    RefusedWhenFull(rules, calls, call);
  }

  lemma {:induction false} FreshStartsInside(hits: seq<real>, cutoff: real)
    ensures Fresh(hits, cutoff) != [] ==> Fresh(hits, cutoff)[0] >= cutoff
  {
    if hits != [] && hits[0] < cutoff {
      FreshStartsInside(hits[1..], cutoff);
    }
  }

  lemma MoreHitsSpanMore(limit: nat, n: nat, g: real)
    requires limit <= n && g > 0.0
    ensures limit as real * g <= n as real * g
  {
  }

  /** The door camera: one frame every 1.5 seconds against 60 in 60 seconds. */
  lemma CameraIsNeverRefused(rules: Rules, calls: seq<Call>, call: Call)
    requires RuleOf(rules, call.counter) == Rule(60, 60.0)
    requires Paced(calls + [call], call.counter, 1.5)
    ensures Answered(rules, calls, call).Admitted?
  {
    PacedClientIsNeverRefused(rules, calls, call, 1.5);
  }

  // --- the check at decoration time ---------------------------------------------------------------

  /** Forgetting a quiet counter is harmless for a window exactly when rate_limit accepts that
      window: nothing it holds can still be in force. */
  lemma PruningIsHarmlessExactlyWhenDecorated(limit: nat, perSeconds: real)
    ensures Decorate(limit, perSeconds).Some? <==>
            forall hits: seq<real>, now: real :: Sorted(hits) && Idle(hits, now) ==>
              CountHits(hits, now - perSeconds) == 0
  {
    if perSeconds <= MAX_IDLE_SECONDS {
      forall hits: seq<real>, now: real | Sorted(hits) && Idle(hits, now)
        ensures CountHits(hits, now - perSeconds) == 0
      {
        CountHitsNone(hits, now - perSeconds);
      }
    } else {
      var hits, now := [0.0], perSeconds;
      assert Sorted(hits) && Idle(hits, now);
      assert CountHits(hits, now - perSeconds) == 1;
    }
  }
}
