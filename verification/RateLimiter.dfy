/** The in-memory sliding-window rate limiter (attendance/ratelimit.py). */
module RateLimiter {
  import opened Options

  const MAX_TRACKED_CLIENTS: nat := 10_000
  const MAX_IDLE_SECONDS: real := 3600.0

  datatype Counter = Counter(bucket: string, client: string)

  /** At most `limit` attempts in any `perSeconds`. A limit of 0 would index an empty deque. */
  datatype AnyRule = Rule(limit: nat, perSeconds: real)
  type Rule = r: AnyRule | r.limit >= 1 && r.perSeconds <= MAX_IDLE_SECONDS witness Rule(1, 60.0)

  /** Which rule each route was decorated with. */
  type Rules = string -> Rule

  datatype Answer = Admitted | RetryAfter(seconds: int)

  /** The OrderedDict: keys in order, least recently touched first, and each one's deque. */
  datatype Store = Store(order: seq<Counter>, hits: map<Counter, seq<real>>)

  /** The check at decoration time; None is its ValueError. */
  function Decorate(limit: nat, perSeconds: real): Option<AnyRule> {
    if perSeconds > MAX_IDLE_SECONDS then None else Some(Rule(limit, perSeconds))
  }

  // --- the specification ----------------------------------------------------------------

  /** The start of the window that ends at `now`. */
  function Cutoff(rule: Rule, now: real): real {
    now - rule.perSeconds
  }

  /** `while hits and hits[0] < cutoff: hits.popleft()` */
  function Fresh(hits: seq<real>, cutoff: real): seq<real> {
    if hits != [] && hits[0] < cutoff then Fresh(hits[1..], cutoff) else hits
  }

  function HitsOf(s: Store, c: Counter): seq<real> {
    if c in s.hits then s.hits[c] else []
  }

  function Drop(order: seq<Counter>, gone: set<Counter>): seq<Counter> {
    if order == [] then []
    else Drop(order[..|order| - 1], gone) +
         if order[|order| - 1] in gone then [] else [order[|order| - 1]]
  }

  /** `move_to_end`, with the deque the counter has after the sweep. */
  function Touched(s: Store, c: Counter, hits: seq<real>): Store {
    Store(Drop(s.order, {c}) + [c], s.hits[c := hits])
  }

  predicate Idle(hits: seq<real>, now: real) {
    hits == [] || hits[|hits| - 1] < now - MAX_IDLE_SECONDS
  }

  function Quiet(s: Store, now: real): set<Counter> {
    set c | c in s.hits && Idle(s.hits[c], now)
  }

  function Pruned(s: Store, now: real): Store {
    Store(Drop(s.order, Quiet(s, now)), s.hits - Quiet(s, now))
  }

  function Evicted(s: Store): Store
    decreases |s.order|
  {
    if |s.order| <= MAX_TRACKED_CLIENTS then s
    else Evicted(Store(s.order[1..], s.hits - {s.order[0]}))
  }

  function Capped(s: Store, now: real): Store {
    if |s.order| <= MAX_TRACKED_CLIENTS then s else Evicted(Pruned(s, now))
  }

  /** `int(per_seconds - (now - hits[0])) + 1` */
  function Wait(rule: Rule, now: real, oldest: real): int {
    (rule.perSeconds - (now - oldest)).Floor + 1
  }

  /** The caller's deque once the sweep is over. */
  function Swept(s: Store, c: Counter, rule: Rule, now: real): seq<real> {
    Fresh(HitsOf(s, c), Cutoff(rule, now))
  }

  function AnswerTo(s: Store, c: Counter, rule: Rule, now: real): Answer {
    var hits := Swept(s, c, rule, now);
    if |hits| >= rule.limit then RetryAfter(Wait(rule, now, hits[0])) else Admitted
  }

  /** A refusal touches and sweeps the counter; an admission also records it and enforces the cap. */
  function StoreAfter(s: Store, c: Counter, rule: Rule, now: real): Store {
    var hits := Swept(s, c, rule, now);
    if |hits| >= rule.limit then Touched(s, c, hits) else Capped(Touched(s, c, hits + [now]), now)
  }

  ghost predicate WellFormed(s: Store) {
    && (forall i, j :: 0 <= i < j < |s.order| ==> s.order[i] != s.order[j])
    && (forall c :: c in s.hits <==> c in s.order)
  }

  lemma {:induction false} DropKeeps(order: seq<Counter>, gone: set<Counter>)
    ensures forall c :: c in Drop(order, gone) <==> c in order && c !in gone
    ensures |Drop(order, gone)| <= |order|
    ensures (forall i, j :: 0 <= i < j < |order| ==> order[i] != order[j]) ==>
              forall i, j :: 0 <= i < j < |Drop(order, gone)| ==> Drop(order, gone)[i] != Drop(order, gone)[j]
  {
    if order == [] {
    } else {
      DropKeeps(order[..|order| - 1], gone);
      assert forall c :: c in order <==> c in order[..|order| - 1] || c == order[|order| - 1];
    }
  }

  lemma {:induction false} DropTwice(order: seq<Counter>, first: set<Counter>, second: set<Counter>)
    ensures Drop(Drop(order, first), second) == Drop(order, first + second)
  {
    if order == [] {
    } else {
      var front, last := order[..|order| - 1], order[|order| - 1];
      DropTwice(front, first, second);
      if last !in first {
        assert Drop(order, first)[..|Drop(order, first)| - 1] == Drop(front, first);
      } else {
        assert Drop(front, first) + [] == Drop(front, first);
      }
    }
  }

  lemma {:induction false} DropNothing(order: seq<Counter>)
    ensures Drop(order, {}) == order
  {
    if order == [] {
    } else {
      DropNothing(order[..|order| - 1]);
    }
  }

  lemma MinusTwice(m: map<Counter, seq<real>>, first: set<Counter>, second: set<Counter>)
    ensures (m - first) - second == m - (first + second)
  {
  }

  lemma StepsKeepWellFormed(s: Store, c: Counter, hits: seq<real>, now: real)
    requires WellFormed(s)
    ensures WellFormed(Touched(s, c, hits)) && WellFormed(Pruned(s, now))
  {
    DropKeeps(s.order, {c});
    DropKeeps(s.order, Quiet(s, now));
  }

  lemma {:induction false} EvictedKeepsWellFormed(s: Store)
    requires WellFormed(s)
    ensures WellFormed(Evicted(s)) && |Evicted(s).order| <= MAX_TRACKED_CLIENTS
    decreases |s.order|
  {
    if |s.order| <= MAX_TRACKED_CLIENTS {
    } else {
      var rest := Store(s.order[1..], s.hits - {s.order[0]});
      assert forall k :: k in s.order <==> k == s.order[0] || k in s.order[1..];
      EvictedKeepsWellFormed(rest);
    }
  }

  // --- the code -----------------------------------------------------------------------------

  class Limiter {
    var order: seq<Counter>
    var hits: map<Counter, seq<real>>

    constructor ()
      ensures Valid() && Value() == Store([], map[])
    {
      order, hits := [], map[];
    }

    function Value(): Store
      reads this
    {
      Store(order, hits)
    }

    ghost predicate Valid()
      reads this
    {
      WellFormed(Value())
    }

    /** Popping from the left until the oldest hit is inside the window. */
    static method Sweep(hits: seq<real>, cutoff: real) returns (kept: seq<real>)
      ensures kept == Fresh(hits, cutoff)
    {
      kept := hits;
      while kept != [] && kept[0] < cutoff
        invariant Fresh(kept, cutoff) == Fresh(hits, cutoff)
      {
        kept := kept[1..];
      }
    }

    /** Moves a counter to the end, whether or not it is about to be refused. */
    method Touch(counter: Counter, kept: seq<real>)
      requires Valid()
      modifies this
      ensures Valid() && Value() == Touched(old(Value()), counter, kept)
    {
      StepsKeepWellFormed(Value(), counter, kept, 0.0);
      order := Drop(order, {counter}) + [counter];
      hits := hits[counter := kept];
    }

    /** is_rate_limited */
    method IsRateLimited(counter: Counter, rule: Rule, now: real) returns (answer: Answer)
      requires Valid()
      modifies this
      ensures Valid()
      ensures answer == AnswerTo(old(Value()), counter, rule, now)
      ensures Value() == StoreAfter(old(Value()), counter, rule, now)
    {
      var mine := Sweep(HitsOf(Value(), counter), Cutoff(rule, now));
      if |mine| >= rule.limit {
        Touch(counter, mine);
        return RetryAfter(Wait(rule, now, mine[0]));
      }
      Touch(counter, mine + [now]);
      EnforceCap(now);
      return Admitted;
    }

    method StaleKeys(now: real) returns (stale: seq<Counter>)
      requires Valid()
      ensures (set c | c in stale) == Quiet(Value(), now)
    {
      stale := [];
      for i := 0 to |order|
        invariant forall c :: c in stale <==> c in order[..i] && Idle(hits[c], now)
      {
        if Idle(hits[order[i]], now) {
          stale := stale + [order[i]];
        }
      }
      assert order[..|order|] == order;
    }

    method Forget(keys: seq<Counter>)
      modifies this
      ensures order == Drop(old(order), set c | c in keys)
      ensures hits == old(hits) - (set c | c in keys)
    {
      DropNothing(order);
      ghost var gone: set<Counter> := {};
      for i := 0 to |keys|
        invariant forall c :: c in gone <==> c in keys[..i]
        invariant order == Drop(old(order), gone)
        invariant hits == old(hits) - gone
      {
        DropTwice(old(order), gone, {keys[i]});
        MinusTwice(old(hits), gone, {keys[i]});
        order := Drop(order, {keys[i]});
        hits := hits - {keys[i]};
        gone := gone + {keys[i]};
      }
      assert gone == set c | c in keys;
    }

    /** prune: collect the quiet keys first, then delete them one by one. */
    method Prune(now: real)
      requires Valid()
      modifies this
      ensures Valid() && Value() == Pruned(old(Value()), now)
    {
      StepsKeepWellFormed(Value(), Counter("", ""), [], now);
      var stale := StaleKeys(now);
      Forget(stale);
    }

    /** enforce_cap */
    method EnforceCap(now: real)
      requires Valid()
      modifies this
      ensures Valid() && Value() == Capped(old(Value()), now)
    {
      if |order| <= MAX_TRACKED_CLIENTS {
        return;
      }
      Prune(now);
      ghost var pruned := Value();
      EvictedKeepsWellFormed(pruned);
      while |order| > MAX_TRACKED_CLIENTS
        invariant Evicted(Value()) == Evicted(pruned)
        decreases |order|
      {
        hits := hits - {order[0]};
        order := order[1..];
      }
    }
  }
}
