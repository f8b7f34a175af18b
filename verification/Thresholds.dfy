/** Pricing liveness thresholds (scripts/calibrate_liveness.py). */
module Thresholds {
  import opened Options
  import opened Calibration

  // --- what a threshold costs -----------------------------------------------------------------

  function Refused(genuine: Scores, t: real): nat {
    if genuine == [] then 0 else Refused(genuine[..|genuine| - 1], t) + if genuine[|genuine| - 1] < t then 1 else 0
  }

  function AdmittedBy(spoof: Scores, t: real): nat {
    if spoof == [] then 0 else AdmittedBy(spoof[..|spoof| - 1], t) + if spoof[|spoof| - 1] >= t then 1 else 0
  }

  /** costs: real frames refused, spoof frames let through. */
  function Costs(genuine: Scores, spoof: Scores, t: real): (nat, nat) {
    (Refused(genuine, t), AdmittedBy(spoof, t))
  }

  /** The frames of which the threshold says one thing, by their place. */
  function Below(xs: Scores, t: real): set<nat> {
    set i: nat | i < |xs| && xs[i] < t
  }

  function AtOrAbove(xs: Scores, t: real): set<nat> {
    set i: nat | i < |xs| && xs[i] >= t
  }

  lemma CostsAreCounts(genuine: Scores, spoof: Scores, t: real)
    ensures Costs(genuine, spoof, t) == (|Below(genuine, t)|, |AtOrAbove(spoof, t)|)
  {
    CountBelow(genuine, t);
    CountAtOrAbove(spoof, t);
  }

  lemma {:induction false} CountBelow(xs: Scores, t: real)
    ensures Refused(xs, t) == |Below(xs, t)|
  {
    if xs == [] {
    } else {
      var front, n := xs[..|xs| - 1], |xs| - 1;
      CountBelow(front, t);
      assert Below(xs, t) == if xs[n] < t then Below(front, t) + {n} else Below(front, t);
    }
  }

  lemma {:induction false} CountAtOrAbove(xs: Scores, t: real)
    ensures AdmittedBy(xs, t) == |AtOrAbove(xs, t)|
  {
    if xs == [] {
    } else {
      var front, n := xs[..|xs| - 1], |xs| - 1;
      CountAtOrAbove(front, t);
      assert AtOrAbove(xs, t) == if xs[n] >= t then AtOrAbove(front, t) + {n} else AtOrAbove(front, t);
    }
  }

  lemma {:induction false} RefusedRises(xs: Scores, a: real, b: real)
    requires a <= b
    ensures Refused(xs, a) <= Refused(xs, b) && AdmittedBy(xs, b) <= AdmittedBy(xs, a)
    ensures Refused(xs, a) + AdmittedBy(xs, a) == |xs|
  {
    if xs == [] {
    } else {
      RefusedRises(xs[..|xs| - 1], a, b);
    }
  }

  /** A score between two thresholds is the only thing that tells them apart. */
  lemma {:induction false} OnlyCrossingsCount(xs: Scores, a: real, b: real)
    requires a <= b
    ensures Refused(xs, a) == Refused(xs, b) <==> forall x :: x in xs ==> !(a <= x < b)
  {
    if xs == [] {
    } else {
      var front, last := xs[..|xs| - 1], xs[|xs| - 1];
      OnlyCrossingsCount(front, a, b);
      RefusedRises(front, a, b);
      assert last in xs && forall x :: x in front ==> x in xs;
      if a <= last < b {
        assert Refused(xs, a) < Refused(xs, b);
      } else {
        assert forall x :: x in xs ==> x in front || x == last;
      }
    }
  }

  /** The same decision on every frame that was measured. */
  ghost predicate SameDecision(genuine: Scores, spoof: Scores, a: real, b: real) {
    Costs(genuine, spoof, a) == Costs(genuine, spoof, b)
  }

  lemma SameDecisionMeansNothingBetween(genuine: Scores, spoof: Scores, a: real, b: real)
    requires a <= b
    ensures SameDecision(genuine, spoof, a, b) <==> forall x :: x in genuine + spoof ==> !(a <= x < b)
  {
    OnlyCrossingsCount(genuine, a, b);
    OnlyCrossingsCount(spoof, a, b);
    RefusedRises(spoof, a, b);
    RefusedRises(spoof, b, b);
    assert forall x :: x in genuine + spoof <==> x in genuine || x in spoof;
  }

  // --- candidates --------------------------------------------------------------------------------

  /** round(x, 2): to the nearest hundredth, ties to the even one. */
  function Round2(x: real): real {
    var y := x * 100.0;
    var down := y.Floor;
    var part := y - down as real;
    var whole := if part < 0.5 then down else if part > 0.5 then down + 1 else if down % 2 == 0 then down else down + 1;
    whole as real / 100.0
  }

  predicate Ascending(points: seq<real>) {
    forall i, j :: 0 <= i < j < |points| ==> points[i] < points[j]
  }

  /** A sorted list standing for the set being filled. */
  function Insert(points: seq<real>, x: real): seq<real> {
    if points == [] then [x]
    else if x < points[0] then [x] + points
    else if x == points[0] then points
    else [points[0]] + Insert(points[1..], x)
  }

  function Candidates(scores: Scores): seq<real> {
    if scores == [] then [0.0]
    else
      var last := scores[|scores| - 1];
      Insert(Insert(Candidates(scores[..|scores| - 1]), Round2(last)), Round2(last + 0.01))
  }

  lemma {:induction false} InsertAdds(points: seq<real>, x: real)
    requires Ascending(points)
    ensures Ascending(Insert(points, x))
    ensures forall p :: p in Insert(points, x) <==> p == x || p in points
  {
    if points != [] && x > points[0] {
      InsertAdds(points[1..], x);
      var rest := Insert(points[1..], x);
      assert points == [points[0]] + points[1..];
      forall j | 0 <= j < |rest| ensures points[0] < rest[j] {
        assert rest[j] in rest;
      }
    }
  }

  /** Zero, a score rounded, or a hair above one. */
  ghost predicate IsCandidate(scores: Scores, p: real) {
    p == 0.0 || exists k :: 0 <= k < |scores| && NextTo(scores[k], p)
  }

  ghost predicate NextTo(score: real, p: real) {
    p == Round2(score) || p == Round2(score + 0.01)
  }

  lemma OneMoreCandidate(scores: Scores, last: real, p: real)
    ensures IsCandidate(scores + [last], p) <==> IsCandidate(scores, p) || NextTo(last, p)
  {
    var all := scores + [last];
    if NextTo(last, p) {
      assert NextTo(all[|scores|], p);
    }
    if k :| 0 <= k < |scores| && NextTo(scores[k], p) {
      assert NextTo(all[k], p);
    }
  }

  /** The list is sorted, and is exactly those points. */
  lemma {:induction false} CandidatesAre(scores: Scores)
    ensures Ascending(Candidates(scores))
    ensures forall p :: p in Candidates(scores) <==> IsCandidate(scores, p)
  {
    if scores == [] {
    } else {
      var front, last := scores[..|scores| - 1], scores[|scores| - 1];
      CandidatesAre(front);
      InsertAdds(Candidates(front), Round2(last));
      InsertAdds(Insert(Candidates(front), Round2(last)), Round2(last + 0.01));
      assert front + [last] == scores;
      forall p ensures p in Candidates(scores) <==> IsCandidate(scores, p) {
        OneMoreCandidate(front, last, p);
      }
    }
  }

  /** candidates, as the script fills its set */
  method FindCandidates(genuine: Scores, spoof: Scores) returns (points: seq<real>)
    ensures points == Candidates(genuine + spoof)
  {
    var values := genuine + spoof;
    points := [0.0];
    for k := 0 to |values|
      invariant points == Candidates(values[..k])
    {
      assert values[..k + 1][..k] == values[..k];
      points := Insert(points, Round2(values[k]));
      points := Insert(points, Round2(values[k] + 0.01));
    }
    assert values[..|values|] == values;
  }

  lemma Round2IsClose(x: real)
    ensures x - 0.005 <= Round2(x) <= x + 0.005
  {
    var y := x * 100.0;
    var down := y.Floor;
    assert down as real <= y < down as real + 1.0;
    assert (down + 1) as real == down as real + 1.0;
    var whole := Round2(x) * 100.0;
    assert y - 0.5 <= whole <= y + 0.5;
  }

  /** It is a whole number n of hundredths, nearest to x, and the even one of two as near. */
  lemma Round2IsTheNearest(x: real) returns (n: int)
    ensures Round2(x) == n as real / 100.0
    ensures n as real - 0.5 <= x * 100.0 <= n as real + 0.5
    ensures x * 100.0 == n as real - 0.5 || x * 100.0 == n as real + 0.5 ==> n % 2 == 0
  {
    var y := x * 100.0;
    var down := y.Floor;
    var part := y - down as real;
    n := if part < 0.5 then down else if part > 0.5 then down + 1 else if down % 2 == 0 then down else down + 1;
    assert down as real <= y < down as real + 1.0;
    assert (down + 1) as real == down as real + 1.0;
  }

  // --- do the candidates cover every decision? ------------------------------------------------

  /** Some candidate decides every measured frame as t does. */
  ghost predicate Covered(genuine: Scores, spoof: Scores, t: real) {
    exists c :: c in Candidates(genuine + spoof) && SameDecision(genuine, spoof, t, c)
  }

  ghost predicate Complete(genuine: Scores, spoof: Scores) {
    forall t: real :: Covered(genuine, spoof, t)
  }

  /** Zero, or one of the scores' two roundings, is such a point. */
  predicate SomeRounding(scores: Scores, fits: real -> bool) {
    fits(0.0) || exists x :: x in scores && (fits(Round2(x)) || fits(Round2(x + 0.01)))
  }

  lemma RoundingsAreCandidates(scores: Scores, fits: real -> bool)
    ensures SomeRounding(scores, fits) <==> exists c :: c in Candidates(scores) && fits(c)
  {
    CandidatesAre(scores);
    if c :| c in Candidates(scores) && fits(c) && c != 0.0 {
      var k :| 0 <= k < |scores| && NextTo(scores[k], c);
      assert scores[k] in scores;
    }
    if fits(0.0) {
      assert IsCandidate(scores, 0.0);
    }
    if x :| x in scores && (fits(Round2(x)) || fits(Round2(x + 0.01))) {
      var k :| 0 <= k < |scores| && scores[k] == x;
      assert NextTo(scores[k], Round2(x)) && NextTo(scores[k], Round2(x + 0.01));
      assert IsCandidate(scores, Round2(x)) && IsCandidate(scores, Round2(x + 0.01));
    }
  }

  /** c is above v, with no score in between. */
  predicate HairAbove(scores: Scores, v: real, c: real) {
    v < c && forall x :: x in scores ==> x <= v || c <= x
  }

  predicate AtTheBottom(scores: Scores, c: real) {
    forall x :: x in scores ==> c <= x
  }

  predicate Parts(v: real, x: real, p: real) {
    v < p <= x
  }

  /** What can be checked of the scores and their roundings: some rounding is at or below them
      all, and any two different scores are parted by one. */
  predicate Separated(scores: Scores) {
    && SomeRounding(scores, p => AtTheBottom(scores, p))
    && forall v, x :: v in scores && x in scores && v < x ==> SomeRounding(scores, p => Parts(v, x, p))
  }

  lemma SameDecisionEitherWay(genuine: Scores, spoof: Scores, a: real, b: real)
    ensures SameDecision(genuine, spoof, a, b)
       <==> forall x :: x in genuine + spoof ==> !(a <= x < b) && !(b <= x < a)
  {
    if a <= b {
      SameDecisionMeansNothingBetween(genuine, spoof, a, b);
    } else {
      SameDecisionMeansNothingBetween(genuine, spoof, b, a);
    }
  }

  /** The next score above v, or somewhere above v when there is none. */
  lemma {:induction false} NextAbove(scores: Scores, v: real) returns (r: real)
    ensures HairAbove(scores, v, r)
    ensures r in scores || forall x :: x in scores ==> x <= v
  {
    r := v + 1.0;
    if scores == [] {
    } else {
      var front, last := scores[..|scores| - 1], scores[|scores| - 1];
      assert scores == front + [last];
      r := NextAbove(front, v);
      if v < last && (last < r || r !in front) {
        r := last;
      }
    }
  }

  lemma {:induction false} Bottom(scores: Scores) returns (r: real)
    ensures AtTheBottom(scores, r)
    ensures scores != [] ==> r in scores
  {
    r := 0.0;
    if scores == [] {
    } else {
      var front, last := scores[..|scores| - 1], scores[|scores| - 1];
      assert scores == front + [last];
      r := Bottom(front);
      if front == [] || last < r {
        r := last;
      }
    }
  }

  lemma {:induction false} Top(scores: Scores) returns (r: real)
    requires scores != []
    ensures r in scores && forall x :: x in scores ==> x <= r
  {
    var front, last := scores[..|scores| - 1], scores[|scores| - 1];
    assert scores == front + [last];
    r := last;
    if front == [] {
    } else {
      var top := Top(front);
      if top > last {
        r := top;
      }
    }
  }

  /** The highest score below t. */
  lemma {:induction false} HighestBelow(scores: Scores, t: real) returns (v: real)
    requires exists x :: x in scores && x < t
    ensures v in scores && HairAbove(scores, v, t)
  {
    var front, last := scores[..|scores| - 1], scores[|scores| - 1];
    assert scores == front + [last];
    if x :| x in front && x < t {
      v := HighestBelow(front, t);
      if v < last < t {
        v := last;
      }
    } else {
      v := last;
    }
  }

  lemma CompleteParts(genuine: Scores, spoof: Scores, v: real, x: real) returns (c: real)
    requires Covered(genuine, spoof, x) && v in genuine + spoof && x in genuine + spoof && v < x
    ensures c in Candidates(genuine + spoof) && Parts(v, x, c)
  {
    c :| c in Candidates(genuine + spoof) && SameDecision(genuine, spoof, x, c);
    SameDecisionEitherWay(genuine, spoof, x, c);
  }

  lemma CompleteReachesTheBottom(genuine: Scores, spoof: Scores, low: real) returns (c: real)
    requires Covered(genuine, spoof, low) && AtTheBottom(genuine + spoof, low)
    ensures c in Candidates(genuine + spoof) && AtTheBottom(genuine + spoof, c)
  {
    c :| c in Candidates(genuine + spoof) && SameDecision(genuine, spoof, low, c);
    SameDecisionEitherWay(genuine, spoof, low, c);
  }

  lemma CompleteMeansSeparated(genuine: Scores, spoof: Scores)
    requires Complete(genuine, spoof)
    ensures Separated(genuine + spoof)
  {
    var scores := genuine + spoof;
    var low := Bottom(scores);
    assert Covered(genuine, spoof, low);
    var c := CompleteReachesTheBottom(genuine, spoof, low);
    RoundingsAreCandidates(scores, p => AtTheBottom(scores, p));
    forall v, x | v in scores && x in scores && v < x ensures SomeRounding(scores, p => Parts(v, x, p)) {
      assert Covered(genuine, spoof, x);
      var p := CompleteParts(genuine, spoof, v, x);
      RoundingsAreCandidates(scores, p => Parts(v, x, p));
    }
  }

  /** Above the highest score there always is a candidate. */
  lemma AHairAboveTheTop(scores: Scores, top: real)
    requires top in scores && forall x :: x in scores ==> x <= top
    ensures Round2(top + 0.01) in Candidates(scores) && HairAbove(scores, top, Round2(top + 0.01))
  {
    Round2IsClose(top + 0.01);
    var k :| 0 <= k < |scores| && scores[k] == top;
    CandidatesAre(scores);
    assert NextTo(scores[k], Round2(top + 0.01));
  }

  /** Just above any score of a separated list there is a candidate. */
  lemma SeparatedHasHairs(scores: Scores, v: real) returns (c: real)
    requires Separated(scores) && v in scores
    ensures c in Candidates(scores) && HairAbove(scores, v, c)
  {
    var next := NextAbove(scores, v);
    if next in scores {
      assert SomeRounding(scores, p => Parts(v, next, p));
      RoundingsAreCandidates(scores, p => Parts(v, next, p));
      c :| c in Candidates(scores) && Parts(v, next, c);
    } else {
      forall x | x in scores ensures x <= v {
        assert x != next;
      }
      AHairAboveTheTop(scores, v);
      c := Round2(v + 0.01);
    }
  }

  lemma SeparatedDecides(genuine: Scores, spoof: Scores, t: real)
    requires Separated(genuine + spoof)
    ensures Covered(genuine, spoof, t)
  {
    var scores := genuine + spoof;
    if x :| x in scores && x < t {
      var v := HighestBelow(scores, t);
      var c := SeparatedHasHairs(scores, v);
      SameDecisionEitherWay(genuine, spoof, t, c);
      assert SameDecision(genuine, spoof, t, c);
    } else {
      RoundingsAreCandidates(scores, p => AtTheBottom(scores, p));
      var c :| c in Candidates(scores) && AtTheBottom(scores, c);
      SameDecisionEitherWay(genuine, spoof, t, c);
      assert SameDecision(genuine, spoof, t, c);
    }
  }

  /** The candidates cover every decision exactly when the rounding leaves the scores apart. */
  lemma CandidatesAreCompleteExactlyWhenSeparated(genuine: Scores, spoof: Scores)
    ensures Complete(genuine, spoof) <==> Separated(genuine + spoof)
  {
    if Complete(genuine, spoof) {
      CompleteMeansSeparated(genuine, spoof);
    }
    if Separated(genuine + spoof) {
      forall t: real ensures Covered(genuine, spoof, t) {
        SeparatedDecides(genuine, spoof, t);
      }
    }
  }

  /** A whole number of hundredths. */
  predicate OnGrid(x: real) {
    x * 100.0 == (x * 100.0).Floor as real
  }

  lemma Round2KeepsTheGrid(x: real)
    requires OnGrid(x)
    ensures Round2(x) == x && Round2(x + 0.01) == x + 0.01
  {
    var whole := (x * 100.0).Floor;
    assert (x + 0.01) * 100.0 == (whole + 1) as real;
    assert ((whole + 1) as real).Floor == whole + 1;
  }

  lemma GridIsSeparated(scores: Scores)
    requires forall x :: x in scores ==> OnGrid(x)
    ensures Separated(scores)
  {
    var low := Bottom(scores);
    if scores == [] {
      assert AtTheBottom(scores, 0.0);
    } else {
      Round2KeepsTheGrid(low);
      assert low in scores && AtTheBottom(scores, Round2(low));
    }
    forall v, x | v in scores && x in scores && v < x ensures SomeRounding(scores, p => Parts(v, x, p)) {
      Round2KeepsTheGrid(x);
      assert Parts(v, x, Round2(x));
    }
  }

  /** Scores given to the hundredth are priced completely. */
  lemma GridIsComplete(genuine: Scores, spoof: Scores)
    requires forall x :: x in genuine + spoof ==> OnGrid(x)
    ensures Complete(genuine, spoof)
  {
    GridIsSeparated(genuine + spoof);
    CandidatesAreCompleteExactlyWhenSeparated(genuine, spoof);
  }

  /** Scores are stored unrounded, so the candidates need not be "the entire space of distinct
      decisions": nothing on offer refuses one of these two frames and keeps the other. */
  lemma CrowdedScoresHideADecision()
    ensures var genuine := [0.001, 0.004];
            && !Complete(genuine, [])
            && Costs(genuine, [], 0.002) == (1, 0)
            && forall c :: c in Candidates(genuine + []) ==> Refused(genuine, c) != 1
  {
    var genuine: Scores := [0.001, 0.004];
    assert genuine + [] == genuine;
    CandidatesAre(genuine);
    assert genuine[..1] == [0.001] && genuine[..1][..0] == [];
    assert Refused([0.001], 0.01) == 1 && Refused([0.001], 0.0) == 0 && Refused([0.001], 0.002) == 1;
    forall c | c in Candidates(genuine) ensures Refused(genuine, c) != 1 {
      AllNearTheFirstHundredth(genuine, c);
    }
    assert !Covered(genuine, [], 0.002);
  }

  // --- the lowest threshold that blocks every spoof frame ----------------------------------------

  /** The least of the points that qualifies; the points come in ascending order. */
  function First(points: seq<real>, qualifies: real -> bool): Option<real> {
    if points == [] then None
    else if qualifies(points[0]) then Some(points[0])
    else First(points[1..], qualifies)
  }

  lemma {:induction false} FirstIsLeast(points: seq<real>, qualifies: real -> bool)
    requires Ascending(points)
    ensures match First(points, qualifies)
            case None => forall p :: p in points ==> !qualifies(p)
            case Some(m) => m in points && qualifies(m) && forall p :: p in points && qualifies(p) ==> m <= p
  {
    if points == [] {
    } else {
      assert points == [points[0]] + points[1..];
      FirstIsLeast(points[1..], qualifies);
    }
  }

  /** safest_threshold */
  function Safest(genuine: Scores, spoof: Scores): Option<real> {
    First(Candidates(genuine + spoof), t => AdmittedBy(spoof, t) == 0)
  }

  /** recommend */
  function Recommend(genuine: Scores, spoof: Scores, limit: real): Option<real> {
    match Safest(genuine, spoof)
    case None => None
    case Some(safe) =>
      if genuine == [] || Share(genuine, safe) >= limit then None else Some(safe)
  }

  /** The share of the real frames a threshold refuses. */
  function Share(genuine: Scores, t: real): real
    requires genuine != []
  {
    Refused(genuine, t) as real / |genuine| as real
  }

  lemma {:induction false} NoneAdmitted(spoof: Scores, t: real)
    ensures AdmittedBy(spoof, t) == 0 <==> forall x :: x in spoof ==> x < t
  {
    if spoof == [] {
    } else {
      var front, last := spoof[..|spoof| - 1], spoof[|spoof| - 1];
      assert spoof == front + [last];
      NoneAdmitted(front, t);
      assert last in spoof && forall x :: x in front ==> x in spoof;
      assert forall x :: x in spoof ==> x in front || x == last;
    }
  }

  lemma SafestIsLeast(genuine: Scores, spoof: Scores)
    ensures match Safest(genuine, spoof)
            case None => forall c :: c in Candidates(genuine + spoof) ==> AdmittedBy(spoof, c) != 0
            case Some(safe) =>
              && safe in Candidates(genuine + spoof) && AdmittedBy(spoof, safe) == 0
              && forall c :: c in Candidates(genuine + spoof) && AdmittedBy(spoof, c) == 0 ==> safe <= c
  {
    CandidatesAre(genuine + spoof);
    FirstIsLeast(Candidates(genuine + spoof), t => AdmittedBy(spoof, t) == 0);
  }

  /** A hair above the highest spoof is a candidate, and blocks them all. */
  lemma AHairAboveBlocks(genuine: Scores, spoof: Scores) returns (c: real)
    ensures c in Candidates(genuine + spoof) && AdmittedBy(spoof, c) == 0
    ensures spoof != [] ==> exists x :: x in spoof && c <= x + 0.015
  {
    CandidatesAre(genuine + spoof);
    if spoof == [] {
      c := 0.0;
      assert IsCandidate(genuine + spoof, c);
    } else {
      var top := Top(spoof);
      c := Round2(top + 0.01);
      Round2IsClose(top + 0.01);
      var k :| 0 <= k < |spoof| && spoof[k] == top;
      assert (genuine + spoof)[|genuine| + k] == top && NextTo((genuine + spoof)[|genuine| + k], c);
      NoneAdmitted(spoof, c);
    }
  }

  /** So there always is a safest threshold, with or without spoofs: above every spoof frame,
      by at most 0.015. */
  lemma SafestIsAHairAboveTheSpoofs(genuine: Scores, spoof: Scores)
    ensures var safe := Safest(genuine, spoof);
            && safe.Some?
            && (forall x :: x in spoof ==> x < safe.value)
            && (spoof != [] ==> exists x :: x in spoof && safe.value <= x + 0.015)
  {
    SafestIsLeast(genuine, spoof);
    var c := AHairAboveBlocks(genuine, spoof);
    NoneAdmitted(spoof, Safest(genuine, spoof).value);
  }

  /** No blocking threshold at all, candidate or not, refuses fewer real frames. */
  ghost predicate RefusesLeast(genuine: Scores, spoof: Scores, safe: real) {
    forall t: real :: AdmittedBy(spoof, t) == 0 ==> Refused(genuine, safe) <= Refused(genuine, t)
  }

  predicate AboveAll(spoof: Scores, x: real) {
    forall s :: s in spoof ==> s < x
  }

  /** Some rounding is above every spoof and not above x. */
  predicate Reachable(genuine: Scores, spoof: Scores, x: real) {
    SomeRounding(genuine + spoof, p => AboveAll(spoof, p) && p <= x)
  }

  /** What can be checked of the scores and their roundings: every real score above all the
      spoofs has a rounding between them and it. */
  predicate NoRoom(genuine: Scores, spoof: Scores) {
    forall x :: x in genuine && AboveAll(spoof, x) ==> Reachable(genuine, spoof, x)
  }

  /** Those are the scores the safest threshold lets through. */
  lemma ReachableIsAdmitted(genuine: Scores, spoof: Scores, safe: real, x: real)
    requires Safest(genuine, spoof) == Some(safe)
    ensures Reachable(genuine, spoof, x) <==> safe <= x
  {
    SafestIsLeast(genuine, spoof);
    RoundingsAreCandidates(genuine + spoof, p => AboveAll(spoof, p) && p <= x);
    NoneAdmitted(spoof, safe);
    if c :| c in Candidates(genuine + spoof) && AboveAll(spoof, c) && c <= x {
      NoneAdmitted(spoof, c);
    }
  }

  lemma NoRoomMakesItLeast(genuine: Scores, spoof: Scores, safe: real)
    requires Safest(genuine, spoof) == Some(safe) && NoRoom(genuine, spoof)
    ensures RefusesLeast(genuine, spoof, safe)
  {
    forall t: real | AdmittedBy(spoof, t) == 0 ensures Refused(genuine, safe) <= Refused(genuine, t) {
      NoneAdmitted(spoof, t);
      if t < safe {
        forall x | x in genuine ensures !(t <= x < safe) {
          ReachableIsAdmitted(genuine, spoof, safe, x);
        }
        OnlyCrossingsCount(genuine, t, safe);
      } else {
        RefusedRises(genuine, safe, t);
      }
    }
  }

  /** The safest candidate is the best threshold there is, exactly when no real score falls
      into the rounding gap above the spoofs. */
  lemma SafestIsBestExactlyWhenNoRoom(genuine: Scores, spoof: Scores, safe: real)
    requires Safest(genuine, spoof) == Some(safe)
    ensures RefusesLeast(genuine, spoof, safe) <==> NoRoom(genuine, spoof)
  {
    if RefusesLeast(genuine, spoof, safe) {
      forall x | x in genuine && AboveAll(spoof, x) ensures Reachable(genuine, spoof, x) {
        NoneAdmitted(spoof, x);
        ReachableIsAdmitted(genuine, spoof, safe, x);
        if x < safe {
          OnlyCrossingsCount(genuine, x, safe);
          RefusedRises(genuine, x, safe);
        }
      }
    }
    if NoRoom(genuine, spoof) {
      NoRoomMakesItLeast(genuine, spoof, safe);
    }
  }

  /** When the candidates are complete, as they are for scores to the hundredth, the safest
      attains the least refusal count of any threshold that blocks. */
  lemma CompleteMakesSafestBest(genuine: Scores, spoof: Scores, safe: real)
    requires Safest(genuine, spoof) == Some(safe) && Complete(genuine, spoof)
    ensures RefusesLeast(genuine, spoof, safe)
  {
    SafestIsLeast(genuine, spoof);
    forall t: real | AdmittedBy(spoof, t) == 0 ensures Refused(genuine, safe) <= Refused(genuine, t) {
      assert Covered(genuine, spoof, t);
      var c :| c in Candidates(genuine + spoof) && SameDecision(genuine, spoof, t, c);
      RefusedRises(genuine, safe, c);
    }
  }

  /** What is recommended blocks every spoof frame and refuses less than the limit, always; and it
      is the lowest candidate that blocks them. */
  lemma RecommendationIsSound(genuine: Scores, spoof: Scores, limit: real)
    ensures match Recommend(genuine, spoof, limit)
            case None => true
            case Some(t) =>
              && genuine != [] && Costs(genuine, spoof, t).1 == 0 && Share(genuine, t) < limit
              && t in Candidates(genuine + spoof)
              && forall c :: c in Candidates(genuine + spoof) && AdmittedBy(spoof, c) == 0 ==> t <= c
  {
    SafestIsLeast(genuine, spoof);
  }

  // --- is the refusal to recommend right? --------------------------------------------------------

  /** Real frames no higher than some spoof: any threshold that blocks the spoofs refuses them. */
  function Lost(xs: Scores, spoof: Scores): nat {
    if xs == [] then 0 else Lost(xs[..|xs| - 1], spoof) + if AboveAll(spoof, xs[|xs| - 1]) then 0 else 1
  }

  /** Real frames no rounding reaches: the safest threshold refuses these. */
  function Caught(xs: Scores, genuine: Scores, spoof: Scores): nat {
    if xs == [] then 0
    else Caught(xs[..|xs| - 1], genuine, spoof) + if Reachable(genuine, spoof, xs[|xs| - 1]) then 0 else 1
  }

  lemma {:induction false} CaughtIsRefused(xs: Scores, genuine: Scores, spoof: Scores, safe: real)
    requires Safest(genuine, spoof) == Some(safe)
    ensures Refused(xs, safe) == Caught(xs, genuine, spoof)
  {
    if xs == [] {
    } else {
      CaughtIsRefused(xs[..|xs| - 1], genuine, spoof, safe);
      ReachableIsAdmitted(genuine, spoof, safe, xs[|xs| - 1]);
    }
  }

  lemma {:induction false} LostIsAlwaysRefused(xs: Scores, spoof: Scores, t: real)
    requires AboveAll(spoof, t)
    ensures Lost(xs, spoof) <= Refused(xs, t)
  {
    if xs == [] {
    } else {
      LostIsAlwaysRefused(xs[..|xs| - 1], spoof, t);
    }
  }

  lemma {:induction false} OnlyLostIsRefused(xs: Scores, spoof: Scores, t: real)
    requires forall x :: x in xs && x < t ==> !AboveAll(spoof, x)
    ensures Refused(xs, t) <= Lost(xs, spoof)
  {
    if xs == [] {
    } else {
      assert xs[|xs| - 1] in xs && forall x :: x in xs[..|xs| - 1] ==> x in xs;
      OnlyLostIsRefused(xs[..|xs| - 1], spoof, t);
    }
  }

  /** Some threshold blocks every spoof and refuses no more than it must. */
  lemma LostCanBeAll(genuine: Scores, spoof: Scores) returns (t: real)
    ensures AdmittedBy(spoof, t) == 0 && Refused(genuine, t) == Lost(genuine, spoof)
  {
    if spoof == [] {
      t := Bottom(genuine);
    } else {
      var top := Top(spoof);
      t := NextAbove(genuine, top);
    }
    NoneAdmitted(spoof, t);
    LostIsAlwaysRefused(genuine, spoof, t);
    OnlyLostIsRefused(genuine, spoof, t);
  }

  function ShareOf(count: nat, genuine: Scores): real
    requires genuine != []
  {
    count as real / |genuine| as real
  }

  /** A threshold that blocks every spoof and refuses less than the limit's share. */
  ghost predicate Usable(genuine: Scores, spoof: Scores, limit: real, t: real)
    requires genuine != []
  {
    AdmittedBy(spoof, t) == 0 && Share(genuine, t) < limit
  }

  lemma ShareOfRises(a: nat, b: nat, genuine: Scores)
    requires genuine != [] && a <= b
    ensures ShareOf(a, genuine) <= ShareOf(b, genuine)
  {
    QuotientsFall(b as real, |genuine| as real, a as real, |genuine| as real);
  }

  /** There is a usable threshold, candidate or not, exactly when fewer real frames than the
      limit's share are no higher than some spoof. */
  lemma UsableExactlyWhen(genuine: Scores, spoof: Scores, limit: real)
    requires genuine != []
    ensures (exists t :: Usable(genuine, spoof, limit, t)) <==> ShareOf(Lost(genuine, spoof), genuine) < limit
  {
    var best := LostCanBeAll(genuine, spoof);
    assert Share(genuine, best) == ShareOf(Lost(genuine, spoof), genuine);
    if t :| Usable(genuine, spoof, limit, t) {
      NoneAdmitted(spoof, t);
      LostIsAlwaysRefused(genuine, spoof, t);
      ShareOfRises(Lost(genuine, spoof), Refused(genuine, t), genuine);
    }
    if ShareOf(Lost(genuine, spoof), genuine) < limit {
      assert Usable(genuine, spoof, limit, best);
    }
  }

  /** Something is recommended exactly when the frames no rounding reaches are fewer than the
      limit's share. */
  lemma RecommendsExactlyWhen(genuine: Scores, spoof: Scores, limit: real)
    ensures Recommend(genuine, spoof, limit).Some?
       <==> genuine != [] && ShareOf(Caught(genuine, genuine, spoof), genuine) < limit
  {
    SafestIsAHairAboveTheSpoofs(genuine, spoof);
    CaughtIsRefused(genuine, genuine, spoof, Safest(genuine, spoof).value);
  }

  /** recommend says no exactly when it should: there are no real frames, or no threshold at all
      is usable. */
  ghost predicate RightToRefuse(genuine: Scores, spoof: Scores, limit: real) {
    Recommend(genuine, spoof, limit) == None
    <==> genuine == [] || forall t :: !Usable(genuine, spoof, limit, t)
  }

  /** For every input: it does so exactly when the limit does not fall between the share that must
      be refused and the share the rounding makes it refuse. */
  lemma NothingIsRecommendedExactlyWhen(genuine: Scores, spoof: Scores, limit: real)
    ensures RightToRefuse(genuine, spoof, limit)
       <==> genuine == [] || !(ShareOf(Lost(genuine, spoof), genuine) < limit
                               <= ShareOf(Caught(genuine, genuine, spoof), genuine))
  {
    RecommendsExactlyWhen(genuine, spoof, limit);
    if genuine != [] {
      UsableExactlyWhen(genuine, spoof, limit);
      SafestIsAHairAboveTheSpoofs(genuine, spoof);
      var safe := Safest(genuine, spoof).value;
      CaughtIsRefused(genuine, genuine, spoof, safe);
      LostIsAlwaysRefused(genuine, spoof, safe);
      ShareOfRises(Lost(genuine, spoof), Caught(genuine, genuine, spoof), genuine);
    }
  }

  /** In particular with no real score in the gap, whatever the limit. */
  lemma NoRoomIsRightToRefuse(genuine: Scores, spoof: Scores, limit: real)
    requires NoRoom(genuine, spoof)
    ensures RightToRefuse(genuine, spoof, limit)
  {
    SafestIsAHairAboveTheSpoofs(genuine, spoof);
    var safe := Safest(genuine, spoof).value;
    NoRoomMakesItLeast(genuine, spoof, safe);
    var best := LostCanBeAll(genuine, spoof);
    CaughtIsRefused(genuine, genuine, spoof, safe);
    if genuine != [] {
      ShareOfRises(Caught(genuine, genuine, spoof), Lost(genuine, spoof), genuine);
    }
    NothingIsRecommendedExactlyWhen(genuine, spoof, limit);
  }

  /** For scores to the hundredth the choice is the best of all thresholds, and the refusal to
      recommend one is right. */
  lemma OnTheGridTheChoiceIsBest(genuine: Scores, spoof: Scores, limit: real)
    requires forall x :: x in genuine + spoof ==> OnGrid(x)
    ensures Safest(genuine, spoof).Some? && RefusesLeast(genuine, spoof, Safest(genuine, spoof).value)
    ensures RightToRefuse(genuine, spoof, limit)
  {
    SafestIsAHairAboveTheSpoofs(genuine, spoof);
    var safe := Safest(genuine, spoof).value;
    GridIsComplete(genuine, spoof);
    CompleteMakesSafestBest(genuine, spoof, safe);
    SafestIsBestExactlyWhenNoRoom(genuine, spoof, safe);
    NoRoomIsRightToRefuse(genuine, spoof, limit);
  }

  /** With a real frame in the gap, a usable threshold can go unrecommended. */
  lemma AGapCanHideAUsableThreshold()
    ensures var genuine, spoof: Scores := [0.004], [0.001];
            && Recommend(genuine, spoof, 0.25) == None
            && AdmittedBy(spoof, 0.002) == 0 && Share(genuine, 0.002) == 0.0
  {
    var genuine, spoof: Scores := [0.004], [0.001];
    SafestIsAHairAboveTheSpoofs(genuine, spoof);
    SafestIsLeast(genuine, spoof);
    CandidatesAre(genuine + spoof);
    var safe := Safest(genuine, spoof).value;
    AllNearTheFirstHundredth(genuine + spoof, safe);
    assert spoof[0] < safe;
    assert Refused(genuine, safe) == 1 && Refused(genuine, 0.002) == 0;
  }

  lemma AllNearTheFirstHundredth(scores: Scores, c: real)
    requires IsCandidate(scores, c) && forall x :: x in scores ==> 0.0 <= x < 0.005
    ensures c == 0.0 || c == 0.01
  {
    if k :| 0 <= k < |scores| && NextTo(scores[k], c) {
      assert scores[k] in scores;
      assert (scores[k] * 100.0).Floor == 0 && ((scores[k] + 0.01) * 100.0).Floor == 1;
    }
  }
}
