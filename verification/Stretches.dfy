/** Asking for several frames in a row (scripts/calibrate_liveness.py). */
module Stretches {
  import opened Options
  import opened Calibration
  import opened Thresholds

  /** MAX_CONSECUTIVE */
  const MOST_FRAMES := 5

  predicate AllPass(scores: Scores, t: real) {
    forall x :: x in scores ==> x >= t
  }

  /** For each n-frame stretch of a run, in order, whether every frame passes. */
  function RunWindows(run: Scores, t: real, n: nat): seq<bool> {
    if |run| < n then []
    else seq(|run| - n + 1, i requires 0 <= i <= |run| - n => AllPass(run[i..i + n], t))
  }

  function Windows(runs: seq<Scores>, t: real, n: nat): seq<bool> {
    if runs == [] then [] else Windows(runs[..|runs| - 1], t, n) + RunWindows(runs[|runs| - 1], t, n)
  }

  function Trues(marks: seq<bool>): (k: nat)
    ensures k <= |marks|
  {
    if marks == [] then 0 else Trues(marks[..|marks| - 1]) + if marks[|marks| - 1] then 1 else 0
  }

  function Percentage(marks: seq<bool>): real {
    if marks == [] then 0.0 else PercentOf(Trues(marks), |marks|)
  }

  function PercentOf(part: nat, whole: nat): real
    requires whole > 0
  {
    100.0 * part as real / whole as real
  }

  lemma OneMoreRun(runs: seq<Scores>, k: nat, t: real, n: nat)
    requires k < |runs|
    ensures Windows(runs[..k + 1], t, n) == Windows(runs[..k], t, n) + RunWindows(runs[k], t, n)
  {
    assert runs[..k + 1][..k] == runs[..k];
  }

  lemma WindowAt(run: Scores, t: real, n: nat, i: nat)
    requires n <= |run| && i <= |run| - n
    ensures RunWindows(run, t, n)[..i + 1] == RunWindows(run, t, n)[..i] + [AllPass(run[i..i + n], t)]
  {
    assert RunWindows(run, t, n)[i] == AllPass(run[i..i + n], t);
  }

  /** stretches_all_passing */
  method StretchesAllPassing(runs: seq<Scores>, t: real, n: nat) returns (share: real)
    ensures share == Percentage(Windows(runs, t, n))
  {
    var windows: seq<bool> := [];
    for k := 0 to |runs|
      invariant windows == Windows(runs[..k], t, n)
    {
      var run := runs[k];
      ghost var before, marks := windows, RunWindows(run, t, n);
      OneMoreRun(runs, k, t, n);
      for i := 0 to if |run| < n then 0 else |run| - n + 1
        invariant windows == before + marks[..i]
      {
        WindowAt(run, t, n, i);
        windows := windows + [AllPass(run[i..i + n], t)];
      }
      assert marks[..|marks|] == marks;
    }
    assert runs[..|runs|] == runs;
    share := Percentage(windows);
  }

  /** Some n frames in a row, within one run, all reach the threshold. */
  ghost predicate SomeStretchPasses(runs: seq<Scores>, t: real, n: nat) {
    exists k, i :: Passes(runs, t, n, k, i)
  }

  ghost predicate Passes(runs: seq<Scores>, t: real, n: nat, k: int, i: int) {
    0 <= k < |runs| && 0 <= i <= |runs[k]| - n && forall j :: i <= j < i + n ==> runs[k][j] >= t
  }

  lemma {:induction false} TruesFindOne(marks: seq<bool>)
    ensures Trues(marks) == 0 <==> true !in marks
  {
    if marks == [] {
    } else {
      var front, last := marks[..|marks| - 1], marks[|marks| - 1];
      assert marks == front + [last];
      TruesFindOne(front);
    }
  }

  lemma AllPassMeans(run: Scores, t: real, n: nat, i: nat)
    requires i + n <= |run|
    ensures AllPass(run[i..i + n], t) <==> forall j :: i <= j < i + n ==> run[j] >= t
  {
    forall j | i <= j < i + n ensures run[j] in run[i..i + n] {
      assert run[i..i + n][j - i] == run[j];
    }
  }

  /** A run, or several, taken one at a time from the end. */
  lemma LastRunPasses(runs: seq<Scores>, t: real, n: nat)
    requires runs != []
    ensures SomeStretchPasses(runs, t, n)
       <==> SomeStretchPasses(runs[..|runs| - 1], t, n) || true in RunWindows(runs[|runs| - 1], t, n)
  {
    var front, last := runs[..|runs| - 1], runs[|runs| - 1];
    if SomeStretchPasses(front, t, n) {
      var k, i :| Passes(front, t, n, k, i);
      assert Passes(runs, t, n, k, i);
    }
    if true in RunWindows(last, t, n) {
      var i :| 0 <= i < |RunWindows(last, t, n)| && RunWindows(last, t, n)[i];
      AllPassMeans(last, t, n, i);
      assert Passes(runs, t, n, |runs| - 1, i);
    }
    if SomeStretchPasses(runs, t, n) {
      var k, i :| Passes(runs, t, n, k, i);
      if k == |runs| - 1 {
        AllPassMeans(last, t, n, i);
        assert RunWindows(last, t, n)[i];
      } else {
        assert Passes(front, t, n, k, i);
      }
    }
  }

  lemma {:induction false} WindowsFindStretches(runs: seq<Scores>, t: real, n: nat)
    ensures true in Windows(runs, t, n) <==> SomeStretchPasses(runs, t, n)
  {
    if runs == [] {
    } else {
      WindowsFindStretches(runs[..|runs| - 1], t, n);
      LastRunPasses(runs, t, n);
    }
  }

  /** The printed percentage is zero exactly when no stretch gets through. */
  lemma ZeroMeansNoStretch(runs: seq<Scores>, t: real, n: nat)
    ensures Percentage(Windows(runs, t, n)) == 0.0 <==> !SomeStretchPasses(runs, t, n)
  {
    var marks := Windows(runs, t, n);
    WindowsFindStretches(runs, t, n);
    TruesFindOne(marks);
    PercentageIsZero(marks);
  }

  lemma PercentageIsZero(marks: seq<bool>)
    ensures Percentage(marks) == 0.0 <==> Trues(marks) == 0
  {
    if marks != [] {
      QuotientIsZero(100.0 * Trues(marks) as real, |marks| as real);
    }
  }

  lemma QuotientIsZero(a: real, b: real)
    requires b > 0.0
    ensures a / b == 0.0 <==> a == 0.0
  {
    assert a / b * b == a;
  }

  /** A longer stretch contains a shorter one, and a lower threshold is easier to reach. */
  lemma LongerAndStricterPassLess(runs: seq<Scores>, low: real, high: real, n: nat, m: nat)
    requires low <= high && n <= m && SomeStretchPasses(runs, high, m)
    ensures SomeStretchPasses(runs, low, n)
  {
    var k, i :| Passes(runs, high, m, k, i);
    assert Passes(runs, low, n, k, i);
  }

  // --- what the percentage is of --------------------------------------------------------------

  /** All the n-frame stretches there are, run by run. */
  function StretchesOf(runs: seq<Scores>, n: nat): seq<Scores> {
    if runs == [] then [] else StretchesOf(runs[..|runs| - 1], n) + StretchesOfRun(runs[|runs| - 1], n)
  }

  function StretchesOfRun(run: Scores, n: nat): seq<Scores> {
    if |run| < n then [] else seq(|run| - n + 1, i requires 0 <= i <= |run| - n => run[i..i + n])
  }

  /** Where stretch s is: at frame i of run k. */
  predicate IsAt(runs: seq<Scores>, n: nat, s: Scores, k: int, i: int) {
    0 <= k < |runs| && 0 <= i <= |runs[k]| - n && s == runs[k][i..i + n]
  }

  /** A stretch is n frames in a row of one run. */
  lemma {:induction false} StretchesAre(runs: seq<Scores>, n: nat, s: Scores)
    ensures s in StretchesOf(runs, n) <==> exists k, i :: IsAt(runs, n, s, k, i)
  {
    if runs == [] {
    } else {
      var front, last := runs[..|runs| - 1], runs[|runs| - 1];
      StretchesAre(front, n, s);
      StretchesOfRunAre(last, n, s);
      if k, i :| IsAt(front, n, s, k, i) {
        assert IsAt(runs, n, s, k, i);
      }
      if i :| StretchAt(last, n, s, i) {
        assert IsAt(runs, n, s, |runs| - 1, i);
      }
      if k, i :| IsAt(runs, n, s, k, i) {
        if k == |runs| - 1 {
          assert StretchAt(last, n, s, i);
        } else {
          assert IsAt(front, n, s, k, i);
        }
      }
    }
  }

  predicate StretchAt(run: Scores, n: nat, s: Scores, i: int) {
    0 <= i <= |run| - n && s == run[i..i + n]
  }

  lemma StretchesOfRunAre(run: Scores, n: nat, s: Scores)
    ensures s in StretchesOfRun(run, n) <==> exists i :: StretchAt(run, n, s, i)
  {
    if i :| StretchAt(run, n, s, i) {
      assert StretchesOfRun(run, n)[i] == s;
    }
    if s in StretchesOfRun(run, n) {
      var i :| 0 <= i < |StretchesOfRun(run, n)| && StretchesOfRun(run, n)[i] == s;
      assert StretchAt(run, n, s, i);
    }
  }

  /** Each stretch is judged once, in order, by all its frames. */
  lemma EveryStretchIsJudged(runs: seq<Scores>, t: real, n: nat)
    ensures |Windows(runs, t, n)| == |StretchesOf(runs, n)|
    ensures forall j :: 0 <= j < |StretchesOf(runs, n)| ==>
              (Windows(runs, t, n)[j] <==> forall x :: x in StretchesOf(runs, n)[j] ==> x >= t)
  {
    OneMarkEach(runs, t, n);
  }

  lemma {:induction false} OneMarkEach(runs: seq<Scores>, t: real, n: nat)
    ensures |Windows(runs, t, n)| == |StretchesOf(runs, n)|
    ensures forall j :: 0 <= j < |StretchesOf(runs, n)| ==>
              Windows(runs, t, n)[j] == AllPass(StretchesOf(runs, n)[j], t)
  {
    if runs == [] {
    } else {
      OneMarkEach(runs[..|runs| - 1], t, n);
    }
  }

  /** The passing ones, counted by where they are. */
  function Passed(marks: seq<bool>): set<nat> {
    set j: nat | j < |marks| && marks[j]
  }

  lemma {:induction false} TruesAreCounted(marks: seq<bool>)
    ensures Trues(marks) == |Passed(marks)|
  {
    if marks == [] {
    } else {
      var front, n := marks[..|marks| - 1], |marks| - 1;
      TruesAreCounted(front);
      assert Passed(marks) == if marks[n] then Passed(front) + {n} else Passed(front);
    }
  }

  /** So many percent of a number are so many. */
  predicate IsPercent(share: real, part: nat, whole: nat) {
    share * whole as real == 100.0 * part as real
  }

  lemma PercentTimes(part: nat, whole: nat)
    requires whole > 0
    ensures IsPercent(PercentOf(part, whole), part, whole)
  {
    QuotientTimes(100.0 * part as real, whole as real);
  }

  lemma QuotientTimes(a: real, b: real)
    requires b > 0.0
    ensures a / b * b == a
  {
  }

  /** The share printed, times the number of stretches, is a hundred times those that pass. */
  lemma ShareTimesStretches(runs: seq<Scores>, t: real, n: nat)
    ensures var share, passing := Percentage(Windows(runs, t, n)), |Passed(Windows(runs, t, n))|;
            && IsPercent(share, passing, |StretchesOf(runs, n)|)
            && (StretchesOf(runs, n) == [] ==> share == 0.0)
  {
    var marks := Windows(runs, t, n);
    EveryStretchIsJudged(runs, t, n);
    TruesAreCounted(marks);
    if marks == [] {
      assert Passed(marks) == {};
    } else {
      PercentTimes(Trues(marks), |marks|);
    }
  }

  // --- the threshold chosen for each N -----------------------------------------------------------

  predicate Blocks(spoofRuns: seq<Scores>, t: real, n: nat) {
    Percentage(Windows(spoofRuns, t, n)) == 0.0
  }

  /** The lowest candidate that lets no n-frame spoof stretch through. */
  function Chosen(points: seq<real>, spoofRuns: seq<Scores>, n: nat): Option<real> {
    First(points, t => Blocks(spoofRuns, t, n))
  }

  lemma BlocksMore(spoofRuns: seq<Scores>, low: real, high: real, n: nat, m: nat)
    requires low <= high && n <= m && Blocks(spoofRuns, low, n)
    ensures Blocks(spoofRuns, high, m)
  {
    ZeroMeansNoStretch(spoofRuns, low, n);
    ZeroMeansNoStretch(spoofRuns, high, m);
    if SomeStretchPasses(spoofRuns, high, m) {
      LongerAndStricterPassLess(spoofRuns, low, high, n, m);
    }
  }

  /** Asking for more frames never raises the threshold that has to be chosen. */
  lemma MoreFramesNeverRaiseTheThreshold(points: seq<real>, spoofRuns: seq<Scores>, n: nat, m: nat)
    requires Ascending(points) && n <= m && Chosen(points, spoofRuns, n).Some?
    ensures Chosen(points, spoofRuns, m).Some?
    ensures Chosen(points, spoofRuns, m).value <= Chosen(points, spoofRuns, n).value
  {
    FirstIsLeast(points, t => Blocks(spoofRuns, t, n));
    FirstIsLeast(points, t => Blocks(spoofRuns, t, m));
    var t := Chosen(points, spoofRuns, n).value;
    BlocksMore(spoofRuns, t, t, n, m);
  }

  predicate InSome(runs: seq<Scores>, x: real) {
    exists k :: 0 <= k < |runs| && x in runs[k]
  }

  /** The pooled scores: those of all the runs, in whatever order. */
  ghost predicate Pools(spoof: Scores, runs: seq<Scores>) {
    forall x :: x in spoof <==> InSome(runs, x)
  }

  lemma OneFrameIsAStretch(spoof: Scores, runs: seq<Scores>, t: real)
    requires Pools(spoof, runs)
    ensures SomeStretchPasses(runs, t, 1) <==> exists x :: x in spoof && x >= t
  {
    if SomeStretchPasses(runs, t, 1) {
      var k, i :| Passes(runs, t, 1, k, i);
      assert runs[k][i] in runs[k][i..i + 1] && runs[k][i] in runs[k];
      assert InSome(runs, runs[k][i]);
    }
    if x :| x in spoof && x >= t {
      assert InSome(runs, x);
      var k :| 0 <= k < |runs| && x in runs[k];
      var i :| 0 <= i < |runs[k]| && runs[k][i] == x;
      assert runs[k][i..i + 1] == [x];
      assert Passes(runs, t, 1, k, i);
    }
  }

  /** A gate on single frames is blocked exactly when no pooled frame is admitted. */
  lemma OneFrameBlocks(spoof: Scores, runs: seq<Scores>, t: real)
    requires Pools(spoof, runs)
    ensures Blocks(runs, t, 1) <==> AdmittedBy(spoof, t) == 0
  {
    OneFrameIsAStretch(spoof, runs, t);
    ZeroMeansNoStretch(runs, t, 1);
    NoneAdmitted(spoof, t);
  }

  lemma {:induction false} SameFirst(points: seq<real>, p: real -> bool, q: real -> bool)
    requires forall t :: p(t) <==> q(t)
    ensures First(points, p) == First(points, q)
  {
    if points == [] {
    } else {
      SameFirst(points[1..], p, q);
    }
  }

  /** At N = 1 the choice is the safest threshold on the pooled frames. */
  lemma AtOneFrameItIsTheSafest(genuine: Scores, spoof: Scores, runs: seq<Scores>)
    requires Pools(spoof, runs)
    ensures Chosen(Candidates(genuine + spoof), runs, 1) == Safest(genuine, spoof)
  {
    forall t: real ensures Blocks(runs, t, 1) <==> AdmittedBy(spoof, t) == 0 {
      OneFrameBlocks(spoof, runs, t);
    }
    SameFirst(Candidates(genuine + spoof), t => Blocks(runs, t, 1), t => AdmittedBy(spoof, t) == 0);
  }

  // --- the table -------------------------------------------------------------------------------------

  datatype Line =
    | Nothing(frames: nat)
    | Price(frames: nat, threshold: real, accepted: real, admitted: real)

  function LineFor(points: seq<real>, realRuns: seq<Scores>, spoofRuns: seq<Scores>, n: nat): Line {
    match Chosen(points, spoofRuns, n)
    case None => Nothing(n)
    case Some(t) =>
      Price(n, t, Percentage(Windows(realRuns, t, n)), Percentage(Windows(spoofRuns, t, n)))
  }

  /** The first of the ascending candidates at which no spoof stretch passes. */
  method Choose(points: seq<real>, spoofRuns: seq<Scores>, n: nat) returns (found: Option<real>)
    ensures found == Chosen(points, spoofRuns, n)
  {
    for i := 0 to |points|
      invariant Chosen(points, spoofRuns, n) == Chosen(points[i..], spoofRuns, n)
    {
      var share := StretchesAllPassing(spoofRuns, points[i], n);
      if share == 0.0 {
        return Some(points[i]);
      }
    }
    return None;
  }

  method PriceLine(points: seq<real>, realRuns: seq<Scores>, spoofRuns: seq<Scores>, n: nat) returns (line: Line)
    ensures line == LineFor(points, realRuns, spoofRuns, n)
  {
    var found := Choose(points, spoofRuns, n);
    if found == None {
      return Nothing(n);
    }
    var accepted := StretchesAllPassing(realRuns, found.value, n);
    var admitted := StretchesAllPassing(spoofRuns, found.value, n);
    return Price(n, found.value, accepted, admitted);
  }

  /** consecutive, its selection loop */
  method Consecutive(genuine: Scores, spoof: Scores, realRuns: seq<Scores>, spoofRuns: seq<Scores>)
    returns (table: seq<Line>)
    ensures |table| == MOST_FRAMES
    ensures forall n :: 1 <= n <= MOST_FRAMES
              ==> table[n - 1] == LineFor(Candidates(genuine + spoof), realRuns, spoofRuns, n)
  {
    table := [];
    for n := 1 to MOST_FRAMES + 1
      invariant |table| == n - 1
      invariant forall m :: 1 <= m < n
                  ==> table[m - 1] == LineFor(Candidates(genuine + spoof), realRuns, spoofRuns, m)
    {
      var points := FindCandidates(genuine, spoof);
      var line := PriceLine(points, realRuns, spoofRuns, n);
      table := table + [line];
    }
  }

  /** Every line of the table has a threshold, the "no threshold" line being out of reach; no
      spoof stretch is ever admitted; and down the table thresholds only fall. */
  lemma TheTableOnlyFalls(genuine: Scores, spoof: Scores, realRuns: seq<Scores>, spoofRuns: seq<Scores>,
                          n: nat, m: nat)
    requires Pools(spoof, spoofRuns) && 1 <= n <= m
    ensures var points := Candidates(genuine + spoof);
            var above, below := LineFor(points, realRuns, spoofRuns, n), LineFor(points, realRuns, spoofRuns, m);
            && above.Price? && below.Price? && below.threshold <= above.threshold
            && above.admitted == 0.0 && below.admitted == 0.0
            && above.frames == n && above.accepted == Percentage(Windows(realRuns, above.threshold, n))
  {
    var points := Candidates(genuine + spoof);
    CandidatesAre(genuine + spoof);
    AtOneFrameItIsTheSafest(genuine, spoof, spoofRuns);
    SafestIsAHairAboveTheSpoofs(genuine, spoof);
    MoreFramesNeverRaiseTheThreshold(points, spoofRuns, 1, n);
    MoreFramesNeverRaiseTheThreshold(points, spoofRuns, n, m);
    FirstIsLeast(points, t => Blocks(spoofRuns, t, n));
    FirstIsLeast(points, t => Blocks(spoofRuns, t, m));
  }
}
