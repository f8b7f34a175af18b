/** One encoding file shared by several worker processes (attendance/recognition.py and
    attendance/enrolment.py): readers look at the file's stamp before they load it, writers
    read, change and replace it under a lock that a dying process gives up. */
module EncodingCache {
  import opened Options
  import opened EncodingStore

  datatype Stamp = Stamp(mtimeNs: int, size: int)
  datatype File = Absent | Present(stamp: Stamp, arrays: Arrays)

  function FileStamp(f: File): Option<Stamp> {
    if f.Absent? then None else Some(f.stamp)
  }

  function OnDisk(f: File): Option<Arrays> {
    if f.Absent? then None else Some(f.arrays)
  }

  function Load(f: File): People {
    if f.Absent? then [] else Group(Zip(f.arrays))
  }

  // --- one process ------------------------------------------------------------------

  datatype Cache = Cache(known: Option<People>, stamp: Option<Stamp>)

  const EMPTY := Cache(None, None)

  predicate Hit(c: Cache, seen: Option<Stamp>) {
    c.known.Some? && seen == c.stamp
  }

  /** What get_known_encodings answers when the file is one thing at the stat and possibly
      another by the time of the load. */
  function Served(c: Cache, atStat: File, atLoad: File): People {
    if Hit(c, FileStamp(atStat)) then c.known.value else Load(atLoad)
  }

  function Refreshed(c: Cache, atStat: File, atLoad: File): Cache {
    if Hit(c, FileStamp(atStat)) then c else Cache(Some(Load(atLoad)), FileStamp(atStat))
  }

  /** The module state of attendance/recognition.py. */
  class FaceCache {
    var known: Option<People>
    var stamp: Option<Stamp>

    constructor ()
      ensures Value() == EMPTY
    {
      known, stamp := None, None;
    }

    function Value(): Cache
      reads this
    {
      Cache(known, stamp)
    }

    method GetKnownEncodings(atStat: File, atLoad: File) returns (people: People)
      modifies this
      ensures people == Served(old(Value()), atStat, atLoad)
      ensures Value() == Refreshed(old(Value()), atStat, atLoad)
    {
      var seen := FileStamp(atStat);
      if known.None? || seen != stamp {
        var loaded := LoadKnownEncodings(OnDisk(atLoad));
        known := Some(loaded);
        stamp := seen;
      }
      return known.value;
    }

    method ReloadKnownEncodings(atStat: File, atLoad: File) returns (people: People)
      modifies this
      ensures people == Load(atLoad)
      ensures Value() == Cache(Some(Load(atLoad)), FileStamp(atStat))
    {
      known, stamp := None, None;
      people := GetKnownEncodings(atStat, atLoad);
    }
  }

  /** Two files look alike exactly when both are missing, or both have the same time and size. */
  lemma FilesLookAlike(f: File, g: File)
    ensures FileStamp(f) == FileStamp(g)
       <==> || (f.Absent? && g.Absent?)
            || (f.Present? && g.Present? && f.stamp.mtimeNs == g.stamp.mtimeNs && f.stamp.size == g.stamp.size)
  {
  }

  /** A call that loaded saves the next one the trouble: while the file looks as it did at the
      stat, the answer is the one it gave, whatever a load would find. */
  lemma LoadedOnceIsEnough(c: Cache, atStat: File, atLoad: File, later: File, other: File)
    requires FileStamp(later) == FileStamp(atStat)
    ensures Served(Refreshed(c, atStat, atLoad), later, other) == Served(c, atStat, atLoad)
    ensures Refreshed(Refreshed(c, atStat, atLoad), later, other) == Refreshed(c, atStat, atLoad)
  {
  }

  // --- which file histories a stamp can be trusted on ---------------------------------

  /** Whenever two versions look alike, nothing different was on disk in between. */
  ghost predicate StampsTellApart(history: seq<File>) {
    forall i, j, k :: 0 <= i <= j <= k < |history| && FileStamp(history[i]) == FileStamp(history[k]) ==>
      Load(history[j]) == Load(history[k])
  }

  /** In particular when no two versions share a stamp. */
  lemma DistinctStampsTellApart(history: seq<File>)
    requires forall i, k :: 0 <= i < k < |history| ==> FileStamp(history[i]) != FileStamp(history[k])
    ensures StampsTellApart(history)
  {
  }

  /** One call against a fixed history: the versions its stat and its load find. */
  datatype Poll = Poll(stat: nat, load: nat)

  ghost predicate InOrder(history: seq<File>, polls: seq<Poll>) {
    && (forall k :: 0 <= k < |polls| ==> polls[k].stat <= polls[k].load < |history|)
    && (forall k :: 0 < k < |polls| ==> polls[k - 1].load <= polls[k].stat)
  }

  function CacheAfter(history: seq<File>, polls: seq<Poll>): Cache
    requires forall k :: 0 <= k < |polls| ==> polls[k].stat < |history| && polls[k].load < |history|
  {
    if polls == [] then EMPTY
    else
      var p := polls[|polls| - 1];
      Refreshed(CacheAfter(history, polls[..|polls| - 1]), history[p.stat], history[p.load])
  }

  /** The last call returns what the file held at some moment inside that call. */
  ghost predicate LastIsCurrent(history: seq<File>, polls: seq<Poll>)
    requires InOrder(history, polls) && polls != []
  {
    var p := polls[|polls| - 1];
    var c := CacheAfter(history, polls[..|polls| - 1]);
    exists v :: p.stat <= v <= p.load && Served(c, history[p.stat], history[p.load]) == Load(history[v])
  }

  /** A cached value was on disk at or after the version its stamp belongs to. */
  ghost predicate Traced(history: seq<File>, c: Cache, upTo: nat) {
    c.known.Some? ==>
      exists i, j :: 0 <= i <= j <= upTo < |history|
                     && FileStamp(history[i]) == c.stamp && Load(history[j]) == c.known.value
  }

  lemma {:induction false} CacheIsTraced(history: seq<File>, polls: seq<Poll>)
    requires InOrder(history, polls) && polls != []
    ensures Traced(history, CacheAfter(history, polls), polls[|polls| - 1].load)
  {
    var front, p := polls[..|polls| - 1], polls[|polls| - 1];
    if front == [] {
    } else {
      CacheIsTraced(history, front);
    }
    var c := CacheAfter(history, front);
    if Hit(c, FileStamp(history[p.stat])) {
      var i, j :| 0 <= i <= j <= front[|front| - 1].load
                  && FileStamp(history[i]) == c.stamp && Load(history[j]) == c.known.value;
      assert j <= p.load;
    } else {
      assert FileStamp(history[p.stat]) == Refreshed(c, history[p.stat], history[p.load]).stamp;
    }
  }

  lemma TellApartIsEnough(history: seq<File>, polls: seq<Poll>)
    requires StampsTellApart(history) && InOrder(history, polls) && polls != []
    ensures LastIsCurrent(history, polls)
  {
    var front, p := polls[..|polls| - 1], polls[|polls| - 1];
    var c := CacheAfter(history, front);
    if Hit(c, FileStamp(history[p.stat])) {
      CacheIsTraced(history, front);
      var i, j :| 0 <= i <= j <= front[|front| - 1].load
                  && FileStamp(history[i]) == c.stamp && Load(history[j]) == c.known.value;
      assert i <= j <= p.stat;
      assert Load(history[j]) == Load(history[p.stat]);
    }
  }

  lemma FirstCallCaches(history: seq<File>, i: nat, j: nat, k: nat)
    requires i <= j <= k < |history|
    ensures CacheAfter(history, [Poll(i, j), Poll(k, k)][..1]) == Cache(Some(Load(history[j])), FileStamp(history[i]))
  {
    assert [Poll(i, j), Poll(k, k)][..1] == [Poll(i, j)];
    assert [Poll(i, j)][..0] == [];
    assert CacheAfter(history, []) == EMPTY;
  }

  /** Two calls, the first overlapping version j and the second alone with version k. */
  lemma LookalikesServeStale(history: seq<File>, i: nat, j: nat, k: nat)
    requires i <= j <= k < |history| && FileStamp(history[i]) == FileStamp(history[k])
    requires Load(history[j]) != Load(history[k])
    ensures InOrder(history, [Poll(i, j), Poll(k, k)])
    ensures !LastIsCurrent(history, [Poll(i, j), Poll(k, k)])
  {
    FirstCallCaches(history, i, j, k);
  }

  ghost predicate CurrentOn(history: seq<File>, polls: seq<Poll>) {
    InOrder(history, polls) && polls != [] ==> LastIsCurrent(history, polls)
  }

  ghost predicate AlwaysCurrent(history: seq<File>) {
    forall polls :: CurrentOn(history, polls)
  }

  lemma StampsMustTellApart(history: seq<File>)
    requires AlwaysCurrent(history)
    ensures StampsTellApart(history)
  {
    forall i, j, k | 0 <= i <= j <= k < |history| && FileStamp(history[i]) == FileStamp(history[k])
      ensures Load(history[j]) == Load(history[k])
    {
      assert CurrentOn(history, [Poll(i, j), Poll(k, k)]);
      if Load(history[j]) != Load(history[k]) {
        LookalikesServeStale(history, i, j, k);
      }
    }
  }

  /** Exactly which histories are safe: every sequence of calls by a process is current
      if and only if equal stamps mean nothing changed in between. */
  lemma CurrentExactlyWhenStampsTellApart(history: seq<File>)
    ensures AlwaysCurrent(history) <==> StampsTellApart(history)
  {
    if AlwaysCurrent(history) {
      StampsMustTellApart(history);
    }
    if StampsTellApart(history) {
      forall polls ensures CurrentOn(history, polls) {
        if InOrder(history, polls) && polls != [] {
          TellApartIsEnough(history, polls);
        }
      }
    }
  }
}
