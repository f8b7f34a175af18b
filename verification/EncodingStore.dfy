/** The encoding file and the dictionary read from it (attendance/recognition.py).

    A Python dict keeps insertion order, so `{name: [encoding, ...]}` is a sequence of
    people whose names are all different. On disk it is two parallel arrays. */
module EncodingStore {
  import opened Options

  type Encoding = seq<real>

  datatype Person = Person(name: string, encodings: seq<Encoding>)
  type People = seq<Person>

  datatype Row = Row(name: string, vector: Encoding)
  datatype Arrays = Arrays(names: seq<string>, vectors: seq<Encoding>)

  // --- the dictionary ---------------------------------------------------------------

  /** Where `name` sits in the dictionary, or its size when it is not there. */
  function IndexOf(people: People, name: string): (i: nat)
    ensures i <= |people|
    ensures i < |people| ==> people[i].name == name
    ensures forall j :: 0 <= j < i ==> people[j].name != name
  {
    if people == [] then 0
    else if people[0].name == name then 0
    else 1 + IndexOf(people[1..], name)
  }

  predicate Has(people: People, name: string) {
    IndexOf(people, name) < |people|
  }

  function Lookup(people: People, name: string): Option<seq<Encoding>> {
    if Has(people, name) then Some(people[IndexOf(people, name)].encodings) else None
  }

  /** `people.setdefault(name, []).extend(vectors)` */
  function Add(people: People, name: string, vectors: seq<Encoding>): People {
    var i := IndexOf(people, name);
    if i < |people|
    then people[i := Person(name, people[i].encodings + vectors)]
    else people + [Person(name, vectors)]
  }

  /** `del people[name]` */
  function Without(people: People, name: string): People
    requires Has(people, name)
  {
    var i := IndexOf(people, name);
    people[..i] + people[i + 1..]
  }

  ghost predicate DistinctNames(people: People) {
    forall i, j :: 0 <= i < j < |people| ==> people[i].name != people[j].name
  }

  ghost predicate NobodyEmpty(people: People) {
    forall p :: p in people ==> p.encodings != []
  }

  /** What a dictionary read from a file always looks like. */
  ghost predicate WellLoaded(people: People) {
    DistinctNames(people) && NobodyEmpty(people)
  }

  lemma IndexIsUnique(people: People, name: string, i: nat)
    requires DistinctNames(people) && i < |people| && people[i].name == name
    ensures IndexOf(people, name) == i
  {
  }

  /** Adding to one person leaves everybody else, and the order, alone. */
  lemma AddLookup(people: People, name: string, vectors: seq<Encoding>, other: string)
    requires DistinctNames(people)
    ensures DistinctNames(Add(people, name, vectors))
    ensures Lookup(Add(people, name, vectors), other) ==
            if other != name then Lookup(people, other)
            else Some((if Has(people, name) then Lookup(people, name).value else []) + vectors)
    ensures NobodyEmpty(people) && vectors != [] ==> NobodyEmpty(Add(people, name, vectors))
  {
    var after := Add(people, name, vectors);
    if Has(people, other) && other != name {
      IndexIsUnique(after, other, IndexOf(people, other));
    }
    if Has(after, other) && other != name {
      IndexIsUnique(people, other, IndexOf(after, other));
    }
    IndexIsUnique(after, name, IndexOf(people, name));
    assert [] + vectors == vectors;
  }

  lemma WithoutKeepsOthers(people: People, name: string, other: string)
    requires DistinctNames(people) && Has(people, name) && DistinctNames(Without(people, name))
    requires other != name && Has(people, other)
    ensures Lookup(Without(people, name), other) == Lookup(people, other)
  {
    var i, k := IndexOf(people, name), IndexOf(people, other);
    IndexIsUnique(Without(people, name), other, if k < i then k else k - 1);
  }

  lemma WithoutAddsNobody(people: People, name: string, other: string)
    requires DistinctNames(people) && Has(people, name) && Has(Without(people, name), other)
    ensures other != name && Has(people, other)
  {
    var i, k := IndexOf(people, name), IndexOf(Without(people, name), other);
    IndexIsUnique(people, other, if k < i then k else k + 1);
  }

  /** Removing one person removes exactly that person. */
  lemma WithoutLookup(people: People, name: string, other: string)
    requires DistinctNames(people) && Has(people, name)
    ensures DistinctNames(Without(people, name))
    ensures Lookup(Without(people, name), other) ==
            if other == name then None else Lookup(people, other)
    ensures NobodyEmpty(people) ==> NobodyEmpty(Without(people, name))
  {
    if Has(Without(people, name), other) {
      WithoutAddsNobody(people, name, other);
    }
    if Has(people, other) && other != name {
      WithoutKeepsOthers(people, name, other);
    }
  }

  function Names(people: People): seq<string> {
    seq(|people|, i requires 0 <= i < |people| => people[i].name)
  }

  /** A name keeps its place when it gets more vectors, and a new one comes last. */
  lemma AddKeepsOrder(people: People, name: string, vectors: seq<Encoding>)
    ensures Names(Add(people, name, vectors))
         == if name in Names(people) then Names(people) else Names(people) + [name]
  {
    var i := IndexOf(people, name);
    if i < |people| {
      assert Names(people)[i] == name;
    }
  }

  /** Deleting a name closes the gap and moves nobody else. */
  lemma WithoutKeepsOrder(people: People, name: string)
    requires Has(people, name)
    ensures exists i :: 0 <= i < |people| && people[i].name == name
              && Names(Without(people, name)) == Names(people)[..i] + Names(people)[i + 1..]
  {
    var i := IndexOf(people, name);
    assert Names(Without(people, name)) == Names(people)[..i] + Names(people)[i + 1..];
  }

  // --- the two arrays ---------------------------------------------------------------

  /** What numpy gives back of a text it keeps in an array: NULs at the end are lost. */
  function Stripped(name: string): string {
    if name != "" && name[|name| - 1] == '\0' then Stripped(name[..|name| - 1]) else name
  }

  predicate Clean(name: string) {
    name == "" || name[|name| - 1] != '\0'
  }

  lemma {:induction false} StrippedIsClean(name: string)
    ensures Clean(Stripped(name))
    ensures Stripped(name) == name <==> Clean(name)
  {
    if name != "" && name[|name| - 1] == '\0' {
      StrippedIsClean(name[..|name| - 1]);
      StrippedIsShort(name[..|name| - 1]);
    }
  }

  lemma {:induction false} StrippedIsShort(name: string)
    ensures |Stripped(name)| <= |name|
  {
    if name != "" && name[|name| - 1] == '\0' {
      StrippedIsShort(name[..|name| - 1]);
    }
  }

  /** Python's zip: stops at the shorter of the two. */
  function Zip(a: Arrays): (rows: seq<Row>)
    ensures |rows| == if |a.names| <= |a.vectors| then |a.names| else |a.vectors|
  {
    var n := if |a.names| <= |a.vectors| then |a.names| else |a.vectors|;
    seq(n, i requires 0 <= i < n => Row(Stripped(a.names[i]), a.vectors[i]))
  }

  function Tag(name: string, vectors: seq<Encoding>): (rows: seq<Row>)
    ensures |rows| == |vectors|
  {
    seq(|vectors|, i requires 0 <= i < |vectors| => Row(name, vectors[i]))
  }

  function Flatten(people: People): seq<Row> {
    if people == [] then []
    else Flatten(people[..|people| - 1]) + Tag(people[|people| - 1].name, people[|people| - 1].encodings)
  }

  /** The two arrays save_known_encodings fills, one entry each per encoding. */
  function Pack(people: People): Arrays {
    var rows := Flatten(people);
    Arrays(seq(|rows|, i requires 0 <= i < |rows| => rows[i].name),
           seq(|rows|, i requires 0 <= i < |rows| => rows[i].vector))
  }

  function Group(rows: seq<Row>): People {
    if rows == [] then []
    else Add(Group(rows[..|rows| - 1]), rows[|rows| - 1].name, [rows[|rows| - 1].vector])
  }

  /** The vectors filed under one name, in file order. */
  function VectorsOf(rows: seq<Row>, name: string): seq<Encoding> {
    if rows == [] then []
    else VectorsOf(rows[..|rows| - 1], name) +
         if rows[|rows| - 1].name == name then [rows[|rows| - 1].vector] else []
  }

  function PeopleWithEncodings(people: People): People {
    if people == [] then []
    else PeopleWithEncodings(people[..|people| - 1]) +
         if people[|people| - 1].encodings != [] then [people[|people| - 1]] else []
  }

  /** load_known_encodings: no file is an empty dictionary. */
  method LoadKnownEncodings(file: Option<Arrays>) returns (grouped: People)
    ensures grouped == if file.None? then [] else Group(Zip(file.value))
  {
    grouped := [];
    if file.None? {
      return;
    }
    var rows := Zip(file.value);
    for i := 0 to |rows|
      invariant grouped == Group(rows[..i])
    {
      assert rows[..i + 1][..i] == rows[..i];
      grouped := Add(grouped, rows[i].name, [rows[i].vector]);
    }
    assert rows[..|rows|] == rows;
  }

  /** The two arrays side by side, as they were filled. */
  function Pairs(names: seq<string>, vectors: seq<Encoding>): seq<Row>
    requires |names| == |vectors|
  {
    seq(|names|, i requires 0 <= i < |names| => Row(names[i], vectors[i]))
  }

  /** save_known_encodings: what is handed to os.replace. */
  method SaveKnownEncodings(known: People) returns (a: Arrays)
    ensures a == Pack(known)
  {
    var names: seq<string>, vectors: seq<Encoding> := [], [];
    for p := 0 to |known|
      invariant |names| == |vectors| && Pairs(names, vectors) == Flatten(known[..p])
    {
      var person := known[p];
      ghost var before := Pairs(names, vectors);
      for e := 0 to |person.encodings|
        invariant |names| == |vectors|
        invariant Pairs(names, vectors) == before + Tag(person.name, person.encodings[..e])
      {
        names := names + [person.name];
        vectors := vectors + [person.encodings[e]];
        assert Pairs(names, vectors) ==
               before + Tag(person.name, person.encodings[..e]) + [Row(person.name, person.encodings[e])];
      }
      assert person.encodings[..|person.encodings|] == person.encodings;
      assert known[..p + 1][..p] == known[..p];
    }
    assert known[..|known|] == known;
    a := Arrays(names, vectors);
    assert forall i :: 0 <= i < |names| ==> Flatten(known)[i] == Row(names[i], vectors[i]);
    assert a.names == Pack(known).names && a.vectors == Pack(known).vectors;
  }

  // --- saving and loading undo each other ----------------------------------------------

  /** Every loaded dictionary has different names, and nobody in it is without encodings:
      each name found in the file maps to its vectors in file order, and no other name does. */
  lemma {:induction false} GroupIsByName(rows: seq<Row>, name: string)
    ensures WellLoaded(Group(rows))
    ensures Lookup(Group(rows), name) ==
            if VectorsOf(rows, name) == [] then None else Some(VectorsOf(rows, name))
  {
    if rows == [] {
    } else {
      var last := rows[|rows| - 1];
      GroupIsByName(rows[..|rows| - 1], name);
      GroupIsByName(rows[..|rows| - 1], last.name);
      AddLookup(Group(rows[..|rows| - 1]), last.name, [last.vector], name);
      assert VectorsOf(rows[..|rows| - 1], name) + [] == VectorsOf(rows[..|rows| - 1], name);
    }
  }

  lemma AddTwice(people: People, name: string, first: seq<Encoding>, second: seq<Encoding>)
    requires DistinctNames(people)
    ensures Add(Add(people, name, first), name, second) == Add(people, name, first + second)
  {
    var i := IndexOf(people, name);
    AddLookup(people, name, first, name);
    IndexIsUnique(Add(people, name, first), name, i);
    if i < |people| {
      assert (people[i].encodings + first) + second == people[i].encodings + (first + second);
    }
  }

  lemma GroupOneMore(rows: seq<Row>, row: Row)
    ensures Group(rows + [row]) == Add(Group(rows), row.name, [row.vector])
  {
    assert (rows + [row])[..|rows|] == rows;
  }

  lemma TagOneMore(rows: seq<Row>, name: string, vectors: seq<Encoding>)
    requires vectors != []
    ensures rows + Tag(name, vectors)
         == (rows + Tag(name, vectors[..|vectors| - 1])) + [Row(name, vectors[|vectors| - 1])]
  {
  }

  function AddSome(people: People, name: string, vectors: seq<Encoding>): People {
    if vectors == [] then people else Add(people, name, vectors)
  }

  lemma AddSomeMore(people: People, name: string, front: seq<Encoding>, last: Encoding)
    requires DistinctNames(people)
    ensures Add(AddSome(people, name, front), name, [last]) == AddSome(people, name, front + [last])
  {
    if front == [] {
      assert front + [last] == [last];
    } else {
      AddTwice(people, name, front, [last]);
    }
  }

  lemma {:induction false} GroupRun(rows: seq<Row>, name: string, vectors: seq<Encoding>)
    ensures Group(rows + Tag(name, vectors)) == AddSome(Group(rows), name, vectors)
  {
    if vectors == [] {
      assert rows + Tag(name, vectors) == rows;
    } else {
      var front, last := vectors[..|vectors| - 1], vectors[|vectors| - 1];
      assert vectors == front + [last];
      TagOneMore(rows, name, vectors);
      GroupOneMore(rows + Tag(name, front), Row(name, last));
      GroupRun(rows, name, front);
      GroupIsByName(rows, name);
      AddSomeMore(Group(rows), name, front, last);
    }
  }

  lemma {:induction false} KeptAreThose(people: People)
    ensures forall p :: p in PeopleWithEncodings(people) <==> p in people && p.encodings != []
  {
    if people == [] {
    } else {
      var front, last := people[..|people| - 1], people[|people| - 1];
      KeptAreThose(front);
      assert people == front + [last];
    }
  }

  lemma AddNew(people: People, name: string, vectors: seq<Encoding>)
    requires forall p :: p in people ==> p.name != name
    ensures Add(people, name, vectors) == people + [Person(name, vectors)]
  {
    forall k | 0 <= k < |people| ensures people[k].name != name {
      assert people[k] in people;
    }
  }

  /** The dictionary that comes back is the one that was saved: the same people, the same
      encodings and the same order, less anyone who had no encodings to write. */
  lemma {:induction false} LoadUndoesSave(people: People)
    requires DistinctNames(people)
    ensures Group(Flatten(people)) == PeopleWithEncodings(people)
  {
    if people == [] {
    } else {
      var front, last := people[..|people| - 1], people[|people| - 1];
      LoadUndoesSave(front);
      GroupRun(Flatten(front), last.name, last.encodings);
      KeptAreThose(front);
      if last.encodings != [] {
        AddNew(PeopleWithEncodings(front), last.name, last.encodings);
      }
    }
  }

  lemma FrontIsFilled(people: People)
    requires NobodyEmpty(people) && people != []
    ensures NobodyEmpty(people[..|people| - 1]) && people[|people| - 1].encodings != []
  {
    assert people[|people| - 1] in people;
    assert forall p :: p in people[..|people| - 1] ==> p in people;
  }

  lemma {:induction false} AllKept(people: People)
    requires NobodyEmpty(people)
    ensures PeopleWithEncodings(people) == people
  {
    if people == [] {
    } else {
      FrontIsFilled(people);
      AllKept(people[..|people| - 1]);
    }
  }

  ghost predicate CleanNames(people: People) {
    forall p :: p in people ==> Clean(p.name)
  }

  ghost predicate CleanRows(rows: seq<Row>) {
    forall i :: 0 <= i < |rows| ==> Clean(rows[i].name)
  }

  lemma AddKeepsClean(people: People, name: string, vectors: seq<Encoding>)
    requires CleanNames(people) && Clean(name)
    ensures CleanNames(Add(people, name, vectors))
  {
    var i := IndexOf(people, name);
    forall p | p in Add(people, name, vectors) ensures Clean(p.name) {
      assert p in people || p.name == name;
    }
  }

  lemma {:induction false} GroupIsClean(rows: seq<Row>)
    requires CleanRows(rows)
    ensures CleanNames(Group(rows))
  {
    if rows == [] {
    } else {
      GroupIsClean(rows[..|rows| - 1]);
      AddKeepsClean(Group(rows[..|rows| - 1]), rows[|rows| - 1].name, [rows[|rows| - 1].vector]);
    }
  }

  /** Whatever is read from a file has no NUL at the end of any name. */
  lemma ReadNamesAreClean(a: Arrays)
    ensures CleanNames(Group(Zip(a)))
  {
    forall i | 0 <= i < |Zip(a)| ensures Clean(Zip(a)[i].name) {
      StrippedIsClean(a.names[i]);
    }
    GroupIsClean(Zip(a));
  }

  lemma {:induction false} FlattenIsClean(people: People)
    requires CleanNames(PeopleWithEncodings(people))
    ensures CleanRows(Flatten(people))
  {
    if people == [] {
    } else {
      var front, last := people[..|people| - 1], people[|people| - 1];
      KeptAreThose(people);
      KeptAreThose(front);
      assert people == front + [last];
      FlattenIsClean(front);
      if last.encodings != [] {
        assert last in PeopleWithEncodings(people);
      }
    }
  }

  lemma CleanIsReadAsWritten(people: People)
    requires CleanRows(Flatten(people))
    ensures Zip(Pack(people)) == Flatten(people)
  {
    forall i | 0 <= i < |Flatten(people)| ensures Zip(Pack(people))[i] == Flatten(people)[i] {
      StrippedIsClean(Flatten(people)[i].name);
    }
  }

  /** Through the file and back: the dictionary survives exactly when nobody written to it has a
      name that ends in a NUL. */
  lemma FileGivesBackExactlyWhen(people: People)
    requires DistinctNames(people)
    ensures Group(Zip(Pack(people))) == PeopleWithEncodings(people) <==> CleanNames(PeopleWithEncodings(people))
  {
    ReadNamesAreClean(Pack(people));
    if CleanNames(PeopleWithEncodings(people)) {
      FlattenIsClean(people);
      CleanIsReadAsWritten(people);
      LoadUndoesSave(people);
    }
  }

  /** So for anything that was itself loaded, saving loses nothing at all. */
  lemma SavedIsLoaded(people: People)
    requires WellLoaded(people) && CleanNames(people)
    ensures Group(Zip(Pack(people))) == people
  {
    AllKept(people);
    FileGivesBackExactlyWhen(people);
  }

  // --- identify_face ----------------------------------------------------------------

  /** NoMinimum is numpy refusing to take the minimum of an empty list of distances. */
  datatype Match = Match(name: string, distance: Option<real>) | NoMinimum

  type Metric = (Encoding, Encoding) -> real

  const UNKNOWN := "Unknown"

  /** The least distance from a face to any of a person's encodings. */
  function Nearest(d: Metric, face: Encoding, encodings: seq<Encoding>): real
    requires encodings != []
  {
    var last := d(encodings[|encodings| - 1], face);
    if |encodings| == 1 then last
    else
      var rest := Nearest(d, face, encodings[..|encodings| - 1]);
      if last < rest then last else rest
  }

  lemma {:induction false} NearestIsTheMinimum(d: Metric, face: Encoding, encodings: seq<Encoding>)
    requires encodings != []
    ensures forall e :: e in encodings ==> Nearest(d, face, encodings) <= d(e, face)
    ensures exists e :: e in encodings && Nearest(d, face, encodings) == d(e, face)
  {
    var front, last := encodings[..|encodings| - 1], encodings[|encodings| - 1];
    assert encodings == front + [last];
    assert last in encodings;
    if front == [] {
    } else {
      NearestIsTheMinimum(d, face, front);
    }
  }

  /** Nobody among the first n is without encodings. */
  predicate FilledUpTo(people: People, n: nat)
    requires n <= |people|
  {
    forall j :: 0 <= j < n ==> people[j].encodings != []
  }

  function NearestOf(d: Metric, face: Encoding, people: People, j: nat): real
    requires j < |people| && people[j].encodings != []
  {
    Nearest(d, face, people[j].encodings)
  }

  /** Person i is nearer than everyone before, and no farther than anyone after. */
  ghost predicate IsClosest(d: Metric, face: Encoding, people: People, n: nat, i: nat)
    requires n <= |people| && FilledUpTo(people, n)
  {
    && i < n
    && (forall j :: 0 <= j < n ==> NearestOf(d, face, people, i) <= NearestOf(d, face, people, j))
    && (forall j :: 0 <= j < i ==> NearestOf(d, face, people, i) < NearestOf(d, face, people, j))
  }

  /** The closest of the first n: a new one has to be strictly nearer to take over. */
  function Closest(d: Metric, face: Encoding, people: People, n: nat): (i: nat)
    requires 0 < n <= |people| && FilledUpTo(people, n)
    ensures i < n
  {
    if n == 1 then 0
    else
      var i := Closest(d, face, people, n - 1);
      if NearestOf(d, face, people, n - 1) < NearestOf(d, face, people, i) then n - 1 else i
  }

  lemma {:induction false} ClosestIsClosest(d: Metric, face: Encoding, people: People, n: nat)
    requires 0 < n <= |people| && FilledUpTo(people, n)
    ensures IsClosest(d, face, people, n, Closest(d, face, people, n))
  {
    if n == 1 {
    } else {
      ClosestIsClosest(d, face, people, n - 1);
    }
  }

  /** The closest person wins, the earlier one on a tie, and only at or under the tolerance. */
  function Identify(d: Metric, face: Encoding, people: People, tolerance: real): Match {
    if !FilledUpTo(people, |people|) then NoMinimum
    else if people == [] then Match(UNKNOWN, None)
    else
      var best := Closest(d, face, people, |people|);
      var distance := NearestOf(d, face, people, best);
      Match(if distance <= tolerance then people[best].name else UNKNOWN, Some(distance))
  }

  /** identify_face */
  method IdentifyFace(d: Metric, face: Encoding, people: People, tolerance: real) returns (m: Match)
    ensures m == Identify(d, face, people, tolerance)
  {
    var bestName, bestDistance: Option<real> := UNKNOWN, None;
    for k := 0 to |people|
      invariant FilledUpTo(people, k)
      invariant k == 0 ==> bestDistance == None
      invariant k > 0 ==> bestDistance == Some(NearestOf(d, face, people, Closest(d, face, people, k)))
      invariant k > 0 ==> bestName == people[Closest(d, face, people, k)].name
    {
      if people[k].encodings == [] {
        return NoMinimum;
      }
      var nearest := NearestOf(d, face, people, k);
      if bestDistance.None? || nearest < bestDistance.value {
        bestDistance, bestName := Some(nearest), people[k].name;
      }
    }
    if bestDistance.None? || bestDistance.value > tolerance {
      return Match(UNKNOWN, bestDistance);
    }
    return Match(bestName, bestDistance);
  }

  /** Whoever is closest is the answer, at or under the tolerance, and the distance is reported
      either way. */
  lemma IdentifyIsTheClosest(d: Metric, face: Encoding, people: People, tolerance: real, i: nat)
    requires FilledUpTo(people, |people|) && IsClosest(d, face, people, |people|, i)
    ensures Identify(d, face, people, tolerance)
         == Match(if NearestOf(d, face, people, i) <= tolerance then people[i].name else UNKNOWN,
                  Some(NearestOf(d, face, people, i)))
  {
    ClosestIsClosest(d, face, people, |people|);
    ClosestIsUnique(d, face, people, |people|, i, Closest(d, face, people, |people|));
  }

  /** With nobody enrolled there is neither a name nor a distance; and numpy refuses exactly when
      somebody enrolled has no encodings. */
  lemma NobodyToIdentify(d: Metric, face: Encoding, people: People, tolerance: real)
    ensures people == [] ==> Identify(d, face, people, tolerance) == Match("Unknown", None)
    ensures Identify(d, face, people, tolerance) == NoMinimum <==> exists p :: p in people && p.encodings == []
  {
    if k :| 0 <= k < |people| && people[k].encodings == [] {
      assert people[k] in people;
    }
  }

  /** The answer is a function of the dictionary: two closest people cannot differ. */
  lemma ClosestIsUnique(d: Metric, face: Encoding, people: People, n: nat, i: nat, j: nat)
    requires n <= |people| && FilledUpTo(people, n)
    requires IsClosest(d, face, people, n, i) && IsClosest(d, face, people, n, j)
    ensures i == j
  {
    if i < j {
      LaterIsNotClosest(d, face, people, n, i, j);
    } else if j < i {
      LaterIsNotClosest(d, face, people, n, j, i);
    }
  }

  lemma LaterIsNotClosest(d: Metric, face: Encoding, people: People, n: nat, i: nat, j: nat)
    requires n <= |people| && FilledUpTo(people, n)
    requires IsClosest(d, face, people, n, i) && i < j < n
    ensures !IsClosest(d, face, people, n, j)
  {
    assert NearestOf(d, face, people, i) <= NearestOf(d, face, people, j);
  }

  /** Against anything read from the file, the minimum is always defined. */
  lemma LoadedMinimumIsDefined(rows: seq<Row>, d: Metric, face: Encoding, tolerance: real)
    ensures Identify(d, face, Group(rows), tolerance).Match?
  {
    GroupIsByName(rows, "");
    forall k | 0 <= k < |Group(rows)| ensures Group(rows)[k].encodings != [] {
      assert Group(rows)[k] in Group(rows);
    }
  }
}
