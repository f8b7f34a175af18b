/** enrol and remove_person run one at a time, with the process dying after any number of
    effects on disk (attendance/enrolment.py:193-227, 282-352). */
module Enrolment {
  import opened Options
  import opened EncodingStore

  const MAX_PHOTOS := 10

  /** What encode_photo makes of one upload: a face, or a problem to report. */
  datatype Upload = Usable(encoding: Encoding) | Problem(text: string)

  datatype Enrolled =
    | Added(count: nat, problems: seq<string>)
    | NoPhotos
    | TooManyPhotos
    | NoUsablePhotos(problems: seq<string>)
    | DiedEnrolling

  datatype Removal = Removed(photoCount: nat) | NotEnrolled | DiedRemoving

  function Faces(uploads: seq<Upload>): seq<Encoding> {
    if uploads == [] then []
    else Faces(uploads[..|uploads| - 1]) +
         match uploads[|uploads| - 1] case Usable(e) => [e] case Problem(_) => []
  }

  function Problems(uploads: seq<Upload>): seq<string> {
    if uploads == [] then []
    else Problems(uploads[..|uploads| - 1]) +
         match uploads[|uploads| - 1] case Usable(_) => [] case Problem(t) => [t]
  }

  lemma {:induction false} UploadsOneAfterAnother(a: seq<Upload>, b: seq<Upload>)
    ensures Faces(a + b) == Faces(a) + Faces(b) && Problems(a + b) == Problems(a) + Problems(b)
  {
    if b == [] {
      assert a + b == a;
    } else {
      UploadsOneAfterAnother(a, b[..|b| - 1]);
      assert (a + b)[..|a + b| - 1] == a + b[..|b| - 1];
    }
  }

  /** Each upload in turn is one face or one problem, and nothing is reported twice or dropped. */
  lemma EveryUploadIsAccountedFor(a: seq<Upload>, u: Upload, b: seq<Upload>)
    ensures Faces(a + [u] + b)
         == Faces(a) + (match u case Usable(e) => [e] case Problem(_) => []) + Faces(b)
    ensures Problems(a + [u] + b)
         == Problems(a) + (match u case Usable(_) => [] case Problem(t) => [t]) + Problems(b)
    ensures |Faces(a)| + |Problems(a)| == |a|
  {
    UploadsOneAfterAnother(a + [u], b);
    UploadsOneAfterAnother(a, [u]);
    assert [u][..0] == [];
    NothingIsDropped(a);
  }

  lemma {:induction false} NothingIsDropped(a: seq<Upload>)
    ensures |Faces(a)| + |Problems(a)| == |a|
  {
    if a == [] {
    } else {
      NothingIsDropped(a[..|a| - 1]);
    }
  }

  function Photos(photos: map<string, nat>, name: string): nat {
    if name in photos then photos[name] else 0
  }

  function Encodings(known: People, name: string): nat {
    match Lookup(known, name) case None => 0 case Some(v) => |v|
  }

  /** Nobody is recognised from photos that are no longer on disk. */
  ghost predicate PhotosBehindEncodings(known: People, photos: map<string, nat>) {
    forall name :: Encodings(known, name) <= Photos(photos, name)
  }

  /** The encoding file and the photo directories, with how many files each one holds. */
  class Site {
    var known: People
    var photos: map<string, nat>

    constructor ()
      ensures known == [] && photos == map[]
    {
      known, photos := [], map[];
    }

    /** The directory and every accepted photo are written before the encodings are saved. */
    method Enrol(name: string, uploads: seq<Upload>, effects: nat) returns (r: Enrolled)
      requires DistinctNames(known)
      modifies this
      ensures uploads == [] ==> r == NoPhotos
      ensures |uploads| > MAX_PHOTOS ==> r == TooManyPhotos
      ensures r.NoUsablePhotos? <==> 0 < |uploads| <= MAX_PHOTOS && Faces(uploads) == []
      ensures r.NoUsablePhotos? ==> r.problems == Problems(uploads)
      ensures r.NoPhotos? || r.TooManyPhotos? || r.NoUsablePhotos? ==>
                known == old(known) && photos == old(photos)
      ensures r.Added? ==> r == Added(|Faces(uploads)|, Problems(uploads))
                           && known == Add(old(known), name, Faces(uploads))
                           && Photos(photos, name) == old(Photos(photos, name)) + |Faces(uploads)|
      ensures known == old(known) || known == Add(old(known), name, Faces(uploads))
      ensures Photos(photos, name) >= old(Photos(photos, name))
      ensures forall other :: other != name ==>
                (other in photos <==> other in old(photos)) && Photos(photos, other) == old(Photos(photos, other))
      ensures DistinctNames(known)
      ensures old(PhotosBehindEncodings(known, photos)) ==> PhotosBehindEncodings(known, photos)
      ensures effects >= |Faces(uploads)| + 2 ==> !r.DiedEnrolling?
    {
      if uploads == [] {
        return NoPhotos;
      }
      if |uploads| > MAX_PHOTOS {
        return TooManyPhotos;
      }
      var accepted: seq<Encoding>, problems: seq<string> := [], [];
      for i := 0 to |uploads|
        invariant accepted == Faces(uploads[..i]) && problems == Problems(uploads[..i])
      {
        assert uploads[..i + 1][..i] == uploads[..i];
        match uploads[i]
        case Usable(e) => accepted := accepted + [e];
        case Problem(t) => problems := problems + [t];
      }
      assert uploads[..|uploads|] == uploads;
      if accepted == [] {
        return NoUsablePhotos(problems);
      }

      if effects < 1 {
        return DiedEnrolling;
      }
      photos := photos[name := Photos(photos, name)];
      for written := 0 to |accepted|
        invariant name in photos && photos[name] == old(Photos(photos, name)) + written
        invariant photos == old(photos)[name := photos[name]]
        invariant known == old(known)
      {
        if effects < written + 2 {
          return DiedEnrolling;
        }
        photos := photos[name := photos[name] + 1];
      }
      if effects < |accepted| + 2 {
        return DiedEnrolling;
      }
      forall other ensures DistinctNames(Add(known, name, accepted))
                           && Encodings(Add(known, name, accepted), other) ==
                              Encodings(known, other) + if other == name then |accepted| else 0 {
        AddLookup(known, name, accepted, other);
      }
      known := Add(known, name, accepted);
      return Added(|accepted|, problems);
    }

    /** Encodings first: whenever even one photo has gone, so have the encodings. */
    method RemovePerson(name: string, effects: nat) returns (r: Removal)
      requires DistinctNames(known)
      modifies this
      ensures r.NotEnrolled? <==> !old(Has(known, name))
      ensures r.NotEnrolled? ==> known == old(known) && photos == old(photos)
      ensures r.Removed? ==> r.photoCount == old(Photos(photos, name))
                             && known == Without(old(known), name) && photos == old(photos) - {name}
      ensures known == old(known) || (old(Has(known, name)) && known == Without(old(known), name))
      ensures photos != old(photos) ==> !Has(known, name)
      ensures Photos(photos, name) <= old(Photos(photos, name))
      ensures photos - {name} == old(photos) - {name}
      ensures DistinctNames(known)
      ensures old(PhotosBehindEncodings(known, photos)) ==> PhotosBehindEncodings(known, photos)
      ensures old(Has(known, name)) && effects >= old(Photos(photos, name)) + 2 ==> r.Removed?
    {
      var photoCount := Photos(photos, name);
      if !Has(known, name) {
        return NotEnrolled;
      }
      if effects < 1 {
        return DiedRemoving;
      }
      forall other ensures DistinctNames(Without(known, name))
                           && Encodings(Without(known, name), other) ==
                              (if other == name then 0 else Encodings(known, other))
                           && !Has(Without(known, name), name) {
        WithoutLookup(known, name, other);
        WithoutLookup(known, name, name);
      }
      known := Without(known, name);

      if name in photos {
        for gone := 0 to photoCount
          invariant name in photos && photos[name] == photoCount - gone
          invariant photos == old(photos)[name := photos[name]]
          invariant known == Without(old(known), name)
        {
          if effects < gone + 2 {
            return DiedRemoving;
          }
          photos := photos[name := photos[name] - 1];
        }
        if effects < photoCount + 2 {
          return DiedRemoving;
        }
        photos := photos - {name};
      }
      return Removed(photoCount);
    }
  }
}
