/** FaceRecognitionService: which image types it loads, and which gallery
    names IdentifyFaces reports for the faces of a photo. Dlib's detector
    and descriptor network are an oracle from blob key to descriptors, and
    ComputeEuclideanDistance is a parameter that yields a real number. */
module FaceRecognition {
  import opened Wrappers
  import opened Paths
  import opened EmbeddingCodec
  import opened Dictionaries

  /** knownFaces: the descriptors stored under each person's name. */
  type Gallery = Dict<seq<Embedding>>

  /** ComputeEuclideanDistance between two descriptors. */
  type Distance = (Embedding, Embedding) -> real

  /** Face detection and description of the image stored under a blob key:
      one descriptor per detected face, in detection order. */
  type Encoder = string -> seq<Embedding>

  /** Two faces are the same person when their distance is strictly below
      this. */
  const Tolerance: real := 0.5

  // ---------------------------------------------------------------------
  // Image types

  /** How LoadImage obtains the pixels of an accepted file. */
  datatype Loader = DlibLoad | ConvertHeicThenLoad

  const SupportedExtensions: set<string> := {".jpg", ".jpeg", ".png", ".bmp", ".heic", ".heif"}

  /** LoadImage's switch on the lower-cased extension. */
  function LoadImage(extension: string): (r: Result<Loader, Exception>)
    ensures r.Success? <==> extension in SupportedExtensions
    ensures r.Success? ==> (r.value == ConvertHeicThenLoad <==> extension == ".heic" || extension == ".heif")
    ensures r.Failure? ==> r.error == NotSupported(extension)
  {
    if extension == ".jpg" || extension == ".jpeg" || extension == ".png" || extension == ".bmp" then
      Success(DlibLoad)
    else if extension == ".heic" || extension == ".heif" then
      Success(ConvertHeicThenLoad)
    else
      Failure(NotSupported(extension))
  }

  /** The extension EncodeFaces dispatches on. */
  function ImageExtension(blobName: string): string
  {
    ToLower(GetExtension(blobName))
  }

  /** EncodeFaces: the descriptors of the faces in a supported image, or
      NotSupportedException for any other file. */
  function EncodeFaces(blobName: string, encoder: Encoder): (r: Result<seq<Embedding>, Exception>)
    ensures r.Success? <==> ImageExtension(blobName) in SupportedExtensions
    ensures r.Success? ==> r.value == encoder(blobName)
    ensures r.Failure? ==> r.error == NotSupported(ImageExtension(blobName))
  {
    match LoadImage(ImageExtension(blobName))
    case Success(_) => Success(encoder(blobName))
    case Failure(e) => Failure(e)
  }

  lemma LowerCasedExtensions()
    ensures ToLower(".JPG") == ".jpg" && ToLower(".gif") == ".gif" && ToLower(".heic") == ".heic"
  {
    assert ToLower(".JPG") == ".jpg";
    assert ToLower(".gif") == ".gif";
    assert ToLower(".heic") == ".heic";
  }

  /** The dispatch ignores case. */
  lemma UpperCaseExtensionLoads(path: string, encoder: Encoder)
    requires GetExtension(path) == ".JPG"
    ensures EncodeFaces(path, encoder) == Success(encoder(path))
  {
    LowerCasedExtensions();
  }

  lemma GifIsRejected(path: string, encoder: Encoder)
    requires GetExtension(path) == ".gif"
    ensures EncodeFaces(path, encoder) == Failure(NotSupported(".gif"))
  {
    LowerCasedExtensions();
  }

  lemma HeicIsConverted(path: string, encoder: Encoder)
    requires GetExtension(path) == ".heic"
    ensures LoadImage(ImageExtension(path)) == Success(ConvertHeicThenLoad)
    ensures EncodeFaces(path, encoder) == Success(encoder(path))
  {
    LowerCasedExtensions();
  }

  /** Only the last extension counts: "x.jpg.gif" is rejected and
      "x.docx.heic" is loaded, whatever comes before the last '.'. */
  lemma LastExtensionRejects(stem: string, encoder: Encoder)
    ensures EncodeFaces(stem + ".gif", encoder) == Failure(NotSupported(".gif"))
  {
    FinalExtension(stem, ".gif");
    GifIsRejected(stem + ".gif", encoder);
  }

  lemma LastExtensionLoads(stem: string, encoder: Encoder)
    ensures EncodeFaces(stem + ".heic", encoder) == Success(encoder(stem + ".heic"))
  {
    FinalExtension(stem, ".heic");
    HeicIsConverted(stem + ".heic", encoder);
  }

  /** A name without an extension, or ending in '.', is rejected with an
      empty extension in the message. */
  lemma NoExtensionIsRejected(path: string, encoder: Encoder)
    requires '.' !in path || (path != [] && path[|path| - 1] == '.')
    ensures EncodeFaces(path, encoder) == Failure(NotSupported(""))
  {
    if '.' !in path {
      NoDotNoExtension(path);
    } else {
      TrailingDotNoExtension(path);
    }
  }

  // ---------------------------------------------------------------------
  // The matching rule

  /** Some stored descriptor is within tolerance of `query`. */
  predicate AnyWithin(query: Embedding, stored: seq<Embedding>, distance: Distance)
  {
    exists k :: 0 <= k < |stored| && distance(query, stored[k]) < Tolerance
  }

  /** A gallery name IdentifyFaces reports: some query face is within
      tolerance of some descriptor stored under it. */
  predicate Recognised(name: string, queries: seq<Embedding>, gallery: Gallery, distance: Distance)
    requires gallery.Valid()
  {
    name in gallery.entries
    && exists u :: 0 <= u < |queries| && AnyWithin(queries[u], gallery.entries[name], distance)
  }

  /** `names` lists every recognised name exactly once and nothing else. */
  ghost predicate ReportsRecognised(names: seq<string>, queries: seq<Embedding>, gallery: Gallery, distance: Distance)
    requires gallery.Valid()
  {
    Distinct(names) && forall name :: name in names <==> Recognised(name, queries, gallery, distance)
  }

  /** HashSet<string>.Add, keeping the set in insertion order (the order
      in which a HashSet from which nothing is removed enumerates). */
  function AddName(names: seq<string>, name: string): (r: seq<string>)
    ensures name in r
    ensures forall x :: x in r <==> x in names || x == name
    ensures Distinct(names) ==> Distinct(r)
  {
    if name in names then names else names + [name]
  }

  /** The set after one query face has been compared with the first `n`
      names of the gallery, in enumeration order. */
  function AddMatchesOfQuery(names: seq<string>, query: Embedding, gallery: Gallery, distance: Distance, n: nat): seq<string>
    requires gallery.Valid() && n <= |gallery.keys|
  {
    if n == 0 then names
    else
      var before := AddMatchesOfQuery(names, query, gallery, distance, n - 1);
      var name := gallery.keys[n - 1];
      if AnyWithin(query, gallery.entries[name], distance) then AddName(before, name) else before
  }

  /** The HashSet IdentifyFaces builds, in insertion order: query after
      query, gallery name after gallery name. */
  function MatchOrder(queries: seq<Embedding>, gallery: Gallery, distance: Distance): seq<string>
    requires gallery.Valid()
  {
    if queries == [] then []
    else
      AddMatchesOfQuery(MatchOrder(queries[..|queries| - 1], gallery, distance),
                        queries[|queries| - 1], gallery, distance, |gallery.keys|)
  }

  /** One query adds exactly the names among the first `n` it is within
      tolerance of, and never a name twice. */
  lemma {:induction false} AddMatchesOfQueryMeaning(names: seq<string>, query: Embedding, gallery: Gallery, distance: Distance, n: nat)
    requires gallery.Valid() && n <= |gallery.keys| && Distinct(names)
    ensures Distinct(AddMatchesOfQuery(names, query, gallery, distance, n))
    ensures forall x :: x in AddMatchesOfQuery(names, query, gallery, distance, n) <==>
      x in names || (x in gallery.keys[..n] && AnyWithin(query, gallery.entries[x], distance))
  {
    if n > 0 {
      AddMatchesOfQueryMeaning(names, query, gallery, distance, n - 1);
      assert gallery.keys[..n] == gallery.keys[..n - 1] + [gallery.keys[n - 1]];
    }
  }

  /** IdentifyFaces reports exactly the recognised names, each once. */
  lemma {:induction false} MatchOrderMeaning(queries: seq<Embedding>, gallery: Gallery, distance: Distance)
    requires gallery.Valid()
    ensures Distinct(MatchOrder(queries, gallery, distance))
    ensures forall name :: name in MatchOrder(queries, gallery, distance) <==> Recognised(name, queries, gallery, distance)
  {
    if queries != [] {
      var init := queries[..|queries| - 1];
      var last := queries[|queries| - 1];
      MatchOrderMeaning(init, gallery, distance);
      AddMatchesOfQueryMeaning(MatchOrder(init, gallery, distance), last, gallery, distance, |gallery.keys|);
      assert gallery.keys[..|gallery.keys|] == gallery.keys;
      forall name
        ensures name in MatchOrder(queries, gallery, distance) <==> Recognised(name, queries, gallery, distance)
      {
        if Recognised(name, queries, gallery, distance) {
          var u :| 0 <= u < |queries| && AnyWithin(queries[u], gallery.entries[name], distance);
          if u < |queries| - 1 {
            assert init[u] == queries[u];
          }
        }
        if Recognised(name, init, gallery, distance) {
          var u :| 0 <= u < |init| && AnyWithin(init[u], gallery.entries[name], distance);
          assert queries[u] == init[u];
        }
      }
    }
  }

  lemma AnyWithinSnoc(query: Embedding, stored: seq<Embedding>, s: nat, distance: Distance)
    requires s < |stored|
    ensures AnyWithin(query, stored[..s + 1], distance) <==>
      AnyWithin(query, stored[..s], distance) || distance(query, stored[s]) < Tolerance
  {
    assert stored[..s + 1][s] == stored[s];
    assert forall k :: 0 <= k < s ==> stored[..s + 1][k] == stored[..s][k];
  }

  /** IdentifyFaces: every query face is compared with every descriptor of
      every gallery name, and a name is added when one comparison is
      strictly within tolerance. */
  method IdentifyFaces(unknownEncodings: seq<Embedding>, knownFaces: Gallery, distance: Distance)
    returns (matchedNames: seq<string>)
    requires knownFaces.Valid()
    ensures matchedNames == MatchOrder(unknownEncodings, knownFaces, distance)
    ensures ReportsRecognised(matchedNames, unknownEncodings, knownFaces, distance)
  {
    matchedNames := [];
    for u := 0 to |unknownEncodings|
      invariant matchedNames == MatchOrder(unknownEncodings[..u], knownFaces, distance)
    {
      var query := unknownEncodings[u];
      ghost var beforeQuery := matchedNames;
      for n := 0 to |knownFaces.keys|
        invariant matchedNames == AddMatchesOfQuery(beforeQuery, query, knownFaces, distance, n)
      {
        var name := knownFaces.keys[n];
        var stored := knownFaces.entries[name];
        ghost var beforeName := matchedNames;
        for s := 0 to |stored|
          invariant matchedNames == if AnyWithin(query, stored[..s], distance) then AddName(beforeName, name) else beforeName
        {
          AnyWithinSnoc(query, stored, s, distance);
          if distance(query, stored[s]) < Tolerance {
            matchedNames := AddName(matchedNames, name);
          }
        }
        assert stored[..|stored|] == stored;
      }
      assert unknownEncodings[..u + 1][..u] == unknownEncodings[..u];
    }
    IdentifiedNames(matchedNames, unknownEncodings, knownFaces, distance);
  }

  /** What the loops of IdentifyFaces have built once every face is seen. */
  lemma IdentifiedNames(matchedNames: seq<string>, queries: seq<Embedding>, gallery: Gallery, distance: Distance)
    requires gallery.Valid()
    requires matchedNames == MatchOrder(queries[..|queries|], gallery, distance)
    ensures matchedNames == MatchOrder(queries, gallery, distance)
    ensures ReportsRecognised(matchedNames, queries, gallery, distance)
  {
    assert queries[..|queries|] == queries;
    MatchOrderMeaning(queries, gallery, distance);
  }

  // ---------------------------------------------------------------------
  // Consequences of the rule

  /** Only gallery names are reported. */
  lemma MatchesAreGalleryNames(queries: seq<Embedding>, gallery: Gallery, distance: Distance)
    requires gallery.Valid()
    ensures forall name :: name in MatchOrder(queries, gallery, distance) ==> name in gallery.keys
  {
    MatchOrderMeaning(queries, gallery, distance);
  }

  /** No faces, or an empty gallery, report nobody. */
  lemma {:induction false} NothingToMatch(queries: seq<Embedding>, gallery: Gallery, distance: Distance)
    requires gallery.Valid() && (queries == [] || gallery.keys == [])
    ensures MatchOrder(queries, gallery, distance) == []
  {
    if queries != [] {
      NothingToMatch(queries[..|queries| - 1], gallery, distance);
    }
  }

  /** The tolerance is strict: a name whose every descriptor is at
      distance 0.5 or more from every query face is not reported. */
  lemma ToleranceIsStrict(queries: seq<Embedding>, gallery: Gallery, distance: Distance, name: string)
    requires gallery.Valid() && name in gallery.entries
    requires forall u, k :: 0 <= u < |queries| && 0 <= k < |gallery.entries[name]| ==>
      distance(queries[u], gallery.entries[name][k]) >= Tolerance
    ensures name !in MatchOrder(queries, gallery, distance)
  {
    MatchOrderMeaning(queries, gallery, distance);
  }

  /** Adding query faces, or adding descriptors under gallery names, never
      removes a name from the result. */
  lemma MatchesGrow(queries: seq<Embedding>, moreQueries: seq<Embedding>,
                    gallery: Gallery, larger: Gallery, distance: Distance)
    requires gallery.Valid() && larger.Valid()
    requires forall u :: 0 <= u < |queries| ==> queries[u] in moreQueries
    requires forall name :: name in gallery.entries ==> name in larger.entries
    requires forall name, k :: name in gallery.entries && 0 <= k < |gallery.entries[name]| ==>
      name in larger.entries && gallery.entries[name][k] in larger.entries[name]
    ensures forall name :: name in MatchOrder(queries, gallery, distance) ==> name in MatchOrder(moreQueries, larger, distance)
  {
    MatchOrderMeaning(queries, gallery, distance);
    MatchOrderMeaning(moreQueries, larger, distance);
    forall name | name in MatchOrder(queries, gallery, distance)
      ensures Recognised(name, moreQueries, larger, distance)
    {
      assert Recognised(name, queries, gallery, distance);
      var u :| 0 <= u < |queries| && AnyWithin(queries[u], gallery.entries[name], distance);
      var k :| 0 <= k < |gallery.entries[name]| && distance(queries[u], gallery.entries[name][k]) < Tolerance;
      var u' :| 0 <= u' < |moreQueries| && moreQueries[u'] == queries[u];
      var k' :| 0 <= k' < |larger.entries[name]| && larger.entries[name][k'] == gallery.entries[name][k];
      assert AnyWithin(moreQueries[u'], larger.entries[name], distance);
    }
  }
}
