/** Program.Main, the script's actual entry point. It repeats the
    pipeline of PhotoProcessor inline, with three differences of policy:
    the gallery is rebuilt from the training photos alone on every run
    (nothing is loaded from or saved to the KnownFaces table) and keeps
    only names whose photos showed a face; each query face is matched to
    the first gallery name within tolerance, so a name can be listed once
    per face; and a filed photo gets its metadata row first, then is
    copied, unconverted, to Processed/photo_<n>.jpg and deleted. */
module Program {
  import opened Wrappers
  import opened Numerics
  import opened Paths
  import opened EmbeddingCodec
  import opened Dictionaries
  import opened FaceRecognition
  import opened BlobStorage
  import opened ImageService
  import opened Effects
  import opened PhotoProcessing

  // =====================================================================
  // Training

  /** One iteration of Main's training loop: a key without a second path
      segment is skipped unread; otherwise the faces found in its photo,
      if any, are appended under its name, creating the entry first. */
  function LearnOne(knownFaces: Gallery, key: string, nameOf: NameOf, encode: Encode): (r: Result<Gallery, Exception>)
    requires knownFaces.Valid()
    ensures r.Success? ==> r.value.Valid()
  {
    match nameOf(key)
    case None => Success(knownFaces)
    case Some(name) =>
      match encode(key)
      case Failure(e) => Failure(e)
      case Success(encodings) =>
        if |encodings| > 0 then
          var withEntry := if name in knownFaces.entries then knownFaces else knownFaces.Set(name, []);
          Success(withEntry.Set(name, withEntry.entries[name] + encodings))
        else Success(knownFaces)
  }

  /** Main's training loop over a listing, from an empty gallery: the
      gallery, or the exception of the first key that throws. */
  function LearnWith(listing: seq<string>, nameOf: NameOf, encode: Encode): (r: Result<Gallery, Exception>)
    ensures r.Success? ==> r.value.Valid()
  {
    if listing == [] then Success(Empty())
    else
      match LearnWith(listing[..|listing| - 1], nameOf, encode)
      case Failure(e) => Failure(e)
      case Success(before) => LearnOne(before, listing[|listing| - 1], nameOf, encode)
  }

  /** The training loop with the real name rule (the second segment of the
      key, as GetNameFromBlobItem) and the real face encoder. */
  function Learned(listing: seq<string>, encoder: Encoder): (r: Result<Gallery, Exception>)
    ensures r.Success? ==> r.value.Valid()
  {
    LearnWith(listing, GetNameFromBlobItem, Encoding(encoder))
  }

  /** A training key that ends Main with an exception: it has a name and
      its photo cannot be loaded. */
  predicate LearningThrows(key: string, nameOf: NameOf, encode: Encode)
  {
    nameOf(key).Some? && encode(key).Failure?
  }

  /** One key: it throws exactly when LearningThrows says so; otherwise
      only its own name can change, and only by gaining its faces. */
  lemma LearnOneMeaning(knownFaces: Gallery, key: string, nameOf: NameOf, encode: Encode)
    requires knownFaces.Valid()
    ensures LearnOne(knownFaces, key, nameOf, encode).Success? <==> !LearningThrows(key, nameOf, encode)
    ensures LearnOne(knownFaces, key, nameOf, encode).Success? ==>
      var r := LearnOne(knownFaces, key, nameOf, encode).value;
      var extra := if nameOf(key).Some? && encode(key).Success? then encode(key).value else [];
      forall name ::
        && (name in r.entries <==> name in knownFaces.entries || (nameOf(key) == Some(name) && extra != []))
        && Lookup(r, name) == Lookup(knownFaces, name) + (if nameOf(key) == Some(name) then extra else [])
  {
  }

  /** Once a key throws, the rest of the listing is not looked at. */
  lemma {:induction false} LearnFailureSticks(listing: seq<string>, i: nat, nameOf: NameOf, encode: Encode)
    requires i <= |listing|
    requires LearnWith(listing[..i], nameOf, encode).Failure?
    ensures LearnWith(listing, nameOf, encode) == LearnWith(listing[..i], nameOf, encode)
  {
    if i < |listing| {
      var init := listing[..|listing| - 1];
      assert init[..i] == listing[..i];
      LearnFailureSticks(init, i, nameOf, encode);
      assert LearnWith(init, nameOf, encode).Failure?;
    } else {
      assert listing[..i] == listing;
    }
  }

  /** Training succeeds exactly when no key of the listing throws. */
  lemma {:induction false} LearnSucceedsIff(listing: seq<string>, nameOf: NameOf, encode: Encode)
    ensures LearnWith(listing, nameOf, encode).Success? <==>
      forall k :: k in listing ==> !LearningThrows(k, nameOf, encode)
  {
    if listing != [] {
      var init := listing[..|listing| - 1];
      var key := listing[|listing| - 1];
      assert listing == init + [key];
      LearnSucceedsIff(init, nameOf, encode);
      var before := LearnWith(init, nameOf, encode);
      if before.Failure? {
        var k :| k in init && LearningThrows(k, nameOf, encode);
        assert k in listing;
      } else {
        LearnOneMeaning(before.value, key, nameOf, encode);
      }
    }
  }

  /** After a successful training, every name holds the faces its photos
      yielded, in listing order, and a name is in the gallery exactly when
      that list is not empty. */
  lemma {:induction false} LearnEntry(listing: seq<string>, nameOf: NameOf, encode: Encode, name: string)
    requires LearnWith(listing, nameOf, encode).Success?
    ensures Lookup(LearnWith(listing, nameOf, encode).value, name) == EncodingsOf(name, listing, nameOf, encode)
    ensures name in LearnWith(listing, nameOf, encode).value.entries <==> EncodingsOf(name, listing, nameOf, encode) != []
  {
    if listing != [] {
      var init := listing[..|listing| - 1];
      var key := listing[|listing| - 1];
      var before := LearnWith(init, nameOf, encode);
      assert before.Success?;
      LearnEntry(init, nameOf, encode, name);
      LearnOneMeaning(before.value, key, nameOf, encode);
      var extra := if nameOf(key) == Some(name) && encode(key).Success? then encode(key).value else [];
      assert EncodingsOf(name, listing, nameOf, encode) == EncodingsOf(name, init, nameOf, encode) + extra;
    }
  }

  /** One more key of the listing is one more LearnOne, until a key
      throws. */
  lemma LearnStep(listing: seq<string>, i: nat, nameOf: NameOf, encode: Encode)
    requires i < |listing|
    requires LearnWith(listing[..i], nameOf, encode).Success?
    ensures LearnWith(listing[..i + 1], nameOf, encode)
      == LearnOne(LearnWith(listing[..i], nameOf, encode).value, listing[i], nameOf, encode)
  {
    assert listing[..i + 1][..i] == listing[..i];
  }

  /** Main's training loop (the `await foreach` over TrainingPhotos/):
      the gallery built from the listing, or the exception that ends Main. */
  method LearnKnownFaces(trainingListing: seq<string>, encoder: Encoder)
    returns (result: Result<Gallery, Exception>)
    ensures result == Learned(trainingListing, encoder)
  {
    var nameOf, encode := GetNameFromBlobItem, Encoding(encoder);
    var knownFaces := Empty();
    for i := 0 to |trainingListing|
      invariant knownFaces.Valid()
      invariant LearnWith(trainingListing[..i], nameOf, encode) == Success(knownFaces)
    {
      var key := trainingListing[i];
      LearnStep(trainingListing, i, nameOf, encode);
      ghost var next := LearnOne(knownFaces, key, nameOf, encode);
      var name := GetNameFromBlobItem(key);
      if name.None? {
        assert next == Success(knownFaces);
        continue;
      }
      var encodings := EncodeFaces(key, encoder);
      if encodings.Failure? {
        assert next == Failure(encodings.error);
        LearnFailureSticks(trainingListing, i + 1, nameOf, encode);
        return Failure(encodings.error);
      }
      assert encode(key) == encodings;
      if |encodings.value| > 0 {
        if name.value !in knownFaces.entries {
          knownFaces := knownFaces.Set(name.value, []);
        }
        knownFaces := knownFaces.Set(name.value, knownFaces.entries[name.value] + encodings.value);
      }
      assert next == Success(knownFaces);
    }
    assert trainingListing[..|trainingListing|] == trainingListing;
    return Success(knownFaces);
  }

  // =====================================================================
  // Matching one face

  /** The first gallery name, in enumeration order from position `i`, with
      a descriptor strictly within tolerance of `query`. */
  function FirstMatchFrom(query: Embedding, gallery: Gallery, distance: Distance, i: nat): Option<string>
    requires gallery.Valid() && i <= |gallery.keys|
    decreases |gallery.keys| - i
  {
    if i == |gallery.keys| then None
    else if AnyWithin(query, gallery.entries[gallery.keys[i]], distance) then Some(gallery.keys[i])
    else FirstMatchFrom(query, gallery, distance, i + 1)
  }

  /** The name IdentifyFace returns for `query`, None standing for null. */
  function FirstMatch(query: Embedding, gallery: Gallery, distance: Distance): Option<string>
    requires gallery.Valid()
  {
    FirstMatchFrom(query, gallery, distance, 0)
  }

  lemma {:induction false} FirstMatchFromMeaning(query: Embedding, gallery: Gallery, distance: Distance, i: nat)
    requires gallery.Valid() && i <= |gallery.keys|
    decreases |gallery.keys| - i
    ensures FirstMatchFrom(query, gallery, distance, i).None? <==>
      forall j :: i <= j < |gallery.keys| ==> !AnyWithin(query, gallery.entries[gallery.keys[j]], distance)
    ensures FirstMatchFrom(query, gallery, distance, i).Some? ==>
      exists j :: i <= j < |gallery.keys| && gallery.keys[j] == FirstMatchFrom(query, gallery, distance, i).value
        && AnyWithin(query, gallery.entries[gallery.keys[j]], distance)
        && forall l :: i <= l < j ==> !AnyWithin(query, gallery.entries[gallery.keys[l]], distance)
  {
    if i < |gallery.keys| && !AnyWithin(query, gallery.entries[gallery.keys[i]], distance) {
      FirstMatchFromMeaning(query, gallery, distance, i + 1);
    }
  }

  /** IdentifyFace returns null exactly when no stored descriptor of any
      name is strictly within tolerance of the query; otherwise it returns
      the first name, in enumeration order, that has one. */
  lemma FirstMatchMeaning(query: Embedding, gallery: Gallery, distance: Distance)
    requires gallery.Valid()
    ensures FirstMatch(query, gallery, distance).None? <==>
      forall name :: name in gallery.entries ==> !AnyWithin(query, gallery.entries[name], distance)
    ensures FirstMatch(query, gallery, distance).Some? ==>
      exists j :: 0 <= j < |gallery.keys| && gallery.keys[j] == FirstMatch(query, gallery, distance).value
        && AnyWithin(query, gallery.entries[gallery.keys[j]], distance)
        && forall l :: 0 <= l < j ==> !AnyWithin(query, gallery.entries[gallery.keys[l]], distance)
  {
    FirstMatchFromMeaning(query, gallery, distance, 0);
    if FirstMatch(query, gallery, distance).None? {
      forall name | name in gallery.entries
        ensures !AnyWithin(query, gallery.entries[name], distance)
      {
        var j :| 0 <= j < |gallery.keys| && gallery.keys[j] == name;
      }
    }
  }

  /** IdentifyFace: the first name, in dictionary order, one of whose
      descriptors is strictly within tolerance of the query. */
  method IdentifyFace(unknownEncoding: Embedding, knownFaces: Gallery, distance: Distance)
    returns (matchedName: Option<string>)
    requires knownFaces.Valid()
    ensures matchedName == FirstMatch(unknownEncoding, knownFaces, distance)
  {
    for i := 0 to |knownFaces.keys|
      invariant FirstMatchFrom(unknownEncoding, knownFaces, distance, i) == FirstMatch(unknownEncoding, knownFaces, distance)
    {
      var name := knownFaces.keys[i];
      var stored := knownFaces.entries[name];
      for j := 0 to |stored|
        invariant forall l :: 0 <= l < j ==> distance(unknownEncoding, stored[l]) >= Tolerance
      {
        if distance(unknownEncoding, stored[j]) < Tolerance {
          assert AnyWithin(unknownEncoding, stored, distance);
          return Some(name);
        }
      }
    }
    return None;
  }

  // =====================================================================
  // The names of a photo

  /** The names matched to one face: its first match, or nothing. */
  function MatchOfFace(query: Embedding, gallery: Gallery, distance: Distance): seq<string>
    requires gallery.Valid()
  {
    match FirstMatch(query, gallery, distance)
    case None => []
    case Some(name) => [name]
  }

  /** The matchedNames list of Main: face after face, the name each one
      matches, repeats included. */
  function MatchedNames(queries: seq<Embedding>, gallery: Gallery, distance: Distance): seq<string>
    requires gallery.Valid()
  {
    if queries == [] then []
    else
      MatchedNames(queries[..|queries| - 1], gallery, distance)
        + MatchOfFace(queries[|queries| - 1], gallery, distance)
  }

  /** The faces of a photo can be matched in any grouping: the list for
      two runs of faces is the two lists one after the other. */
  lemma {:induction false} MatchedNamesAppend(queries: seq<Embedding>, more: seq<Embedding>, gallery: Gallery, distance: Distance)
    requires gallery.Valid()
    ensures MatchedNames(queries + more, gallery, distance)
      == MatchedNames(queries, gallery, distance) + MatchedNames(more, gallery, distance)
  {
    if more == [] {
      assert queries + more == queries;
    } else {
      var init := more[..|more| - 1];
      assert (queries + more)[..|queries + more| - 1] == queries + init;
      MatchedNamesAppend(queries, init, gallery, distance);
    }
  }

  /** Every listed name is a gallery name IdentifyFaces would report too. */
  lemma {:induction false} MatchedNamesAreRecognised(queries: seq<Embedding>, gallery: Gallery, distance: Distance)
    requires gallery.Valid()
    ensures forall name :: name in MatchedNames(queries, gallery, distance) ==> Recognised(name, queries, gallery, distance)
  {
    if queries != [] {
      var init := queries[..|queries| - 1];
      var last := queries[|queries| - 1];
      MatchedNamesAreRecognised(init, gallery, distance);
      FirstMatchMeaning(last, gallery, distance);
      forall name | name in MatchedNames(queries, gallery, distance)
        ensures Recognised(name, queries, gallery, distance)
      {
        if name in MatchedNames(init, gallery, distance) {
          var u :| 0 <= u < |init| && AnyWithin(init[u], gallery.entries[name], distance);
          assert queries[u] == init[u];
        } else {
          var j :| 0 <= j < |gallery.keys| && gallery.keys[j] == name
            && AnyWithin(last, gallery.entries[gallery.keys[j]], distance);
          assert queries[|queries| - 1] == last;
        }
      }
    }
  }

  /** Main lists nobody for a photo exactly when IdentifyFaces would
      report nobody: both matchers see the same faces, they only differ in
      how many names they take per face. */
  lemma {:induction false} NoMatchIffNoRecognition(queries: seq<Embedding>, gallery: Gallery, distance: Distance)
    requires gallery.Valid()
    ensures MatchedNames(queries, gallery, distance) == [] <==> MatchOrder(queries, gallery, distance) == []
  {
    MatchOrderMeaning(queries, gallery, distance);
    MatchedNamesAreRecognised(queries, gallery, distance);
    var names := MatchedNames(queries, gallery, distance);
    if names != [] {
      assert names[0] in names;
    }
    if MatchOrder(queries, gallery, distance) != [] {
      var name := MatchOrder(queries, gallery, distance)[0];
      assert Recognised(name, queries, gallery, distance);
      var u :| 0 <= u < |queries| && AnyWithin(queries[u], gallery.entries[name], distance);
      FirstMatchMeaning(queries[u], gallery, distance);
      MatchedFaceIsListed(queries, gallery, distance, u);
    }
  }

  /** A face that matches some name puts a name on the list. */
  lemma {:induction false} MatchedFaceIsListed(queries: seq<Embedding>, gallery: Gallery, distance: Distance, u: nat)
    requires gallery.Valid() && u < |queries|
    requires FirstMatch(queries[u], gallery, distance).Some?
    ensures MatchedNames(queries, gallery, distance) != []
  {
    var init := queries[..|queries| - 1];
    var names := MatchedNames(queries, gallery, distance);
    assert names == MatchedNames(init, gallery, distance) + MatchOfFace(queries[|queries| - 1], gallery, distance);
    if u < |queries| - 1 {
      assert init[u] == queries[u];
      MatchedFaceIsListed(init, gallery, distance, u);
    }
  }

  /** A face seen twice is listed twice: the list is not a set. */
  lemma RepeatedFaceIsListedTwice(name: string, face: Embedding, distance: Distance)
    requires distance(face, face) < Tolerance
    ensures MatchedNames([face, face], Dict([name], map[name := [face]]), distance) == [name, name]
  {
    var gallery := Dict([name], map[name := [face]]);
    assert gallery.Valid();
    assert AnyWithin(face, gallery.entries[name], distance) by {
      assert gallery.entries[name][0] == face;
    }
    assert FirstMatchFrom(face, gallery, distance, 0) == Some(name);
    assert MatchOfFace(face, gallery, distance) == [name];
    assert [face][..0] == [];
    assert MatchedNames([face], gallery, distance) == [name];
    assert [face, face][..1] == [face];
    assert MatchedNames([face, face], gallery, distance) == MatchedNames([face], gallery, distance) + [name];
  }

  /** The inner `foreach` of Main over the faces of a photo. */
  method MatchFaces(unknownEncodings: seq<Embedding>, knownFaces: Gallery, distance: Distance)
    returns (matchedNames: seq<string>)
    requires knownFaces.Valid()
    ensures matchedNames == MatchedNames(unknownEncodings, knownFaces, distance)
  {
    matchedNames := [];
    for u := 0 to |unknownEncodings|
      invariant matchedNames == MatchedNames(unknownEncodings[..u], knownFaces, distance)
    {
      assert unknownEncodings[..u + 1][..u] == unknownEncodings[..u];
      var matchedName := IdentifyFace(unknownEncodings[u], knownFaces, distance);
      if matchedName.Some? {
        matchedNames := matchedNames + [matchedName.value];
      }
    }
    assert unknownEncodings[..|unknownEncodings|] == unknownEncodings;
  }

  // =====================================================================
  // Unprocessed photos

  /** `$"photo_{++currentMaxPhotoNumber}.jpg"`: Main keeps the name's
      extension fixed at ".jpg" whatever the photo's type. */
  function CopiedBlobName(number: int): string
  {
    PhotoName(number, ".jpg")
  }

  /** The three writes with which Main files one photo, in order: the
      metadata row, the server-side copy to Processed/, and the deletion
      of the original. */
  function MainPhotoEffects(knownFaces: Gallery, key: string, number: int, services: Services): (effects: seq<Effect>)
    requires knownFaces.Valid()
    ensures |effects| == 3
    ensures effects[0].SavePhotoMetaData? && effects[0].metaData.photoName == CopiedBlobName(number)
    ensures effects[0].metaData.blobUrl == ProcessedUrl(services.containerUri, CopiedBlobName(number))
    ensures effects[0].metaData.peopleIdentified == Join(", ", MatchedNames(services.encoder(key), knownFaces, services.distance))
    ensures effects[0].metaData.dateTaken == services.dateTaken(key)
    ensures effects[1] == StartCopy(ProcessedKey(CopiedBlobName(number)), key)
    ensures effects[2] == DeleteBlob(key)
  {
    var newBlobName := CopiedBlobName(number);
    var newBlobUrl := ProcessedUrl(services.containerUri, newBlobName);
    var matchedNames := MatchedNames(services.encoder(key), knownFaces, services.distance);
    [SavePhotoMetaData(PhotoMetaData(Join(", ", matchedNames), newBlobName, newBlobUrl, services.dateTaken(key))),
     StartCopy("Processed/" + newBlobName, key),
     DeleteBlob(key)]
  }

  /** MainPhotoEffects with the gallery and the collaborators fixed. */
  ghost function MainWrites(knownFaces: Gallery, services: Services): (writes: Writes)
    requires knownFaces.Valid()
    ensures forall key, number :: |writes(key, number)| == 3
  {
    (key, number) => MainPhotoEffects(knownFaces, key, number, services)
  }

  /** The writes of a photo Main files, spelled out. */
  lemma MainWritesAre(knownFaces: Gallery, services: Services, key: string, number: int)
    requires knownFaces.Valid()
    ensures var newBlobName := CopiedBlobName(number);
      MainWrites(knownFaces, services)(key, number)
        == [SavePhotoMetaData(PhotoMetaData(Join(", ", MatchedNames(services.encoder(key), knownFaces, services.distance)),
                                            newBlobName, ProcessedUrl(services.containerUri, newBlobName),
                                            services.dateTaken(key))),
            StartCopy("Processed/" + newBlobName, key),
            DeleteBlob(key)]
  {
  }

  /** Main's unprocessed loop: the same classification of keys as
      ProcessUnprocessedPhotos, with Main's writes. */
  ghost function MainProcess(knownFaces: Gallery, listing: seq<string>, counter: int, services: Services): Progress
    requires knownFaces.Valid()
  {
    ProcessWith(listing, counter, Kinds(services.encoder), MainWrites(knownFaces, services))
  }

  /** Main's unprocessed loop (the `await foreach` over Unprocessed/): the
      writes, the last photo number used, and the exception that ends
      Main, if any. */
  method FileUnprocessedPhotos(unprocessedListing: seq<string>, knownFaces: Gallery, services: Services,
                               currentMaxPhotoNumber: int)
    returns (effects: seq<Effect>, counter: int, failure: Option<Exception>)
    requires knownFaces.Valid()
    ensures Progress(effects, counter, failure) == MainProcess(knownFaces, unprocessedListing, currentMaxPhotoNumber, services)
  {
    ghost var kindOf, writes := Kinds(services.encoder), MainWrites(knownFaces, services);
    effects, counter, failure := [], currentMaxPhotoNumber, None;
    for i := 0 to |unprocessedListing|
      invariant ProcessWith(unprocessedListing[..i], currentMaxPhotoNumber, kindOf, writes) == Progress(effects, counter, None)
    {
      var key := unprocessedListing[i];
      ghost var before := ProcessWith(unprocessedListing[..i], currentMaxPhotoNumber, kindOf, writes);
      NextStep(unprocessedListing, i, currentMaxPhotoNumber, kindOf, writes);
      if IsUnsupportedFileType(key) {
        assert kindOf(key) == Skipped;
        continue;
      }
      var unknownEncodings := EncodeFaces(key, services.encoder);
      if unknownEncodings.Failure? {
        failure := Some(unknownEncodings.error);
        assert kindOf(key) == Throws(unknownEncodings.error);
        FailureSticks(unprocessedListing, i + 1, currentMaxPhotoNumber, kindOf, writes);
        return;
      }
      if |unknownEncodings.value| == 0 {
        assert kindOf(key) == Skipped;
        continue;
      }
      assert kindOf(key) == Photo;
      var matchedNames := MatchFaces(unknownEncodings.value, knownFaces, services.distance);
      var dateTaken := services.dateTaken(key);
      counter := Increment(counter);
      var newBlobName := CopiedBlobName(counter);
      var newBlobUrl := ProcessedUrl(services.containerUri, newBlobName);
      var metaData := PhotoMetaData(Join(", ", matchedNames), newBlobName, newBlobUrl, dateTaken);
      MainWritesAre(knownFaces, services, key, counter);
      assert ProcessWith(unprocessedListing[..i + 1], currentMaxPhotoNumber, kindOf, writes)
        == Progress(before.effects + writes(key, counter), counter, None);
      effects := effects + [SavePhotoMetaData(metaData), StartCopy("Processed/" + newBlobName, key), DeleteBlob(key)];
    }
    assert unprocessedListing[..|unprocessedListing|] == unprocessedListing;
  }

  /** When no key throws, the i-th photo Main files (from 0) is number
      Advance(m, i + 1) from the starting maximum m: its three writes sit
      at positions 3i to 3i + 2, and the counter ends at the last number
      used. */
  lemma MainFilesInOrder(knownFaces: Gallery, listing: seq<string>, counter: int, services: Services, i: nat)
    requires knownFaces.Valid()
    requires forall k :: k in listing ==> !KindOf(k, services.encoder).Throws?
    requires i < |FiledKeys(listing, Kinds(services.encoder))|
    ensures var p := MainProcess(knownFaces, listing, counter, services);
      var keys := FiledKeys(listing, Kinds(services.encoder));
      && p.failure == None
      && p.counter == Advance(counter, |keys|)
      && |p.effects| == 3 * |keys|
      && p.effects[3 * i..3 * i + 3] == MainPhotoEffects(knownFaces, keys[i], Advance(counter, i + 1), services)
  {
    var kindOf, writes := Kinds(services.encoder), MainWrites(knownFaces, services);
    FilesInOrder(listing, counter, kindOf, writes);
    NumberedEffectsAt(FiledKeys(listing, kindOf), counter, writes, i);
  }

  /** ".jpg" is a final extension: a dot, then no dot and no '/'. */
  lemma JpgIsAnExtension()
    ensures |".jpg"| >= 1 && ".jpg"[0] == '.' && '/' !in ".jpg" && '.' !in ".jpg"[1..]
  {
    assert ".jpg"[1..] == "jpg";
  }

  /** The names Main gives its photos are new in Processed/, as long as
      the counter does not wrap. */
  lemma CopiedKeysAreFresh(processedListing: seq<string>, i: nat)
    requires MaxPhotoNumber(processedListing) + i + 1 <= Int32Max
    ensures ProcessedKey(CopiedBlobName(Advance(MaxPhotoNumber(processedListing), i + 1))) !in processedListing
  {
    var m := MaxPhotoNumber(processedListing);
    MaxInRange(processedListing);
    AdvanceWithoutOverflow(m, i + 1);
    JpgIsAnExtension();
    var n := Advance(m, i + 1);
    assert n == m + i + 1;
    FreshAboveMax(processedListing, n, ".jpg");
    assert ProcessedKey(CopiedBlobName(n)) !in processedListing;
  }

  /** No two of fewer than 2^32 photos Main files in a run get the same
      name, even when the counter wraps. */
  lemma CopiedNamesDistinct(m: int, i: nat, j: nat)
    requires InInt32(m) && i < j && j - i < 0x1_0000_0000
    ensures CopiedBlobName(Advance(m, i)) != CopiedBlobName(Advance(m, j))
  {
    AdvanceDistinct(m, i, j);
    if CopiedBlobName(Advance(m, i)) == CopiedBlobName(Advance(m, j)) {
      PhotoNameInjective(Advance(m, i), Advance(m, j), ".jpg");
    }
  }

  // =====================================================================
  // The entry point

  /** Main: scan Processed/ for the highest number, build the gallery
      from TrainingPhotos/, then file the photos of Unprocessed/ against
      it. An exception in training ends the run before anything is
      written. */
  method RunScript(processedListing: seq<string>, trainingListing: seq<string>, unprocessedListing: seq<string>,
                   services: Services)
    returns (effects: seq<Effect>, failure: Option<Exception>)
    ensures match Learned(trainingListing, services.encoder)
      case Failure(e) => effects == [] && failure == Some(e)
      case Success(knownFaces) =>
        var p := MainProcess(knownFaces, unprocessedListing, MaxPhotoNumber(processedListing), services);
        effects == p.effects && failure == p.failure
  {
    var currentMaxPhotoNumber := GetCurrentMaxPhotoNumber(processedListing);
    var knownFaces := LearnKnownFaces(trainingListing, services.encoder);
    if knownFaces.Failure? {
      return [], Some(knownFaces.error);
    }
    var counter;
    effects, counter, failure := FileUnprocessedPhotos(unprocessedListing, knownFaces.value, services, currentMaxPhotoNumber);
  }
}
