/** PhotoProcessor, the service-based pipeline: learn the faces of new
    people from TrainingPhotos/, save them, then file every photo of
    Unprocessed/ under Processed/photo_<n>.webp with a metadata row naming
    the people recognised in it. */
module PhotoProcessing {
  import opened Wrappers
  import opened Numerics
  import opened Paths
  import opened EmbeddingCodec
  import opened Dictionaries
  import opened FaceRecognition
  import opened BlobStorage
  import opened ImageService
  import opened Effects

  // =====================================================================
  // Training

  /** How a training key names its person: the second path segment. */
  type NameOf = string -> Option<string>

  /** How a training key's photo is loaded and searched for faces. */
  type Encode = string -> Result<seq<Embedding>, Exception>

  /** EncodeFaces with the encoder fixed. */
  function Encoding(encoder: Encoder): Encode
  {
    key => EncodeFaces(key, encoder)
  }

  /** Dictionary lookup with an empty list for a missing name. */
  function Lookup(d: Gallery, name: string): seq<Embedding>
  {
    if name in d.entries then d.entries[name] else []
  }

  /** The descriptors the training photos of `name` yield, in listing order
      (a key whose photo cannot be loaded yields none). */
  function EncodingsOf(name: string, listing: seq<string>, nameOf: NameOf, encode: Encode): seq<Embedding>
  {
    if listing == [] then []
    else
      var key := listing[|listing| - 1];
      EncodingsOf(name, listing[..|listing| - 1], nameOf, encode)
        + (if nameOf(key) == Some(name) && encode(key).Success? then encode(key).value else [])
  }

  /** A training key that ends the run with an exception: it has no name,
      so ContainsKey(null) throws; or it names a new person and loading
      its photo fails. */
  predicate TrainingThrows(knownFaces: Gallery, key: string, nameOf: NameOf, encode: Encode)
  {
    match nameOf(key)
    case None => true
    case Some(name) => name !in knownFaces.entries && encode(key).Failure?
  }

  /** One iteration of ProcessTrainingPhotos: skip a known name, otherwise
      make sure the name has an entry and append the faces found. */
  function TrainOne(knownFaces: Gallery, newEncodings: Gallery, key: string, nameOf: NameOf, encode: Encode): (r: Result<Gallery, Exception>)
    requires newEncodings.Valid()
    ensures r.Success? ==> r.value.Valid()
  {
    match nameOf(key)
    case None => Failure(ArgumentNull)
    case Some(name) =>
      if name in knownFaces.entries then Success(newEncodings)
      else
        var withEntry := if name in newEncodings.entries then newEncodings else newEncodings.Set(name, []);
        match encode(key)
        case Failure(e) => Failure(e)
        case Success(encodings) =>
          if |encodings| > 0 then Success(withEntry.Set(name, withEntry.entries[name] + encodings))
          else Success(withEntry)
  }

  /** ProcessTrainingPhotos over a listing: the updated newEncodings, or
      the exception of the first key that throws. */
  function TrainWith(knownFaces: Gallery, newEncodings: Gallery, listing: seq<string>, nameOf: NameOf, encode: Encode): (r: Result<Gallery, Exception>)
    requires newEncodings.Valid()
    ensures r.Success? ==> r.value.Valid()
  {
    if listing == [] then Success(newEncodings)
    else
      match TrainWith(knownFaces, newEncodings, listing[..|listing| - 1], nameOf, encode)
      case Failure(e) => Failure(e)
      case Success(before) => TrainOne(knownFaces, before, listing[|listing| - 1], nameOf, encode)
  }

  /** Training with the real name parser and face encoder. */
  function Train(knownFaces: Gallery, newEncodings: Gallery, listing: seq<string>, encoder: Encoder): (r: Result<Gallery, Exception>)
    requires newEncodings.Valid()
    ensures r.Success? ==> r.value.Valid()
  {
    TrainWith(knownFaces, newEncodings, listing, GetNameFromBlobItem, Encoding(encoder))
  }

  /** One training key: it throws exactly when TrainingThrows says so;
      otherwise a new name gets an entry (even when no face is found) and
      its faces are appended, and nothing else changes. */
  lemma TrainOneMeaning(knownFaces: Gallery, newEncodings: Gallery, key: string, nameOf: NameOf, encode: Encode)
    requires newEncodings.Valid()
    ensures TrainOne(knownFaces, newEncodings, key, nameOf, encode).Success? <==> !TrainingThrows(knownFaces, key, nameOf, encode)
    ensures TrainOne(knownFaces, newEncodings, key, nameOf, encode).Success? ==>
      var r := TrainOne(knownFaces, newEncodings, key, nameOf, encode).value;
      && (forall name :: name in r.entries <==>
            name in newEncodings.entries || (name !in knownFaces.entries && nameOf(key) == Some(name)))
      && (forall name :: name in r.entries && name !in knownFaces.entries ==>
            r.entries[name] == Lookup(newEncodings, name) + (if nameOf(key) == Some(name) && encode(key).Success? then encode(key).value else []))
      && (forall name :: name in r.entries && name in knownFaces.entries ==> r.entries[name] == newEncodings.entries[name])
  {
    var r := TrainOne(knownFaces, newEncodings, key, nameOf, encode);
    if r.Success? {
      var n := nameOf(key).value;
      if n in knownFaces.entries {
        assert r.value == newEncodings;
      } else {
        TrainOneNewName(knownFaces, newEncodings, key, nameOf, encode);
        var extra := encode(key).value;
        assert r.value.entries == newEncodings.entries[n := Lookup(newEncodings, n) + extra];
        forall name | name in r.value.entries && name !in knownFaces.entries
          ensures r.value.entries[name] == Lookup(newEncodings, name) + (if nameOf(key) == Some(name) && encode(key).Success? then encode(key).value else [])
        {
          if name != n {
            assert Lookup(newEncodings, name) + [] == Lookup(newEncodings, name);
          }
        }
      }
    }
  }

  /** The names one training key leaves in newEncodings. */
  lemma TrainOneKeys(knownFaces: Gallery, newEncodings: Gallery, key: string, nameOf: NameOf, encode: Encode, name: string)
    requires newEncodings.Valid()
    requires TrainOne(knownFaces, newEncodings, key, nameOf, encode).Success?
    ensures name in TrainOne(knownFaces, newEncodings, key, nameOf, encode).value.entries <==>
      name in newEncodings.entries || (name !in knownFaces.entries && nameOf(key) == Some(name))
  {
    var n := nameOf(key).value;
    if n !in knownFaces.entries {
      TrainOneNewName(knownFaces, newEncodings, key, nameOf, encode);
    }
  }

  /** A key that names a new person and whose photo loads stores the
      entry of that person followed by the faces found. */
  lemma TrainOneNewName(knownFaces: Gallery, newEncodings: Gallery, key: string, nameOf: NameOf, encode: Encode)
    requires newEncodings.Valid()
    requires nameOf(key).Some? && nameOf(key).value !in knownFaces.entries && encode(key).Success?
    ensures TrainOne(knownFaces, newEncodings, key, nameOf, encode).Success?
    ensures TrainOne(knownFaces, newEncodings, key, nameOf, encode).value.entries
      == newEncodings.entries[nameOf(key).value := Lookup(newEncodings, nameOf(key).value) + encode(key).value]
  {
    var n := nameOf(key).value;
    var encodings := encode(key).value;
    var withEntry := if n in newEncodings.entries then newEncodings else newEncodings.Set(n, []);
    assert withEntry.entries == newEncodings.entries[n := Lookup(newEncodings, n)];
    if |encodings| == 0 {
      assert Lookup(newEncodings, n) + encodings == Lookup(newEncodings, n);
    }
  }

  /** Once a key throws, the rest of the listing is not looked at. */
  lemma {:induction false} TrainFailureSticks(knownFaces: Gallery, newEncodings: Gallery, listing: seq<string>, i: nat, nameOf: NameOf, encode: Encode)
    requires newEncodings.Valid() && i <= |listing|
    requires TrainWith(knownFaces, newEncodings, listing[..i], nameOf, encode).Failure?
    ensures TrainWith(knownFaces, newEncodings, listing, nameOf, encode) == TrainWith(knownFaces, newEncodings, listing[..i], nameOf, encode)
  {
    if i < |listing| {
      var init := listing[..|listing| - 1];
      assert init[..i] == listing[..i];
      TrainFailureSticks(knownFaces, newEncodings, init, i, nameOf, encode);
      assert TrainWith(knownFaces, newEncodings, init, nameOf, encode).Failure?;
    } else {
      assert listing[..i] == listing;
    }
  }

  /** Some key of the listing names `name`. */
  ghost predicate Names(listing: seq<string>, name: string, nameOf: NameOf)
  {
    exists k :: k in listing && nameOf(k) == Some(name)
  }

  lemma NamesLast(listing: seq<string>, name: string, nameOf: NameOf)
    requires listing != []
    ensures Names(listing, name, nameOf) <==>
      Names(listing[..|listing| - 1], name, nameOf) || nameOf(listing[|listing| - 1]) == Some(name)
  {
    var init, key := listing[..|listing| - 1], listing[|listing| - 1];
    assert listing == init + [key];
    if Names(listing, name, nameOf) {
      var k :| k in listing && nameOf(k) == Some(name);
      if k != key {
        assert k in init;
      }
    }
    if Names(init, name, nameOf) {
      var k :| k in init && nameOf(k) == Some(name);
      assert k in listing;
    }
  }

  /** Training succeeds exactly when no key of the listing throws. */
  lemma {:induction false} TrainSucceedsIff(knownFaces: Gallery, newEncodings: Gallery, listing: seq<string>, nameOf: NameOf, encode: Encode)
    requires newEncodings.Valid()
    ensures TrainWith(knownFaces, newEncodings, listing, nameOf, encode).Success? <==>
      forall k :: k in listing ==> !TrainingThrows(knownFaces, k, nameOf, encode)
  {
    if listing != [] {
      var init := listing[..|listing| - 1];
      var key := listing[|listing| - 1];
      assert listing == init + [key];
      TrainSucceedsIff(knownFaces, newEncodings, init, nameOf, encode);
      var before := TrainWith(knownFaces, newEncodings, init, nameOf, encode);
      if before.Failure? {
        var k :| k in init && TrainingThrows(knownFaces, k, nameOf, encode);
        assert k in listing;
      } else {
        TrainOneMeaning(knownFaces, before.value, key, nameOf, encode);
      }
    }
  }

  /** The last key of a successful training run is applied to the
      outcome of the keys before it. */
  lemma TrainLast(knownFaces: Gallery, newEncodings: Gallery, listing: seq<string>, nameOf: NameOf, encode: Encode)
    requires newEncodings.Valid() && listing != []
    requires TrainWith(knownFaces, newEncodings, listing, nameOf, encode).Success?
    ensures TrainWith(knownFaces, newEncodings, listing[..|listing| - 1], nameOf, encode).Success?
    ensures TrainWith(knownFaces, newEncodings, listing, nameOf, encode)
      == TrainOne(knownFaces, TrainWith(knownFaces, newEncodings, listing[..|listing| - 1], nameOf, encode).value, listing[|listing| - 1], nameOf, encode)
  {
  }

  /** A successful training gives exactly the new names of the listing an
      entry, even when none of their photos shows a face. */
  lemma {:induction false} TrainKey(knownFaces: Gallery, newEncodings: Gallery, listing: seq<string>, nameOf: NameOf, encode: Encode, name: string)
    requires newEncodings.Valid()
    requires TrainWith(knownFaces, newEncodings, listing, nameOf, encode).Success?
    ensures name in TrainWith(knownFaces, newEncodings, listing, nameOf, encode).value.entries <==>
      name in newEncodings.entries || (name !in knownFaces.entries && Names(listing, name, nameOf))
  {
    if listing == [] {
      assert !Names(listing, name, nameOf);
    } else {
      var init := listing[..|listing| - 1];
      var key := listing[|listing| - 1];
      TrainLast(knownFaces, newEncodings, listing, nameOf, encode);
      var before := TrainWith(knownFaces, newEncodings, init, nameOf, encode).value;
      TrainKey(knownFaces, newEncodings, init, nameOf, encode, name);
      TrainOneKeys(knownFaces, before, key, nameOf, encode, name);
      NamesLast(listing, name, nameOf);
    }
  }

  /** A name no key of the listing names gets no descriptors from it. */
  lemma {:induction false} UnnamedHasNoEncodings(name: string, listing: seq<string>, nameOf: NameOf, encode: Encode)
    requires !Names(listing, name, nameOf)
    ensures EncodingsOf(name, listing, nameOf, encode) == []
  {
    if listing != [] {
      var init := listing[..|listing| - 1];
      NamesLast(listing, name, nameOf);
      UnnamedHasNoEncodings(name, init, nameOf, encode);
    }
  }

  /** One key appends its faces to the entry of the new name it names. */
  lemma TrainOneValue(knownFaces: Gallery, newEncodings: Gallery, key: string, nameOf: NameOf, encode: Encode, name: string)
    requires newEncodings.Valid()
    requires TrainOne(knownFaces, newEncodings, key, nameOf, encode).Success?
    requires name in TrainOne(knownFaces, newEncodings, key, nameOf, encode).value.entries && name !in knownFaces.entries
    ensures TrainOne(knownFaces, newEncodings, key, nameOf, encode).value.entries[name]
      == Lookup(newEncodings, name) + (if nameOf(key) == Some(name) && encode(key).Success? then encode(key).value else [])
  {
  }

  lemma AppendAssociates(a: seq<Embedding>, b: seq<Embedding>, c: seq<Embedding>)
    ensures (a + b) + c == a + (b + c)
  {
  }

  /** A successful training gives a new name its faces in listing order. */
  lemma {:induction false} TrainValue(knownFaces: Gallery, newEncodings: Gallery, listing: seq<string>, nameOf: NameOf, encode: Encode, name: string)
    requires newEncodings.Valid()
    requires TrainWith(knownFaces, newEncodings, listing, nameOf, encode).Success?
    requires name in TrainWith(knownFaces, newEncodings, listing, nameOf, encode).value.entries && name !in knownFaces.entries
    ensures TrainWith(knownFaces, newEncodings, listing, nameOf, encode).value.entries[name]
      == Lookup(newEncodings, name) + EncodingsOf(name, listing, nameOf, encode)
  {
    if listing != [] {
      var init := listing[..|listing| - 1];
      var key := listing[|listing| - 1];
      TrainLast(knownFaces, newEncodings, listing, nameOf, encode);
      var before := TrainWith(knownFaces, newEncodings, init, nameOf, encode).value;
      var extra := if nameOf(key) == Some(name) && encode(key).Success? then encode(key).value else [];
      TrainOneValue(knownFaces, before, key, nameOf, encode, name);
      assert EncodingsOf(name, listing, nameOf, encode) == EncodingsOf(name, init, nameOf, encode) + extra;
      if name in before.entries {
        TrainValue(knownFaces, newEncodings, init, nameOf, encode, name);
        var stored, trained := Lookup(newEncodings, name), EncodingsOf(name, init, nameOf, encode);
        assert Lookup(before, name) == stored + trained;
        AppendAssociates(stored, trained, extra);
      } else {
        TrainKey(knownFaces, newEncodings, init, nameOf, encode, name);
        UnnamedHasNoEncodings(name, init, nameOf, encode);
      }
    }
  }

  /** A successful training leaves the entries of names already known as
      they were. */
  lemma {:induction false} TrainKeepsKnown(knownFaces: Gallery, newEncodings: Gallery, listing: seq<string>, nameOf: NameOf, encode: Encode)
    requires newEncodings.Valid()
    requires TrainWith(knownFaces, newEncodings, listing, nameOf, encode).Success?
    ensures var r := TrainWith(knownFaces, newEncodings, listing, nameOf, encode).value;
      forall name :: name in newEncodings.entries && name in knownFaces.entries ==>
        name in r.entries && r.entries[name] == newEncodings.entries[name]
  {
    if listing != [] {
      var init := listing[..|listing| - 1];
      TrainLast(knownFaces, newEncodings, listing, nameOf, encode);
      TrainKeepsKnown(knownFaces, newEncodings, init, nameOf, encode);
      TrainOneMeaning(knownFaces, TrainWith(knownFaces, newEncodings, init, nameOf, encode).value, listing[|listing| - 1], nameOf, encode);
    }
  }

  /** The names the keys of a listing introduce, in the order of their
      first occurrence: a key's name is listed unless it is in `skip` or
      an earlier key already named it. */
  function FirstNamed(listing: seq<string>, nameOf: NameOf, skip: set<string>): seq<string>
  {
    if listing == [] then []
    else
      var name := nameOf(listing[0]);
      if name.Some? && name.value !in skip then [name.value] + FirstNamed(listing[1..], nameOf, skip + {name.value})
      else FirstNamed(listing[1..], nameOf, skip)
  }

  lemma NamesFirst(listing: seq<string>, name: string, nameOf: NameOf)
    requires listing != []
    ensures Names(listing, name, nameOf) <==> nameOf(listing[0]) == Some(name) || Names(listing[1..], name, nameOf)
  {
    if Names(listing, name, nameOf) {
      var k :| k in listing && nameOf(k) == Some(name);
      if k != listing[0] {
        var i :| 0 <= i < |listing| && listing[i] == k;
        assert listing[1..][i - 1] == k;
      }
    }
    if Names(listing[1..], name, nameOf) {
      var k :| k in listing[1..] && nameOf(k) == Some(name);
      assert k in listing;
    }
  }

  /** The names listed are exactly those some key names, less `skip`. */
  lemma {:induction false} FirstNamedMembers(listing: seq<string>, nameOf: NameOf, skip: set<string>, n: string)
    ensures n in FirstNamed(listing, nameOf, skip) <==> n !in skip && Names(listing, n, nameOf)
  {
    if listing == [] {
      assert !Names(listing, n, nameOf);
    } else {
      NamesFirst(listing, n, nameOf);
      var name := nameOf(listing[0]);
      if name.Some? && name.value !in skip {
        FirstNamedMembers(listing[1..], nameOf, skip + {name.value}, n);
      } else {
        FirstNamedMembers(listing[1..], nameOf, skip, n);
      }
    }
  }

  /** One more key at the end lists its name last, if it is new. */
  lemma {:induction false} FirstNamedSnoc(listing: seq<string>, key: string, nameOf: NameOf, skip: set<string>)
    ensures var before := FirstNamed(listing, nameOf, skip);
      var name := nameOf(key);
      FirstNamed(listing + [key], nameOf, skip)
        == before + (if name.Some? && name.value !in skip && name.value !in before then [name.value] else [])
  {
    if listing == [] {
      assert listing + [key] == [key];
      assert [key][1..] == [];
    } else {
      var all := listing + [key];
      assert all[0] == listing[0];
      assert all[1..] == listing[1..] + [key];
      var name := nameOf(listing[0]);
      if name.Some? && name.value !in skip {
        FirstNamedSnoc(listing[1..], key, nameOf, skip + {name.value});
      } else {
        FirstNamedSnoc(listing[1..], key, nameOf, skip);
      }
    }
  }

  /** FirstNamedSnoc for the last key of a listing. */
  lemma FirstNamedLast(listing: seq<string>, nameOf: NameOf, skip: set<string>)
    requires listing != []
    ensures var before := FirstNamed(listing[..|listing| - 1], nameOf, skip);
      var name := nameOf(listing[|listing| - 1]);
      FirstNamed(listing, nameOf, skip)
        == before + (if name.Some? && name.value !in skip && name.value !in before then [name.value] else [])
  {
    assert listing == listing[..|listing| - 1] + [listing[|listing| - 1]];
    FirstNamedSnoc(listing[..|listing| - 1], listing[|listing| - 1], nameOf, skip);
  }

  /** One successful key appends its name to the enumeration order exactly
      when the name is new to both the loaded gallery and newEncodings. */
  lemma TrainOneOrder(knownFaces: Gallery, newEncodings: Gallery, key: string, nameOf: NameOf, encode: Encode)
    requires newEncodings.Valid()
    requires TrainOne(knownFaces, newEncodings, key, nameOf, encode).Success?
    ensures nameOf(key).Some?
    ensures var n := nameOf(key).value;
      TrainOne(knownFaces, newEncodings, key, nameOf, encode).value.keys
        == newEncodings.keys + (if n !in knownFaces.entries && n !in newEncodings.entries then [n] else [])
  {
  }

  /** newEncodings enumerates its old names, then the names the listing
      introduces in the order they first occur in it. */
  lemma {:induction false} TrainKeysOrder(knownFaces: Gallery, newEncodings: Gallery, listing: seq<string>, nameOf: NameOf, encode: Encode)
    requires newEncodings.Valid()
    requires TrainWith(knownFaces, newEncodings, listing, nameOf, encode).Success?
    ensures TrainWith(knownFaces, newEncodings, listing, nameOf, encode).value.keys
      == newEncodings.keys + FirstNamed(listing, nameOf, knownFaces.entries.Keys + newEncodings.entries.Keys)
  {
    var skip := knownFaces.entries.Keys + newEncodings.entries.Keys;
    if listing == [] {
      assert newEncodings.keys + [] == newEncodings.keys;
    } else {
      var init, key := listing[..|listing| - 1], listing[|listing| - 1];
      TrainLast(knownFaces, newEncodings, listing, nameOf, encode);
      var before := TrainWith(knownFaces, newEncodings, init, nameOf, encode).value;
      var first := FirstNamed(init, nameOf, skip);
      TrainKeysOrder(knownFaces, newEncodings, init, nameOf, encode);
      TrainOneOrder(knownFaces, before, key, nameOf, encode);
      FirstNamedLast(listing, nameOf, skip);
      OrderStep(knownFaces, newEncodings, before, first, nameOf(key).value);
    }
  }

  /** A key whose name is new to `before` extends its order the way it
      extends the order of first occurrences. */
  lemma OrderStep(knownFaces: Gallery, newEncodings: Gallery, before: Gallery, first: seq<string>, n: string)
    requires newEncodings.Valid() && before.Valid() && before.keys == newEncodings.keys + first
    ensures before.keys + (if n !in knownFaces.entries && n !in before.entries then [n] else [])
      == newEncodings.keys + (first + (if n !in knownFaces.entries.Keys + newEncodings.entries.Keys && n !in first then [n] else []))
  {
    assert n in before.entries <==> n in newEncodings.keys || n in first;
    var extra := if n !in knownFaces.entries && n !in before.entries then [n] else [];
    assert newEncodings.keys + first + extra == newEncodings.keys + (first + extra);
  }

  /** The training of a run enumerates the new names in the order they
      first occur in the training listing; that is the order in which
      they are saved. */
  lemma TrainOrder(knownFaces: Gallery, listing: seq<string>, encoder: Encoder)
    requires Train(knownFaces, Empty(), listing, encoder).Success?
    ensures Train(knownFaces, Empty(), listing, encoder).value.keys
      == FirstNamed(listing, GetNameFromBlobItem, knownFaces.entries.Keys)
  {
    var empty: Gallery := Empty();
    TrainKeysOrder(knownFaces, empty, listing, GetNameFromBlobItem, Encoding(encoder));
    assert knownFaces.entries.Keys + empty.entries.Keys == knownFaces.entries.Keys;
    assert empty.keys + FirstNamed(listing, GetNameFromBlobItem, knownFaces.entries.Keys)
      == FirstNamed(listing, GetNameFromBlobItem, knownFaces.entries.Keys);
  }

  // =====================================================================
  // Unprocessed photos

  /** The new name of the photo numbered `number`. */
  function NewBlobName(number: int): string
  {
    PhotoName(number, ".webp")
  }

  /** The three writes that file one photo, in order: the converted upload,
      the metadata row, and the deletion of the original. */
  function PhotoEffects(knownFaces: Gallery, key: string, number: int, services: Services): (effects: seq<Effect>)
    requires knownFaces.Valid()
    ensures |effects| == 3
    ensures effects[0] == UploadConverted(ProcessedKey(NewBlobName(number)), key)
    ensures effects[1].SavePhotoMetaData? && effects[1].metaData.photoName == NewBlobName(number)
    ensures effects[1].metaData.blobUrl == BlobUrl(services.containerUri, ProcessedKey(NewBlobName(number)))
    ensures effects[1].metaData.peopleIdentified == Join(", ", MatchOrder(services.encoder(key), knownFaces, services.distance))
    ensures effects[1].metaData.dateTaken == services.dateTaken(key)
    ensures effects[2] == DeleteBlob(key)
  {
    var newBlobName := NewBlobName(number);
    var upload := UploadConvertedBlob(services.containerUri, newBlobName);
    var matchedNames := MatchOrder(services.encoder(key), knownFaces, services.distance);
    var metaData := PhotoMetaData(Join(", ", matchedNames), newBlobName, upload.url, services.dateTaken(key));
    [UploadConverted(upload.key, key), SavePhotoMetaData(metaData), DeleteBlob(key)]
  }

  /** What ProcessUnprocessedPhotos does with a key: skip it (a .docx, or
      a photo without a face), stop with an exception, or file it. */
  datatype KeyKind = Skipped | Throws(error: Exception) | Photo

  /** The kind of an Unprocessed/ key, decided by the .docx test and by
      EncodeFaces. */
  function KindOf(key: string, encoder: Encoder): KeyKind
  {
    if IsUnsupportedFileType(key) then Skipped
    else
      match EncodeFaces(key, encoder)
      case Failure(e) => Throws(e)
      case Success(unknownEncodings) => if |unknownEncodings| == 0 then Skipped else Photo
  }

  /** A .docx is skipped before it is downloaded; any other file is filed
      when EncodeFaces finds a face in it, skipped when it finds none, and
      ends the run with NotSupportedException when its type is not one
      LoadImage accepts. */
  lemma KindOfMeaning(key: string, encoder: Encoder)
    ensures KindOf(key, encoder) == Photo <==>
      !IsUnsupportedFileType(key) && ImageExtension(key) in SupportedExtensions && |encoder(key)| > 0
    ensures KindOf(key, encoder).Throws? <==>
      !IsUnsupportedFileType(key) && ImageExtension(key) !in SupportedExtensions
    ensures KindOf(key, encoder).Throws? ==> KindOf(key, encoder).error == NotSupported(ImageExtension(key))
    ensures IsUnsupportedFileType(key) ==> KindOf(key, encoder) == Skipped
  {
  }

  /** What a filed key writes, given its number. */
  type Writes = (string, int) -> seq<Effect>

  /** PhotoEffects with the gallery and the collaborators fixed. */
  ghost function PhotoWrites(knownFaces: Gallery, services: Services): (writes: Writes)
    requires knownFaces.Valid()
    ensures forall key, number :: |writes(key, number)| == 3
  {
    (key, number) => PhotoEffects(knownFaces, key, number, services)
  }

  /** Where the unprocessed phase stands: the writes so far, the photo
      counter, and the exception that ended it, if any. */
  datatype Progress = Progress(effects: seq<Effect>, counter: int, failure: Option<Exception>)

  /** One iteration of ProcessUnprocessedPhotos: a filed key takes the
      next number (`++currentMaxPhotoNumber`) and writes. */
  function Step(p: Progress, key: string, kind: KeyKind, writes: Writes): Progress
  {
    match kind
    case Skipped => p
    case Throws(e) => Progress(p.effects, p.counter, Some(e))
    case Photo =>
      var number := Increment(p.counter);
      Progress(p.effects + writes(key, number), number, p.failure)
  }

  /** The writes of a filed key, spelled out. */
  lemma PhotoWritesAre(knownFaces: Gallery, services: Services, key: string, number: int)
    requires knownFaces.Valid()
    ensures var newBlobName := NewBlobName(number);
      var key' := ProcessedKey(newBlobName);
      PhotoWrites(knownFaces, services)(key, number)
        == [UploadConverted(key', key),
            SavePhotoMetaData(PhotoMetaData(Join(", ", MatchOrder(services.encoder(key), knownFaces, services.distance)),
                                            newBlobName, BlobUrl(services.containerUri, key'), services.dateTaken(key))),
            DeleteBlob(key)]
  {
  }

  lemma AppendThree(log: seq<Effect>, done: seq<Effect>, a: Effect, b: Effect, c: Effect)
    ensures log + done + [a] + [b] + [c] == log + (done + [a, b, c])
  {
  }

  /** ProcessUnprocessedPhotos over a listing, from the photo counter
      `counter`: it stops at the first key that throws. */
  function ProcessWith(listing: seq<string>, counter: int, kindOf: string -> KeyKind, writes: Writes): Progress
  {
    if listing == [] then Progress([], counter, None)
    else
      var before := ProcessWith(listing[..|listing| - 1], counter, kindOf, writes);
      if before.failure.Some? then before
      else Step(before, listing[|listing| - 1], kindOf(listing[|listing| - 1]), writes)
  }

  /** KindOf with the encoder fixed. */
  function Kinds(encoder: Encoder): string -> KeyKind
  {
    key => KindOf(key, encoder)
  }

  /** The unprocessed phase with the real classification and writes. */
  ghost function ProcessAll(knownFaces: Gallery, listing: seq<string>, counter: int, services: Services): Progress
    requires knownFaces.Valid()
  {
    ProcessWith(listing, counter, Kinds(services.encoder), PhotoWrites(knownFaces, services))
  }

  /** One more key of the listing is one more Step, until a key throws. */
  lemma NextStep(listing: seq<string>, i: nat, counter: int, kindOf: string -> KeyKind, writes: Writes)
    requires i < |listing|
    requires ProcessWith(listing[..i], counter, kindOf, writes).failure.None?
    ensures ProcessWith(listing[..i + 1], counter, kindOf, writes)
      == Step(ProcessWith(listing[..i], counter, kindOf, writes), listing[i], kindOf(listing[i]), writes)
  {
    var prefix := listing[..i + 1];
    assert prefix[..i] == listing[..i];
    assert prefix[|prefix| - 1] == listing[i];
  }

  /** The keys of a listing that get filed, in listing order. */
  function FiledKeys(listing: seq<string>, kindOf: string -> KeyKind): (keys: seq<string>)
    ensures forall k :: k in keys ==> k in listing && kindOf(k) == Photo
  {
    if listing == [] then []
    else
      var key := listing[|listing| - 1];
      FiledKeys(listing[..|listing| - 1], kindOf) + (if kindOf(key) == Photo then [key] else [])
  }

  /** The reference numbering: the i-th filed key (from 0) becomes photo
      number Advance(start, i + 1), and its writes follow those of the
      keys before it. */
  function NumberedEffects(keys: seq<string>, start: int, writes: Writes): seq<Effect>
  {
    if keys == [] then []
    else NumberedEffects(keys[..|keys| - 1], start, writes) + writes(keys[|keys| - 1], Advance(start, |keys|))
  }

  /** With three writes per photo, those of the i-th filed key sit at
      positions 3i to 3i + 2. */
  lemma {:induction false} NumberedEffectsAt(keys: seq<string>, start: int, writes: Writes, i: nat)
    requires forall key, number :: |writes(key, number)| == 3
    requires i < |keys|
    ensures |NumberedEffects(keys, start, writes)| == 3 * |keys|
    ensures NumberedEffects(keys, start, writes)[3 * i..3 * i + 3] == writes(keys[i], Advance(start, i + 1))
  {
    var init := keys[..|keys| - 1];
    var before := NumberedEffects(init, start, writes);
    var last := writes(keys[|keys| - 1], Advance(start, |keys|));
    if i < |keys| - 1 {
      NumberedEffectsAt(init, start, writes, i);
      assert (before + last)[3 * i..3 * i + 3] == before[3 * i..3 * i + 3];
    } else {
      NumberedEffectsLength(init, start, writes);
      assert (before + last)[3 * i..3 * i + 3] == last;
    }
  }

  lemma {:induction false} NumberedEffectsLength(keys: seq<string>, start: int, writes: Writes)
    requires forall key, number :: |writes(key, number)| == 3
    ensures |NumberedEffects(keys, start, writes)| == 3 * |keys|
  {
    if keys != [] {
      NumberedEffectsLength(keys[..|keys| - 1], start, writes);
    }
  }

  /** When no key throws, the phase files exactly the filed keys, numbered
      by successive increments of the starting counter, and returns the
      last number used; skipped keys write nothing and consume no number. */
  lemma {:induction false} FilesInOrder(listing: seq<string>, counter: int, kindOf: string -> KeyKind, writes: Writes)
    requires forall k :: k in listing ==> !kindOf(k).Throws?
    ensures ProcessWith(listing, counter, kindOf, writes)
      == Progress(NumberedEffects(FiledKeys(listing, kindOf), counter, writes),
                  Advance(counter, |FiledKeys(listing, kindOf)|), None)
  {
    if listing != [] {
      var init := listing[..|listing| - 1];
      var key := listing[|listing| - 1];
      assert key in listing;
      assert forall k :: k in init ==> k in listing;
      FilesInOrder(init, counter, kindOf, writes);
      var keys := FiledKeys(init, kindOf);
      if kindOf(key) == Photo {
        assert FiledKeys(listing, kindOf) == keys + [key];
        PhotoStep(keys, key, counter, writes);
      } else {
        assert kindOf(key) == Skipped;
        assert ProcessWith(listing, counter, kindOf, writes) == ProcessWith(init, counter, kindOf, writes);
        assert FiledKeys(listing, kindOf) == keys + [];
        assert keys + [] == keys;
      }
    }
  }

  /** Filing one more key extends the reference numbering by one. */
  lemma PhotoStep(keys: seq<string>, key: string, counter: int, writes: Writes)
    ensures Step(Progress(NumberedEffects(keys, counter, writes), Advance(counter, |keys|), None), key, Photo, writes)
      == Progress(NumberedEffects(keys + [key], counter, writes), Advance(counter, |keys + [key]|), None)
  {
    assert (keys + [key])[..|keys|] == keys;
  }

  /** The phase ends with an exception exactly when some key throws. */
  lemma {:induction false} FailsIff(listing: seq<string>, counter: int, kindOf: string -> KeyKind, writes: Writes)
    ensures ProcessWith(listing, counter, kindOf, writes).failure.Some? <==>
      exists k :: k in listing && kindOf(k).Throws?
  {
    if listing != [] {
      var init := listing[..|listing| - 1];
      var key := listing[|listing| - 1];
      assert listing == init + [key];
      FailsIff(init, counter, kindOf, writes);
      if ProcessWith(init, counter, kindOf, writes).failure.Some? {
        var k :| k in init && kindOf(k).Throws?;
        assert k in listing;
      }
    }
  }

  /** Once a key throws, the rest of the listing is not looked at. */
  lemma {:induction false} FailureSticks(listing: seq<string>, i: nat, counter: int, kindOf: string -> KeyKind, writes: Writes)
    requires i <= |listing|
    requires ProcessWith(listing[..i], counter, kindOf, writes).failure.Some?
    ensures ProcessWith(listing, counter, kindOf, writes) == ProcessWith(listing[..i], counter, kindOf, writes)
  {
    if i < |listing| {
      var init := listing[..|listing| - 1];
      assert init[..i] == listing[..i];
      FailureSticks(init, i, counter, kindOf, writes);
      assert ProcessWith(init, counter, kindOf, writes).failure.Some?;
    } else {
      assert listing[..i] == listing;
    }
  }

  /** At the first key that throws, the phase stops with that key's
      exception, keeping the writes and the counter of the keys before
      it. */
  lemma StopsAtFirstThrow(listing: seq<string>, j: nat, counter: int, kindOf: string -> KeyKind, writes: Writes)
    requires j < |listing|
    requires kindOf(listing[j]).Throws?
    requires forall i :: 0 <= i < j ==> !kindOf(listing[i]).Throws?
    ensures var before := ProcessWith(listing[..j], counter, kindOf, writes);
      ProcessWith(listing, counter, kindOf, writes)
        == Progress(before.effects, before.counter, Some(kindOf(listing[j]).error))
  {
    var prefix := listing[..j + 1];
    assert prefix[..j] == listing[..j];
    FailsIff(listing[..j], counter, kindOf, writes);
    FailureSticks(listing, j + 1, counter, kindOf, writes);
  }

  // =====================================================================
  // Facts about a whole run

  /** A training key throws when it has no '/' (the name is null), or
      when it names a new person and its type is not one LoadImage
      accepts. */
  lemma TrainingThrowsMeaning(knownFaces: Gallery, key: string, encoder: Encoder)
    ensures TrainingThrows(knownFaces, key, GetNameFromBlobItem, Encoding(encoder)) <==>
      '/' !in key
      || (GetNameFromBlobItem(key).value !in knownFaces.entries && ImageExtension(key) !in SupportedExtensions)
  {
  }

  /** A key naming a person already in the gallery is skipped: nothing is
      encoded and newEncodings is unchanged. */
  lemma KnownNameIsSkipped(knownFaces: Gallery, newEncodings: Gallery, key: string, encoder: Encoder)
    requires newEncodings.Valid()
    requires GetNameFromBlobItem(key).Some? && GetNameFromBlobItem(key).value in knownFaces.entries
    ensures TrainOne(knownFaces, newEncodings, key, GetNameFromBlobItem, Encoding(encoder)) == Success(newEncodings)
  {
  }

  /** Training against a gallery that already knows every name of the
      listing changes nothing. */
  lemma {:induction false} AllKnownTrainsNothing(knownFaces: Gallery, newEncodings: Gallery, listing: seq<string>, nameOf: NameOf, encode: Encode)
    requires newEncodings.Valid()
    requires forall k :: k in listing ==> nameOf(k).Some? && nameOf(k).value in knownFaces.entries
    ensures TrainWith(knownFaces, newEncodings, listing, nameOf, encode) == Success(newEncodings)
  {
    if listing != [] {
      var init := listing[..|listing| - 1];
      assert forall k :: k in init ==> k in listing;
      AllKnownTrainsNothing(knownFaces, newEncodings, init, nameOf, encode);
      assert listing[|listing| - 1] in listing;
    }
  }

  /** Names trained in a run are new to the gallery loaded at its start,
      which is the gallery the unprocessed phase matches against: a person
      first trained in this run is not recognised in the same run. */
  lemma TrainedNamesAreNotMatched(knownFaces: Gallery, listing: seq<string>, encoder: Encoder,
                                  queries: seq<Embedding>, distance: Distance, name: string)
    requires knownFaces.Valid()
    requires Train(knownFaces, Empty(), listing, encoder).Success?
    requires name in Train(knownFaces, Empty(), listing, encoder).value.entries
    ensures name !in knownFaces.entries
    ensures name !in MatchOrder(queries, knownFaces, distance)
  {
    TrainKey(knownFaces, Empty(), listing, GetNameFromBlobItem, Encoding(encoder), name);
    MatchesAreGalleryNames(queries, knownFaces, distance);
  }

  /** Once a run has saved its new names, a later run over the same
      training listing finds every name known and trains nothing. */
  lemma SecondRunTrainsNothing(knownFaces: Gallery, listing: seq<string>, encoder: Encoder, reloaded: Gallery)
    requires Train(knownFaces, Empty(), listing, encoder).Success?
    requires forall name :: name in knownFaces.entries ==> name in reloaded.entries
    requires forall name :: name in Train(knownFaces, Empty(), listing, encoder).value.entries ==> name in reloaded.entries
    ensures Train(reloaded, Empty(), listing, encoder) == Success(Empty())
  {
    var nameOf, encode := GetNameFromBlobItem, Encoding(encoder);
    TrainSucceedsIff(knownFaces, Empty(), listing, nameOf, encode);
    forall k | k in listing
      ensures nameOf(k).Some? && nameOf(k).value in reloaded.entries
    {
      assert !TrainingThrows(knownFaces, k, nameOf, encode);
      var name := nameOf(k).value;
      assert Names(listing, name, nameOf);
      TrainKey(knownFaces, Empty(), listing, nameOf, encode, name);
    }
    AllKnownTrainsNothing(reloaded, Empty(), listing, nameOf, encode);
  }

  /** When no key throws, the i-th photo the phase files (from 0) is
      number Advance(m, i + 1) from the starting maximum m: its upload,
      metadata row and deletion sit at positions 3i to 3i + 2, and the
      returned counter is the last number used. */
  lemma ProcessedInOrder(knownFaces: Gallery, listing: seq<string>, counter: int, services: Services, i: nat)
    requires knownFaces.Valid()
    requires forall k :: k in listing ==> !KindOf(k, services.encoder).Throws?
    requires i < |FiledKeys(listing, Kinds(services.encoder))|
    ensures var p := ProcessAll(knownFaces, listing, counter, services);
      var keys := FiledKeys(listing, Kinds(services.encoder));
      && p.failure == None
      && p.counter == Advance(counter, |keys|)
      && |p.effects| == 3 * |keys|
      && p.effects[3 * i..3 * i + 3] == PhotoEffects(knownFaces, keys[i], Advance(counter, i + 1), services)
  {
    var kindOf, writes := Kinds(services.encoder), PhotoWrites(knownFaces, services);
    FilesInOrder(listing, counter, kindOf, writes);
    NumberedEffectsAt(FiledKeys(listing, kindOf), counter, writes, i);
  }

  /** ".webp" is a final extension: a dot, then no dot and no '/'. */
  lemma WebpIsAnExtension()
    ensures |".webp"| >= 1 && ".webp"[0] == '.' && '/' !in ".webp" && '.' !in ".webp"[1..]
  {
    assert ".webp"[1..] == "webp";
  }

  /** The scan's maximum is the highest photo number in Processed/, so
      the names a run gives its photos are new there, as long as the
      counter does not wrap. */
  lemma NewKeysAreFresh(processedListing: seq<string>, i: nat)
    requires MaxPhotoNumber(processedListing) + i + 1 <= Int32Max
    ensures ProcessedKey(NewBlobName(Advance(MaxPhotoNumber(processedListing), i + 1))) !in processedListing
  {
    var m := MaxPhotoNumber(processedListing);
    MaxInRange(processedListing);
    AdvanceWithoutOverflow(m, i + 1);
    WebpIsAnExtension();
    var n := Advance(m, i + 1);
    assert n == m + i + 1;
    FreshAboveMax(processedListing, n, ".webp");
    assert ProcessedKey(NewBlobName(n)) !in processedListing;
  }

  /** No two of fewer than 2^32 photos of a run get the same name: the
      counter wraps at Int32.MaxValue but does not repeat a value before
      2^32 increments. */
  lemma NewNamesDistinct(m: int, i: nat, j: nat)
    requires InInt32(m) && i < j && j - i < 0x1_0000_0000
    ensures NewBlobName(Advance(m, i)) != NewBlobName(Advance(m, j))
  {
    AdvanceDistinct(m, i, j);
    if NewBlobName(Advance(m, i)) == NewBlobName(Advance(m, j)) {
      PhotoNameInjective(Advance(m, i), Advance(m, j), ".webp");
    }
  }

  // =====================================================================
  // Saving the new encodings

  /** The writes of `foreach (var kvp in newEncodings) SaveKnownFaces(...)`
      over the names `keys` of `d`. */
  function SaveEffects(keys: seq<string>, d: Gallery): (effects: seq<Effect>)
    ensures |effects| == |keys|
  {
    if keys == [] then []
    else
      var key := keys[|keys| - 1];
      SaveEffects(keys[..|keys| - 1], d) + [SaveKnownFaces(key, Lookup(d, key))]
  }

  lemma {:induction false} SaveEffectsAt(keys: seq<string>, d: Gallery, i: nat)
    requires i < |keys|
    ensures SaveEffects(keys, d)[i] == SaveKnownFaces(keys[i], Lookup(d, keys[i]))
  {
    if i < |keys| - 1 {
      SaveEffectsAt(keys[..|keys| - 1], d, i);
    }
  }

  /** Every entry of newEncodings, the empty ones included, is saved
      exactly once, and nothing else is saved. */
  lemma SavedExactlyOnce(newEncodings: Gallery)
    requires newEncodings.Valid()
    ensures var effects := SaveEffects(newEncodings.keys, newEncodings);
      && (forall i :: 0 <= i < |effects| ==>
            effects[i].SaveKnownFaces? && effects[i].name in newEncodings.entries
            && effects[i].encodings == newEncodings.entries[effects[i].name])
      && (forall i, j :: 0 <= i < j < |effects| ==> effects[i].name != effects[j].name)
      && (forall name :: name in newEncodings.entries ==>
            exists i :: 0 <= i < |effects| && effects[i] == SaveKnownFaces(name, newEncodings.entries[name]))
  {
    var keys := newEncodings.keys;
    var effects := SaveEffects(keys, newEncodings);
    forall i | 0 <= i < |effects|
      ensures keys[i] in newEncodings.entries
      ensures effects[i] == SaveKnownFaces(keys[i], newEncodings.entries[keys[i]])
    {
      SaveEffectsAt(keys, newEncodings, i);
      assert keys[i] in keys;
    }
    forall name | name in newEncodings.entries
      ensures exists i :: 0 <= i < |effects| && effects[i] == SaveKnownFaces(name, newEncodings.entries[name])
    {
      var i :| 0 <= i < |keys| && keys[i] == name;
      assert effects[i] == SaveKnownFaces(name, newEncodings.entries[name]);
    }
  }

  /** The KnownFaces table after upserting the serialized descriptors of
      the names `keys` of `d`, in order. */
  function SavedTable(table: map<string, seq<Byte>>, keys: seq<string>, d: Gallery): map<string, seq<Byte>>
  {
    if keys == [] then table
    else
      var key := keys[|keys| - 1];
      SavedTable(table, keys[..|keys| - 1], d)[key := Serialized(Lookup(d, key))]
  }

  /** Upserting key by key leaves the old rows and the saved names, each
      saved name with the serialization of its entry and every other row
      untouched, whatever the order. */
  lemma {:induction false} SavedTableIsUnion(table: map<string, seq<Byte>>, keys: seq<string>, d: Gallery)
    ensures var saved := SavedTable(table, keys, d);
      && (forall k :: k in saved <==> k in table || k in keys)
      && (forall k :: k in keys ==> saved[k] == Serialized(Lookup(d, k)))
      && (forall k :: k in table && k !in keys ==> saved[k] == table[k])
  {
    if keys != [] {
      var init, key := keys[..|keys| - 1], keys[|keys| - 1];
      SavedTableIsUnion(table, init, d);
      assert keys == init + [key];
    }
  }

  /** The KnownFaces table `after` is `before` with every name of `d`
      upserted: its rows are those of `before` and the names of `d`, each
      name of `d` holds its serialized descriptors, and every other row is
      as it was. */
  ghost predicate Upserted(after: map<string, seq<Byte>>, before: map<string, seq<Byte>>, d: Gallery)
  {
    && after.Keys == before.Keys + d.entries.Keys
    && (forall name :: name in d.entries ==> name in after && after[name] == Serialized(d.entries[name]))
    && (forall name :: name in before && name !in d.entries ==> name in after && after[name] == before[name])
  }

  /** Saving a whole gallery: every one of its names is upserted. */
  lemma SavedGallery(table: map<string, seq<Byte>>, d: Gallery)
    requires d.Valid()
    ensures Upserted(SavedTable(table, d.keys[..|d.keys|], d), table, d)
  {
    assert d.keys[..|d.keys|] == d.keys;
    SavedTableIsUnion(table, d.keys, d);
  }

  /** Saving one more name of a gallery adds its write and its upsert. */
  lemma SaveStep(table: map<string, seq<Byte>>, d: Gallery, i: nat)
    requires d.Valid() && i < |d.keys|
    ensures var name := d.keys[i];
      && name in d.entries
      && SaveEffects(d.keys[..i + 1], d) == SaveEffects(d.keys[..i], d) + [SaveKnownFaces(name, d.entries[name])]
      && SavedTable(table, d.keys[..i + 1], d) == SavedTable(table, d.keys[..i], d)[name := Serialized(d.entries[name])]
  {
    assert d.keys[..i + 1][..i] == d.keys[..i];
    assert d.keys[i] in d.keys;
  }

  // =====================================================================
  // The processor

  class PhotoProcessor {
    /** The container URI, the face encoder, the distance and the EXIF
        reader. */
    const services: Services

    /** The KnownFaces table: each name with its serialized descriptors. */
    var knownFacesTable: map<string, seq<Byte>>

    /** Every write to blob storage or to the database, in order. */
    var log: seq<Effect>

    constructor(services: Services, knownFacesTable: map<string, seq<Byte>>)
      ensures this.services == services && this.knownFacesTable == knownFacesTable && log == []
    {
      this.services := services;
      this.knownFacesTable := knownFacesTable;
      log := [];
    }

    /** A gallery LoadKnownFacesFromDatabase can return: every row, each
        decoded. */
    ghost predicate LoadedFrom(loaded: Gallery)
      reads this
    {
      loaded.Valid()
      && (forall name :: name in loaded.entries <==> name in knownFacesTable)
      && (forall name :: name in loaded.entries ==> Decoded(knownFacesTable[name]) == Success(loaded.entries[name]))
    }

    /** ProcessTrainingPhotos: learns the new names of the listing into a
        copy of `newEncodings`, or reports the exception that ends it. */
    method ProcessTrainingPhotos(trainingListing: seq<string>, knownFaces: Gallery, newEncodings: Gallery)
      returns (result: Result<Gallery, Exception>)
      requires newEncodings.Valid()
      ensures result == Train(knownFaces, newEncodings, trainingListing, services.encoder)
    {
      var nameOf, encode := GetNameFromBlobItem, Encoding(services.encoder);
      var current := newEncodings;
      for i := 0 to |trainingListing|
        invariant current.Valid()
        invariant TrainWith(knownFaces, newEncodings, trainingListing[..i], nameOf, encode) == Success(current)
      {
        var key := trainingListing[i];
        assert trainingListing[..i + 1][..i] == trainingListing[..i];
        var name := GetNameFromBlobItem(key);
        if name.None? {
          result := Failure(ArgumentNull);
          TrainFailureSticks(knownFaces, newEncodings, trainingListing, i + 1, nameOf, encode);
          return;
        }
        if name.value in knownFaces.entries {
          continue;
        }
        if name.value !in current.entries {
          current := current.Set(name.value, []);
        }
        var encodings := EncodeFaces(key, services.encoder);
        if encodings.Failure? {
          result := Failure(encodings.error);
          TrainFailureSticks(knownFaces, newEncodings, trainingListing, i + 1, nameOf, encode);
          return;
        }
        if |encodings.value| > 0 {
          current := current.Set(name.value, current.entries[name.value] + encodings.value);
        }
      }
      assert trainingListing[..|trainingListing|] == trainingListing;
      result := Success(current);
    }

    /** ProcessUnprocessedPhotos: files the photos of the listing, numbering
        them from `currentMaxPhotoNumber`, and returns the last number used
        or the exception that ended the phase. */
    method ProcessUnprocessedPhotos(unprocessedListing: seq<string>, knownFaces: Gallery, currentMaxPhotoNumber: int)
      returns (counter: int, failure: Option<Exception>)
      requires knownFaces.Valid() && InInt32(currentMaxPhotoNumber)
      modifies this`log
      ensures var p := ProcessAll(knownFaces, unprocessedListing, currentMaxPhotoNumber, services);
        log == old(log) + p.effects && counter == p.counter && failure == p.failure
    {
      ghost var kindOf, writes := Kinds(services.encoder), PhotoWrites(knownFaces, services);
      counter, failure := currentMaxPhotoNumber, None;
      for i := 0 to |unprocessedListing|
        invariant ProcessWith(unprocessedListing[..i], currentMaxPhotoNumber, kindOf, writes)
          == Progress(ProcessWith(unprocessedListing[..i], currentMaxPhotoNumber, kindOf, writes).effects, counter, None)
        invariant log == old(log) + ProcessWith(unprocessedListing[..i], currentMaxPhotoNumber, kindOf, writes).effects
      {
        var key := unprocessedListing[i];
        ghost var before := ProcessWith(unprocessedListing[..i], currentMaxPhotoNumber, kindOf, writes);
        NextStep(unprocessedListing, i, currentMaxPhotoNumber, kindOf, writes);
        if IsUnsupportedFileType(key) {
          assert kindOf(key) == Skipped;
          continue;
        }
        var unknownEncodings := EncodeFaces(key, services.encoder);
        if unknownEncodings.Failure? {
          failure := Some(unknownEncodings.error);
          assert kindOf(key) == Throws(unknownEncodings.error);
          FailureSticks(unprocessedListing, i + 1, currentMaxPhotoNumber, kindOf, writes);
          return;
        }
        if |unknownEncodings.value| == 0 {
          assert kindOf(key) == Skipped;
          continue;
        }
        assert kindOf(key) == Photo;
        var matchedNames := IdentifyFaces(unknownEncodings.value, knownFaces, services.distance);
        var dateTaken := services.dateTaken(key);
        counter := Increment(counter);
        var newBlobName := NewBlobName(counter);
        var upload := UploadConvertedBlob(services.containerUri, newBlobName);
        log := log + [UploadConverted(upload.key, key)];
        var photoMetaData := PhotoMetaData(Join(", ", matchedNames), newBlobName, upload.url, dateTaken);
        log := log + [SavePhotoMetaData(photoMetaData)];
        log := log + [DeleteBlob(key)];
        PhotoWritesAre(knownFaces, services, key, counter);
        ghost var written := [UploadConverted(upload.key, key), SavePhotoMetaData(photoMetaData), DeleteBlob(key)];
        assert writes(key, counter) == written;
        assert ProcessWith(unprocessedListing[..i + 1], currentMaxPhotoNumber, kindOf, writes)
          == Progress(before.effects + written, counter, None);
        AppendThree(old(log), before.effects, written[0], written[1], written[2]);
      }
      assert unprocessedListing[..|unprocessedListing|] == unprocessedListing;
    }

    /** DatabaseService.SaveKnownFaces: an upsert of the serialized
        descriptors. */
    method SaveKnownFaces(name: string, encodings: seq<Embedding>)
      modifies this
      ensures knownFacesTable == old(knownFacesTable)[name := Serialized(encodings)]
      ensures log == old(log) + [Effect.SaveKnownFaces(name, encodings)]
    {
      var bytes := SerializeEncodings(encodings);
      knownFacesTable := knownFacesTable[name := bytes];
      log := log + [Effect.SaveKnownFaces(name, encodings)];
    }

    /** The `foreach` of ProcessPhotosAsync that saves every trained name,
        in the order the names were first met. */
    method SaveNewEncodings(newEncodings: Gallery)
      requires newEncodings.Valid()
      modifies this
      ensures log == old(log) + SaveEffects(newEncodings.keys, newEncodings)
      ensures Upserted(knownFacesTable, old(knownFacesTable), newEncodings)
    {
      for i := 0 to |newEncodings.keys|
        invariant log == old(log) + SaveEffects(newEncodings.keys[..i], newEncodings)
        invariant knownFacesTable == SavedTable(old(knownFacesTable), newEncodings.keys[..i], newEncodings)
      {
        var name := newEncodings.keys[i];
        SaveStep(old(knownFacesTable), newEncodings, i);
        SaveKnownFaces(name, newEncodings.entries[name]);
      }
      assert newEncodings.keys[..|newEncodings.keys|] == newEncodings.keys;
      SavedGallery(old(knownFacesTable), newEncodings);
    }

    /** ProcessPhotosAsync: scan Processed/ for the highest number, train
        the new names against the loaded gallery, save them, then file the
        unprocessed photos against the loaded gallery. */
    method ProcessPhotosAsync(processedListing: seq<string>, trainingListing: seq<string>,
                              unprocessedListing: seq<string>, loaded: Gallery)
      returns (failure: Option<Exception>)
      requires LoadedFrom(loaded)
      modifies this
      ensures match Train(loaded, Empty(), trainingListing, services.encoder)
        case Failure(e) =>
          failure == Some(e) && log == old(log) && knownFacesTable == old(knownFacesTable)
        case Success(newEncodings) =>
          var p := ProcessAll(loaded, unprocessedListing, MaxPhotoNumber(processedListing), services);
          && log == old(log) + SaveEffects(newEncodings.keys, newEncodings) + p.effects
          && Upserted(knownFacesTable, old(knownFacesTable), newEncodings)
          && failure == p.failure
    {
      var currentMaxPhotoNumber := GetCurrentMaxPhotoNumber(processedListing);
      var knownFaces := loaded;
      var training := ProcessTrainingPhotos(trainingListing, knownFaces, Empty());
      if training.Failure? {
        return Some(training.error);
      }
      var newEncodings := training.value;
      SaveNewEncodings(newEncodings);
      var counter;
      counter, failure := ProcessUnprocessedPhotos(unprocessedListing, knownFaces, currentMaxPhotoNumber);
    }
  }
}
