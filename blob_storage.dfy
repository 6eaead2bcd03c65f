/** The logic of BlobStorageService that does not talk to Azure: the
    person's name in a training key, the scan for the highest photo
    number already used, and where a converted photo is uploaded. A
    listing is the sequence of blob keys the container returns for a
    prefix. */
module BlobStorage {
  import opened Wrappers
  import opened Numerics
  import opened Paths

  // ---------------------------------------------------------------------
  // Names in training keys

  /** GetNameFromBlobItem: the second '/'-separated segment of the key
      ("TrainingPhotos/<name>/<file>"), or null for a key without '/'. */
  function GetNameFromBlobItem(blobName: string): (name: Option<string>)
    ensures name.None? <==> '/' !in blobName
    ensures name.Some? ==> '/' !in name.value
  {
    SplitSingle(blobName, '/');
    var segments := Split(blobName, '/');
    if |segments| < 2 then None else Some(segments[1])
  }

  lemma IndexOfAt(s: string, c: char, k: nat)
    requires k < |s| && s[k] == c
    requires forall j :: 0 <= j < k ==> s[j] != c
    ensures IndexOf(s, c) == k
  {
    if k > 0 {
      IndexOfAt(s[1..], c, k - 1);
    }
  }

  /** The first piece of a split is everything before the first separator. */
  lemma SplitFirst(first: string, rest: string, sep: char)
    requires sep !in first && (rest == [] || rest[0] == sep)
    ensures Split(first + rest, sep)[0] == first
  {
    if rest != [] {
      IndexOfAt(first + rest, sep, |first|);
      assert (first + rest)[..|first|] == first;
    } else {
      assert first + rest == first;
    }
  }

  /** The name is the text between the first '/' and the next '/' or the
      end of the key: "TrainingPhotos/Alice/a.jpg" gives "Alice", and
      "TrainingPhotos/a.jpg" gives "a.jpg". */
  lemma NameIsSecondSegment(folder: string, name: string, rest: string)
    requires '/' !in folder && '/' !in name && (rest == [] || rest[0] == '/')
    ensures GetNameFromBlobItem(folder + "/" + name + rest) == Some(name)
  {
    var key := folder + "/" + name + rest;
    IndexOfAt(key, '/', |folder|);
    assert key[..|folder|] == folder;
    assert key[|folder| + 1..] == name + rest;
    SplitFirst(name, rest, '/');
  }

  // ---------------------------------------------------------------------
  // The highest photo number

  const PhotoPrefix: string := "photo_"

  /** The number a key contributes to the scan: its file name without
      extension, when that starts with "photo_" and the rest parses as an
      Int32. */
  function PhotoNumber(key: string): (n: Option<int>)
    ensures n.Some? ==> InInt32(n.value)
  {
    var fileName := GetFileNameWithoutExtension(key);
    if |fileName| >= 6 && fileName[..6] == PhotoPrefix then TryParseInt32(fileName[6..]) else None
  }

  /** What a scan of a listing yields when `number` reads the number of a
      key: 0, raised by every number that exceeds the running maximum. */
  function ScanMax(listing: seq<string>, number: string -> Option<int>): int
  {
    if listing == [] then 0
    else
      var before := ScanMax(listing[..|listing| - 1], number);
      var n := number(listing[|listing| - 1]);
      if n.Some? && n.value > before then n.value else before
  }

  /** What GetCurrentMaxPhotoNumber returns for a listing. */
  function MaxPhotoNumber(listing: seq<string>): int
  {
    ScanMax(listing, PhotoNumber)
  }

  /** GetCurrentMaxPhotoNumber, over the keys listed under "Processed/photo_". */
  method GetCurrentMaxPhotoNumber(listing: seq<string>) returns (maxNumber: int)
    ensures maxNumber == MaxPhotoNumber(listing)
    ensures 0 <= maxNumber <= Int32Max
    ensures forall k :: k in listing && PhotoNumber(k).Some? ==> PhotoNumber(k).value <= maxNumber
  {
    maxNumber := 0;
    for i := 0 to |listing|
      invariant maxNumber == ScanMax(listing[..i], PhotoNumber)
    {
      ScanStep(listing, i, PhotoNumber);
      var fileName := GetFileNameWithoutExtension(listing[i]);
      if |fileName| >= 6 && fileName[..6] == PhotoPrefix {
        var number := TryParseInt32(fileName[6..]);
        assert number == PhotoNumber(listing[i]);
        if number.Some? && number.value > maxNumber {
          maxNumber := number.value;
        }
      } else {
        assert PhotoNumber(listing[i]).None?;
      }
    }
    assert listing[..|listing|] == listing;
    MaxIsLargestParsed(listing);
  }

  /** One more key of the listing is one more comparison. */
  lemma ScanStep(listing: seq<string>, i: nat, number: string -> Option<int>)
    requires i < |listing|
    ensures var before := ScanMax(listing[..i], number);
      var n := number(listing[i]);
      ScanMax(listing[..i + 1], number) == if n.Some? && n.value > before then n.value else before
  {
    assert listing[..i + 1][..i] == listing[..i];
  }

  /** Some key of the listing reads as `n`. */
  ghost predicate Carries(listing: seq<string>, number: string -> Option<int>, n: int)
  {
    exists k :: k in listing && number(k) == Some(n)
  }

  /** A scan yields the largest number carried, or 0 when that is larger
      (in particular when no key carries one). */
  lemma {:induction false} ScanMaxIsLargest(listing: seq<string>, number: string -> Option<int>)
    ensures 0 <= ScanMax(listing, number)
    ensures forall k :: k in listing && number(k).Some? ==> number(k).value <= ScanMax(listing, number)
    ensures ScanMax(listing, number) == 0 || Carries(listing, number, ScanMax(listing, number))
  {
    if listing != [] {
      var init := listing[..|listing| - 1];
      var last := listing[|listing| - 1];
      ScanMaxIsLargest(init, number);
      assert listing == init + [last];
      if ScanMax(listing, number) != 0 && ScanMax(listing, number) == ScanMax(init, number) {
        var k :| k in init && number(k) == Some(ScanMax(init, number));
        assert k in listing;
      }
    }
  }

  /** GetCurrentMaxPhotoNumber yields the largest parsed number, or 0 when
      that is larger (in particular when nothing parses); the result is an
      Int32. */
  lemma MaxIsLargestParsed(listing: seq<string>)
    ensures 0 <= MaxPhotoNumber(listing) <= Int32Max
    ensures forall k :: k in listing && PhotoNumber(k).Some? ==> PhotoNumber(k).value <= MaxPhotoNumber(listing)
    ensures MaxPhotoNumber(listing) == 0 || Carries(listing, PhotoNumber, MaxPhotoNumber(listing))
  {
    ScanMaxIsLargest(listing, PhotoNumber);
    if MaxPhotoNumber(listing) != 0 {
      var k :| k in listing && PhotoNumber(k) == Some(MaxPhotoNumber(listing));
    }
  }

  /** The scanned maximum is a non-negative Int32. */
  lemma MaxInRange(listing: seq<string>)
    ensures 0 <= MaxPhotoNumber(listing) <= Int32Max
  {
    MaxIsLargestParsed(listing);
  }

  /** A listing in which no key parses starts the numbering at 0. */
  lemma NothingParsesGivesZero(listing: seq<string>)
    requires forall k :: k in listing ==> PhotoNumber(k).None?
    ensures MaxPhotoNumber(listing) == 0
  {
    ScanMaxIsLargest(listing, PhotoNumber);
  }

  /** The result depends only on which numbers the keys carry: not on the
      order of the listing, nor on keys that carry none. */
  lemma ScanDependsOnlyOnNumbers(listing: seq<string>, other: seq<string>, number: string -> Option<int>)
    requires forall n :: Carries(listing, number, n) <==> Carries(other, number, n)
    ensures ScanMax(listing, number) == ScanMax(other, number)
  {
    ScanMaxIsLargest(listing, number);
    ScanMaxIsLargest(other, number);
    var a, b := ScanMax(listing, number), ScanMax(other, number);
    if a != 0 {
      assert Carries(other, number, a);
      var k :| k in other && number(k) == Some(a);
    }
    if b != 0 {
      assert Carries(listing, number, b);
      var k :| k in listing && number(k) == Some(b);
    }
  }

  lemma ListingOrderIsIrrelevant(listing: seq<string>, reordered: seq<string>)
    requires multiset(listing) == multiset(reordered)
    ensures MaxPhotoNumber(listing) == MaxPhotoNumber(reordered)
  {
    forall n
      ensures Carries(listing, PhotoNumber, n) <==> Carries(reordered, PhotoNumber, n)
    {
      if Carries(listing, PhotoNumber, n) {
        var k :| k in listing && PhotoNumber(k) == Some(n);
        assert k in multiset(listing);
      }
      if Carries(reordered, PhotoNumber, n) {
        var k :| k in reordered && PhotoNumber(k) == Some(n);
        assert k in multiset(reordered);
      }
    }
    ScanDependsOnlyOnNumbers(listing, reordered, PhotoNumber);
  }

  lemma ScanIgnoresKeyWithoutNumber(before: seq<string>, key: string, after: seq<string>, number: string -> Option<int>)
    requires number(key).None?
    ensures ScanMax(before + [key] + after, number) == ScanMax(before + after, number)
  {
    var withKey, without := before + [key] + after, before + after;
    forall n
      ensures Carries(withKey, number, n) <==> Carries(without, number, n)
    {
      if Carries(withKey, number, n) {
        var k :| k in withKey && number(k) == Some(n);
        assert k in without;
      }
      if Carries(without, number, n) {
        var k :| k in without && number(k) == Some(n);
        assert k in withKey;
      }
    }
    ScanDependsOnlyOnNumbers(withKey, without, number);
  }

  /** A key that does not parse ("photo_abc.jpg", "photo_1.2.webp",
      "photo_9999999999.jpg") changes nothing, wherever it is listed. */
  lemma UnparsedKeyIsIgnored(before: seq<string>, key: string, after: seq<string>)
    requires PhotoNumber(key).None?
    ensures MaxPhotoNumber(before + [key] + after) == MaxPhotoNumber(before + after)
  {
    ScanIgnoresKeyWithoutNumber(before, key, after, PhotoNumber);
  }

  /** A key whose file name without extension is "photo_" + `digits`
      contributes what `digits` parses to. */
  lemma PhotoNumberOfStem(key: string, digits: string)
    requires GetFileNameWithoutExtension(key) == PhotoPrefix + digits
    ensures PhotoNumber(key) == TryParseInt32(digits)
  {
    assert (PhotoPrefix + digits)[..6] == PhotoPrefix;
    assert (PhotoPrefix + digits)[6..] == digits;
  }

  /** A key whose stem does not begin with "photo_" ("Processed/IMG_7.jpg",
      "Processed/Photo_7.jpg") carries no number. */
  lemma NonPhotoStemIgnored(dir: string, base: string, ext: string)
    requires '/' !in base && '.' !in base
    requires |ext| >= 1 && ext[0] == '.' && '/' !in ext && '.' !in ext[1..]
    requires !(|base| >= 6 && base[..6] == PhotoPrefix)
    ensures PhotoNumber(dir + "/" + base + ext) == None
  {
    StemBeforeFinalExtension(dir, base, ext);
  }

  /** A "photo_" stem whose suffix holds a character other than white
      space, a sign or a digit before its trailing run of U+0000
      characters ("Processed/photo_abc.jpg") carries no number. */
  lemma NonNumericSuffixIgnored(dir: string, suffix: string, ext: string, i: nat)
    requires '/' !in suffix && '.' !in suffix
    requires |ext| >= 1 && ext[0] == '.' && '/' !in ext && '.' !in ext[1..]
    requires i < |TrimEndNul(suffix)| && !IsWhite(suffix[i]) && !IsDigit(suffix[i]) && suffix[i] != '+' && suffix[i] != '-'
    ensures PhotoNumber(dir + "/" + (PhotoPrefix + suffix) + ext) == None
  {
    var key := dir + "/" + (PhotoPrefix + suffix) + ext;
    StemBeforeFinalExtension(dir, PhotoPrefix + suffix, ext);
    PhotoNumberOfStem(key, suffix);
    NonNumericFails(suffix, i);
  }

  /** A "photo_" stem with white space, a sign or leading zeros around its
      digits, or U+0000 characters after them, counts as the signed value
      of the digits ("Processed/photo_+007.jpg" counts as 7). */
  lemma PaddedSuffixCounts(dir: string, ws1: string, sign: string, digits: string, ws2: string, nuls: string, ext: string)
    requires AllWhite(ws1) && AllWhite(ws2) && AllNul(nuls)
    requires sign == "" || sign == "+" || sign == "-"
    requires digits != [] && AllDigits(digits)
    requires '/' !in ws1 + sign + digits + ws2 && '.' !in ws1 + sign + digits + ws2
    requires |ext| >= 1 && ext[0] == '.' && '/' !in ext && '.' !in ext[1..]
    ensures var m: int := DigitsValue(digits);
      var n := if sign == "-" then -m else m;
      PhotoNumber(dir + "/" + (PhotoPrefix + (ws1 + sign + digits + ws2 + nuls)) + ext) == if InInt32(n) then Some(n) else None
  {
    var suffix := ws1 + sign + digits + ws2 + nuls;
    var key := dir + "/" + (PhotoPrefix + suffix) + ext;
    StemBeforeFinalExtension(dir, PhotoPrefix + suffix, ext);
    PhotoNumberOfStem(key, suffix);
    PaddedSignedParse(ws1, sign, digits, ws2, nuls);
  }

  /** The number in a name "photo_<n><ext>" the pipelines give a processed
      photo is read back by the scan. */
  lemma PhotoNumberOfProcessedName(n: int, ext: string)
    requires InInt32(n)
    requires |ext| >= 1 && ext[0] == '.' && '/' !in ext && '.' !in ext[1..]
    ensures PhotoNumber(ProcessedKey(PhotoName(n, ext))) == Some(n)
  {
    var digits := IntToString(n);
    var base := PhotoPrefix + digits;
    var key := ProcessedKey(PhotoName(n, ext));
    assert key == "Processed" + "/" + base + ext;
    PlainPhotoStem(n);
    StemBeforeFinalExtension("Processed", base, ext);
    PhotoNumberOfStem(key, digits);
    ParseOfIntToString(n);
  }

  /** The scan does not insist on an extension: "Processed/photo_<n>"
      counts as much as "Processed/photo_<n>.webp". */
  lemma BareNameCounts(n: int)
    requires InInt32(n)
    ensures PhotoNumber(ProcessedKey(PhotoName(n, ""))) == Some(n)
  {
    var digits := IntToString(n);
    var base := PhotoPrefix + digits;
    var key := ProcessedKey(PhotoName(n, ""));
    assert key == "Processed" + "/" + base;
    PlainPhotoStem(n);
    StemWithoutExtension("Processed", base);
    PhotoNumberOfStem(key, digits);
    ParseOfIntToString(n);
  }

  /** The part after the last dot is the extension even when it is a
      digit: "Processed/photo_1.2" counts as 1. */
  lemma DigitExtensionCounts()
    ensures PhotoNumber("Processed/photo_1.2") == Some(1)
  {
    assert IntToString(1) == "1";
    assert ProcessedKey(PhotoName(1, ".2")) == "Processed/photo_1.2";
    PhotoNumberOfProcessedName(1, ".2");
  }

  /** "photo_<n>" holds neither '.' nor '/'. */
  lemma PlainPhotoStem(n: int)
    ensures '.' !in PhotoPrefix + IntToString(n) && '/' !in PhotoPrefix + IntToString(n)
  {
    var digits := IntToString(n);
    var base := PhotoPrefix + digits;
    forall j | 0 <= j < |base|
      ensures base[j] != '.' && base[j] != '/'
    {
      if j >= 6 {
        assert base[j] == digits[j - 6];
      }
    }
  }

  /** After a photo numbered `n` lands in Processed/, the next scan starts
      at least at `n`, so a later run does not reuse the number. */
  lemma ScanSeesProcessedPhoto(listing: seq<string>, n: int, ext: string)
    requires InInt32(n)
    requires |ext| >= 1 && ext[0] == '.' && '/' !in ext && '.' !in ext[1..]
    ensures MaxPhotoNumber(listing + [ProcessedKey(PhotoName(n, ext))]) ==
      if n > MaxPhotoNumber(listing) then n else MaxPhotoNumber(listing)
  {
    var key := ProcessedKey(PhotoName(n, ext));
    PhotoNumberOfProcessedName(n, ext);
    assert (listing + [key])[..|listing|] == listing;
  }

  /** A key whose number is above the scan's maximum is not in the
      listing. */
  lemma AboveMaxIsAbsent(listing: seq<string>, key: string, n: int)
    requires PhotoNumber(key) == Some(n) && n > MaxPhotoNumber(listing)
    ensures key !in listing
  {
    MaxIsLargestParsed(listing);
  }

  /** A photo numbered above the scan's maximum gets a key that is not
      in the listing, so its upload overwrites nothing. */
  lemma FreshAboveMax(listing: seq<string>, n: int, ext: string)
    requires InInt32(n) && n > MaxPhotoNumber(listing)
    requires |ext| >= 1 && ext[0] == '.' && '/' !in ext && '.' !in ext[1..]
    ensures ProcessedKey(PhotoName(n, ext)) !in listing
  {
    PhotoNumberOfProcessedName(n, ext);
    AboveMaxIsAbsent(listing, ProcessedKey(PhotoName(n, ext)), n);
  }

  // ---------------------------------------------------------------------
  // Names and addresses of processed photos

  /** `$"photo_{n}{ext}"`: the name a pipeline gives its n-th photo. */
  function PhotoName(n: int, ext: string): (name: string)
    ensures '/' !in ext ==> '/' !in name
    ensures |name| > 6 && name[..6] == PhotoPrefix
  {
    PhotoPrefix + IntToString(n) + ext
  }

  /** Different numbers give different names. */
  lemma PhotoNameInjective(a: int, b: int, ext: string)
    requires PhotoName(a, ext) == PhotoName(b, ext)
    ensures a == b
  {
    var da, db := IntToString(a), IntToString(b);
    var name := PhotoName(a, ext);
    assert |da| == |db|;
    assert da == name[6..6 + |da|] by {
      assert name == PhotoPrefix + da + ext;
    }
    assert db == name[6..6 + |db|] by {
      assert name == PhotoPrefix + db + ext;
    }
    IntToStringInjective(a, b);
  }

  /** The key a photo named `newBlobName` gets in the Processed folder. */
  function ProcessedKey(newBlobName: string): string
  {
    "Processed/" + newBlobName
  }

  /** A processed photo keeps its new name as file name. */
  lemma ProcessedKeyKeepsName(newBlobName: string)
    requires '/' !in newBlobName
    ensures GetFileName(ProcessedKey(newBlobName)) == newBlobName
  {
    assert ProcessedKey(newBlobName) == "Processed" + "/" + newBlobName;
    FileNameAfterLastSlash("Processed", newBlobName);
  }

  /** The URL of a blob of the container. */
  function BlobUrl(containerUri: string, key: string): string
  {
    containerUri + "/" + key
  }

  /** `containerClient.Uri + "/Processed/" + newBlobName`: the URL under
      which a processed photo is recorded. */
  function ProcessedUrl(containerUri: string, newBlobName: string): (url: string)
    ensures |url| >= |containerUri|
    ensures url[..|containerUri|] == containerUri
    ensures url[|containerUri|..] == "/" + ProcessedKey(newBlobName)
    ensures '/' !in newBlobName ==> GetFileName(url) == newBlobName
  {
    var dir := containerUri + "/Processed";
    if '/' in newBlobName then dir + "/" + newBlobName
    else
      FileNameAfterLastSlash(dir, newBlobName);
      dir + "/" + newBlobName
  }

  /** The recorded URL is the address of the blob the photo is uploaded
      to. */
  lemma ProcessedUrlAddressesUpload(containerUri: string, newBlobName: string)
    ensures ProcessedUrl(containerUri, newBlobName) == BlobUrl(containerUri, ProcessedKey(newBlobName))
  {
    var url := ProcessedUrl(containerUri, newBlobName);
    assert url == url[..|containerUri|] + url[|containerUri|..];
  }

  /** UploadConvertedBlobAsync: where the converted photo is written, and
      the URL it returns. */
  datatype Upload = Upload(key: string, url: string)

  function UploadConvertedBlob(containerUri: string, newBlobName: string): (u: Upload)
    ensures u.key == ProcessedKey(newBlobName)
    ensures u.url == BlobUrl(containerUri, u.key)
  {
    ProcessedUrlAddressesUpload(containerUri, newBlobName);
    Upload("Processed/" + newBlobName, ProcessedUrl(containerUri, newBlobName))
  }
}
