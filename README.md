# FischBowl photo sorting: a Dafny model of the identification and filing pipeline

FischBowl sorts the photos dropped into an Azure blob container. It has two
phases.

- **Training.** Photos under `TrainingPhotos/<name>/...` teach it the face
  descriptors of each named person.
- **Filing.** Every photo under `Unprocessed/` that shows a face is matched
  against those people. It is then filed as `Processed/photo_<n>.<ext>`,
  numbered on from the highest number already filed. A `PhotoMetaData` row
  names the people recognised in it.

Known people are kept in a `KnownFaces` table. Each row holds one name and its
descriptors, serialized into a fixed byte layout.

The repository holds the pipeline twice, and this project models both:

- `PhotoProcessor.ProcessPhotosAsync` is the service-based version (module
  `PhotoProcessing`, class `PhotoProcessor`). It loads the table, trains only
  people it does not know yet, saves them, and matches every descriptor of a
  photo against every stored one.
- `Program.Main` is the script's actual entry point (module `Program`, method
  `RunScript`). It rebuilds the gallery from the training photos on every run
  and never touches the table. For each face it takes the first name within
  tolerance. It copies the photo unconverted to `.jpg`, after writing the
  metadata row.

## How the model is built

- **Descriptors as bit patterns.** A face descriptor is a sequence of 32-bit
  words. Each word is the bit pattern of one `float`, held as an integer in
  `0 .. 2^32-1`. A byte is an integer in `0 .. 255`. The codec
  (`codec.dfy`) is therefore pure byte reasoning. `SerializeEncodings` and
  `DeserializeEncodings` are loops proved equal to the functions
  `Serialized` and `Decoded`, and the layout, round-trip and truncation facts
  are proved about those functions.
- **Collaborators as parameters.** Dlib's detector and encoder are a function
  from blob key to descriptors (`Encoder`). The Euclidean distance is a
  function to `real` (`Distance`), compared strictly against `Tolerance`
  (0.5). The EXIF reader is a function from key to an optional date. The
  container URI is a string. All four travel together in `Services`.
- **Listings as inputs, writes as a log.** Blob listings are input sequences
  of keys, in listing order. Every write to blob storage or to the database
  is an `Effect` appended to a log, in the order the code performs it. The
  possible writes are the WebP upload, the server-side copy, the metadata
  insert, the delete and the KnownFaces upsert. The `KnownFaces` table itself
  is a map from name to bytes, held in the `PhotoProcessor` object.
- **Dictionaries keep their insertion order.** A .NET `Dictionary` that is
  never removed from enumerates in insertion order. Both pipelines depend on
  that order: it decides which name `IdentifyFace` returns first and the
  order of the saves. `Dict` (`dictionary.dfy`) is therefore a key list plus
  a map.
- **Exceptions end the run.** None of the loops catches anything. An
  exception from `EncodeFaces` (an image type `LoadImage` rejects) ends the
  whole run, and so does `ContainsKey(null)` for a training key without `/`.
  The model represents these as a `Result` failure or a `failure` field.
  Each phase is specified by a fold over the listing (`TrainWith`,
  `ProcessWith`, `LearnWith`) that stops at the first key that throws.
  Each loop method is proved equal to its fold.
- **Int32 arithmetic.** `++currentMaxPhotoNumber` is unchecked Int32
  arithmetic and wraps at `Int32.MaxValue` (`Numerics.Increment`).
  `int.TryParse` is modelled with its default style: optional surrounding
  white space, an optional sign, decimal digits, and failure outside the
  Int32 range. As in .NET's parser, a run of U+0000 characters is also
  accepted at the very end of the text (`Numerics.TrailingNulAccepted`).

### Behaviour worth noting

- **Number allocation.** `GetCurrentMaxPhotoNumber` returns the highest
  number already filed (0 when nothing parses), and the filing loop
  pre-increments it once per filed photo, so the first photo of a run gets
  the highest number plus one (`PhotoProcessing.ProcessedInOrder`).
- **Which keys the scan counts.** Any key whose stem is `photo_` followed
  by text `int.TryParse` accepts counts:
  - a key without an extension (`BlobStorage.BareNameCounts`);
  - a suffix with a sign, leading zeros, surrounding white space or
    trailing U+0000 characters (`BlobStorage.PaddedSuffixCounts`);
  - `Processed/photo_1.2`, which counts as 1, because `.2` is taken as its
    extension (`BlobStorage.DigitExtensionCounts`).
- **Which gallery the filing phase matches against.** In
  `ProcessPhotosAsync`, training writes only into `newEncodings`, and the
  filing phase matches against the gallery as loaded. A person trained in
  this run is not recognised until the next run
  (`PhotoProcessing.TrainedNamesAreNotMatched`).
- **Names without faces.** `ProcessTrainingPhotos` creates the entry before
  encoding, so a name whose photos show no face is saved with an empty list
  (`PhotoProcessing.SavedExactlyOnce`). `Program.Main` keeps only names
  with faces (`Program.LearnEntry`).
- **Unsupported image types.** The `NotSupportedException` of an image type
  `LoadImage` rejects is not caught in either pipeline, so it ends the whole
  run rather than that one item (`PhotoProcessing.StopsAtFirstThrow`).
- **Corrupt gallery rows.** `LoadKnownFacesFromDatabase` calls
  `DeserializeEncodings` without a `try`, so a row too short for its count
  throws (`EmbeddingCodec.ShortBufferFails`).

## Model

| member | source | states |
|---|---|---|
| Numerics.Wrap32 | PhotoProcessor.cs:107 | the result is the Int32 value congruent to the input modulo 2^32, and equals the input when it is already an Int32 |
| Numerics.Increment | PhotoProcessor.cs:107 | `++` on a C# `int`: the successor, with Int32.MaxValue stepping to Int32.MinValue; `IncrementIsWrap` states that this is the two's-complement wrap |
| Numerics.IncrementIsWrap | PhotoProcessor.cs:107 | unchecked `++` on an Int32 is the two's-complement wrap of its successor |
| Numerics.AdvanceIsWrap | PhotoProcessor.cs:107 | k pre-increments of an Int32 give the wrap of n + k |
| Numerics.AdvanceWithoutOverflow | Program.cs:106 | when n + k stays within Int32.MaxValue, k pre-increments give exactly n + k |
| Numerics.AdvanceDistinct | PhotoProcessor.cs:107 | fewer than 2^32 increments apart, the counter never repeats a value, even across the wrap from Int32.MaxValue to Int32.MinValue |
| Numerics.IntToString | PhotoProcessor.cs:107 | the decimal form of an int is non-empty and contains no '/' or '.'; it ends in a digit, and starts with '-' exactly when the number is negative |
| Numerics.TryParseInt32 | BlobStorageService.cs:51 | a successful parse always yields a value in the Int32 range; what it accepts (white space, sign, digits, white space, then a trailing run of U+0000 characters) and rejects is stated by the lemmas below |
| Numerics.PaddedSignedParse | BlobStorageService.cs:51 | white space, an optional sign, one or more digits (leading zeros allowed), white space and a run of U+0000 characters parse to the signed value of the digits when that is an Int32, and fail when it is outside the Int32 range |
| Numerics.ParseSignedDigits | BlobStorageService.cs:51 | a sign, if any, followed by digits parses to their signed value when it is an Int32, and fails otherwise |
| Numerics.PaddedPlusSeven | BlobStorageService.cs:51 | " +007 " parses to 7 |
| Numerics.NonNumericFails | BlobStorageService.cs:51 | a single character other than white space, a sign or a digit, anywhere before the trailing run of U+0000 characters, makes the parse fail |
| Numerics.TrailingNulAccepted | BlobStorageService.cs:51 | "7\0" parses to 7: U+0000 characters are accepted at the very end |
| Numerics.NulsAfterWhiteAccepted | BlobStorageService.cs:51 | "7 \0\0" parses to 7: the U+0000 run may follow the trailing white space |
| Numerics.NulBeforeWhiteFails | BlobStorageService.cs:51 | "7\0 " fails: a U+0000 followed by white space is not accepted |
| Numerics.TrimmedToken | BlobStorageService.cs:51 | trimming the white space around a token that neither starts nor ends with white space gives back the token |
| Numerics.ParseOfIntToString | BlobStorageService.cs:51 | parsing the decimal form of any Int32 gives that number back |
| Numerics.IntToStringInjective | PhotoProcessor.cs:107 | different numbers have different decimal forms |
| Paths.Split | BlobStorageService.cs:32 | there is at least one part, and no part contains the separator |
| Paths.SplitSingle | BlobStorageService.cs:33 | there is exactly one part iff the separator does not occur |
| Paths.JoinSplit | BlobStorageService.cs:32 | joining the parts with the separator gives the key back, so no character is lost |
| Paths.GetFileName | BlobStorageService.cs:50 | the file name is the suffix of the path after its last '/' and contains no '/' |
| Paths.GetExtension | ImageService.cs:54 | the extension is empty or a '.' followed by at least one character and no further '.', and it is a suffix of the file name |
| Paths.GetFileNameWithoutExtension | BlobStorageService.cs:50 | the stem is a prefix of the file name; either it is the whole name and the name has no '.', or the name continues with its last '.' |
| Paths.ToLower | ImageService.cs:54 | lower-casing keeps the length and lowers each character (ASCII letters only) |
| Paths.ExtensionAt | ImageService.cs:54 | the extension starts at the last '.' of the file name when that dot is not its last character |
| Paths.NoDotNoExtension | ImageService.cs:54 | a path without '.' has the empty extension |
| Paths.TrailingDotNoExtension | ImageService.cs:54 | a path that ends in '.' has the empty extension |
| Paths.FinalExtension | FaceRecognitionService.cs:30 | only the final extension counts: stem + ".ext" has extension ".ext", whatever dots the stem holds |
| Paths.FileNameAfterLastSlash | BlobStorageService.cs:50 | the file name of dir + "/" + base is base |
| Paths.StemBeforeFinalExtension | BlobStorageService.cs:50 | the stem of dir + "/" + base + ext is base, when base has no dot and ext is one extension |
| EmbeddingCodec.ReadWrittenWord | FaceRecognitionService.cs:132 | reading back the four little-endian bytes written for a word gives the word |
| EmbeddingCodec.Int32OfBits | FaceRecognitionService.cs:126 | ReadInt32 yields an Int32, and it is negative exactly when the top bit is set |
| EmbeddingCodec.Int32BitsRoundTrip | FaceRecognitionService.cs:106 | a count written by `Write(int)` is read back unchanged by `ReadInt32` |
| EmbeddingCodec.SerializeEncodings | FaceRecognitionService.cs:100-117 | the writer loop produces exactly the layout `Serialized` specifies |
| EmbeddingCodec.Serialized | FaceRecognitionService.cs:100-117 | the bytes the writer produces: the count word, then every component word, four little-endian bytes each; `SerializedLayout` and `RoundTrip` state their meaning |
| EmbeddingCodec.SerializedLayout | FaceRecognitionService.cs:100-117 | the output is 4 + 4·Σ sizes bytes long, starts with the little-endian count (equal to the number of encodings), and stores component i of encoding j at word TotalSize(encodings[..j]) + i |
| EmbeddingCodec.SerializedParts | FaceRecognitionService.cs:106-113 | the output is the count's four bytes followed by the four bytes of every component, encoding after encoding |
| EmbeddingCodec.SerializedHeader | FaceRecognitionService.cs:106 | the output is 4 + 4·Σ sizes bytes long and starts with the little-endian count, which reads back as the number of encodings |
| EmbeddingCodec.ComponentAt | FaceRecognitionService.cs:107-112 | component i of encoding j is stored at word TotalSize(encodings[..j]) + i after the count |
| EmbeddingCodec.TotalSizeUniform | FaceRecognitionService.cs:109 | when every encoding has 128 components, 128·count words follow the count |
| EmbeddingCodec.EmbeddingAt | FaceRecognitionService.cs:129-138 | each embedding read back has exactly 128 components |
| EmbeddingCodec.DeserializeEncodings | FaceRecognitionService.cs:119-144 | the reader loop returns exactly what `Decoded` specifies: the list, or EndOfStream when the buffer runs out |
| EmbeddingCodec.Decoded | FaceRecognitionService.cs:119-144 | what the reader returns: EndOfStream when the buffer runs out, otherwise count embeddings of 128 words; `RoundTrip`, `ShortBufferFails` and `DecodedReencodes` state its meaning |
| EmbeddingCodec.RoundTrip | FaceRecognitionService.cs:100-144 | when every encoding has 128 components, deserializing the serialization gives the same list back, component for component |
| EmbeddingCodec.OtherSizesBreakRoundTrip | FaceRecognitionService.cs:129 | an encoding of any size other than 128 breaks the round trip, because the reader always reads 128 |
| EmbeddingCodec.ShortBufferFails | FaceRecognitionService.cs:126-132 | decoding fails with EndOfStream exactly when the buffer has fewer than 4 bytes, or the count is positive and the buffer is shorter than 4 + 512·count |
| EmbeddingCodec.NonPositiveCountIsEmpty | FaceRecognitionService.cs:126-127 | a zero or negative count decodes to the empty list, whatever follows |
| EmbeddingCodec.TrailingBytesIgnored | FaceRecognitionService.cs:126-140 | bytes after the last embedding read do not change a successful decode |
| EmbeddingCodec.DecodedReencodes | FaceRecognitionService.cs:126-139 | a successful decode of a non-negative count reads count embeddings in order: re-serializing them gives back the buffer's first 4 + 512·count bytes |
| Dictionaries.Dict.Set | PhotoProcessor.cs:61-64 | setting a key keeps the dictionary well formed and updates that entry only; a new key is enumerated last, and an existing key keeps its place |
| Dictionaries.Empty | PhotoProcessor.cs:35 | a new dictionary has no keys and no entries |
| FaceRecognition.LoadImage | FaceRecognitionService.cs:36-44 | accepts exactly .jpg, .jpeg, .png, .bmp, .heic and .heif, converting the HEIC family first; anything else fails with NotSupported of that extension |
| FaceRecognition.EncodeFaces | FaceRecognitionService.cs:22-34 | succeeds with the encoder's descriptors iff the key's lower-cased extension is supported; otherwise it throws NotSupported of that extension |
| FaceRecognition.UpperCaseExtensionLoads | FaceRecognitionService.cs:30 | the extension is lower-cased first, so ".JPG" loads |
| FaceRecognition.GifIsRejected | FaceRecognitionService.cs:42 | a ".gif" throws NotSupported(".gif") |
| FaceRecognition.HeicIsConverted | FaceRecognitionService.cs:41 | a ".heic" is converted before loading, and its faces are encoded |
| FaceRecognition.LastExtensionRejects | FaceRecognitionService.cs:30 | only the final extension decides: any name ending in ".gif" is rejected |
| FaceRecognition.LastExtensionLoads | FaceRecognitionService.cs:30 | any name ending in ".heic" loads, whatever extension precedes it |
| FaceRecognition.NoExtensionIsRejected | FaceRecognitionService.cs:42 | a name without an extension, or one ending in '.', throws NotSupported("") |
| FaceRecognition.AddName | FaceRecognitionService.cs:80 | HashSet.Add: the name is present afterwards, nothing else is added, and no name occurs twice |
| FaceRecognition.AddMatchesOfQueryMeaning | FaceRecognitionService.cs:74-82 | one query adds exactly the gallery names it is within tolerance of, each once |
| FaceRecognition.MatchOrder | FaceRecognitionService.cs:67-87 | the HashSet the triple loop builds, in insertion order; `MatchOrderMeaning` states which names it holds |
| FaceRecognition.MatchOrderMeaning | FaceRecognitionService.cs:67-87 | the result holds each name once, and holds a name iff some query and some stored descriptor of that name are at distance strictly below 0.5 |
| FaceRecognition.IdentifyFaces | FaceRecognitionService.cs:67-87 | the triple loop returns the names in the order `MatchOrder` finds them: each once, and a name iff some query is within tolerance of one of its stored descriptors |
| FaceRecognition.MatchesAreGalleryNames | FaceRecognitionService.cs:74-80 | every reported name is a gallery name |
| FaceRecognition.NothingToMatch | FaceRecognitionService.cs:70-86 | no queries or an empty gallery give an empty result |
| FaceRecognition.ToleranceIsStrict | FaceRecognitionService.cs:69-78 | a name whose descriptors are all at distance 0.5 or more from every query is not reported |
| FaceRecognition.MatchesGrow | FaceRecognitionService.cs:72-82 | adding queries, or descriptors under gallery names, never removes a name from the result |
| ImageService.UnsupportedMeansDocxSuffix | ImageService.cs:52-56 | a name is unsupported iff its last five characters, lower-cased, are ".docx" |
| ImageService.IsUnsupportedFileType | ImageService.cs:52-56 | the lower-cased extension equals ".docx"; `UnsupportedMeansDocxSuffix` restates it over the name's last five characters |
| ImageService.DocxInAnyCaseIsUnsupported | ImageService.cs:54 | "x.docx", "x.DOCX" and "x.Docx" are all unsupported, whatever the stem |
| ImageService.OnlyNamesEndingInXAreUnsupported | ImageService.cs:54-55 | a name that does not end in 'x' or 'X' (such as "a.docx.jpg" or "U.docx/p") is supported |
| ImageService.NoExtensionIsSupported | ImageService.cs:54 | a name without '.' is supported |
| BlobStorage.GetNameFromBlobItem | BlobStorageService.cs:30-34 | the name is null iff the key has no '/', and a returned name never contains '/' |
| BlobStorage.NameIsSecondSegment | BlobStorageService.cs:32-33 | the name is the second '/'-separated segment: "TrainingPhotos/Alice/a.jpg" gives "Alice", and "TrainingPhotos/a.jpg" gives "a.jpg" |
| BlobStorage.PhotoNumber | BlobStorageService.cs:50-51 | a key's number, when it has one, is an Int32; which keys have one is stated by PhotoNumberOfStem, NonPhotoStemIgnored, NonNumericSuffixIgnored and PaddedSuffixCounts |
| BlobStorage.ScanMax | BlobStorageService.cs:47-59 | the scan over any way of reading numbers: 0, raised by every number above the running maximum; `ScanMaxIsLargest` states that it is the largest number read, or 0 |
| BlobStorage.MaxPhotoNumber | BlobStorageService.cs:45-60 | the scan with the `photo_` number of each key; `MaxIsLargestParsed` states its meaning |
| BlobStorage.GetCurrentMaxPhotoNumber | BlobStorageService.cs:45-60 | the scan loop returns MaxPhotoNumber: a value in 0 .. Int32.MaxValue that is at least every parsed number |
| BlobStorage.ScanMaxIsLargest | BlobStorageService.cs:47-57 | for any way of reading numbers, the scan is at least 0 and at least every number read, and is 0 or one of them |
| BlobStorage.MaxIsLargestParsed | BlobStorageService.cs:51-57 | the max is at least every parsed "photo_" suffix, and is either 0 or one of those suffixes |
| BlobStorage.NothingParsesGivesZero | BlobStorageService.cs:47-59 | when no key parses, the result is 0 |
| BlobStorage.ListingOrderIsIrrelevant | BlobStorageService.cs:48-58 | two listings with the same keys, in any order, give the same max |
| BlobStorage.UnparsedKeyIsIgnored | BlobStorageService.cs:51 | inserting a key that does not parse, such as photo_abc, anywhere in the listing leaves the max unchanged |
| BlobStorage.PhotoNumberOfStem | BlobStorageService.cs:50-51 | a key whose stem is "photo_" + s carries TryParse(s) |
| BlobStorage.NonPhotoStemIgnored | BlobStorageService.cs:50-51 | a key whose stem does not begin with "photo_" carries no number |
| BlobStorage.NonNumericSuffixIgnored | BlobStorageService.cs:50-51 | a "photo_" stem whose suffix holds a character other than white space, a sign or a digit, such as photo_abc, before its trailing run of U+0000 characters, carries no number |
| BlobStorage.PaddedSuffixCounts | BlobStorageService.cs:50-51 | a "photo_" stem with white space, a sign or leading zeros around its digits, or U+0000 characters after them, counts as the signed value of the digits when that is an Int32, and carries no number otherwise |
| BlobStorage.PhotoNumberOfProcessedName | BlobStorageService.cs:50-51 | the key Processed/photo_n.ext that a pipeline writes reads back as n |
| BlobStorage.DigitExtensionCounts | BlobStorageService.cs:50-51 | Processed/photo_1.2 counts as 1, because ".2" is its extension |
| BlobStorage.BareNameCounts | BlobStorageService.cs:50-51 | Processed/photo_n, without an extension, also counts as n |
| BlobStorage.ScanSeesProcessedPhoto | BlobStorageService.cs:53-56 | listing one more filed photo Processed/photo_n.ext raises the max to n when n is larger, and otherwise leaves it |
| BlobStorage.FreshAboveMax | BlobStorageService.cs:64 | a photo numbered above the scanned max gets a Processed/ key that is not in the scanned listing |
| BlobStorage.PhotoName | PhotoProcessor.cs:107 | photo names start with "photo_", and contain no '/' when the extension has none |
| BlobStorage.PhotoNameInjective | PhotoProcessor.cs:107 | different numbers give different photo names |
| BlobStorage.ProcessedKeyKeepsName | BlobStorageService.cs:64 | the file name of "Processed/" + name is name |
| BlobStorage.ProcessedUrl | BlobStorageService.cs:71 | the URL starts with the container URI, continues with "/" and the upload key, and its file name is the new blob name |
| BlobStorage.ProcessedUrlAddressesUpload | BlobStorageService.cs:64-71 | the URL recorded for a photo is the address of the blob it is uploaded to |
| BlobStorage.UploadConvertedBlob | BlobStorageService.cs:62-72 | the upload goes to "Processed/" + name, and the URL returned is the container URI + "/" + that key |
| PhotoProcessing.TrainOneMeaning | PhotoProcessor.cs:53-77 | one training key throws exactly when it has no name, or names a new person whose photo cannot be loaded; otherwise a known name changes nothing, and a new name gets an entry (even with no faces) with its faces appended, and no other entry changes |
| PhotoProcessing.TrainOneNewName | PhotoProcessor.cs:61-72 | a key naming a new person whose photo loads gives that person's entry (created empty if missing) its faces appended, and changes nothing else |
| PhotoProcessing.TrainOneKeys | PhotoProcessor.cs:55-64 | after one key, a name has an entry iff it had one, or it is new and the key names it |
| PhotoProcessing.TrainOne | PhotoProcessor.cs:53-78 | one iteration of the training loop keeps newEncodings well formed; `TrainOneMeaning` states what it does |
| PhotoProcessing.TrainOneOrder | PhotoProcessor.cs:61-64 | one key appends its name to the enumeration order exactly when the name is new to both the loaded gallery and newEncodings |
| PhotoProcessing.FirstNamedMembers | PhotoProcessor.cs:51-64 | the names introduced are exactly those some key names, less the ones skipped |
| PhotoProcessing.FirstNamedSnoc | PhotoProcessor.cs:51-64 | one more key at the end lists its name last, when it is new |
| PhotoProcessing.TrainKeysOrder | PhotoProcessor.cs:51-64 | after training, newEncodings enumerates its old names, then the names the listing introduces, in the order they first occur in it |
| PhotoProcessing.TrainOrder | PhotoProcessor.cs:35-42 | the training of a run enumerates, and so saves, the new names in the order they first occur in the training listing |
| PhotoProcessing.TrainingThrowsMeaning | PhotoProcessor.cs:53-55 | a training key throws iff it has no '/', or names a new person whose extension LoadImage rejects |
| PhotoProcessing.TrainFailureSticks | PhotoProcessor.cs:51 | once a key throws, the rest of the listing is not looked at |
| PhotoProcessing.TrainSucceedsIff | PhotoProcessor.cs:51-79 | training succeeds iff no key of the listing throws |
| PhotoProcessing.TrainKey | PhotoProcessor.cs:61-64 | after training, a name has an entry iff it had one before, or it is new and some training key names it, whether or not a face was found |
| PhotoProcessing.TrainValue | PhotoProcessor.cs:68-72 | a new name's entry is its earlier list followed by the faces of its photos, in listing order |
| PhotoProcessing.TrainKeepsKnown | PhotoProcessor.cs:55-59 | entries of names already in the loaded gallery are left as they were |
| PhotoProcessing.KnownNameIsSkipped | PhotoProcessor.cs:55-59 | a key naming a known person changes nothing and is not encoded, so it cannot throw |
| PhotoProcessing.AllKnownTrainsNothing | PhotoProcessor.cs:55-59 | a listing that names only known people leaves newEncodings unchanged |
| PhotoProcessing.SecondRunTrainsNothing | PhotoProcessor.cs:55-59 | rerunning training on the same listing, once the saved names have been reloaded, trains nothing |
| PhotoProcessing.TrainedNamesAreNotMatched | PhotoProcessor.cs:37-44 | a name first trained in this run is not in the gallery the filing phase matches against, so it is never reported in this run |
| PhotoProcessing.PhotoEffects | PhotoProcessor.cs:107-118 | a filed photo writes, in order: the WebP upload to Processed/photo_n.webp; a metadata row with that name, the upload's URL, the names IdentifyFaces reports joined by ", ", and the EXIF date; then the deletion of the original |
| PhotoProcessing.KindOfMeaning | PhotoProcessor.cs:86-99 | a .docx is skipped; any other key throws NotSupported iff LoadImage rejects its type, and is otherwise filed iff a face is found |
| PhotoProcessing.KindOf | PhotoProcessor.cs:86-99 | classifies an Unprocessed/ key as skipped, throwing or filed; `KindOfMeaning` states when each happens |
| PhotoProcessing.Step | PhotoProcessor.cs:94-118 | one iteration of the filing loop: a filed key takes the incremented counter and writes; `FilesInOrder` and `StopsAtFirstThrow` state what a run of steps does |
| PhotoProcessing.ProcessWith | PhotoProcessor.cs:84-122 | the filing phase over a listing, stopping at the first key that throws; its meaning is `FilesInOrder`, `FailsIff` and `StopsAtFirstThrow` |
| PhotoProcessing.FilesInOrder | PhotoProcessor.cs:84-122 | when no key throws, the phase writes the effects of the filed keys in listing order, numbered on from the start, and ends with the counter advanced once per filed key |
| PhotoProcessing.ProcessedInOrder | PhotoProcessor.cs:107-122 | when no key throws, the i-th filed photo (counting from 0) is numbered Advance(m, i + 1), which is m + i + 1 until the counter wraps; its three writes are log positions 3i to 3i+2; the log holds exactly three writes per filed photo, so skipped keys write nothing; and the returned counter is m advanced once per filed photo |
| PhotoProcessing.FailsIff | PhotoProcessor.cs:84-99 | the phase ends with an exception iff some key of the listing throws |
| PhotoProcessing.FailureSticks | PhotoProcessor.cs:94 | once a key throws, the rest of the listing is not looked at |
| PhotoProcessing.StopsAtFirstThrow | PhotoProcessor.cs:94 | the phase keeps the writes of the keys before the first key that throws and reports that key's exception |
| BlobStorage.AboveMaxIsAbsent | BlobStorageService.cs:53-56 | a key whose number exceeds the scanned max is not in the scanned listing |
| PhotoProcessing.NewKeysAreFresh | PhotoProcessor.cs:107 | without overflow, each new Processed/photo_n.webp key is absent from the listing the max was scanned from, so no upload overwrites a filed photo |
| PhotoProcessing.NewNamesDistinct | PhotoProcessor.cs:107 | fewer than 2^32 photos filed from one counter get distinct names, even when the counter wraps |
| PhotoProcessing.SavedExactlyOnce | PhotoProcessor.cs:39-42 | every newEncodings entry, the empty ones included, is saved exactly once with its own list, and nothing else is saved |
| PhotoProcessing.SavedTableIsUnion | DatabaseService.cs:69-73 | upserting names one at a time, in any order, leaves exactly the old rows plus the saved names; each saved name holds the serialization of its entry, and every other row is untouched |
| PhotoProcessing.SavedGallery | PhotoProcessor.cs:39-42 | saving a whole gallery gives the table exactly its old rows plus the gallery's names, each holding its serialized descriptors, with every other row as it was |
| PhotoProcessing.PhotoProcessor.constructor | PhotoProcessor.cs:18-24 | a processor starts with the given collaborators and table and an empty log |
| PhotoProcessing.PhotoProcessor.ProcessTrainingPhotos | PhotoProcessor.cs:49-80 | the training loop computes exactly what the fold `Train` specifies, including the exception of the first key that throws |
| PhotoProcessing.PhotoProcessor.ProcessUnprocessedPhotos | PhotoProcessor.cs:82-123 | the filing loop appends to the log exactly the writes `ProcessAll` specifies, and returns its counter and exception |
| PhotoProcessing.PhotoProcessor.SaveKnownFaces | DatabaseService.cs:64-81 | an upsert: the name's row now holds the serialized descriptors, and no other row changes |
| PhotoProcessing.PhotoProcessor.SaveNewEncodings | PhotoProcessor.cs:39-42 | the save loop logs one upsert per new name, in the gallery's enumeration order (which `TrainOrder` shows is the order the names first occur in the training listing); the table gains exactly those rows, each holding its serialized descriptors, and no other row changes |
| PhotoProcessing.PhotoProcessor.ProcessPhotosAsync | PhotoProcessor.cs:26-47 | a training exception ends the run with nothing written; otherwise the run saves the new names, then files the unprocessed photos against the loaded gallery, numbered from the scanned max |
| Program.LearnOneMeaning | Program.cs:42-63 | one training key throws iff it has a name and its photo cannot be loaded; a key without a second segment is skipped; a name gains an entry only when faces are found, and only its own list grows |
| Program.LearnOne | Program.cs:42-64 | one iteration of Main's training loop keeps the gallery well formed; `LearnOneMeaning` states what it does |
| Program.LearnFailureSticks | Program.cs:40-66 | once a key throws, the rest of the listing is not looked at |
| Program.LearnSucceedsIff | Program.cs:42-51 | Main's training succeeds iff no named key has an image type LoadImage rejects |
| Program.LearnEntry | Program.cs:52-60 | each name holds the faces of its photos, in listing order, and is in the gallery iff that list is non-empty |
| Program.LearnKnownFaces | Program.cs:39-66 | the training loop computes exactly what `Learned` specifies |
| Program.FirstMatchMeaning | Program.cs:244-259 | IdentifyFace returns null iff no stored descriptor is strictly within 0.5 of the query; otherwise it returns the first name, in dictionary order, that has one |
| Program.FirstMatch | Program.cs:244-259 | the name IdentifyFace returns, None standing for null; `FirstMatchMeaning` states it |
| Program.IdentifyFace | Program.cs:244-259 | the nested loop with early return computes FirstMatch |
| Program.MatchedNamesAppend | Program.cs:91-97 | the names of a run of faces are the names of its parts, one after the other |
| Program.MatchedNames | Program.cs:90-98 | the list Main builds, one name per matched face; `MatchedNamesAreRecognised` and `NoMatchIffNoRecognition` relate it to IdentifyFaces |
| Program.MatchedNamesAreRecognised | Program.cs:90-98 | every name listed for a photo is one IdentifyFaces would also report |
| Program.NoMatchIffNoRecognition | Program.cs:90-98 | Main lists no names for a photo iff IdentifyFaces would report none |
| Program.MatchedFaceIsListed | Program.cs:90-98 | a face that IdentifyFace matches puts at least one name on the photo's list |
| Program.RepeatedFaceIsListedTwice | Program.cs:93-96 | one entry per matching face: two faces of the same person list that name twice |
| Program.MatchFaces | Program.cs:90-98 | the matching loop computes MatchedNames |
| Program.MainPhotoEffects | Program.cs:106-113 | a filed photo writes, in order: a metadata row for photo_n.jpg, with the URL container + "/Processed/photo_n.jpg" and the matched names joined by ", "; then the copy to Processed/photo_n.jpg; then the deletion of the original |
| Program.MainFilesInOrder | Program.cs:69-116 | when no key throws, the i-th filed photo (counting from 0) is numbered Advance(m, i + 1), which is m + i + 1 until the counter wraps; its three writes are log positions 3i to 3i+2; the log holds exactly three writes per filed photo, so skipped keys write nothing; and the returned counter is m advanced once per filed photo |
| Program.CopiedKeysAreFresh | Program.cs:106 | without overflow, each new Processed/photo_n.jpg key is absent from the scanned listing |
| Program.CopiedNamesDistinct | Program.cs:106 | fewer than 2^32 photos filed from one counter get distinct names, even when the counter wraps |
| Program.FileUnprocessedPhotos | Program.cs:69-116 | the filing loop of Main produces exactly the writes, counter and exception `MainProcess` specifies |
| Program.RunScript | Program.cs:25-122 | a training exception ends the run with nothing written; otherwise Main files the unprocessed photos against the gallery built from the training photos, numbered from the scanned max |

## Left out

- Face detection and encoding (`DetectAndEncodeFaces`, and the inline copy in
  `Program.EncodeFaces`) live in the native Dlib library. They are the
  `Encoder` parameter, a function from blob key to descriptors.
- The Euclidean distance in doubles with `Math.Sqrt` is floating point. It is
  the `Distance` parameter. Only its strict comparison with 0.5 is modelled.
  NaN and float rounding are not.
- The HEIC to PNG conversion, the WebP conversion and EXIF reading are
  ImageMagick and MetadataExtractor calls. The conversions appear only as the
  `ConvertHeicThenLoad` loader and the `UploadConverted` effect. The EXIF
  date is a parameter.
- DatabaseService's SQL and `EnsureKnownFacesTableExists` are left out:
  - the `KnownFaces` table is a map from name to bytes;
  - `SaveKnownFaces` is the map update;
  - a metadata insert is an `Effect`;
  - `LoadKnownFacesFromDatabase` is the `LoadedFrom` precondition of
    `ProcessPhotosAsync`, which takes the decoded table as given. The run
    where a corrupt row makes that load throw is therefore not covered.
- The Azure calls (listing, download, upload, copy, delete) are left out:
  listings are input sequences, and writes are log entries. The model
  assumes the listing does not change while it is being read.
- `async`/`await`, temporary files, `Dispose`, console output,
  `Configuration` and the environment variables have no logic to verify.
  Races between concurrent runs are out of scope; the runs are sequential.
- Collaborators are modelled as never throwing. Dlib failing on a corrupt
  file of a supported type, a failed HEIC or WebP conversion, a failed
  download, upload, copy or delete, and a failed metadata insert each end
  the run in the source. The model's `Encoder` always returns descriptors
  and every `Effect` succeeds; a `StartCopy` effect stands for a copy that
  has completed, although `StartCopyFromUriAsync` only starts a
  server-side copy and the original is deleted straight afterwards. So `StopsAtFirstThrow` and `FilesInOrder`
  cover only the exceptions that the key itself decides (no name, an
  image type `LoadImage` rejects). The partial writes of a photo whose
  filing fails halfway (a WebP uploaded with no metadata row) are not
  represented.
- Path handling knows only '/'. Windows separators, drive roots and invalid
  path characters are not modelled.
- `ToLower` is culture-sensitive in .NET but is modelled for ASCII letters
  only.
- Numerics.TryParseInt32: reads the signs as '+' and '-'. `int.TryParse`
  takes its sign strings from the current culture, and a culture with other
  sign strings is not modelled.
- Numerics.IntToString: always writes '-' before a negative number. The
  `$"photo_{n}"` interpolation uses the current culture's negative sign,
  which matters only once the counter has wrapped below zero.
- Program.GetCurrentMaxPhotoNumber (Program.cs:124-142) is the same scan as
  BlobStorageService's, written with nested `if`s. `RunScript` calls
  `BlobStorage.GetCurrentMaxPhotoNumber` for it, so it has no separate row.
- `Main` is named `RunScript` here, and its per-key filing loop is the method
  `FileUnprocessedPhotos`.
- PhotoProcessing.PhotoProcessor.ProcessUnprocessedPhotos: requires the
  starting number to be an Int32, which C# guarantees for an `int`.
- PhotoProcessing.NewKeysAreFresh: proved only while the counter stays
  below Int32.MaxValue. Past that point the numbers wrap to negative values,
  and freshness is not claimed.
- Program.CopiedKeysAreFresh: the same bound as NewKeysAreFresh.
