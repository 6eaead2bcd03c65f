/** The byte layout FaceRecognitionService uses to persist a list of face
    embeddings: a little-endian Int32 count, then every component of every
    embedding as a little-endian IEEE 754 binary32 value, embedding after
    embedding. A float is kept as its 32-bit pattern, so the codec is pure
    byte shuffling. */
module EmbeddingCodec {
  import opened Wrappers
  import opened Numerics

  /** A byte of a stream. */
  newtype Byte = x: int | 0 <= x < 0x100

  /** A 32-bit pattern, most significant bit first: the bits of a binary32
      float or of a two's-complement Int32. */
  newtype Word = x: int | 0 <= x < 0x1_0000_0000

  /** One face descriptor (a Dlib Matrix<float>): the bit patterns of its
      binary32 components, in index order. */
  type Embedding = seq<Word>

  /** The number of components the reader takes per embedding. Offsets
      below are written with the literals 128 and 512 (= 4 * 128) so that
      their arithmetic stays linear. */
  const Dimension: nat := 128

  // ---------------------------------------------------------------------
  // Words and bytes

  /** BinaryWriter.Write of a 4-byte value: least significant byte first. */
  function WordBytes(w: Word): (b: seq<Byte>)
    ensures |b| == 4
  {
    var q1 := w / 0x100;
    var q2 := q1 / 0x100;
    var q3 := q2 / 0x100;
    [(w % 0x100) as Byte, (q1 % 0x100) as Byte, (q2 % 0x100) as Byte, q3 as Byte]
  }

  /** BinaryReader.ReadInt32 / ReadSingle at byte offset `pos`, as a bit pattern. */
  function WordAt(data: seq<Byte>, pos: nat): Word
    requires pos + 4 <= |data|
  {
    (data[pos] as int + 0x100 * data[pos + 1] as int
     + 0x1_0000 * data[pos + 2] as int + 0x100_0000 * data[pos + 3] as int) as Word
  }

  /** A word written and read back is the same word. */
  lemma ReadWrittenWord(w: Word)
    ensures WordAt(WordBytes(w), 0) == w
  {
    var q1 := w / 0x100;
    var q2 := q1 / 0x100;
    var q3 := q2 / 0x100;
    assert w == w % 0x100 + 0x100 * q1;
    assert q1 == q1 % 0x100 + 0x100 * q2;
    assert q2 == q2 % 0x100 + 0x100 * q3;
  }

  /** Reading inside the left part of a concatenation ignores the right part. */
  lemma WordAtLeft(a: seq<Byte>, b: seq<Byte>, pos: nat)
    requires pos + 4 <= |a|
    ensures WordAt(a + b, pos) == WordAt(a, pos)
  {
  }

  /** Reading inside the right part of a concatenation ignores the left part. */
  lemma WordAtRight(a: seq<Byte>, b: seq<Byte>, pos: nat)
    requires pos + 4 <= |b|
    ensures WordAt(a + b, |a| + pos) == WordAt(b, pos)
  {
  }

  /** The two's-complement bit pattern of an int, as an unchecked store
      into an Int32 keeps it. */
  function Int32Bits(n: int): Word
  {
    (n % 0x1_0000_0000) as Word
  }

  /** The Int32 value of a two's-complement bit pattern. */
  function Int32OfBits(w: Word): (n: int)
    ensures InInt32(n)
    ensures n < 0 <==> w >= 0x8000_0000
  {
    if w < 0x8000_0000 then w as int else w as int - 0x1_0000_0000
  }

  lemma Int32BitsRoundTrip(n: int)
    requires InInt32(n)
    ensures Int32OfBits(Int32Bits(n)) == n
  {
  }

  // ---------------------------------------------------------------------
  // The layout

  /** The sum of the embeddings' sizes. */
  function TotalSize(encodings: seq<Embedding>): nat
  {
    if encodings == [] then 0
    else TotalSize(encodings[..|encodings| - 1]) + |encodings[|encodings| - 1]|
  }

  /** All components of all embeddings, embedding-major. */
  function Flatten(encodings: seq<Embedding>): (ws: seq<Word>)
    ensures |ws| == TotalSize(encodings)
  {
    if encodings == [] then []
    else Flatten(encodings[..|encodings| - 1]) + encodings[|encodings| - 1]
  }

  /** Each word as four little-endian bytes, in order. */
  function WordsBytes(ws: seq<Word>): (b: seq<Byte>)
    ensures |b| == 4 * |ws|
  {
    if ws == [] then []
    else WordsBytes(ws[..|ws| - 1]) + WordBytes(ws[|ws| - 1])
  }

  /** What SerializeEncodings writes: the count, then every component. The
      count is written as an Int32; a List never holds more than
      Int32.MaxValue elements. */
  function Serialized(encodings: seq<Embedding>): seq<Byte>
  {
    WordsBytes([Int32Bits(|encodings|)] + Flatten(encodings))
  }

  /** The serialization is the count field followed by the components. */
  lemma SerializedParts(encodings: seq<Embedding>)
    ensures Serialized(encodings) == WordBytes(Int32Bits(|encodings|)) + WordsBytes(Flatten(encodings))
  {
    var count := Int32Bits(|encodings|);
    WordsBytesAppend([count], Flatten(encodings));
    assert [count][..0] == [];
  }

  /** The 128 components stored from byte offset `pos` on. */
  function EmbeddingAt(data: seq<Byte>, pos: nat): (e: Embedding)
    requires pos + 512 <= |data|
    ensures |e| == Dimension
  {
    WordsAt(data, pos, 128)
  }

  /** The count field of a buffer of at least four bytes. */
  function CountField(data: seq<Byte>): int
    requires |data| >= 4
  {
    Int32OfBits(WordAt(data, 0))
  }

  /** What DeserializeEncodings returns or throws for a buffer: a
      non-positive count gives no embeddings; otherwise `count` embeddings
      of 128 components each, or EndOfStream when the buffer is too short
      for any of them. */
  function Decoded(data: seq<Byte>): Result<seq<Embedding>, Exception>
  {
    if |data| < 4 then Failure(EndOfStream)
    else
      var count := CountField(data);
      if count <= 0 then Success([])
      else if |data| < 4 + 512 * count then Failure(EndOfStream)
      else Success(seq(count, j requires 0 <= j < count => EmbeddingAt(data, 4 + 512 * j)))
  }

  // ---------------------------------------------------------------------
  // The two static methods

  lemma WordsBytesSnoc(ws: seq<Word>, w: Word)
    ensures WordsBytes(ws + [w]) == WordsBytes(ws) + WordBytes(w)
  {
    assert (ws + [w])[..|ws|] == ws;
  }

  lemma FlattenSnoc(encodings: seq<Embedding>, j: nat)
    requires j < |encodings|
    ensures Flatten(encodings[..j + 1]) == Flatten(encodings[..j]) + encodings[j]
  {
    assert encodings[..j + 1][..j] == encodings[..j];
  }

  /** FaceRecognitionService.SerializeEncodings: the stream is a byte
      sequence that each BinaryWriter.Write extends. */
  method SerializeEncodings(encodings: seq<Embedding>) returns (bytes: seq<Byte>)
    ensures bytes == Serialized(encodings)
  {
    bytes := WordBytes(Int32Bits(|encodings|));
    ghost var header := bytes;
    for j := 0 to |encodings|
      invariant bytes == header + WordsBytes(Flatten(encodings[..j]))
    {
      ghost var before := Flatten(encodings[..j]);
      bytes := WriteComponents(bytes, encodings[j]);
      WordsBytesAppend(before, encodings[j]);
      FlattenSnoc(encodings, j);
      assert bytes == header + (WordsBytes(before) + WordsBytes(encodings[j]));
    }
    assert encodings[..|encodings|] == encodings;
    SerializedParts(encodings);
  }

  /** The inner loop of SerializeEncodings: one BinaryWriter.Write per
      component of an embedding, in order. */
  method WriteComponents(bytes: seq<Byte>, encoding: Embedding) returns (written: seq<Byte>)
    ensures written == bytes + WordsBytes(encoding)
  {
    written := bytes;
    for i := 0 to |encoding|
      invariant written == bytes + WordsBytes(encoding[..i])
    {
      assert encoding[..i + 1] == encoding[..i] + [encoding[i]];
      WordsBytesSnoc(encoding[..i], encoding[i]);
      written := written + WordBytes(encoding[i]);
    }
    assert encoding[..|encoding|] == encoding;
  }

  /** FaceRecognitionService.DeserializeEncodings: `position` is the
      position of the BinaryReader's stream; a read past the end throws. */
  method DeserializeEncodings(data: seq<Byte>) returns (r: Result<seq<Embedding>, Exception>)
    ensures r == Decoded(data)
  {
    if |data| < 4 {
      return Failure(EndOfStream);
    }
    var count := Int32OfBits(WordAt(data, 0));
    var position := 4;
    var encodings: seq<Embedding> := [];
    var j := 0;
    while j < count
      invariant 0 <= j && (j == 0 || j <= count)
      invariant position == 4 + 512 * j && position <= |data|
      invariant |encodings| == j
      invariant forall k :: 0 <= k < j ==> encodings[k] == EmbeddingAt(data, 4 + 512 * k)
    {
      var encodingArray := new Word[128];
      var i := 0;
      while i < 128
        modifies encodingArray
        invariant 0 <= i <= 128
        invariant position == 4 + 512 * j + 4 * i && position <= |data|
        invariant forall k :: 0 <= k < i ==> encodingArray[k] == WordAt(data, 4 + 512 * j + 4 * k)
      {
        if position + 4 > |data| {
          return Failure(EndOfStream);
        }
        encodingArray[i] := WordAt(data, position);
        position := position + 4;
        i := i + 1;
      }
      // the components are copied into a fresh 1 x 128 matrix
      var encoding := new Word[128];
      for i := 0 to 128
        modifies encoding
        invariant forall k :: 0 <= k < i ==> encoding[k] == encodingArray[k]
      {
        encoding[i] := encodingArray[i];
      }
      assert encoding[..] == EmbeddingAt(data, 4 + 512 * j);
      encodings := encodings + [encoding[..]];
      j := j + 1;
    }
    if count > 0 {
      var decoded := Decoded(data);
      assert decoded.Success? && |decoded.value| == |encodings|;
      assert forall k :: 0 <= k < count ==> decoded.value[k] == encodings[k];
      assert decoded.value == encodings;
    }
    return Success(encodings);
  }

  // ---------------------------------------------------------------------
  // Properties of the layout

  lemma {:induction false} WordsBytesAt(ws: seq<Word>, k: nat)
    requires k < |ws|
    ensures WordAt(WordsBytes(ws), 4 * k) == ws[k]
  {
    var last := |ws| - 1;
    var init := ws[..last];
    assert WordsBytes(ws) == WordsBytes(init) + WordBytes(ws[last]);
    if k == last {
      WordAtRight(WordsBytes(init), WordBytes(ws[last]), 0);
      ReadWrittenWord(ws[last]);
    } else {
      WordsBytesAt(init, k);
      WordAtLeft(WordsBytes(init), WordBytes(ws[last]), 4 * k);
    }
  }

  /** Component `i` of embedding `j` sits after the components of the
      embeddings before it. */
  lemma {:induction false} FlattenAt(encodings: seq<Embedding>, j: nat, i: nat)
    requires j < |encodings| && i < |encodings[j]|
    ensures TotalSize(encodings[..j]) + i < TotalSize(encodings)
    ensures Flatten(encodings)[TotalSize(encodings[..j]) + i] == encodings[j][i]
  {
    var last := |encodings| - 1;
    var init := encodings[..last];
    if j < last {
      assert init[..j] == encodings[..j];
      FlattenAt(init, j, i);
    }
  }

  /** The word after the count field at component offset `k` is `w`. */
  predicate ComponentStored(data: seq<Byte>, k: nat, w: Word)
  {
    4 + 4 * k + 4 <= |data| && WordAt(data, 4 + 4 * k) == w
  }

  /** SerializeEncodings writes the count as a 4-byte little-endian Int32
      and then component `i` of embedding `j` at byte
      4 + 4 * (components before embedding `j` + i); nothing else. */
  lemma SerializedLayout(encodings: seq<Embedding>)
    ensures |Serialized(encodings)| == 4 + 4 * TotalSize(encodings)
    ensures Serialized(encodings)[..4] == WordBytes(Int32Bits(|encodings|))
    ensures |encodings| <= Int32Max ==> CountField(Serialized(encodings)) == |encodings|
    ensures forall j, i :: 0 <= j < |encodings| && 0 <= i < |encodings[j]| ==>
      ComponentStored(Serialized(encodings), TotalSize(encodings[..j]) + i, encodings[j][i])
  {
    SerializedHeader(encodings);
    forall j, i | 0 <= j < |encodings| && 0 <= i < |encodings[j]|
      ensures ComponentStored(Serialized(encodings), TotalSize(encodings[..j]) + i, encodings[j][i])
    {
      ComponentAt(encodings, j, i);
    }
  }

  /** The first four bytes are the count; the rest, four per component. */
  lemma SerializedHeader(encodings: seq<Embedding>)
    ensures |Serialized(encodings)| == 4 + 4 * TotalSize(encodings)
    ensures Serialized(encodings)[..4] == WordBytes(Int32Bits(|encodings|))
    ensures |encodings| <= Int32Max ==> CountField(Serialized(encodings)) == |encodings|
  {
    var header := WordBytes(Int32Bits(|encodings|));
    var body := WordsBytes(Flatten(encodings));
    SerializedParts(encodings);
    WordAtLeft(header, body, 0);
    ReadWrittenWord(Int32Bits(|encodings|));
    if |encodings| <= Int32Max {
      Int32BitsRoundTrip(|encodings|);
    }
  }

  lemma ComponentAt(encodings: seq<Embedding>, j: nat, i: nat)
    requires j < |encodings| && i < |encodings[j]|
    ensures ComponentStored(Serialized(encodings), TotalSize(encodings[..j]) + i, encodings[j][i])
  {
    var header := WordBytes(Int32Bits(|encodings|));
    var body := WordsBytes(Flatten(encodings));
    SerializedParts(encodings);
    var k := TotalSize(encodings[..j]) + i;
    FlattenAt(encodings, j, i);
    WordsBytesAt(Flatten(encodings), k);
    WordAtRight(header, body, 4 * k);
  }

  /** When every embedding has 128 components, embedding `j` starts at
      component 128 * j. */
  lemma {:induction false} TotalSizeUniform(encodings: seq<Embedding>)
    requires forall j :: 0 <= j < |encodings| ==> |encodings[j]| == Dimension
    ensures TotalSize(encodings) == 128 * |encodings|
  {
    if encodings != [] {
      TotalSizeUniform(encodings[..|encodings| - 1]);
    }
  }

  /** In a list of 128-component embeddings, embedding `j` is stored at
      byte 4 + 512 * j. */
  lemma StoredEmbedding(encodings: seq<Embedding>, j: nat)
    requires forall j :: 0 <= j < |encodings| ==> |encodings[j]| == Dimension
    requires j < |encodings|
    ensures 4 + 512 * j + 512 <= |Serialized(encodings)|
    ensures EmbeddingAt(Serialized(encodings), 4 + 512 * j) == encodings[j]
  {
    var data := Serialized(encodings);
    SerializedHeader(encodings);
    TotalSizeUniform(encodings);
    assert encodings[..j + 1][..j] == encodings[..j];
    TotalSizeUniform(encodings[..j]);
    forall i | 0 <= i < 128
      ensures EmbeddingAt(data, 4 + 512 * j)[i] == encodings[j][i]
    {
      ComponentAt(encodings, j, i);
      assert 4 + 4 * (TotalSize(encodings[..j]) + i) == 4 + 512 * j + 4 * i;
    }
  }

  /** Round trip: a list of 128-component embeddings comes back from
      DeserializeEncodings(SerializeEncodings(...)) bit for bit. */
  lemma RoundTrip(encodings: seq<Embedding>)
    requires |encodings| <= Int32Max
    requires forall j :: 0 <= j < |encodings| ==> |encodings[j]| == Dimension
    ensures Decoded(Serialized(encodings)) == Success(encodings)
  {
    var data := Serialized(encodings);
    SerializedHeader(encodings);
    TotalSizeUniform(encodings);
    var count := |encodings|;
    if count > 0 {
      forall j | 0 <= j < count
        ensures EmbeddingAt(data, 4 + 512 * j) == encodings[j]
      {
        StoredEmbedding(encodings, j);
      }
      var decoded := Decoded(data);
      assert decoded.Success? && |decoded.value| == count;
      assert forall j :: 0 <= j < count ==> decoded.value[j] == encodings[j];
      assert decoded.value == encodings;
    }
  }

  /** The reader fixes the size at 128: a list holding an embedding of any
      other size never survives the round trip. */
  lemma OtherSizesBreakRoundTrip(encodings: seq<Embedding>, j: nat)
    requires j < |encodings| && |encodings[j]| != Dimension
    ensures Decoded(Serialized(encodings)) != Success(encodings)
  {
  }

  /** A buffer too short for its count field, or for `count` embeddings of
      128 components, throws EndOfStream; nothing partial is returned. */
  lemma ShortBufferFails(data: seq<Byte>)
    ensures Decoded(data) == Failure(EndOfStream) <==>
      |data| < 4 || (CountField(data) > 0 && |data| < 4 + 512 * CountField(data))
  {
  }

  /** A count of zero or below decodes to no embeddings, whatever follows. */
  lemma NonPositiveCountIsEmpty(data: seq<Byte>)
    requires |data| >= 4 && CountField(data) <= 0
    ensures Decoded(data) == Success([])
  {
  }

  lemma EmbeddingAtLeft(a: seq<Byte>, b: seq<Byte>, pos: nat)
    requires pos + 512 <= |a|
    ensures EmbeddingAt(a + b, pos) == EmbeddingAt(a, pos)
  {
    forall i | 0 <= i < 128
      ensures WordAt(a + b, pos + 4 * i) == WordAt(a, pos + 4 * i)
    {
      WordAtLeft(a, b, pos + 4 * i);
    }
  }

  /** Bytes after the last embedding the count announces are never read. */
  lemma TrailingBytesIgnored(data: seq<Byte>, extra: seq<Byte>)
    requires Decoded(data).Success?
    ensures Decoded(data + extra) == Decoded(data)
  {
    WordAtLeft(data, extra, 0);
    var count := CountField(data);
    if count > 0 {
      var longer := Decoded(data + extra);
      assert CountField(data + extra) == count;
      assert longer.Success? && |longer.value| == count;
      forall j | 0 <= j < count
        ensures longer.value[j] == Decoded(data).value[j]
      {
        EmbeddingAtLeft(data, extra, 4 + 512 * j);
      }
      assert longer.value == Decoded(data).value;
    }
  }

  // ---------------------------------------------------------------------
  // The other direction: what was decoded is what was stored

  /** Four bytes read as a word and written back are the same bytes. */
  lemma WrittenReadWord(data: seq<Byte>, pos: nat)
    requires pos + 4 <= |data|
    ensures WordBytes(WordAt(data, pos)) == data[pos..pos + 4]
  {
    var b0, b1, b2, b3 := data[pos] as int, data[pos + 1] as int, data[pos + 2] as int, data[pos + 3] as int;
    var w := WordAt(data, pos);
    var q1 := w / 0x100;
    var q2 := q1 / 0x100;
    assert w as int == b0 + 0x100 * (b1 + 0x100 * (b2 + 0x100 * b3));
    assert q1 as int == b1 + 0x100 * (b2 + 0x100 * b3) && w % 0x100 == b0 as Word;
    assert q2 as int == b2 + 0x100 * b3 && q1 % 0x100 == b1 as Word;
    assert q2 / 0x100 == b3 as Word && q2 % 0x100 == b2 as Word;
  }

  /** The `n` words stored from byte offset `pos` on. */
  function WordsAt(data: seq<Byte>, pos: nat, n: nat): (ws: seq<Word>)
    requires pos + 4 * n <= |data|
    ensures |ws| == n
  {
    seq(n, i requires 0 <= i < n => WordAt(data, pos + 4 * i))
  }

  lemma {:induction false} WrittenReadWords(data: seq<Byte>, pos: nat, n: nat)
    requires pos + 4 * n <= |data|
    ensures WordsBytes(WordsAt(data, pos, n)) == data[pos..pos + 4 * n]
  {
    if n > 0 {
      var ws := WordsAt(data, pos, n);
      assert ws[..n - 1] == WordsAt(data, pos, n - 1);
      WrittenReadWords(data, pos, n - 1);
      WrittenReadWord(data, pos + 4 * (n - 1));
      assert data[pos..pos + 4 * n] == data[pos..pos + 4 * (n - 1)] + data[pos + 4 * (n - 1)..pos + 4 * n];
    }
  }

  lemma {:induction false} WordsBytesAppend(a: seq<Word>, b: seq<Word>)
    ensures WordsBytes(a + b) == WordsBytes(a) + WordsBytes(b)
  {
    if b != [] {
      var last := |b| - 1;
      assert (a + b)[..|a + b| - 1] == a + b[..last];
      WordsBytesAppend(a, b[..last]);
    } else {
      assert a + b == a;
    }
  }

  lemma SliceSplit(data: seq<Byte>, a: nat, b: nat, c: nat)
    requires a <= b <= c <= |data|
    ensures data[a..c] == data[a..b] + data[b..c]
  {
  }

  /** One embedding read from `pos` and written back is its 512 bytes. */
  lemma EmbeddingReencodes(data: seq<Byte>, e: Embedding, pos: nat)
    requires pos + 512 <= |data| && e == WordsAt(data, pos, 128)
    ensures WordsBytes(e) == data[pos..pos + 512]
  {
    WrittenReadWords(data, pos, 128);
  }

  lemma ReencodeStep(data: seq<Byte>, before: seq<Word>, e: Embedding, a: nat, b: nat)
    requires a <= b && b + 512 <= |data|
    requires WordsBytes(before) == data[a..b] && WordsBytes(e) == data[b..b + 512]
    ensures WordsBytes(before + e) == data[a..b + 512]
  {
    WordsBytesAppend(before, e);
    SliceSplit(data, a, b, b + 512);
  }

  /** The components of the first `j` embeddings read back to back from
      byte 4 on, written back, are the bytes they were read from. */
  lemma {:induction false} ReadEmbeddingsReencode(data: seq<Byte>, encodings: seq<Embedding>, j: nat)
    requires j <= |encodings| && 4 + 512 * |encodings| <= |data|
    requires forall k :: 0 <= k < |encodings| ==> encodings[k] == WordsAt(data, 4 + 512 * k, 128)
    ensures WordsBytes(Flatten(encodings[..j])) == data[4..4 + 512 * j]
  {
    if j > 0 {
      ReadEmbeddingsReencode(data, encodings, j - 1);
      var pos := 4 + 512 * (j - 1);
      assert pos + 512 == 4 + 512 * j;
      EmbeddingReencodes(data, encodings[j - 1], pos);
      FlattenSnoc(encodings, j - 1);
      ReencodeStep(data, Flatten(encodings[..j - 1]), encodings[j - 1], 4, pos);
    }
  }

  /** Partner of RoundTrip: whenever DeserializeEncodings succeeds on a
      buffer whose count is not negative, serializing its result
      reproduces the bytes it consumed, so the reader never invents or
      reorders data. */
  lemma DecodedReencodes(data: seq<Byte>)
    requires |data| >= 4 && CountField(data) >= 0 && Decoded(data).Success?
    ensures 4 + 512 * |Decoded(data).value| <= |data|
    ensures Serialized(Decoded(data).value) == data[..4 + 512 * |Decoded(data).value|]
  {
    var decoded := Decoded(data).value;
    var count := |decoded|;
    ReadEmbeddingsReencode(data, decoded, count);
    assert decoded[..count] == decoded;
    assert Int32Bits(count) == WordAt(data, 0);
    WrittenReadWord(data, 0);
    SliceSplit(data, 0, 4, 4 + 512 * count);
    assert data[..4 + 512 * count] == data[0..4 + 512 * count];
    SerializedParts(decoded);
  }
}
