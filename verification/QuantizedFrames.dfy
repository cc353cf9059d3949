/** The wire frame around a quantized tensor.

    The scale stays four opaque bytes with a given validity test, text is its UTF-8 bytes
    with a given validity test, and the trailer is a given eight-byte digest of everything
    before it. */
module QuantizedFrames {

  import Quantization

  type Byte = Quantization.Byte

  datatype Result<+T> = Ok(value: T) | Err

  datatype Frame = Frame(
    formatId: int,
    scale: seq<Byte>,
    zeroPoint: int,
    dtype: seq<Byte>,
    shape: seq<int>,
    payload: seq<Byte>)

  const MAGIC: seq<Byte> := [77, 86, 81, 70]
  const TRAILER_LEN := 8
  const WORD := 0x1_0000_0000

  /** A digest gives eight bytes for any input. */
  ghost predicate IsDigest(digest: seq<Byte> -> seq<Byte>) {
    forall s :: |digest(s)| == TRAILER_LEN
  }

  // --- Little-endian words --------------------------------------------------------------

  predicate IsWord(n: int) { 0 <= n < WORD }

  function Pow256(k: nat): (p: nat)
    ensures 0 < p
  {
    if k == 0 then 1 else 256 * Pow256(k - 1)
  }

  /** The `k` low bytes of `n`, least significant first. */
  function Digits(n: nat, k: nat): (b: seq<Byte>)
    ensures |b| == k
  {
    if k == 0 then [] else [n % 256] + Digits(n / 256, k - 1)
  }

  function Value(b: seq<Byte>): (n: nat)
    ensures n < Pow256(|b|)
  {
    if b == [] then 0 else b[0] + 256 * Value(b[1..])
  }

  lemma {:induction false} ValueOfDigits(n: nat, k: nat)
    requires n < Pow256(k)
    ensures Value(Digits(n, k)) == n
  {
    if k > 0 {
      ValueOfDigits(n / 256, k - 1);
      assert Digits(n, k)[1..] == Digits(n / 256, k - 1);
    }
  }

  lemma {:induction false} DigitsOfValue(b: seq<Byte>)
    ensures Digits(Value(b), |b|) == b
  {
    if b != [] {
      DigitsOfValue(b[1..]);
      var rest := Value(b[1..]);
      assert (b[0] + 256 * rest) % 256 == b[0] && (b[0] + 256 * rest) / 256 == rest;
    }
  }

  lemma FourBytes()
    ensures Pow256(4) == WORD
  {
    assert Pow256(2) == 65536;
  }

  function Word(n: int): (b: seq<Byte>)
    requires IsWord(n)
    ensures |b| == 4
  {
    Digits(n, 4)
  }

  function WordValue(b: seq<Byte>): (n: int)
    requires |b| == 4
    ensures IsWord(n)
  {
    FourBytes();
    Value(b)
  }

  lemma WordInverse(n: int, b: seq<Byte>)
    requires IsWord(n) && |b| == 4
    ensures WordValue(Word(n)) == n && Word(WordValue(b)) == b
  {
    FourBytes();
    ValueOfDigits(n, 4);
    DigitsOfValue(b);
  }

  predicate IsSigned(z: int) { -0x8000_0000 <= z < 0x8000_0000 }

  function SignedWord(z: int): (b: seq<Byte>)
    requires IsSigned(z)
    ensures |b| == 4
  {
    Word(if z < 0 then z + WORD else z)
  }

  function SignedValue(b: seq<Byte>): (z: int)
    requires |b| == 4
    ensures IsSigned(z)
  {
    if WordValue(b) >= 0x8000_0000 then WordValue(b) - WORD else WordValue(b)
  }

  lemma SignedInverse(z: int, b: seq<Byte>)
    requires IsSigned(z) && |b| == 4
    ensures SignedValue(SignedWord(z)) == z && SignedWord(SignedValue(b)) == b
  {
    WordInverse(if z < 0 then z + WORD else z, b);
  }

  /** The least significant byte comes first. */
  lemma WordLayout(n: int)
    requires IsWord(n)
    ensures Word(n) == [n % 256, n / 256 % 256, n / 65536 % 256, n / 16777216]
  {
    assert Digits(n, 4) == [n % 256] + Digits(n / 256, 3);
    assert Digits(n / 256, 3) == [n / 256 % 256] + Digits(n / 256 / 256, 2);
    assert Digits(n / 256 / 256, 2) == [n / 256 / 256 % 256] + Digits(n / 256 / 256 / 256, 1);
    assert Digits(n / 256 / 256 / 256, 1) == [n / 256 / 256 / 256 % 256] + [];
  }

  /** A negative number is written as its two's complement. */
  lemma SignedLayout(z: int)
    requires IsSigned(z)
    ensures WordValue(SignedWord(z)) == z % WORD
  {
    WordInverse(if z < 0 then z + WORD else z, SignedWord(z));
  }

  predicate AreWords(shape: seq<int>) { forall d :: d in shape ==> IsWord(d) }

  function Words(shape: seq<int>): (b: seq<Byte>)
    requires AreWords(shape)
    ensures |b| == 4 * |shape|
  {
    if shape == [] then [] else Words(shape[..|shape| - 1]) + Word(shape[|shape| - 1])
  }

  function WordValues(b: seq<Byte>, n: nat): (shape: seq<int>)
    requires |b| == 4 * n
    ensures |shape| == n && AreWords(shape)
  {
    if n == 0 then [] else WordValues(b[..4 * n - 4], n - 1) + [WordValue(b[4 * n - 4..])]
  }

  lemma ValuesSnoc(b: seq<Byte>, n: nat, word: seq<Byte>)
    requires |b| == 4 * n && |word| == 4
    ensures WordValues(b + word, n + 1) == WordValues(b, n) + [WordValue(word)]
  {
    assert (b + word)[..4 * n] == b && (b + word)[4 * n..] == word;
  }

  lemma {:induction false} WordsInverse(shape: seq<int>)
    requires AreWords(shape)
    ensures WordValues(Words(shape), |shape|) == shape
  {
    if shape != [] {
      var init, last := shape[..|shape| - 1], shape[|shape| - 1];
      WordsInverse(init);
      WordInverse(last, Word(last));
      ValuesSnoc(Words(init), |init|, Word(last));
    }
  }

  lemma WordsSnoc(shape: seq<int>, d: int)
    requires AreWords(shape) && IsWord(d)
    ensures Words(shape + [d]) == Words(shape) + Word(d)
  {
    assert (shape + [d])[..|shape|] == shape;
  }

  lemma SplitAt(b: seq<Byte>, i: nat)
    requires i <= |b|
    ensures b == b[..i] + b[i..]
  {
  }

  lemma {:induction false} ValuesInverse(b: seq<Byte>, n: nat)
    requires |b| == 4 * n
    ensures Words(WordValues(b, n)) == b
  {
    if n > 0 {
      var init, last := b[..4 * n - 4], b[4 * n - 4..];
      ValuesInverse(init, n - 1);
      ValuesInverseStep(b, init, last, WordValues(init, n - 1), n);
    }
  }

  lemma ValuesInverseStep(b: seq<Byte>, init: seq<Byte>, last: seq<Byte>, shape: seq<int>, n: nat)
    requires n > 0 && |b| == 4 * n && init == b[..4 * n - 4] && last == b[4 * n - 4..]
    requires shape == WordValues(init, n - 1) && Words(shape) == init
    ensures Words(WordValues(b, n)) == b
  {
    assert WordValues(b, n) == shape + [WordValue(last)];
    OneMoreWord(shape, init, last);
    SplitAt(b, 4 * n - 4);
  }

  lemma OneMoreWord(shape: seq<int>, init: seq<Byte>, last: seq<Byte>)
    requires AreWords(shape) && Words(shape) == init && |last| == 4
    ensures AreWords(shape + [WordValue(last)]) && Words(shape + [WordValue(last)]) == init + last
  {
    WordInverse(0, last);
    WordsSnoc(shape, WordValue(last));
  }

  // --- Layout ---------------------------------------------------------------------------

  /** What a frame must satisfy to be written at all. */
  predicate Writable(f: Frame) {
    && 0 <= f.formatId < 256 && |f.scale| == 4 && IsSigned(f.zeroPoint)
    && |f.dtype| <= 255 && |f.shape| <= 255 && AreWords(f.shape)
  }

  function Header(f: Frame, reserved: seq<Byte>): (b: seq<Byte>)
    requires Writable(f) && |reserved| == 3
    ensures |b| == 18 + |f.dtype| + 4 * |f.shape|
  {
    MAGIC + [f.formatId] + reserved + f.scale + SignedWord(f.zeroPoint) + [|f.dtype|] + f.dtype + [|f.shape|] + Words(f.shape)
  }

  /** `bytes` is `f` on the wire, with the given reserved bytes. */
  predicate Written(bytes: seq<Byte>, f: Frame, reserved: seq<Byte>, digest: seq<Byte> -> seq<Byte>)
    requires Writable(f)
  {
    |reserved| == 3 && var body := Header(f, reserved) + f.payload; bytes == body + digest(body)
  }

  /** `bytes` is `f` on the wire, whatever its three reserved bytes. */
  ghost predicate Encodes(bytes: seq<Byte>, f: Frame, digest: seq<Byte> -> seq<Byte>) {
    Writable(f) && exists reserved :: Written(bytes, f, reserved, digest)
  }

  /** What serializing comes to: the bytes with zero reserved bytes, for a frame that
      can be written, whose scale is good and whose dtype is text. */
  function Serialized(f: Frame, goodScale: seq<Byte> -> bool, isText: seq<Byte> -> bool, digest: seq<Byte> -> seq<Byte>): Result<seq<Byte>> {
    if Writable(f) && goodScale(f.scale) && isText(f.dtype) then
      var body := Header(f, [0, 0, 0]) + f.payload;
      Ok(body + digest(body))
    else Err
  }

  /** Serializes a frame; refuses what the wire format cannot carry. */
  method ToBytes(f: Frame, goodScale: seq<Byte> -> bool, isText: seq<Byte> -> bool, digest: seq<Byte> -> seq<Byte>)
    returns (r: Result<seq<Byte>>)
    requires |f.scale| == 4
    ensures r == Serialized(f, goodScale, isText, digest)
  {
    if !isText(f.dtype) || |f.dtype| > 255 || |f.shape| > 255 || !goodScale(f.scale) || !IsSigned(f.zeroPoint) {
      return Err;
    }
    if !(0 <= f.formatId < 256) {
      return Err;
    }
    var words: seq<Byte> := [];
    for i := 0 to |f.shape|
      invariant AreWords(f.shape[..i]) && words == Words(f.shape[..i])
    {
      if !IsWord(f.shape[i]) {
        assert f.shape[i] in f.shape;
        return Err;
      }
      assert f.shape[..i + 1][..i] == f.shape[..i];
      assert f.shape[..i + 1] == f.shape[..i] + [f.shape[i]];
      words := words + Word(f.shape[i]);
    }
    assert f.shape[..|f.shape|] == f.shape;
    var reserved: seq<Byte> := [0, 0, 0];
    var header := MAGIC + [f.formatId] + reserved + f.scale + SignedWord(f.zeroPoint)
      + [|f.dtype|] + f.dtype + [|f.shape|] + words;
    return Ok(header + f.payload + digest(header + f.payload));
  }

  /** The fields of a frame at their offsets. */
  predicate At(bytes: seq<Byte>, f: Frame) {
    var d, n := |f.dtype|, |f.shape|;
    && 18 + d + 4 * n + TRAILER_LEN <= |bytes| && |f.scale| == 4 && AreWords(f.shape) && IsSigned(f.zeroPoint)
    && bytes[..4] == MAGIC && bytes[4] == f.formatId && bytes[8..12] == f.scale
    && bytes[12..16] == SignedWord(f.zeroPoint)
    && bytes[16] == d && bytes[17..17 + d] == f.dtype
    && bytes[17 + d] == n && bytes[18 + d..18 + d + 4 * n] == Words(f.shape)
    && bytes[18 + d + 4 * n..|bytes| - TRAILER_LEN] == f.payload
  }

  /** A part of the head is a part of the whole. */
  lemma Within(head: seq<Byte>, tail: seq<Byte>, i: nat, j: nat)
    requires i <= j <= |head|
    ensures (head + tail)[i..j] == head[i..j]
  {
  }

  lemma HeaderFields(f: Frame, reserved: seq<Byte>)
    requires Writable(f) && |reserved| == 3
    ensures var h, d, n := Header(f, reserved), |f.dtype|, |f.shape|;
            && |h| == 18 + d + 4 * n && h[..4] == MAGIC && h[4] == f.formatId && h[8..12] == f.scale
            && h[12..16] == SignedWord(f.zeroPoint) && h[16] == d && h[17..17 + d] == f.dtype
            && h[17 + d] == n && h[18 + d..] == Words(f.shape)
  {
  }

  lemma HeaderAt(f: Frame, reserved: seq<Byte>, trailer: seq<Byte>)
    requires Writable(f) && |reserved| == 3 && |trailer| == TRAILER_LEN
    ensures At(Header(f, reserved) + f.payload + trailer, f)
  {
    var h := Header(f, reserved);
    var bytes := h + f.payload + trailer;
    var d, n := |f.dtype|, |f.shape|;
    HeaderFields(f, reserved);
    Within(h, f.payload + trailer, 0, 4);
    Within(h, f.payload + trailer, 8, 12);
    Within(h, f.payload + trailer, 12, 16);
    Within(h, f.payload + trailer, 17, 17 + d);
    Within(h, f.payload + trailer, 18 + d, 18 + d + 4 * n);
    assert bytes == h + (f.payload + trailer);
    assert bytes[18 + d + 4 * n..|bytes| - TRAILER_LEN] == f.payload;
  }

  lemma Longer(b: seq<Byte>, i: nat, j: nat)
    requires i <= j <= |b|
    ensures b[..j] == b[..i] + b[i..j]
  {
  }

  lemma FixedParts(b: seq<Byte>)
    requires 17 <= |b|
    ensures b[..17] == b[..4] + [b[4]] + b[5..8] + b[8..12] + b[12..16] + [b[16]]
  {
    Longer(b, 4, 5);
    Longer(b, 5, 8);
    Longer(b, 8, 12);
    Longer(b, 12, 16);
    Longer(b, 16, 17);
    assert b[4..5] == [b[4]] && b[16..17] == [b[16]];
  }

  lemma OpenParts(b: seq<Byte>, d: nat, end: nat)
    requires 18 + d <= end <= |b|
    ensures b[..end] == b[..17] + b[17..17 + d] + [b[17 + d]] + b[18 + d..end]
  {
    Longer(b, 17, 17 + d);
    Longer(b, 17 + d, 18 + d);
    Longer(b, 18 + d, end);
    assert b[17 + d..18 + d] == [b[17 + d]];
  }

  lemma AtIsHeader(bytes: seq<Byte>, f: Frame)
    requires At(bytes, f)
    ensures Writable(f)
    ensures bytes[..|bytes| - TRAILER_LEN] == Header(f, bytes[5..8]) + f.payload
  {
    var d, n := |f.dtype|, |f.shape|;
    FixedParts(bytes);
    OpenParts(bytes, d, 18 + d + 4 * n);
    Longer(bytes, 18 + d + 4 * n, |bytes| - TRAILER_LEN);
  }

  /** The fields at their offsets are determined by the bytes. */
  lemma AtIsUnique(bytes: seq<Byte>, f: Frame, g: Frame)
    requires At(bytes, f) && At(bytes, g)
    ensures f == g
  {
    SignedInverse(f.zeroPoint, f.scale);
    SignedInverse(g.zeroPoint, g.scale);
    WordsInverse(f.shape);
    WordsInverse(g.shape);
  }

  predicate Sealed(bytes: seq<Byte>, digest: seq<Byte> -> seq<Byte>)
    requires TRAILER_LEN <= |bytes|
  {
    bytes[|bytes| - TRAILER_LEN..] == digest(bytes[..|bytes| - TRAILER_LEN])
  }

  lemma WrittenAt(bytes: seq<Byte>, f: Frame, reserved: seq<Byte>, digest: seq<Byte> -> seq<Byte>)
    requires IsDigest(digest) && Writable(f) && Written(bytes, f, reserved, digest)
    ensures At(bytes, f) && Sealed(bytes, digest)
  {
    var body := Header(f, reserved) + f.payload;
    HeaderAt(f, reserved, digest(body));
    assert bytes[..|bytes| - TRAILER_LEN] == body;
  }

  lemma AtIsWritten(bytes: seq<Byte>, f: Frame, digest: seq<Byte> -> seq<Byte>)
    requires At(bytes, f) && Sealed(bytes, digest)
    ensures Writable(f) && Written(bytes, f, bytes[5..8], digest)
  {
    AtIsHeader(bytes, f);
    assert bytes == bytes[..|bytes| - TRAILER_LEN] + bytes[|bytes| - TRAILER_LEN..];
  }

  /** Wire bytes and frames, related by offsets and the trailer. */
  lemma EncodesIff(bytes: seq<Byte>, f: Frame, digest: seq<Byte> -> seq<Byte>)
    requires IsDigest(digest)
    ensures Encodes(bytes, f, digest) <==> At(bytes, f) && Sealed(bytes, digest)
  {
    if Encodes(bytes, f, digest) {
      var reserved :| Written(bytes, f, reserved, digest);
      WrittenAt(bytes, f, reserved, digest);
    }
    if At(bytes, f) && Sealed(bytes, digest) {
      AtIsWritten(bytes, f, digest);
    }
  }

  /** Parses wire bytes: succeeds exactly on the bytes of some frame whose dtype is text,
      and returns that frame. */
  method FromBytes(bytes: seq<Byte>, isText: seq<Byte> -> bool, digest: seq<Byte> -> seq<Byte>) returns (r: Result<Frame>)
    requires IsDigest(digest)
    ensures r.Ok? ==> Encodes(bytes, r.value, digest) && isText(r.value.dtype)
    ensures forall f :: Encodes(bytes, f, digest) && isText(f.dtype) ==> r == Ok(f)
  {
    r := Err;
    if MAGIC <= bytes && |bytes| >= 18 {
      r := Fields(bytes, isText);
      if r.Ok? {
        var end := |bytes| - TRAILER_LEN;
        if digest(bytes[..end]) != bytes[end..] {
          r := Err;
        }
      }
    }
    forall f | Encodes(bytes, f, digest) && isText(f.dtype) ensures r == Ok(f) {
      EncodesIff(bytes, f, digest);
      if r.Ok? {
        AtIsUnique(bytes, f, r.value);
      }
    }
    if r.Ok? {
      EncodesIff(bytes, r.value, digest);
    }
  }

  /** Reads the fields one after the other, moving an offset. */
  method Fields(bytes: seq<Byte>, isText: seq<Byte> -> bool) returns (r: Result<Frame>)
    requires MAGIC <= bytes && |bytes| >= 18
    ensures r.Ok? ==> At(bytes, r.value) && isText(r.value.dtype)
    ensures forall f :: At(bytes, f) && isText(f.dtype) ==> r.Ok?
  {
    var offset := 4;
    var formatId := bytes[offset];
    offset := offset + 1 + 3;
    var scale := bytes[offset..offset + 4];
    offset := offset + 4;
    var zero := bytes[offset..offset + 4];
    offset := offset + 4;
    var dtypeLen: int := bytes[offset];
    offset := offset + 1;
    if offset + dtypeLen >= |bytes| {
      return Err;
    }
    var dtype := bytes[offset..offset + dtypeLen];
    if !isText(dtype) {
      return Err;
    }
    offset := offset + dtypeLen;
    var count: int := bytes[offset];
    offset := offset + 1;
    if offset + 4 * count + TRAILER_LEN > |bytes| {
      return Err;
    }
    FrameAtHolds(bytes, dtypeLen, count);
    var shape := bytes[offset..offset + 4 * count];
    offset := offset + 4 * count;
    return Ok(Frame(formatId, scale, SignedValue(zero), dtype, WordValues(shape, count), bytes[offset..|bytes| - TRAILER_LEN]));
  }

  /** The frame that starts at the front of `bytes`, with `d` bytes of dtype and `n`
      dimensions. */
  function FrameAt(bytes: seq<Byte>, d: nat, n: nat): Frame
    requires 18 + d + 4 * n + TRAILER_LEN <= |bytes|
  {
    Frame(bytes[4], bytes[8..12], SignedValue(bytes[12..16]), bytes[17..17 + d],
          WordValues(bytes[18 + d..18 + d + 4 * n], n), bytes[18 + d + 4 * n..|bytes| - TRAILER_LEN])
  }

  lemma FrameAtHolds(bytes: seq<Byte>, d: nat, n: nat)
    requires 18 + d + 4 * n + TRAILER_LEN <= |bytes| && MAGIC <= bytes && bytes[16] == d && bytes[17 + d] == n
    ensures At(bytes, FrameAt(bytes, d, n))
  {
    SignedInverse(0, bytes[12..16]);
    ValuesInverse(bytes[18 + d..18 + d + 4 * n], n);
  }

  /** Parsing undoes serializing, for every frame that can be written. */
  method RoundTrip(f: Frame, goodScale: seq<Byte> -> bool, isText: seq<Byte> -> bool, digest: seq<Byte> -> seq<Byte>)
    returns (r: Result<Frame>)
    requires |f.scale| == 4 && IsDigest(digest)
    ensures r.Ok? <==> Writable(f) && goodScale(f.scale) && isText(f.dtype)
    ensures r.Ok? ==> r.value == f
  {
    var bytes := ToBytes(f, goodScale, isText, digest);
    if bytes.Err? {
      return Err;
    }
    assert Written(bytes.value, f, [0, 0, 0], digest);
    assert Encodes(bytes.value, f, digest);
    r := FromBytes(bytes.value, isText, digest);
  }

  lemma ReservedAreZeroIff(bytes: seq<Byte>, f: Frame, digest: seq<Byte> -> seq<Byte>)
    requires IsDigest(digest) && At(bytes, f) && Sealed(bytes, digest)
    ensures Writable(f)
    ensures Written(bytes, f, [0, 0, 0], digest) <==> bytes[5..8] == [0, 0, 0]
  {
    AtIsWritten(bytes, f, digest);
    var zero: seq<Byte> := [0, 0, 0];
    if Written(bytes, f, zero, digest) {
      assert bytes[5..8] == Header(f, zero)[5..8] == zero;
    }
  }

  /** Serializing what was parsed gives back the bytes exactly when the reserved bytes are
      zero and the scale is one the writer takes: the parser checks neither. */
  lemma ReserializesIff(bytes: seq<Byte>, f: Frame, goodScale: seq<Byte> -> bool, isText: seq<Byte> -> bool, digest: seq<Byte> -> seq<Byte>)
    requires IsDigest(digest) && Encodes(bytes, f, digest) && isText(f.dtype)
    ensures |bytes| >= 18
    ensures Serialized(f, goodScale, isText, digest) == Ok(bytes) <==> bytes[5..8] == [0, 0, 0] && goodScale(bytes[8..12])
  {
    EncodesIff(bytes, f, digest);
    ReservedAreZeroIff(bytes, f, digest);
  }

  /** The same at the two ends of a call: what is written of what was read. */
  method Reserialize(bytes: seq<Byte>, goodScale: seq<Byte> -> bool, isText: seq<Byte> -> bool, digest: seq<Byte> -> seq<Byte>)
    returns (read: Result<Frame>, written: Result<seq<Byte>>)
    requires IsDigest(digest)
    ensures read.Ok? ==> |bytes| >= 18 && (written == Ok(bytes) <==> bytes[5..8] == [0, 0, 0] && goodScale(bytes[8..12]))
  {
    written := Err;
    read := FromBytes(bytes, isText, digest);
    if read.Ok? {
      EncodesIff(bytes, read.value, digest);
      written := ToBytes(read.value, goodScale, isText, digest);
      ReserializesIff(bytes, read.value, goodScale, isText, digest);
    }
  }

  /** A frame with a negative or non-finite scale: its bytes, with zero reserved bytes and
      the right trailer, are the wire form of that frame alone, so they parse, and the
      writer refuses the frame. */
  lemma BadScaleIsReadNotWritten(f: Frame, goodScale: seq<Byte> -> bool, isText: seq<Byte> -> bool, digest: seq<Byte> -> seq<Byte>)
    requires IsDigest(digest) && Writable(f) && isText(f.dtype) && !goodScale(f.scale)
    ensures var body := Header(f, [0, 0, 0]) + f.payload;
      var bytes := body + digest(body);
      && bytes[5..8] == [0, 0, 0]
      && (forall g :: Encodes(bytes, g, digest) <==> g == f)
      && Serialized(f, goodScale, isText, digest) == Err
  {
    var zero: seq<Byte> := [0, 0, 0];
    var body := Header(f, zero) + f.payload;
    var bytes := body + digest(body);
    assert Written(bytes, f, zero, digest);
    WrittenAt(bytes, f, zero, digest);
    ReservedAreZeroIff(bytes, f, digest);
    forall g | Encodes(bytes, g, digest) ensures g == f {
      EncodesIff(bytes, g, digest);
      AtIsUnique(bytes, f, g);
    }
  }
}
