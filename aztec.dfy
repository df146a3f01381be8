/**
 * The text <-> field codec of app/lib/aztec.ts.
 *
 * A letter travels as one field element. `StringToField` UTF-8-encodes the
 * message, keeps at most FIELD_BYTES bytes, right-pads them with zero bytes to
 * exactly FIELD_BYTES and reads the buffer as a big-endian integer.
 * `FieldToString` serialises the field to a buffer, drops the trailing zero
 * bytes and decodes the rest.
 *
 * The SDK's `Fr` is modelled by its integer value: `FromBuffer` is the
 * big-endian reading of a buffer and `ToBuffer(v, width)` the big-endian
 * writing in `width` bytes, the width being a parameter because the SDK's
 * serialised width is not fixed by this code.
 */
module Aztec {
  import opened Wrappers
  import opened Text
  import opened AztecSdk

  /** "Max 31 bytes per Field". */
  const FIELD_BYTES: nat := 31

  // ---------------------------------------------------------------------------
  // Big-endian field buffers
  // ---------------------------------------------------------------------------

  function Pow256(n: nat): (p: nat)
    ensures p >= 1
  {
    if n == 0 then 1 else 256 * Pow256(n - 1)
  }

  /** Fr.fromBuffer: the buffer read as a big-endian unsigned integer, so the last byte is the lowest digit. */
  function FromBuffer(buf: seq<byte>): (v: nat)
    ensures buf != [] ==> v % 256 == buf[|buf| - 1]
  {
    if buf == [] then 0 else FromBuffer(buf[..|buf| - 1]) * 256 + buf[|buf| - 1]
  }

  /**
   * Fr.toBuffer in `width` bytes: the value written big-endian, high bytes
   * beyond the width dropped; the lowest digit is the last byte.
   */
  function ToBuffer(v: nat, width: nat): (buf: seq<byte>)
    ensures |buf| == width
    ensures width > 0 ==> buf[width - 1] == v % 256
  {
    if width == 0 then [] else ToBuffer(v / 256, width - 1) + [v % 256]
  }

  function Zeros(n: nat): (z: seq<byte>)
    ensures |z| == n
    ensures forall i :: 0 <= i < n ==> z[i] == 0
  {
    seq(n, i => 0)
  }

  /** A buffer of n bytes holds values below 256^n: 31 bytes is what fits a field element. */
  lemma {:induction false} FromBufferBound(buf: seq<byte>)
    ensures FromBuffer(buf) < Pow256(|buf|)
    decreases |buf|
  {
    if buf != [] {
      var init := buf[..|buf| - 1];
      FromBufferBound(init);
      assert FromBuffer(init) + 1 <= Pow256(|init|);
      assert FromBuffer(buf) < (FromBuffer(init) + 1) * 256;
    }
  }

  lemma {:induction false} ToBufferZero(width: nat)
    ensures ToBuffer(0, width) == Zeros(width)
  {
    if width > 0 {
      ToBufferZero(width - 1);
    }
  }

  /**
   * Writing the value of a buffer back in `width >= |buf|` bytes gives the
   * buffer preceded by `width - |buf|` zero bytes; with `width == |buf|` it is
   * the buffer itself.
   */
  lemma {:induction false} ToBufferOfFromBuffer(buf: seq<byte>, width: nat)
    requires width >= |buf|
    ensures ToBuffer(FromBuffer(buf), width) == Zeros(width - |buf|) + buf
    decreases |buf|
  {
    if buf == [] {
      ToBufferZero(width);
    } else {
      var init, last := buf[..|buf| - 1], buf[|buf| - 1];
      var v := FromBuffer(buf);
      assert v / 256 == FromBuffer(init) && v % 256 == last;
      ToBufferOfFromBuffer(init, width - 1);
      assert Zeros(width - 1 - |init|) + init + [last] == Zeros(width - |buf|) + buf;
    }
  }

  /** Reading back what ToBuffer wrote gives the value, whenever the value fits the width. */
  lemma {:induction false} FromBufferOfToBuffer(v: nat, width: nat)
    requires v < Pow256(width)
    ensures FromBuffer(ToBuffer(v, width)) == v
  {
    if width > 0 {
      var buf := ToBuffer(v, width);
      assert buf[..|buf| - 1] == ToBuffer(v / 256, width - 1);
      FromBufferOfToBuffer(v / 256, width - 1);
    }
  }

  // ---------------------------------------------------------------------------
  // stringToField: truncate, pad, read
  // ---------------------------------------------------------------------------

  /** `bytes.slice(0, n)`. */
  function Truncate(b: seq<byte>, n: nat): (t: seq<byte>)
    ensures |t| == if |b| <= n then |b| else n
    ensures t == b[..|t|]
  {
    if |b| <= n then b else b[..n]
  }

  /** The 31-byte buffer stringToField builds from the encoded message. */
  function Padded(b: seq<byte>): (p: seq<byte>)
    ensures |p| == FIELD_BYTES
  {
    var t := Truncate(b, FIELD_BYTES);
    t + Zeros(FIELD_BYTES - |t|)
  }

  /** The field element stringToField produces for a message. */
  function EncodeField(message: string): nat
  {
    FromBuffer(Padded(Utf8Encode(message)))
  }

  /**
   * `new Uint8Array(31)` followed by `padded.set(bytes.slice(0, 31))`: the
   * buffer has exactly 31 bytes, begins with the first min(|bytes|, 31) bytes
   * of the input and is zero after them. Longer input is cut, never refused.
   */
  method PadToFieldWidth(bytes: seq<byte>) returns (buffer: seq<byte>)
    ensures |buffer| == FIELD_BYTES
    ensures forall i :: 0 <= i < |buffer| && i < |bytes| ==> buffer[i] == bytes[i]
    ensures forall i :: |bytes| <= i < |buffer| ==> buffer[i] == 0
    ensures buffer == Padded(bytes)
  {
    var truncated := Truncate(bytes, FIELD_BYTES);
    var padded := new byte[FIELD_BYTES](_ => 0);
    var i := 0;
    while i < |truncated|
      invariant 0 <= i <= |truncated|
      invariant forall k :: 0 <= k < i ==> padded[k] == truncated[k]
      invariant forall k :: i <= k < padded.Length ==> padded[k] == 0
    {
      padded[i] := truncated[i];
      i := i + 1;
    }
    buffer := padded[..];
    assert buffer == Padded(bytes);
  }

  /** stringToField: the message's padded 31-byte buffer read as a field element below 256^31. */
  method StringToField(message: string) returns (field: nat)
    ensures field == EncodeField(message)
    ensures ToBuffer(field, FIELD_BYTES) == Padded(Utf8Encode(message))
  {
    var bytes := Utf8Encode(message);
    var padded := PadToFieldWidth(bytes);
    field := FromBuffer(padded);
    ToBufferOfFromBuffer(padded, FIELD_BYTES);
  }

  /** Every encoded message fits in 31 bytes: the field is below 256^31. */
  lemma {:induction false} EncodedFieldBound(message: string)
    ensures EncodeField(message) < Pow256(FIELD_BYTES)
  {
    FromBufferBound(Padded(Utf8Encode(message)));
  }

  /** Bytes at index 31 and beyond of two encodings never change the field. */
  lemma PaddedIgnoresTail(b: seq<byte>, b': seq<byte>)
    requires |b| >= FIELD_BYTES && |b'| >= FIELD_BYTES
    requires b[..FIELD_BYTES] == b'[..FIELD_BYTES]
    ensures Padded(b) == Padded(b')
    ensures FromBuffer(Padded(b)) == FromBuffer(Padded(b'))
  {
  }

  // ---------------------------------------------------------------------------
  // fieldToString: serialise, strip trailing zeros, decode
  // ---------------------------------------------------------------------------

  /** The buffer with its trailing zero bytes removed: a prefix that is empty or ends in a non-zero byte. */
  function StripTrailingZeros(b: seq<byte>): (r: seq<byte>)
    ensures |r| <= |b| && r == b[..|r|]
    ensures r == [] || r[|r| - 1] != 0
    decreases |b|
  {
    if b != [] && b[|b| - 1] == 0 then StripTrailingZeros(b[..|b| - 1]) else b
  }

  /** The stripped buffer is a prefix whose removed tail is all zeros and whose last byte is not zero. */
  lemma {:induction false} StripShape(b: seq<byte>)
    ensures |StripTrailingZeros(b)| <= |b|
    ensures StripTrailingZeros(b) == b[..|StripTrailingZeros(b)|]
    ensures forall i :: |StripTrailingZeros(b)| <= i < |b| ==> b[i] == 0
    ensures StripTrailingZeros(b) != [] ==> StripTrailingZeros(b)[|StripTrailingZeros(b)| - 1] != 0
    decreases |b|
  {
    if b != [] && b[|b| - 1] == 0 {
      StripShape(b[..|b| - 1]);
    }
  }

  /** A cut point with only zeros after it and a non-zero byte before it is where the strip ends. */
  lemma {:induction false} StripAt(b: seq<byte>, k: nat)
    requires k <= |b|
    requires forall i :: k <= i < |b| ==> b[i] == 0
    requires k > 0 ==> b[k - 1] != 0
    ensures StripTrailingZeros(b) == b[..k]
    decreases |b|
  {
    if k < |b| {
      StripAt(b[..|b| - 1], k);
    }
  }

  /** Stripping twice is stripping once. */
  lemma {:induction false} StripIdempotent(b: seq<byte>)
    ensures StripTrailingZeros(StripTrailingZeros(b)) == StripTrailingZeros(b)
  {
    var s := StripTrailingZeros(b);
    StripShape(b);
    StripAt(s, |s|);
  }

  /** A buffer that does not end in a zero byte is returned unchanged. */
  lemma StripKeepsNonZeroEnd(b: seq<byte>)
    requires b == [] || b[|b| - 1] != 0
    ensures StripTrailingZeros(b) == b
  {
  }

  /** Padding with zeros is invisible to the strip. */
  lemma StripPadding(b: seq<byte>, n: nat)
    ensures StripTrailingZeros(b + Zeros(n)) == StripTrailingZeros(b)
  {
    var s := StripTrailingZeros(b);
    StripShape(b);
    var bz := b + Zeros(n);
    StripAt(bz, |s|);
    assert bz[..|s|] == s;
  }

  /**
   * The strip loop of fieldToString on the serialised buffer: `end` ends with
   * every byte from `end` on zero and, when positive, a non-zero byte just
   * before it; `buffer[..end]` is the stripped buffer.
   */
  method TrailingZeroStart(buffer: array<byte>) returns (end: nat)
    ensures end <= buffer.Length
    ensures forall i :: end <= i < buffer.Length ==> buffer[i] == 0
    ensures end > 0 ==> buffer[end - 1] != 0
    ensures buffer[..end] == StripTrailingZeros(buffer[..])
  {
    end := buffer.Length;
    while end > 0 && buffer[end - 1] == 0
      invariant 0 <= end <= buffer.Length
      invariant forall i :: end <= i < buffer.Length ==> buffer[i] == 0
    {
      end := end - 1;
    }
    StripAt(buffer[..], end);
  }

  /** What fieldToString returns for a field serialised in `width` bytes. */
  function DecodeField(field: nat, width: nat): Option<string>
  {
    TextDecode(StripTrailingZeros(ToBuffer(field, width)))
  }

  /** fieldToString: serialise, strip the trailing zero bytes, decode the rest with a default TextDecoder. */
  method FieldToString(field: nat, width: nat) returns (text: Option<string>)
    ensures text == DecodeField(field, width)
  {
    var bytes := ToBuffer(field, width);
    var buffer := new byte[width](i requires 0 <= i < width => bytes[i]);
    assert buffer[..] == bytes;
    var end := TrailingZeroStart(buffer);
    text := TextDecode(buffer[..end]);
  }

  // ---------------------------------------------------------------------------
  // Round trips
  // ---------------------------------------------------------------------------

  /**
   * Byte-level round trip through a 31-byte field: the first 31 bytes of the
   * input with their trailing zeros removed; the input itself when it fits and
   * does not end in a zero byte.
   */
  lemma ByteRoundTrip(b: seq<byte>)
    ensures StripTrailingZeros(ToBuffer(FromBuffer(Padded(b)), FIELD_BYTES))
         == StripTrailingZeros(Truncate(b, FIELD_BYTES))
    ensures |b| <= FIELD_BYTES && (b == [] || b[|b| - 1] != 0) ==>
            StripTrailingZeros(ToBuffer(FromBuffer(Padded(b)), FIELD_BYTES)) == b
  {
    var t := Truncate(b, FIELD_BYTES);
    PaddedSerialises(b);
    StripPadding(t, FIELD_BYTES - |t|);
    if |b| <= FIELD_BYTES && (b == [] || b[|b| - 1] != 0) {
      StripKeepsNonZeroEnd(b);
    }
  }

  /** The padded buffer is exactly what a 31-byte serialisation of its value gives back. */
  lemma PaddedSerialises(b: seq<byte>)
    ensures ToBuffer(FromBuffer(Padded(b)), FIELD_BYTES) == Padded(b)
  {
    var p := Padded(b);
    ToBufferOfFromBuffer(p, FIELD_BYTES);
    assert Zeros(0) + p == p;
  }

  /** What a message becomes after a trip through a 31-byte field: its first 31 UTF-8 bytes, stripped, decoded. */
  lemma TextRoundTripTruncates(message: string)
    ensures DecodeField(EncodeField(message), FIELD_BYTES)
         == TextDecode(StripTrailingZeros(Truncate(Utf8Encode(message), FIELD_BYTES)))
  {
    ByteRoundTrip(Utf8Encode(message));
  }

  /**
   * A message of at most 31 UTF-8 bytes that does not end in NUL survives the
   * trip through a 31-byte field, except that TextDecoder consumes a leading
   * U+FEFF.
   */
  lemma TextRoundTrip(message: string)
    requires |Utf8Encode(message)| <= FIELD_BYTES
    requires message == [] || message[|message| - 1] != '\0'
    ensures DecodeField(EncodeField(message), FIELD_BYTES) == Some(WithoutLeadingBom(message))
    ensures message == [] || message[0] != BOM ==> DecodeField(EncodeField(message), FIELD_BYTES) == Some(message)
  {
    var b := Utf8Encode(message);
    if message != [] {
      Utf8EncodeEndsInZero(message);
    }
    ByteRoundTrip(b);
    TextDecodeEncode(message);
  }

  /** Stripping the truncated bytes leaves the padded buffer as it was. */
  lemma PaddedOfStripped(b: seq<byte>)
    ensures Padded(StripTrailingZeros(Truncate(b, FIELD_BYTES))) == Padded(b)
  {
    var t := Truncate(b, FIELD_BYTES);
    var s := StripTrailingZeros(t);
    StripShape(t);
    var ps := s + Zeros(FIELD_BYTES - |s|);
    var pb := t + Zeros(FIELD_BYTES - |t|);
    assert Padded(s) == ps;
    assert Padded(b) == pb;
    forall i | 0 <= i < FIELD_BYTES
      ensures ps[i] == pb[i]
    {
      if i < |s| {
        assert ps[i] == s[i] == t[i] == pb[i];
      } else if i < |t| {
        assert ps[i] == 0 == t[i];
      }
    }
  }

  /** The stripped, truncated bytes start with EF BB BF exactly when the whole encoding does. */
  lemma StrippedKeepsBom(b: seq<byte>)
    ensures var s := StripTrailingZeros(Truncate(b, FIELD_BYTES));
            (|s| >= 3 && s[..3] == BOM_BYTES) <==> (|b| >= 3 && b[..3] == BOM_BYTES)
  {
    var t := Truncate(b, FIELD_BYTES);
    var s := StripTrailingZeros(t);
    StripShape(t);
    if |b| >= 3 && b[..3] == BOM_BYTES {
      assert t[2] == 0xBF;
    }
  }

  /**
   * Re-encoding a decoded letter gives back the field it was decoded from,
   * once the leading U+FEFF that TextDecoder consumed is put back.
   */
  lemma ReencodeFixedPoint(message: string, decoded: string)
    requires DecodeField(EncodeField(message), FIELD_BYTES) == Some(decoded)
    ensures message == [] || message[0] != BOM ==> EncodeField(decoded) == EncodeField(message)
    ensures message != [] && message[0] == BOM ==> EncodeField([BOM] + decoded) == EncodeField(message)
  {
    var b := Utf8Encode(message);
    var s := StripTrailingZeros(Truncate(b, FIELD_BYTES));
    TextRoundTripTruncates(message);
    TextEncodeDecode(s, decoded);
    PaddedOfStripped(b);
    StrippedKeepsBom(b);
    EncodingStartsWithBom(message);
    if message != [] && message[0] == BOM {
      Utf8EncodeAppend([BOM], decoded);
      assert Utf8Encode([BOM]) == BOM_BYTES by {
        assert EncodeChar(BOM) == BOM_BYTES;
        assert Utf8Encode([BOM]) == EncodeChar(BOM) + Utf8Encode([]);
      }
      assert Utf8Encode([BOM] + decoded) == s;
    } else {
      assert Utf8Encode(decoded) == s;
    }
  }

  /**
   * TextDecoder's default consumes a leading byte order mark: "\uFEFFhi" comes
   * back as "hi", and "hi" is a different field.
   */
  lemma LeadingBomIsDropped()
    ensures DecodeField(EncodeField([BOM] + "hi"), FIELD_BYTES) == Some("hi")
    ensures EncodeField("hi") != EncodeField([BOM] + "hi")
  {
    var m := [BOM] + "hi";
    assert m[0] == BOM && m[1..] == "hi" && m[|m| - 1] == 'i';
    TextRoundTrip(m);
    var e, e' := Utf8Encode(m), Utf8Encode("hi");
    assert e == EncodeChar(BOM) + Utf8Encode(m[1..]);
    assert e' == EncodeChar('h') + Utf8Encode("i");
    var p, q := Padded(e), Padded(e');
    assert p[0] == 0xEF && q[0] == 0x68;
    ToBufferOfFromBuffer(p, FIELD_BYTES);
    ToBufferOfFromBuffer(q, FIELD_BYTES);
    assert Zeros(0) + p == p && Zeros(0) + q == q;
  }

  /**
   * Serialised wider than 31 bytes, the field keeps its leading zero bytes:
   * the strip removes only trailing zeros, so they stay in the decoded bytes.
   */
  lemma WideSerialisation(message: string, width: nat)
    requires width >= FIELD_BYTES
    ensures ToBuffer(EncodeField(message), width) == Zeros(width - FIELD_BYTES) + Padded(Utf8Encode(message))
    ensures StripTrailingZeros(ToBuffer(EncodeField(message), width))
         == (if StripTrailingZeros(Padded(Utf8Encode(message))) == [] then []
             else Zeros(width - FIELD_BYTES) + StripTrailingZeros(Padded(Utf8Encode(message))))
  {
    var p := Padded(Utf8Encode(message));
    var z := Zeros(width - FIELD_BYTES);
    ToBufferOfFromBuffer(p, width);
    var s := StripTrailingZeros(p);
    StripShape(p);
    var zp := z + p;
    var k := if s == [] then 0 else |z| + |s|;
    forall i | k <= i < |zp|
      ensures zp[i] == 0
    {
      if i >= |z| {
        assert zp[i] == p[i - |z|];
      }
    }
    if s != [] {
      assert zp[k - 1] == p[|s| - 1] == s[|s| - 1];
    }
    StripAt(zp, k);
    if s != [] {
      assert zp[..k] == z + s;
    }
  }

  // ---------------------------------------------------------------------------
  // isValidAztecAddress
  // ---------------------------------------------------------------------------

  /** isValidAztecAddress: total; true exactly when AztecAddress.fromString accepts the string. */
  function IsValidAztecAddress(parse: AddressParser, address: string): (valid: bool)
    ensures valid <==> exists a :: parse(address) == Success(a)
  {
    parse(address).Success?
  }
}
