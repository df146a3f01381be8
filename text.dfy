/**
 * The text primitives the letter client relies on from its JavaScript host:
 * UTF-8 encoding and decoding (what TextEncoder and TextDecoder do, after
 * section 3 of RFC 3629), a string's `length` in UTF-16 code units, and
 * `String.prototype.trim`.
 *
 * Dafny's `char` is a Unicode scalar value, so a string here is a sequence of
 * scalar values; JavaScript's lone surrogates have no counterpart.
 */
module Text {
  import opened Wrappers

  type byte = b: int | 0 <= b < 256

  // ---------------------------------------------------------------------------
  // UTF-8 encoding (section 3 of RFC 3629)
  // ---------------------------------------------------------------------------

  /**
   * The UTF-8 encoding of one scalar value: one to four bytes, the lead byte
   * carrying the high bits and each continuation byte six more.
   */
  function EncodeChar(c: char): (b: seq<byte>)
    ensures 1 <= |b| <= 4
    ensures |b| == 1 <==> c as int < 0x80
    ensures |b| == 4 <==> c as int >= 0x10000
  {
    var cp := c as int;
    var u1 := cp / 64;
    var u2 := u1 / 64;
    var u3 := u2 / 64;
    if cp < 0x80 then [cp]
    else if cp < 0x800 then [0xC0 + u1, 0x80 + cp % 64]
    else if cp < 0x10000 then [0xE0 + u2, 0x80 + u1 % 64, 0x80 + cp % 64]
    else [0xF0 + u3, 0x80 + u2 % 64, 0x80 + u1 % 64, 0x80 + cp % 64]
  }

  /** TextEncoder.encode: the concatenated encodings of the characters, in order; one to four bytes each. */
  function Utf8Encode(s: string): (b: seq<byte>)
    ensures |s| <= |b| <= 4 * |s|
  {
    if s == [] then [] else EncodeChar(s[0]) + Utf8Encode(s[1..])
  }

  lemma {:induction false} Utf8EncodeAppend(s: string, t: string)
    ensures Utf8Encode(s + t) == Utf8Encode(s) + Utf8Encode(t)
  {
    if s != [] {
      assert (s + t)[1..] == s[1..] + t;
      Utf8EncodeAppend(s[1..], t);
    } else {
      assert s + t == t;
    }
  }

  /** Only the NUL character encodes to a byte sequence that ends in a zero byte. */
  lemma {:induction false} Utf8EncodeEndsInZero(s: string)
    requires s != []
    ensures Utf8Encode(s) != []
    ensures Utf8Encode(s)[|Utf8Encode(s)| - 1] == 0 <==> s[|s| - 1] == '\0'
  {
    var init, last := s[..|s| - 1], s[|s| - 1];
    assert s == init + [last];
    Utf8EncodeAppend(init, [last]);
    assert Utf8Encode([last]) == EncodeChar(last) + Utf8Encode([]);
  }

  // ---------------------------------------------------------------------------
  // UTF-8 decoding
  // ---------------------------------------------------------------------------

  /** How many bytes a sequence starting with this lead byte occupies; 0 if it is not a lead byte. */
  function LeadLength(b0: byte): nat
  {
    if b0 < 0x80 then 1
    else if b0 < 0xC0 then 0
    else if b0 < 0xE0 then 2
    else if b0 < 0xF0 then 3
    else if b0 < 0xF8 then 4
    else 0
  }

  /** The payload bits of a one- to four-byte sequence, assembled as a code point. */
  function CodePoint(b: seq<byte>): nat
    requires 1 <= |b| <= 4
  {
    var b0: int := b[0];
    if |b| == 1 then b0
    else if |b| == 2 then (b0 % 32) * 64 + Payload(b[1])
    else if |b| == 3 then ((b0 % 16) * 64 + Payload(b[1])) * 64 + Payload(b[2])
    else (((b0 % 8) * 64 + Payload(b[1])) * 64 + Payload(b[2])) * 64 + Payload(b[3])
  }

  /** The six low bits of a continuation byte. */
  function Payload(b: byte): int
  {
    (b as int) % 64
  }

  predicate IsScalarValue(cp: int)
  {
    0 <= cp < 0xD800 || 0xE000 <= cp < 0x110000
  }

  /**
   * The character that the well-formed sequence at the start of `b` encodes.
   * A sequence is well-formed when it is exactly the encoding of the code point
   * it carries; that rules out stray continuation bytes, overlong forms,
   * surrogates and values past U+10FFFF, as RFC 3629 does.
   */
  function DecodeFirst(b: seq<byte>): (r: Option<char>)
    requires b != []
    ensures r.Some? ==> |EncodeChar(r.value)| <= |b| && b[..|EncodeChar(r.value)|] == EncodeChar(r.value)
  {
    var n := LeadLength(b[0]);
    if n == 0 || |b| < n then None
    else
      var cp := CodePoint(b[..n]);
      if IsScalarValue(cp) && EncodeChar(cp as char) == b[..n] then Some(cp as char) else None
  }

  /**
   * UTF-8 decoding of well-formed input; None where the input is malformed.
   */
  function Utf8Decode(b: seq<byte>): Option<string>
    decreases |b|
  {
    if b == [] then Some([])
    else
      match DecodeFirst(b)
      case None => None
      case Some(c) =>
        match Utf8Decode(b[|EncodeChar(c)|..])
        case None => None
        case Some(rest) => Some([c] + rest)
  }

  lemma EncodeCharLead(c: char)
    ensures LeadLength(EncodeChar(c)[0]) == |EncodeChar(c)|
    ensures CodePoint(EncodeChar(c)) == c as int
  {
    var cp := c as int;
    if cp < 0x80 {
    } else if cp < 0x800 {
      EncodeTwo(c);
    } else if cp < 0x10000 {
      EncodeThree(c);
    } else {
      EncodeFour(c);
    }
  }

  lemma EncodeTwo(c: char)
    requires 0x80 <= c as int < 0x800
    ensures LeadLength(EncodeChar(c)[0]) == 2 && CodePoint(EncodeChar(c)) == c as int
  {
    var cp := c as int;
    var u1 := cp / 64;
    var b := EncodeChar(c);
    assert b == [0xC0 + u1, 0x80 + cp % 64];
    assert (0xC0 + u1) % 32 == u1;
    assert Payload(b[1]) == cp % 64;
  }

  lemma EncodeThree(c: char)
    requires 0x800 <= c as int < 0x10000
    ensures LeadLength(EncodeChar(c)[0]) == 3 && CodePoint(EncodeChar(c)) == c as int
  {
    var cp := c as int;
    var u1 := cp / 64;
    var u2 := u1 / 64;
    var b := EncodeChar(c);
    assert b == [0xE0 + u2, 0x80 + u1 % 64, 0x80 + cp % 64];
    assert cp == u1 * 64 + cp % 64;
    assert u1 == u2 * 64 + u1 % 64;
    assert (0xE0 + u2) % 16 == u2;
    assert Payload(b[1]) == u1 % 64 && Payload(b[2]) == cp % 64;
  }

  lemma EncodeFour(c: char)
    requires 0x10000 <= c as int
    ensures LeadLength(EncodeChar(c)[0]) == 4 && CodePoint(EncodeChar(c)) == c as int
  {
    var cp := c as int;
    var u1 := cp / 64;
    var u2 := u1 / 64;
    var u3 := u2 / 64;
    var b := EncodeChar(c);
    assert b == [0xF0 + u3, 0x80 + u2 % 64, 0x80 + u1 % 64, 0x80 + cp % 64];
    assert cp == u1 * 64 + cp % 64;
    assert u1 == u2 * 64 + u1 % 64;
    assert u2 == u3 * 64 + u2 % 64;
    assert (0xF0 + u3) % 8 == u3;
    assert Payload(b[1]) == u2 % 64 && Payload(b[2]) == u1 % 64 && Payload(b[3]) == cp % 64;
  }

  lemma DecodeFirstOfEncoding(c: char, rest: seq<byte>)
    ensures DecodeFirst(EncodeChar(c) + rest) == Some(c)
  {
    var b := EncodeChar(c) + rest;
    EncodeCharLead(c);
    assert b[..|EncodeChar(c)|] == EncodeChar(c);
    assert (CodePoint(EncodeChar(c)) as char) == c;
  }

  /** Decoding undoes encoding: TextDecoder(TextEncoder(s)) == s. */
  lemma {:induction false} DecodeEncode(s: string)
    ensures Utf8Decode(Utf8Encode(s)) == Some(s)
  {
    if s != [] {
      var b := Utf8Encode(s);
      DecodeFirstOfEncoding(s[0], Utf8Encode(s[1..]));
      assert b[|EncodeChar(s[0])|..] == Utf8Encode(s[1..]);
      DecodeEncode(s[1..]);
      assert [s[0]] + s[1..] == s;
    }
  }

  /** Whatever decodes re-encodes to the same bytes: the decoder accepts only canonical UTF-8. */
  lemma {:induction false} EncodeDecode(b: seq<byte>, s: string)
    requires Utf8Decode(b) == Some(s)
    ensures Utf8Encode(s) == b
    decreases |b|
  {
    if b != [] {
      DecodeStep(b, s);
      var n := |EncodeChar(s[0])|;
      EncodeDecode(b[n..], s[1..]);
      assert b == b[..n] + b[n..];
    }
  }

  /** One step of a successful decoding: the first character, then the decoding of the rest. */
  lemma DecodeStep(b: seq<byte>, s: string)
    requires b != [] && Utf8Decode(b) == Some(s)
    ensures s != [] && |EncodeChar(s[0])| <= |b| && b[..|EncodeChar(s[0])|] == EncodeChar(s[0])
    ensures Utf8Decode(b[|EncodeChar(s[0])|..]) == Some(s[1..])
  {
    var c := DecodeFirst(b).value;
    var rest := Utf8Decode(b[|EncodeChar(c)|..]).value;
    assert s == [c] + rest;
    assert s[1..] == rest;
  }

  // ---------------------------------------------------------------------------
  // TextDecoder: UTF-8 decoding after a leading byte order mark
  // ---------------------------------------------------------------------------

  /** U+FEFF, the byte order mark. */
  const BOM: char := '\U{FEFF}'

  /** Its UTF-8 encoding. */
  const BOM_BYTES: seq<byte> := [0xEF, 0xBB, 0xBF]

  /** The string without its first character when that character is a byte order mark. */
  function WithoutLeadingBom(s: string): string
  {
    if s != [] && s[0] == BOM then s[1..] else s
  }

  /**
   * `new TextDecoder().decode(b)`: the decoder's default `ignoreBOM: false`
   * consumes one leading byte order mark instead of returning it; the rest is
   * UTF-8-decoded.
   */
  function TextDecode(b: seq<byte>): Option<string>
  {
    if |b| >= 3 && b[..3] == BOM_BYTES then Utf8Decode(b[3..]) else Utf8Decode(b)
  }

  /** Two characters with the same encoding are the same character. */
  lemma EncodeCharInjective(c: char, d: char)
    requires EncodeChar(c) == EncodeChar(d)
    ensures c == d
  {
    DecodeFirstOfEncoding(c, []);
    DecodeFirstOfEncoding(d, []);
    assert EncodeChar(c) + [] == EncodeChar(d) + [];
  }

  /** An encoding starts with the bytes EF BB BF exactly when the string starts with U+FEFF. */
  lemma EncodingStartsWithBom(s: string)
    ensures (|Utf8Encode(s)| >= 3 && Utf8Encode(s)[..3] == BOM_BYTES) <==> (s != [] && s[0] == BOM)
    ensures s != [] && s[0] == BOM ==> Utf8Encode(s)[3..] == Utf8Encode(s[1..])
  {
    assert EncodeChar(BOM) == BOM_BYTES;
    if s != [] {
      var b := Utf8Encode(s);
      var head := EncodeChar(s[0]);
      assert b == head + Utf8Encode(s[1..]);
      if |b| >= 3 && b[..3] == BOM_BYTES {
        EncodeCharLead(s[0]);
        assert head[0] == b[0] == 0xEF;
        assert LeadLength(head[0]) == 3;
        assert head == b[..3];
        EncodeCharInjective(s[0], BOM);
      }
    }
  }

  /** TextDecoder after TextEncoder gives back the string, less a leading U+FEFF. */
  lemma TextDecodeEncode(s: string)
    ensures TextDecode(Utf8Encode(s)) == Some(WithoutLeadingBom(s))
    ensures s == [] || s[0] != BOM ==> TextDecode(Utf8Encode(s)) == Some(s)
  {
    EncodingStartsWithBom(s);
    if s != [] && s[0] == BOM {
      DecodeEncode(s[1..]);
    } else {
      DecodeEncode(s);
    }
  }

  /**
   * Whatever TextDecoder returns re-encodes to its input, or to its input
   * without a leading EF BB BF when the input starts with one.
   */
  lemma TextEncodeDecode(b: seq<byte>, s: string)
    requires TextDecode(b) == Some(s)
    ensures |b| >= 3 && b[..3] == BOM_BYTES ==> BOM_BYTES + Utf8Encode(s) == b
    ensures !(|b| >= 3 && b[..3] == BOM_BYTES) ==> Utf8Encode(s) == b
  {
    if |b| >= 3 && b[..3] == BOM_BYTES {
      EncodeDecode(b[3..], s);
      assert b == b[..3] + b[3..];
    } else {
      EncodeDecode(b, s);
    }
  }

  // ---------------------------------------------------------------------------
  // JavaScript string length and trim
  // ---------------------------------------------------------------------------

  /**
   * A string's `length` in JavaScript: characters past U+FFFF take two UTF-16
   * code units, so the length equals the character count exactly when every
   * character is in the Basic Multilingual Plane.
   */
  function Utf16Length(s: string): (n: nat)
    ensures |s| <= n <= 2 * |s|
    ensures n == |s| <==> forall i :: 0 <= i < |s| ==> s[i] as int < 0x10000
  {
    if s == [] then 0 else (if s[0] as int >= 0x10000 then 2 else 1) + Utf16Length(s[1..])
  }

  /** Every UTF-16 code unit costs at most three UTF-8 bytes; ASCII costs exactly one. */
  lemma {:induction false} Utf8LengthBound(s: string)
    ensures |s| <= Utf16Length(s) <= 2 * |s|
    ensures |Utf8Encode(s)| <= 3 * Utf16Length(s)
    ensures (forall i :: 0 <= i < |s| ==> s[i] as int < 0x80) ==> |Utf8Encode(s)| == Utf16Length(s) == |s|
  {
    if s != [] {
      Utf8LengthBound(s[1..]);
      assert forall i :: 1 <= i < |s| ==> s[1..][i - 1] == s[i];
    }
  }

  /** `length` of a concatenation. */
  lemma {:induction false} Utf16Append(s: string, t: string)
    ensures Utf16Length(s + t) == Utf16Length(s) + Utf16Length(t)
  {
    if s != [] {
      assert (s + t)[1..] == s[1..] + t;
      Utf16Append(s[1..], t);
    } else {
      assert s + t == t;
    }
  }

  /** Length and encoded size of a string repeating one character. */
  lemma {:induction false} CodeUnitsOfRepeat(c: char, n: nat)
    ensures Utf16Length(seq(n, _ => c)) == n * (if c as int >= 0x10000 then 2 else 1)
    ensures |Utf8Encode(seq(n, _ => c))| == n * |EncodeChar(c)|
  {
    if n > 0 {
      var s := seq(n, _ => c);
      var k := if c as int >= 0x10000 then 2 else 1;
      var w := |EncodeChar(c)|;
      assert s[0] == c;
      assert s[1..] == seq(n - 1, _ => c);
      CodeUnitsOfRepeat(c, n - 1);
      assert Utf16Length(s) == k + (n - 1) * k;
      assert |Utf8Encode(s)| == w + (n - 1) * w;
      assert n * k == k + (n - 1) * k && n * w == w + (n - 1) * w;
    }
  }

  /** The characters String.prototype.trim removes: ECMAScript WhiteSpace and LineTerminator. */
  predicate IsJsWhitespace(c: char)
  {
    ('\U{0009}' <= c <= '\U{000D}') || c == '\U{0020}' || c == '\U{00A0}' || c == '\U{1680}' ||
    ('\U{2000}' <= c <= '\U{200A}') || c == '\U{2028}' || c == '\U{2029}' || c == '\U{202F}' ||
    c == '\U{205F}' || c == '\U{3000}' || c == '\U{FEFF}'
  }

  /** Leading whitespace removed: a suffix of s that is empty or starts with a non-whitespace character. */
  function TrimStart(s: string): (r: string)
    ensures |r| <= |s| && r == s[|s| - |r|..]
    ensures r == [] || !IsJsWhitespace(r[0])
  {
    if s != [] && IsJsWhitespace(s[0]) then TrimStart(s[1..]) else s
  }

  /** Trailing whitespace removed: a prefix of s that is empty or ends in a non-whitespace character. */
  function TrimEnd(s: string): (r: string)
    ensures |r| <= |s| && r == s[..|r|]
    ensures r == [] || !IsJsWhitespace(r[|r| - 1])
  {
    if s != [] && IsJsWhitespace(s[|s| - 1]) then TrimEnd(s[..|s| - 1]) else s
  }

  /**
   * String.prototype.trim: whitespace removed from both ends. What is left is
   * a contiguous part of s that is empty or starts and ends with a
   * non-whitespace character.
   */
  function Trim(s: string): (r: string)
    ensures |r| <= |s|
    ensures r == [] || (!IsJsWhitespace(r[0]) && !IsJsWhitespace(r[|r| - 1]))
  {
    TrimEnd(TrimStart(s))
  }

  predicate IsBlank(s: string)
  {
    forall i :: 0 <= i < |s| ==> IsJsWhitespace(s[i])
  }

  lemma {:induction false} TrimStartEmpty(s: string)
    ensures TrimStart(s) == [] <==> IsBlank(s)
  {
    if s != [] && IsJsWhitespace(s[0]) {
      TrimStartEmpty(s[1..]);
      assert forall i :: 1 <= i < |s| ==> s[1..][i - 1] == s[i];
    }
  }

  lemma {:induction false} TrimEndKeepsNonBlankHead(s: string)
    requires s != [] && !IsJsWhitespace(s[0])
    ensures TrimEnd(s) != []
    decreases |s|
  {
    if IsJsWhitespace(s[|s| - 1]) {
      TrimEndKeepsNonBlankHead(s[..|s| - 1]);
    }
  }

  /** `!s.trim()` holds exactly when s is empty or consists of whitespace only. */
  lemma TrimEmptyIffBlank(s: string)
    ensures Trim(s) == [] <==> IsBlank(s)
  {
    TrimStartEmpty(s);
    if TrimStart(s) != [] {
      TrimEndKeepsNonBlankHead(TrimStart(s));
    }
  }
}
