/** UTF-8 as RFC 3629 defines it, with the strict error behaviour of Python's
    "utf-8" codec: `str.encode` refuses surrogate code points, and
    `bytes.decode` refuses every ill-formed byte sequence (overlong forms,
    encoded surrogates, values above U+10FFFF, stray or missing continuation
    bytes). */
module Utf8 {
  import opened Common

  predicate IsSurrogate(c: CodePoint) { 0xD800 <= c <= 0xDFFF }

  /** A Unicode scalar value: a code point UTF-8 can represent. */
  predicate IsScalar(c: CodePoint) { !IsSurrogate(c) }

  predicate AllScalars(s: seq<CodePoint>) {
    forall i :: 0 <= i < |s| ==> IsScalar(s[i])
  }

  predicate IsContinuation(b: Byte) { 0x80 <= b <= 0xBF }

  /** Number of bytes RFC 3629 section 3 uses for a scalar value. */
  function Width(c: CodePoint): nat {
    if c < 0x80 then 1 else if c < 0x800 then 2 else if c < 0x1_0000 then 3 else 4
  }

  /** The encoding of one scalar value (RFC 3629 section 3). */
  function EncodeScalar(c: CodePoint): (r: seq<Byte>)
    requires IsScalar(c)
    ensures |r| == Width(c)
  {
    if c < 0x80 then [c]
    else if c < 0x800 then [0xC0 + c / 64, 0x80 + c % 64]
    else if c < 0x1_0000 then [0xE0 + c / 4096, 0x80 + (c / 64) % 64, 0x80 + c % 64]
    else [0xF0 + c / 262144, 0x80 + (c / 4096) % 64, 0x80 + (c / 64) % 64, 0x80 + c % 64]
  }

  /** `s.encode("utf-8")`: fails exactly when `s` holds a surrogate. */
  function Encode(s: seq<CodePoint>): (r: Option<seq<Byte>>)
    ensures r.Some? <==> AllScalars(s)
    ensures r.Some? ==> |s| <= |r.value| <= 4 * |s|
  {
    if s == [] then Some([])
    else if IsSurrogate(s[0]) then None
    else
      match Encode(s[1..])
      case None => None
      case Some(rest) => Some(EncodeScalar(s[0]) + rest)
  }

  /** The scalar value encoded at the head of `b` and the number of bytes it
      takes, or None when the head is not a well-formed UTF-8 sequence
      (the byte ranges of RFC 3629 section 4). */
  function DecodeFirst(b: seq<Byte>): (r: Option<(CodePoint, nat)>)
    requires b != []
    ensures r.Some? ==> IsScalar(r.value.0) && r.value.1 == Width(r.value.0) <= |b|
  {
    var b0 := b[0] as int;
    if b0 < 0x80 then Some((b0, 1))
    else if 0xC2 <= b0 <= 0xDF then
      if 2 <= |b| && IsContinuation(b[1]) then
        Some(((b0 - 0xC0) * 64 + (b[1] as int - 0x80), 2))
      else None
    else if 0xE0 <= b0 <= 0xEF then
      if 3 <= |b| && IsContinuation(b[1]) && IsContinuation(b[2]) then
        var c := (b0 - 0xE0) * 4096 + (b[1] as int - 0x80) * 64 + (b[2] as int - 0x80);
        if c < 0x800 || IsSurrogate(c) then None else Some((c, 3))
      else None
    else if 0xF0 <= b0 <= 0xF4 then
      if 4 <= |b| && IsContinuation(b[1]) && IsContinuation(b[2]) && IsContinuation(b[3]) then
        var c := (b0 - 0xF0) * 262144 + (b[1] as int - 0x80) * 4096 + (b[2] as int - 0x80) * 64 + (b[3] as int - 0x80);
        if c < 0x1_0000 || 0x10_FFFF < c then None else Some((c, 4))
      else None
    else None
  }

  /** `b.decode("utf-8")` with the default strict error handler. */
  function Decode(b: seq<Byte>): (r: Option<seq<CodePoint>>)
    ensures r.Some? ==> AllScalars(r.value) && |r.value| <= |b|
    decreases |b|
  {
    if b == [] then Some([])
    else
      match DecodeFirst(b)
      case None => None
      case Some((c, n)) =>
        match Decode(b[n..])
        case None => None
        case Some(rest) => Some([c] + rest)
  }

  /** A value below 2^12 and its two base-64 digits. */
  lemma Digits2(c: int)
    requires 0 <= c < 4096
    ensures c == c / 64 * 64 + c % 64 && c / 64 < 64
  {
  }

  /** A value below 2^18 and its three base-64 digits. */
  lemma Digits3(c: int)
    requires 0 <= c < 262144
    ensures c == c / 4096 * 4096 + (c / 64) % 64 * 64 + c % 64 && c / 4096 < 64
  {
    assert c / 4096 == (c / 64) / 64;
  }

  /** A value below 2^24 and its four base-64 digits. */
  lemma Digits4(c: int)
    requires 0 <= c < 16777216
    ensures c == c / 262144 * 262144 + (c / 4096) % 64 * 4096 + (c / 64) % 64 * 64 + c % 64
  {
    assert c / 4096 == (c / 64) / 64;
    assert c / 262144 == (c / 4096) / 64;
  }

  /** Base-64 digits put together give back each digit. */
  lemma FromDigits2(x0: int, x1: int)
    requires 0 <= x0 && 0 <= x1 < 64
    ensures var c := x0 * 64 + x1; c / 64 == x0 && c % 64 == x1
  {
  }

  lemma FromDigits3(x0: int, x1: int, x2: int)
    requires 0 <= x0 && 0 <= x1 < 64 && 0 <= x2 < 64
    ensures var c := x0 * 4096 + x1 * 64 + x2;
      c / 4096 == x0 && (c / 64) % 64 == x1 && c % 64 == x2
  {
    var c := x0 * 4096 + x1 * 64 + x2;
    FromDigits2(x0 * 64 + x1, x2);
    FromDigits2(x0, x1);
    assert c == (x0 * 64 + x1) * 64 + x2;
    assert c / 4096 == (c / 64) / 64;
  }

  lemma FromDigits4(x0: int, x1: int, x2: int, x3: int)
    requires 0 <= x0 && 0 <= x1 < 64 && 0 <= x2 < 64 && 0 <= x3 < 64
    ensures var c := x0 * 262144 + x1 * 4096 + x2 * 64 + x3;
      c / 262144 == x0 && (c / 4096) % 64 == x1 && (c / 64) % 64 == x2 && c % 64 == x3
  {
    var c := x0 * 262144 + x1 * 4096 + x2 * 64 + x3;
    FromDigits3(x0 * 64 + x1, x2, x3);
    FromDigits2(x0, x1);
    assert c == (x0 * 64 + x1) * 4096 + x2 * 64 + x3;
    assert c / 262144 == (c / 4096) / 64;
  }

  lemma DecodeFirstOfEncoded2(c: CodePoint, rest: seq<Byte>)
    requires 0x80 <= c < 0x800
    ensures DecodeFirst(EncodeScalar(c) + rest) == Some((c, 2))
  {
    var e := EncodeScalar(c) + rest;
    Digits2(c);
    assert e[0] == 0xC0 + c / 64 && e[1] == 0x80 + c % 64;
  }

  lemma DecodeFirstOfEncoded3(c: CodePoint, rest: seq<Byte>)
    requires 0x800 <= c < 0x1_0000 && IsScalar(c)
    ensures DecodeFirst(EncodeScalar(c) + rest) == Some((c, 3))
  {
    var e := EncodeScalar(c) + rest;
    Digits3(c);
    assert e[0] == 0xE0 + c / 4096 && e[1] == 0x80 + (c / 64) % 64 && e[2] == 0x80 + c % 64;
  }

  lemma DecodeFirstOfEncoded4(c: CodePoint, rest: seq<Byte>)
    requires 0x1_0000 <= c
    ensures DecodeFirst(EncodeScalar(c) + rest) == Some((c, 4))
  {
    var e := EncodeScalar(c) + rest;
    Digits4(c);
    assert e[0] == 0xF0 + c / 262144 && e[1] == 0x80 + (c / 4096) % 64;
    assert e[2] == 0x80 + (c / 64) % 64 && e[3] == 0x80 + c % 64;
  }

  /** Decoding the encoding of a scalar value reads back that value and
      consumes exactly its encoding. */
  lemma DecodeFirstOfEncoded(c: CodePoint, rest: seq<Byte>)
    requires IsScalar(c)
    ensures DecodeFirst(EncodeScalar(c) + rest) == Some((c, Width(c)))
  {
    if c < 0x80 {
      assert (EncodeScalar(c) + rest)[0] == c;
    } else if c < 0x800 {
      DecodeFirstOfEncoded2(c, rest);
    } else if c < 0x1_0000 {
      DecodeFirstOfEncoded3(c, rest);
    } else {
      DecodeFirstOfEncoded4(c, rest);
    }
  }

  lemma Canonical2(b: seq<Byte>)
    requires 2 <= |b| && 0xC2 <= b[0] <= 0xDF && IsContinuation(b[1])
    ensures var c := (b[0] as int - 0xC0) * 64 + (b[1] as int - 0x80);
      0x80 <= c < 0x800 && b == EncodeScalar(c) + b[2..]
  {
    FromDigits2(b[0] as int - 0xC0, b[1] as int - 0x80);
    assert b == [b[0], b[1]] + b[2..];
  }

  lemma Canonical3(b: seq<Byte>, c: CodePoint)
    requires 3 <= |b| && 0xE0 <= b[0] <= 0xEF && IsContinuation(b[1]) && IsContinuation(b[2])
    requires c == (b[0] as int - 0xE0) * 4096 + (b[1] as int - 0x80) * 64 + (b[2] as int - 0x80)
    requires 0x800 <= c && IsScalar(c)
    ensures b == EncodeScalar(c) + b[3..]
  {
    FromDigits3(b[0] as int - 0xE0, b[1] as int - 0x80, b[2] as int - 0x80);
    assert b == [b[0], b[1], b[2]] + b[3..];
  }

  lemma Canonical4(b: seq<Byte>, c: CodePoint)
    requires 4 <= |b| && 0xF0 <= b[0] <= 0xF4
    requires IsContinuation(b[1]) && IsContinuation(b[2]) && IsContinuation(b[3])
    requires c == (b[0] as int - 0xF0) * 262144 + (b[1] as int - 0x80) * 4096
      + (b[2] as int - 0x80) * 64 + (b[3] as int - 0x80)
    requires 0x1_0000 <= c
    ensures b == EncodeScalar(c) + b[4..]
  {
    FromDigits4(b[0] as int - 0xF0, b[1] as int - 0x80, b[2] as int - 0x80, b[3] as int - 0x80);
    assert b == [b[0], b[1], b[2], b[3]] + b[4..];
  }

  /** Whatever `DecodeFirst` accepts is the encoding of the value it returns:
      the decoder admits no overlong or other non-canonical form. */
  lemma DecodeFirstIsCanonical(b: seq<Byte>)
    requires b != [] && DecodeFirst(b).Some?
    ensures b == EncodeScalar(DecodeFirst(b).value.0) + b[DecodeFirst(b).value.1..]
  {
    var c := DecodeFirst(b).value.0;
    var b0 := b[0] as int;
    if b0 < 0x80 {
      assert b == [b[0]] + b[1..];
    } else if b0 <= 0xDF {
      Canonical2(b);
    } else if b0 <= 0xEF {
      Canonical3(b, c);
    } else {
      Canonical4(b, c);
    }
  }

  /** Round trip: decoding the UTF-8 encoding of a text gives the text back. */
  lemma {:induction false} DecodeEncode(s: seq<CodePoint>)
    requires AllScalars(s)
    ensures Encode(s).Some? && Decode(Encode(s).value) == Some(s)
  {
    if s != [] {
      DecodeEncode(s[1..]);
      var rest := Encode(s[1..]).value;
      var e := EncodeScalar(s[0]) + rest;
      assert Encode(s).value == e;
      DecodeFirstOfEncoded(s[0], rest);
      assert e[Width(s[0])..] == rest;
      assert [s[0]] + s[1..] == s;
    }
  }

  /** The other direction: every byte string that decodes is the encoding of
      what it decodes to, so decoding is injective on its domain. */
  lemma {:induction false} EncodeDecode(b: seq<Byte>)
    requires Decode(b).Some?
    ensures Encode(Decode(b).value) == Some(b)
    decreases |b|
  {
    if b != [] {
      var n := DecodeFirst(b).value.1;
      EncodeDecode(b[n..]);
      EncodeDecodeCons(b);
    }
  }

  /** One step of `EncodeDecode`: the first encoded code point in front of
      a tail that survives the round trip. */
  lemma EncodeDecodeCons(b: seq<Byte>)
    requires b != [] && Decode(b).Some?
    requires var n := DecodeFirst(b).value.1;
      Decode(b[n..]).Some? && Encode(Decode(b[n..]).value) == Some(b[n..])
    ensures Encode(Decode(b).value) == Some(b)
  {
    var c, n := DecodeFirst(b).value.0, DecodeFirst(b).value.1;
    var tail := Decode(b[n..]).value;
    DecodeFirstIsCanonical(b);
    EncodeCons(c, tail);
    assert Decode(b).value == [c] + tail;
  }

  /** Encoding a text is encoding its first code point, then the rest. */
  lemma EncodeCons(c: CodePoint, s: seq<CodePoint>)
    requires IsScalar(c) && Encode(s).Some?
    ensures Encode([c] + s) == Some(EncodeScalar(c) + Encode(s).value)
  {
    assert ([c] + s)[1..] == s;
  }

  /** ASCII bytes decode to the same values, one code point per byte. */
  lemma {:induction false} DecodeAscii(b: seq<Byte>)
    requires IsAscii(b)
    ensures Decode(b) == Some(b)
    decreases |b|
  {
    if b != [] {
      DecodeAscii(b[1..]);
      assert [b[0]] + b[1..] == b;
    }
  }

  /** ASCII code points encode to the same values, one byte per code point. */
  lemma {:induction false} EncodeAscii(s: seq<CodePoint>)
    requires forall i :: 0 <= i < |s| ==> s[i] < 0x80
    ensures Encode(s) == Some(s)
  {
    if s != [] {
      EncodeAscii(s[1..]);
      assert [s[0]] + s[1..] == s;
    }
  }
}
