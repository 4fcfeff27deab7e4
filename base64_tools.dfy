/** The two Base64 endpoints of the toolkit. `/tools/base64/encode` turns a
    text into the Base64 encoding of its UTF-8 bytes; `/tools/base64/decode`
    turns a Base64 text back into the text its bytes spell in UTF-8. Any
    failure along the way becomes an HTTP 400 answer with a fixed message. */
module Base64Tools {
  import opened Common
  import Utf8
  import Base64

  const EncodeFailure: string := "Failed to encode string to Base64."
  const DecodeFailure: string := "Failed to decode Base64 string."

  /** What an endpoint answers: the text of its JSON field, or a 400 error
      with its detail message. */
  datatype Response = Ok(text: seq<CodePoint>) | BadRequest(detail: string)

  /** An ASCII text as the bytes of its code points. */
  function AsciiBytes(t: seq<CodePoint>): (b: seq<Byte>)
    requires IsAscii(t)
    ensures Utf8.Encode(t) == Some(b) && |b| == |t|
    ensures forall i :: 0 <= i < |t| ==> b[i] == t[i]
  {
    Utf8.EncodeAscii(t);
    if t == [] then [] else [t[0]] + AsciiBytes(t[1..])
  }

  /** `encode_base64`: UTF-8 encode the content (this fails on a lone
      surrogate), Base64 encode the bytes, and read the result back as UTF-8
      text. The answer is ASCII text, 4 characters for every 3 bytes of
      UTF-8 begun. */
  function EncodeBase64(content: seq<CodePoint>): (r: Response)
    ensures r.Ok? <==> Utf8.AllScalars(content)
    ensures r.BadRequest? ==> r.detail == EncodeFailure
    ensures r.Ok? ==> IsAscii(r.text)
    ensures r.Ok? ==> |r.text| == 4 * ((|Utf8.Encode(content).value| + 2) / 3)
  {
    match Utf8.Encode(content)
    case None => BadRequest(EncodeFailure)
    case Some(bytes) =>
      var encoded := Base64.Encode(bytes);
      Utf8.DecodeAscii(encoded);
      match Utf8.Decode(encoded)
      case None => BadRequest(EncodeFailure)
      case Some(text) => Ok(text)
  }

  /** `decode_base64`: UTF-8 encode the Base64 text, decode it, and read the
      bytes as UTF-8 text. Every failure (a lone surrogate, text that is not
      canonical Base64, bytes that are not UTF-8) gives the same 400 answer.
      Only ASCII input can succeed, and what comes out is always text UTF-8
      can carry. */
  function DecodeBase64(encoded: seq<CodePoint>): (r: Response)
    ensures r.BadRequest? ==> r.detail == DecodeFailure
    ensures r.Ok? <==>
      && IsAscii(encoded) && Base64.WellFormed(AsciiBytes(encoded))
      && Utf8.Decode(Base64.Decode(AsciiBytes(encoded)).value).Some?
    ensures r.Ok? ==> Utf8.AllScalars(r.text)
    ensures r.Ok? ==> Utf8.Encode(r.text) == Base64.Decode(AsciiBytes(encoded))
  {
    match Utf8.Encode(encoded)
    case None => BadRequest(DecodeFailure)
    case Some(raw) =>
      match Base64.Decode(raw)
      case None => BadRequest(DecodeFailure)
      case Some(bytes) =>
        match Utf8.Decode(bytes)
        case None => BadRequest(DecodeFailure)
        case Some(text) =>
          AsciiOnly(encoded);
          Utf8.EncodeDecode(bytes);
          Ok(text)
  }

  /** Text whose UTF-8 encoding is ASCII is itself ASCII, code point for
      byte. */
  lemma AsciiEncoding(t: seq<CodePoint>, b: seq<Byte>)
    requires Utf8.Encode(t) == Some(b) && IsAscii(b)
    ensures t == b
  {
    Utf8.DecodeEncode(t);
    Utf8.DecodeAscii(b);
  }

  /** A well-formed Base64 text is ASCII: the decoder refuses every other
      input. */
  lemma AsciiOnly(encoded: seq<CodePoint>)
    requires Utf8.Encode(encoded).Some? && Base64.WellFormed(Utf8.Encode(encoded).value)
    ensures IsAscii(encoded)
  {
    var raw := Utf8.Encode(encoded).value;
    Base64.WellFormedAscii(raw);
    AsciiEncoding(encoded, raw);
  }

  /** The encode endpoint answers with the Base64 encoding of the UTF-8
      bytes, character for byte. */
  lemma EncodeBase64Text(content: seq<CodePoint>)
    requires Utf8.AllScalars(content)
    ensures EncodeBase64(content).text == Base64.Encode(Utf8.Encode(content).value)
  {
    Utf8.DecodeAscii(Base64.Encode(Utf8.Encode(content).value));
  }

  /** Round trip: the decode endpoint gives back every text the encode
      endpoint accepts. */
  lemma DecodeEncodeBase64(content: seq<CodePoint>)
    requires Utf8.AllScalars(content)
    ensures DecodeBase64(EncodeBase64(content).text) == Ok(content)
  {
    var bytes := Utf8.Encode(content).value;
    var encoded := Base64.Encode(bytes);
    EncodeBase64Text(content);
    Utf8.EncodeAscii(encoded);
    Base64.DecodeEncode(bytes);
    Utf8.DecodeEncode(content);
  }

  /** Base64 text the decoder accepts and whose pad bits are zero. */
  predicate Canonical(encoded: seq<CodePoint>) {
    && Utf8.Encode(encoded).Some?
    && Base64.WellFormed(Utf8.Encode(encoded).value)
    && Base64.ZeroPadBits(Utf8.Encode(encoded).value)
  }

  /** The other direction: encoding what a canonical text decodes to gives
      that text back. */
  lemma EncodeDecodeBase64(encoded: seq<CodePoint>)
    requires DecodeBase64(encoded).Ok? && Canonical(encoded)
    ensures EncodeBase64(DecodeBase64(encoded).text) == Ok(encoded)
  {
    var raw := Utf8.Encode(encoded).value;
    var bytes := Base64.Decode(raw).value;
    var text := DecodeBase64(encoded).text;
    Base64.EncodeDecode(raw);
    Utf8.EncodeDecode(bytes);
    AsciiOnly(encoded);
    AsciiEncoding(encoded, raw);
    EncodeBase64Text(text);
  }
  /** The examples of the toolkit's tests: "hello world" (code points
      104 101 108 108 111 32 119 111 114 108 100) encodes to
      "aGVsbG8gd29ybGQ=" (97 71 86 115 98 71 56 103 100 50 57 121 98 71 81
      61), and that decodes back to "hello world". */
  lemma HelloWorld(t: seq<CodePoint>, e: seq<CodePoint>)
    requires t == [104, 101, 108, 108, 111, 32, 119, 111, 114, 108, 100]
    requires e == [97, 71, 86, 115, 98, 71, 56, 103, 100, 50, 57, 121, 98, 71, 81, 61]
    ensures EncodeBase64(t) == Ok(e)
    ensures DecodeBase64(e) == Ok(t)
  {
    Utf8.EncodeAscii(t);
    Base64.HelloWorld(Utf8.Encode(t).value, AsciiBytes(e));
    EncodeBase64Text(t);
    DecodeEncodeBase64(t);
  }
}
