/** The UUID endpoint of the toolkit, `/tools/uuid/generate`: 16 random
    bytes become a version 4 UUID (section 4.4 of RFC 4122) in its canonical
    text form, 8-4-4-4-12 lowercase hex digits. The random bytes are a
    parameter. */
module UuidTools {
  import opened Common

  /** The bytes of a UUID, most significant first. */
  type UuidBytes = b: seq<Byte> | |b| == 16 witness seq(16, _ => 0)

  /** `UUID(bytes=..., version=4)`: the four version bits, the high nibble
      of byte 6, become 0100, and the two variant bits, the top of byte 8,
      become 10. */
  function SetVersion(b: UuidBytes): UuidBytes {
    b[6 := b[6] % 16 + 0x40][8 := b[8] % 64 + 0x80]
  }

  /** A lowercase hex digit for a nibble. */
  function Hex(n: int): (c: char)
    requires 0 <= n < 16
    ensures IsHex(c)
  {
    if n < 10 then (48 + n) as char else (97 + n - 10) as char
  }

  predicate IsHex(c: char) {
    ('0' <= c <= '9') || ('a' <= c <= 'f')
  }

  function HexValue(c: char): (n: int)
    requires IsHex(c)
    ensures 0 <= n < 16 && Hex(n) == c
  {
    if c <= '9' then c as int - 48 else c as int - 97 + 10
  }

  /** The bytes as hex, two digits each, high nibble first: `'%032x' % int`
      of the UUID's integer. */
  function HexOf(b: seq<Byte>): (s: string)
    ensures |s| == 2 * |b|
  {
    if b == [] then [] else [Hex(b[0] / 16), Hex(b[0] % 16)] + HexOf(b[1..])
  }

  /** The hex digits in groups of 8, 4, 4, 4 and 12, joined by hyphens. */
  function Group(h: string): (s: string)
    requires |h| == 32
    ensures |s| == 36
  {
    h[..8] + "-" + h[8..12] + "-" + h[12..16] + "-" + h[16..20] + "-" + h[20..]
  }

  /** `str(uuid)`. */
  function Format(u: UuidBytes): string {
    Group(HexOf(u))
  }

  /** `generate_uuid`: the text of the version 4 UUID made of the random
      bytes. */
  function GenerateUuid(random: UuidBytes): string {
    Format(SetVersion(random))
  }

  // ---------------------------------------------------------------------
  // Reading a UUID back

  /** Text of the form `str` gives: 36 characters, hyphens at 8, 13, 18 and
      23 and lowercase hex digits elsewhere. */
  predicate IsUuidText(s: string) {
    && |s| == 36
    && forall i :: 0 <= i < 36 ==>
         if i == 8 || i == 13 || i == 18 || i == 23 then s[i] == '-' else IsHex(s[i])
  }

  predicate AllHex(h: string) {
    forall i :: 0 <= i < |h| ==> IsHex(h[i])
  }

  /** The bytes written by an even number of hex digits. */
  function Unhex(h: string): (b: seq<Byte>)
    requires |h| % 2 == 0 && AllHex(h)
    ensures |b| == |h| / 2
  {
    if h == [] then [] else [16 * HexValue(h[0]) + HexValue(h[1])] + Unhex(h[2..])
  }

  /** The hex digits of a UUID text, hyphens dropped. */
  function Ungroup(s: string): (h: string)
    requires |s| == 36
    ensures |h| == 32
  {
    s[..8] + s[9..13] + s[14..18] + s[19..23] + s[24..]
  }

  /** `UUID(s)` on canonical text: the bytes its digits write. */
  function Parse(s: string): UuidBytes
    requires IsUuidText(s)
  {
    UngroupHex(s);
    Unhex(Ungroup(s))
  }

  // ---------------------------------------------------------------------
  // Properties

  lemma {:induction false} HexOfAt(b: seq<Byte>, i: int)
    requires 0 <= i < |b|
    ensures HexOf(b)[2 * i] == Hex(b[i] / 16) && HexOf(b)[2 * i + 1] == Hex(b[i] % 16)
  {
    if i > 0 {
      HexOfAt(b[1..], i - 1);
    }
  }

  lemma HexOfAllHex(b: seq<Byte>)
    ensures AllHex(HexOf(b))
  {
    forall k | 0 <= k < |HexOf(b)|
      ensures IsHex(HexOf(b)[k])
    {
      HexOfAt(b, k / 2);
    }
  }

  /** Reading back hex digits gives the bytes. */
  lemma {:induction false} UnhexHexOf(b: seq<Byte>)
    ensures AllHex(HexOf(b)) && Unhex(HexOf(b)) == b
  {
    HexOfAllHex(b);
    if b != [] {
      var h := HexOf(b);
      assert h[2..] == HexOf(b[1..]);
      UnhexHexOf(b[1..]);
    }
  }

  /** Writing out bytes read from hex digits gives the digits. */
  lemma {:induction false} HexOfUnhex(h: string)
    requires |h| % 2 == 0 && AllHex(h)
    ensures HexOf(Unhex(h)) == h
  {
    if h != [] {
      var b := Unhex(h);
      HexOfUnhex(h[2..]);
      assert b[1..] == Unhex(h[2..]);
      HexPair(h[0], h[1]);
      assert HexOf(b) == [h[0], h[1]] + HexOf(b[1..]);
      assert h == [h[0], h[1]] + h[2..];
    }
  }

  /** The byte two hex digits write has them as its nibbles. */
  lemma HexPair(c0: char, c1: char)
    requires IsHex(c0) && IsHex(c1)
    ensures var n := 16 * HexValue(c0) + HexValue(c1);
      Hex(n / 16) == c0 && Hex(n % 16) == c1
  {
  }

  /** Dropping the hyphens of grouped digits gives the digits. */
  lemma UngroupGroup(h: string)
    requires |h| == 32
    ensures Ungroup(Group(h)) == h
  {
    var s := Group(h);
    assert s[..8] == h[..8];
    assert s[9..13] == h[8..12];
    assert s[14..18] == h[12..16];
    assert s[19..23] == h[16..20];
    assert s[24..] == h[20..];
    assert h == h[..8] + h[8..12] + h[12..16] + h[16..20] + h[20..];
  }

  /** The digits of UUID text, grouped again, give the text. */
  lemma GroupUngroup(s: string)
    requires IsUuidText(s)
    ensures Group(Ungroup(s)) == s
  {
    var h := Ungroup(s);
    var g := Group(h);
    forall i | 0 <= i < 36
      ensures g[i] == s[i]
    {
      if i < 8 {
        assert g[i] == h[i] == s[i];
      } else if i == 8 || i == 13 || i == 18 || i == 23 {
      } else if i < 13 {
        assert g[i] == h[i - 1] == s[i];
      } else if i < 18 {
        assert g[i] == h[i - 2] == s[i];
      } else if i < 23 {
        assert g[i] == h[i - 3] == s[i];
      } else {
        assert g[i] == h[i - 4] == s[i];
      }
    }
  }

  lemma UngroupHex(s: string)
    requires IsUuidText(s)
    ensures AllHex(Ungroup(s))
  {
    var h := Ungroup(s);
    forall i | 0 <= i < 32
      ensures IsHex(h[i])
    {
      if i < 8 {
        assert h[i] == s[i];
      } else if i < 12 {
        assert h[i] == s[i + 1];
      } else if i < 16 {
        assert h[i] == s[i + 2];
      } else if i < 20 {
        assert h[i] == s[i + 3];
      } else {
        assert h[i] == s[i + 4];
      }
    }
  }

  /** The text of a UUID has the canonical form. */
  lemma FormatIsUuidText(u: UuidBytes)
    ensures IsUuidText(Format(u))
  {
    var h := HexOf(u);
    HexOfAllHex(u);
    var s := Format(u);
    forall i | 0 <= i < 36
      ensures if i == 8 || i == 13 || i == 18 || i == 23 then s[i] == '-' else IsHex(s[i])
    {
      if i < 8 {
        assert s[i] == h[i];
      } else if i == 8 || i == 13 || i == 18 || i == 23 {
      } else if i < 13 {
        assert s[i] == h[i - 1];
      } else if i < 18 {
        assert s[i] == h[i - 2];
      } else if i < 23 {
        assert s[i] == h[i - 3];
      } else {
        assert s[i] == h[i - 4];
      }
    }
  }

  /** `UUID(str(u)) == u`. */
  lemma ParseFormat(u: UuidBytes)
    ensures IsUuidText(Format(u)) && Parse(Format(u)) == u
  {
    FormatIsUuidText(u);
    UngroupGroup(HexOf(u));
    UnhexHexOf(u);
  }

  /** `str(UUID(s)) == s` on canonical text. */
  lemma FormatParse(s: string)
    requires IsUuidText(s)
    ensures Format(Parse(s)) == s
  {
    UngroupHex(s);
    HexOfUnhex(Ungroup(s));
    GroupUngroup(s);
  }

  /** The generated text: 36 characters in 8-4-4-4-12 groups of lowercase
      hex, the version digit `4` at index 14 and a variant digit `8`, `9`,
      `a` or `b` at index 19. */
  lemma GeneratedShape(random: UuidBytes)
    ensures IsUuidText(GenerateUuid(random))
    ensures GenerateUuid(random)[14] == '4'
    ensures GenerateUuid(random)[19] in "89ab"
  {
    var u := SetVersion(random);
    FormatIsUuidText(u);
    var h := HexOf(u);
    HexOfAt(u, 6);
    HexOfAt(u, 8);
    assert GenerateUuid(random)[14] == h[12] == Hex(4);
    var v := u[8] / 16;
    assert 8 <= v < 12;
    assert GenerateUuid(random)[19] == h[16] == Hex(v);
  }

  /** Setting the version touches only the six version and variant bits. */
  lemma SetVersionBits(b: UuidBytes)
    ensures SetVersion(b)[6] / 16 == 4 && SetVersion(b)[6] % 16 == b[6] % 16
    ensures SetVersion(b)[8] / 64 == 2 && SetVersion(b)[8] % 64 == b[8] % 64
    ensures forall i :: 0 <= i < 16 && i != 6 && i != 8 ==> SetVersion(b)[i] == b[i]
  {
  }

  /** Bytes that are already a version 4 UUID are left as they are. */
  lemma SetVersionIdempotent(b: UuidBytes)
    requires b[6] / 16 == 4 && b[8] / 64 == 2
    ensures SetVersion(b) == b
  {
  }

  /** Two random inputs agree on the 122 bits a version 4 UUID keeps. */
  predicate SameFreeBits(r1: UuidBytes, r2: UuidBytes) {
    && r1[6] % 16 == r2[6] % 16
    && r1[8] % 64 == r2[8] % 64
    && forall i :: 0 <= i < 16 && i != 6 && i != 8 ==> r1[i] == r2[i]
  }

  /** Two random inputs give the same UUID text exactly when they agree on
      the 122 free bits. */
  lemma GenerateInjective(r1: UuidBytes, r2: UuidBytes)
    ensures GenerateUuid(r1) == GenerateUuid(r2) <==> SameFreeBits(r1, r2)
  {
    SetVersionBits(r1);
    SetVersionBits(r2);
    if GenerateUuid(r1) == GenerateUuid(r2) {
      ParseFormat(SetVersion(r1));
      ParseFormat(SetVersion(r2));
      assert SetVersion(r1) == SetVersion(r2);
    }
    if SameFreeBits(r1, r2) {
      assert SetVersion(r1) == SetVersion(r2);
    }
  }
}
