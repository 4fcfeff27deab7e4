/** Base64 with the standard alphabet and `=` padding (section 4 of RFC 4648),
    over byte strings, as Python's `base64.b64encode` and `base64.b64decode`
    compute it. Encoded text is itself a byte string of ASCII codes.

    The codec is written in the two steps of the RFC: bytes are split into
    6-bit groups (`Split`, undone by `Join`), and each group is written as one
    symbol of the alphabet (`Symbol`, undone by `Value`). */
module Base64 {
  import opened Common

  /** A 6-bit group. */
  type Sextet = v: int | 0 <= v < 64

  /** The ASCII code of `=`. */
  const Pad: Byte := 61

  /** The symbol Table 1 of RFC 4648 assigns to a 6-bit value: A-Z, a-z,
      0-9, '+' and '/'. */
  function Symbol(v: Sextet): (c: Byte)
    ensures c < 0x80 && c != Pad
  {
    if v < 26 then 65 + v
    else if v < 52 then 97 + (v - 26)
    else if v < 62 then 48 + (v - 52)
    else if v == 62 then 43
    else 47
  }

  /** The bytes of the alphabet: the symbols of the 64 values. */
  predicate InAlphabet(c: Byte) {
    exists v: Sextet :: Symbol(v) == c
  }

  /** The 6-bit value a symbol of the alphabet stands for. */
  function Value(c: Byte): (v: Sextet)
    requires InAlphabet(c)
    ensures Symbol(v) == c
  {
    if 65 <= c <= 90 then c - 65
    else if 97 <= c <= 122 then c - 97 + 26
    else if 48 <= c <= 57 then c - 48 + 52
    else if c == 43 then 62
    else 63
  }

  /** Symbols and values are in one-to-one correspondence. */
  lemma ValueOfSymbol(v: Sextet)
    ensures Value(Symbol(v)) == v
  {
  }

  /** The four 6-bit groups of a 24-bit group, most significant first. */
  function SplitGroup(b0: Byte, b1: Byte, b2: Byte): (v: seq<Sextet>)
    ensures |v| == 4
  {
    [b0 / 4, b0 % 4 * 16 + b1 / 16, b1 % 16 * 4 + b2 / 64, b2 % 64]
  }

  /** The three bytes of four 6-bit groups. */
  function JoinGroup(v0: Sextet, v1: Sextet, v2: Sextet, v3: Sextet): (b: seq<Byte>)
    ensures |b| == 3
  {
    var x0, x1, x2, x3 := v0 as int, v1 as int, v2 as int, v3 as int;
    [x0 * 4 + x1 / 16, x1 % 16 * 16 + x2 / 4, x2 % 4 * 64 + x3]
  }

  /** Placing a digit below a number in base 4, 16 or 64 can be undone
      by division and remainder. */
  lemma Digit(high: int, low: int, base: int)
    requires base == 4 || base == 16 || base == 64
    requires 0 <= high && 0 <= low < base
    ensures (high * base + low) / base == high && (high * base + low) % base == low
  {
    if base == 4 {
      assert high * base + low == high * 4 + low;
    } else if base == 16 {
      assert high * base + low == high * 16 + low;
    } else {
      assert high * base + low == high * 64 + low;
    }
  }

  /** Three bytes survive being split into four 6-bit groups and joined. */
  lemma JoinSplitGroup(b0: Byte, b1: Byte, b2: Byte)
    ensures var v := SplitGroup(b0, b1, b2); JoinGroup(v[0], v[1], v[2], v[3]) == [b0, b1, b2]
  {
    var v1, v2 := b0 % 4 * 16 + b1 / 16, b1 % 16 * 4 + b2 / 64;
    Digit(b0 % 4, b1 / 16, 16);
    Digit(b1 % 16, b2 / 64, 4);
    assert b0 / 4 * 4 + v1 / 16 == b0;
    assert v1 % 16 * 16 + v2 / 4 == b1;
    assert v2 % 4 * 64 + b2 % 64 == b2;
  }

  /** Four 6-bit groups survive being joined into three bytes and split. */
  lemma SplitJoinGroup(v0: Sextet, v1: Sextet, v2: Sextet, v3: Sextet)
    ensures var b := JoinGroup(v0, v1, v2, v3); SplitGroup(b[0], b[1], b[2]) == [v0, v1, v2, v3]
  {
    var x0, x1, x2, x3 := v0 as int, v1 as int, v2 as int, v3 as int;
    var b0, b1, b2 := x0 * 4 + x1 / 16, x1 % 16 * 16 + x2 / 4, x2 % 4 * 64 + x3;
    Digit(x0, x1 / 16, 4);
    Digit(x1 % 16, x2 / 4, 16);
    Digit(x2 % 4, x3, 64);
    assert b0 / 4 == x0;
    assert b0 % 4 * 16 + b1 / 16 == x1;
    assert b1 % 16 * 4 + b2 / 64 == x2;
    assert b2 % 64 == x3;
  }

  /** Number of 6-bit groups `Split` makes of `n` bytes. */
  function SplitLength(n: nat): nat {
    n / 3 * 4 + (if n % 3 == 0 then 0 else n % 3 + 1)
  }

  /** A run of whole 24-bit groups and a final 8 or 16 bits never leaves a
      single 6-bit group over. */
  lemma SplitLengthMod(n: nat)
    ensures SplitLength(n) % 4 == (if n % 3 == 0 then 0 else n % 3 + 1)
  {
    var q, r := n / 3, (if n % 3 == 0 then 0 else n % 3 + 1);
    assert SplitLength(n) == 4 * q + r;
  }

  /** The 6-bit groups of section 4 of RFC 4648: every 24-bit group of input
      gives four; a final 8 or 16 bits give two or three, the missing low
      bits taken as zero. */
  function Split(b: seq<Byte>): (v: seq<Sextet>)
    ensures |v| == SplitLength(|b|)
    decreases |b|
  {
    if |b| == 0 then []
    else if |b| == 1 then SplitGroup(b[0], 0, 0)[..2]
    else if |b| == 2 then SplitGroup(b[0], b[1], 0)[..3]
    else SplitGroup(b[0], b[1], b[2]) + Split(b[3..])
  }

  /** The bytes a run of 6-bit groups stands for: four groups give 3 bytes,
      a final two or three give 1 or 2 bytes, and their leftover low bits
      are dropped. A final single group stands for no whole byte. */
  function Join(v: seq<Sextet>): (b: seq<Byte>)
    requires |v| % 4 != 1
    ensures |b| == |v| * 3 / 4
    decreases |v|
  {
    if |v| == 0 then []
    else if |v| == 2 then JoinGroup(v[0], v[1], 0, 0)[..1]
    else if |v| == 3 then JoinGroup(v[0], v[1], v[2], 0)[..2]
    else JoinGroup(v[0], v[1], v[2], v[3]) + Join(v[4..])
  }

  /** The leftover bits of a final short run of groups are zero: these are
      the runs `Split` produces. */
  predicate ZeroTail(v: seq<Sextet>) {
    && (|v| % 4 == 2 ==> v[|v| - 1] % 16 == 0)
    && (|v| % 4 == 3 ==> v[|v| - 1] % 4 == 0)
  }

  function Symbols(v: seq<Sextet>): (s: seq<Byte>)
    ensures |s| == |v| && forall i :: 0 <= i < |s| ==> InAlphabet(s[i]) && s[i] < 0x80
  {
    if v == [] then [] else [Symbol(v[0])] + Symbols(v[1..])
  }

  function Values(s: seq<Byte>): (v: seq<Sextet>)
    requires forall i :: 0 <= i < |s| ==> InAlphabet(s[i])
    ensures |v| == |s|
  {
    if s == [] then [] else [Value(s[0])] + Values(s[1..])
  }

  /** Number of `=` that pad the encoding of `n` bytes. */
  function PadCount(n: nat): nat {
    (3 - n % 3) % 3
  }

  /** `p` pad characters. */
  function Pads(p: nat): (s: seq<Byte>)
    ensures |s| == p && forall i :: 0 <= i < p ==> s[i] == Pad
  {
    if p == 0 then [] else [Pad] + Pads(p - 1)
  }

  /** `base64.b64encode`: the symbols of the 6-bit groups, then `=` up to a
      multiple of 4 symbols. The result is ASCII text, 4 symbols for every
      3 bytes begun. */
  function Encode(b: seq<Byte>): (r: seq<Byte>)
    ensures |r| == 4 * ((|b| + 2) / 3)
    ensures forall i :: 0 <= i < |r| ==> r[i] < 0x80
  {
    EncodedLength(|b|);
    Symbols(Split(b)) + Pads(PadCount(|b|))
  }

  /** Input `Decode` accepts: whole 4-symbol groups of the alphabet, where
      the last group may end in `=` or `==`. */
  predicate WellFormed(s: seq<Byte>) {
    && |s| % 4 == 0
    && (forall i :: 0 <= i < |s| - 2 ==> InAlphabet(s[i]))
    && (|s| >= 4 ==>
          && (InAlphabet(s[|s| - 2]) || (s[|s| - 2] == Pad && s[|s| - 1] == Pad))
          && (InAlphabet(s[|s| - 1]) || s[|s| - 1] == Pad))
  }

  /** Number of `=` at the end of a well-formed encoding. */
  function Padding(s: seq<Byte>): (p: nat)
    requires WellFormed(s)
    ensures p <= 2 && p <= |s|
    ensures forall i :: 0 <= i < |s| - p ==> InAlphabet(s[i])
  {
    if |s| == 0 then 0 else if s[|s| - 2] == Pad then 2 else if s[|s| - 1] == Pad then 1 else 0
  }

  /** The symbols of a well-formed encoding, without its padding. */
  function Data(s: seq<Byte>): (d: seq<Byte>)
    requires WellFormed(s)
    ensures |d| % 4 != 1 && forall i :: 0 <= i < |d| ==> InAlphabet(d[i])
  {
    s[..|s| - Padding(s)]
  }

  /** `base64.b64decode` on canonical input: the bytes the symbols before
      the padding stand for. Every other input is refused. As in Python, the
      leftover bits of the last symbol are ignored. */
  function Decode(s: seq<Byte>): (r: Option<seq<Byte>>)
    ensures r.Some? <==> WellFormed(s)
    ensures r.Some? ==> |r.value| == |s| / 4 * 3 - Padding(s)
  {
    if WellFormed(s) then Some(Join(Values(Data(s)))) else None
  }

  /** Well-formed Base64 text is ASCII. */
  lemma WellFormedAscii(s: seq<Byte>)
    requires WellFormed(s)
    ensures forall i :: 0 <= i < |s| ==> s[i] < 0x80
  {
    forall i | 0 <= i < |s| ensures s[i] < 0x80 {
      if InAlphabet(s[i]) {
        var v: Sextet :| Symbol(v) == s[i];
      }
    }
  }

  /** A well-formed encoding carries no bits beyond its last byte. */
  predicate ZeroPadBits(s: seq<Byte>)
    requires WellFormed(s)
  {
    ZeroTail(Values(Data(s)))
  }

  lemma SplitCons(g: seq<Byte>, rest: seq<Byte>)
    requires |g| == 3
    ensures Split(g + rest) == SplitGroup(g[0], g[1], g[2]) + Split(rest)
  {
    var b := g + rest;
    assert b[3..] == rest;
  }

  lemma JoinCons(g: seq<Sextet>, rest: seq<Sextet>)
    requires |g| == 4 && |rest| % 4 != 1
    ensures Join(g + rest) == JoinGroup(g[0], g[1], g[2], g[3]) + Join(rest)
  {
    var v := g + rest;
    assert v[4..] == rest;
  }

  /** Splitting bytes into 6-bit groups and joining them gives the bytes
      back. */
  lemma {:induction false} JoinSplit(b: seq<Byte>)
    ensures |Split(b)| % 4 != 1 && Join(Split(b)) == b
    decreases |b|
  {
    SplitLengthMod(|b|);
    if |b| == 1 {
      JoinSplitGroup(b[0], 0, 0);
      assert b == [b[0]];
    } else if |b| == 2 {
      JoinSplitGroup(b[0], b[1], 0);
      assert b == [b[0], b[1]];
    } else if |b| >= 3 {
      var g, rest := b[..3], b[3..];
      assert b == g + rest;
      JoinSplit(rest);
      JoinSplitGroup(g[0], g[1], g[2]);
      SplitCons(g, rest);
      JoinCons(SplitGroup(g[0], g[1], g[2]), Split(rest));
    }
  }

  /** One step of `SplitJoin`: a whole group in front of groups that
      survive the round trip. */
  lemma SplitJoinCons(g: seq<Sextet>, rest: seq<Sextet>)
    requires |g| == 4 && |rest| % 4 != 1 && Split(Join(rest)) == rest
    ensures Split(Join(g + rest)) == g + rest
  {
    var jg := JoinGroup(g[0], g[1], g[2], g[3]);
    JoinCons(g, rest);
    SplitCons(jg, Join(rest));
    SplitJoinGroup(g[0], g[1], g[2], g[3]);
    assert SplitGroup(jg[0], jg[1], jg[2]) == g;
  }

  /** Joining 6-bit groups with zero leftover bits and splitting the bytes
      again gives the groups back. */
  lemma {:induction false} SplitJoin(v: seq<Sextet>)
    requires |v| % 4 != 1 && ZeroTail(v)
    ensures Split(Join(v)) == v
    decreases |v|
  {
    if |v| == 2 {
      SplitJoinGroup(v[0], v[1], 0, 0);
      assert v == [v[0], v[1]];
    } else if |v| == 3 {
      SplitJoinGroup(v[0], v[1], v[2], 0);
      assert v == [v[0], v[1], v[2]];
    } else if |v| >= 4 {
      var g, rest := v[..4], v[4..];
      assert v == g + rest;
      assert ZeroTail(rest) by {
        assert |rest| % 4 == |v| % 4;
        assert |rest| > 0 ==> rest[|rest| - 1] == v[|v| - 1];
      }
      SplitJoin(rest);
      SplitJoinCons(g, rest);
    }
  }

  /** The number of bytes a well-formed encoding of length `m` with `p`
      pad characters decodes to, and the padding their encoding takes. */
  lemma PadCountOfLength(m: nat, p: nat)
    requires m % 4 == 0 && p <= 2 && (p > 0 ==> m >= 4)
    ensures (m - p) * 3 / 4 == m / 4 * 3 - p
    ensures PadCount((m - p) * 3 / 4) == p
  {
    var k := m / 4;
    assert m == 4 * k;
    if p == 1 {
      assert (m - p) * 3 == 4 * (3 * k - 1) + 1;
    } else if p == 2 {
      assert (m - p) * 3 == 4 * (3 * k - 2) + 2;
    }
  }

  /** `n` bytes give `SplitLength(n)` symbols and `PadCount(n)` pad
      characters, together a whole number of 4-symbol groups. */
  lemma EncodedLength(n: nat)
    ensures PadCount(n) <= 2
    ensures SplitLength(n) + PadCount(n) == 4 * ((n + 2) / 3)
    ensures n > 0 ==> SplitLength(n) >= 2
  {
    var q := n / 3;
    if n % 3 == 0 {
      assert (n + 2) / 3 == q && SplitLength(n) == 4 * q && PadCount(n) == 0;
    } else if n % 3 == 1 {
      assert (n + 2) / 3 == q + 1 && SplitLength(n) == 4 * q + 2 && PadCount(n) == 2;
    } else {
      assert (n + 2) / 3 == q + 1 && SplitLength(n) == 4 * q + 3 && PadCount(n) == 1;
    }
  }

  /** Symbols of the alphabet followed by up to two `=` and forming whole
      4-symbol groups are well formed, with that padding and that data. */
  lemma PaddedShape(e: seq<Byte>, d: seq<Byte>, p: nat, k: nat)
    requires forall i :: 0 <= i < |d| ==> InAlphabet(d[i])
    requires p <= 2 && |d| + p == 4 * k && (|d| > 0 ==> |d| >= 2)
    requires e == d + Pads(p)
    ensures WellFormed(e) && Padding(e) == p && Data(e) == d
  {
    assert e[..|d|] == d;
    if |d| > 0 {
      assert e[|e| - 1] == (if p >= 1 then Pad else d[|d| - 1]);
      assert e[|e| - 2] == (if p == 2 then Pad else d[|d| - 2 + p]);
    }
  }

  /** An encoding is symbols of the alphabet, then up to two `=`, in whole
      4-symbol groups. */
  lemma EncodeParts(b: seq<Byte>)
    ensures var d := Symbols(Split(b));
      && (forall i :: 0 <= i < |d| ==> InAlphabet(d[i]))
      && PadCount(|b|) <= 2
      && |d| + PadCount(|b|) == 4 * ((|b| + 2) / 3)
      && (|d| > 0 ==> |d| >= 2)
      && Encode(b) == d + Pads(PadCount(|b|))
  {
    EncodedLength(|b|);
  }

  /** The padding of an encoding, and what is left without it. */
  lemma EncodeShape(b: seq<Byte>)
    ensures WellFormed(Encode(b))
    ensures Padding(Encode(b)) == PadCount(|b|)
    ensures Data(Encode(b)) == Symbols(Split(b))
  {
    EncodeParts(b);
    PaddedShape(Encode(b), Symbols(Split(b)), PadCount(|b|), (|b| + 2) / 3);
  }

  /** Round trip: decoding an encoding gives back the bytes. */
  lemma DecodeEncode(b: seq<Byte>)
    ensures Decode(Encode(b)) == Some(b)
  {
    EncodeShape(b);
    ValuesSymbols(Split(b));
    JoinSplit(b);
  }

  /** A well-formed text is its data followed by its padding. */
  lemma DataAndPadding(s: seq<Byte>)
    requires WellFormed(s)
    ensures s == Data(s) + Pads(Padding(s))
  {
    var p := Padding(s);
    assert s[|s| - p..] == Pads(p);
    assert s == s[..|s| - p] + s[|s| - p..];
  }

  /** Reading back the symbols of 6-bit values gives the values. */
  lemma {:induction false} ValuesSymbols(v: seq<Sextet>)
    ensures Values(Symbols(v)) == v
  {
    if v != [] {
      ValuesSymbols(v[1..]);
      ValueOfSymbol(v[0]);
      assert Symbols(v)[1..] == Symbols(v[1..]);
      assert v == [v[0]] + v[1..];
    }
  }

  /** Writing the values of symbols of the alphabet gives the symbols back. */
  lemma {:induction false} SymbolsValues(d: seq<Byte>)
    requires forall i :: 0 <= i < |d| ==> InAlphabet(d[i])
    ensures Symbols(Values(d)) == d
  {
    if d != [] {
      SymbolsValues(d[1..]);
      assert d == [d[0]] + d[1..];
    }
  }

  /** The bytes a well-formed text decodes to take as much padding as the
      text has. */
  lemma DecodedPadCount(s: seq<Byte>)
    requires WellFormed(s)
    ensures PadCount(|Join(Values(Data(s)))|) == Padding(s)
  {
    var p := Padding(s);
    assert |Join(Values(Data(s)))| == (|s| - p) * 3 / 4;
    PadCountOfLength(|s|, p);
  }

  lemma {:induction false} SymbolsAppend(a: seq<Sextet>, b: seq<Sextet>)
    ensures Symbols(a + b) == Symbols(a) + Symbols(b)
  {
    if a != [] {
      var ab := a + b;
      assert ab[0] == a[0] && ab[1..] == a[1..] + b;
      SymbolsAppend(a[1..], b);
      var x, y, z := [Symbol(a[0])], Symbols(a[1..]), Symbols(b);
      assert Symbols(ab) == x + (y + z);
      assert Symbols(a) == x + y;
      assert x + (y + z) == (x + y) + z;
    } else {
      assert a + b == b;
    }
  }

  /** The encoding of one 24-bit group: four symbols, no padding. */
  lemma EncodeGroup(b0: Byte, b1: Byte, b2: Byte)
    ensures Encode([b0, b1, b2]) == Symbols(SplitGroup(b0, b1, b2))
  {
    var g := [b0, b1, b2];
    assert g[3..] == [];
    assert Split(g) == SplitGroup(b0, b1, b2) + Split([]);
    assert Split(g) == SplitGroup(b0, b1, b2);
    assert Pads(PadCount(3)) == [];
    assert Encode(g) == Symbols(Split(g)) + [];
  }

  /** The encoding of a final 16 bits: three symbols and one `=`. */
  lemma EncodeFinal2(b0: Byte, b1: Byte)
    ensures Encode([b0, b1]) == Symbols(SplitGroup(b0, b1, 0)[..3]) + [Pad]
  {
    assert Pads(PadCount(2)) == [Pad];
  }

  /** The encoding of a final 8 bits: two symbols and `==`. */
  lemma EncodeFinal1(b0: Byte)
    ensures Encode([b0]) == Symbols(SplitGroup(b0, 0, 0)[..2]) + [Pad, Pad]
  {
    assert Pads(PadCount(1)) == [Pad, Pad];
  }

  /** The test vectors of section 10 of RFC 4648 up to "foo": "" is "",
      "f" is "Zg==", "fo" is "Zm8=" and "foo" is "Zm9v". */
  lemma TestVectors()
    ensures Encode([]) == []
    ensures Encode([102]) == [90, 103, 61, 61]
    ensures Encode([102, 111]) == [90, 109, 56, 61]
    ensures Encode([102, 111, 111]) == [90, 109, 57, 118]
  {
    VectorF();
    VectorFo();
    VectorFoo();
  }

  lemma VectorF()
    ensures Encode([102]) == [90, 103, 61, 61]
  {
    EncodeFinal1(102);
    assert SplitGroup(102, 0, 0)[..2] == [25, 32];
    assert Symbols([25, 32]) == [Symbol(25)] + Symbols([32]);
    assert Symbols([32]) == [Symbol(32)] + Symbols([]);
  }

  lemma VectorFo()
    ensures Encode([102, 111]) == [90, 109, 56, 61]
  {
    EncodeFinal2(102, 111);
    assert SplitGroup(102, 111, 0)[..3] == [25, 38, 60];
    assert Symbols([25, 38, 60]) == [Symbol(25)] + Symbols([38, 60]);
    assert Symbols([38, 60]) == [Symbol(38)] + Symbols([60]);
    assert Symbols([60]) == [Symbol(60)] + Symbols([]);
  }

  lemma VectorFoo()
    ensures Encode([102, 111, 111]) == [90, 109, 57, 118]
  {
    EncodeGroup(102, 111, 111);
    assert SplitGroup(102, 111, 111) == [25, 38, 61, 47];
    assert Symbols([25, 38, 61, 47]) == [Symbol(25)] + Symbols([38, 61, 47]);
    assert Symbols([38, 61, 47]) == [Symbol(38)] + Symbols([61, 47]);
    assert Symbols([61, 47]) == [Symbol(61)] + Symbols([47]);
    assert Symbols([47]) == [Symbol(47)] + Symbols([]);
  }

  /** The example of the toolkit's tests: "hello world" is
      "aGVsbG8gd29ybGQ=", three whole groups and a final 16 bits. */
  lemma HelloWorld(b: seq<Byte>, e: seq<Byte>)
    requires b == [104, 101, 108, 108, 111, 32, 119, 111, 114, 108, 100]
    requires e == [97, 71, 86, 115, 98, 71, 56, 103, 100, 50, 57, 121, 98, 71, 81, 61]
    ensures Encode(b) == e
  {
    var g1, g2, g3, f := [b[0], b[1], b[2]], [b[3], b[4], b[5]], [b[6], b[7], b[8]], [b[9], b[10]];
    assert b == g1 + (g2 + (g3 + f));
    EncodeAppend(g1, g2 + (g3 + f));
    EncodeAppend(g2, g3 + f);
    EncodeAppend(g3, f);
    HelloGroup1(g1);
    HelloGroup2(g2);
    HelloGroup3(g3);
    HelloFinal(f);
    assert e == [97, 71, 86, 115] + ([98, 71, 56, 103] + ([100, 50, 57, 121] + [98, 71, 81, 61]));
  }

  /** "hel" is "aGVs". */
  lemma HelloGroup1(g: seq<Byte>)
    requires g == [104, 101, 108]
    ensures Encode(g) == [97, 71, 86, 115]
  {
    GroupOf(g, [26, 6, 21, 44]);
  }

  /** "lo " is "bG8g". */
  lemma HelloGroup2(g: seq<Byte>)
    requires g == [108, 111, 32]
    ensures Encode(g) == [98, 71, 56, 103]
  {
    GroupOf(g, [27, 6, 60, 32]);
  }

  /** "wor" is "d29y". */
  lemma HelloGroup3(g: seq<Byte>)
    requires g == [119, 111, 114]
    ensures Encode(g) == [100, 50, 57, 121]
  {
    GroupOf(g, [29, 54, 61, 50]);
  }

  /** "ld" is "bGQ=". */
  lemma HelloFinal(f: seq<Byte>)
    requires f == [108, 100]
    ensures Encode(f) == [98, 71, 81, 61]
  {
    EncodeFinal2(f[0], f[1]);
    assert f == [f[0], f[1]];
    var v := SplitGroup(f[0], f[1], 0)[..3];
    assert v == [27, 6, 16];
    Symbols3(27, 6, 16);
  }

  /** The encoding of a group with the given four 6-bit values. */
  lemma GroupOf(g: seq<Byte>, v: seq<Sextet>)
    requires |g| == 3 && |v| == 4 && SplitGroup(g[0], g[1], g[2]) == v
    ensures Encode(g) == [Symbol(v[0]), Symbol(v[1]), Symbol(v[2]), Symbol(v[3])]
  {
    EncodeGroup(g[0], g[1], g[2]);
    assert g == [g[0], g[1], g[2]];
    assert v == [v[0], v[1], v[2], v[3]];
    Symbols4(v[0], v[1], v[2], v[3]);
  }

  lemma Symbols4(v0: Sextet, v1: Sextet, v2: Sextet, v3: Sextet)
    ensures Symbols([v0, v1, v2, v3]) == [Symbol(v0), Symbol(v1), Symbol(v2), Symbol(v3)]
  {
    assert [v0, v1, v2, v3][1..] == [v1, v2, v3];
    Symbols3(v1, v2, v3);
  }

  lemma Symbols3(v0: Sextet, v1: Sextet, v2: Sextet)
    ensures Symbols([v0, v1, v2]) == [Symbol(v0), Symbol(v1), Symbol(v2)]
  {
    assert [v0, v1, v2][1..] == [v1, v2];
    assert [v1, v2][1..] == [v2];
    assert [v2][1..] == [];
    assert Symbols([v2]) == [Symbol(v2)] + Symbols([]);
    assert Symbols([v1, v2]) == [Symbol(v1)] + Symbols([v2]);
    assert Symbols([v0, v1, v2]) == [Symbol(v0)] + Symbols([v1, v2]);
  }

  /** Encoding goes 3 bytes at a time: the encoding of 3 bytes followed by
      more is the encoding of the 3 bytes followed by that of the rest. */
  lemma EncodeAppend(g: seq<Byte>, rest: seq<Byte>)
    requires |g| == 3
    ensures Encode(g + rest) == Encode(g) + Encode(rest)
  {
    var sg := SplitGroup(g[0], g[1], g[2]);
    SplitCons(g, rest);
    SymbolsAppend(sg, Split(rest));
    EncodeGroup(g[0], g[1], g[2]);
    assert g == [g[0], g[1], g[2]];
    assert PadCount(|g + rest|) == PadCount(|rest|);
  }

  /** The other direction: a well-formed encoding whose pad bits are zero is
      exactly the encoding of what it decodes to. */
  lemma EncodeDecode(s: seq<Byte>)
    requires WellFormed(s) && ZeroPadBits(s)
    ensures Encode(Decode(s).value) == s
  {
    var v := Values(Data(s));
    var b := Join(v);
    assert Decode(s).value == b;
    SplitJoin(v);
    SymbolsValues(Data(s));
    DecodedPadCount(s);
    DataAndPadding(s);
    EncodeParts(b);
  }
}
