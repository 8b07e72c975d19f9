/**
 * `stringToColour` from source/scripts/bundle.js: a string is hashed by
 * folding `hash = c + ((hash << 5) - hash)` over its UTF-16 code units, and
 * the three low bytes of the hash, least significant first, are written as a
 * CSS colour `#rrggbb`.
 *
 * Because `<<` wraps but `-` and `+` do not, the JavaScript accumulator is not
 * a 32-bit value; the model keeps it as an unbounded `int` (Hash) and proves
 * that the colour is nevertheless the one a 32-bit accumulator (Hash32), or
 * the plain polynomial `c + 31 * hash` (Poly), would give.
 */
module StringToColour {
  import opened JsNumber
  import opened HexFormat

  /** A UTF-16 code unit as `charCodeAt` returns it, lone surrogates included. */
  type CodeUnit = c: int | 0 <= c < 0x1_0000

  const TWO_24: int := 0x100_0000

  // ---------------------------------------------------------------------------
  // The hash
  // ---------------------------------------------------------------------------

  /** One iteration of the first loop, `hash = c + ((hash << 5) - hash)`. */
  function Step(hash: int, c: CodeUnit): int
  {
    c + (ShiftLeft(hash, 5) - hash)
  }

  /** Modulo 2^32, a step multiplies the hash by 31 and adds the code unit. */
  lemma StepCongruent(hash: int, c: CodeUnit)
    ensures (Step(hash, c) - (c + 31 * hash)) % TWO_32 == 0
  {
    var shifted := ShiftLeft(hash, 5);
    ShiftLeftCongruent(hash, 5);
    ShiftByFive(hash);
    CongruentSymm(MulPow2(hash, 5), shifted);
    assert Step(hash, c) - (c + 31 * hash) == shifted - MulPow2(hash, 5);
  }

  lemma ShiftByFive(hash: int)
    ensures MulPow2(hash, 5 % 32) == MulPow2(hash, 5) == 32 * hash
  {
    assert MulPow2(hash, 1) == 2 * hash;
    assert MulPow2(hash, 2) == 4 * hash;
    assert MulPow2(hash, 3) == 8 * hash;
    assert MulPow2(hash, 4) == 16 * hash;
  }

  /** The value of `hash` after the first loop has consumed all of s. */
  function Hash(s: seq<CodeUnit>): int
  {
    if s == [] then 0 else Step(Hash(s[..|s| - 1]), s[|s| - 1])
  }

  /** The same fold with the accumulator wrapped to a signed 32-bit integer after every step. */
  function Hash32(s: seq<CodeUnit>): (h: int)
    ensures -TWO_31 <= h < TWO_31
  {
    if s == [] then 0 else ToInt32(Step(Hash32(s[..|s| - 1]), s[|s| - 1]))
  }

  /** The reference polynomial hash, `hash = c + 31 * hash` over unbounded integers. */
  function Poly(s: seq<CodeUnit>): int
  {
    if s == [] then 0 else s[|s| - 1] + 31 * Poly(s[..|s| - 1])
  }

  /** The JavaScript accumulator is the polynomial hash modulo 2^32. */
  lemma {:induction false} HashCongruentPoly(s: seq<CodeUnit>)
    ensures (Hash(s) - Poly(s)) % TWO_32 == 0
  {
    if s != [] {
      var p, c := s[..|s| - 1], s[|s| - 1];
      HashCongruentPoly(p);
      StepCongruent(Hash(p), c);
      CongruentStep(Step(Hash(p), c), Hash(p), Poly(p), c);
    }
  }

  /** The per-step wrapped accumulator is the polynomial hash reduced by ToInt32. */
  lemma {:induction false} Hash32IsWrappedPoly(s: seq<CodeUnit>)
    ensures Hash32(s) == ToInt32(Poly(s))
  {
    if s != [] {
      var p, c := s[..|s| - 1], s[|s| - 1];
      Hash32IsWrappedPoly(p);
      var w := Hash32(p);
      CongruentSymm(Poly(p), w);
      StepCongruent(w, c);
      CongruentStep(Step(w, c), w, Poly(p), c);
      ToInt32Congruent(Step(w, c), Poly(s));
    }
  }

  /**
   * Not wrapping the accumulator at every step makes no difference modulo
   * 2^32: ToInt32 of the JavaScript hash is the 32-bit hash.
   */
  lemma HashWrapsToHash32(s: seq<CodeUnit>)
    ensures ToInt32(Hash(s)) == Hash32(s)
    ensures (Hash(s) - Hash32(s)) % TWO_32 == 0
  {
    HashCongruentPoly(s);
    Hash32IsWrappedPoly(s);
    ToInt32Congruent(Hash(s), Poly(s));
  }

  /**
   * Each step moves the accumulator by less than 2^31 + 2^16, so after n code
   * units |hash| < n * (2^31 + 2^16); below 2^21 code units this is under
   * 2^53 and the double arithmetic of the source is exact.
   */
  lemma {:induction false} HashBound(s: seq<CodeUnit>)
    ensures -(|s| * (TWO_31 + 0x1_0000)) <= Hash(s) <= |s| * (TWO_31 + 0x1_0000)
  {
    if s != [] {
      var p := s[..|s| - 1];
      HashBound(p);
      assert |s| * (TWO_31 + 0x1_0000) == |p| * (TWO_31 + 0x1_0000) + TWO_31 + 0x1_0000;
    }
  }

  // ---------------------------------------------------------------------------
  // The colour
  // ---------------------------------------------------------------------------

  /** `(hash >> (i * 8)) & 0xFF`, the value written for channel i. */
  function Byte(hash: int, i: int): (b: nat)
    ensures b < 256
  {
    AndLowByte(SignedShiftRight(hash, i * 8))
  }

  /** What the second loop appends for its first n iterations. */
  function Channels(hash: int, n: nat): string
  {
    if n == 0 then "" else Channels(hash, n - 1) + PadHex2(Byte(hash, n - 1))
  }

  /** The string `stringToColour` returns for a final accumulator `hash`. */
  function Colour(hash: int): string
  {
    "#" + Channels(hash, 3)
  }

  /** A CSS colour `#rrggbb` in lowercase radix-16 digits. */
  predicate IsCssColour(s: string) {
    |s| == 7 && s[0] == '#' && forall k :: 1 <= k < 7 ==> IsHexDigit(s[k])
  }

  /** The 24-bit number a colour denotes, its first channel the least significant byte. */
  function ColourValue(s: string): (v: nat)
    requires IsCssColour(s)
    ensures v < TWO_24
  {
    var b0, b1, b2 := HexValue(s[1..3]), HexValue(s[3..5]), HexValue(s[5..7]);
    HexValueOf2(s[1..3]);
    HexValueOf2(s[3..5]);
    HexValueOf2(s[5..7]);
    b0 + 256 * b1 + 65536 * b2
  }

  lemma HexValueOf2(s: string)
    requires |s| == 2 && IsHexDigit(s[0]) && IsHexDigit(s[1])
    ensures HexValue(s) == 16 * DigitValue(s[0]) + DigitValue(s[1]) < 256
  {
    var hi := s[..1];
    assert hi[..0] == [] && hi[0] == s[0];
    assert HexValue(hi) == DigitValue(s[0]);
  }

  /**
   * Channel i holds bits 8i .. 8i + 7 of the hash: the truncation to int32,
   * the sign-propagating shift and the mask together read only the low 24 bits.
   */
  lemma ByteValues(hash: int)
    ensures Byte(hash, 0) == hash % TWO_24 % 256
    ensures Byte(hash, 1) == hash % TWO_24 / 256 % 256
    ensures Byte(hash, 2) == hash % TWO_24 / 65536 % 256
  {
    var v := ToInt32(hash);
    LowBits(hash, v);
    ShiftRightBytes(hash);
    AndLowByteIsMod(SignedShiftRight(hash, 0));
    AndLowByteIsMod(SignedShiftRight(hash, 8));
    AndLowByteIsMod(SignedShiftRight(hash, 16));
  }

  /**
   * Bytes 0, 1 and 2 of a number are those of any number congruent to it
   * modulo 2^32, and those of its remainder modulo 2^24.
   */
  lemma LowBits(hash: int, v: int)
    requires (hash - v) % TWO_32 == 0
    ensures v % 256 == hash % TWO_24 % 256
    ensures v / 256 % 256 == hash % TWO_24 / 256 % 256
    ensures v / 65536 % 256 == hash % TWO_24 / 65536 % 256
  {
    var k := (hash - v) / TWO_32;
    var x, j := hash % TWO_24, hash / TWO_24;
    var t := j - 256 * k;
    assert hash - v == k * TWO_32 && hash == j * TWO_24 + x;
    assert v == x + (t * 0x1_0000) * 256;
    ModAddMultiple(x, t * 0x1_0000, 256);
    DivUnique(v, 256, x / 256 + t * 0x1_0000, x % 256);
    ModAddMultiple(x / 256, t * 256, 256);
    assert v == x + t * 256 * 65536;
    DivUnique(v, 65536, x / 65536 + t * 256, x % 65536);
    ModAddMultiple(x / 65536, t, 256);
  }

  /** `#` and three bytes, each written as two radix-16 digits, high digit first. */
  function Spell(b0: nat, b1: nat, b2: nat): string
    requires b0 < 256 && b1 < 256 && b2 < 256
  {
    "#" + [HexDigit(b0 / 16), HexDigit(b0 % 16)]
        + [HexDigit(b1 / 16), HexDigit(b1 % 16)]
        + [HexDigit(b2 / 16), HexDigit(b2 % 16)]
  }

  /**
   * A spelled colour is a CSS colour whose character pairs 1-2, 3-4 and 5-6
   * read back as the three bytes.
   */
  lemma SpellFormat(b0: nat, b1: nat, b2: nat)
    requires b0 < 256 && b1 < 256 && b2 < 256
    ensures IsCssColour(Spell(b0, b1, b2))
    ensures ColourValue(Spell(b0, b1, b2)) == b0 + 256 * b1 + 65536 * b2
  {
    var s := Spell(b0, b1, b2);
    assert s[1..3] == [HexDigit(b0 / 16), HexDigit(b0 % 16)];
    assert s[3..5] == [HexDigit(b1 / 16), HexDigit(b1 % 16)];
    assert s[5..7] == [HexDigit(b2 / 16), HexDigit(b2 % 16)];
    HexValueOf2(s[1..3]);
    HexValueOf2(s[3..5]);
    HexValueOf2(s[5..7]);
  }

  /** The colour spelled out digit by digit: channel i is byte i, high digit first. */
  lemma ColourDigits(hash: int)
    ensures Colour(hash) == Spell(Byte(hash, 0), Byte(hash, 1), Byte(hash, 2))
  {
    var b0, b1, b2 := Byte(hash, 0), Byte(hash, 1), Byte(hash, 2);
    assert Channels(hash, 1) == PadHex2(b0);
    assert Channels(hash, 2) == PadHex2(b0) + PadHex2(b1);
    assert Channels(hash, 3) == PadHex2(b0) + PadHex2(b1) + PadHex2(b2);
    PaddedBytes(b0, b1, b2);
  }

  /** Three padded bytes in a row. */
  lemma PaddedBytes(b0: nat, b1: nat, b2: nat)
    requires b0 < 256 && b1 < 256 && b2 < 256
    ensures "#" + PadHex2(b0) + PadHex2(b1) + PadHex2(b2) == Spell(b0, b1, b2)
  {
    PadHex2Digits(b0);
    PadHex2Digits(b1);
    PadHex2Digits(b2);
  }

  /**
   * Every colour is `#` followed by six lowercase radix-16 digits, and
   * characters 2i + 1 and 2i + 2 encode byte i of the hash.
   */
  lemma ColourFormat(hash: int)
    ensures IsCssColour(Colour(hash))
    ensures forall i :: 0 <= i < 3 ==>
      Colour(hash)[2 * i + 1] == HexDigit(Byte(hash, i) / 16) &&
      Colour(hash)[2 * i + 2] == HexDigit(Byte(hash, i) % 16)
  {
    ColourDigits(hash);
    SpelledFormat(hash, Colour(hash), Byte(hash, 0), Byte(hash, 1), Byte(hash, 2));
  }

  /** ColourFormat for a colour and bytes passed as values, which keeps the proof cheap. */
  lemma SpelledFormat(hash: int, s: string, b0: nat, b1: nat, b2: nat)
    requires b0 == Byte(hash, 0) && b1 == Byte(hash, 1) && b2 == Byte(hash, 2)
    requires s == Spell(b0, b1, b2)
    ensures IsCssColour(s)
    ensures forall i :: 0 <= i < 3 ==>
      s[2 * i + 1] == HexDigit(Byte(hash, i) / 16) &&
      s[2 * i + 2] == HexDigit(Byte(hash, i) % 16)
  {
    SpellFormat(b0, b1, b2);
    forall i | 0 <= i < 3
      ensures s[2 * i + 1] == HexDigit(Byte(hash, i) / 16)
      ensures s[2 * i + 2] == HexDigit(Byte(hash, i) % 16)
    {
      if i == 0 {
        assert s[1] == HexDigit(b0 / 16) && s[2] == HexDigit(b0 % 16);
      } else if i == 1 {
        assert s[3] == HexDigit(b1 / 16) && s[4] == HexDigit(b1 % 16);
      } else {
        assert s[5] == HexDigit(b2 / 16) && s[6] == HexDigit(b2 % 16);
      }
    }
  }

  /** A channel whose byte is below 16 is written with a leading '0'. */
  lemma ColourLeadingZero(hash: int, i: int)
    requires 0 <= i < 3 && Byte(hash, i) < 16
    ensures |Colour(hash)| == 7 && Colour(hash)[2 * i + 1] == '0'
  {
    ColourFormat(hash);
    assert HexDigit(0) == '0';
  }

  /** Reading the colour back gives the hash modulo 2^24. */
  lemma ColourRoundTrip(hash: int)
    ensures IsCssColour(Colour(hash))
    ensures ColourValue(Colour(hash)) == hash % TWO_24
  {
    ColourDigits(hash);
    var b0, b1, b2 := Byte(hash, 0), Byte(hash, 1), Byte(hash, 2);
    SpellFormat(b0, b1, b2);
    ByteValues(hash);
    Bytes24(hash % TWO_24);
  }

  /** A 24-bit number is the sum of its three bytes. */
  lemma Bytes24(x: int)
    requires 0 <= x < TWO_24
    ensures x == x % 256 + 256 * (x / 256 % 256) + 65536 * (x / 65536 % 256)
  {
  }

  /** Two hashes give the same colour exactly when they agree modulo 2^24. */
  lemma ColourEqualIff(h1: int, h2: int)
    ensures Colour(h1) == Colour(h2) <==> h1 % TWO_24 == h2 % TWO_24
  {
    ColourRoundTrip(h1);
    ColourRoundTrip(h2);
    if h1 % TWO_24 == h2 % TWO_24 {
      ByteValues(h1);
      ByteValues(h2);
      ColourDigits(h1);
      ColourDigits(h2);
    }
  }

  /** Numbers congruent modulo 2^32 are congruent modulo 2^24. */
  lemma Mod24OfMod32(h1: int, h2: int)
    requires (h1 - h2) % TWO_32 == 0
    ensures h1 % TWO_24 == h2 % TWO_24
  {
    var k := (h1 - h2) / TWO_32;
    assert h1 == h2 + (k * 256) * TWO_24;
  }

  /** Hashes that agree modulo 2^32 give the same colour. */
  lemma ColourMod32(h1: int, h2: int)
    requires (h1 - h2) % TWO_32 == 0
    ensures Colour(h1) == Colour(h2)
  {
    Mod24OfMod32(h1, h2);
    ColourEqualIff(h1, h2);
  }

  /**
   * The colour of a string is the colour of the per-step wrapped 32-bit hash,
   * and of the polynomial hash.
   */
  lemma ColourIgnoresWrapping(s: seq<CodeUnit>)
    ensures Colour(Hash(s)) == Colour(Hash32(s))
    ensures Colour(Hash(s)) == Colour(Poly(s))
  {
    WrappedColours(s, Hash(s), Hash32(s), Poly(s));
  }

  /** ColourIgnoresWrapping with the three hashes passed as values, which keeps the proof cheap. */
  lemma WrappedColours(s: seq<CodeUnit>, h: int, w: int, p: int)
    requires h == Hash(s) && w == Hash32(s) && p == Poly(s)
    ensures Colour(h) == Colour(w) && Colour(h) == Colour(p)
  {
    HashWrapsToHash32(s);
    HashCongruentPoly(s);
    ColourMod32Twice(h, w, p);
  }

  /** ColourMod32 twice over, on hashes passed as values, which keeps the proof cheap. */
  lemma ColourMod32Twice(h: int, w: int, p: int)
    requires (h - w) % TWO_32 == 0 && (h - p) % TWO_32 == 0
    ensures Colour(h) == Colour(w) && Colour(h) == Colour(p)
  {
    ColourMod32(h, w);
    ColourMod32(h, p);
  }

  /** Two strings share a colour exactly when their 32-bit hashes agree modulo 2^24. */
  lemma SameColourIff(s1: seq<CodeUnit>, s2: seq<CodeUnit>)
    ensures Colour(Hash(s1)) == Colour(Hash(s2)) <==> Hash32(s1) % TWO_24 == Hash32(s2) % TWO_24
  {
    HashWrapsToHash32(s1);
    HashWrapsToHash32(s2);
    SameColourOfWrapped(Hash(s1), Hash(s2), Hash32(s1), Hash32(s2));
  }

  /** SameColourIff with the hashes passed as values, which keeps the proof cheap. */
  lemma SameColourOfWrapped(h1: int, h2: int, w1: int, w2: int)
    requires w1 == ToInt32(h1) && w2 == ToInt32(h2)
    ensures Colour(h1) == Colour(h2) <==> w1 % TWO_24 == w2 % TWO_24
  {
    Low24OfToInt32(h1, w1);
    Low24OfToInt32(h2, w2);
    ColourEqualIff(h1, h2);
  }

  // ---------------------------------------------------------------------------
  // The function itself
  // ---------------------------------------------------------------------------

  /**
   * The first loop of `stringToColour`: the hash folded over the code units
   * from the left, starting at 0.
   */
  method HashCodeUnits(s: seq<CodeUnit>) returns (hash: int)
    ensures hash == Hash(s)
    ensures ToInt32(hash) == Hash32(s) == ToInt32(Poly(s))
  {
    hash := 0;
    for i := 0 to |s|
      invariant hash == Hash(s[..i])
    {
      assert s[..i + 1][..i] == s[..i];
      hash := s[i] + (ShiftLeft(hash, 5) - hash);
    }
    assert s[..|s|] == s;
    HashWrapsToHash32(s);
    Hash32IsWrappedPoly(s);
  }

  /**
   * The second loop of `stringToColour`: "#" followed by the zero-padded low,
   * middle and high byte of the hash, which makes a CSS colour denoting the
   * hash modulo 2^24.
   */
  method FormatColour(hash: int) returns (colour: string)
    ensures colour == Colour(hash)
    ensures IsCssColour(colour)
    ensures ColourValue(colour) == hash % TWO_24
  {
    colour := "#";
    for i := 0 to 3
      invariant colour == "#" + Channels(hash, i)
    {
      var value := AndLowByte(SignedShiftRight(hash, i * 8));
      colour := colour + Substr("00" + ToHexString(value), -2);
    }
    ColourRoundTrip(hash);
  }

  /**
   * `stringToColour(string)`, with the string given as its code units: the
   * hash loop followed by the formatting loop. The colour denotes the 32-bit
   * hash modulo 2^24.
   */
  method StringToColourOf(s: seq<CodeUnit>) returns (colour: string)
    ensures colour == Colour(Hash(s))
    ensures IsCssColour(colour)
    ensures ColourValue(colour) == Hash32(s) % TWO_24
  {
    var hash := HashCodeUnits(s);
    colour := FormatColour(hash);
    Low24OfToInt32(hash, Hash32(s));
  }

  /** A number and its ToInt32 agree modulo 2^24. */
  lemma Low24OfToInt32(h: int, w: int)
    requires w == ToInt32(h)
    ensures h % TWO_24 == w % TWO_24
  {
    Mod24OfMod32(h, w);
  }

  // ---------------------------------------------------------------------------
  // Reference values
  // ---------------------------------------------------------------------------

  /** The colour of a hash, spelled from the bytes of its remainder modulo 2^24. */
  lemma ColourSpellsLow24(hash: int)
    ensures var x := hash % TWO_24;
      Colour(hash) == Spell(x % 256, x / 256 % 256, x / 65536 % 256)
  {
    ColourDigits(hash);
    ByteValues(hash);
  }

  /** The three bytes of b0 + 256 * b1 + 65536 * b2, read back by remainder and division. */
  lemma BytesOf(h: int, b0: nat, b1: nat, b2: nat)
    requires b0 < 256 && b1 < 256 && b2 < 256
    requires h == b0 + 256 * b1 + 65536 * b2
    ensures h % TWO_24 % 256 == b0
    ensures h % TWO_24 / 256 % 256 == b1
    ensures h % TWO_24 / 65536 % 256 == b2
  {
    assert h % TWO_24 == h;
    DivUnique(h, 256, b1 + 256 * b2, b0);
    DivUnique(h, 65536, b2, b0 + 256 * b1);
  }

  /** The hash with low byte b0, middle byte b1 and high byte b2 is spelled from those bytes. */
  lemma ColourOfBytes(h: int, b0: nat, b1: nat, b2: nat)
    requires b0 < 256 && b1 < 256 && b2 < 256
    requires h == b0 + 256 * b1 + 65536 * b2
    ensures Colour(h) == Spell(b0, b1, b2)
  {
    BytesOf(h, b0, b1, b2);
    ColourSpellsLow24(h);
  }

  /** The empty string leaves the hash at 0 and is black. */
  lemma EmptyIsBlack()
    ensures Hash([]) == 0
    ensures Colour(Hash([])) == "#000000"
  {
    var h := Hash([]);
    assert h == 0;
    ColourOfBytes(h, 0, 0, 0);
    Spell0();
  }

  lemma Spell0()
    ensures Spell(0, 0, 0) == "#000000"
  {
    assert HexDigit(0) == '0';
  }

  /** A single code unit c hashes to c itself. */
  lemma HashOfOne(c: CodeUnit)
    ensures Hash([c]) == c
  {
    assert [c][..0] == [];
    assert ShiftLeft(0, 5) == 0 by {
      ToInt32OfInt32(0);
    }
  }

  lemma Spell97()
    ensures Spell(97, 0, 0) == "#610000"
  {
    assert HexDigit(0) == '0' && HexDigit(1) == '1' && HexDigit(6) == '6';
  }

  lemma Spell98()
    ensures Spell(98, 0, 0) == "#620000"
  {
    assert HexDigit(0) == '0' && HexDigit(2) == '2' && HexDigit(6) == '6';
  }

  /** "a" (code unit 97) gives `#610000` and "b" (98) gives `#620000`. */
  lemma ReferenceColours()
    ensures Colour(Hash([97])) == "#610000"
    ensures Colour(Hash([98])) == "#620000"
  {
    HashOfOne(97);
    HashOfOne(98);
    ColourOfBytes(97, 97, 0, 0);
    ColourOfBytes(98, 98, 0, 0);
    Spell97();
    Spell98();
  }

  /** Two different single-code-unit strings never share a colour. */
  lemma SingleUnitsDiffer(c1: CodeUnit, c2: CodeUnit)
    requires c1 != c2
    ensures Colour(Hash([c1])) != Colour(Hash([c2]))
  {
    HashOfOne(c1);
    HashOfOne(c2);
    assert c1 % TWO_24 == c1;
    assert c2 % TWO_24 == c2;
    ColourEqualIff(c1, c2);
  }
}
