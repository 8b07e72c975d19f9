/**
 * The string side of `stringToColour`: `Number.prototype.toString(16)` on a
 * non-negative integer, `String.prototype.substr` with one argument, and the
 * zero-padding idiom `('00' + v.toString(16)).substr(-2)` built from them.
 */
module HexFormat {

  const DIGITS: string := "0123456789abcdef"

  /** A digit that radix-16 `toString` can produce: JavaScript uses lowercase letters. */
  predicate IsHexDigit(c: char) {
    '0' <= c <= '9' || 'a' <= c <= 'f'
  }

  /** The digit for d in radix 16. */
  function HexDigit(d: int): (c: char)
    requires 0 <= d < 16
    ensures IsHexDigit(c)
    ensures DigitValue(c) == d
  {
    DIGITS[d]
  }

  /** The value of one radix-16 digit. */
  function DigitValue(c: char): (d: int)
    requires IsHexDigit(c)
    ensures 0 <= d < 16
  {
    if c <= '9' then c as int - '0' as int else c as int - 'a' as int + 10
  }

  /** `v.toString(16)` for a non-negative integer v, most significant digit first. */
  function ToHexString(v: nat): string
  {
    if v < 16 then [HexDigit(v)] else ToHexString(v / 16) + [HexDigit(v % 16)]
  }

  /**
   * `toString(16)` gives the shortest numeral: one digit exactly below 16,
   * never a leading zero otherwise, every character a lowercase radix-16
   * digit, and the last two digits those of v.
   */
  lemma {:induction false} ToHexStringShape(v: nat)
    ensures var r := ToHexString(v);
      && |r| >= 1
      && (forall k :: 0 <= k < |r| ==> IsHexDigit(r[k]))
      && r[|r| - 1] == HexDigit(v % 16)
      && (v >= 16 ==> |r| >= 2 && r[|r| - 2] == HexDigit(v / 16 % 16))
      && (v < 16 <==> |r| == 1)
      && (|r| > 1 ==> r[0] != '0')
  {
    if v >= 16 {
      ToHexStringShape(v / 16);
      var r, r' := ToHexString(v), ToHexString(v / 16);
      assert r == r' + [HexDigit(v % 16)];
      assert r[|r| - 2] == r'[|r'| - 1];
      assert r[0] == r'[0];
    }
  }

  /** The number a radix-16 numeral denotes, read most significant digit first. */
  function HexValue(s: string): nat
    requires forall k :: 0 <= k < |s| ==> IsHexDigit(s[k])
  {
    if s == [] then 0 else 16 * HexValue(s[..|s| - 1]) + DigitValue(s[|s| - 1])
  }

  /** Reading back what `toString(16)` wrote gives the original number. */
  lemma {:induction false} HexValueOfToHexString(v: nat)
    ensures forall k :: 0 <= k < |ToHexString(v)| ==> IsHexDigit(ToHexString(v)[k])
    ensures HexValue(ToHexString(v)) == v
  {
    ToHexStringShape(v);
    var r := ToHexString(v);
    if v >= 16 {
      HexValueOfToHexString(v / 16);
      assert r[..|r| - 1] == ToHexString(v / 16);
    } else {
      assert r[..0] == [];
    }
  }

  /**
   * `s.substr(start)` with one argument (section B.2.2.1 of ECMA-262): a
   * negative start counts from the end and is clamped at 0, a start past
   * the end gives the empty string, and the rest of the string is taken.
   */
  function Substr(s: string, start: int): string
  {
    var from := if start < 0 then (if |s| + start < 0 then 0 else |s| + start) else start;
    var from' := if from > |s| then |s| else from;
    s[from'..]
  }

  /**
   * `substr(-n)` keeps exactly the last n characters of a string of length at
   * least n; n must be positive, since `substr(-0)` is `substr(0)`, the whole string.
   */
  lemma SubstrLast(s: string, n: nat)
    requires 0 < n <= |s|
    ensures Substr(s, -(n as int)) == s[|s| - n..]
    ensures |Substr(s, -(n as int))| == n
  {
  }

  /**
   * `('00' + v.toString(16)).substr(-2)`: the last two characters of the
   * zero-padded numeral.
   */
  function PadHex2(v: nat): string
  {
    Substr("00" + ToHexString(v), -2)
  }

  /**
   * The padding idiom always yields the two lowest radix-16 digits of v, high
   * digit first; so a v below 16 gets a leading '0' and any v below 256 is
   * written in full and reads back as v.
   */
  lemma PadHex2Digits(v: nat)
    ensures PadHex2(v) == [HexDigit(v / 16 % 16), HexDigit(v % 16)]
    ensures v < 16 ==> PadHex2(v)[0] == '0'
    ensures v < 256 ==> PadHex2(v) == [HexDigit(v / 16), HexDigit(v % 16)]
    ensures v < 256 ==> HexValue(PadHex2(v)) == v
  {
    ToHexStringShape(v);
    var h := ToHexString(v);
    var s := "00" + h;
    SubstrLast(s, 2);
    assert s[|s| - 1] == h[|h| - 1];
    if v >= 16 {
      assert s[|s| - 2] == h[|h| - 2];
    } else {
      assert s[|s| - 2] == '0';
    }
    var r := PadHex2(v);
    assert r == [HexDigit(v / 16 % 16), HexDigit(v % 16)];
    assert r[..1][..0] == [];
    assert HexValue(r[..1]) == v / 16 % 16;
    assert HexValue(r) == 16 * (v / 16 % 16) + v % 16;
  }
}
