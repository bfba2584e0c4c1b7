/** Hexadecimal digits and the base-16 conversions the colour type relies on:
    ASCII upper-casing, `int(s, 16)` on a string of upper-case digits,
    `hex(n)[2:].upper()` (the minimal upper-case digit string of a number)
    and the padding of a one-digit string to two digits. */
module Hex {

  /** One of `0-9A-F`: the alphabet the colour type accepts after upper-casing. */
  predicate IsHexDigit(c: char) {
    ('0' <= c <= '9') || ('A' <= c <= 'F')
  }

  predicate IsHexString(s: string) {
    forall i :: 0 <= i < |s| ==> IsHexDigit(s[i])
  }

  /** ASCII upper-casing of one character; every other character is kept. */
  function UpperChar(c: char): (u: char)
    ensures 'a' <= c <= 'z' ==> 'A' <= u <= 'Z' && u as int == c as int - 32
    ensures !('a' <= c <= 'z') ==> u == c
  {
    if 'a' <= c <= 'z' then (c as int - 32) as char else c
  }

  /** `str.upper()`, restricted to ASCII letters. */
  function Upper(s: string): (u: string)
    ensures |u| == |s|
    ensures forall i :: 0 <= i < |s| ==> u[i] == UpperChar(s[i])
  {
    seq(|s|, i requires 0 <= i < |s| => UpperChar(s[i]))
  }

  /** Upper-casing leaves a string of upper-case hex digits as it is. */
  lemma UpperOfHex(s: string)
    requires IsHexString(s)
    ensures Upper(s) == s
  {
  }

  /** The value of one hex digit. */
  function DigitValue(c: char): (v: nat)
    requires IsHexDigit(c)
    ensures v < 16
    ensures c <= '9' ==> v == c as int - '0' as int
    ensures c >= 'A' ==> v == c as int - 'A' as int + 10
  {
    if c <= '9' then c as int - '0' as int else c as int - 'A' as int + 10
  }

  /** The upper-case digit for a value below 16. */
  function Digit(v: nat): (c: char)
    requires v < 16
    ensures IsHexDigit(c) && DigitValue(c) == v
  {
    if v < 10 then ('0' as int + v) as char else ('A' as int + v - 10) as char
  }

  /** Digit and DigitValue are inverse on upper-case digits. */
  lemma DigitOfValue(c: char)
    requires IsHexDigit(c)
    ensures Digit(DigitValue(c)) == c
  {
  }

  function Pow16(n: nat): (p: nat)
    ensures p >= 1
  {
    if n == 0 then 1 else 16 * Pow16(n - 1)
  }

  /** `int(s, 16)` on a string of upper-case hex digits (most significant first).
      The empty string reads as 0; the colour type never parses one. */
  function ParseHex(s: string): (v: nat)
    requires IsHexString(s)
    ensures v < Pow16(|s|)
  {
    if |s| == 0 then 0 else ParseHex(s[..|s| - 1]) * 16 + DigitValue(s[|s| - 1])
  }

  /** Two digits read as `16 * high + low`. */
  lemma ParseHex2(s: string)
    requires |s| == 2 && IsHexString(s)
    ensures ParseHex(s) == 16 * DigitValue(s[0]) + DigitValue(s[1])
  {
    assert s[..1][..0] == [];
  }

  /** Reading a concatenation: the left part is shifted by the digits of the right. */
  lemma {:induction false} ParseHexAppend(a: string, b: string)
    requires IsHexString(a) && IsHexString(b)
    ensures IsHexString(a + b)
    ensures ParseHex(a + b) == ParseHex(a) * Pow16(|b|) + ParseHex(b)
  {
    assert forall i :: 0 <= i < |a + b| ==> IsHexDigit((a + b)[i]) by {
      forall i | 0 <= i < |a + b| ensures IsHexDigit((a + b)[i]) {
        if i < |a| { assert (a + b)[i] == a[i]; } else { assert (a + b)[i] == b[i - |a|]; }
      }
    }
    if |b| == 0 {
      assert a + b == a;
    } else {
      var b' := b[..|b| - 1];
      var ab := a + b;
      assert ab[..|ab| - 1] == a + b';
      assert ab[|ab| - 1] == b[|b| - 1];
      ParseHexAppend(a, b');
      var p, q, r, d := ParseHex(a), Pow16(|b'|), ParseHex(b'), DigitValue(b[|b| - 1]);
      assert ParseHex(ab) == ParseHex(a + b') * 16 + d;
      assert ParseHex(b) == r * 16 + d;
      assert Pow16(|b|) == 16 * q;
      ShiftDigit(p, q, r, d);
    }
  }

  lemma ShiftDigit(p: int, q: int, r: int, d: int)
    ensures (p * q + r) * 16 + d == p * (16 * q) + (r * 16 + d)
  {
  }

  /** `hex(n)[2:].upper()`: the shortest upper-case digit string of `n`
      (a single `0` for zero), which reads back as `n`. */
  function ToHex(n: nat): (s: string)
    ensures IsHexString(s) && ParseHex(s) == n
    ensures |s| >= 1 && (|s| == 1 <==> n < 16)
    ensures |s| > 1 ==> s[0] != '0'
    ensures n < 256 ==> |s| <= 2
  {
    if n < 16 then [Digit(n)]
    else
      var s := ToHex(n / 16) + [Digit(n % 16)];
      assert s[..|s| - 1] == ToHex(n / 16);
      s
  }

  /** `_1to2`: a one-character digit string gets a leading `0`; any other
      string is returned unchanged. */
  function PadTo2(s: string): (r: string)
    ensures |s| == 1 ==> |r| == 2 && r[0] == '0' && r[1..] == s
    ensures |s| != 1 ==> r == s
  {
    if |s| == 1 then "0" + s else s
  }

  /** A channel byte formatted the way the colour type writes it:
      exactly two upper-case digits that read back as the byte. */
  function ByteHex(n: nat): (s: string)
    requires n < 256
    ensures |s| == 2 && IsHexString(s) && ParseHex(s) == n
  {
    var d := ToHex(n);
    var s := PadTo2(d);
    if |d| == 1 then
      ParseHex2(s);
      assert ParseHex(d) == DigitValue(d[0]) by { assert d[..0] == []; }
      s
    else
      s
  }

  /** Formatting is the inverse of reading on two-digit strings, so two
      two-digit strings with the same value are the same string. */
  lemma ByteHexOfParse(s: string)
    requires |s| == 2 && IsHexString(s)
    ensures ByteHex(ParseHex(s)) == s
  {
    ParseHex2(s);
    var hi, lo := DigitValue(s[0]), DigitValue(s[1]);
    var n := ParseHex(s);
    DigitOfValue(s[0]);
    DigitOfValue(s[1]);
    if hi == 0 {
      assert n == lo;
      assert ToHex(n) == [Digit(lo)];
    } else {
      assert n / 16 == hi && n % 16 == lo;
      assert ToHex(n) == [Digit(hi), Digit(lo)];
    }
  }

  /** Two-digit strings are equal exactly when their values are. */
  lemma ParseHexInjective2(s: string, t: string)
    requires |s| == 2 && IsHexString(s) && |t| == 2 && IsHexString(t)
    ensures ParseHex(s) == ParseHex(t) <==> s == t
  {
    if ParseHex(s) == ParseHex(t) {
      ByteHexOfParse(s);
      ByteHexOfParse(t);
    }
  }
}
