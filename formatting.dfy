/**
 * The two text renderings `Block.generateHash` builds on
 * (8ydh_create_a_decent.swift:110-112): Swift's decimal interpolation of an
 * `Int`, and `String(format: "%02x")` over the bytes of a digest, joined.
 * Each rendering comes with a reader that undoes it.
 */
module Formatting {
  import opened Wrappers

  /** An unsigned 8-bit value, one element of a digest. */
  type byte = x: int | 0 <= x < 256

  predicate IsDigit(c: char) { '0' <= c <= '9' }

  predicate IsLowerHex(c: char) { '0' <= c <= '9' || 'a' <= c <= 'f' }

  predicate AllDigits(s: string) { forall i :: 0 <= i < |s| ==> IsDigit(s[i]) }

  predicate AllLowerHex(s: string) { forall i :: 0 <= i < |s| ==> IsLowerHex(s[i]) }

  function DigitChar(d: nat): (c: char)
    requires d < 10
    ensures IsDigit(c)
  {
    ('0' as int + d) as char
  }

  function DigitValue(c: char): (d: nat)
    requires IsDigit(c)
    ensures d < 10 && DigitChar(d) == c
  {
    c as int - '0' as int
  }

  // ---------------------------------------------------------------------
  // Decimal rendering of an Int, as string interpolation writes it
  // ---------------------------------------------------------------------

  /** The decimal digits of `n`, most significant first, with no leading zero. */
  function NatDigits(n: nat): (s: string)
    ensures |s| >= 1 && AllDigits(s)
    ensures s[0] == '0' ==> n == 0
    decreases n
  {
    if n < 10 then [DigitChar(n)] else NatDigits(n / 10) + [DigitChar(n % 10)]
  }

  /** `"\(n)"` for an `Int`: a minus sign for a negative value, then the digits. */
  function Decimal(n: int): (s: string)
  {
    if n < 0 then "-" + NatDigits(-n) else NatDigits(n)
  }

  /** The rendering is a minus sign exactly for a negative value, followed by a non-empty run of digits. */
  lemma DecimalShape(n: int)
    ensures var s := Decimal(n);
            |s| >= (if n < 0 then 2 else 1) && (s[0] == '-' <==> n < 0) && AllDigits(if n < 0 then s[1..] else s)
  {
    if n < 0 {
      assert Decimal(n)[1..] == NatDigits(-n);
    }
  }

  /** The number a non-empty run of decimal digits denotes. */
  function DigitsValue(s: string): (v: nat)
    requires AllDigits(s)
    decreases |s|
  {
    if s == [] then 0 else 10 * DigitsValue(s[..|s| - 1]) + DigitValue(s[|s| - 1])
  }

  /** Reads back a rendering in the form `Decimal` produces; None for any other text. */
  function ParseDecimal(s: string): (r: Option<int>)
  {
    if |s| >= 2 && s[0] == '-' && AllDigits(s[1..]) && s[1] != '0' then
      Some(-(DigitsValue(s[1..]) as int))
    else if |s| >= 1 && AllDigits(s) && (s[0] != '0' || |s| == 1) then
      Some(DigitsValue(s))
    else
      None
  }

  lemma {:induction false} NatDigitsValue(n: nat)
    ensures DigitsValue(NatDigits(n)) == n
    decreases n
  {
    var s := NatDigits(n);
    if n >= 10 {
      assert s[..|s| - 1] == NatDigits(n / 10);
      NatDigitsValue(n / 10);
    }
  }

  /** The decimal rendering loses nothing: reading it back gives the number. */
  lemma DecimalRoundTrip(n: int)
    ensures ParseDecimal(Decimal(n)) == Some(n)
  {
    var s := Decimal(n);
    if n < 0 {
      var digits := NatDigits(-n);
      assert s[1..] == digits;
      assert s[1] == digits[0] != '0';
      NatDigitsValue(-n);
    } else {
      assert s == NatDigits(n);
      assert IsDigit(s[0]);
      NatDigitsValue(n);
    }
  }

  /** Distinct integers render differently. */
  lemma DecimalInjective(m: int, n: int)
    requires Decimal(m) == Decimal(n)
    ensures m == n
  {
    DecimalRoundTrip(m);
    DecimalRoundTrip(n);
  }

  /**
   * Appending a digit to the rendering of a positive number renders ten times
   * that number plus the digit: the rendering has no end marker.
   */
  lemma DecimalAppendDigit(n: nat, d: nat)
    requires n >= 1 && d < 10
    ensures Decimal(10 * n + d) == Decimal(n) + [DigitChar(d)]
  {
    var m := 10 * n + d;
    assert m / 10 == n && m % 10 == d;
  }

  // ---------------------------------------------------------------------
  // "%02x" over the bytes of a digest, joined
  // ---------------------------------------------------------------------

  function HexDigit(v: nat): (c: char)
    requires v < 16
    ensures IsLowerHex(c)
  {
    if v < 10 then ('0' as int + v) as char else ('a' as int + v - 10) as char
  }

  function HexValue(c: char): (v: nat)
    requires IsLowerHex(c)
    ensures v < 16 && HexDigit(v) == c
  {
    if c <= '9' then c as int - '0' as int else c as int - 'a' as int + 10
  }

  /** `String(format: "%02x", b)`: the high nibble, then the low nibble, in lower case. */
  function Hex2(b: byte): (s: string)
    ensures |s| == 2 && AllLowerHex(s)
    ensures 16 * HexValue(s[0]) + HexValue(s[1]) == b
  {
    [HexDigit(b / 16), HexDigit(b % 16)]
  }

  /** `bytes.compactMap { String(format: "%02x", $0) }.joined()`. */
  function HexString(bytes: seq<byte>): (s: string)
    ensures |s| == 2 * |bytes|
    ensures AllLowerHex(s)
  {
    if bytes == [] then "" else Hex2(bytes[0]) + HexString(bytes[1..])
  }

  /** Reads pairs of lower-case hex digits back into bytes; None for any other text. */
  function ParseHex(s: string): (r: Option<seq<byte>>)
    decreases |s|
  {
    if s == [] then Some([])
    else if |s| < 2 || !IsLowerHex(s[0]) || !IsLowerHex(s[1]) then None
    else match ParseHex(s[2..])
      case None => None
      case Some(rest) => Some([16 * HexValue(s[0]) + HexValue(s[1])] + rest)
  }

  /** Byte `k` of the input is rendered by exactly characters `2k` and `2k+1`. */
  lemma {:induction false} HexStringAt(bytes: seq<byte>, k: nat)
    requires k < |bytes|
    ensures HexString(bytes)[2 * k .. 2 * k + 2] == Hex2(bytes[k])
  {
    if k > 0 {
      HexStringAt(bytes[1..], k - 1);
      var s := HexString(bytes);
      assert s == Hex2(bytes[0]) + HexString(bytes[1..]);
      assert s[2 * k .. 2 * k + 2] == HexString(bytes[1..])[2 * (k - 1) .. 2 * (k - 1) + 2];
    }
  }

  /** The hex rendering is read back exactly, and only the rendering of `bytes` reads back as `bytes`. */
  lemma {:induction false} HexRoundTrip(bytes: seq<byte>, s: string)
    ensures ParseHex(s) == Some(bytes) <==> HexString(bytes) == s
    decreases |s|
  {
    if s == [] || bytes == [] {
      if bytes != [] { assert |HexString(bytes)| > 0; }
      if s != [] && ParseHex(s).Some? {
        assert |ParseHex(s).value| > 0;
      }
    } else if |s| >= 2 && IsLowerHex(s[0]) && IsLowerHex(s[1]) {
      HexRoundTrip(bytes[1..], s[2..]);
      var h := HexString(bytes);
      assert h == Hex2(bytes[0]) + HexString(bytes[1..]);
      var b := 16 * HexValue(s[0]) + HexValue(s[1]);
      if h == s {
        assert s[..2] == Hex2(bytes[0]) && s[2..] == HexString(bytes[1..]);
        assert b == bytes[0];
        assert [bytes[0]] + bytes[1..] == bytes;
      }
      if ParseHex(s) == Some(bytes) {
        assert b == bytes[0];
        assert ParseHex(s[2..]) == Some(bytes[1..]);
        assert Hex2(bytes[0]) == s[..2] by {
          assert b / 16 == HexValue(s[0]) && b % 16 == HexValue(s[1]);
        }
        assert s == s[..2] + s[2..];
      }
    } else {
      assert |HexString(bytes)| >= 2;
      assert HexString(bytes)[..2] == Hex2(bytes[0]);
    }
  }
}
