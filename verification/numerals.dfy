/**
  Rust's fixed-width integer types, and the number text used by the store:
  upper-case fixed-width hexadecimal (`{:02X}`, `{:016X}`), Rust's
  `u64::from_str_radix(_, 16)`, and decimal digits for integers.
 */
module Numerals {
  import opened Outcomes

  /** Rust's `u8`. */
  type u8 = x: int | 0 <= x < 256

  /** Rust's `u64`. */
  type u64 = x: int | 0 <= x < 0x1_0000_0000_0000_0000

  /** Rust's `i64`. */
  type i64 = x: int | -0x8000_0000_0000_0000 <= x < 0x8000_0000_0000_0000

  function Pow16(w: nat): (r: nat)
    ensures r >= 1
  {
    if w == 0 then 1 else 16 * Pow16(w - 1)
  }

  /** The upper-case hexadecimal digit of a value below 16. */
  function HexDigit(v: nat): (c: char)
    requires v < 16
    ensures IsHexDigit(c) && HexValue(c) == v
  {
    if v < 10 then (48 + v) as char else (55 + v) as char
  }

  /** `char::is_ascii_hexdigit`. */
  predicate IsHexDigit(c: char)
  {
    ('0' <= c <= '9') || ('a' <= c <= 'f') || ('A' <= c <= 'F')
  }

  function HexValue(c: char): (v: nat)
    requires IsHexDigit(c)
    ensures v < 16
  {
    if '0' <= c <= '9' then c as int - 48
    else if 'a' <= c <= 'f' then c as int - 87
    else c as int - 55
  }

  predicate AllHex(s: string)
  {
    forall i :: 0 <= i < |s| ==> IsHexDigit(s[i])
  }

  /** The value of a string of hexadecimal digits, most significant first. */
  function HexDigitsValue(s: string): (v: nat)
    requires AllHex(s)
    ensures v < Pow16(|s|)
  {
    if |s| == 0 then 0
    else HexDigitsValue(s[..|s| - 1]) * 16 + HexValue(s[|s| - 1])
  }

  /** `{:0wX}` for a value that fits in `w` digits: exactly `w` upper-case digits. */
  function HexFixed(n: nat, w: nat): (s: string)
    requires n < Pow16(w)
    ensures |s| == w && AllHex(s)
    ensures forall i :: 0 <= i < |s| ==> '0' <= s[i] <= '9' || 'A' <= s[i] <= 'F'
  {
    if w == 0 then []
    else HexFixed(n / 16, w - 1) + [HexDigit(n % 16)]
  }

  /**
    `from_str_radix(s, 16)` for an unsigned type: an optional leading `+`
    followed by one or more hexadecimal digits of either case. Range checks
    are left to the caller.
   */
  function FromStrRadix16(s: string): (r: Option<nat>)
    ensures r.Some? && |s| > 0 && s[0] != '+' ==> AllHex(s) && r.value == HexDigitsValue(s)
    ensures AllHex(s) && |s| > 0 ==> r == Some(HexDigitsValue(s))
  {
    var digits := if |s| > 0 && s[0] == '+' then s[1..] else s;
    if |digits| > 0 && AllHex(digits) then Some(HexDigitsValue(digits)) else None
  }

  /** `{:02X}` of a byte. */
  function HexByte(b: u8): (s: string)
    ensures |s| == 2 && AllHex(s) && HexDigitsValue(s) == b
  {
    HexFixedRoundTrip(b, 2);
    HexFixed(b, 2)
  }

  /** `DataBytes::to_hex_string`: `{:02X}` per byte, joined by single spaces. */
  function HexString(data: seq<u8>): (s: string)
    ensures |s| == if |data| == 0 then 0 else 3 * |data| - 1
  {
    if |data| == 0 then ""
    else if |data| == 1 then HexByte(data[0])
    else HexByte(data[0]) + " " + HexString(data[1..])
  }

  /** Two characters of a `to_hex_string` output: the rendering of byte `i`. */
  function PairAt(s: string, i: nat): string
    requires 3 * i + 2 <= |s|
  {
    s[3 * i..3 * i + 2]
  }

  /** The character after byte `i` in a `to_hex_string` output. */
  function SeparatorAt(s: string, i: nat): char
    requires 3 * i + 2 < |s|
  {
    s[3 * i + 2]
  }

  function DecimalDigit(v: nat): (c: char)
    requires v < 10
  {
    (48 + v) as char
  }

  predicate AllDecimal(s: string)
  {
    forall i :: 0 <= i < |s| ==> '0' <= s[i] <= '9'
  }

  /** The value of a string of decimal digits. */
  function DecimalValue(s: string): nat
    requires AllDecimal(s)
  {
    if |s| == 0 then 0
    else DecimalValue(s[..|s| - 1]) * 10 + (s[|s| - 1] as int - 48)
  }

  /** The decimal digits of a natural number, without leading zeros. */
  function NatText(n: nat): (s: string)
    ensures |s| >= 1 && AllDecimal(s)
    ensures |s| > 1 ==> s[0] != '0'
  {
    if n < 10 then [DecimalDigit(n)]
    else NatText(n / 10) + [DecimalDigit(n % 10)]
  }

  /** `{}` of an integer: a `-` sign for negative values, then the digits. */
  function IntText(n: int): (s: string)
    ensures |s| >= 1
    ensures n >= 0 <==> '0' <= s[0] <= '9'
    ensures n < 0 ==> s[0] == '-'
  {
    if n < 0 then "-" + NatText(-n) else NatText(n)
  }

  // ----- Lemmas -----

  /** Reading back `w` fixed-width digits gives the value. */
  lemma {:induction false} HexFixedRoundTrip(n: nat, w: nat)
    requires n < Pow16(w)
    ensures HexDigitsValue(HexFixed(n, w)) == n
    decreases w
  {
    if w > 0 {
      HexFixedRoundTrip(n / 16, w - 1);
      var s := HexFixed(n, w);
      assert s[..|s| - 1] == HexFixed(n / 16, w - 1);
    }
  }

  /** Reading back the decimal text of a number gives the number. */
  lemma {:induction false} NatTextRoundTrip(n: nat)
    ensures DecimalValue(NatText(n)) == n
    decreases n
  {
    if n >= 10 {
      NatTextRoundTrip(n / 10);
      var s := NatText(n);
      assert s[..|s| - 1] == NatText(n / 10);
    }
  }

  /** Dropping a three-character prefix shifts every slice by three. */
  lemma SliceShift(a: string, t: string, j: nat, k: nat)
    requires |a| == 3 && 3 <= j <= k <= |a| + |t|
    ensures (a + t)[j..k] == t[j - 3..k - 3]
  {
  }

  /** Byte `i` is rendered by the two characters at offset `3 * i`. */
  lemma {:induction false} HexStringPairs(data: seq<u8>)
    ensures forall i :: 0 <= i < |data| ==> PairAt(HexString(data), i) == HexByte(data[i])
    decreases |data|
  {
    if |data| > 1 {
      var s := HexString(data);
      var t := HexString(data[1..]);
      HexStringPairs(data[1..]);
      var a := HexByte(data[0]) + " ";
      assert s == a + t;
      forall i | 0 < i < |data|
        ensures PairAt(s, i) == HexByte(data[i])
      {
        SliceShift(a, t, 3 * i, 3 * i + 2);
        assert PairAt(s, i) == PairAt(t, i - 1);
        assert data[1..][i - 1] == data[i];
      }
    }
  }

  /** Every byte but the last is followed by a single space. */
  lemma {:induction false} HexStringSeparators(data: seq<u8>)
    ensures forall i :: 0 <= i < |data| - 1 ==> SeparatorAt(HexString(data), i) == ' '
    decreases |data|
  {
    if |data| > 1 {
      var s := HexString(data);
      var t := HexString(data[1..]);
      HexStringSeparators(data[1..]);
      var a := HexByte(data[0]) + " ";
      assert s == a + t;
      forall i | 0 < i < |data| - 1
        ensures SeparatorAt(s, i) == ' '
      {
        assert s[3 * i + 2] == t[3 * (i - 1) + 2];
        assert SeparatorAt(s, i) == SeparatorAt(t, i - 1);
      }
    }
  }

  /** Powers of sixteen add their exponents. */
  lemma {:induction false} Pow16Add(a: nat, b: nat)
    ensures Pow16(a + b) == Pow16(a) * Pow16(b)
    decreases a
  {
    if a > 0 {
      Pow16Add(a - 1, b);
    }
  }

  /** Sixteen hexadecimal digits are exactly the range of `u64`. */
  lemma Pow16Word()
    ensures Pow16(16) == 0x1_0000_0000_0000_0000
  {
    assert Pow16(2) == 256;
    Pow16Add(2, 2);
    Pow16Add(4, 4);
    Pow16Add(8, 8);
  }
}
