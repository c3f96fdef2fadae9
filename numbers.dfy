/** Integer parsing as the emulator code uses it: str::parse::<u16> on a run of
    ASCII digits, and u8::from_str_radix(_, 16) on a two-byte colour field. */
module Numbers {
  import opened Wrappers
  import opened Bytes

  /** Rust's u16. */
  type U16 = n: nat | n <= U16_MAX

  const U16_MAX: nat := 0xFFFF

  /** '+', which u8::from_str_radix accepts as a sign. */
  const PLUS: Byte := 0x2B

  // ---------------------------------------------------------------- decimal

  /** u8::is_ascii_digit. */
  predicate IsDigit(c: Byte) {
    0x30 <= c <= 0x39
  }

  predicate AllDigits(s: seq<Byte>) {
    forall i :: 0 <= i < |s| ==> IsDigit(s[i])
  }

  /** The length of s.iter().take_while(is_ascii_digit): the longest run of
      digits at the front of s. */
  function DigitRunLength(s: seq<Byte>): (n: nat)
    ensures n <= |s| && AllDigits(s[..n])
    ensures n < |s| ==> !IsDigit(s[n])
  {
    if |s| > 0 && IsDigit(s[0]) then 1 + DigitRunLength(s[1..]) else 0
  }

  /** The value of a string of decimal digits, most significant first. */
  function DecimalValue(ds: seq<Byte>): nat
    requires AllDigits(ds)
  {
    if |ds| == 0 then 0 else DecimalValue(ds[..|ds| - 1]) * 10 + (ds[|ds| - 1] - 0x30)
  }

  /** str::parse::<u16> on a string of ASCII digits: empty fails, a value
      above u16::MAX fails (overflow), leading zeros are accepted. */
  function ParseU16(ds: seq<Byte>): (r: Option<U16>)
    requires AllDigits(ds)
  {
    if |ds| == 0 || DecimalValue(ds) > U16_MAX then None else Some(DecimalValue(ds))
  }

  /** How a terminal writes n in its replies: shortest decimal form. */
  function ToDecimal(n: nat): seq<Byte>
  {
    if n < 10 then [0x30 + n] else ToDecimal(n / 10) + [0x30 + n % 10]
  }

  /** Reading back what a terminal writes gives the number it wrote. */
  lemma {:induction false} DecimalRoundTrip(n: nat)
    ensures |ToDecimal(n)| > 0 && AllDigits(ToDecimal(n))
    ensures DecimalValue(ToDecimal(n)) == n
  {
    if n >= 10 {
      var front := ToDecimal(n / 10);
      DecimalRoundTrip(n / 10);
      var s := ToDecimal(n);
      assert s == front + [0x30 + n % 10];
      assert s[..|s| - 1] == front;
    }
  }

  /** A u16 written by the terminal parses back to itself. */
  lemma ParseU16RoundTrip(n: U16)
    ensures AllDigits(ToDecimal(n)) && ParseU16(ToDecimal(n)) == Some(n)
  {
    DecimalRoundTrip(n);
  }

  // -------------------------------------------------------------------- hex

  predicate IsHexDigit(c: Byte) {
    IsDigit(c) || 0x41 <= c <= 0x46 || 0x61 <= c <= 0x66
  }

  predicate AllHexDigits(s: seq<Byte>) {
    forall i :: 0 <= i < |s| ==> IsHexDigit(s[i])
  }

  function HexDigitValue(c: Byte): (v: nat)
    requires IsHexDigit(c)
    ensures v < 16
  {
    if IsDigit(c) then c - 0x30 else if c <= 0x46 then c - 0x41 + 10 else c - 0x61 + 10
  }

  /** The value of a string of hex digits, most significant first. */
  function HexValue(ds: seq<Byte>): nat
    requires AllHexDigits(ds)
  {
    if |ds| == 0 then 0 else HexValue(ds[..|ds| - 1]) * 16 + HexDigitValue(ds[|ds| - 1])
  }

  /** u8::from_str_radix(s, 16): an optional leading '+', then at least one
      hex digit, the value fitting in a byte. A lone sign, an empty string,
      a '-' or any other non-digit fails. */
  function ParseHexU8(s: seq<Byte>): Option<Byte>
  {
    if |s| == 0 || (s[0] == PLUS && |s| == 1) then None
    else
      var digits := if s[0] == PLUS then s[1..] else s;
      if AllHexDigits(digits) && HexValue(digits) < 0x100 then Some(HexValue(digits)) else None
  }

  /** On a two-byte field, from_str_radix succeeds exactly on two hex digits
      (value 16*hi + lo) or on '+' and one hex digit (value of that digit). */
  lemma ParseHexPair(s: seq<Byte>)
    requires |s| == 2
    ensures IsHexDigit(s[0]) && IsHexDigit(s[1]) ==>
              ParseHexU8(s) == Some(HexDigitValue(s[0]) * 16 + HexDigitValue(s[1]))
    ensures s[0] == PLUS && IsHexDigit(s[1]) ==> ParseHexU8(s) == Some(HexDigitValue(s[1]))
    ensures ParseHexU8(s).Some? ==> IsHexDigit(s[1]) && (IsHexDigit(s[0]) || s[0] == PLUS)
  {
    if IsHexDigit(s[0]) && IsHexDigit(s[1]) {
      assert s[..1] == [s[0]];
      assert HexValue(s) == HexValue([s[0]]) * 16 + HexDigitValue(s[1]);
    } else if s[0] == PLUS && IsHexDigit(s[1]) {
      assert s[1..] == [s[1]];
      assert HexValue(s[1..]) == HexDigitValue(s[1]);
    }
  }

  /** Two lower-case hex digits of a byte, the form terminals use in rgb: replies. */
  function ToHex2(v: Byte): seq<Byte>
  {
    [HexChar(v / 16), HexChar(v % 16)]
  }

  function HexChar(d: nat): (c: Byte)
    requires d < 16
    ensures IsHexDigit(c) && HexDigitValue(c) == d
  {
    if d < 10 then 0x30 + d else 0x61 + d - 10
  }

  /** Every byte written as two hex digits parses back to itself. */
  lemma HexRoundTrip(v: Byte)
    ensures ParseHexU8(ToHex2(v)) == Some(v)
  {
    ParseHexPair(ToHex2(v));
  }
}
