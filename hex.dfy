/** Two-digit hexadecimal text for bytes, as the .NET calls in the Etag code
    produce and read it: `byte.ToString("X2")` and
    `byte.Parse(s, NumberStyles.HexNumber)` on two-character strings. */
module Hex {

  import opened Wrappers
  import opened Numerics

  predicate IsUpperHexDigit(c: char)
  {
    '0' <= c <= '9' || 'A' <= c <= 'F'
  }

  /** The value of a hex digit of either case; `None` for any other
      character. */
  function DigitValue(c: char): (r: Option<nat>)
    ensures r.Some? <==> IsUpperHexDigit(c) || 'a' <= c <= 'f'
    ensures r.Some? ==> r.value < 16
  {
    if '0' <= c <= '9' then Some(c as int - '0' as int)
    else if 'A' <= c <= 'F' then Some(c as int - 'A' as int + 10)
    else if 'a' <= c <= 'f' then Some(c as int - 'a' as int + 10)
    else None
  }

  /** The uppercase digit for a value below 16. */
  function HexDigit(n: nat): (c: char)
    requires n < 16
    ensures IsUpperHexDigit(c)
    ensures DigitValue(c) == Some(n)
  {
    if n < 10 then ('0' as int + n) as char else ('A' as int + n - 10) as char
  }

  /** An uppercase digit is the digit of its own value. */
  lemma UpperDigitRoundTrip(c: char)
    requires IsUpperHexDigit(c)
    ensures DigitValue(c).Some? && HexDigit(DigitValue(c).value) == c
  {
  }

  /** `b.ToString("X2")`: two uppercase digits, high nibble first. */
  function X2(b: byte): (s: string)
    ensures |s| == 2
    ensures IsUpperHexDigit(s[0]) && IsUpperHexDigit(s[1])
    ensures DigitValue(s[0]).value * 16 + DigitValue(s[1]).value == b
  {
    [HexDigit(b / 16), HexDigit(b % 16)]
  }

  /** The white space `NumberStyles.AllowLeadingWhite` and
      `AllowTrailingWhite` skip: U+0009 to U+000D and U+0020. */
  predicate IsWhite(c: char)
  {
    c == ' ' || '\t' <= c <= '\r'
  }

  /** `byte.Parse(s, NumberStyles.HexNumber)` for a two-character `s`, with
      `None` where it throws `FormatException`. Digits of either case are
      read; one white-space character may stand before or after a single
      digit, and a NUL may follow it (the framework ignores trailing NULs).
      Two digits never exceed 0xFF, so the overflow case cannot arise. */
  function ParseHexByte(s: string): (r: Option<byte>)
    requires |s| == 2
    ensures r.Some? ==> DigitValue(s[0]).Some? || DigitValue(s[1]).Some?
    ensures DigitValue(s[0]).Some? && DigitValue(s[1]).Some? ==>
              r == Some(DigitValue(s[0]).value * 16 + DigitValue(s[1]).value)
    ensures DigitValue(s[0]).None? && DigitValue(s[1]).Some? ==>
              r == (if IsWhite(s[0]) then Some(DigitValue(s[1]).value) else None)
    ensures DigitValue(s[0]).Some? && DigitValue(s[1]).None? ==>
              r == (if IsWhite(s[1]) || s[1] == '\0' then Some(DigitValue(s[0]).value) else None)
  {
    match (DigitValue(s[0]), DigitValue(s[1]))
    case (Some(high), Some(low)) => Some(high * 16 + low)
    case (None, Some(low)) => if IsWhite(s[0]) then Some(low) else None
    case (Some(high), None) => if IsWhite(s[1]) || s[1] == '\0' then Some(high) else None
    case (None, None) => None
  }

  /** Reading back what "X2" wrote gives the byte. */
  lemma X2RoundTrip(b: byte)
    ensures ParseHexByte(X2(b)) == Some(b)
  {
  }

  /** Two uppercase digits are read as the byte that "X2" writes as them. */
  lemma UpperPairRoundTrip(s: string)
    requires |s| == 2 && IsUpperHexDigit(s[0]) && IsUpperHexDigit(s[1])
    ensures ParseHexByte(s).Some?
    ensures X2(ParseHexByte(s).value) == s
  {
    var b := ParseHexByte(s).value;
    var h, l := DigitValue(s[0]).value, DigitValue(s[1]).value;
    assert b / 16 == h && b % 16 == l;
    UpperDigitRoundTrip(s[0]);
    UpperDigitRoundTrip(s[1]);
  }

  /** Lowercase digits are accepted too. */
  lemma LowercaseAccepted(b: byte)
    ensures var s := X2(b);
            var lower := seq(2, i requires 0 <= i < 2 => if 'A' <= s[i] <= 'F' then (s[i] as int + 32) as char else s[i]);
            ParseHexByte(lower) == Some(b)
  {
  }

  /** The "X2" digits of a byte string, in order. */
  function HexOf(bs: seq<byte>): (s: string)
    ensures |s| == 2 * |bs|
  {
    if bs == [] then [] else HexOf(bs[..|bs| - 1]) + X2(bs[|bs| - 1])
  }

  /** The two digits at pair `k` are the "X2" of byte `k`. */
  lemma {:induction false} HexOfPair(bs: seq<byte>, k: nat)
    requires k < |bs|
    ensures HexOf(bs)[2 * k..2 * k + 2] == X2(bs[k])
  {
    var n := |bs|;
    var init := bs[..n - 1];
    assert HexOf(bs) == HexOf(init) + X2(bs[n - 1]);
    if k < n - 1 {
      HexOfPair(init, k);
      assert HexOf(bs)[2 * k..2 * k + 2] == HexOf(init)[2 * k..2 * k + 2];
    }
  }

  /** The digits of a concatenation are the concatenated digits. */
  lemma {:induction false} HexOfAppend(a: seq<byte>, b: seq<byte>)
    ensures HexOf(a + b) == HexOf(a) + HexOf(b)
  {
    if b == [] {
      assert a + b == a;
    } else {
      var n := |b|;
      assert (a + b)[..|a + b| - 1] == a + b[..n - 1];
      HexOfAppend(a, b[..n - 1]);
    }
  }
}
