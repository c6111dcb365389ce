/** Machine integers of the .NET runtime as the Etag code uses them: `byte`,
    32-bit `int` and 64-bit two's-complement `long`, the big- and little-endian
    byte layouts of a 64-bit value, and the parts of `System.BitConverter`,
    `Math.Abs` and the `<<` and `|` operators that the Etag code calls. The
    host is taken to be little-endian, as `BitConverter.IsLittleEndian` is on
    every platform the code ships on. */
module Numerics {

  import opened Wrappers

  const TWO_TO_56: int := 0x100_0000_0000_0000
  const TWO_TO_63: int := 0x8000_0000_0000_0000
  const TWO_TO_64: int := 0x1_0000_0000_0000_0000

  type byte = b: int | 0 <= b < 256
  type int32 = x: int | -0x8000_0000 <= x < 0x8000_0000
  type int64 = x: int | -0x8000_0000_0000_0000 <= x < 0x8000_0000_0000_0000
  type uint64 = u: int | 0 <= u < 0x1_0000_0000_0000_0000

  /** `long.MinValue` and `long.MaxValue`. */
  const MinValue: int64 := -0x8000_0000_0000_0000
  const MaxValue: int64 := 0x7FFF_FFFF_FFFF_FFFF

  /** The bit pattern of a `long`, read as an unsigned number. */
  function Unsigned(x: int64): (u: uint64)
    ensures (u - x) % TWO_TO_64 == 0
  {
    if x < 0 then x + TWO_TO_64 else x
  }

  /** A 64-bit pattern read as a two's-complement `long`. */
  function Signed(u: uint64): (x: int64)
    ensures (u - x) % TWO_TO_64 == 0
  {
    if u < TWO_TO_63 then u else u - TWO_TO_64
  }

  lemma SignedUnsigned(x: int64, u: uint64)
    ensures Signed(Unsigned(x)) == x
    ensures Unsigned(Signed(u)) == u
  {
  }

  /** Unchecked 64-bit arithmetic: the `long` congruent to `x` modulo 2^64. */
  function Wrap(x: int): (r: int64)
    ensures (r - x) % TWO_TO_64 == 0
    ensures MinValue <= x <= MaxValue ==> r == x
  {
    Signed(x % TWO_TO_64)
  }

  /** A wrapped difference is zero exactly when the operands are equal. */
  lemma WrapDifferenceZero(a: int64, b: int64)
    ensures Wrap(a - b) == 0 <==> a == b
  {
    var d := a - b;
    if Wrap(d) == 0 {
      assert d % TWO_TO_64 == 0;
      assert -TWO_TO_64 < d < TWO_TO_64;
    }
  }

  /** Negating the operand of a wrapped value negates the result, except at
      `long.MinValue`, which is its own negation in 64 bits. */
  lemma {:induction false} WrapNegate(d: int)
    ensures Wrap(-d) == if Wrap(d) == MinValue then MinValue else -Wrap(d)
  {
    var w := Wrap(d);
    var k := (w - d) / TWO_TO_64;
    assert w - d == k * TWO_TO_64;
    if w == MinValue {
      assert (MinValue - (-d)) % TWO_TO_64 == (-(k * TWO_TO_64) - 2 * MinValue) % TWO_TO_64;
      WrapUnique(-d, MinValue);
    } else {
      assert (-w - (-d)) == -(k * TWO_TO_64);
      WrapUnique(-d, -w);
    }
  }

  /** There is exactly one `long` in each residue class modulo 2^64. */
  lemma WrapUnique(x: int, r: int64)
    requires (r - x) % TWO_TO_64 == 0
    ensures Wrap(x) == r
  {
    var w := Wrap(x);
    assert (w - r) % TWO_TO_64 == 0 by {
      var i := (w - x) / TWO_TO_64;
      var j := (r - x) / TWO_TO_64;
      assert w - r == (i - j) * TWO_TO_64;
    }
  }

  /** Differences that are multiples of 2^64 add up to one. */
  lemma CongruentSum(x: int, y: int)
    requires x % TWO_TO_64 == 0 && y % TWO_TO_64 == 0
    ensures (x + y) % TWO_TO_64 == 0
  {
    var i, j := x / TWO_TO_64, y / TWO_TO_64;
    assert x + y == (i + j) * TWO_TO_64;
  }

  /** `Math.Abs(long)`, which throws `OverflowException` on `long.MinValue`
      because its magnitude does not fit in a `long`. */
  function MathAbs(x: int64): (r: Option<int64>)
    ensures r.None? <==> x == MinValue
    ensures r.Some? ==> r.value >= 0 && (r.value == x || r.value == -x)
  {
    if x == MinValue then None else if x < 0 then Some(-x) else Some(x)
  }

  function Pow256(n: nat): (p: nat)
    ensures p > 0
  {
    if n == 0 then 1 else 256 * Pow256(n - 1)
  }

  lemma Pow256Facts()
    ensures Pow256(7) == TWO_TO_56
    ensures Pow256(8) == TWO_TO_64
  {
  }

  /** The `n` low-order bytes of `u`, most significant first. */
  function BigEndian(u: nat, n: nat): (r: seq<byte>)
    ensures |r| == n
  {
    if n == 0 then [] else BigEndian(u / 256, n - 1) + [u % 256]
  }

  /** The `n` low-order bytes of `u`, least significant first. */
  function LittleEndian(u: nat, n: nat): (r: seq<byte>)
    ensures |r| == n
  {
    if n == 0 then [] else [u % 256] + LittleEndian(u / 256, n - 1)
  }

  /** The number whose big-endian bytes are `bs`. */
  function FromBigEndian(bs: seq<byte>): (u: nat)
    ensures u < Pow256(|bs|)
  {
    if bs == [] then 0 else FromBigEndian(bs[..|bs| - 1]) * 256 + bs[|bs| - 1]
  }

  /** The number whose little-endian bytes are `bs`. */
  function FromLittleEndian(bs: seq<byte>): (u: nat)
    ensures u < Pow256(|bs|)
  {
    if bs == [] then 0 else bs[0] + 256 * FromLittleEndian(bs[1..])
  }

  /** `Enumerable.Reverse`. */
  function Reverse<T>(s: seq<T>): (r: seq<T>)
    ensures |r| == |s|
    ensures forall k :: 0 <= k < |s| ==> r[k] == s[|s| - 1 - k]
  {
    if s == [] then [] else [s[|s| - 1]] + Reverse(s[..|s| - 1])
  }

  lemma DivMod256(u: int, q: int, r: int)
    requires u == 256 * q + r && 0 <= r < 256
    ensures u / 256 == q && u % 256 == r
  {
  }

  /** The `n` bytes of zero are all 0x00, and those of the largest
      `n`-byte number are all 0xFF. */
  lemma {:induction false} BigEndianExtremes(n: nat)
    ensures BigEndian(0, n) == seq(n, _ => 0)
    ensures BigEndian(Pow256(n) - 1, n) == seq(n, _ => 255)
  {
    if n > 0 {
      BigEndianExtremes(n - 1);
      DivMod256(0, 0, 0);
      DivMod256(Pow256(n) - 1, Pow256(n - 1) - 1, 255);
      assert seq(n, _ => 0) == seq(n - 1, _ => 0) + [0];
      assert seq(n, _ => 255) == seq(n - 1, _ => 255) + [255];
    }
  }

  /** Decoding the big-endian bytes of a number that fits gives it back. */
  lemma {:induction false} BigEndianRoundTrip(u: nat, n: nat)
    requires u < Pow256(n)
    ensures FromBigEndian(BigEndian(u, n)) == u
  {
    if n > 0 {
      var init := BigEndian(u / 256, n - 1);
      assert BigEndian(u, n)[..n - 1] == init;
      BigEndianRoundTrip(u / 256, n - 1);
    }
  }

  /** Encoding the value of a byte string in as many bytes gives it back. */
  lemma {:induction false} FromBigEndianRoundTrip(bs: seq<byte>)
    ensures BigEndian(FromBigEndian(bs), |bs|) == bs
  {
    if bs != [] {
      var n := |bs|;
      var q := FromBigEndian(bs[..n - 1]);
      DivMod256(q * 256 + bs[n - 1], q, bs[n - 1]);
      FromBigEndianRoundTrip(bs[..n - 1]);
      assert bs == bs[..n - 1] + [bs[n - 1]];
    }
  }

  /** Numbers that fit in `n` bytes and have the same bytes are equal. */
  lemma BigEndianInjective(u: nat, t: nat, n: nat)
    requires u < Pow256(n) && t < Pow256(n)
    requires BigEndian(u, n) == BigEndian(t, n)
    ensures u == t
  {
    BigEndianRoundTrip(u, n);
    BigEndianRoundTrip(t, n);
  }

  /** The little-endian layout is the big-endian one read backwards. */
  lemma {:induction false} LittleEndianIsReversed(u: nat, n: nat)
    ensures forall k :: 0 <= k < n ==> LittleEndian(u, n)[k] == BigEndian(u, n)[n - 1 - k]
  {
    if n > 0 {
      LittleEndianIsReversed(u / 256, n - 1);
      forall k | 0 <= k < n
        ensures LittleEndian(u, n)[k] == BigEndian(u, n)[n - 1 - k]
      {
        if k > 0 {
          assert LittleEndian(u, n)[k] == LittleEndian(u / 256, n - 1)[k - 1];
          assert BigEndian(u, n)[n - 1 - k] == BigEndian(u / 256, n - 1)[n - 1 - k];
        }
      }
    }
  }

  /** Reading bytes little-endian is reading them reversed big-endian. */
  lemma {:induction false} FromLittleEndianReversed(le: seq<byte>, be: seq<byte>)
    requires |le| == |be|
    requires forall k :: 0 <= k < |le| ==> le[k] == be[|be| - 1 - k]
    ensures FromLittleEndian(le) == FromBigEndian(be)
  {
    if le != [] {
      var n := |le|;
      FromLittleEndianReversed(le[1..], be[..n - 1]);
    }
  }

  /** A value below 256^m with a byte `h` put above it: the byte comes first
      and the value's own `m` bytes follow. */
  lemma {:induction false} BigEndianPrefix(h: byte, l: nat, m: nat)
    requires l < Pow256(m)
    ensures BigEndian(h * Pow256(m) + l, m + 1) == [h] + BigEndian(l, m)
  {
    var u := h * Pow256(m) + l;
    if m == 0 {
      DivMod256(u, 0, h);
    } else {
      var p := Pow256(m - 1);
      assert u == 256 * (h * p + l / 256) + l % 256;
      DivMod256(u, h * p + l / 256, l % 256);
      assert l / 256 < p;
      BigEndianPrefix(h, l / 256, m - 1);
      DivMod256(l, l / 256, l % 256);
    }
  }

  /** A byte put above a 56-bit value is the top byte of the 64-bit
      result. */
  lemma TopByte(h: byte, l: nat)
    requires l < TWO_TO_56
    ensures h * TWO_TO_56 + l < TWO_TO_64
    ensures BigEndian(h * TWO_TO_56 + l, 8) == [h] + BigEndian(l, 7)
  {
    var p := Pow256(7);
    assert p == TWO_TO_56 by {
      Pow256Facts();
    }
    assert h * p <= 255 * p;
    BigEndianPrefix(h, l, 7);
  }

  /** A non-negative value below 2^56 has a zero top byte. */
  lemma ZeroTopByte(n: int64)
    requires 0 <= n < TWO_TO_56
    ensures BigEndian(Unsigned(n), 8) == [0] + BigEndian(n, 7)
  {
    TopByte(0, n);
    assert 0 * TWO_TO_56 + n == n == Unsigned(n);
  }

  /** 64-bit patterns with the same eight bytes are equal. */
  lemma BigEndian8Injective(u: uint64, t: uint64)
    requires BigEndian(u, 8) == BigEndian(t, 8)
    ensures u == t
  {
    Pow256Facts();
    BigEndianInjective(u, t, 8);
  }

  /** `BitConverter.GetBytes(long)`: the eight bytes of the value in host
      (little-endian) order. */
  function GetBytes(x: int64): (r: seq<byte>)
    ensures |r| == 8
    ensures forall k :: 0 <= k < 8 ==> r[k] == BigEndian(Unsigned(x), 8)[7 - k]
  {
    LittleEndianIsReversed(Unsigned(x), 8);
    LittleEndian(Unsigned(x), 8)
  }

  /** `BitConverter.ToInt64(value, startIndex)`: the `long` whose host-order
      bytes are `value[startIndex..startIndex + 8]`. The framework throws
      `ArgumentException` when fewer than eight bytes remain; callers in this
      model check that first. */
  function ToInt64(value: seq<byte>, startIndex: nat): (x: int64)
    requires startIndex + 8 <= |value|
    ensures Unsigned(x) == FromLittleEndian(value[startIndex..startIndex + 8])
  {
    Pow256Facts();
    Signed(FromLittleEndian(value[startIndex..startIndex + 8]))
  }

  lemma GetBytesToInt64(x: int64)
    ensures ToInt64(GetBytes(x), 0) == x
  {
    var be := BigEndian(Unsigned(x), 8);
    Pow256Facts();
    FromLittleEndianReversed(GetBytes(x), be);
    BigEndianRoundTrip(Unsigned(x), 8);
    assert GetBytes(x)[0..8] == GetBytes(x);
  }

  function Pow2(n: nat): (p: nat)
    ensures p > 0
  {
    if n == 0 then 1 else 2 * Pow2(n - 1)
  }

  /** Bitwise OR of the `n` low-order bits of `a` and `b`, one bit at a time
      from the least significant. */
  function OrBits(a: nat, b: nat, n: nat): (r: nat)
    ensures r < Pow2(n)
    ensures b == 0 && a < Pow2(n) ==> r == a
    ensures a == 0 && b < Pow2(n) ==> r == b
  {
    if n == 0 then 0
    else (if a % 2 == 1 || b % 2 == 1 then 1 else 0) + 2 * OrBits(a / 2, b / 2, n - 1)
  }

  /** Bitwise OR of two bytes. */
  function OrByte(a: byte, b: byte): (r: byte)
    ensures b == 0 ==> r == a
    ensures a == 0 ==> r == b
  {
    assert Pow2(8) == 256;
    OrBits(a, b, 8)
  }

  /** Bitwise OR of two byte strings of the same length, byte by byte. */
  function OrBytes(x: seq<byte>, y: seq<byte>): (r: seq<byte>)
    requires |x| == |y|
    ensures |r| == |x|
    ensures forall k :: 0 <= k < |x| ==> r[k] == OrByte(x[k], y[k])
  {
    if x == [] then [] else [OrByte(x[0], y[0])] + OrBytes(x[1..], y[1..])
  }

  /** Bitwise OR of two `long`s: the OR of their bit patterns. */
  function Or64(a: int64, b: int64): (r: int64)
    ensures BigEndian(Unsigned(r), 8) == OrBytes(BigEndian(Unsigned(a), 8), BigEndian(Unsigned(b), 8))
  {
    var bytes := OrBytes(BigEndian(Unsigned(a), 8), BigEndian(Unsigned(b), 8));
    Pow256Facts();
    FromBigEndianRoundTrip(bytes);
    SignedUnsigned(0, FromBigEndian(bytes));
    Signed(FromBigEndian(bytes))
  }

  /** `(long)b << 56`: the byte moved into the top eight bits, the other
      bits cleared. */
  function ShiftLeft56(b: byte): (r: int64)
    ensures BigEndian(Unsigned(r), 8) == [b, 0, 0, 0, 0, 0, 0, 0]
  {
    var bits := b * TWO_TO_56;
    Pow256Facts();
    BigEndianPrefix(b, 0, 7);
    assert BigEndian(0, 7) == [0, 0, 0, 0, 0, 0, 0];
    SignedUnsigned(0, bits);
    Signed(bits)
  }
}
