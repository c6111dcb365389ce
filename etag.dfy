/** The Etag value of Raven.Abstractions/Data/Etag.cs: a 128-bit version
    stamp made of two signed 64-bit counters, with its ordering, equality,
    16-byte encoding and derivations. A null Etag reference is `None`; a call
    that throws returns `Failure` with the exception. */
module Etags {

  import opened Wrappers
  import opened Numerics

  /** Why an `ArgumentException` (or its subclass
      `ArgumentOutOfRangeException`) was thrown. */
  datatype ArgumentReason =
    | EmptyOrNull            // Parse(string) given a null or empty string
    | NotThirtySixCharacters // Parse(string) given a string of another length
    | ArrayTooShort          // BitConverter.ToInt64 given fewer than 8 bytes

  datatype Exception =
    | ArgumentException(reason: ArgumentReason)
    | FormatException    // byte.Parse on a slice that is not a hex byte
    | OverflowException  // Math.Abs(long.MinValue)

  /** `restarts` is the epoch counter (its top byte conventionally a
      category tag), `changes` the change counter within the epoch. */
  datatype Etag = Etag(restarts: int64, changes: int64)

  /** `Etag.Empty`, also what `new Etag()` holds. */
  const Empty := Etag(0, 0)

  /** `Etag.InvalidEtag`. */
  const InvalidEtag := Etag(-1, -1)

  // ---------------------------------------------------------------------
  // Ordering and equality
  // ---------------------------------------------------------------------

  /** `CompareTo(other)`: the sign of the wrapped difference of `restarts`,
      or of `changes` when that is zero; against a null `other` it answers
      -1. `Math.Abs` of the first difference throws when it wraps to
      `long.MinValue`. */
  function CompareTo(e: Etag, other: Option<Etag>): (r: Result<int, Exception>)
    ensures other.None? ==> r == Success(-1)
    ensures r.Failure? <==> other.Some? && Wrap(e.restarts - other.value.restarts) == MinValue
    ensures r.Failure? ==> r.error == OverflowException
    ensures r.Success? ==> -1 <= r.value <= 1
    ensures r == Success(0) <==> other == Some(e)
  {
    if other.None? then Success(-1)
    else
      var sub := Wrap(e.restarts - other.value.restarts);
      WrapDifferenceZero(e.restarts, other.value.restarts);
      match MathAbs(sub)
      case None => Failure(OverflowException)
      case Some(magnitude) =>
        if magnitude > 0 then Success(if sub > 0 then 1 else -1)
        else
          var sub' := Wrap(e.changes - other.value.changes);
          WrapDifferenceZero(e.changes, other.value.changes);
          if sub' != 0 then Success(if sub' > 0 then 1 else -1) else Success(0)
  }

  /** `Equals(other)`: false for null, otherwise whether `CompareTo` says
      zero (so it throws whenever `CompareTo` does). */
  function Equals(e: Etag, other: Option<Etag>): (r: Result<bool, Exception>)
    ensures other.None? ==> r == Success(false)
    ensures r.Failure? <==> other.Some? && Wrap(e.restarts - other.value.restarts) == MinValue
    ensures r.Success? ==> (r.value <==> other == Some(e))
  {
    if other.None? then Success(false)
    else
      match CompareTo(e, other)
      case Failure(x) => Failure(x)
      case Success(c) => Success(c == 0)
  }

  /** `operator ==`: two nulls are equal, a null left operand is unequal to
      anything else, otherwise `a.Equals(b)`. */
  function OpEquality(a: Option<Etag>, b: Option<Etag>): (r: Result<bool, Exception>)
    ensures a.None? && b.None? ==> r == Success(true)
    ensures a.None? && b.Some? ==> r == Success(false)
    ensures r.Failure? <==> a.Some? && b.Some? && Wrap(a.value.restarts - b.value.restarts) == MinValue
    ensures r.Success? ==> (r.value <==> a == b)
  {
    if a.None? && b.None? then Success(true)
    else if a.None? then Success(false)
    else Equals(a.value, b)
  }

  /** `operator !=`: the negation of `==`, throwing when it throws. */
  function OpInequality(a: Option<Etag>, b: Option<Etag>): (r: Result<bool, Exception>)
    ensures r.Failure? <==> OpEquality(a, b).Failure?
    ensures r.Success? ==> r.value == !OpEquality(a, b).value
    ensures r.Success? ==> (r.value <==> a != b)
  {
    match OpEquality(a, b)
    case Failure(x) => Failure(x)
    case Success(eq) => Success(!eq)
  }

  /** The lexicographic order of the two fields: `restarts` first, then
      `changes`, both as signed 64-bit numbers. */
  predicate Before(a: Etag, b: Etag)
  {
    a.restarts < b.restarts || (a.restarts == b.restarts && a.changes < b.changes)
  }

  /** The comparison free of overflow: the sign of the lexicographic order
      of the two fields. */
  function Compare(a: Etag, b: Etag): (r: int)
    ensures r < 0 <==> Before(a, b)
    ensures r > 0 <==> Before(b, a)
    ensures r == 0 <==> a == b
    ensures -1 <= r <= 1
  {
    if a.restarts != b.restarts then (if a.restarts < b.restarts then -1 else 1)
    else if a.changes != b.changes then (if a.changes < b.changes then -1 else 1)
    else 0
  }

  /** `Compare` is a total order: antisymmetric, transitive and total. */
  lemma CompareIsTotalOrder(a: Etag, b: Etag, c: Etag)
    ensures Compare(a, b) == -Compare(b, a)
    ensures Compare(a, b) <= 0 && Compare(b, c) <= 0 ==> Compare(a, c) <= 0
    ensures Compare(a, b) <= 0 || Compare(b, a) <= 0
  {
  }

  /** The equality evidently intended for `Equals`: false for
      null, otherwise `Compare` says zero; it never throws. */
  function EqualsByFields(e: Etag, other: Option<Etag>): (r: bool)
    ensures r <==> other == Some(e)
  {
    other.Some? && Compare(e, other.value) == 0
  }

  /** Where `Equals` does not throw it agrees with `EqualsByFields`. */
  lemma EqualsAgreesWhenDefined(e: Etag, other: Option<Etag>)
    ensures Equals(e, other).Success? ==> Equals(e, other).value == EqualsByFields(e, other)
  {
  }

  /** When neither subtraction overflows (and the first is not
      `long.MinValue`), `CompareTo` is the lexicographic order. */
  lemma CompareToWithoutOverflow(a: Etag, b: Etag)
    requires MinValue < a.restarts - b.restarts <= MaxValue
    requires MinValue <= a.changes - b.changes <= MaxValue
    ensures CompareTo(a, Some(b)) == Success(Compare(a, b))
  {
  }

  /** Swapping the operands of `CompareTo` keeps whether it throws, and
      negates its answer unless `restarts` are equal and the `changes`
      difference wraps to `long.MinValue` (whose negation is itself). */
  lemma CompareToAntisymmetric(a: Etag, b: Etag)
    ensures CompareTo(a, Some(b)).Failure? <==> CompareTo(b, Some(a)).Failure?
    ensures CompareTo(a, Some(b)).Success? &&
            !(a.restarts == b.restarts && Wrap(a.changes - b.changes) == MinValue) ==>
              CompareTo(b, Some(a)).value == -CompareTo(a, Some(b)).value
  {
    var dr, dc := a.restarts - b.restarts, a.changes - b.changes;
    assert b.restarts - a.restarts == -dr && b.changes - a.changes == -dc;
    WrapNegate(dr);
    WrapNegate(dc);
  }

  /** `==` does not depend on the order of its operands, including when it
      throws. */
  lemma OpEqualitySymmetric(a: Option<Etag>, b: Option<Etag>)
    ensures OpEquality(a, b) == OpEquality(b, a)
  {
    if a.Some? && b.Some? {
      WrapNegate(a.value.restarts - b.value.restarts);
    }
  }

  /** As written, `CompareTo` can order two Etags against their fields: the
      wrapped difference of `restarts` has the wrong sign. */
  lemma CompareToWrongSign()
    ensures var a, b := Etag(MaxValue, 0), Etag(-2, 0);
            CompareTo(a, Some(b)) == Success(-1) && Compare(a, b) == 1
  {
  }

  /** As written, `CompareTo` can call each of two Etags less than the
      other: their `changes` differ by 2^63. */
  lemma CompareToBothBelow()
    ensures var a := Etag(0, MinValue);
            CompareTo(a, Some(Empty)) == Success(-1) && CompareTo(Empty, Some(a)) == Success(-1)
  {
  }

  /** As written, `CompareTo` is not transitive: three Etags each "less"
      than the next, in a cycle. */
  lemma CompareToCycle()
    ensures var x, y, z := Etag(0, 0), Etag(3 * 0x2000_0000_0000_0000, 0), Etag(-3 * 0x2000_0000_0000_0000, 0);
            CompareTo(x, Some(y)) == Success(-1) &&
            CompareTo(y, Some(z)) == Success(-1) &&
            CompareTo(z, Some(x)) == Success(-1)
  {
  }

  /** As written, comparing or equating two Etags whose `restarts` differ
      by 2^63 throws `OverflowException`, where the fields plainly differ. */
  lemma EqualsOverflows()
    ensures var a := Etag(MinValue, 0);
            CompareTo(a, Some(Empty)) == Failure(OverflowException) &&
            Equals(a, Some(Empty)) == Failure(OverflowException) &&
            OpEquality(Some(a), Some(Empty)) == Failure(OverflowException) &&
            !EqualsByFields(a, Some(Empty))
  {
  }

  /** `InvalidEtag` is below `Empty`, under both comparisons. */
  lemma InvalidEtagBelowEmpty()
    ensures CompareTo(InvalidEtag, Some(Empty)) == Success(-1)
    ensures Compare(InvalidEtag, Empty) == -1
  {
  }

  // ---------------------------------------------------------------------
  // Byte codec
  // ---------------------------------------------------------------------

  /** The 16 bytes `ToBytes` yields: `restarts` big-endian, then `changes`
      big-endian. */
  function Bytes(e: Etag): (r: seq<byte>)
    ensures |r| == 16
  {
    BigEndian(Unsigned(e.restarts), 8) + BigEndian(Unsigned(e.changes), 8)
  }

  /** `Empty` is sixteen zero bytes. */
  lemma EmptyBytes()
    ensures Bytes(Empty) == seq(16, _ => 0)
  {
    BigEndianExtremes(8);
  }

  /** `InvalidEtag`, both fields -1, is sixteen 0xFF bytes, the largest byte
      string though the smallest Etag below `Empty` in field order. */
  lemma InvalidEtagBytes()
    ensures Bytes(InvalidEtag) == seq(16, _ => 255)
  {
    Pow256Facts();
    BigEndianExtremes(8);
  }

  /** `ToBytes()`: each field's host-order bytes from `BitConverter`,
      enumerated in reverse. */
  method ToBytes(e: Etag) returns (bytes: seq<byte>)
    ensures bytes == Bytes(e)
  {
    bytes := [];
    var source := Reverse(GetBytes(e.restarts));
    for i := 0 to 8
      invariant bytes == Bytes(e)[..i]
    {
      bytes := bytes + [source[i]];
    }
    source := Reverse(GetBytes(e.changes));
    for i := 0 to 8
      invariant bytes == Bytes(e)[..8 + i]
    {
      bytes := bytes + [source[i]];
    }
  }

  /** `ToByteArray()`: the bytes of `ToBytes` in a fresh array. */
  method ToByteArray(e: Etag) returns (a: array<byte>)
    ensures fresh(a)
    ensures a[..] == Bytes(e)
  {
    var bytes := ToBytes(e);
    a := new byte[16](i requires 0 <= i < 16 => bytes[i]);
  }

  /** `Parse(byte[])`: `restarts` from the first eight bytes and `changes`
      from the bytes after them, each reversed and handed to
      `BitConverter.ToInt64`, which only reads the first eight. Fewer than 16
      bytes make one of the two conversions throw. */
  function ParseBytes(bytes: seq<byte>): (r: Result<Etag, Exception>)
    ensures r.Failure? <==> |bytes| < 16
    ensures r.Failure? ==> r.error == ArgumentException(ArrayTooShort)
    ensures r.Success? ==> Bytes(r.value) == bytes[..8] + bytes[|bytes| - 8..]
  {
    if |bytes| < 16 then Failure(ArgumentException(ArrayTooShort))
    else
      var first := Reverse(bytes[..8]);
      var rest := Reverse(bytes[8..]);
      var restarts := ToInt64(first, 0);
      var changes := ToInt64(rest, 0);
      DecodeReversed(first, bytes[..8]);
      DecodeReversed(rest, bytes[|bytes| - 8..]);
      Success(Etag(restarts, changes))
  }

  /** `ToInt64` of a reversed run of bytes recovers the big-endian value
      of the eight bytes at the run's end. */
  lemma DecodeReversed(rev: seq<byte>, be: seq<byte>)
    requires |rev| >= 8 && |be| == 8
    requires forall k :: 0 <= k < 8 ==> rev[k] == be[7 - k]
    ensures BigEndian(Unsigned(ToInt64(rev, 0)), 8) == be
  {
    FromLittleEndianReversed(rev[0..8], be);
    FromBigEndianRoundTrip(be);
  }

  /** Byte round trip from an Etag: parsing its bytes gives it back. */
  lemma BytesRoundTrip(e: Etag)
    ensures ParseBytes(Bytes(e)) == Success(e)
  {
    var r := ParseBytes(Bytes(e));
    var u, v := BigEndian(Unsigned(e.restarts), 8), BigEndian(Unsigned(e.changes), 8);
    assert Bytes(e)[..8] == u && Bytes(e)[8..] == v;
    Pow256Facts();
    BigEndianRoundTrip(Unsigned(r.value.restarts), 8);
    BigEndianRoundTrip(Unsigned(e.restarts), 8);
    BigEndianRoundTrip(Unsigned(r.value.changes), 8);
    BigEndianRoundTrip(Unsigned(e.changes), 8);
    SignedUnsigned(r.value.restarts, 0);
    SignedUnsigned(e.restarts, 0);
    SignedUnsigned(r.value.changes, 0);
    SignedUnsigned(e.changes, 0);
  }

  /** Byte round trip from 16 bytes: the Etag they parse to has them as its
      bytes. */
  lemma ParseBytesRoundTrip(bytes: seq<byte>)
    requires |bytes| == 16
    ensures ParseBytes(bytes).Success?
    ensures Bytes(ParseBytes(bytes).value) == bytes
  {
    assert bytes[..8] + bytes[8..] == bytes;
  }

  // ---------------------------------------------------------------------
  // Derivations
  // ---------------------------------------------------------------------

  /** `((long)type << 56) | n`: the category byte OR'ed into the top byte
      of `n`; the other seven bytes are those of `n`. */
  function Tagged(category: byte, n: int64): (r: int64)
    ensures var nb := BigEndian(Unsigned(n), 8);
            BigEndian(Unsigned(r), 8) == [OrByte(category, nb[0])] + nb[1..]
  {
    Or64(ShiftLeft56(category), n)
  }

  /** The bytes of a tagged `n` below 2^56: the category, then the seven
      bytes of `n`. */
  lemma TaggedSmallBytes(category: byte, n: int64)
    requires 0 <= n < TWO_TO_56
    ensures BigEndian(Unsigned(Tagged(category, n)), 8) == [category] + BigEndian(n, 7)
  {
    var nb := BigEndian(Unsigned(n), 8);
    ZeroTopByte(n);
    assert nb[0] == 0 && nb[1..] == BigEndian(n, 7);
  }

  /** With `n` below 2^56 the category byte is the whole top byte and `n`
      the low 56 bits. */
  lemma TaggedSmall(category: byte, n: int64)
    requires 0 <= n < TWO_TO_56
    ensures Unsigned(Tagged(category, n)) == category * TWO_TO_56 + n
    ensures BigEndian(Unsigned(Tagged(category, n)), 8) == [category] + BigEndian(n, 7)
  {
    TaggedSmallBytes(category, n);
    TopByte(category, n);
    BigEndian8Injective(Unsigned(Tagged(category, n)), category * TWO_TO_56 + n);
  }

  /** `new Etag(type, restarts, changes)`. */
  function Create(category: byte, restarts: int64, changes: int64): (r: Etag)
    ensures r.changes == changes
    ensures var plain := Bytes(Etag(restarts, changes));
            Bytes(r) == [OrByte(category, plain[0])] + plain[1..]
  {
    Etag(Tagged(category, restarts), changes)
  }

  /** `Setup(type, restartsNum)`: a new Etag with the tagged `restarts`
      and this Etag's `changes`, exactly as the three-argument constructor
      builds it. */
  function Setup(e: Etag, category: byte, restartsNum: int64): (r: Etag)
    ensures r.changes == e.changes
    ensures r == Create(category, restartsNum, e.changes)
  {
    Etag(Tagged(category, restartsNum), e.changes)
  }

  /** `IncrementBy(amount)`: `changes + amount` in unchecked 64-bit
      arithmetic; `restarts` is kept. */
  function IncrementBy(e: Etag, amount: int32): (r: Etag)
    ensures r.restarts == e.restarts
    ensures (r.changes - (e.changes + amount)) % TWO_TO_64 == 0
    ensures MinValue <= e.changes + amount <= MaxValue ==> r.changes == e.changes + amount
  {
    Etag(e.restarts, Wrap(e.changes + amount))
  }

  /** `CompareTo` always ranks an incremented Etag by the sign of the
      amount, even when `changes` wrapped around, since the wrapped
      difference recovers the amount. */
  lemma IncrementByCompareTo(e: Etag, amount: int32)
    ensures CompareTo(IncrementBy(e, amount), Some(e)) ==
              Success(if amount > 0 then 1 else if amount < 0 then -1 else 0)
  {
    var r := IncrementBy(e, amount);
    WrapUnique(r.changes - e.changes, amount);
    WrapDifferenceZero(r.restarts, e.restarts);
  }

  /** Under the field order, a positive increment moves an Etag up exactly
      when `changes` does not overflow. */
  lemma IncrementByCompare(e: Etag, amount: int32)
    requires amount > 0
    ensures Compare(IncrementBy(e, amount), e) == 1 <==> e.changes + amount <= MaxValue
  {
    var r := IncrementBy(e, amount);
    if e.changes + amount > MaxValue {
      assert r.changes == e.changes + amount - TWO_TO_64 by {
        WrapUnique(e.changes + amount, e.changes + amount - TWO_TO_64);
      }
    }
  }

  /** Two increments are one increment by the sum, modulo 2^64. */
  lemma IncrementByTwice(e: Etag, a: int32, b: int32)
    ensures IncrementBy(IncrementBy(e, a), b).changes == Wrap(e.changes + a + b)
  {
    var once := IncrementBy(e, a);
    var twice := IncrementBy(once, b);
    CongruentSum(once.changes - (e.changes + a), twice.changes - (once.changes + b));
    WrapUnique(e.changes + a + b, twice.changes);
  }

  /** `HashWith(IEnumerable<byte>)`: the Etag whose bytes are the digest of
      this Etag's bytes followed by `bytes`. Etag.cs uses MD5; here the
      digest is any function that yields 16 bytes for this message, as MD5
      always does. */
  function HashWithBytes(e: Etag, bytes: seq<byte>, digest: seq<byte> -> seq<byte>): (r: Etag)
    requires |digest(Bytes(e) + bytes)| == 16
    ensures Bytes(r) == digest(Bytes(e) + bytes)
  {
    ParseBytesRoundTrip(digest(Bytes(e) + bytes));
    ParseBytes(digest(Bytes(e) + bytes)).value
  }

  /** `HashWith(Etag)`: hashing with another Etag's bytes. */
  function HashWith(e: Etag, other: Etag, digest: seq<byte> -> seq<byte>): (r: Etag)
    requires |digest(Bytes(e) + Bytes(other))| == 16
    ensures Bytes(r) == digest(Bytes(e) + Bytes(other))
  {
    HashWithBytes(e, Bytes(other), digest)
  }
}
