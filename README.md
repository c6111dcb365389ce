# Etag: a verified model of RavenDB's version stamp

RavenDB stamps every document and attachment with an `Etag`. An Etag is a
128-bit version made of two signed 64-bit counters:

- `restarts` is the epoch counter. Its top byte holds a category tag (a
  `UuidType` value) packed in with `(type << 56) | value`.
- `changes` counts changes within the epoch.

This project models the `Etag` class of `Raven.Abstractions/Data/Etag.cs`
in Dafny and proves properties of the model:

- its ordering (`CompareTo`) and equality (`Equals`, `==`, `!=`);
- its 16-byte form (`ToBytes`, `ToByteArray`, `Parse(byte[])`);
- its 36-character text form (`ToString`, `Parse(string)`, `TryParse`, the
  implicit string conversions, and the `Etag(string)` constructor);
- the derivations `Setup`, `IncrementBy` and `HashWith`, with the
  three-argument constructor and the `Empty` and `InvalidEtag` values.

Modules:

- `Wrappers`: `Option` stands for a reference that may be null; `Result`
  is a call that returns a value or throws.
- `Numerics`: 64-bit two's-complement `long` arithmetic, with wrap-around
  written out (`Wrap`). Also big- and little-endian byte layouts, and the
  parts of `BitConverter`, `Math.Abs`, `<<` and `|` that `Etag.cs` calls.
  `BitConverter` is modelled on a little-endian host.
- `Hex`: `byte.ToString("X2")` and `byte.Parse(s, NumberStyles.HexNumber)`
  on two-character strings.
- `Etags`: the `Etag` datatype and its exceptions, the comparison and
  equality operations, the byte codec, and the derivations.
- `EtagText`: the text codec. `ToString` and `Parse(string)` are methods
  with loops over a `StringBuilder`-like string and a 16-byte array. They
  are proved against the functions `Format` and `ParseText`.

The class is modelled as a value. No operation in `Etag.cs` changes an
existing Etag: the constructors assign the two fields once, and every other
operation builds a new Etag and sets its fields in an object initializer.
`new Etag()` is `Empty`.

Notes on what the code does:

- **Text form.** The text is not a GUID's mixed-endian layout, with bytes
  reversed within groups. `ToString` writes the 16 bytes of `ToBytes` in
  their own big-endian order as 32 uppercase hex digits, then inserts
  hyphens at 8, 13, 18 and 23. `Parse(string)` reads its slices back to
  front, but only because `BitConverter.ToInt64` reads little-endian, and
  that undoes the reversal. `FormatExample` pins this down: `Etag(1, 2)` is
  written `00000000-0000-0001-0000-000000000002`.
- **`Parse(byte[])` length.** It fails only below 16 bytes, not for every
  length other than 16. With more than 16, `changes` comes from the last
  eight bytes.
- **`new Etag(string)`.** It calls `Parse(str)` and discards the result.
  So it throws what `Parse` throws, and otherwise yields `Empty`
  (`FromString`).

## Model

| member | source | states |
|---|---|---|
| Numerics.Wrap | Raven.Abstractions/Data/Etag.cs:72 | unchecked `long` subtraction or addition: the result is congruent to the exact value modulo 2^64, and equals it when it fits |
| Numerics.WrapDifferenceZero | Raven.Abstractions/Data/Etag.cs:72-76 | a wrapped difference of two `long`s is zero exactly when they are equal |
| Numerics.WrapNegate | Raven.Abstractions/Data/Etag.cs:72 | swapping the operands negates a wrapped difference, except at `long.MinValue`, which is its own negation |
| Numerics.WrapUnique | Raven.Abstractions/Data/Etag.cs:206 | each residue class modulo 2^64 holds exactly one `long` |
| Numerics.MathAbs | Raven.Abstractions/Data/Etag.cs:73 | `Math.Abs` throws exactly on `long.MinValue`; otherwise it gives the non-negative magnitude |
| Numerics.SignedUnsigned | Raven.Abstractions/Data/Etag.cs:116-117 | reading a `long`'s bit pattern as unsigned and back is the identity, in both directions |
| Numerics.BigEndianRoundTrip | Raven.Abstractions/Data/Etag.cs:81-91 | decoding the `n` big-endian bytes of a number below 256^n gives the number |
| Numerics.FromBigEndianRoundTrip | Raven.Abstractions/Data/Etag.cs:112-119 | encoding the value of a byte string in as many bytes gives the string back |
| Numerics.LittleEndianIsReversed | Raven.Abstractions/Data/Etag.cs:83 | the little-endian layout is the big-endian layout read backwards |
| Numerics.FromLittleEndianReversed | Raven.Abstractions/Data/Etag.cs:116-117 | reading bytes little-endian is reading them reversed big-endian |
| Numerics.Reverse | Raven.Abstractions/Data/Etag.cs:83-87 | `Enumerable.Reverse` (also on lines 116-117): same length, entry k is entry n-1-k of the input |
| Numerics.BigEndianExtremes | Raven.Abstractions/Data/Etag.cs:169-190 | the bytes of zero are all 0x00 and those of 256^n - 1 all 0xFF |
| Numerics.BigEndianPrefix | Raven.Abstractions/Data/Etag.cs:42 | a byte placed above an `m`-byte value comes first in its `m + 1` big-endian bytes |
| Numerics.GetBytes | Raven.Abstractions/Data/Etag.cs:83 | `BitConverter.GetBytes(long)` gives eight bytes, the big-endian bytes reversed |
| Numerics.ToInt64 | Raven.Abstractions/Data/Etag.cs:164-165 | `BitConverter.ToInt64(value, i)` is the `long` whose pattern is the eight bytes from `i`, read little-endian |
| Numerics.GetBytesToInt64 | Raven.Abstractions/Data/Etag.cs:116 | `ToInt64` inverts `GetBytes` |
| Numerics.OrByte | Raven.Abstractions/Data/Etag.cs:42 | a bitwise OR of bytes; zero is its identity on either side |
| Numerics.Or64 | Raven.Abstractions/Data/Etag.cs:42 | the bytes of `a` OR `b` are the bytewise OR of the bytes of `a` and `b` |
| Numerics.ShiftLeft56 | Raven.Abstractions/Data/Etag.cs:42 | `(long)type << 56` has the type as its top byte and seven zero bytes below it |
| Hex.DigitValue | Raven.Abstractions/Data/Etag.cs:144 | hex digits of either case have values below 16; other characters have none |
| Hex.HexDigit | Raven.Abstractions/Data/Etag.cs:103 | the uppercase digit of a value below 16 reads back as that value |
| Hex.X2 | Raven.Abstractions/Data/Etag.cs:103 | `ToString("X2")` gives two uppercase digits, high nibble first, whose value is the byte |
| Hex.ParseHexByte | Raven.Abstractions/Data/Etag.cs:144-159 | `byte.Parse` with `HexNumber` on two characters: two digits give their value; one digit gives its value when white space precedes it, or white space or NUL follows it; anything else fails |
| Hex.UpperDigitRoundTrip | Raven.Abstractions/Data/Etag.cs:103 | an uppercase digit is the digit of its own value |
| Hex.X2RoundTrip | Raven.Abstractions/Data/Etag.cs:144 | parsing what `X2` wrote gives the byte back |
| Hex.UpperPairRoundTrip | Raven.Abstractions/Data/Etag.cs:144 | two uppercase digits parse to the byte whose `X2` is those digits |
| Hex.LowercaseAccepted | Raven.Abstractions/Data/Etag.cs:144 | lowercase digits parse to the same byte |
| Hex.HexOf | Raven.Abstractions/Data/Etag.cs:101-104 | the appended `X2` digits of a byte string are twice as long as the string |
| Hex.HexOfPair | Raven.Abstractions/Data/Etag.cs:101-104 | digit pair `k` of the appended digits is the `X2` of byte `k` |
| Hex.HexOfAppend | Raven.Abstractions/Data/Etag.cs:101-104 | the digits of a concatenation are the concatenated digits |
| Etags.CompareTo | Raven.Abstractions/Data/Etag.cs:68-79 | against null the answer is -1 (this Etag first); the call throws `OverflowException` exactly when the wrapped `restarts` difference is `long.MinValue`; the result is -1, 0 or 1, and 0 exactly for an equal Etag |
| Etags.Equals | Raven.Abstractions/Data/Etag.cs:60-66 | false for null; throws exactly when `CompareTo` throws; otherwise true exactly for an equal Etag |
| Etags.OpEquality | Raven.Abstractions/Data/Etag.cs:46-53 | two nulls are equal; a null left operand is unequal to a non-null one; throws exactly when `Equals` throws; otherwise true exactly for equal operands |
| Etags.OpInequality | Raven.Abstractions/Data/Etag.cs:55-58 | throws exactly when `==` throws; otherwise it is the negation of `==`, true exactly for different operands |
| Etags.Compare | Raven.Abstractions/Data/Etag.cs:68-79 | the intended order, free of overflow: negative, zero or positive exactly when the first Etag is before, equal to or after the second, by `restarts` and then `changes` |
| Etags.CompareIsTotalOrder | Raven.Abstractions/Data/Etag.cs:68-79 | `Compare` is antisymmetric, transitive and total |
| Etags.EqualsByFields | Raven.Abstractions/Data/Etag.cs:65 | the intended equality (the commented-out field comparison): true exactly for an equal non-null Etag; it never throws |
| Etags.EqualsAgreesWhenDefined | Raven.Abstractions/Data/Etag.cs:60-66 | wherever `Equals` does not throw, it agrees with `EqualsByFields` |
| Etags.CompareToWithoutOverflow | Raven.Abstractions/Data/Etag.cs:68-79 | when neither subtraction overflows and the `restarts` difference is not `long.MinValue` (which does not overflow, yet makes `Math.Abs` throw), `CompareTo` is `Compare` |
| Etags.CompareToAntisymmetric | Raven.Abstractions/Data/Etag.cs:68-79 | swapping the operands keeps whether `CompareTo` throws, and negates its answer unless `restarts` are equal and the `changes` difference wraps to `long.MinValue` |
| Etags.OpEqualitySymmetric | Raven.Abstractions/Data/Etag.cs:46-53 | `a == b` and `b == a` agree, including when they throw |
| Etags.CompareToWrongSign | Raven.Abstractions/Data/Etag.cs:72-74 | `Etag(long.MaxValue, 0)` compares below `Etag(-2, 0)`, against the field order |
| Etags.CompareToBothBelow | Raven.Abstractions/Data/Etag.cs:75-77 | `Etag(0, long.MinValue)` and `Empty` each compare below the other |
| Etags.CompareToCycle | Raven.Abstractions/Data/Etag.cs:72-74 | three Etags each compare below the next, in a cycle |
| Etags.EqualsOverflows | Raven.Abstractions/Data/Etag.cs:73 | `CompareTo`, `Equals` and `==` throw on `Etag(long.MinValue, 0)` against `Empty`, two Etags that plainly differ |
| Etags.Etag | Raven.Abstractions/Data/Etag.cs:16-19 | an Etag is the value of its two signed 64-bit fields, `restarts` and `changes`, each within `long` range (`int64`) |
| Etags.EmptyBytes | Raven.Abstractions/Data/Etag.cs:180-190 | `Empty`, both fields 0, is sixteen 0x00 bytes |
| Etags.InvalidEtagBytes | Raven.Abstractions/Data/Etag.cs:169-179 | `InvalidEtag`, both fields -1, is sixteen 0xFF bytes |
| Etags.InvalidEtagBelowEmpty | Raven.Abstractions/Data/Etag.cs:169-190 | `InvalidEtag` is below `Empty` under both comparisons |
| Etags.Bytes | Raven.Abstractions/Data/Etag.cs:81-91 | the byte form is 16 bytes long |
| Etags.ToBytes | Raven.Abstractions/Data/Etag.cs:81-91 | enumerating each field's reversed `GetBytes` yields `restarts` big-endian, then `changes` big-endian |
| Etags.ToByteArray | Raven.Abstractions/Data/Etag.cs:93-96 | a fresh array holding those 16 bytes |
| Etags.ParseBytes | Raven.Abstractions/Data/Etag.cs:112-119 | throws `ArgumentException` exactly below 16 bytes; otherwise gives the Etag whose bytes are the first eight and the last eight |
| Etags.DecodeReversed | Raven.Abstractions/Data/Etag.cs:116-117 | `ToInt64` of a reversed run of bytes is the big-endian value of the run |
| Etags.BytesRoundTrip | Raven.Abstractions/Data/Etag.cs:112-119 | `Parse(ToByteArray(e))` is `e` |
| Etags.ParseBytesRoundTrip | Raven.Abstractions/Data/Etag.cs:112-119 | 16 bytes parse, and the Etag they give has exactly those bytes |
| Etags.Tagged | Raven.Abstractions/Data/Etag.cs:42 | `(long)type << 56` OR `n` puts the type into the top byte of `n` and keeps its other seven bytes |
| Etags.TaggedSmallBytes | Raven.Abstractions/Data/Etag.cs:42 | for `n` below 2^56, the bytes are the type followed by the seven bytes of `n` |
| Etags.TaggedSmall | Raven.Abstractions/Data/Etag.cs:42 | for `n` below 2^56, the tagged value is `type * 2^56 + n` as an unsigned pattern |
| Etags.Create | Raven.Abstractions/Data/Etag.cs:40-44 | the three-argument constructor keeps `changes` and ORs the type into the top byte of `restarts` |
| Etags.Setup | Raven.Abstractions/Data/Etag.cs:192-199 | keeps this Etag's `changes` and builds the rest as the three-argument constructor does |
| Etags.IncrementBy | Raven.Abstractions/Data/Etag.cs:201-208 | keeps `restarts`; the new `changes` is `changes + amount` modulo 2^64, and exactly that when it fits |
| Etags.IncrementByCompareTo | Raven.Abstractions/Data/Etag.cs:201-208 | `CompareTo` ranks the incremented Etag by the sign of the amount, even across wrap-around |
| Etags.IncrementByCompare | Raven.Abstractions/Data/Etag.cs:201-208 | under the field order, a positive increment moves an Etag up exactly when `changes` does not overflow |
| Etags.IncrementByTwice | Raven.Abstractions/Data/Etag.cs:201-208 | two increments are one increment by the sum, modulo 2^64 |
| Etags.HashWithBytes | Raven.Abstractions/Data/Etag.cs:228-239 | the Etag whose 16 bytes are the digest of this Etag's bytes followed by the given bytes |
| Etags.HashWith | Raven.Abstractions/Data/Etag.cs:223-226 | the Etag whose bytes are the digest of both Etags' bytes, in order |
| EtagText.SlotStart | Raven.Abstractions/Data/Etag.cs:144-159 | the two digits of each byte stand inside the text, off the hyphen positions |
| EtagText.SlotAt | Raven.Abstractions/Data/Etag.cs:144-159 | every non-hyphen position lies in exactly the slot of one byte |
| EtagText.HyphenateAt | Raven.Abstractions/Data/Etag.cs:105-108 | after hyphenation, digit pair `k` stands at byte `k`'s slot |
| EtagText.HyphenateGroups | Raven.Abstractions/Data/Etag.cs:105-108 | hyphenating puts one hyphen between each two of the 8-4-4-4-12 groups |
| EtagText.HyphenateHyphens | Raven.Abstractions/Data/Etag.cs:105-108 | hyphenation puts hyphens at 8, 13, 18 and 23 |
| EtagText.LayoutAt | Raven.Abstractions/Data/Etag.cs:98-110 | the two characters at byte `k`'s slot are the `X2` of byte `k` |
| EtagText.LayoutHyphens | Raven.Abstractions/Data/Etag.cs:105-108 | the text of any 16 bytes has hyphens at 8, 13, 18 and 23 |
| EtagText.LayoutIsCanonical | Raven.Abstractions/Data/Etag.cs:98-110 | the text of any 16 bytes is canonical: 36 characters, hyphens at 8, 13, 18 and 23, uppercase hex digits elsewhere |
| EtagText.Format | Raven.Abstractions/Data/Etag.cs:98-110 | the text of every Etag is canonical |
| EtagText.DigitsHyphenate | Raven.Abstractions/Data/Etag.cs:105-108 | removing the hyphens gives the 32 digits back |
| EtagText.FormatDigits | Raven.Abstractions/Data/Etag.cs:98-110 | without its hyphens, the text is the `X2` digits of the 16 bytes in order, with no byte reordering |
| EtagText.Insert | Raven.Abstractions/Data/Etag.cs:105 | `StringBuilder.Insert` keeps the prefix, puts the value at the index, and shifts the rest right |
| EtagText.InsertBetween | Raven.Abstractions/Data/Etag.cs:105 | inserting at the boundary of two strings puts the value between them |
| EtagText.InsertHyphens | Raven.Abstractions/Data/Etag.cs:105-108 | the four chained inserts turn 32 digits into the hyphenated text |
| EtagText.ToString | Raven.Abstractions/Data/Etag.cs:98-110 | the append loop and the four inserts produce `Format(e)` |
| EtagText.SlotBytes | Raven.Abstractions/Data/Etag.cs:142-160 | when every slot parses, these are the 16 bytes the slots spell |
| EtagText.ParseText | Raven.Abstractions/Data/Etag.cs:135-167 | throws `ArgumentException` exactly for null or empty text and for any length but 36, and `FormatException` exactly when a slot is not a hex byte; succeeds exactly when the text is 36 long and every slot parses, with the Etag whose bytes the slots spell |
| EtagText.Mirror | Raven.Abstractions/Data/Etag.cs:142-160 | buffer entry `i` reads a byte of the same eight-byte half |
| EtagText.BufferSlicesMirrorSlots | Raven.Abstractions/Data/Etag.cs:144-159 | the substring offsets are the slots of the bytes of each half, back to front |
| EtagText.BytesInjective | Raven.Abstractions/Data/Etag.cs:81-91 | Etags with the same bytes are equal |
| EtagText.BufferComplete | Raven.Abstractions/Data/Etag.cs:142-160 | a filled buffer means every slot parses, and the buffer holds each half of the slot bytes back to front |
| EtagText.MirroredDecodes | Raven.Abstractions/Data/Etag.cs:162-166 | little-endian `ToInt64` of the two halves of that buffer gives the Etag with those bytes |
| EtagText.Parse | Raven.Abstractions/Data/Etag.cs:135-167 | the argument checks, the buffer filled by sixteen `byte.Parse` calls, and the two `ToInt64` calls give `ParseText(str)` |
| EtagText.TryParse | Raven.Abstractions/Data/Etag.cs:121-133 | true with the parsed Etag exactly when `Parse` returns; false with null exactly when it throws |
| EtagText.FromString | Raven.Abstractions/Data/Etag.cs:35-38 | `new Etag(str)` throws exactly what `Parse(str)` throws, and otherwise yields `Empty` |
| EtagText.ImplicitToString | Raven.Abstractions/Data/Etag.cs:210-215 | null for null, otherwise the text of the Etag |
| EtagText.ImplicitFromString | Raven.Abstractions/Data/Etag.cs:217-220 | the conversion from a string is `Parse` |
| EtagText.TextRoundTrip | Raven.Abstractions/Data/Etag.cs:98-167 | `Parse(e.ToString())` is `e` |
| EtagText.CanonicalSlot | Raven.Abstractions/Data/Etag.cs:144-159 | each slot of canonical text parses to the byte whose `X2` is that slot |
| EtagText.SameSlotsSameText | Raven.Abstractions/Data/Etag.cs:98-110 | two texts that agree at the hyphen positions and in every slot are equal |
| EtagText.CanonicalRoundTrip | Raven.Abstractions/Data/Etag.cs:98-167 | every canonical text parses, and `ToString` of the result writes the same text |
| EtagText.HyphensNotExamined | Raven.Abstractions/Data/Etag.cs:142-160 | the characters at 8, 13, 18 and 23 are never read: texts that differ only there parse alike |
| EtagText.ExampleBytes | Raven.Abstractions/Data/Etag.cs:81-91 | the bytes of `Etag(1, 2)` are each field big-endian |
| EtagText.FormatExample | Raven.Abstractions/Data/Etag.cs:98-110 | `Etag(1, 2)` is written `00000000-0000-0001-0000-000000000002` |
| EtagText.ParseFailureExamples | Raven.Abstractions/Data/Etag.cs:137-159 | null, empty, short and non-hex text throw the exception the code names |

## Left out

- `EtagJsonConverter` (JSON reading and writing of an Etag through its text form) is outside the Etag value. The commented-out string-based `Etag` class at the end of `Etag.cs` is not code.
- The `Restarts` and `Changes` properties are the datatype's fields.
- MD5 is not modelled. `HashWith` takes the digest as a function parameter. The Silverlight `MD5Core` branch is the same call with another digest.
- Etags.HashWithBytes: requires that the digest yields 16 bytes for the message, which MD5 always does.
- A null `bytes` argument to `Parse(byte[])` or `HashWith(IEnumerable<byte>)`, and a null `other` in `HashWith(Etag)`, throw null-reference exceptions. Those arguments are modelled as non-null.
- `BitConverter` on a big-endian host is not modelled. The model fixes the little-endian layout that `BitConverter.IsLittleEndian` reports on the platforms the code targets.
- Exception messages are not modelled, only the exception kind. The `ArgumentOutOfRangeException` that `BitConverter.ToInt64` throws on an empty array is folded into `ArgumentException`, its base class.
- `UuidType` is not part of this model. Its values are taken as bytes, the enum's underlying type; a value with the top bit set makes `restarts` negative, as the shift does.
- Hex.ParseHexByte: models `byte.Parse` only on the two-character slices `Parse(string)` passes. Signs, hex prefixes and longer inputs never reach it.
- EtagText.ParseText: text is a sequence of Unicode scalar values, while C#'s `Length` and `Substring` count UTF-16 code units. A text holding characters outside the Basic Multilingual Plane can therefore get `ArgumentException` in the model where the code throws `FormatException`, or the reverse, and a lone surrogate cannot be written at all. `Parse`, `TryParse` and `ImplicitFromString` share this.
- Reference identity is not modelled. Since no operation changes an existing `Etag`, value semantics lose nothing beyond `ReferenceEquals`, which the model reads as a null test.

## Findings

| source | as written | input that shows it | evidently intended | confidence | as-written member | corrected member |
|---|---|---|---|---|---|---|
| Raven.Abstractions/Data/Etag.cs:72-74 | `CompareTo` takes the sign of the wrapped 64-bit difference of `restarts` | `Etag(long.MaxValue, 0).CompareTo(Etag(-2, 0))` is -1 | the sign of the field order, `restarts` first | high; not executed | Etags.CompareToWrongSign | Etags.Compare |
| Raven.Abstractions/Data/Etag.cs:72-74 | the wrapped difference makes `CompareTo` non-transitive | `(0,0)` < `(3·2^61,0)` < `(-3·2^61,0)` < `(0,0)` | a total order | high; not executed | Etags.CompareToCycle | Etags.CompareIsTotalOrder |
| Raven.Abstractions/Data/Etag.cs:75-77 | the wrapped difference of `changes` has no negation at 2^63 | `Etag(0, long.MinValue)` and `Empty` each compare below the other | an antisymmetric comparison | high; not executed | Etags.CompareToBothBelow | Etags.Compare |
| Raven.Abstractions/Data/Etag.cs:73 | `Math.Abs` of a difference of `long.MinValue` throws `OverflowException` in `CompareTo`, and so in `Equals`, `==` and `!=` | `Etag(long.MinValue, 0) == Etag.Empty` throws | false, as the commented-out field comparison on line 65 gives | high; not executed | Etags.EqualsOverflows | Etags.EqualsByFields |
