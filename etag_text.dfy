/** The 36-character text form of an Etag: `ToString`, `Parse(string)`,
    `TryParse`, the implicit string conversions and the `Etag(string)`
    constructor of Raven.Abstractions/Data/Etag.cs. A null string is `None`. */
module EtagText {

  import opened Wrappers
  import opened Numerics
  import opened Hex
  import opened Etags

  predicate IsHyphenPosition(p: int)
  {
    p == 8 || p == 13 || p == 18 || p == 23
  }

  /** Where the two digits of byte `k` start in the text: twice its index
      plus the hyphens before it. */
  function SlotStart(k: nat): (p: nat)
    requires k < 16
    ensures p + 2 <= 36 && !IsHyphenPosition(p) && !IsHyphenPosition(p + 1)
  {
    2 * k + (if k < 4 then 0 else if k < 6 then 1 else if k < 8 then 2 else if k < 10 then 3 else 4)
  }

  /** The byte whose digits stand at a position that is not a hyphen. */
  function SlotAt(p: nat): (k: nat)
    requires p < 36 && !IsHyphenPosition(p)
    ensures k < 16 && SlotStart(k) <= p < SlotStart(k) + 2
  {
    var hyphens := if p < 8 then 0 else if p < 13 then 1 else if p < 18 then 2 else if p < 23 then 3 else 4;
    (p - hyphens) / 2
  }

  /** The canonical text: 36 characters, hyphens at 8, 13, 18 and 23,
      uppercase hex digits everywhere else. */
  predicate Canonical(s: string)
  {
    |s| == 36 &&
    forall p :: 0 <= p < |s| ==> if IsHyphenPosition(p) then s[p] == '-' else IsUpperHexDigit(s[p])
  }

  /** 32 digits grouped 8-4-4-4-12 with a hyphen between groups, as in
      section 3 of RFC 4122. */
  function Hyphenate(d: string): (s: string)
    requires |d| == 32
    ensures |s| == 36
  {
    d[..8] + "-" + d[8..12] + "-" + d[12..16] + "-" + d[16..20] + "-" + d[20..]
  }

  /** The digits of pair `k` stand at byte `k`'s slot. */
  lemma HyphenateAt(d: string, k: nat)
    requires |d| == 32 && k < 16
    ensures Hyphenate(d)[SlotStart(k)..SlotStart(k) + 2] == d[2 * k..2 * k + 2]
  {
    var s, p := Hyphenate(d), SlotStart(k);
    assert s[p] == d[2 * k] && s[p + 1] == d[2 * k + 1];
  }

  /** Hyphenating five groups of the right lengths puts a hyphen between
      each two. */
  lemma HyphenateGroups(h0: string, h1: string, h2: string, h3: string, h4: string)
    requires |h0| == 8 && |h1| == 4 && |h2| == 4 && |h3| == 4 && |h4| == 12
    ensures Hyphenate(h0 + h1 + h2 + h3 + h4) == h0 + "-" + h1 + "-" + h2 + "-" + h3 + "-" + h4
  {
    var d := h0 + h1 + h2 + h3 + h4;
    assert d[..8] == h0 && d[8..12] == h1 && d[12..16] == h2 && d[16..20] == h3 && d[20..] == h4;
  }

  /** The hyphens `Hyphenate` puts in. */
  lemma HyphenateHyphens(d: string)
    requires |d| == 32
    ensures var s := Hyphenate(d); s[8] == '-' && s[13] == '-' && s[18] == '-' && s[23] == '-'
  {
  }

  /** Sixteen bytes in the text layout: their "X2" digits in order, with no
      byte reordering, hyphenated. */
  function Layout(b: seq<byte>): (s: string)
    requires |b| == 16
    ensures |s| == 36
  {
    Hyphenate(HexOf(b))
  }

  /** The two characters at byte `k`'s slot are the "X2" of that byte. */
  lemma LayoutAt(b: seq<byte>, k: nat)
    requires |b| == 16 && k < 16
    ensures Layout(b)[SlotStart(k)..SlotStart(k) + 2] == X2(b[k])
  {
    HyphenateAt(HexOf(b), k);
    HexOfPair(b, k);
  }

  /** The hyphens of the layout. */
  lemma LayoutHyphens(b: seq<byte>)
    requires |b| == 16
    ensures Layout(b)[8] == '-' && Layout(b)[13] == '-' && Layout(b)[18] == '-' && Layout(b)[23] == '-'
  {
    HyphenateHyphens(HexOf(b));
  }

  /** The layout of any 16 bytes is canonical text. */
  lemma LayoutIsCanonical(b: seq<byte>)
    requires |b| == 16
    ensures Canonical(Layout(b))
  {
    var s := Layout(b);
    LayoutHyphens(b);
    forall p | 0 <= p < 36 && !IsHyphenPosition(p)
      ensures IsUpperHexDigit(s[p])
    {
      var k := SlotAt(p);
      LayoutAt(b, k);
      assert s[p] == s[SlotStart(k)..SlotStart(k) + 2][p - SlotStart(k)];
    }
  }

  /** The text `ToString` writes for an Etag: the layout of its bytes. */
  function Format(e: Etag): (s: string)
    ensures Canonical(s)
  {
    LayoutIsCanonical(Bytes(e));
    Layout(Bytes(e))
  }

  /** The text with the characters at 8, 13, 18 and 23 taken out. */
  function Digits(s: string): (d: string)
    requires |s| == 36
    ensures |d| == 32
  {
    s[..8] + s[9..13] + s[14..18] + s[19..23] + s[24..]
  }

  /** Taking the hyphens out again gives the digits back. */
  lemma DigitsHyphenate(d: string)
    requires |d| == 32
    ensures Digits(Hyphenate(d)) == d
  {
    var s := Hyphenate(d);
    assert s[..8] == d[..8] && s[9..13] == d[8..12] && s[14..18] == d[12..16];
    assert s[19..23] == d[16..20] && s[24..] == d[20..];
    assert d == d[..8] + d[8..12] + d[12..16] + d[16..20] + d[20..];
  }

  /** Without its hyphens the text is the "X2" digits of the 16 bytes, in
      order. */
  lemma FormatDigits(e: Etag)
    ensures Digits(Format(e)) == HexOf(Bytes(e))
  {
    DigitsHyphenate(HexOf(Bytes(e)));
  }

  /** `StringBuilder.Insert(index, value)`. */
  function Insert(s: string, index: nat, value: string): (r: string)
    requires index <= |s|
    ensures |r| == |s| + |value|
    ensures r[..index] == s[..index]
    ensures r[index..index + |value|] == value
    ensures r[index + |value|..] == s[index..]
  {
    s[..index] + value + s[index..]
  }

  lemma InsertBetween(x: string, y: string, value: string)
    ensures Insert(x + y, |x|, value) == x + value + y
  {
    assert (x + y)[..|x|] == x && (x + y)[|x|..] == y;
  }

  /** Inserting a hyphen at 8, 13, 18 and 23, in that order, into 32 digits
      hyphenates them. */
  lemma InsertHyphens(d: string)
    requires |d| == 32
    ensures Insert(Insert(Insert(Insert(d, 8, "-"), 13, "-"), 18, "-"), 23, "-") == Hyphenate(d)
  {
    var h0, h1, h2, h3, h4 := d[..8], d[8..12], d[12..16], d[16..20], d[20..];
    assert d == h0 + (h1 + h2 + h3 + h4);
    InsertBetween(h0, h1 + h2 + h3 + h4, "-");
    var s1 := Insert(d, 8, "-");
    assert s1 == (h0 + "-" + h1) + (h2 + h3 + h4);
    InsertBetween(h0 + "-" + h1, h2 + h3 + h4, "-");
    var s2 := Insert(s1, 13, "-");
    assert s2 == (h0 + "-" + h1 + "-" + h2) + (h3 + h4);
    InsertBetween(h0 + "-" + h1 + "-" + h2, h3 + h4, "-");
    var s3 := Insert(s2, 18, "-");
    assert s3 == (h0 + "-" + h1 + "-" + h2 + "-" + h3) + h4;
    InsertBetween(h0 + "-" + h1 + "-" + h2 + "-" + h3, h4, "-");
  }

  /** `ToString()`: the "X2" digits of every byte `ToBytes` yields appended
      to a `StringBuilder`, then a hyphen inserted at 8, 13, 18 and 23. */
  method ToString(e: Etag) returns (s: string)
    ensures s == Format(e)
  {
    var sb: string := [];
    var bytes := ToBytes(e);
    for i := 0 to |bytes|
      invariant sb == HexOf(bytes[..i])
    {
      assert bytes[..i + 1][..i] == bytes[..i];
      sb := sb + X2(bytes[i]);
    }
    assert bytes[..|bytes|] == bytes;
    InsertHyphens(sb);
    sb := Insert(sb, 8, "-");
    sb := Insert(sb, 13, "-");
    sb := Insert(sb, 18, "-");
    sb := Insert(sb, 23, "-");
    s := sb;
  }

  /** `byte.Parse` of the two characters at byte `k`'s slot. */
  function SlotByte(s: string, k: nat): Option<byte>
    requires |s| == 36 && k < 16
  {
    ParseHexByte(s[SlotStart(k)..SlotStart(k) + 2])
  }

  predicate AllSlotsParse(s: string)
    requires |s| == 36
  {
    forall k :: 0 <= k < 16 ==> SlotByte(s, k).Some?
  }

  /** The 16 bytes the slots of a well-formed text spell. */
  function SlotBytes(s: string): (b: seq<byte>)
    requires |s| == 36 && AllSlotsParse(s)
    ensures |b| == 16
    ensures forall k :: 0 <= k < 16 ==> SlotByte(s, k) == Some(b[k])
  {
    seq(16, k requires 0 <= k < 16 => SlotByte(s, k).value)
  }

  /** What `Parse(string)` returns or throws: `ArgumentException` for a null
      or empty string and for a length other than 36, `FormatException` when
      a slot is not a hex byte, and otherwise the Etag whose bytes the slots
      spell, read as `Parse(byte[])` reads them. */
  function ParseText(str: Option<string>): (r: Result<Etag, Exception>)
    ensures r == Failure(ArgumentException(EmptyOrNull)) <==> str.None? || str.value == []
    ensures r == Failure(ArgumentException(NotThirtySixCharacters)) <==>
              str.Some? && str.value != [] && |str.value| != 36
    ensures r == Failure(FormatException) <==>
              str.Some? && |str.value| == 36 && !AllSlotsParse(str.value)
    ensures r.Success? <==> str.Some? && |str.value| == 36 && AllSlotsParse(str.value)
    ensures r.Success? ==> Bytes(r.value) == SlotBytes(str.value)
  {
    if str.None? || str.value == [] then Failure(ArgumentException(EmptyOrNull))
    else if |str.value| != 36 then Failure(ArgumentException(NotThirtySixCharacters))
    else if !AllSlotsParse(str.value) then Failure(FormatException)
    else
      var bytes := SlotBytes(str.value);
      ParseBytesRoundTrip(bytes);
      Success(ParseBytes(bytes).value)
  }

  /** The start of each slice `Parse(string)` reads, in the order it fills
      its buffer. */
  const BufferSlices: seq<nat> := [16, 14, 11, 9, 6, 4, 2, 0, 34, 32, 30, 28, 26, 24, 21, 19]

  /** The byte slot that buffer entry `i` reads: each eight-byte half is
      read back to front. */
  function Mirror(i: nat): (k: nat)
    requires i < 16
    ensures k < 16 && (k < 8 <==> i < 8)
  {
    if i < 8 then 7 - i else 23 - i
  }

  /** Buffer entry `i` reads the slot of byte `Mirror(i)`. */
  lemma BufferSlicesMirrorSlots(i: nat)
    requires i < 16
    ensures |BufferSlices| == 16 && BufferSlices[i] == SlotStart(Mirror(i))
  {
    if i < 8 {
      assert i in {0, 1, 2, 3, 4, 5, 6, 7};
    } else {
      assert i in {8, 9, 10, 11, 12, 13, 14, 15};
    }
  }

  /** Etags with the same bytes are the same. */
  lemma BytesInjective(a: Etag, b: Etag)
    requires Bytes(a) == Bytes(b)
    ensures a == b
  {
    BytesRoundTrip(a);
    BytesRoundTrip(b);
  }

  /** A buffer holding each half of 16 bytes back to front decodes, through
      little-endian `ToInt64`, to the Etag with those bytes. */
  lemma MirroredDecodes(buffer: seq<byte>, bytes: seq<byte>)
    requires |buffer| == 16 && |bytes| == 16
    requires forall k :: 0 <= k < 16 ==> buffer[k] == bytes[Mirror(k)]
    ensures Bytes(Etag(ToInt64(buffer, 0), ToInt64(buffer, 8))) == bytes
  {
    assert buffer[0..8] == buffer[..8];
    assert buffer[8..16] == buffer[8..];
    FromLittleEndianReversed(buffer[..8], bytes[..8]);
    FromLittleEndianReversed(buffer[8..], bytes[8..]);
    FromBigEndianRoundTrip(bytes[..8]);
    FromBigEndianRoundTrip(bytes[8..]);
    assert bytes == bytes[..8] + bytes[8..];
  }

  /** A buffer whose every entry parsed from its slot: then every slot
      parses, and the buffer holds each half of the slot bytes back to
      front. */
  lemma BufferComplete(s: string, buffer: seq<byte>)
    requires |s| == 36 && |buffer| == 16
    requires forall j :: 0 <= j < 16 ==> SlotByte(s, Mirror(j)) == Some(buffer[j])
    ensures AllSlotsParse(s)
    ensures forall k :: 0 <= k < 16 ==> buffer[k] == SlotBytes(s)[Mirror(k)]
  {
    forall k | 0 <= k < 16
      ensures SlotByte(s, k).Some?
    {
      assert SlotByte(s, Mirror(Mirror(k))) == Some(buffer[Mirror(k)]);
    }
    var bytes := SlotBytes(s);
    forall k | 0 <= k < 16
      ensures buffer[k] == bytes[Mirror(k)]
    {
      assert SlotByte(s, Mirror(k)) == Some(buffer[k]);
    }
  }

  /** `Parse(string)`: the argument checks, then a 16-byte buffer filled
      from the slices in `BufferSlices` with `byte.Parse`, then
      `BitConverter.ToInt64` of its two halves. */
  method Parse(str: Option<string>) returns (r: Result<Etag, Exception>)
    ensures r == ParseText(str)
  {
    if str.None? || |str.value| == 0 {
      return Failure(ArgumentException(EmptyOrNull));
    }
    var s := str.value;
    if |s| != 36 {
      return Failure(ArgumentException(NotThirtySixCharacters));
    }
    var buffer := new byte[16];
    for i := 0 to 16
      invariant forall j :: 0 <= j < i ==> SlotByte(s, Mirror(j)) == Some(buffer[j])
    {
      BufferSlicesMirrorSlots(i);
      var parsed := ParseHexByte(s[BufferSlices[i]..BufferSlices[i] + 2]);
      if parsed.None? {
        assert SlotByte(s, Mirror(i)).None?;
        return Failure(FormatException);
      }
      buffer[i] := parsed.value;
    }
    BufferComplete(s, buffer[..]);
    MirroredDecodes(buffer[..], SlotBytes(s));
    var restarts := ToInt64(buffer[..], 0);
    var changes := ToInt64(buffer[..], 8);
    r := Success(Etag(restarts, changes));
    BytesInjective(r.value, ParseText(str).value);
  }

  /** `TryParse(str, out etag)`: true with the parsed Etag exactly when
      `Parse` returns, false with null exactly when it throws. */
  method TryParse(str: Option<string>) returns (ok: bool, etag: Option<Etag>)
    ensures ok <==> ParseText(str).Success?
    ensures ok ==> etag == Some(ParseText(str).value)
    ensures !ok ==> etag == None
  {
    var parsed := Parse(str);
    match parsed
    case Success(e) => ok, etag := true, Some(e);
    case Failure(_) => ok, etag := false, None;
  }

  /** `new Etag(str)`: calls `Parse(str)` and drops what it returns, so it
      throws what `Parse` throws and otherwise leaves the new Etag at its
      default value, `Empty`. */
  method FromString(str: Option<string>) returns (r: Result<Etag, Exception>)
    ensures r.Failure? <==> ParseText(str).Failure?
    ensures r.Failure? ==> r.error == ParseText(str).error
    ensures r.Success? ==> r.value == Empty
  {
    var parsed := Parse(str);
    if parsed.Failure? {
      return Failure(parsed.error);
    }
    r := Success(Empty);
  }

  /** `implicit operator string(Etag)`: null for null, otherwise
      `ToString()`. */
  method ImplicitToString(etag: Option<Etag>) returns (s: Option<string>)
    ensures etag.None? ==> s == None
    ensures etag.Some? ==> s == Some(Format(etag.value))
  {
    var isNull := OpEquality(etag, None);
    if isNull.value {
      return None;
    }
    var text := ToString(etag.value);
    s := Some(text);
  }

  /** `implicit operator Etag(string)`: `Parse(s)`. */
  method ImplicitFromString(s: Option<string>) returns (r: Result<Etag, Exception>)
    ensures r == ParseText(s)
  {
    r := Parse(s);
  }

  // ---------------------------------------------------------------------
  // Properties of the text codec
  // ---------------------------------------------------------------------

  /** Parsing the text of an Etag gives the Etag back. */
  lemma TextRoundTrip(e: Etag)
    ensures ParseText(Some(Format(e))) == Success(e)
  {
    var b, s := Bytes(e), Format(e);
    forall k | 0 <= k < 16
      ensures SlotByte(s, k) == Some(b[k])
    {
      LayoutAt(b, k);
      X2RoundTrip(b[k]);
    }
    assert AllSlotsParse(s);
    assert SlotBytes(s) == b;
    BytesInjective(ParseText(Some(s)).value, e);
  }

  /** Each slot of a canonical text is a byte whose "X2" is that slot. */
  lemma CanonicalSlot(s: string, k: nat)
    requires Canonical(s) && k < 16
    ensures SlotByte(s, k).Some?
    ensures X2(SlotByte(s, k).value) == s[SlotStart(k)..SlotStart(k) + 2]
  {
    var p := SlotStart(k);
    assert IsUpperHexDigit(s[p]) && IsUpperHexDigit(s[p + 1]);
    UpperPairRoundTrip(s[p..p + 2]);
  }

  /** Two texts with the same hyphen positions and the same slots are equal. */
  lemma SameSlotsSameText(s: string, t: string)
    requires |s| == 36 && |t| == 36
    requires s[8] == t[8] && s[13] == t[13] && s[18] == t[18] && s[23] == t[23]
    requires forall k :: 0 <= k < 16 ==> s[SlotStart(k)..SlotStart(k) + 2] == t[SlotStart(k)..SlotStart(k) + 2]
    ensures s == t
  {
    forall p | 0 <= p < 36
      ensures s[p] == t[p]
    {
      if !IsHyphenPosition(p) {
        var k := SlotAt(p);
        var at := SlotStart(k);
        assert s[at..at + 2] == t[at..at + 2];
        assert s[p] == s[at..at + 2][p - at] && t[p] == t[at..at + 2][p - at];
      }
    }
  }

  /** Every canonical text parses, and formatting the result writes the
      same text again. */
  lemma CanonicalRoundTrip(s: string)
    requires Canonical(s)
    ensures ParseText(Some(s)).Success?
    ensures Format(ParseText(Some(s)).value) == s
  {
    forall k | 0 <= k < 16
      ensures SlotByte(s, k).Some?
    {
      CanonicalSlot(s, k);
    }
    var b := SlotBytes(s);
    var t := Format(ParseText(Some(s)).value);
    assert t == Layout(b);
    forall k | 0 <= k < 16
      ensures t[SlotStart(k)..SlotStart(k) + 2] == s[SlotStart(k)..SlotStart(k) + 2]
    {
      LayoutAt(b, k);
      CanonicalSlot(s, k);
    }
    LayoutHyphens(b);
    SameSlotsSameText(t, s);
  }

  /** The characters at 8, 13, 18 and 23 are never examined: texts that
      differ only there parse alike. */
  lemma HyphensNotExamined(s: string, t: string)
    requires |s| == 36 && |t| == 36
    requires forall p :: 0 <= p < 36 && !IsHyphenPosition(p) ==> s[p] == t[p]
    ensures ParseText(Some(s)) == ParseText(Some(t))
  {
    forall k | 0 <= k < 16
      ensures SlotByte(s, k) == SlotByte(t, k)
    {
      var p := SlotStart(k);
      assert s[p..p + 2] == t[p..p + 2] by {
        assert s[p] == t[p] && s[p + 1] == t[p + 1];
      }
    }
    if AllSlotsParse(s) {
      assert SlotBytes(s) == SlotBytes(t);
    }
  }

  /** The bytes of `Etag(1, 2)`: each field big-endian. */
  lemma ExampleBytes()
    ensures Bytes(Etag(1, 2)) == [0, 0, 0, 0, 0, 0, 0, 1, 0, 0, 0, 0, 0, 0, 0, 2]
  {
    var zeros: seq<byte> := [0, 0, 0, 0, 0, 0, 0];
    assert BigEndian(0, 7) == zeros by {
      Pow256Facts();
      BigEndianPrefix(0, 0, 6);
      BigEndianPrefix(0, 0, 5);
      BigEndianPrefix(0, 0, 4);
      BigEndianPrefix(0, 0, 3);
      BigEndianPrefix(0, 0, 2);
      BigEndianPrefix(0, 0, 1);
      BigEndianPrefix(0, 0, 0);
    }
    assert BigEndian(1, 8) == zeros + [1];
    assert BigEndian(2, 8) == zeros + [2];
  }

  /** The digits of zero bytes are zeros. */
  lemma {:induction false} HexOfZeros(n: nat)
    ensures HexOf(seq(n, _ => 0)) == seq(2 * n, _ => '0')
  {
    if n > 0 {
      var z: seq<byte> := seq(n, _ => 0);
      assert z[..n - 1] == seq(n - 1, _ => 0);
      HexOfZeros(n - 1);
      assert X2(0) == "00";
    }
  }

  /** The digits of those bytes. */
  lemma ExampleDigits(b: seq<byte>)
    requires b == [0, 0, 0, 0, 0, 0, 0, 1, 0, 0, 0, 0, 0, 0, 0, 2]
    ensures HexOf(b) == "00000000000000010000000000000002"
  {
    var z: seq<byte> := seq(7, _ => 0);
    var zd: string := seq(14, _ => '0');
    assert b == z + [1] + z + [2];
    ExampleDigitParts(z, zd);
    assert zd + "01" + zd + "02" == "00000000000000010000000000000002";
  }

  lemma ExampleDigitParts(z: seq<byte>, zd: string)
    requires z == seq(7, _ => 0) && zd == seq(14, _ => '0')
    ensures HexOf(z + [1] + z + [2]) == zd + "01" + zd + "02"
  {
    assert HexOf([1]) == "01" && HexOf([2]) == "02" by {
      assert X2(1) == "01" && X2(2) == "02";
      assert [1][..0] == [] && [2][..0] == [];
    }
    HexOfZeros(7);
    HexOfAppend(z, [1]);
    HexOfAppend(z + [1], z);
    HexOfAppend(z + [1] + z, [2]);
  }

  /** The text of `Etag(1, 2)`: each field's bytes in plain big-endian
      order, no group reversed. */
  lemma FormatExample()
    ensures Format(Etag(1, 2)) == "00000000-0000-0001-0000-000000000002"
  {
    ExampleBytes();
    ExampleDigits(Bytes(Etag(1, 2)));
    ExampleHyphenated("00000000000000010000000000000002");
  }

  lemma ExampleHyphenated(d: string)
    requires d == "00000000000000010000000000000002"
    ensures Hyphenate(d) == "00000000-0000-0001-0000-000000000002"
  {
    ExampleGrouped(d);
    HyphenateGroups("00000000", "0000", "0001", "0000", "000000000002");
    ExampleJoined();
  }

  /** The example's digits cut into the 8-4-4-4-12 groups; a separate step,
      since string literals are costly to compare in a larger context. */
  lemma ExampleGrouped(d: string)
    requires d == "00000000000000010000000000000002"
    ensures d == "00000000" + "0000" + "0001" + "0000" + "000000000002"
  {
  }

  /** The groups joined by hyphens. */
  lemma ExampleJoined()
    ensures "00000000" + "-" + "0000" + "-" + "0001" + "-" + "0000" + "-" + "000000000002"
            == "00000000-0000-0001-0000-000000000002"
  {
  }

  /** The failures of `Parse(string)` on short, empty, null and non-hex
      input. */
  lemma ParseFailureExamples()
    ensures ParseText(None) == Failure(ArgumentException(EmptyOrNull))
    ensures ParseText(Some("")) == Failure(ArgumentException(EmptyOrNull))
    ensures ParseText(Some("short")) == Failure(ArgumentException(NotThirtySixCharacters))
    ensures ParseText(Some("GG" + seq(34, _ => '-'))) == Failure(FormatException)
  {
    var s := "GG" + seq(34, _ => '-');
    assert SlotByte(s, 0).None? by {
      assert s[0..2] == "GG";
    }
  }
}
