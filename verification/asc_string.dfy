/**
 * The AssemblyScript string object of API version 0.0.5 (`AscString`): a
 * sequence of UTF-16 code units written little-endian (the byte order of
 * section 3.1 of RFC 2781), padded so that the content together with the
 * 20-byte object header fills a block whose size is a power of two. Code
 * units are carried verbatim: lone surrogates are neither rejected nor
 * repaired.
 */
module AscStrings {
  import opened Ints
  import opened Errors
  import opened SemVer

  /** Bytes of the guest object header that precedes the content in guest memory; it is not emitted here. */
  const HeaderSize: nat := 20

  const ReadPastEndMessage: string := "Attempted to read past end of string content bytes chunk"

  /**
   * `byteLength` is, despite its name, the number of code units; the field is
   * private in the source, so every value is built by `New`, which makes it Valid.
   */
  datatype AscString = AscString(byteLength: u32, content: seq<u16>) {
    predicate Valid() {
      byteLength == |content| && 2 * |content| <= U32Max
    }
  }

  // ---------------------------------------------------------------------------
  // Construction

  /** Rejects content whose size in bytes does not fit a `u32`; otherwise stores it verbatim. */
  function New(content: seq<u16>): (r: Result<AscString>)
    ensures r.Err? <==> 2 * |content| > U32Max
    ensures r.Err? ==> r.error == SizeNotFit
    ensures r.Ok? ==> r.value.Valid() && r.value.content == content
  {
    if 2 * |content| > U32Max then Err(SizeNotFit)
    else Ok(AscString(|content|, content))
  }

  /** The largest accepted content is 2^31 - 1 code units; one unit more is refused. */
  lemma NewSizeBoundary(fits: seq<u16>, tooBig: seq<u16>)
    requires |fits| == 0x7FFF_FFFF && |tooBig| == 0x8000_0000
    ensures New(fits).Ok? && New(fits).value.byteLength == 0x7FFF_FFFF
    ensures New(tooBig) == Err(SizeNotFit)
  {
  }

  // ---------------------------------------------------------------------------
  // Powers of two (`usize::next_power_of_two`)

  predicate IsPowerOfTwo(p: nat) {
    p == 1 || (p > 1 && p % 2 == 0 && IsPowerOfTwo(p / 2))
  }

  /** The smallest power of two that is at least `n` (1 for 0). */
  function NextPowerOfTwo(n: nat): (p: nat)
    ensures IsPowerOfTwo(p) && n <= p
    ensures p == 1 || p / 2 < n
  {
    Doubling(n, 1)
  }

  function Doubling(n: nat, p: nat): (q: nat)
    requires IsPowerOfTwo(p) && (p == 1 || p / 2 < n)
    ensures IsPowerOfTwo(q) && n <= q
    ensures q == 1 || q / 2 < n
    decreases n - p
  {
    if n <= p then p else Doubling(n, 2 * p)
  }

  /** A smaller power of two is at most half of a larger one. */
  lemma {:induction false} SmallerPowerOfTwo(q: nat, p: nat)
    requires IsPowerOfTwo(q) && IsPowerOfTwo(p) && q < p
    ensures q <= p / 2
  {
    if q > 1 {
      SmallerPowerOfTwo(q / 2, p / 2);
    }
  }

  /** `NextPowerOfTwo(n)` is the least power of two at or above `n`. */
  lemma NextPowerOfTwoIsLeast(n: nat, q: nat)
    requires IsPowerOfTwo(q) && n <= q
    ensures NextPowerOfTwo(n) <= q
  {
    var p := NextPowerOfTwo(n);
    if q < p {
      SmallerPowerOfTwo(q, p);
    }
  }

  // ---------------------------------------------------------------------------
  // Encoding

  function LowByte(unit: u16): u8 {
    unit % 256
  }

  function HighByte(unit: u16): u8 {
    unit / 256
  }

  /** The code units, each as its low byte followed by its high byte. */
  function EncodeUnits(units: seq<u16>): (b: seq<u8>)
    ensures |b| == 2 * |units|
  {
    if units == [] then [] else [LowByte(units[0]), HighByte(units[0])] + EncodeUnits(units[1..])
  }

  lemma {:induction false} EncodeUnitsAt(units: seq<u16>, i: nat)
    requires i < |units|
    ensures EncodeUnits(units)[2 * i] == LowByte(units[i])
    ensures EncodeUnits(units)[2 * i + 1] == HighByte(units[i])
  {
    if i > 0 {
      EncodeUnitsAt(units[1..], i - 1);
    }
  }

  /** Any byte sequence laid out unit by unit as low, high is the encoding of those units. */
  lemma EncodeUnitsFromLayout(units: seq<u16>, b: seq<u8>)
    requires |b| == 2 * |units|
    requires forall k :: 0 <= k < |units| ==> b[2 * k] == LowByte(units[k]) && b[2 * k + 1] == HighByte(units[k])
    ensures b == EncodeUnits(units)
  {
    forall j | 0 <= j < |b|
      ensures b[j] == EncodeUnits(units)[j]
    {
      var k := j / 2;
      EncodeUnitsAt(units, k);
      assert j == 2 * k || j == 2 * k + 1;
    }
  }

  function Zeros(n: nat): (z: seq<u8>)
    ensures |z| == n && forall i :: 0 <= i < n ==> z[i] == 0
  {
    seq(n, _ => 0)
  }

  /** Zero bytes appended so that the content plus the header reach the next power of two. */
  function ExtraCapacity(byteLength: u32): (extra: nat)
    ensures IsPowerOfTwo(2 * byteLength + HeaderSize + extra)
    ensures extra % 2 == 0
    ensures extra < 2 * byteLength + HeaderSize
  {
    var totalSize := byteLength * 2 + HeaderSize;
    NextPowerOfTwo(totalSize) - totalSize
  }

  /** What `to_asc_bytes` produces: the encoded content, then the zero padding. */
  function AscBytes(s: AscString): seq<u8> {
    EncodeUnits(s.content) + Zeros(ExtraCapacity(s.byteLength))
  }

  /** Writes each code unit little-endian, then the zero padding; never fails. */
  method ToAscBytes(s: AscString) returns (r: Result<seq<u8>>)
    ensures r == Ok(AscBytes(s))
  {
    var bytes: seq<u8> := [];
    for i := 0 to |s.content|
      invariant |bytes| == 2 * i
      invariant forall k :: 0 <= k < i ==>
        bytes[2 * k] == LowByte(s.content[k]) && bytes[2 * k + 1] == HighByte(s.content[k])
    {
      var codeUnit := s.content[i];
      var lowByte: u8 := codeUnit % 256;
      var highByte: u8 := codeUnit / 256;
      bytes := bytes + [lowByte];
      bytes := bytes + [highByte];
    }
    EncodeUnitsFromLayout(s.content, bytes);
    var totalSize := s.byteLength * 2 + HeaderSize;
    var totalCapacity := NextPowerOfTwo(totalSize);
    var extraCapacity := totalCapacity - totalSize;
    bytes := bytes + Zeros(extraCapacity);
    r := Ok(bytes);
  }

  /** Unit `i` sits at bytes `2i` (low) and `2i + 1` (high). */
  lemma AscBytesLayout(s: AscString, i: nat)
    requires i < |s.content|
    ensures AscBytes(s)[2 * i] == s.content[i] % 256
    ensures AscBytes(s)[2 * i + 1] == s.content[i] / 256
  {
    EncodeUnitsAt(s.content, i);
  }

  /** Every byte after the content is zero. */
  lemma AscBytesPaddingIsZero(s: AscString, i: nat)
    requires 2 * |s.content| <= i < |AscBytes(s)|
    ensures AscBytes(s)[i] == 0
  {
  }

  /**
   * The output is `next_power_of_two(2n + 20) - 20` bytes for `n` code units:
   * adding the header gives a power of two, and the length depends on `n` only.
   */
  lemma AscBytesLength(s: AscString)
    requires s.Valid()
    ensures |AscBytes(s)| == NextPowerOfTwo(2 * |s.content| + HeaderSize) - HeaderSize
    ensures IsPowerOfTwo(|AscBytes(s)| + HeaderSize)
    ensures |AscBytes(s)| >= 2 * |s.content|
    ensures (|AscBytes(s)| - 2 * |s.content|) % 2 == 0
  {
  }

  /** Two strings with the same number of code units encode to the same length. */
  lemma AscBytesLengthOnlyOnCount(s: AscString, t: AscString)
    requires s.Valid() && t.Valid() && |s.content| == |t.content|
    ensures |AscBytes(s)| == |AscBytes(t)|
  {
    AscBytesLength(s);
    AscBytesLength(t);
  }

  /** The empty string encodes to 12 zero bytes (32 - 20); ten units to 44 bytes (64 - 20). */
  lemma AscBytesPaddingExamples(empty: AscString, ten: AscString)
    requires empty.Valid() && |empty.content| == 0
    requires ten.Valid() && |ten.content| == 10
    ensures AscBytes(empty) == Zeros(12)
    ensures |AscBytes(ten)| == 44
  {
    assert Doubling(20, 16) == 32;
    assert Doubling(40, 32) == 64;
  }

  // ---------------------------------------------------------------------------
  // Decoding

  function Unit(low: u8, high: u8): u16 {
    low + 256 * high
  }

  /** Reads an even-length byte sequence as little-endian code units. */
  function DecodeUnits(b: seq<u8>): (units: seq<u16>)
    requires |b| % 2 == 0
    ensures |units| == |b| / 2
  {
    if b == [] then [] else [Unit(b[0], b[1])] + DecodeUnits(b[2..])
  }

  lemma {:induction false} DecodeUnitsAt(b: seq<u8>, i: nat)
    requires |b| % 2 == 0 && i < |b| / 2
    ensures DecodeUnits(b)[i] == Unit(b[2 * i], b[2 * i + 1])
  {
    if i > 0 {
      DecodeUnitsAt(b[2..], i - 1);
    }
  }

  /** What `from_asc_bytes` returns: an error for a trailing unpaired byte, else the units passed through `New`. */
  function Decode(ascObj: seq<u8>): (r: Result<AscString>)
    ensures r.Ok? <==> |ascObj| % 2 == 0 && |ascObj| <= U32Max
    ensures r.Err? && r.error.Plain? <==> |ascObj| % 2 == 1
    ensures r.Err? && |ascObj| % 2 == 0 ==> r.error == SizeNotFit
    ensures r.Ok? ==> r.value.Valid() && |r.value.content| == |ascObj| / 2
    ensures r.Ok? ==> forall i :: 0 <= i < |ascObj| / 2 ==>
      r.value.content[i] == ascObj[2 * i] as int + 256 * ascObj[2 * i + 1] as int
  {
    if |ascObj| % 2 == 1 then
      Err(Plain(ReadPastEndMessage))
    else
      var units := DecodeUnits(ascObj);
      assert forall i :: 0 <= i < |ascObj| / 2 ==> units[i] == Unit(ascObj[2 * i], ascObj[2 * i + 1]) by {
        forall i | 0 <= i < |ascObj| / 2 {
          DecodeUnitsAt(ascObj, i);
        }
      }
      New(units)
  }

  /**
   * Reads the bytes two at a time; a final unpaired byte is an error, checked
   * before it would be read. The API version is not consulted.
   */
  method FromAscBytes(ascObj: seq<u8>, apiVersion: Version) returns (r: Result<AscString>)
    ensures r == Decode(ascObj)
  {
    var content: seq<u16> := [];
    var i := 0;
    while i < |ascObj|
      invariant i % 2 == 0 && i <= |ascObj|
      invariant |content| == i / 2
      invariant forall k :: 0 <= k < |content| ==> content[k] == Unit(ascObj[2 * k], ascObj[2 * k + 1])
    {
      if i + 1 >= |ascObj| {
        assert |ascObj| % 2 == 1;
        return Err(Plain(ReadPastEndMessage));
      }
      var codePoint := Unit(ascObj[i], ascObj[i + 1]);
      content := content + [codePoint];
      i := i + 2;
    }
    forall k | 0 <= k < |content|
      ensures content[k] == DecodeUnits(ascObj)[k]
    {
      DecodeUnitsAt(ascObj, k);
    }
    assert content == DecodeUnits(ascObj);
    r := New(content);
  }

  /** `content_len`: the size of the content in bytes, padding excluded; the bytes given are ignored. */
  function ContentLen(s: AscString, ascBytes: seq<u8>): (n: nat)
    ensures s.Valid() ==> n == |EncodeUnits(s.content)|
  {
    s.byteLength * 2
  }

  /** The first `content_len` bytes of the encoding are exactly the encoded content; the rest is padding. */
  lemma ContentLenExcludesPadding(s: AscString, ascBytes: seq<u8>)
    requires s.Valid()
    ensures ContentLen(s, ascBytes) <= |AscBytes(s)|
    ensures AscBytes(s)[..ContentLen(s, ascBytes)] == EncodeUnits(s.content)
    ensures forall i :: ContentLen(s, ascBytes) <= i < |AscBytes(s)| ==> AscBytes(s)[i] == 0
  {
  }

  // ---------------------------------------------------------------------------
  // Round trips

  lemma {:induction false} DecodeEncodeUnits(units: seq<u16>)
    ensures DecodeUnits(EncodeUnits(units)) == units
  {
    if units != [] {
      var b := EncodeUnits(units);
      assert b[2..] == EncodeUnits(units[1..]);
      DecodeEncodeUnits(units[1..]);
    }
  }

  lemma {:induction false} EncodeDecodeUnits(b: seq<u8>)
    requires |b| % 2 == 0
    ensures EncodeUnits(DecodeUnits(b)) == b
  {
    if b != [] {
      var units := DecodeUnits(b);
      assert units[1..] == DecodeUnits(b[2..]);
      EncodeDecodeUnits(b[2..]);
      assert b == [b[0], b[1]] + b[2..];
    }
  }

  /** Decoding the first `content_len` bytes of the encoding gives back the string `New` built. */
  lemma RoundTrip(c: seq<u16>)
    requires 2 * |c| <= U32Max
    ensures New(c).Ok?
    ensures var s := New(c).value;
      Decode(AscBytes(s)[..ContentLen(s, AscBytes(s))]) == Ok(s)
  {
    var s := New(c).value;
    DecodeEncodeUnits(c);
  }

  /**
   * Decoding the whole padded encoding gives the content followed by zero
   * units: padding is never stripped. It succeeds exactly when the padded
   * length still fits a `u32`.
   */
  lemma DecodeWholeEncoding(s: AscString)
    requires s.Valid()
    ensures var pad := ExtraCapacity(s.byteLength);
      pad % 2 == 0 &&
      Decode(AscBytes(s)) == New(s.content + seq(pad / 2, _ => 0))
    ensures Decode(AscBytes(s)).Ok? <==> |AscBytes(s)| <= U32Max
  {
    AscBytesLength(s);
    var b := AscBytes(s);
    var n := |s.content|;
    var padded: seq<u16> := s.content + seq(ExtraCapacity(s.byteLength) / 2, _ => 0);
    forall k | 0 <= k < |b| / 2
      ensures DecodeUnits(b)[k] == padded[k]
    {
      DecodeUnitsAt(b, k);
      if k < n {
        EncodeUnitsAt(s.content, k);
      }
    }
    assert DecodeUnits(b) == padded;
  }
}
