/** RapidJSON's byte streams with an encoding: writing units as bytes, byte order marks, and the
    input stream that detects its encoding. */
module UtfStreams {
  import opened Utf

  datatype UTFType = kUTF8 | kUTF16LE | kUTF16BE | kUTF32LE | kUTF32BE

  function Width(t: UTFType): nat {
    match t
    case kUTF8 => 1
    case kUTF16LE => 2
    case kUTF16BE => 2
    case kUTF32LE => 4
    case kUTF32BE => 4
  }

  function Low(c: unit): byte { (c & 0xFF) as bv8 }

  /** Put: the bytes of one code unit. */
  function PutBytes(t: UTFType, c: unit): (s: seq<byte>)
    ensures |s| == Width(t)
  {
    match t
    case kUTF8 => [Low(c)]
    case kUTF16LE => [Low(c), Low(c >> 8)]
    case kUTF16BE => [Low(c >> 8), Low(c)]
    case kUTF32LE => [Low(c), Low(c >> 8), Low(c >> 16), Low(c >> 24)]
    case kUTF32BE => [Low(c >> 24), Low(c >> 16), Low(c >> 8), Low(c)]
  }

  /** Bytes put together, least significant first. */
  function Word2(b0: byte, b1: byte): unit { b0 as bv32 | ((b1 as bv32) << 8) }

  function Word4(b0: byte, b1: byte, b2: byte, b3: byte): unit {
    b0 as bv32 | ((b1 as bv32) << 8) | ((b2 as bv32) << 16) | ((b3 as bv32) << 24)
  }

  /** Take: the code unit of the next bytes. */
  function UnitOf(t: UTFType, b0: byte, b1: byte, b2: byte, b3: byte): unit {
    match t
    case kUTF8 => b0 as bv32
    case kUTF16LE => Word2(b0, b1)
    case kUTF16BE => Word2(b1, b0)
    case kUTF32LE => Word4(b0, b1, b2, b3)
    case kUTF32BE => Word4(b3, b2, b1, b0)
  }

  /** The units that fit into the encoding's code unit. */
  predicate Fits(t: UTFType, c: unit) {
    match t
    case kUTF8 => c <= 0xFF
    case kUTF16LE => c <= 0xFFFF
    case kUTF16BE => c <= 0xFFFF
    case kUTF32LE => true
    case kUTF32BE => true
  }

  function ByteAt(s: seq<byte>, i: nat): byte { if i < |s| then s[i] else 0 }

  function TakeUnit(t: UTFType, src: seq<byte>, pos: nat): unit {
    UnitOf(t, ByteAt(src, pos), ByteAt(src, pos + 1), ByteAt(src, pos + 2), ByteAt(src, pos + 3))
  }

  lemma OneByte(c: unit)
    requires c <= 0xFF
    ensures Low(c) as bv32 == c
  {
  }

  lemma TwoBytes(c: unit)
    requires c <= 0xFFFF
    ensures Word2(Low(c), Low(c >> 8)) == c
  {
  }

  lemma FourBytes(c: unit)
    ensures Word4(Low(c), Low(c >> 8), Low(c >> 16), Low(c >> 24)) == c
  {
  }

  /** Taking the bytes that were put gives the unit back. */
  lemma PutTake(t: UTFType, c: unit, s: seq<byte>, b1: byte, b2: byte, b3: byte)
    requires Fits(t, c) && s == PutBytes(t, c)
    ensures UnitOf(t, s[0], if |s| > 1 then s[1] else b1, if |s| > 2 then s[2] else b2, if |s| > 3 then s[3] else b3)
      == c
  {
    hide Low, Word2, Word4;
    FourBytes(c);
    match t
    case kUTF8 => OneByte(c);
    case kUTF16LE => TwoBytes(c);
    case kUTF16BE => TwoBytes(c);
    case _ =>
  }

  // ---------- one character in any encoding ----------

  function EncodeUnits(t: UTFType, cp: unit): (s: seq<unit>)
    requires cp <= 0x10FFFF
    ensures 1 <= |s| <= 4
  {
    match t
    case kUTF8 => Utf8Encode(cp)
    case kUTF16LE => Utf16Encode(cp)
    case kUTF16BE => Utf16Encode(cp)
    case kUTF32LE => [cp]
    case kUTF32BE => [cp]
  }

  function DecodeUnits(t: UTFType, v: seq<unit>): Decoded {
    match t
    case kUTF8 => Utf8Decode(v)
    case kUTF16LE => Utf16Decode(v)
    case kUTF16BE => Utf16Decode(v)
    case kUTF32LE => Utf32Decode(v)
    case kUTF32BE => Utf32Decode(v)
  }

  lemma RoundTripUnits(t: UTFType, cp: unit, rest: seq<unit>)
    requires Scalar(cp)
    ensures var s := EncodeUnits(t, cp);
      DecodeUnits(t, s + rest) == Decoded(cp, true, |s|) && forall i :: 0 <= i < |s| ==> Fits(t, s[i])
  {
    hide Utf8Encode, Utf8Decode, Utf16Decode, Utf16Encode, Utf32Decode, WellFormed, WellFormed16, Scalar;
    ScalarBound(cp);
    match t
    case kUTF8 => Utf8RoundTrip(cp, rest);
    case kUTF16LE =>
      Utf16RoundTrip(cp, rest);
      Utf16Narrow(cp);
    case kUTF16BE =>
      Utf16RoundTrip(cp, rest);
      Utf16Narrow(cp);
    case _ => Utf32RoundTrip(cp, rest);
  }

  lemma ScalarBound(cp: unit)
    requires Scalar(cp)
    ensures cp <= 0x10FFFF
  {
  }

  lemma Utf32RoundTrip(cp: unit, rest: seq<unit>)
    requires cp <= 0x10FFFF
    ensures Utf32Decode([cp] + rest) == Decoded(cp, true, 1)
  {
  }

  lemma Utf16Narrow(cp: unit)
    requires Scalar(cp)
    ensures forall i :: 0 <= i < |Utf16Encode(cp)| ==> Utf16Encode(cp)[i] <= 0xFFFF
  {
    Utf16RoundTrip(cp, []);
    hide Utf16Encode;
  }

  predicate Scalars(s: seq<unit>) { forall i :: 0 <= i < |s| ==> Scalar(s[i]) }

  function EncodeText(t: UTFType, s: seq<unit>): seq<unit>
    requires Scalars(s)
  {
    if s == [] then [] else EncodeUnits(t, s[0]) + EncodeText(t, s[1..])
  }

  /** The code points of the next n characters. */
  function DecodeText(t: UTFType, v: seq<unit>, n: nat): seq<Decoded>
    decreases n
  {
    if n == 0 then [] else
      var d := DecodeUnits(t, v);
      [d] + DecodeText(t, Drop(v, d.used), n - 1)
  }

  function Drop(v: seq<unit>, n: nat): seq<unit> { if n <= |v| then v[n..] else [] }

  predicate AllOk(ds: seq<Decoded>, s: seq<unit>) {
    |ds| == |s| && forall i :: 0 <= i < |s| ==> ds[i].ok && ds[i].codepoint == s[i]
  }

  /** Decoding the encoding of any sequence of scalar values gives it back. */
  lemma {:induction false} TextRoundTrip(t: UTFType, s: seq<unit>)
    requires Scalars(s)
    ensures AllOk(DecodeText(t, EncodeText(t, s), |s|), s)
    decreases |s|
  {
    hide EncodeUnits, DecodeUnits;
    if s != [] {
      var e := EncodeUnits(t, s[0]);
      var rest := EncodeText(t, s[1..]);
      RoundTripUnits(t, s[0], rest);
      assert Drop(e + rest, |e|) == rest;
      TextRoundTrip(t, s[1..]);
    }
  }

  lemma {:induction false} TextFits(t: UTFType, s: seq<unit>)
    requires Scalars(s)
    ensures forall i :: 0 <= i < |EncodeText(t, s)| ==> Fits(t, EncodeText(t, s)[i])
    decreases |s|
  {
    hide EncodeUnits, Fits;
    if s != [] {
      RoundTripUnits(t, s[0], []);
      TextFits(t, s[1..]);
    }
  }

  // ---------- bytes ----------

  function PutAll(t: UTFType, us: seq<unit>): seq<byte> {
    if us == [] then [] else PutBytes(t, us[0]) + PutAll(t, us[1..])
  }

  /** The units a byte stream holds from a position on; a last incomplete one is filled with zeros. */
  function UnitsFrom(t: UTFType, src: seq<byte>, pos: nat): seq<unit>
    decreases |src| - pos
  {
    if pos >= |src| then [] else [TakeUnit(t, src, pos)] + UnitsFrom(t, src, pos + Width(t))
  }

  /** Taking units back from the bytes put for them, behind whatever comes before. */
  lemma {:induction false} TakeBack(t: UTFType, pre: seq<byte>, us: seq<unit>)
    requires forall i :: 0 <= i < |us| ==> Fits(t, us[i])
    ensures UnitsFrom(t, pre + PutAll(t, us), |pre|) == us
    decreases |us|
  {
    hide PutBytes, Fits, UnitOf, TakeUnit, ByteAt;
    if us == [] {
      assert pre + PutAll(t, us) == pre;
    } else {
      var s, rest := PutBytes(t, us[0]), PutAll(t, us[1..]);
      var src := pre + PutAll(t, us);
      assert src == (pre + s) + rest;
      TakeBack(t, pre + s, us[1..]);
      TakePut(t, us[0], pre, s, rest, src);
    }
  }

  lemma TakePut(t: UTFType, c: unit, pre: seq<byte>, s: seq<byte>, rest: seq<byte>, src: seq<byte>)
    requires Fits(t, c) && s == PutBytes(t, c) && src == (pre + s) + rest
    ensures TakeUnit(t, src, |pre|) == c
  {
    hide PutBytes, UnitOf, Fits;
    PutTake(t, c, s, ByteAt(src, |pre| + 1), ByteAt(src, |pre| + 2), ByteAt(src, |pre| + 3));
    assert forall i :: 0 <= i < |s| ==> src[|pre| + i] == s[i];
  }

  // ---------- detection ----------

  function Bom(t: UTFType): seq<byte> {
    match t
    case kUTF8 => [0xEF, 0xBB, 0xBF]
    case kUTF16LE => [0xFF, 0xFE]
    case kUTF16BE => [0xFE, 0xFF]
    case kUTF32LE => [0xFF, 0xFE, 0x00, 0x00]
    case kUTF32BE => [0x00, 0x00, 0xFE, 0xFF]
  }

  datatype Detected = Detected(t: UTFType, hasBOM: bool, skip: nat)

  function Pattern(c0: byte, c1: byte, c2: byte, c3: byte): bv8 {
    (if c0 != 0 then 1 else 0) | (if c1 != 0 then 2 else 0) | (if c2 != 0 then 4 else 0) | (if c3 != 0 then 8 else 0)
  }

  /** DetectType on a stream with at least four bytes; with fewer the caller's type stands. */
  function Detect(src: seq<byte>, t: UTFType): Detected {
    if |src| < 4 then Detected(t, false, 0) else DetectFour(src[0], src[1], src[2], src[3], t)
  }

  function DetectFour(c0: byte, c1: byte, c2: byte, c3: byte, t: UTFType): Detected {
    var d := FromBom(Word4(c0, c1, c2, c3), t);
    if d.hasBOM then d else Detected(FromPattern(Pattern(c0, c1, c2, c3), t), false, 0)
  }

  function FromBom(bom: bv32, t: UTFType): Detected {
    if bom == 0xFFFE0000 then Detected(kUTF32BE, true, 4)
    else if bom == 0x0000FEFF then Detected(kUTF32LE, true, 4)
    else if bom & 0xFFFF == 0xFFFE then Detected(kUTF16BE, true, 2)
    else if bom & 0xFFFF == 0xFEFF then Detected(kUTF16LE, true, 2)
    else if bom & 0xFFFFFF == 0xBFBBEF then Detected(kUTF8, true, 3)
    else Detected(t, false, 0)
  }

  function FromPattern(pattern: bv8, t: UTFType): UTFType {
    match pattern
    case 0x08 => kUTF32BE
    case 0x0A => kUTF16BE
    case 0x01 => kUTF32LE
    case 0x05 => kUTF16LE
    case 0x0F => kUTF8
    case _ => t
  }

  lemma Word4Is(c0: byte, c1: byte, c2: byte, c3: byte)
    ensures var bom := Word4(c0, c1, c2, c3);
      && (bom == 0xFFFE0000 <==> c0 == 0 && c1 == 0 && c2 == 0xFE && c3 == 0xFF)
      && (bom == 0x0000FEFF <==> c0 == 0xFF && c1 == 0xFE && c2 == 0 && c3 == 0)
      && (bom & 0xFFFF == 0xFFFE <==> c0 == 0xFE && c1 == 0xFF)
      && (bom & 0xFFFF == 0xFEFF <==> c0 == 0xFF && c1 == 0xFE)
      && (bom & 0xFFFFFF == 0xBFBBEF <==> c0 == 0xEF && c1 == 0xBB && c2 == 0xBF)
  {
  }

  lemma PatternIs(c0: byte, c1: byte, c2: byte, c3: byte)
    ensures var p := Pattern(c0, c1, c2, c3);
      && (p == 0x08 <==> c0 == 0 && c1 == 0 && c2 == 0 && c3 != 0)
      && (p == 0x0A <==> c0 == 0 && c1 != 0 && c2 == 0 && c3 != 0)
      && (p == 0x01 <==> c0 != 0 && c1 == 0 && c2 == 0 && c3 == 0)
      && (p == 0x05 <==> c0 != 0 && c1 == 0 && c2 != 0 && c3 == 0)
      && (p == 0x0F <==> c0 != 0 && c1 != 0 && c2 != 0 && c3 != 0)
  {
  }

  /** The bytes of a text begin with those of its first unit. */
  lemma FirstBytes(t: UTFType, s: seq<unit>)
    requires Scalars(s) && s != []
    ensures s[0] <= 0x10FFFF && Scalar(s[0]) && |EncodeText(t, s)| > 0 && EncodeText(t, s)[0] == EncodeUnits(t, s[0])[0]
    ensures PutBytes(t, EncodeUnits(t, s[0])[0]) <= PutAll(t, EncodeText(t, s))
  {
    hide EncodeUnits, PutBytes;
    var e := EncodeUnits(t, s[0]);
    assert EncodeText(t, s) == e + EncodeText(t, s[1..]);
  }

  lemma ZeroUnit(cp: unit)
    requires Scalar(cp)
    ensures var u := Utf16Encode(cp)[0]; (Low(u) == 0 && Low(u >> 8) == 0) <==> cp == 0
  {
    Utf16RoundTrip(cp, []);
    Utf16Narrow(cp);
    if cp > 0xFFFF { Pair(cp); }
    LowZero(Utf16Encode(cp)[0]);
  }

  lemma LowZero(u: unit)
    requires u <= 0xFFFF
    ensures (Low(u) == 0 && Low(u >> 8) == 0) <==> u == 0
  {
  }

  function Written(t: UTFType, s: seq<unit>, putBOM: bool): seq<byte>
    requires Scalars(s)
  {
    (if putBOM then Bom(t) else []) + PutAll(t, EncodeText(t, s))
  }

  /** With its byte order mark, a nonempty text is detected as what it is, except that UTF-16LE text
      starting with U+0000 looks like UTF-32LE. */
  lemma BomDetected(t: UTFType, s: seq<unit>, user: UTFType)
    requires Scalars(s) && s != []
    ensures Detect(Written(t, s, true), user) == Detected(t, true, |Bom(t)|) <==> !(t.kUTF16LE? && s[0] == 0)
    ensures t.kUTF16LE? && s[0] == 0 ==> Detect(Written(t, s, true), user) == Detected(kUTF32LE, true, 4)
  {
    hide EncodeText, EncodeUnits, Word4, Pattern, Low, Scalar;
    FirstBytes(t, s);
    var src := Written(t, s, true);
    var p := PutBytes(t, EncodeUnits(t, s[0])[0]);
    assert Bom(t) + p <= src;
    assert src[..|Bom(t)|] == Bom(t) && src[|Bom(t)|..|Bom(t)| + |p|] == p;
    assert forall i :: 0 <= i < |Bom(t)| ==> src[i] == Bom(t)[i];
    assert forall i :: 0 <= i < |p| ==> src[|Bom(t)| + i] == p[i];
    assert |src| >= 4;
    Word4Is(src[0], src[1], src[2], src[3]);
    if t.kUTF16LE? {
      Utf16First(s[0]);
      assert src[2] == p[0] && src[3] == p[1];
    }
  }

  lemma Utf16First(cp: unit)
    requires Scalar(cp)
    ensures var u := EncodeUnits(kUTF16LE, cp)[0]; var p := PutBytes(kUTF16LE, u); (p[0] == 0 && p[1] == 0) <==> cp == 0
  {
    hide Low, Utf16Encode;
    ZeroUnit(cp);
  }

  // ---------- without a byte order mark ----------

  predicate AsciiChar(c: unit) { 1 <= c <= 0x7F }

  /** What section 3 of RFC 4627 relies on: the text begins with two ASCII characters and contains no
      U+0000; and there are four bytes to look at. */
  predicate JsonLike(t: UTFType, s: seq<unit>)
    requires Scalars(s)
  {
    && |s| >= 2 && AsciiChar(s[0]) && AsciiChar(s[1]) && (forall i :: 0 <= i < |s| ==> s[i] != 0)
    && |PutAll(t, EncodeText(t, s))| >= 4
  }

  lemma AsciiBytes(c: unit)
    requires AsciiChar(c)
    ensures Low(c) != 0 && Low(c) < 0x80 && Low(c >> 8) == 0 && Low(c >> 16) == 0 && Low(c >> 24) == 0
    ensures Utf8Encode(c) == [c] && Utf16Encode(c) == [c]
  {
  }

  predicate NoZero(b: seq<byte>) { forall i :: 0 <= i < |b| ==> b[i] != 0 }

  /** No byte of a UTF-8 encoded text without U+0000 is zero. */
  lemma {:induction false} NoZeroByte(s: seq<unit>)
    requires Scalars(s) && forall i :: 0 <= i < |s| ==> s[i] != 0
    ensures NoZero(PutAll(kUTF8, EncodeText(kUTF8, s)))
    decreases |s|
  {
    hide Utf8Encode, Low;
    if s != [] {
      var e := EncodeUnits(kUTF8, s[0]);
      NoZeroUnits(s[0]);
      NoZeroByte(s[1..]);
      PutAllConcat(kUTF8, e, EncodeText(kUTF8, s[1..]));
      NoZeroPut(e);
    }
  }

  lemma {:induction false} PutAllConcat(t: UTFType, a: seq<unit>, b: seq<unit>)
    ensures PutAll(t, a + b) == PutAll(t, a) + PutAll(t, b)
    decreases |a|
  {
    hide PutBytes;
    if a == [] {
      assert a + b == b;
    } else {
      assert (a + b)[1..] == a[1..] + b;
      PutAllConcat(t, a[1..], b);
    }
  }

  lemma NoZeroUnits(cp: unit)
    requires Scalar(cp) && cp != 0
    ensures forall i :: 0 <= i < |Utf8Encode(cp)| ==> 1 <= Utf8Encode(cp)[i] <= 0xFF
  {
    Utf8RoundTrip(cp, []);
    if cp <= 0x7F { AsciiBytes(cp); } else { LongEncoding(cp); }
  }

  lemma LongEncoding(cp: unit)
    requires cp > 0x7F
    ensures |Utf8Encode(cp)| >= 2
  {
  }

  lemma {:induction false} NoZeroPut(e: seq<unit>)
    requires forall i :: 0 <= i < |e| ==> 1 <= e[i] <= 0xFF
    ensures NoZero(PutAll(kUTF8, e))
    decreases |e|
  {
    hide Low;
    if e != [] {
      LowNonZero(e[0]);
      NoZeroPut(e[1..]);
      assert PutAll(kUTF8, e) == [Low(e[0])] + PutAll(kUTF8, e[1..]);
    }
  }

  lemma LowNonZero(c: unit)
    requires 1 <= c <= 0xFF
    ensures Low(c) != 0
  {
  }

  /** The lead byte of a UTF-8 encoding. */
  lemma FirstByte(cp: unit)
    requires Scalar(cp)
    ensures var b := Low(Utf8Encode(cp)[0]);
      b != 0xBB && b != 0xBF && b < 0xFE && (b == 0xEF <==> 0xF000 <= cp <= 0xFFFF)
  {
    if cp <= 0x7F {
      LowAscii(cp);
    } else if cp <= 0x7FF {
      LowLead2(cp);
    } else if cp <= 0xFFFF {
      LowLead3(cp);
    } else {
      LowLead4(cp);
    }
  }

  lemma LowAscii(cp: unit)
    requires cp <= 0x7F
    ensures Low(cp & 0xFF) < 0x80
  {
  }

  lemma LowLead2(cp: unit)
    requires 0x7F < cp <= 0x7FF
    ensures var b := Low(0xC0 | ((cp >> 6) & 0xFF)); 0xC0 <= b < 0xE0
  {
  }

  lemma LowLead3(cp: unit)
    requires 0x7FF < cp <= 0xFFFF
    ensures var b := Low(0xE0 | ((cp >> 12) & 0xFF)); 0xE0 <= b < 0xF0 && (b == 0xEF <==> cp >= 0xF000)
  {
  }

  lemma LowLead4(cp: unit)
    requires 0xFFFF < cp <= 0x10FFFF
    ensures 0xF0 <= Low(0xF0 | ((cp >> 18) & 0xFF)) < 0xFE
  {
  }

  lemma ThreeByteMark(cp: unit)
    requires 0xF000 <= cp <= 0xFFFF
    ensures var e := Utf8Encode(cp);
      |e| == 3 && (Low(e[0]) == 0xEF && Low(e[1]) == 0xBB && Low(e[2]) == 0xBF <==> cp == 0xFEFF)
  {
  }

  lemma PutThree(e: seq<unit>, rest: seq<unit>)
    requires |e| == 3
    ensures var b := PutAll(kUTF8, e + rest); |b| >= 3 && b[0] == Low(e[0]) && b[1] == Low(e[1]) && b[2] == Low(e[2])
  {
    hide Low;
    PutAllConcat(kUTF8, e, rest);
    assert e == [e[0]] + ([e[1]] + ([e[2]] + []));
    assert e[1..][0] == e[1] && e[1..][1..][0] == e[2];
    var p := PutAll(kUTF8, e);
    assert p == PutBytes(kUTF8, e[0]) + (PutBytes(kUTF8, e[1]) + PutAll(kUTF8, e[1..][1..]));
  }

  /** The bytes of a UTF-8 text look like a byte order mark exactly if it starts with U+FEFF. */
  lemma Utf8Marked(s: seq<unit>, b: seq<byte>)
    requires Scalars(s) && s != [] && b == PutAll(kUTF8, EncodeText(kUTF8, s)) && |b| >= 4
    ensures b[0] < 0xFE && (b[0] == 0xEF && b[1] == 0xBB && b[2] == 0xBF <==> s[0] == 0xFEFF)
  {
    hide Utf8Encode, Low, Scalar, PutAll;
    FirstBytes(kUTF8, s);
    FirstByte(s[0]);
    assert b[0] == Low(Utf8Encode(s[0])[0]);
    if 0xF000 <= s[0] <= 0xFFFF {
      ThreeByteMark(s[0]);
      PutThree(Utf8Encode(s[0]), EncodeText(kUTF8, s[1..]));
    }
  }

  /** The pattern of zeros of section 3 of RFC 4627 that stands for an encoding. */
  predicate ZeroPattern(t: UTFType, c0: byte, c1: byte, c2: byte, c3: byte) {
    match t
    case kUTF8 => c0 != 0 && c1 != 0 && c2 != 0 && c3 != 0
    case kUTF16LE => c0 != 0 && c1 == 0 && c2 != 0 && c3 == 0
    case kUTF16BE => c0 == 0 && c1 != 0 && c2 == 0 && c3 != 0
    case kUTF32LE => c0 != 0 && c1 == 0 && c2 == 0 && c3 == 0
    case kUTF32BE => c0 == 0 && c1 == 0 && c2 == 0 && c3 != 0
  }

  /** One of the five byte order marks. */
  predicate Marked(c0: byte, c1: byte, c2: byte, c3: byte) {
    || (c0 == 0xFE && c1 == 0xFF) || (c0 == 0xFF && c1 == 0xFE) || (c0 == 0xEF && c1 == 0xBB && c2 == 0xBF)
    || (c0 == 0 && c1 == 0 && c2 == 0xFE && c3 == 0xFF)
  }

  /** What the first four bytes decide: a mark goes first, then a pattern, then the caller's default. */
  lemma DetectedBy(c0: byte, c1: byte, c2: byte, c3: byte, user: UTFType, t: UTFType)
    ensures var d := DetectFour(c0, c1, c2, c3, user);
      && (d.hasBOM <==> Marked(c0, c1, c2, c3)) && (!d.hasBOM ==> d.skip == 0)
      && (!d.hasBOM ==> (d.t == t <==> ZeroPattern(t, c0, c1, c2, c3) || (t == user && NonePattern(c0, c1, c2, c3))))
  {
    hide Word4, Pattern, NonePattern;
    Word4Is(c0, c1, c2, c3);
    PatternIs(c0, c1, c2, c3);
    OnePattern(c0, c1, c2, c3);
    NoPattern(c0, c1, c2, c3);
  }

  ghost predicate NonePattern(c0: byte, c1: byte, c2: byte, c3: byte) { forall u :: !ZeroPattern(u, c0, c1, c2, c3) }

  lemma OnePattern(c0: byte, c1: byte, c2: byte, c3: byte)
    ensures forall t, u :: ZeroPattern(t, c0, c1, c2, c3) && ZeroPattern(u, c0, c1, c2, c3) ==> t == u
  {
  }

  lemma NoPattern(c0: byte, c1: byte, c2: byte, c3: byte)
    ensures NonePattern(c0, c1, c2, c3) <==>
      !ZeroPattern(kUTF8, c0, c1, c2, c3) && !ZeroPattern(kUTF16LE, c0, c1, c2, c3)
        && !ZeroPattern(kUTF16BE, c0, c1, c2, c3) &&
      !ZeroPattern(kUTF32LE, c0, c1, c2, c3) && !ZeroPattern(kUTF32BE, c0, c1, c2, c3)
  {
  }

  /** The text shows its encoding: its first four bytes have the pattern, and they are no UTF-8 mark. */
  predicate ShowsType(t: UTFType, s: seq<unit>)
    requires Scalars(s)
  {
    var b := PutAll(t, EncodeText(t, s));
    |b| >= 4 && ZeroPattern(t, b[0], b[1], b[2], b[3]) && !(t.kUTF8? && s != [] && s[0] == 0xFEFF)
  }

  /** The text leaves it to the caller's default: too short, or neither a mark nor a pattern. */
  ghost predicate LeavesOpen(t: UTFType, s: seq<unit>)
    requires Scalars(s)
  {
    var b := PutAll(t, EncodeText(t, s));
    |b| >= 4 ==> !Marked(b[0], b[1], b[2], b[3]) && NonePattern(b[0], b[1], b[2], b[3])
  }

  lemma NoText(t: UTFType)
    ensures PutAll(t, EncodeText(t, [])) == []
  {
  }

  /** Bytes with the pattern of their own encoding are a mark only for UTF-8 text starting with U+FEFF. */
  lemma PatternUnmarked(t: UTFType, s: seq<unit>)
    requires Scalars(s)
    ensures var b := PutAll(t, EncodeText(t, s));
      |b| >= 4 && ZeroPattern(t, b[0], b[1], b[2], b[3]) ==>
        (Marked(b[0], b[1], b[2], b[3]) <==> t.kUTF8? && s[0] == 0xFEFF)
  {
    hide EncodeText, PutAll;
    NoText(t);
    var b := PutAll(t, EncodeText(t, s));
    if |b| >= 4 && t.kUTF8? { Utf8Marked(s, b); }
  }

  /** Without a byte order mark a text is detected as what it is exactly if it shows it, or leaves it to
      a default that is right. */
  lemma PatternDetected(t: UTFType, s: seq<unit>, user: UTFType)
    requires Scalars(s)
    ensures Detect(Written(t, s, false), user) == Detected(t, false, 0) <==>
      ShowsType(t, s) || (user == t && LeavesOpen(t, s))
  {
    hide DetectFour, ZeroPattern, NonePattern, Marked, EncodeText, PutAll;
    var b := PutAll(t, EncodeText(t, s));
    assert Written(t, s, false) == b;
    NoText(t);
    PatternUnmarked(t, s);
    if |b| >= 4 { DetectedBy(b[0], b[1], b[2], b[3], user, t); }
  }

  /** It is detected as what it is whatever the default exactly if it shows it. */
  lemma PatternDetectedIff(t: UTFType, s: seq<unit>)
    requires Scalars(s)
    ensures ShowsType(t, s) <==> forall user :: Detect(Written(t, s, false), user) == Detected(t, false, 0)
  {
    hide Detect, Written, ShowsType, LeavesOpen;
    var other := if t.kUTF8? then kUTF16LE else kUTF8;
    PatternDetected(t, s, other);
    forall user
      ensures ShowsType(t, s) ==> Detect(Written(t, s, false), user) == Detected(t, false, 0)
    {
      PatternDetected(t, s, user);
    }
  }

  /** Text of the form that RFC 4627 describes shows its encoding. */
  lemma JsonShows(t: UTFType, s: seq<unit>)
    requires Scalars(s) && JsonLike(t, s)
    ensures ShowsType(t, s)
  {
    hide Low, NoZero, Utf8Encode, Utf16Encode, EncodeText, PutAll;
    var b := PutAll(t, EncodeText(t, s));
    AsciiBytes(s[0]);
    AsciiBytes(s[1]);
    FirstTwo(t, s);
    var p := PutBytes(t, s[0]) + PutBytes(t, s[1]);
    assert forall i :: 0 <= i < |p| ==> b[i] == p[i];
    if t.kUTF8? {
      NoZeroByte(s);
      NoZeroFour(b);
    }
  }

  lemma NoZeroFour(b: seq<byte>)
    requires NoZero(b) && |b| >= 4
    ensures b[0] != 0 && b[1] != 0 && b[2] != 0 && b[3] != 0
  {
  }

  lemma FirstTwo(t: UTFType, s: seq<unit>)
    requires Scalars(s) && |s| >= 2 && AsciiChar(s[0]) && AsciiChar(s[1])
    ensures PutBytes(t, s[0]) + PutBytes(t, s[1]) <= PutAll(t, EncodeText(t, s))
  {
    hide PutBytes, Utf8Encode, Utf16Encode;
    AsciiBytes(s[0]);
    AsciiBytes(s[1]);
    var rest := EncodeText(t, s[1..][1..]);
    assert EncodeText(t, s) == [s[0]] + ([s[1]] + rest);
    PutAllConcat(t, [s[0]], [s[1]] + rest);
    PutAllConcat(t, [s[1]], rest);
    PutOne(t, s[0]);
    PutOne(t, s[1]);
  }

  lemma PutOne(t: UTFType, c: unit)
    ensures PutAll(t, [c]) == PutBytes(t, c)
  {
    assert PutAll(t, [c][1..]) == [];
  }

  /** The stream skips the mark it has seen, and nothing else. */
  lemma SkipsMark(src: seq<byte>, user: UTFType)
    ensures var d := Detect(src, user); d.skip == if d.hasBOM then |Bom(d.t)| else 0
  {
    hide Word4, Pattern;
  }

  /** What decides whether a text is read as it was written: with a byte order mark, that it is not
      UTF-16LE starting with U+0000; without one, what its first four bytes show. */
  ghost predicate RightlyDetected(t: UTFType, s: seq<unit>, putBOM: bool, user: UTFType)
    requires Scalars(s) && s != []
  {
    if putBOM then !(t.kUTF16LE? && s[0] == 0) else ShowsType(t, s) || (user == t && LeavesOpen(t, s))
  }

  /** Writing a nonempty text and reading it through detection: encoding and mark are detected as
      written exactly in these cases, and then the text comes back. */
  lemma AutoRoundTrip(t: UTFType, s: seq<unit>, putBOM: bool, user: UTFType)
    requires Scalars(s) && s != []
    ensures var src := Written(t, s, putBOM); var d := Detect(src, user);
      && (d == Detected(t, putBOM, if putBOM then |Bom(t)| else 0) <==> RightlyDetected(t, s, putBOM, user))
      && (RightlyDetected(t, s, putBOM, user) ==>
           && d.skip <= |src|
           && UnitsFrom(d.t, src, d.skip) == EncodeText(t, s)
           && AllOk(DecodeText(d.t, UnitsFrom(d.t, src, d.skip), |s|), s))
  {
    hide Detect, EncodeText, PutAll, UnitsFrom, DecodeText, AllOk, ShowsType, LeavesOpen;
    if putBOM { BomDetected(t, s, user); } else { PatternDetected(t, s, user); }
    TextFits(t, s);
    TakeBack(t, if putBOM then Bom(t) else [], EncodeText(t, s));
    TextRoundTrip(t, s);
  }
}
