/** The UTF encodings of RapidJSON on code units: encoding, decoding and validating one character. */
module Utf {

  type byte = bv8
  type unit = bv32

  /** A Unicode scalar value: a code point that is not a surrogate. */
  predicate Scalar(cp: unit) { cp <= 0x10FFFF && !(0xD800 <= cp <= 0xDFFF) }

  /** Reading a stream past its end yields zeros. */
  function At(v: seq<unit>, i: nat): unit { if i < |v| then v[i] else 0 }

  function Ahead(v: seq<unit>, n: nat): (s: seq<unit>)
    ensures |s| == n && forall i :: 0 <= i < n ==> s[i] == At(v, i)
  {
    seq(n, i requires 0 <= i < n => At(v, i))
  }

  datatype Decoded = Decoded(codepoint: unit, ok: bool, used: nat)

  // ---------- UTF-8 ----------

  function Trail(cp: unit): unit { 0x80 | (cp & 0x3F) }

  function Utf8Encode(cp: unit): (s: seq<unit>)
    ensures 1 <= |s| <= 4
  {
    if cp <= 0x7F then [cp & 0xFF]
    else if cp <= 0x7FF then [0xC0 | ((cp >> 6) & 0xFF), Trail(cp)]
    else if cp <= 0xFFFF then [0xE0 | ((cp >> 12) & 0xFF), Trail(cp >> 6), Trail(cp)]
    else [0xF0 | ((cp >> 18) & 0xFF), Trail(cp >> 12), Trail(cp >> 6), Trail(cp)]
  }

  /** The character class of a byte: how a sequence continues after it, or, for a trailing byte,
      one bit for its part of the range 80 to BF. */
  function GetRange(c: unit): byte {
    if c < 0x80 then 0
    else if c < 0x90 then 0x10
    else if c < 0xA0 then 0x40
    else if c < 0xC0 then 0x20
    else if c < 0xC2 then 8
    else if c < 0xE0 then 2
    else if c == 0xE0 then 10
    else if c < 0xED then 3
    else if c == 0xED then 4
    else if c < 0xF0 then 3
    else if c == 0xF0 then 11
    else if c < 0xF4 then 6
    else if c == 0xF4 then 5
    else 8
  }

  predicate Trans(c: unit, mask: byte) { GetRange(c & 0xFF) & mask != 0 }

  function Copy(cp: unit, c: unit): unit { (cp << 6) | (c & 0x3F) }

  /** What Decode makes of the units ahead: all trailing units of the expected number are consumed
      even when one of them is wrong. */
  function Utf8Decode(v: seq<unit>): Decoded { Utf8DecodeUnits(At(v, 0), At(v, 1), At(v, 2), At(v, 3)) }

  function Utf8DecodeUnits(c0: unit, c1: unit, c2: unit, c3: unit): (d: Decoded)
    ensures 1 <= d.used <= 4
  {
    if c0 & 0x80 == 0 then Decoded(c0 & 0xFF, true, 1)
    else
      var range := GetRange(c0 & 0xFF);
      var cp := Lead(range, c0);
      match range
      case 2 => Decoded(Copy(cp, c1), Trans(c1, 0x70), 2)
      case 3 => Decoded(Copy(Copy(cp, c1), c2), Trans(c1, 0x70) && Trans(c2, 0x70), 3)
      case 4 => Decoded(Copy(Copy(cp, c1), c2), Trans(c1, 0x50) && Trans(c2, 0x70), 3)
      case 5 => Decoded(Copy(Copy(Copy(cp, c1), c2), c3), Trans(c1, 0x10) && Trans(c2, 0x70) && Trans(c3, 0x70), 4)
      case 6 => Decoded(Copy(Copy(Copy(cp, c1), c2), c3), Trans(c1, 0x70) && Trans(c2, 0x70) && Trans(c3, 0x70), 4)
      case 10 => Decoded(Copy(Copy(cp, c1), c2), Trans(c1, 0x20) && Trans(c2, 0x70), 3)
      case 11 => Decoded(Copy(Copy(Copy(cp, c1), c2), c3), Trans(c1, 0x60) && Trans(c2, 0x70) && Trans(c3, 0x70), 4)
      case _ => Decoded(cp, false, 1)
  }

  function Lead(range: byte, c: unit): unit {
    if range == 2 then 0x3F & c & 0xFF
    else if range == 3 then 0x1F & c & 0xFF
    else if range == 4 then 0x0F & c & 0xFF
    else if range == 5 then 0x07 & c & 0xFF
    else if range == 6 then 0x03 & c & 0xFF
    else 0
  }

  /** The syntax of section 4 of RFC 3629 for the bytes of one character. */
  predicate Tail(c: unit) { 0x80 <= c <= 0xBF }

  predicate WellFormed(s: seq<unit>) {
    || (|s| == 1 && s[0] <= 0x7F)
    || (|s| == 2 && 0xC2 <= s[0] <= 0xDF && Tail(s[1]))
    || (|s| == 3 && Tail(s[2]) &&
         (|| (s[0] == 0xE0 && 0xA0 <= s[1] <= 0xBF)
          || (0xE1 <= s[0] <= 0xEC && Tail(s[1]))
          || (s[0] == 0xED && 0x80 <= s[1] <= 0x9F)
          || (0xEE <= s[0] <= 0xEF && Tail(s[1]))))
    || (|s| == 4 && Tail(s[2]) && Tail(s[3]) &&
         (|| (s[0] == 0xF0 && 0x90 <= s[1] <= 0xBF)
          || (0xF1 <= s[0] <= 0xF3 && Tail(s[1]))
          || (s[0] == 0xF4 && 0x80 <= s[1] <= 0x8F)))
  }

  // ---------- facts about single units ----------

  lemma TransIs(c: unit)
    requires c <= 0xFF
    ensures Trans(c, 0x70) <==> Tail(c)
    ensures Trans(c, 0x50) <==> 0x80 <= c <= 0x9F
    ensures Trans(c, 0x10) <==> 0x80 <= c <= 0x8F
    ensures Trans(c, 0x20) <==> 0xA0 <= c <= 0xBF
    ensures Trans(c, 0x60) <==> 0x90 <= c <= 0xBF
  {
  }

  /** The sequence length and the second byte that each lead byte allows. */
  lemma RangeIs(c: unit)
    requires 0x80 <= c <= 0xFF
    ensures c & 0x80 != 0 && c & 0xFF == c
    ensures var r := GetRange(c);
      && (r == 2 <==> 0xC2 <= c <= 0xDF) && (r == 10 <==> c == 0xE0)
      && (r == 3 <==> 0xE1 <= c <= 0xEC || 0xEE <= c <= 0xEF) && (r == 4 <==> c == 0xED)
      && (r == 11 <==> c == 0xF0) && (r == 6 <==> 0xF1 <= c <= 0xF3) && (r == 5 <==> c == 0xF4)
      && (r == 0x10 <==> c <= 0x8F) && (r == 0x40 <==> 0x90 <= c <= 0x9F) && (r == 0x20 <==> 0xA0 <= c <= 0xBF)
      && (r == 8 <==> 0xC0 <= c <= 0xC1 || 0xF5 <= c)
  {
  }

  lemma Ascii(c: unit)
    requires c <= 0xFF
    ensures c & 0x80 == 0 <==> c <= 0x7F
    ensures c & 0xFF == c
  {
  }

  lemma TrailIs(cp: unit)
    ensures Tail(Trail(cp)) && Trail(cp) <= 0xFF && Copy(cp >> 6, Trail(cp)) == cp
  {
  }

  lemma Shifts(cp: unit)
    ensures (cp >> 6) >> 6 == cp >> 12 && (cp >> 12) >> 6 == cp >> 18
  {
  }

  lemma Lead2(cp: unit)
    requires 0x7F < cp <= 0x7FF
    ensures var c := 0xC0 | ((cp >> 6) & 0xFF); 0xC2 <= c <= 0xDF && 0x3F & c & 0xFF == cp >> 6
  {
  }

  lemma Lead3(cp: unit)
    requires 0x7FF < cp <= 0xFFFF && !(0xD800 <= cp <= 0xDFFF)
    ensures var c, t := 0xE0 | ((cp >> 12) & 0xFF), Trail(cp >> 6);
      && 0xE0 <= c <= 0xEF && (c == 0xE0 ==> t >= 0xA0) && (c == 0xED ==> t <= 0x9F)
      && Lead(GetRange(c), c) == cp >> 12
  {
  }

  lemma Lead4(cp: unit)
    requires 0xFFFF < cp <= 0x10FFFF
    ensures var c, t := 0xF0 | ((cp >> 18) & 0xFF), Trail(cp >> 12);
      && 0xF0 <= c <= 0xF4 && (c == 0xF0 ==> t >= 0x90) && (c == 0xF4 ==> t <= 0x8F)
      && Lead(GetRange(c), c) == cp >> 18
  {
  }

  lemma Back2(c0: unit, c1: unit)
    requires 0xC2 <= c0 <= 0xDF && Tail(c1)
    ensures var cp := Copy(0x3F & c0 & 0xFF, c1);
      0x7F < cp <= 0x7FF && 0xC0 | ((cp >> 6) & 0xFF) == c0 && Trail(cp) == c1
  {
  }

  lemma Back3(c0: unit, c1: unit, c2: unit)
    requires 0xE0 <= c0 <= 0xEF && Tail(c1) && Tail(c2) && (c0 == 0xE0 ==> 0xA0 <= c1) && (c0 == 0xED ==> c1 <= 0x9F)
    ensures var cp := Copy(Copy(Lead(GetRange(c0), c0), c1), c2);
      && 0x7FF < cp <= 0xFFFF && !(0xD800 <= cp <= 0xDFFF)
      && 0xE0 | ((cp >> 12) & 0xFF) == c0 && Trail(cp >> 6) == c1 && Trail(cp) == c2
  {
  }

  lemma Back4(c0: unit, c1: unit, c2: unit, c3: unit)
    requires 0xF0 <= c0 <= 0xF4 && Tail(c1) && Tail(c2) && Tail(c3) && (c0 == 0xF0 ==> 0x90 <= c1)
    requires c0 == 0xF4 ==> c1 <= 0x8F
    ensures var cp := Copy(Copy(Copy(Lead(GetRange(c0), c0), c1), c2), c3);
      && 0xFFFF < cp <= 0x10FFFF
      && 0xF0 | ((cp >> 18) & 0xFF) == c0 && Trail(cp >> 12) == c1 && Trail(cp >> 6) == c2 && Trail(cp) == c3
  {
  }

  // ---------- UTF-8: decoding undoes encoding, and accepts nothing else ----------

  predicate Bytes(v: seq<unit>) { forall i :: 0 <= i < |v| ==> v[i] <= 0xFF }

  lemma AtAhead(s: seq<unit>, rest: seq<unit>, i: nat)
    requires i < |s|
    ensures At(s + rest, i) == s[i]
  {
  }

  lemma RoundTrip1(cp: unit, x: unit, y: unit, z: unit)
    requires cp <= 0x7F
    ensures Utf8Encode(cp) == [cp] && Utf8DecodeUnits(cp, x, y, z) == Decoded(cp, true, 1)
  {
    Ascii(cp);
  }

  lemma RoundTrip2(cp: unit, s: seq<unit>, x: unit, y: unit)
    requires 0x7F < cp <= 0x7FF && s == Utf8Encode(cp)
    ensures |s| == 2 && Utf8DecodeUnits(s[0], s[1], x, y) == Decoded(cp, true, 2) && WellFormed(s) && Bytes(s)
  {
    hide Trail, Copy, Trans, GetRange, Tail;
    Lead2(cp);
    RangeIs(s[0]);
    TrailIs(cp);
    TransIs(Trail(cp));
  }

  lemma RoundTrip3(cp: unit, s: seq<unit>, x: unit)
    requires 0x7FF < cp <= 0xFFFF && Scalar(cp) && s == Utf8Encode(cp)
    ensures |s| == 3 && Utf8DecodeUnits(s[0], s[1], s[2], x) == Decoded(cp, true, 3) && WellFormed(s) && Bytes(s)
  {
    Lead3(cp);
    hide Trail, Copy, Trans, GetRange, Lead;
    RangeIs(s[0]);
    TrailIs(cp);
    TransIs(Trail(cp));
    TrailIs(cp >> 6);
    TransIs(Trail(cp >> 6));
    Shifts(cp);
  }

  lemma Codepoint4(c0: unit, c1: unit, c2: unit, c3: unit)
    requires 0xF0 <= c0 <= 0xF4
    ensures Utf8DecodeUnits(c0, c1, c2, c3).codepoint == Copy(Copy(Copy(Lead(GetRange(c0), c0), c1), c2), c3)
  {
    hide Copy, Trans, GetRange, Lead;
    RangeIs(c0);
  }

  lemma RoundTrip4(cp: unit, s: seq<unit>)
    requires 0xFFFF < cp <= 0x10FFFF && s == Utf8Encode(cp)
    ensures |s| == 4 && Utf8DecodeUnits(s[0], s[1], s[2], s[3]) == Decoded(cp, true, 4) && WellFormed(s) && Bytes(s)
  {
    hide Trail, Copy, GetRange, Lead, Utf8DecodeUnits, Utf8Encode;
    Encode4(cp);
    var c := 0xF0 | ((cp >> 18) & 0xFF);
    Lead4(cp);
    TrailIs(cp);
    TrailIs(cp >> 6);
    TrailIs(cp >> 12);
    Shifts(cp);
    assert s == First(4, c, s[1], s[2], s[3]);
    AcceptsWellFormed(c, s[1], s[2], s[3], 4);
    Codepoint4(c, s[1], s[2], s[3]);
  }

  /** Encoding a scalar value and decoding what then lies ahead gives it back, and consumes exactly
      its encoding, which is well-formed. */
  lemma Utf8RoundTrip(cp: unit, rest: seq<unit>)
    requires Scalar(cp)
    ensures var s := Utf8Encode(cp); Utf8Decode(s + rest) == Decoded(cp, true, |s|) && WellFormed(s) && Bytes(s)
  {
    hide Utf8Encode, Utf8DecodeUnits, WellFormed, At;
    var s := Utf8Encode(cp);
    var v := s + rest;
    forall i | 0 <= i < |s| ensures At(v, i) == s[i] { AtAhead(s, rest, i); }
    if cp <= 0x7F {
      RoundTrip1(cp, At(v, 1), At(v, 2), At(v, 3));
      OneByte(cp);
    } else if cp <= 0x7FF {
      RoundTrip2(cp, s, At(v, 2), At(v, 3));
    } else if cp <= 0xFFFF {
      RoundTrip3(cp, s, At(v, 3));
    } else {
      RoundTrip4(cp, s);
    }
  }

  lemma OneByte(c: unit)
    requires c <= 0x7F
    ensures WellFormed([c]) && Bytes([c])
  {
  }

  /** Decode accepts exactly the well-formed sequences of RFC 3629, whatever follows them, and the
      code point it returns is the scalar value whose encoding they are. */
  lemma Utf8DecodeExact(v: seq<unit>)
    requires Bytes(v)
    ensures var d := Utf8Decode(v);
      && (d.ok <==> WellFormed(Ahead(v, d.used)))
      && (d.ok ==> Scalar(d.codepoint) && Utf8Encode(d.codepoint) == Ahead(v, d.used))
    ensures forall n :: 1 <= n <= 4 && WellFormed(Ahead(v, n)) ==> Utf8Decode(v).ok && Utf8Decode(v).used == n
  {
    hide Utf8Encode, Utf8DecodeUnits, WellFormed;
    var c0, c1, c2, c3 := At(v, 0), At(v, 1), At(v, 2), At(v, 3);
    assert Ahead(v, 1) == [c0] && Ahead(v, 2) == [c0, c1] && Ahead(v, 3) == [c0, c1, c2]
      && Ahead(v, 4) == [c0, c1, c2, c3];
    var d := Utf8Decode(v);
    if d.ok {
      AcceptsOnlyWellFormed(c0, c1, c2, c3);
      GivesBack(c0, c1, c2, c3);
    }
    forall n | 1 <= n <= 4 && WellFormed(Ahead(v, n)) ensures d.ok && d.used == n {
      AcceptsWellFormed(c0, c1, c2, c3, n);
    }
  }

  function First(n: nat, c0: unit, c1: unit, c2: unit, c3: unit): seq<unit> {
    if n == 1 then [c0] else if n == 2 then [c0, c1] else if n == 3 then [c0, c1, c2] else [c0, c1, c2, c3]
  }

  lemma AcceptsWellFormed(c0: unit, c1: unit, c2: unit, c3: unit, n: nat)
    requires c0 <= 0xFF && c1 <= 0xFF && c2 <= 0xFF && c3 <= 0xFF && 1 <= n <= 4 && WellFormed(First(n, c0, c1, c2, c3))
    ensures var d := Utf8DecodeUnits(c0, c1, c2, c3); d.ok && d.used == n
  {
    hide Copy, Trans, GetRange, Lead;
    Ascii(c0);
    if c0 >= 0x80 { RangeIs(c0); }
    TransIs(c1);
    TransIs(c2);
    TransIs(c3);
  }

  lemma AcceptsOnlyWellFormed(c0: unit, c1: unit, c2: unit, c3: unit)
    requires c0 <= 0xFF && c1 <= 0xFF && c2 <= 0xFF && c3 <= 0xFF && Utf8DecodeUnits(c0, c1, c2, c3).ok
    ensures WellFormed(First(Utf8DecodeUnits(c0, c1, c2, c3).used, c0, c1, c2, c3))
  {
    hide Copy, Trans, GetRange, Lead;
    Ascii(c0);
    if c0 >= 0x80 { RangeIs(c0); }
    TransIs(c1);
    TransIs(c2);
    TransIs(c3);
  }

  lemma GivesBack1(c0: unit, x: unit, y: unit, z: unit)
    requires WellFormed([c0])
    ensures var cp := Utf8DecodeUnits(c0, x, y, z).codepoint; Scalar(cp) && Utf8Encode(cp) == [c0]
  {
    RoundTrip1(c0, x, y, z);
  }

  lemma GivesBack2(c0: unit, c1: unit, x: unit, y: unit)
    requires WellFormed([c0, c1])
    ensures var cp := Utf8DecodeUnits(c0, c1, x, y).codepoint; Scalar(cp) && Utf8Encode(cp) == [c0, c1]
  {
    hide Copy, Trans, GetRange, Trail, Tail;
    RangeIs(c0);
    Back2(c0, c1);
    var cp := Copy(0x3F & c0 & 0xFF, c1);
    assert Utf8DecodeUnits(c0, c1, x, y).codepoint == cp;
    Encode2(cp);
  }

  lemma GivesBack3(c0: unit, c1: unit, c2: unit, x: unit)
    requires WellFormed([c0, c1, c2])
    ensures var cp := Utf8DecodeUnits(c0, c1, c2, x).codepoint; Scalar(cp) && Utf8Encode(cp) == [c0, c1, c2]
  {
    hide Copy, Trans, GetRange, Trail, Lead;
    RangeIs(c0);
    Back3(c0, c1, c2);
    var cp := Copy(Copy(Lead(GetRange(c0), c0), c1), c2);
    LeadByte(c0);
    assert Utf8DecodeUnits(c0, c1, c2, x).codepoint == cp;
    Encode3(cp);
  }

  lemma GivesBack4(c0: unit, c1: unit, c2: unit, c3: unit)
    requires WellFormed([c0, c1, c2, c3])
    ensures var cp := Utf8DecodeUnits(c0, c1, c2, c3).codepoint; Scalar(cp) && Utf8Encode(cp) == [c0, c1, c2, c3]
  {
    hide Copy, Trans, GetRange, Trail, Lead;
    RangeIs(c0);
    Back4(c0, c1, c2, c3);
    var cp := Copy(Copy(Copy(Lead(GetRange(c0), c0), c1), c2), c3);
    LeadByte(c0);
    assert Utf8DecodeUnits(c0, c1, c2, c3).codepoint == cp;
    Encode4(cp);
  }

  lemma LeadByte(c: unit)
    requires c <= 0xFF
    ensures c & 0xFF == c
  {
  }

  lemma Encode2(cp: unit)
    requires 0x7F < cp <= 0x7FF
    ensures Scalar(cp) && Utf8Encode(cp) == [0xC0 | ((cp >> 6) & 0xFF), Trail(cp)]
  {
    hide Trail;
  }

  lemma Encode3(cp: unit)
    requires 0x7FF < cp <= 0xFFFF && !(0xD800 <= cp <= 0xDFFF)
    ensures Scalar(cp) && Utf8Encode(cp) == [0xE0 | ((cp >> 12) & 0xFF), Trail(cp >> 6), Trail(cp)]
  {
    hide Trail;
  }

  lemma Encode4(cp: unit)
    requires 0xFFFF < cp <= 0x10FFFF
    ensures Scalar(cp) && Utf8Encode(cp) == [0xF0 | ((cp >> 18) & 0xFF), Trail(cp >> 12), Trail(cp >> 6), Trail(cp)]
  {
    hide Trail;
  }

  lemma GivesBack(c0: unit, c1: unit, c2: unit, c3: unit)
    requires c0 <= 0xFF && c1 <= 0xFF && c2 <= 0xFF && c3 <= 0xFF && Utf8DecodeUnits(c0, c1, c2, c3).ok
    ensures var d := Utf8DecodeUnits(c0, c1, c2, c3);
      Scalar(d.codepoint) && Utf8Encode(d.codepoint) == First(d.used, c0, c1, c2, c3)
  {
    hide Utf8DecodeUnits, WellFormed, Utf8Encode;
    AcceptsOnlyWellFormed(c0, c1, c2, c3);
    var d := Utf8DecodeUnits(c0, c1, c2, c3);
    if d.used == 1 {
      GivesBack1(c0, c1, c2, c3);
    } else if d.used == 2 {
      GivesBack2(c0, c1, c2, c3);
    } else if d.used == 3 {
      GivesBack3(c0, c1, c2, c3);
    } else {
      GivesBack4(c0, c1, c2, c3);
    }
  }

  // ---------- UTF-16 and UTF-32 ----------

  function Utf16Encode(cp: unit): (s: seq<unit>)
    requires cp <= 0x10FFFF
    ensures 1 <= |s| <= 2
  {
    if cp <= 0xFFFF then [cp]
    else var v := cp - 0x10000; [(v >> 10) | 0xD800, (v & 0x3FF) | 0xDC00]
  }

  function Utf16Decode(v: seq<unit>): Decoded { Utf16DecodeUnits(At(v, 0), At(v, 1)) }

  function Join(high: unit, low: unit): unit { (((high & 0x3FF) << 10) | (low & 0x3FF)) + 0x10000 }

  function Utf16DecodeUnits(c: unit, low: unit): (d: Decoded)
    ensures 1 <= d.used <= 2
  {
    if c < 0xD800 || c > 0xDFFF then Decoded(c, true, 1)
    else if c <= 0xDBFF then Decoded(Join(c, low), 0xDC00 <= low <= 0xDFFF, 2)
    else Decoded(0, false, 1)
  }

  /** Sections 2.1 and 2.2 of RFC 2781: a unit outside the surrogates, or a high and a low surrogate. */
  predicate WellFormed16(s: seq<unit>) {
    || (|s| == 1 && s[0] <= 0xFFFF && !(0xD800 <= s[0] <= 0xDFFF))
    || (|s| == 2 && 0xD800 <= s[0] <= 0xDBFF && 0xDC00 <= s[1] <= 0xDFFF)
  }

  lemma Pair(cp: unit)
    requires 0xFFFF < cp <= 0x10FFFF
    ensures var v := cp - 0x10000; var high, low := (v >> 10) | 0xD800, (v & 0x3FF) | 0xDC00;
      && 0xD800 <= high <= 0xDBFF && 0xDC00 <= low <= 0xDFFF && Join(high, low) == cp
  {
  }

  lemma PairBack(high: unit, low: unit)
    requires 0xD800 <= high <= 0xDBFF && 0xDC00 <= low <= 0xDFFF
    ensures var cp := Join(high, low); var v := cp - 0x10000;
      0xFFFF < cp <= 0x10FFFF && (v >> 10) | 0xD800 == high && (v & 0x3FF) | 0xDC00 == low
  {
  }

  lemma Utf16RoundTrip(cp: unit, rest: seq<unit>)
    requires Scalar(cp)
    ensures var s := Utf16Encode(cp); Utf16Decode(s + rest) == Decoded(cp, true, |s|) && WellFormed16(s)
  {
    if cp > 0xFFFF { Pair(cp); }
  }

  /** On 16-bit units, Decode accepts exactly what RFC 2781 allows, and it undoes the encoding. */
  lemma Utf16DecodeExact(v: seq<unit>)
    requires forall i :: 0 <= i < |v| ==> v[i] <= 0xFFFF
    ensures var d := Utf16Decode(v);
      && (d.ok <==> WellFormed16(Ahead(v, d.used)))
      && (d.ok ==> Scalar(d.codepoint) && Utf16Encode(d.codepoint) == Ahead(v, d.used))
    ensures forall n :: 1 <= n <= 2 && WellFormed16(Ahead(v, n)) ==> Utf16Decode(v).ok && Utf16Decode(v).used == n
  {
    var c, low := At(v, 0), At(v, 1);
    assert Ahead(v, 1) == [c] && Ahead(v, 2) == [c, low];
    hide Utf16DecodeUnits, WellFormed16, Utf16Encode;
    Accepts16(c, low);
    var d := Utf16Decode(v);
    forall n | 1 <= n <= 2 && WellFormed16(Ahead(v, n)) ensures d.ok && d.used == n {
      AcceptsWellFormed16(c, low, n);
    }
  }

  ghost predicate Exact16(c: unit, low: unit) {
    var d := Utf16DecodeUnits(c, low);
    var s := if d.used == 1 then [c] else [c, low];
    (d.ok <==> WellFormed16(s)) && (d.ok ==> Scalar(d.codepoint) && Utf16Encode(d.codepoint) == s)
  }

  lemma Accepts16(c: unit, low: unit)
    requires c <= 0xFFFF && low <= 0xFFFF
    ensures Exact16(c, low)
  {
    hide Exact16;
    if c < 0xD800 || c > 0xDFFF {
      ExactOne(c, low);
    } else if c <= 0xDBFF && 0xDC00 <= low <= 0xDFFF {
      ExactPair(c, low);
    } else {
      ExactBad(c, low);
    }
  }

  lemma ExactOne(c: unit, low: unit)
    requires c <= 0xFFFF && !(0xD800 <= c <= 0xDFFF)
    ensures Exact16(c, low)
  {
    hide Join, Utf16Encode;
    EncodeOne(c);
  }

  lemma ExactPair(c: unit, low: unit)
    requires 0xD800 <= c <= 0xDBFF && 0xDC00 <= low <= 0xDFFF
    ensures Exact16(c, low)
  {
    hide Join, Utf16Encode, Scalar;
    JoinEncodes(c, low);
  }

  lemma JoinEncodes(high: unit, low: unit)
    requires 0xD800 <= high <= 0xDBFF && 0xDC00 <= low <= 0xDFFF
    ensures Scalar(Join(high, low)) && Utf16Encode(Join(high, low)) == [high, low]
  {
    hide Join;
    PairBack(high, low);
    EncodeTwo(Join(high, low), high, low);
  }

  lemma EncodeTwo(cp: unit, high: unit, low: unit)
    requires 0xFFFF < cp <= 0x10FFFF && ((cp - 0x10000) >> 10) | 0xD800 == high
    requires ((cp - 0x10000) & 0x3FF) | 0xDC00 == low
    ensures Scalar(cp) && Utf16Encode(cp) == [high, low]
  {
  }

  lemma ExactBad(c: unit, low: unit)
    requires 0xD800 <= c <= 0xDFFF && (c > 0xDBFF || !(0xDC00 <= low <= 0xDFFF))
    ensures Exact16(c, low)
  {
    hide Join, Utf16Encode, Scalar;
  }

  lemma AcceptsWellFormed16(c: unit, low: unit, n: nat)
    requires c <= 0xFFFF && low <= 0xFFFF && 1 <= n <= 2 && WellFormed16(if n == 1 then [c] else [c, low])
    ensures var d := Utf16DecodeUnits(c, low); d.ok && d.used == n
  {
    hide Join;
  }

  lemma EncodeOne(cp: unit)
    requires cp <= 0xFFFF && !(0xD800 <= cp <= 0xDFFF)
    ensures Scalar(cp) && Utf16Encode(cp) == [cp]
  {
  }

  function Utf32Decode(v: seq<unit>): Decoded { Decoded(At(v, 0), At(v, 0) <= 0x10FFFF, 1) }

  /** UTF-32 decoding lets surrogates through: it accepts a unit exactly if it is a scalar value or
      a surrogate. */
  lemma Utf32DecodeExact(c: unit, rest: seq<unit>)
    ensures var d := Utf32Decode([c] + rest); d.codepoint == c && (d.ok <==> Scalar(c) || 0xD800 <= c <= 0xDFFF)
  {
  }
}
