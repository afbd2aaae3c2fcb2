/** The stream classes and the decoders that take units from them one at a time. */
module UtfIo {
  import opened Utf
  import opened UtfStreams

  class MemoryStream {
    const src: seq<byte>
    var pos: nat

    ghost predicate Valid()
      reads this
    {
      pos <= |src|
    }

    constructor (src: seq<byte>)
      ensures Valid() && pos == 0 && this.src == src
    {
      this.src, pos := src, 0;
    }

    /** Past the end there are only zeros. */
    method Peek() returns (c: byte)
      requires Valid()
      ensures c == ByteAt(src, pos)
    {
      c := if pos == |src| then 0 else src[pos];
    }

    method Take() returns (c: byte)
      requires Valid()
      modifies this
      ensures Valid() && c == ByteAt(src, old(pos)) && pos == Least(old(pos) + 1, |src|)
    {
      if pos == |src| { return 0; }
      c := src[pos];
      pos := pos + 1;
    }

    /** The four bytes ahead, if there are four. */
    method Peek4() returns (c: seq<byte>)
      requires Valid()
      ensures c == if pos + 4 <= |src| then src[pos..pos + 4] else []
    {
      c := if pos + 4 <= |src| then src[pos..pos + 4] else [];
    }
  }

  function Least(a: nat, b: nat): nat { if a <= b then a else b }

  /** Take of each encoding. */
  method TakeFrom(t: UTFType, input: MemoryStream) returns (c: unit)
    requires input.Valid()
    modifies input
    ensures input.Valid() && c == TakeUnit(t, input.src, old(input.pos))
    ensures input.pos == Least(old(input.pos) + Width(t), |input.src|)
  {
    match t {
      case kUTF8 =>
        var b0 := input.Take();
        c := UnitOf(t, b0, 0, 0, 0);
      case kUTF16LE =>
        var b0 := input.Take();
        var b1 := input.Take();
        c := UnitOf(t, b0, b1, 0, 0);
      case kUTF16BE =>
        var b0 := input.Take();
        var b1 := input.Take();
        c := UnitOf(t, b0, b1, 0, 0);
      case _ =>
        var b0 := input.Take();
        var b1 := input.Take();
        var b2 := input.Take();
        var b3 := input.Take();
        c := UnitOf(t, b0, b1, b2, b3);
    }
  }

  /** w reads like v after n units. */
  ghost predicate Advanced(v: seq<unit>, w: seq<unit>, n: nat) {
    forall i: nat :: At(w, i) == At(v, i + n)
  }

  lemma AdvancedTrans(u: seq<unit>, v: seq<unit>, w: seq<unit>, m: nat, n: nat)
    requires Advanced(u, v, m) && Advanced(v, w, n)
    ensures Advanced(u, w, m + n)
  {
    hide At;
    forall i: nat ensures At(w, i) == At(u, i + (m + n)) {
      assert At(v, i + n) == At(u, i + n + m);
    }
  }

  class AutoUTFInputStream {
    const is_: MemoryStream
    var type_: UTFType
    var hasBOM_: bool
    var current_: unit

    ghost predicate Valid()
      reads this, is_
    {
      is_.Valid()
    }

    /** The units ahead: the one taken already, then those of the bytes left. */
    ghost function View(): seq<unit>
      reads this, is_
    {
      [current_] + UnitsFrom(type_, is_.src, is_.pos)
    }

    /** Detects the encoding and takes the first unit. */
    constructor (input: MemoryStream, t: UTFType)
      requires input.Valid() && input.pos == 0
      modifies input
      ensures Valid() && is_ == input
      ensures var d := Detect(input.src, t);
        type_ == d.t && hasBOM_ == d.hasBOM
          && (d.skip <= |input.src| ==> Advanced(UnitsFrom(d.t, input.src, d.skip), View(), 0))
    {
      is_, type_, hasBOM_, current_ := input, t, false, 0;
      new;
      DetectType();
      ghost var skip := is_.pos;
      current_ := TakeFrom(type_, is_);
      UnitsStep(type_, is_.src, skip);
    }

    method DetectType()
      requires Valid() && is_.pos == 0 && !hasBOM_
      modifies this`type_, this`hasBOM_, is_
      ensures Valid()
      ensures var d := Detect(is_.src, old(type_));
        type_ == d.t && hasBOM_ == d.hasBOM && is_.pos == Least(d.skip, |is_.src|)
    {
      hide Word4, Pattern, FromBom, FromPattern;
      var c := is_.Peek4();
      if |c| == 0 { return; }
      var bom := Word4(c[0], c[1], c[2], c[3]);
      hasBOM_ := false;
      TakeBom(bom);
      if !hasBOM_ {
        TypeFromPattern(Pattern(c[0], c[1], c[2], c[3]));
      }
    }

    method TakeBom(bom: bv32)
      requires Valid() && is_.pos == 0 && !hasBOM_
      modifies this`type_, this`hasBOM_, is_
      ensures Valid()
      ensures var d := FromBom(bom, old(type_));
        type_ == d.t && hasBOM_ == d.hasBOM && is_.pos == Least(d.skip, |is_.src|) && (!d.hasBOM ==> d.skip == 0)
      ensures !hasBOM_ ==> type_ == old(type_)
    {
      if bom == 0xFFFE0000 {
        type_, hasBOM_ := kUTF32BE, true;
        Skip(4);
      } else if bom == 0x0000FEFF {
        type_, hasBOM_ := kUTF32LE, true;
        Skip(4);
      } else if bom & 0xFFFF == 0xFFFE {
        type_, hasBOM_ := kUTF16BE, true;
        Skip(2);
      } else if bom & 0xFFFF == 0xFEFF {
        type_, hasBOM_ := kUTF16LE, true;
        Skip(2);
      } else if bom & 0xFFFFFF == 0xBFBBEF {
        type_, hasBOM_ := kUTF8, true;
        Skip(3);
      }
    }

    method TypeFromPattern(pattern: bv8)
      modifies this`type_
      ensures type_ == FromPattern(pattern, old(type_))
    {
      match pattern
      case 0x08 => type_ := kUTF32BE;
      case 0x0A => type_ := kUTF16BE;
      case 0x01 => type_ := kUTF32LE;
      case 0x05 => type_ := kUTF16LE;
      case 0x0F => type_ := kUTF8;
      case _ =>
    }

    /** n calls of Take on the bytes. */
    method Skip(n: nat)
      requires Valid()
      modifies is_
      ensures Valid() && is_.pos == Least(old(is_.pos) + n, |is_.src|)
    {
      for i := 0 to n
        invariant is_.Valid() && is_.pos == Least(old(is_.pos) + i, |is_.src|)
      {
        var c := is_.Take();
      }
    }

    method Peek() returns (c: unit)
      requires Valid()
      ensures c == At(View(), 0)
    {
      c := current_;
    }

    method Take() returns (c: unit)
      requires Valid()
      modifies this`current_, is_
      ensures Valid() && c == At(old(View()), 0) && Advanced(old(View()), View(), 1)
    {
      ghost var pos := is_.pos;
      c := current_;
      current_ := TakeFrom(type_, is_);
      UnitsStep(type_, is_.src, pos);
    }
  }

  /** Taking a unit from the bytes moves it to the front of what is ahead. */
  lemma UnitsStep(t: UTFType, src: seq<byte>, pos: nat)
    requires pos <= |src|
    ensures var u := [TakeUnit(t, src, pos)] + UnitsFrom(t, src, Least(pos + Width(t), |src|));
      Advanced(UnitsFrom(t, src, pos), u, 0) && forall c :: Advanced([c] + UnitsFrom(t, src, pos), u, 1)
  {
    var next := Least(pos + Width(t), |src|);
    if pos == |src| {
      ZeroUnits(t, src, pos);
      assert UnitsFrom(t, src, pos) == [];
    } else {
      assert UnitsFrom(t, src, pos + Width(t)) == UnitsFrom(t, src, next);
    }
    var u := [TakeUnit(t, src, pos)] + UnitsFrom(t, src, next);
    assert forall i: nat :: At(u, i) == At(UnitsFrom(t, src, pos), i);
  }

  lemma ZeroUnits(t: UTFType, src: seq<byte>, pos: nat)
    requires pos >= |src|
    ensures TakeUnit(t, src, pos) == 0
  {
  }

  // ---------- decoding from a stream ----------

  /** Takes a unit and shifts its low six bits into the code point. */
  method CopyUnit(input: AutoUTFInputStream, cp: unit, ghost v: seq<unit>, ghost n: nat)
    returns (codepoint: unit, c: unit)
    requires input.Valid() && Advanced(v, input.View(), n)
    modifies input`current_, input.is_
    ensures input.Valid() && c == At(v, n) && codepoint == Copy(cp, c) && Advanced(v, input.View(), n + 1)
  {
    hide Advanced, Copy, At;
    ghost var w := input.View();
    c := input.Take();
    AdvancedHead(v, w, n);
    AdvancedTrans(v, w, input.View(), n, 1);
    codepoint := Copy(cp, c);
  }

  lemma AdvancedHead(v: seq<unit>, w: seq<unit>, n: nat)
    requires Advanced(v, w, n)
    ensures At(w, 0) == At(v, n)
  {
    assert At(w, 0) == At(v, 0 + n);
  }

  lemma AdvancedSelf(v: seq<unit>)
    ensures Advanced(v, v, 0)
  {
  }

  /** UTF8::Decode. */
  method DecodeUtf8(input: AutoUTFInputStream) returns (d: Decoded)
    requires input.Valid()
    modifies input`current_, input.is_
    ensures input.Valid() && d == Utf8Decode(old(input.View())) && Advanced(old(input.View()), input.View(), d.used)
  {
    hide *;
    ghost var v := input.View();
    AdvancedSelf(v);
    var zero, c := CopyUnit(input, 0, v, 0);
    if c & 0x80 == 0 {
      AsciiDecodes(v);
      return Decoded(c & 0xFF, true, 1);
    }
    var range := GetRange(c & 0xFF);
    var codepoint := Lead(range, c);
    var mask, length := Continuation(range);
    if length == 1 {
      d := Decoded(codepoint, false, 1);
      NoTails(v, codepoint, mask);
    } else {
      d := Tails(input, codepoint, mask, length, v);
    }
    DecodesTo(v, mask, length, d);
    UsedIs(v, codepoint, mask, length, d);
  }

  lemma UsedIs(v: seq<unit>, cp: unit, mask: byte, length: nat, d: Decoded)
    requires FromTails(v, cp, mask, length, d)
    ensures d.used == length
  {
  }

  /** How many units the first byte calls for, and which second bytes it allows. */
  ghost predicate Continues(range: byte, mask: byte, length: nat) {
    match range
    case 2 => mask == 0x70 && length == 2
    case 3 => mask == 0x70 && length == 3
    case 4 => mask == 0x50 && length == 3
    case 5 => mask == 0x10 && length == 4
    case 6 => mask == 0x70 && length == 4
    case 10 => mask == 0x20 && length == 3
    case 11 => mask == 0x60 && length == 4
    case _ => length == 1
  }

  /** The switch of Decode and Validate. */
  method Continuation(range: byte) returns (mask: byte, length: nat)
    ensures Continues(range, mask, length) && 1 <= length <= 4
  {
    mask, length := 0, 1;
    match range {
      case 2 => mask, length := 0x70, 2;
      case 3 => mask, length := 0x70, 3;
      case 4 => mask, length := 0x50, 3;
      case 5 => mask, length := 0x10, 4;
      case 6 => mask, length := 0x70, 4;
      case 10 => mask, length := 0x20, 3;
      case 11 => mask, length := 0x60, 4;
      case _ =>
    }
  }

  ghost predicate TailsOk(v: seq<unit>, mask: byte, length: nat) {
    Trans(At(v, 1), mask) && (length > 2 ==> Trans(At(v, 2), 0x70)) && (length > 3 ==> Trans(At(v, 3), 0x70))
  }

  /** The outcome of reading length units, the first of which contributed cp. */
  ghost predicate FromTails(v: seq<unit>, cp: unit, mask: byte, length: nat, d: Decoded) {
    if length == 1 then d == Decoded(cp, false, 1) else
      var c2 := Copy(cp, At(v, 1)); var c3 := Copy(c2, At(v, 2)); var c4 := Copy(c3, At(v, 3));
      d == Decoded(if length == 2 then c2 else if length == 3 then c3 else c4, TailsOk(v, mask, length), length)
  }

  lemma NoTails(v: seq<unit>, cp: unit, mask: byte)
    ensures FromTails(v, cp, mask, 1, Decoded(cp, false, 1))
  {
  }

  lemma DecodesTo(v: seq<unit>, mask: byte, length: nat, d: Decoded)
    requires At(v, 0) & 0x80 != 0 && Continues(GetRange(At(v, 0) & 0xFF), mask, length)
    requires FromTails(v, Lead(GetRange(At(v, 0) & 0xFF), At(v, 0)), mask, length, d)
    ensures d == Utf8Decode(v)
  {
    hide At, Copy, Trans, GetRange, Lead;
  }

  /** The second unit of a sequence against its mask, then the others against 0x70. */
  method Tails(input: AutoUTFInputStream, cp: unit, mask: byte, length: nat, ghost v: seq<unit>) returns (d: Decoded)
    requires input.Valid() && 2 <= length <= 4 && Advanced(v, input.View(), 1)
    modifies input`current_, input.is_
    ensures input.Valid() && Advanced(v, input.View(), length) && FromTails(v, cp, mask, length, d)
  {
    hide Advanced, Copy, Trans, At;
    var codepoint, c := CopyUnit(input, cp, v, 1);
    var result := Trans(c, mask);
    if length > 2 {
      codepoint, c := CopyUnit(input, codepoint, v, 2);
      result := result && Trans(c, 0x70);
    }
    if length > 3 {
      codepoint, c := CopyUnit(input, codepoint, v, 3);
      result := result && Trans(c, 0x70);
    }
    d := Decoded(codepoint, result, length);
  }

  /** UTF16::Decode. */
  method DecodeUtf16(input: AutoUTFInputStream) returns (d: Decoded)
    requires input.Valid()
    modifies input`current_, input.is_
    ensures input.Valid() && d == Utf16Decode(old(input.View())) && Advanced(old(input.View()), input.View(), d.used)
  {
    hide Advanced, Join, At;
    ghost var v := input.View();
    AdvancedSelf(v);
    var zero, c := CopyUnit(input, 0, v, 0);
    if c < 0xD800 || c > 0xDFFF {
      d := Decoded(c, true, 1);
    } else if c <= 0xDBFF {
      var high := c;
      zero, c := CopyUnit(input, 0, v, 1);
      d := Decoded(Join(high, c), 0xDC00 <= c <= 0xDFFF, 2);
    } else {
      d := Decoded(0, false, 1);
    }
  }

  /** AutoUTF::Decode: the decoder of the stream's encoding. */
  method DecodeOne(input: AutoUTFInputStream) returns (d: Decoded)
    requires input.Valid()
    modifies input`current_, input.is_
    ensures input.Valid() && d == DecodeUnits(input.type_, old(input.View()))
    ensures Advanced(old(input.View()), input.View(), d.used)
  {
    hide Advanced, At, Utf8Decode, Utf16Decode, UnitsFrom;
    match input.type_ {
      case kUTF8 => d := DecodeUtf8(input);
      case kUTF16LE => d := DecodeUtf16(input);
      case kUTF16BE => d := DecodeUtf16(input);
      case _ =>
        ghost var v := input.View();
        var c := input.Take();
        d := Decoded(c, c <= 0x10FFFF, 1);
    }
  }

  /** A stream that Validate copies to. */
  class OutputUnits {
    var units: seq<unit>

    method Put(c: unit)
      modifies this
      ensures units == old(units) + [c]
    {
      units := units + [c];
    }
  }

  method CopyTo(input: AutoUTFInputStream, output: OutputUnits, ghost v: seq<unit>, ghost n: nat) returns (c: unit)
    requires input.Valid() && Advanced(v, input.View(), n)
    modifies input`current_, input.is_, output
    ensures input.Valid() && c == At(v, n) && Advanced(v, input.View(), n + 1)
    ensures output.units == old(output.units) + [c]
  {
    hide Advanced, At, UnitsFrom;
    ghost var w := input.View();
    c := input.Take();
    AdvancedHead(v, w, n);
    AdvancedTrans(v, w, input.View(), n, 1);
    output.Put(c);
  }

  /** UTF8::Validate says what Decode says, and copies exactly the units that Decode consumes. */
  method ValidateUtf8(input: AutoUTFInputStream, output: OutputUnits) returns (result: bool)
    requires input.Valid()
    modifies input`current_, input.is_, output
    ensures input.Valid()
    ensures var d := Utf8Decode(old(input.View()));
      result == d.ok && Advanced(old(input.View()), input.View(), d.used)
        && output.units == old(output.units) + Ahead(old(input.View()), d.used)
  {
    hide *;
    ghost var v, out := input.View(), output.units;
    AdvancedSelf(v);
    var c := CopyTo(input, output, v, 0);
    AheadOne(v);
    if c & 0x80 == 0 {
      AsciiDecodes(v);
      return true;
    }
    var mask, length := Continuation(GetRange(c & 0xFF));
    if length == 1 {
      result := false;
    } else {
      result := ValidateTails(input, output, mask, length, v, out);
    }
    ValidatesTo(v, mask, length);
  }

  lemma ValidatesTo(v: seq<unit>, mask: byte, length: nat)
    requires At(v, 0) & 0x80 != 0 && Continues(GetRange(At(v, 0) & 0xFF), mask, length)
    ensures var d := Utf8Decode(v); d.used == length && (d.ok <==> length > 1 && TailsOk(v, mask, length))
  {
    hide At, Copy, Trans, GetRange, Lead;
  }

  lemma AheadOne(v: seq<unit>)
    ensures Ahead(v, 1) == [At(v, 0)]
  {
  }

  lemma AsciiDecodes(v: seq<unit>)
    requires At(v, 0) & 0x80 == 0
    ensures Utf8Decode(v) == Decoded(At(v, 0) & 0xFF, true, 1)
  {
  }

  method ValidateTails(input: AutoUTFInputStream, output: OutputUnits, mask: byte, length: nat, ghost v: seq<unit>,
                       ghost out: seq<unit>) returns (result: bool)
    requires input.Valid() && 2 <= length <= 4 && Advanced(v, input.View(), 1) && output.units == out + [At(v, 0)]
    modifies input`current_, input.is_, output
    ensures input.Valid() && Advanced(v, input.View(), length) && output.units == out + Ahead(v, length)
    ensures result <==> TailsOk(v, mask, length)
  {
    hide Advanced, Trans, At;
    var c := CopyTo(input, output, v, 1);
    result := Trans(c, mask);
    assert out + [At(v, 0)] + [At(v, 1)] == out + Ahead(v, 2);
    if length > 2 {
      c := CopyTo(input, output, v, 2);
      result := result && Trans(c, 0x70);
      assert out + Ahead(v, 2) + [At(v, 2)] == out + Ahead(v, 3);
    }
    if length > 3 {
      c := CopyTo(input, output, v, 3);
      result := result && Trans(c, 0x70);
      assert out + Ahead(v, 3) + [At(v, 3)] == out + Ahead(v, 4);
    }
  }

  // ---------- encoding to a stream ----------

  class AutoUTFOutputStream {
    const type_: UTFType
    var os_: seq<byte>

    constructor (t: UTFType, putBOM: bool)
      ensures type_ == t && os_ == if putBOM then Bom(t) else []
    {
      type_ := t;
      os_ := if putBOM then Bom(t) else [];
    }

    method Put(c: unit)
      modifies this
      ensures os_ == old(os_) + PutBytes(type_, c)
    {
      os_ := os_ + PutBytes(type_, c);
    }

    /** AutoUTF::Encode: the units of one character. */
    method Encode(cp: unit)
      requires cp <= 0x10FFFF
      modifies this
      ensures os_ == old(os_) + PutAll(type_, EncodeUnits(type_, cp))
    {
      hide PutBytes, Utf8Encode, Utf16Encode;
      var e := EncodeUnits(type_, cp);
      assert e[..0] == [] && e[..|e|] == e;
      for i := 0 to |e|
        invariant os_ == old(os_) + PutAll(type_, e[..i])
      {
        Put(e[i]);
        assert e[..i + 1] == e[..i] + [e[i]];
        PutAllConcat(type_, e[..i], [e[i]]);
        PutOne(type_, e[i]);
      }
    }
  }

  /** Writes a text, byte order mark first if asked for. */
  method WriteText(t: UTFType, s: seq<unit>, putBOM: bool) returns (bytes: seq<byte>)
    requires Scalars(s)
    ensures bytes == Written(t, s, putBOM)
  {
    hide EncodeUnits, PutAll;
    var output := new AutoUTFOutputStream(t, putBOM);
    TextSplit(t, s, 0);
    for i := 0 to |s|
      invariant output.type_ == t && output.os_ + PutAll(t, EncodeText(t, s[i..])) == Written(t, s, putBOM)
    {
      assert s[i..][1..] == s[i + 1..];
      PutAllConcat(t, EncodeUnits(t, s[i]), EncodeText(t, s[i + 1..]));
      output.Encode(s[i]);
    }
    NothingPut(t);
    bytes := output.os_;
  }

  lemma TextSplit(t: UTFType, s: seq<unit>, i: nat)
    requires Scalars(s) && i == 0
    ensures s[i..] == s
  {
  }

  lemma NothingPut(t: UTFType)
    ensures PutAll(t, []) == []
  {
  }

  /** Reads the next n characters of a stream. */
  method ReadText(input: AutoUTFInputStream, n: nat) returns (ds: seq<Decoded>)
    requires input.Valid()
    modifies input`current_, input.is_
    ensures input.Valid() && ds == DecodeText(input.type_, old(input.View()), n)
  {
    hide *;
    ghost var v := input.View();
    ghost var used: nat := 0;
    AdvancedSelf(v);
    DropNone(v);
    ds := [];
    for i := 0 to n
      invariant input.Valid() && Advanced(v, input.View(), used)
      invariant ds + DecodeText(input.type_, Drop(v, used), n - i) == DecodeText(input.type_, v, n)
    {
      ghost var w := input.View();
      var d := DecodeOne(input);
      SameDecode(input.type_, v, w, used);
      AdvancedTrans(v, w, input.View(), used, d.used);
      TextNext(input.type_, Drop(v, used), n - i, ds);
      DropTwice(v, used, d.used);
      ds := ds + [d];
      used := used + d.used;
    }
    TextEnd(input.type_, Drop(v, used), ds);
  }

  lemma TextNext(t: UTFType, v: seq<unit>, n: nat, ds: seq<Decoded>)
    requires n > 0
    ensures var d := DecodeUnits(t, v); ds + DecodeText(t, v, n) == ds + [d] + DecodeText(t, Drop(v, d.used), n - 1)
  {
    hide DecodeUnits;
  }

  lemma TextEnd(t: UTFType, v: seq<unit>, ds: seq<Decoded>)
    ensures ds + DecodeText(t, v, 0) == ds
  {
  }

  lemma DropNone(v: seq<unit>)
    ensures Drop(v, 0) == v
  {
  }

  lemma DropTwice(v: seq<unit>, m: nat, n: nat)
    ensures Drop(Drop(v, m), n) == Drop(v, m + n)
  {
  }

  /** Decoding looks only at what is ahead. */
  lemma SameDecode(t: UTFType, v: seq<unit>, w: seq<unit>, n: nat)
    requires Advanced(v, w, n)
    ensures DecodeUnits(t, w) == DecodeUnits(t, Drop(v, n))
  {
    hide *;
    SameAhead(v, w, n);
    FourDecide(t, w, Drop(v, n));
  }

  lemma SameAhead(v: seq<unit>, w: seq<unit>, n: nat)
    requires Advanced(v, w, n)
    ensures var r := Drop(v, n);
      At(w, 0) == At(r, 0) && At(w, 1) == At(r, 1) && At(w, 2) == At(r, 2) && At(w, 3) == At(r, 3)
  {
  }

  lemma FourDecide(t: UTFType, v: seq<unit>, w: seq<unit>)
    requires At(v, 0) == At(w, 0) && At(v, 1) == At(w, 1) && At(v, 2) == At(w, 2) && At(v, 3) == At(w, 3)
    ensures DecodeUnits(t, v) == DecodeUnits(t, w)
  {
    hide At, Utf8DecodeUnits, Utf16DecodeUnits;
  }

  /** Writing and reading back: encoding and mark are detected as written exactly for the texts that are
      rightly detected, and these come back. */
  method WriteThenRead(t: UTFType, s: seq<unit>, putBOM: bool, user: UTFType)
    returns (detected: UTFType, hasBOM: bool, ds: seq<Decoded>)
    requires Scalars(s) && s != []
    ensures detected == t && hasBOM == putBOM <==> RightlyDetected(t, s, putBOM, user)
    ensures RightlyDetected(t, s, putBOM, user) ==> AllOk(ds, s)
  {
    hide Written, DecodeText, AllOk, UnitsFrom, Detect, EncodeText, RightlyDetected, Advanced;
    var bytes := WriteText(t, s, putBOM);
    var is_ := new MemoryStream(bytes);
    var input := new AutoUTFInputStream(is_, user);
    AutoRoundTrip(t, s, putBOM, user);
    SkipsMark(bytes, user);
    if RightlyDetected(t, s, putBOM, user) { SameText(t, EncodeText(t, s), input.View(), |s|); }
    detected, hasBOM := input.type_, input.hasBOM_;
    ds := ReadText(input, |s|);
  }

  lemma {:induction false} SameText(t: UTFType, v: seq<unit>, w: seq<unit>, n: nat)
    requires Advanced(v, w, 0)
    ensures DecodeText(t, v, n) == DecodeText(t, w, n)
    decreases n
  {
    hide DecodeUnits, At;
    if n > 0 {
      SameDecode(t, v, w, 0);
      DropNone(v);
      var k := DecodeUnits(t, v).used;
      DropAdvanced(v, w, k);
      SameText(t, Drop(v, k), Drop(w, k), n - 1);
    }
  }

  lemma DropAdvanced(v: seq<unit>, w: seq<unit>, k: nat)
    requires Advanced(v, w, 0)
    ensures Advanced(Drop(v, k), Drop(w, k), 0)
  {
    forall i: nat ensures At(Drop(w, k), i) == At(Drop(v, k), i) {
      assert At(w, i + k) == At(v, i + k + 0);
    }
  }

  // ---------- EncodedInputStream<UTF8, MemoryStream> ----------

  /** How far its constructor moves: each of the three bytes is skipped on its own. */
  function SkipUtf8Bom(src: seq<byte>): nat {
    var a := if ByteAt(src, 0) == 0xEF then 1 else 0;
    var b := if ByteAt(src, a) == 0xBB then a + 1 else a;
    if ByteAt(src, b) == 0xBF then b + 1 else b
  }

  method EncodedInputStreamUtf8(input: MemoryStream)
    requires input.Valid() && input.pos == 0
    modifies input
    ensures input.Valid() && input.pos == SkipUtf8Bom(input.src)
  {
    var c := input.Peek();
    if c == 0xEF { c := input.Take(); }
    c := input.Peek();
    if c == 0xBB { c := input.Take(); }
    c := input.Peek();
    if c == 0xBF { c := input.Take(); }
  }

  /** With its byte order mark a text is read from its first byte on. Without one it is too, exactly
      if its first character is not in U+F000 to U+FFFF: otherwise that character loses a byte. */
  lemma Utf8BomSkipped(s: seq<unit>)
    requires Scalars(s) && s != []
    ensures SkipUtf8Bom(Written(kUTF8, s, true)) == 3
    ensures SkipUtf8Bom(Written(kUTF8, s, false)) == 0 <==> !(0xF000 <= s[0] <= 0xFFFF)
  {
    hide EncodeText, Utf8Encode, Low, Scalar, PutAll;
    FirstBytes(kUTF8, s);
    assert s[0] <= 0x10FFFF;
    FirstByte(s[0]);
    var b := PutAll(kUTF8, EncodeText(kUTF8, s));
    assert b[0] == Low(Utf8Encode(s[0])[0]);
    assert Written(kUTF8, s, false) == b;
    var src := Written(kUTF8, s, true);
    assert src[0] == 0xEF && src[1] == 0xBB && src[2] == 0xBF;
  }
}
