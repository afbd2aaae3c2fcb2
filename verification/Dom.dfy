/** RapidJSON's DOM: values with type flags, the events they send to a handler, and the document
    handler that rebuilds them on its stack. */
module Dom {

  type flags16 = bv16

  const kNullType: flags16 := 0
  const kFalseType: flags16 := 1
  const kTrueType: flags16 := 2
  const kObjectType: flags16 := 3
  const kArrayType: flags16 := 4
  const kStringType: flags16 := 5
  const kNumberType: flags16 := 6
  const kTypeMask: flags16 := 7

  const kBoolFlag: flags16 := 0x0008
  const kNumberFlag: flags16 := 0x0010
  const kIntFlag: flags16 := 0x0020
  const kUintFlag: flags16 := 0x0040
  const kInt64Flag: flags16 := 0x0080
  const kUint64Flag: flags16 := 0x0100
  const kDoubleFlag: flags16 := 0x0200
  const kStringFlag: flags16 := 0x0400
  const kCopyFlag: flags16 := 0x0800
  const kInlineStrFlag: flags16 := 0x1000

  const kNumberIntFlag := kNumberType | kNumberFlag | kIntFlag | kInt64Flag
  const kNumberUintFlag := kNumberType | kNumberFlag | kUintFlag | kUint64Flag | kInt64Flag
  const kNumberInt64Flag := kNumberType | kNumberFlag | kInt64Flag
  const kNumberUint64Flag := kNumberType | kNumberFlag | kUint64Flag
  const kNumberDoubleFlag := kNumberType | kNumberFlag | kDoubleFlag
  const kNumberAnyFlag := kNumberType | kNumberFlag | kIntFlag | kInt64Flag | kUintFlag | kUint64Flag | kDoubleFlag
  const kConstStringFlag := kStringType | kStringFlag
  const kCopyStringFlag := kStringType | kStringFlag | kCopyFlag
  const kShortStringFlag := kStringType | kStringFlag | kCopyFlag | kInlineStrFlag

  const TWO_31 := 0x8000_0000
  const TWO_32 := 0x1_0000_0000
  const TWO_63 := 0x8000_0000_0000_0000
  const TWO_64 := 0x1_0000_0000_0000_0000

  /** The longest string that is stored inside the value itself. */
  const MAX_SHORT := 13

  /** What the union of a value holds. */
  datatype Value =
    | Plain(flags: flags16)
    | Number(flags: flags16, raw: nat)
    | Real(flags: flags16, d: real)
    | Text(flags: flags16, str: string)
    | Array(flags: flags16, elements: seq<Value>)
    | Object(flags: flags16, members: seq<Member>)

  datatype Member = Member(name: Value, value: Value)

  // ---------- numbers ----------

  predicate FitsInt(k: int) { -TWO_31 <= k < TWO_31 }
  predicate FitsUint(k: int) { 0 <= k < TWO_32 }
  predicate FitsInt64(k: int) { -TWO_63 <= k < TWO_63 }
  predicate FitsUint64(k: int) { 0 <= k < TWO_64 }

  /** The 64-bit word that stores an integer, in two's complement. */
  function Word(k: int): nat { k % TWO_64 }

  /** The members of the union read back. */
  function AsInt(raw: nat): int { if raw % TWO_32 >= TWO_31 then raw % TWO_32 - TWO_32 else raw % TWO_32 }
  function AsUint(raw: nat): int { raw % TWO_32 }
  function AsInt64(raw: nat): int { if raw >= TWO_63 then raw - TWO_64 else raw }

  function FromInt(i: int): Value
    requires FitsInt(i)
  {
    Number(if i >= 0 then kNumberIntFlag | kUintFlag | kUint64Flag else kNumberIntFlag, Word(i))
  }

  function FromUint(u: int): Value
    requires FitsUint(u)
  {
    Number(if u / TWO_31 % 2 != 0 then kNumberUintFlag else kNumberUintFlag | kIntFlag | kInt64Flag, Word(u))
  }

  function FromInt64(k: int): Value
    requires FitsInt64(k)
  {
    var f0 := kNumberInt64Flag;
    if k >= 0 then
      var f1 := f0 | kNumberUint64Flag;
      var f2 := if k / TWO_32 == 0 then f1 | kUintFlag else f1;
      Number(if k / TWO_31 == 0 then f2 | kIntFlag else f2, Word(k))
    else
      Number(if k >= -TWO_31 then f0 | kIntFlag else f0, Word(k))
  }

  function FromUint64(k: int): Value
    requires FitsUint64(k)
  {
    var f0 := kNumberUint64Flag;
    var f1 := if k / TWO_63 == 0 then f0 | kInt64Flag else f0;
    var f2 := if k / TWO_32 == 0 then f1 | kUintFlag else f1;
    Number(if k / TWO_31 == 0 then f2 | kIntFlag else f2, Word(k))
  }

  predicate Is(v: Value, flag: flags16) { v.flags & flag != 0 }

  function FlagIf(b: bool, flag: flags16): flags16 { if b then flag else 0 }

  /** A type flag for every integer type that the number fits. */
  function FlagsOf(k: int): flags16 {
    kNumberType | kNumberFlag | FlagIf(FitsInt(k), kIntFlag) | FlagIf(FitsUint(k), kUintFlag)
      | FlagIf(FitsInt64(k), kInt64Flag) | FlagIf(FitsUint64(k), kUint64Flag)
  }

  /** The one representation of an integer. */
  function Canonical(k: int): Value { Number(FlagsOf(k), Word(k)) }

  /** It has the flag of each type that the number fits, and its two's complement as the stored word. */
  lemma FlagsMean(k: int)
    ensures var v := Canonical(k);
      && (v.flags & 0x20 != 0 <==> -0x8000_0000 <= k <= 0x7FFF_FFFF)
      && (v.flags & 0x40 != 0 <==> 0 <= k <= 0xFFFF_FFFF)
      && (v.flags & 0x80 != 0 <==> -0x8000_0000_0000_0000 <= k <= 0x7FFF_FFFF_FFFF_FFFF)
      && (v.flags & 0x100 != 0 <==> 0 <= k <= 0xFFFF_FFFF_FFFF_FFFF)
      && v.flags & 0x10 != 0 && v.flags & 0x200 == 0 && v.flags & 7 == 6 && v.flags & 0xFC08 == 0
      && (0 <= k <= 0xFFFF_FFFF_FFFF_FFFF ==> v.raw == k)
      && (-0x8000_0000_0000_0000 <= k < 0 ==> v.raw == k + 0x1_0000_0000_0000_0000)
  {
    var a, b, c, d := FitsInt(k), FitsUint(k), FitsInt64(k), FitsUint64(k);
    assert a == (-0x8000_0000 <= k <= 0x7FFF_FFFF) && b == (0 <= k <= 0xFFFF_FFFF);
    assert c == (-0x8000_0000_0000_0000 <= k <= 0x7FFF_FFFF_FFFF_FFFF) && d == (0 <= k <= 0xFFFF_FFFF_FFFF_FFFF);
    hide FitsInt, FitsUint, FitsInt64, FitsUint64;
    FlagBits(a, b, c, d);
  }

  lemma FlagBits(a: bool, b: bool, c: bool, d: bool)
    ensures var f := kNumberType | kNumberFlag | FlagIf(a, kIntFlag) | FlagIf(b, kUintFlag) | FlagIf(c, kInt64Flag)
      | FlagIf(d, kUint64Flag);
      && (f & kIntFlag != 0 <==> a) && (f & kUintFlag != 0 <==> b) && (f & kInt64Flag != 0 <==> c)
      && (f & kUint64Flag != 0 <==> d)
      && f & kNumberFlag != 0 && f & kDoubleFlag == 0 && f & kTypeMask == kNumberType && f & 0xFC08 == 0
  {
  }

  /** Every integer constructor sets a type flag exactly if the value fits that type, so which one
      was used does not show. */
  lemma ConstructorsAgree(k: int)
    ensures FitsInt(k) ==> FromInt(k) == Canonical(k)
    ensures FitsUint(k) ==> FromUint(k) == Canonical(k)
    ensures FitsInt64(k) ==> FromInt64(k) == Canonical(k)
    ensures FitsUint64(k) ==> FromUint64(k) == Canonical(k)
  {
  }

  /** Each getter returns the number if it fits its type. */
  lemma GettersExact(k: int)
    requires FitsInt64(k) || FitsUint64(k)
    ensures Word(k) < TWO_64
    ensures FitsInt(k) ==> AsInt(Word(k)) == k
    ensures FitsUint(k) ==> AsUint(Word(k)) == k
    ensures FitsInt64(k) ==> AsInt64(Word(k)) == k
    ensures FitsUint64(k) ==> Word(k) == k
  {
  }

  // ---------- other values ----------

  function NullValue(): Value { Plain(kNullType) }
  function FromBool(b: bool): Value { Plain(if b then kTrueType | kBoolFlag else kFalseType | kBoolFlag) }
  function FromDouble(d: real): Value { Real(kNumberDoubleFlag, d) }

  /** SetStringRaw: a reference to the caller's string, or a copy, which is stored inline if short. */
  function FromString(s: string, copy: bool): Value {
    Text(if !copy then kConstStringFlag else if |s| <= MAX_SHORT then kShortStringFlag else kCopyStringFlag, s)
  }

  function ArrayOf(elements: seq<Value>): Value { Array(kArrayType, elements) }
  function ObjectOf(members: seq<Member>): Value { Object(kObjectType, members) }

  /** The zeroed value that the constructor from a type makes of kNumberType: a number of every type. */
  function AnyNumber(): Value { Number(kNumberAnyFlag, 0) }

  /** The constructor from a type. */
  function FromType(t: flags16): Value
    requires t <= kNumberType
  {
    if t == kNullType then NullValue()
    else if t == kFalseType || t == kTrueType then FromBool(t == kTrueType)
    else if t == kObjectType then ObjectOf([])
    else if t == kArrayType then ArrayOf([])
    else if t == kStringType then FromString("", true)
    else AnyNumber()
  }

  /** The values that constructors and document handlers make: every number has one representation,
      but zero has two more, the double and the number of every type. */
  ghost predicate Made(v: Value) {
    match v
    case Plain(flags) => flags == 0 || flags == 9 || flags == 10
    case Number(flags, raw) =>
      || (flags == 0x3F6 && raw == 0)
      || exists k :: -0x8000_0000_0000_0000 <= k <= 0xFFFF_FFFF_FFFF_FFFF && v == Canonical(k)
    case Real(flags, _) => flags == 0x216
    case Text(flags, s) => flags == 0x405 || flags == if |s| <= 13 then 0x1C05 else 0xC05
    case Array(flags, es) => flags == 4 && forall i :: 0 <= i < |es| ==> Made(es[i])
    case Object(flags, ms) =>
      flags == 3 && forall i :: 0 <= i < |ms| ==> ms[i].name.Text? && Made(ms[i].name) && Made(ms[i].value)
  }

  /** Each of the constructors makes one of these values, with what it was given in it. */
  lemma ConstructorsMake(b: bool, k: int, d: real, s: string, copy: bool)
    ensures NullValue() == Plain(0) && FromBool(b) == Plain(if b then 10 else 9) && FromDouble(d) == Real(0x216, d)
    ensures FromString(s, copy) == Text(if !copy then 0x405 else if |s| <= 13 then 0x1C05 else 0xC05, s)
    ensures AnyNumber() == Number(0x3F6, 0)
    ensures Made(NullValue()) && Made(FromBool(b)) && Made(FromDouble(d)) && Made(FromString(s, copy))
    ensures Made(AnyNumber())
    ensures FitsInt(k) ==> Made(FromInt(k))
    ensures FitsUint(k) ==> Made(FromUint(k))
    ensures FitsInt64(k) ==> Made(FromInt64(k))
    ensures FitsUint64(k) ==> Made(FromUint64(k))
  {
    ConstructorsAgree(k);
    hide FlagsOf, Word;
  }

  // ---------- the document as a handler ----------

  /** Members lie on the stack as a name followed by its value. */
  function Pairs(vs: seq<Value>): seq<Member>
    requires |vs| % 2 == 0
  {
    if vs == [] then [] else [Member(vs[0], vs[1])] + Pairs(vs[2..])
  }

  lemma {:induction false} PairsAre(vs: seq<Value>)
    requires |vs| % 2 == 0
    ensures |Pairs(vs)| == |vs| / 2
    ensures forall i :: 0 <= i < |vs| / 2 ==> Pairs(vs)[i] == Member(vs[2 * i], vs[2 * i + 1])
  {
    if vs != [] { PairsAre(vs[2..]); }
  }

  function Spread(ms: seq<Member>): (vs: seq<Value>)
    ensures |vs| == 2 * |ms|
  {
    if ms == [] then [] else Spread(ms[..|ms| - 1]) + [ms[|ms| - 1].name, ms[|ms| - 1].value]
  }

  lemma {:induction false} PairsAppend(vs: seq<Value>, a: Value, b: Value)
    requires |vs| % 2 == 0
    ensures Pairs(vs + [a, b]) == Pairs(vs) + [Member(a, b)]
    decreases |vs|
  {
    if vs == [] {
      assert vs + [a, b] == [a, b];
      assert [a, b][2..] == [];
    } else {
      assert (vs + [a, b])[2..] == vs[2..] + [a, b];
      PairsAppend(vs[2..], a, b);
    }
  }

  lemma {:induction false} PairsOfSpread(ms: seq<Member>)
    ensures Pairs(Spread(ms)) == ms
    decreases |ms|
  {
    if ms != [] {
      var n := |ms| - 1;
      PairsOfSpread(ms[..n]);
      PairsAppend(Spread(ms[..n]), ms[n].name, ms[n].value);
      assert ms == ms[..n] + [ms[n]];
    }
  }

  lemma SpreadNone()
    ensures Spread([]) == []
  {
  }

  lemma SpreadNext(ms: seq<Member>, i: nat)
    requires i < |ms|
    ensures Spread(ms[..i + 1]) == Spread(ms[..i]) + [ms[i].name, ms[i].value]
  {
    assert ms[..i + 1][..i] == ms[..i];
  }

  class GenericDocument {
    var stack_: seq<Value>

    constructor ()
      ensures stack_ == []
    {
      stack_ := [];
    }

    method Push(v: Value)
      modifies this
      ensures stack_ == old(stack_) + [v]
    {
      stack_ := stack_ + [v];
    }

    method Null() returns (ok: bool)
      modifies this
      ensures ok && stack_ == old(stack_) + [Plain(0)]
    {
      Push(NullValue());
      ok := true;
    }

    method Bool(b: bool) returns (ok: bool)
      modifies this
      ensures ok && stack_ == old(stack_) + [Plain(if b then 10 else 9)]
    {
      Push(FromBool(b));
      ok := true;
    }

    method Int(i: int) returns (ok: bool)
      requires FitsInt(i)
      modifies this
      ensures ok && stack_ == old(stack_) + [Canonical(i)]
    {
      ConstructorsAgree(i);
      Push(FromInt(i));
      ok := true;
    }

    method Uint(i: int) returns (ok: bool)
      requires FitsUint(i)
      modifies this
      ensures ok && stack_ == old(stack_) + [Canonical(i)]
    {
      ConstructorsAgree(i);
      Push(FromUint(i));
      ok := true;
    }

    method Int64(i: int) returns (ok: bool)
      requires FitsInt64(i)
      modifies this
      ensures ok && stack_ == old(stack_) + [Canonical(i)]
    {
      ConstructorsAgree(i);
      Push(FromInt64(i));
      ok := true;
    }

    method Uint64(i: int) returns (ok: bool)
      requires FitsUint64(i)
      modifies this
      ensures ok && stack_ == old(stack_) + [Canonical(i)]
    {
      ConstructorsAgree(i);
      Push(FromUint64(i));
      ok := true;
    }

    method Double(d: real) returns (ok: bool)
      modifies this
      ensures ok && stack_ == old(stack_) + [Real(0x216, d)]
    {
      Push(FromDouble(d));
      ok := true;
    }

    method String(str: string, copy: bool) returns (ok: bool)
      modifies this
      ensures ok && stack_ == old(stack_) + [Text(if !copy then 0x405 else if |str| <= 13 then 0x1C05 else 0xC05, str)]
    {
      Push(FromString(str, copy));
      ok := true;
    }

    method StartObject() returns (ok: bool)
      modifies this
      ensures ok && stack_ == old(stack_) + [Object(3, [])]
    {
      Push(ObjectOf([]));
      ok := true;
    }

    method Key(str: string, copy: bool) returns (ok: bool)
      modifies this
      ensures ok && stack_ == old(stack_) + [Text(if !copy then 0x405 else if |str| <= 13 then 0x1C05 else 0xC05, str)]
    {
      ok := String(str, copy);
    }

    /** Pops the members and puts them into the value that StartObject pushed. */
    method EndObject(memberCount: nat) returns (ok: bool)
      requires |stack_| >= 2 * memberCount + 1
      modifies this
      ensures ok && var top := |old(stack_)| - 2 * memberCount;
        && |stack_| == top && stack_[..top - 1] == old(stack_)[..top - 1] && stack_[top - 1].Object?
        && stack_[top - 1].flags == 3 && |stack_[top - 1].members| == memberCount
        && forall i :: 0 <= i < memberCount ==>
             stack_[top - 1].members[i] == Member(old(stack_)[top + 2 * i], old(stack_)[top + 2 * i + 1])
      ensures var top := |old(stack_)| - 2 * memberCount;
        stack_ == old(stack_)[..top - 1] + [ObjectOf(Pairs(old(stack_)[top..]))]
    {
      var top := |stack_| - 2 * memberCount;
      var members := Pairs(stack_[top..]);
      PairsAre(stack_[top..]);
      stack_ := stack_[..top];
      stack_ := stack_[top - 1 := ObjectOf(members)];
      ok := true;
    }

    method StartArray() returns (ok: bool)
      modifies this
      ensures ok && stack_ == old(stack_) + [Array(4, [])]
    {
      Push(ArrayOf([]));
      ok := true;
    }

    /** Pops the elements and puts them into the value that StartArray pushed. */
    method EndArray(elementCount: nat) returns (ok: bool)
      requires |stack_| >= elementCount + 1
      modifies this
      ensures ok && var top := |old(stack_)| - elementCount;
        stack_ == old(stack_)[..top - 1] + [Array(4, old(stack_)[top..])]
    {
      var top := |stack_| - elementCount;
      var elements := stack_[top..];
      stack_ := stack_[..top];
      stack_ := stack_[top - 1 := ArrayOf(elements)];
      ok := true;
    }
  }

  // ---------- what comes back ----------

  /** The union read as a double; all bits zero are 0.0. */
  function AsDouble(v: Value): real
    requires v.Real? || (v.Number? && v.raw == 0)
  {
    if v.Real? then v.d else 0.0
  }

  /** What a document makes of the events of a value: Accept asks for doubles first, so a number of every
      type comes back as the double zero. */
  function Resent(v: Value): Value {
    match v
    case Number(flags, _) => if flags == kNumberAnyFlag then FromDouble(0.0) else v
    case Array(_, es) => ArrayOf(seq(|es|, i requires 0 <= i < |es| => Resent(es[i])))
    case Object(_, ms) => ObjectOf(seq(|ms|, i requires 0 <= i < |ms| => Member(ms[i].name, Resent(ms[i].value))))
    case _ => v
  }

  /** A number of every type, at any depth. */
  predicate HoldsAnyNumber(v: Value) {
    match v
    case Number(flags, _) => flags == kNumberAnyFlag
    case Array(_, es) => exists i :: 0 <= i < |es| && HoldsAnyNumber(es[i])
    case Object(_, ms) => exists i :: 0 <= i < |ms| && HoldsAnyNumber(ms[i].value)
    case _ => false
  }

  /** The number that a value stands for, read at the widest type it has a flag for. */
  function Numeric(v: Value): real
    requires (v.Number? && (Is(v, kDoubleFlag) ==> v.raw == 0)) || v.Real?
  {
    if v.Real? || Is(v, kDoubleFlag) then AsDouble(v)
    else if Is(v, kUint64Flag) then v.raw as real else AsInt64(v.raw) as real
  }

  lemma NumericExact(k: int)
    requires FitsInt64(k) || FitsUint64(k)
    ensures !Is(Canonical(k), kDoubleFlag) && Numeric(Canonical(k)) == k as real
  {
    FlagsMean(k);
    GettersExact(k);
    hide FlagsOf, Word, AsInt64;
  }

  /** Equal in structure, strings and numbers, whatever the flags of the numbers say. */
  ghost predicate SameContent(v: Value, w: Value) {
    match v
    case Number(_, _) =>
      && (w.Number? || w.Real?) && (Is(v, kDoubleFlag) ==> v.raw == 0)
      && (w.Number? && Is(w, kDoubleFlag) ==> w.raw == 0)
      && Numeric(v) == Numeric(w)
    case Array(_, es) =>
      w.Array? && |w.elements| == |es| && forall i :: 0 <= i < |es| ==> SameContent(es[i], w.elements[i])
    case Object(_, ms) =>
      && w.Object? && |w.members| == |ms|
      && forall i :: 0 <= i < |ms| ==> ms[i].name == w.members[i].name && SameContent(ms[i].value, w.members[i].value)
    case _ => v == w
  }

  lemma AnyNumberIs()
    ensures Is(AnyNumber(), kDoubleFlag) && Is(AnyNumber(), kIntFlag) && Is(AnyNumber(), kUint64Flag)
    ensures AnyNumber().raw == 0
    ensures forall d :: Is(FromDouble(d), kDoubleFlag) && !Is(FromDouble(d), kIntFlag)
  {
  }

  /** What comes back has the same structure, strings and numbers, and comes back as it is from then on. */
  lemma {:induction false} ResentSame(v: Value)
    requires Made(v)
    ensures SameContent(v, Resent(v)) && Made(Resent(v)) && !HoldsAnyNumber(Resent(v))
    decreases v
  {
    match v
    case Number(flags, raw) => ResentNumber(v);
    case Array(_, es) => forall i | 0 <= i < |es| ensures ResentOk(es[i]) { ResentSame(es[i]); }
    case Object(_, ms) => forall i | 0 <= i < |ms| ensures ResentOk(ms[i].value) { ResentSame(ms[i].value); }
    case _ =>
  }

  ghost predicate ResentOk(v: Value) {
    SameContent(v, Resent(v)) && Made(Resent(v)) && !HoldsAnyNumber(Resent(v))
  }

  lemma ResentNumber(v: Value)
    requires v.Number? && Made(v)
    ensures ResentOk(v) && (Resent(v) == v <==> v.flags != kNumberAnyFlag)
  {
    AnyNumberIs();
    if v != AnyNumber() {
      var k :| (FitsInt64(k) || FitsUint64(k)) && v == Canonical(k);
      NumericExact(k);
    }
  }

  /** Exactly the values that hold no number of every type come back as they were, flags included. */
  lemma {:induction false} ResentIff(v: Value)
    requires Made(v)
    ensures Resent(v) == v <==> !HoldsAnyNumber(v)
    decreases v
  {
    match v
    case Number(flags, raw) => ResentNumber(v);
    case Array(_, es) =>
      forall i | 0 <= i < |es| ensures Resent(es[i]) == es[i] <==> !HoldsAnyNumber(es[i]) { ResentIff(es[i]); }
      assert Resent(v) == v <==> Resent(v).elements == es;
      assert forall i :: 0 <= i < |es| ==> Resent(v).elements[i] == Resent(es[i]);
    case Object(_, ms) =>
      forall i | 0 <= i < |ms|
        ensures Resent(ms[i].value) == ms[i].value <==> !HoldsAnyNumber(ms[i].value)
      {
        ResentIff(ms[i].value);
      }
      assert Resent(v) == v <==> Resent(v).members == ms;
      assert forall i :: 0 <= i < |ms| ==> Resent(v).members[i] == Member(ms[i].name, Resent(ms[i].value));
    case _ =>
  }

  /** The value for which this fails: Value(kNumberType) is an int before and no int afterwards. */
  lemma AnyNumberChanges()
    ensures Made(AnyNumber()) && Is(AnyNumber(), kIntFlag) && !Is(Resent(AnyNumber()), kIntFlag)
    ensures FromType(0) == Plain(0) && FromType(1) == Plain(9) && FromType(2) == Plain(10)
    ensures FromType(3) == Object(3, [])
    ensures FromType(4) == Array(4, []) && FromType(5) == Text(0x1C05, "") && FromType(6) == Number(0x3F6, 0)
    ensures forall t: flags16 :: t <= kNumberType ==>
      Made(FromType(t)) && (Resent(FromType(t)) == FromType(t) <==> t != kNumberType)
  {
    AnyNumberIs();
    forall t: flags16 | t <= kNumberType
      ensures Made(FromType(t)) && (Resent(FromType(t)) == FromType(t) <==> t != kNumberType)
    {
      assert Made(FromType(t));
      ResentIff(FromType(t));
    }
  }

  // ---------- Accept ----------

  /** Whatever is on the stack, sending a value's events to a document leaves exactly one more value
      there: the value itself, but for numbers of every type. */
  method Accept(v: Value, handler: GenericDocument) returns (ok: bool)
    requires Made(v)
    modifies handler
    ensures ok && handler.stack_ == old(handler.stack_) + [Resent(v)]
    decreases v, 1
  {
    hide FlagsOf, Word;
    match v {
      case Plain(flags) => ok := AcceptPlain(v, handler);
      case Number(flags, raw) => ok := AcceptNumber(v, handler);
      case Real(flags, d) => ok := AcceptNumber(v, handler);
      case Text(flags, str) => ok := handler.String(str, Is(v, kCopyFlag));
      case Array(flags, elements) => ok := AcceptArray(v, handler);
      case Object(flags, members) => ok := AcceptObject(v, handler);
    }
  }

  /** The cases of the switch on the type bits without contents. */
  method AcceptPlain(v: Value, handler: GenericDocument) returns (ok: bool)
    requires v.Plain? && Made(v)
    modifies handler
    ensures ok && handler.stack_ == old(handler.stack_) + [Resent(v)]
  {
    var t := v.flags & kTypeMask;
    if t == kNullType {
      ok := handler.Null();
    } else if t == kFalseType {
      ok := handler.Bool(false);
    } else {
      ok := handler.Bool(true);
    }
  }

  /** The first event that the flags allow. */
  method AcceptNumber(v: Value, handler: GenericDocument) returns (ok: bool)
    requires (v.Number? || v.Real?) && Made(v)
    modifies handler
    ensures ok && handler.stack_ == old(handler.stack_) + [Resent(v)]
  {
    hide FlagsOf, Word, AsInt, AsUint, AsInt64;
    AnyNumberIs();
    if Is(v, kDoubleFlag) {
      NoDoubleFlag(v);
      ok := handler.Double(AsDouble(v));
      return;
    }
    ghost var k :| -0x8000_0000_0000_0000 <= k <= 0xFFFF_FFFF_FFFF_FFFF && v == Canonical(k);
    FlagsMean(k);
    GettersExact(k);
    if Is(v, kIntFlag) {
      ok := handler.Int(AsInt(v.raw));
    } else if Is(v, kUintFlag) {
      ok := handler.Uint(AsUint(v.raw));
    } else if Is(v, kInt64Flag) {
      ok := handler.Int64(AsInt64(v.raw));
    } else {
      ok := handler.Uint64(v.raw);
    }
  }

  /** Among the numbers that are made, doubles and numbers of every type have the double flag. */
  lemma NoDoubleFlag(v: Value)
    requires (v.Number? || v.Real?) && Made(v) && Is(v, kDoubleFlag)
    ensures v.Real? || v == AnyNumber()
  {
    if v.Number? && v != AnyNumber() {
      var k :| (FitsInt64(k) || FitsUint64(k)) && v == Canonical(k);
      FlagsMean(k);
    }
  }

  method AcceptArray(v: Value, handler: GenericDocument) returns (ok: bool)
    requires v.Array? && Made(v)
    modifies handler
    ensures ok && handler.stack_ == old(handler.stack_) + [Resent(v)]
    decreases v, 0
  {
    var es := v.elements;
    ok := handler.StartArray();
    ghost var base := handler.stack_;
    var i := 0;
    while i < |es|
      invariant 0 <= i <= |es| && handler.stack_ == base + Resent(v).elements[..i]
    {
      ok := Accept(es[i], handler);
      assert Resent(v).elements[..i + 1] == Resent(v).elements[..i] + [Resent(es[i])];
      i := i + 1;
    }
    assert Resent(v).elements[..|es|] == Resent(v).elements;
    ok := handler.EndArray(|es|);
  }

  method AcceptObject(v: Value, handler: GenericDocument) returns (ok: bool)
    requires v.Object? && Made(v)
    modifies handler
    ensures ok && handler.stack_ == old(handler.stack_) + [Resent(v)]
    decreases v, 0
  {
    hide Spread, Pairs;
    var ms := v.members;
    ghost var rs := Resent(v).members;
    SpreadNone();
    assert rs[..0] == [];
    ok := handler.StartObject();
    ghost var base := handler.stack_;
    var i := 0;
    while i < |ms|
      invariant 0 <= i <= |ms| && handler.stack_ == base + Spread(rs[..i])
    {
      ok := AcceptKey(ms[i].name, handler);
      ok := Accept(ms[i].value, handler);
      SpreadNext(rs, i);
      i := i + 1;
    }
    assert rs[..|ms|] == rs;
    PairsOfSpread(rs);
    ok := handler.EndObject(|ms|);
  }

  method AcceptKey(name: Value, handler: GenericDocument) returns (ok: bool)
    requires name.Text? && Made(name)
    modifies handler
    ensures ok && handler.stack_ == old(handler.stack_) + [name]
  {
    ok := handler.Key(name.str, Is(name, kCopyFlag));
  }
}
