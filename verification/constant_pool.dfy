/** The start of a class file as the `ClassFile` constructor reads it
    (classfile.cpp): magic number, version, constant pool, access flags,
    this and super class, and the interface count the transpiler requires
    to be zero; plus `readAttribute`. The layout is that of The Java Virtual
    Machine Specification, sections 4.1 and 4.4.

    Every parser has an encoder as its partner, and the round-trip lemmas
    state that the parser inverts it. */
module ClassFile {
  import opened Wrappers
  import opened Bytes

  /** A constant-pool entry (JVMS 4.4). `Empty` is the unusable slot 0 and
      the slot after every `Long` and `Double`. `Float` and `Double` keep
      their bit patterns. */
  datatype Constant =
    | Empty
    | Utf8(bytes: Buffer)
    | Integer(value: int)
    | Float(floatBits: u32)
    | Long(value: int)
    | Double(doubleBits: u64)
    | Class(nameIndex: u16)
    | String(stringIndex: u16)
    | Fieldref(classIndex: u16, nameAndTypeIndex: u16)
    | Methodref(classIndex: u16, nameAndTypeIndex: u16)
    | InterfaceMethodref(classIndex: u16, nameAndTypeIndex: u16)
    | NameAndType(nameIndex: u16, descriptorIndex: u16)
    | MethodHandle(referenceKind: byte, referenceIndex: u16)
    | MethodType(descriptorIndex: u16)
    | InvokeDynamic(bootstrapMethodAttrIndex: u16, nameAndTypeIndex: u16)

  /** `Long` and `Double` take two slots (JVMS 4.4.5). */
  predicate Wide(c: Constant)
  {
    c.Long? || c.Double?
  }

  /** The tag byte of each kind (`CONSTANT_*` in globals.h). */
  function Tag(c: Constant): byte
  {
    match c
    case Empty => 0
    case Utf8(_) => 1
    case Integer(_) => 3
    case Float(_) => 4
    case Long(_) => 5
    case Double(_) => 6
    case Class(_) => 7
    case String(_) => 8
    case Fieldref(_, _) => 9
    case Methodref(_, _) => 10
    case InterfaceMethodref(_, _) => 11
    case NameAndType(_, _) => 12
    case MethodHandle(_, _) => 15
    case MethodType(_) => 16
    case InvokeDynamic(_, _) => 18
  }

  predicate KnownTag(t: byte)
  {
    || t == 1 || t == 3 || t == 4 || t == 5 || t == 6 || t == 7 || t == 8
    || t == 9 || t == 10 || t == 11 || t == 12 || t == 15 || t == 16 || t == 18
  }

  const TwoTo32: nat := 0x1_0000_0000
  const TwoTo63: nat := 0x8000_0000_0000_0000

  /** Two consecutive u2 indices, as the four reference kinds hold them. */
  function ReadPair(buf: Buffer): (r: Result<(u16, u16, Buffer)>)
    ensures r.Ok? <==> |buf| >= 4
    ensures r.Ok? ==> buf == Be16(r.value.0) + Be16(r.value.1) + r.value.2
  {
    var a :- Read16(buf);
    var b :- Read16(a.rest);
    Ok((a.value, b.value, b.rest))
  }

  /** A u4 high half then a u4 low half, as `Long` and `Double` hold them. */
  function ReadWide(buf: Buffer): (r: Result<Read<u64>>)
    ensures r.Ok? <==> |buf| >= 8
  {
    var h :- Read32(buf);
    var l :- Read32(h.rest);
    Ok(Read(h.value * TwoTo32 + l.value, l.rest))
  }

  /** One entry: its tag, then the fields that tag calls for. An unknown
      tag fails with the tag's value. */
  function ParseConstant(buf: Buffer): (r: Result<Read<Constant>>)
    ensures |buf| >= 1 && !KnownTag(buf[0]) ==> r == Fail(UnknownConstantTag(buf[0]))
    ensures r.Ok? ==> |buf| >= 1 && buf[0] == Tag(r.value.value) && !r.value.value.Empty?
  {
    var tag :- Read8(buf);
    ParseBody(tag.value, tag.rest)
  }

  function ParseBody(t: byte, b: Buffer): (r: Result<Read<Constant>>)
    ensures !KnownTag(t) ==> r == Fail(UnknownConstantTag(t))
    ensures r.Ok? ==> t == Tag(r.value.value) && !r.value.value.Empty?
  {
    if t <= 6 then ParseValueConstant(t, b) else ParseReferenceConstant(t, b)
  }

  /** Tags up to 6: text and numbers. */
  function ParseValueConstant(t: byte, b: Buffer): (r: Result<Read<Constant>>)
    requires t <= 6
    ensures !KnownTag(t) ==> r == Fail(UnknownConstantTag(t))
    ensures r.Ok? ==> t == Tag(r.value.value)
  {
    if t == 1 then ParseUtf8(b)
    else if t == 3 then ParseInteger(b)
    else if t == 4 then ParseFloat(b)
    else if t == 5 then ParseLong(b)
    else if t == 6 then ParseDouble(b)
    else Fail(UnknownConstantTag(t))
  }

  /** Tags from 7: references to other entries. */
  function ParseReferenceConstant(t: byte, b: Buffer): (r: Result<Read<Constant>>)
    requires t > 6
    ensures !KnownTag(t) ==> r == Fail(UnknownConstantTag(t))
    ensures r.Ok? ==> t == Tag(r.value.value)
  {
    if t == 7 || t == 8 || t == 16 then ParseIndexConstant(t, b)
    else if t == 9 || t == 10 || t == 11 || t == 12 || t == 18 then ParsePairConstant(t, b)
    else if t == 15 then ParseMethodHandle(b)
    else Fail(UnknownConstantTag(t))
  }

  /** `CONSTANT_Utf8`: a u2 length and that many bytes. */
  function ParseUtf8(b: Buffer): (r: Result<Read<Constant>>)
    ensures r.Ok? ==> Tag(r.value.value) == 1
  {
    var len :- Read16(b);
    var bytes :- ReadBytes(len.rest, len.value);
    Ok(Read(Utf8(bytes.value), bytes.rest))
  }

  /** `CONSTANT_Integer`: a u4 read as a signed 32-bit value. */
  function ParseInteger(b: Buffer): (r: Result<Read<Constant>>)
    ensures r.Ok? ==> Tag(r.value.value) == 3 && -0x8000_0000 <= r.value.value.value < 0x8000_0000
  {
    var v :- ReadS32(b);
    Ok(Read(Integer(v.value), v.rest))
  }

  function ParseFloat(b: Buffer): (r: Result<Read<Constant>>)
    ensures r.Ok? ==> Tag(r.value.value) == 4
  {
    var v :- Read32(b);
    Ok(Read(Float(v.value), v.rest))
  }

  /** `CONSTANT_Long`: `(s8{h} << 32) | l`, a signed 64-bit value. */
  function ParseLong(b: Buffer): (r: Result<Read<Constant>>)
    ensures r.Ok? ==> Tag(r.value.value) == 5
    ensures r.Ok? ==> -0x8000_0000_0000_0000 <= r.value.value.value < 0x8000_0000_0000_0000
  {
    var v :- ReadWide(b);
    Ok(Read(Long(Signed(v.value, TwoTo63)), v.rest))
  }

  /** `CONSTANT_Double`, kept as its bits. */
  function ParseDouble(b: Buffer): (r: Result<Read<Constant>>)
    ensures r.Ok? ==> Tag(r.value.value) == 6
  {
    var v :- ReadWide(b);
    Ok(Read(Double(v.value), v.rest))
  }

  /** The kinds made of one u2 index: `Class`, `String`, `MethodType`. */
  function ParseIndexConstant(t: byte, b: Buffer): (r: Result<Read<Constant>>)
    requires t == 7 || t == 8 || t == 16
    ensures r.Ok? ==> Tag(r.value.value) == t
  {
    var v :- Read16(b);
    Ok(Read(if t == 7 then Class(v.value) else if t == 8 then String(v.value) else MethodType(v.value), v.rest))
  }

  function ParsePairConstant(t: byte, b: Buffer): (r: Result<Read<Constant>>)
    requires t == 9 || t == 10 || t == 11 || t == 12 || t == 18
    ensures r.Ok? ==> Tag(r.value.value) == t
  {
    var p :- ReadPair(b);
    Ok(Read(PairConstant(t, p.0, p.1), p.2))
  }

  /** `CONSTANT_MethodHandle`: a u1 kind, then a u2 index. */
  function ParseMethodHandle(b: Buffer): (r: Result<Read<Constant>>)
    ensures r.Ok? ==> Tag(r.value.value) == 15
  {
    var k :- Read8(b);
    var i :- Read16(k.rest);
    Ok(Read(MethodHandle(k.value, i.value), i.rest))
  }

  /** The kinds made of two u2 indices. */
  function PairConstant(t: byte, a: u16, b: u16): (c: Constant)
    requires t == 9 || t == 10 || t == 11 || t == 12 || t == 18
    ensures Tag(c) == t
  {
    if t == 9 then Fieldref(a, b)
    else if t == 10 then Methodref(a, b)
    else if t == 11 then InterfaceMethodref(a, b)
    else if t == 12 then NameAndType(a, b)
    else InvokeDynamic(a, b)
  }

  /** Constants a class file can hold: not the empty slot, a UTF-8 body
      shorter than 65536 bytes, integers in their signed ranges. */
  predicate Encodable(c: Constant)
  {
    match c
    case Empty => false
    case Utf8(bs) => |bs| < 0x1_0000
    case Integer(v) => -0x8000_0000 <= v < 0x8000_0000
    case Long(v) => -0x8000_0000_0000_0000 <= v < 0x8000_0000_0000_0000
    case _ => true
  }

  function EncodeWide(v: u64): Buffer
  {
    Be32(v / TwoTo32) + Be32(v % TwoTo32)
  }

  /** The bytes after the tag. */
  function Payload(c: Constant): Buffer
    requires Encodable(c)
  {
    match c
    case Utf8(bs) => Be16(|bs|) + bs
    case Integer(v) => Be32(Unsigned(v, 0x8000_0000))
    case Float(bits) => Be32(bits)
    case Long(v) => EncodeWide(Unsigned(v, TwoTo63))
    case Double(bits) => EncodeWide(bits)
    case Class(n) => Be16(n)
    case String(n) => Be16(n)
    case MethodType(n) => Be16(n)
    case MethodHandle(k, i) => [k] + Be16(i)
    case Fieldref(a, b) => Be16(a) + Be16(b)
    case Methodref(a, b) => Be16(a) + Be16(b)
    case InterfaceMethodref(a, b) => Be16(a) + Be16(b)
    case NameAndType(a, b) => Be16(a) + Be16(b)
    case InvokeDynamic(a, b) => Be16(a) + Be16(b)
  }

  function EncodeConstant(c: Constant): Buffer
    requires Encodable(c)
  {
    [Tag(c)] + Payload(c)
  }

  lemma ReadPairRoundTrip(a: u16, b: u16, rest: Buffer)
    ensures ReadPair(Be16(a) + Be16(b) + rest) == Ok((a, b, rest))
  {
    assert Be16(a) + Be16(b) + rest == Be16(a) + (Be16(b) + rest);
    Read16Be16(a, Be16(b) + rest);
    Read16Be16(b, rest);
  }

  lemma ReadWideRoundTrip(v: u64, rest: Buffer)
    ensures ReadWide(EncodeWide(v) + rest) == Ok(Read(v, rest))
  {
    var h, l := v / TwoTo32, v % TwoTo32;
    assert EncodeWide(v) + rest == Be32(h) + (Be32(l) + rest);
    Read32Be32(h, Be32(l) + rest);
    Read32Be32(l, rest);
  }

  lemma Utf8RoundTrip(bs: Buffer, rest: Buffer)
    requires |bs| < 0x1_0000
    ensures ParseUtf8(Be16(|bs|) + bs + rest) == Ok(Read(Utf8(bs), rest))
  {
    assert Be16(|bs|) + bs + rest == Be16(|bs|) + (bs + rest);
    Read16Be16(|bs|, bs + rest);
    assert (bs + rest)[..|bs|] == bs && (bs + rest)[|bs|..] == rest;
  }

  lemma LongRoundTrip(v: int, rest: Buffer)
    requires -0x8000_0000_0000_0000 <= v < 0x8000_0000_0000_0000
    ensures ParseLong(EncodeWide(Unsigned(v, TwoTo63)) + rest) == Ok(Read(Long(v), rest))
  {
    ReadWideRoundTrip(Unsigned(v, TwoTo63), rest);
    SignedUnsigned(v, TwoTo63);
  }

  lemma MethodHandleRoundTrip(k: byte, i: u16, rest: Buffer)
    ensures ParseMethodHandle([k] + Be16(i) + rest) == Ok(Read(MethodHandle(k, i), rest))
  {
    assert ([k] + Be16(i) + rest)[1..] == Be16(i) + rest;
    Read16Be16(i, rest);
  }

  predicate IndexKind(c: Constant)
  {
    c.Class? || c.String? || c.MethodType?
  }

  predicate PairKind(c: Constant)
  {
    c.Fieldref? || c.Methodref? || c.InterfaceMethodref? || c.NameAndType? || c.InvokeDynamic?
  }

  lemma IndexBodyRoundTrip(c: Constant, rest: Buffer)
    requires IndexKind(c)
    ensures ParseBody(Tag(c), Payload(c) + rest) == Ok(Read(c, rest))
  {
    match c
    case Class(n) => Read16Be16(n, rest);
    case String(n) => Read16Be16(n, rest);
    case MethodType(n) => Read16Be16(n, rest);
  }

  lemma PairBodyRoundTrip(c: Constant, rest: Buffer)
    requires PairKind(c)
    ensures ParseBody(Tag(c), Payload(c) + rest) == Ok(Read(c, rest))
  {
    var t := Tag(c);
    match c
    case Fieldref(x, y) => PairConstantRoundTrip(t, x, y, rest);
    case Methodref(x, y) => PairConstantRoundTrip(t, x, y, rest);
    case InterfaceMethodref(x, y) => PairConstantRoundTrip(t, x, y, rest);
    case NameAndType(x, y) => PairConstantRoundTrip(t, x, y, rest);
    case InvokeDynamic(x, y) => PairConstantRoundTrip(t, x, y, rest);
  }

  lemma PairConstantRoundTrip(t: byte, x: u16, y: u16, rest: Buffer)
    requires t == 9 || t == 10 || t == 11 || t == 12 || t == 18
    ensures ParseBody(t, Be16(x) + Be16(y) + rest) == Ok(Read(PairConstant(t, x, y), rest))
  {
    ReadPairRoundTrip(x, y, rest);
  }

  lemma NumericBodyRoundTrip(c: Constant, rest: Buffer)
    requires Encodable(c) && (c.Integer? || c.Float? || c.Long? || c.Double?)
    ensures ParseBody(Tag(c), Payload(c) + rest) == Ok(Read(c, rest))
  {
    match c
    case Integer(v) => ReadS32RoundTrip(v, rest);
    case Float(bits) => Read32Be32(bits, rest);
    case Long(v) => LongRoundTrip(v, rest);
    case Double(bits) => ReadWideRoundTrip(bits, rest);
  }

  lemma ParseBodyRoundTrip(c: Constant, rest: Buffer)
    requires Encodable(c)
    ensures ParseBody(Tag(c), Payload(c) + rest) == Ok(Read(c, rest))
  {
    if c.Utf8? {
      Utf8RoundTrip(c.bytes, rest);
    } else if c.MethodHandle? {
      MethodHandleRoundTrip(c.referenceKind, c.referenceIndex, rest);
    } else if IndexKind(c) {
      IndexBodyRoundTrip(c, rest);
    } else if PairKind(c) {
      PairBodyRoundTrip(c, rest);
    } else {
      NumericBodyRoundTrip(c, rest);
    }
  }

  /** Every constant the encoder writes is read back, and nothing more. */
  lemma ParseConstantRoundTrip(c: Constant, rest: Buffer)
    requires Encodable(c)
    ensures ParseConstant(EncodeConstant(c) + rest) == Ok(Read(c, rest))
  {
    ParseConstantSplit(Tag(c), Payload(c), rest);
    ParseBodyRoundTrip(c, rest);
  }

  /** The tag byte selects the body parser for what follows it. */
  lemma ParseConstantSplit(t: byte, payload: Buffer, rest: Buffer)
    ensures ParseConstant([t] + payload + rest) == ParseBody(t, payload + rest)
  {
    assert ([t] + payload + rest)[1..] == payload + rest;
  }

  /* ---------------------------------------------------------------- */
  /* The pool                                                         */
  /* ---------------------------------------------------------------- */

  /** The pool as the constructor lays it out: every constant is followed
      by an `Empty` slot exactly when it is wide, so the pool never starts
      with an `Empty` slot and never ends on a wide constant. */
  predicate WellLaid(pool: seq<Constant>)
    decreases |pool|
  {
    if |pool| == 0 then true
    else if pool[0].Empty? then false
    else if Wide(pool[0]) then |pool| >= 2 && pool[1].Empty? && WellLaid(pool[2..])
    else WellLaid(pool[1..])
  }

  /** Slot by slot: `Empty` exactly after a wide constant, never first, and
      a wide constant never last. */
  predicate SlotsAgree(pool: seq<Constant>)
  {
    && (|pool| > 0 ==> !pool[0].Empty? && !Wide(pool[|pool| - 1]))
    && forall k :: 0 < k < |pool| ==> (pool[k].Empty? <==> Wide(pool[k - 1]))
  }

  /** The entries of one constant: the constant, then an empty slot if it
      is wide. */
  function Entries(c: Constant): (es: seq<Constant>)
    ensures |es| == if Wide(c) then 2 else 1
  {
    if Wide(c) then [c, Empty] else [c]
  }

  lemma WellLaidCons(c: Constant, more: seq<Constant>)
    requires !c.Empty? && WellLaid(more)
    ensures WellLaid(Entries(c) + more)
  {
    var es := Entries(c) + more;
    assert es[|Entries(c)|..] == more;
  }

  /** The layout read constant by constant is the layout read slot by
      slot, in both directions. */
  lemma {:induction false} WellLaidSlots(pool: seq<Constant>)
    ensures WellLaid(pool) <==> SlotsAgree(pool)
    decreases |pool|
  {
    if |pool| > 0 && !pool[0].Empty? {
      var n := if Wide(pool[0]) then 2 else 1;
      if n <= |pool| {
        var tail := pool[n..];
        WellLaidSlots(tail);
        if n == 1 || pool[1].Empty? {
          SlotsShift(pool, n);
        }
      }
    }
  }

  /** Slot agreement of a pool whose first constant is laid out correctly
      is slot agreement of what follows that constant. */
  lemma SlotsShift(pool: seq<Constant>, n: nat)
    requires 0 < n <= |pool| && !pool[0].Empty?
    requires n == if Wide(pool[0]) then 2 else 1
    requires n == 2 ==> pool[1].Empty?
    ensures SlotsAgree(pool) <==> SlotsAgree(pool[n..])
  {
    var tail := pool[n..];
    if SlotsAgree(tail) {
      forall k | 0 < k < |pool|
        ensures pool[k].Empty? <==> Wide(pool[k - 1])
      {
        if k > n {
          assert pool[k] == tail[k - n] && pool[k - 1] == tail[k - n - 1];
        } else if k == n && |tail| > 0 {
          assert pool[k] == tail[0];
        }
      }
    }
    if SlotsAgree(pool) && |tail| > 0 {
      forall k | 0 < k < |tail|
        ensures tail[k].Empty? <==> Wide(tail[k - 1])
      {
        assert tail[k] == pool[k + n] && tail[k - 1] == pool[k + n - 1];
      }
      assert tail[0] == pool[n];
    }
  }

  /** The loop `for (int i = 0; i < constant_pool_count - 1; ++i)`, whose
      body adds one more to `i` after a wide constant. `i` is an `int`, so a
      count of 0 runs no iteration. A wide constant in the last slot makes
      the loop exit with one entry more than the count announces. */
  function ParseEntries(buf: Buffer, i: int, count: int): (r: Result<Read<seq<Constant>>>)
    ensures r.Ok? ==> WellLaid(r.value.value)
    ensures r.Ok? && i >= count - 1 ==> r.value.value == []
    ensures r.Ok? && i < count - 1 ==> count - 1 - i <= |r.value.value| <= count - i
    decreases count - i
  {
    if i >= count - 1 then Ok(Read([], buf))
    else
      match ParseConstant(buf)
      case Fail(e) => Fail(e)
      case Ok(c) => Prepend(c.value, ParseEntries(c.rest, i + |Entries(c.value)|, count))
  }

  /** The entries of `c` in front of the entries read after it. */
  function Prepend(c: Constant, r: Result<Read<seq<Constant>>>): (p: Result<Read<seq<Constant>>>)
    requires !c.Empty?
    requires r.Ok? ==> WellLaid(r.value.value)
    ensures p.Ok? <==> r.Ok?
    ensures p.Ok? ==> WellLaid(p.value.value) && |p.value.value| == |Entries(c)| + |r.value.value|
  {
    match r
    case Fail(e) => Fail(e)
    case Ok(more) =>
      WellLaidCons(c, more.value);
      Ok(Read(Entries(c) + more.value, more.rest))
  }

  /** Slots a sequence of constants occupies. */
  function Slots(cs: seq<Constant>): nat
  {
    if |cs| == 0 then 0 else |Entries(cs[0])| + Slots(cs[1..])
  }

  /** The pool entries of a sequence of constants. */
  function Layout(cs: seq<Constant>): seq<Constant>
  {
    if |cs| == 0 then [] else Entries(cs[0]) + Layout(cs[1..])
  }

  predicate AllEncodable(cs: seq<Constant>)
  {
    forall k :: 0 <= k < |cs| ==> Encodable(cs[k])
  }

  function EncodeAll(cs: seq<Constant>): Buffer
    requires AllEncodable(cs)
  {
    if |cs| == 0 then [] else EncodeConstant(cs[0]) + EncodeAll(cs[1..])
  }

  lemma {:induction false} LayoutFacts(cs: seq<Constant>)
    requires AllEncodable(cs)
    ensures |Layout(cs)| == Slots(cs)
    ensures WellLaid(Layout(cs))
    decreases |cs|
  {
    if |cs| > 0 {
      LayoutFacts(cs[1..]);
      WellLaidCons(cs[0], Layout(cs[1..]));
    }
  }

  lemma {:induction false} SlotsAppend(cs: seq<Constant>, c: Constant)
    ensures Slots(cs + [c]) == Slots(cs) + |Entries(c)|
    decreases |cs|
  {
    if |cs| == 0 {
      assert cs + [c] == [c];
    } else {
      assert (cs + [c])[1..] == cs[1..] + [c];
      SlotsAppend(cs[1..], c);
    }
  }

  /** The count ends inside the last constant: either right after it (the
      layout the JVMS prescribes) or, for a wide last constant, in its
      second slot. With no constants the loop must not run at all. */
  predicate Fits(cs: seq<Constant>, i: int, count: int)
  {
    if |cs| == 0 then i >= count - 1
    else i + Slots(cs) == count - 1 || (Wide(cs[|cs| - 1]) && i + Slots(cs) == count)
  }

  lemma {:induction false} FitsStep(cs: seq<Constant>, i: int, count: int)
    requires |cs| > 0 && Fits(cs, i, count)
    ensures i < count - 1
    ensures Fits(cs[1..], i + |Entries(cs[0])|, count)
  {
    var last := cs[|cs| - 1];
    assert cs == cs[..|cs| - 1] + [last];
    SlotsAppend(cs[..|cs| - 1], last);
    assert Slots(cs) == |Entries(cs[0])| + Slots(cs[1..]);
    if |cs| > 1 {
      assert cs[1..][|cs| - 2] == last;
    }
  }

  /** The pool loop reads back exactly the encoded constants. */
  lemma {:induction false} ParseEntriesRoundTrip(cs: seq<Constant>, rest: Buffer, i: int, count: int)
    requires AllEncodable(cs)
    requires Fits(cs, i, count)
    ensures ParseEntries(EncodeAll(cs) + rest, i, count) == Ok(Read(Layout(cs), rest))
    decreases |cs|, 1
  {
    if |cs| > 0 {
      ParseEntriesRoundTripCons(cs, rest, i, count);
    } else {
      assert EncodeAll(cs) + rest == rest;
    }
  }

  /** The first constant read, then the rest by induction. */
  lemma {:induction false} ParseEntriesRoundTripCons(cs: seq<Constant>, rest: Buffer, i: int, count: int)
    requires AllEncodable(cs) && |cs| > 0
    requires Fits(cs, i, count)
    ensures ParseEntries(EncodeAll(cs) + rest, i, count) == Ok(Read(Layout(cs), rest))
    decreases |cs|, 0
  {
    ConsFits(cs, i, count);
    var tail := EncodeAll(cs[1..]) + rest;
    ParseEntriesRoundTrip(cs[1..], rest, i + |Entries(cs[0])|, count);
    EncodeAllCons(cs, rest);
    ParseConstantRoundTrip(cs[0], tail);
    LayoutFacts(cs[1..]);
    EntriesPrepend(EncodeAll(cs) + rest, cs[0], tail, i, count, Layout(cs[1..]), rest);
    LayoutCons(cs);
  }

  /** What the rest of the constants need for the induction. */
  lemma ConsFits(cs: seq<Constant>, i: int, count: int)
    requires AllEncodable(cs) && |cs| > 0
    requires Fits(cs, i, count)
    ensures i < count - 1
    ensures AllEncodable(cs[1..]) && Fits(cs[1..], i + |Entries(cs[0])|, count)
  {
    FitsStep(cs, i, count);
  }

  lemma EncodeAllCons(cs: seq<Constant>, rest: Buffer)
    requires AllEncodable(cs) && |cs| > 0
    ensures Encodable(cs[0]) && AllEncodable(cs[1..])
    ensures EncodeAll(cs) + rest == EncodeConstant(cs[0]) + (EncodeAll(cs[1..]) + rest)
  {
  }

  lemma LayoutCons(cs: seq<Constant>)
    requires |cs| > 0
    ensures Layout(cs) == Entries(cs[0]) + Layout(cs[1..])
  {
  }

  /** The loop reads a constant, then the entries after it. */
  lemma EntriesPrepend(buf: Buffer, c: Constant, tail: Buffer, i: int, count: int, after: seq<Constant>, rest: Buffer)
    requires i < count - 1 && !c.Empty? && WellLaid(after)
    requires ParseConstant(buf) == Ok(Read(c, tail))
    requires ParseEntries(tail, i + |Entries(c)|, count) == Ok(Read(after, rest))
    ensures ParseEntries(buf, i, count) == Ok(Read(Entries(c) + after, rest))
  {
  }

  /** A wide constant in the last slot: the loop reads it whole, so the
      pool gets one entry more than the count announces (the JVMS forbids
      this layout; the loop accepts it). */
  lemma WideLastSlotOvershoots(cs: seq<Constant>, rest: Buffer)
    requires AllEncodable(cs)
    requires |cs| > 0 && Wide(cs[|cs| - 1])
    ensures var count := Slots(cs);
            && ParseEntries(EncodeAll(cs) + rest, 0, count) == Ok(Read(Layout(cs), rest))
            && 1 + |Layout(cs)| == count + 1
  {
    ParseEntriesRoundTrip(cs, rest, 0, Slots(cs));
    LayoutFacts(cs);
  }

  /* ---------------------------------------------------------------- */
  /* The class header                                                 */
  /* ---------------------------------------------------------------- */

  const Magic: u32 := 0xCAFE_BABE

  /** What the constructor keeps of the first part of a class file. The
      pool's slot 0 is the unusable `Empty` entry the C++ pushes first. */
  datatype ClassHeader = ClassHeader(
    minor: u16,
    major: u16,
    pool: seq<Constant>,
    accessFlags: u16,
    thisClass: u16,
    superClass: u16)

  /** Magic number, minor and major version, pool count. */
  datatype Prologue = Prologue(minor: u16, major: u16, count: u16)

  function ParsePrologue(buf: Buffer): (r: Result<Read<Prologue>>)
    ensures |buf| == 0 ==> r == Fail(EmptyFile)
    ensures |buf| >= 4 && buf[..4] != Be32(Magic) ==> r == Fail(WrongMagic)
    ensures r.Ok? ==> |buf| >= 4 && buf[..4] == Be32(Magic)
  {
    if |buf| == 0 then Fail(EmptyFile)
    else
      var magic :- Read32(buf);
      assert buf[..4] == Be32(magic.value);
      if magic.value != Magic then
        Be32Injective(magic.value, Magic);
        Fail(WrongMagic)
      else
        var minor :- Read16(magic.rest);
        var major :- Read16(minor.rest);
        var count :- Read16(major.rest);
        Ok(Read(Prologue(minor.value, major.value, count.value), count.rest))
  }

  lemma Be32Injective(a: u32, b: u32)
    ensures Be32(a) == Be32(b) ==> a == b
  {
    if Be32(a) == Be32(b) {
      Read32Be32(a, []);
      Read32Be32(b, []);
      assert Be32(a) + [] == Be32(b) + [];
    }
  }

  function EncodePrologue(p: Prologue): Buffer
  {
    Be32(Magic) + Be16(p.minor) + Be16(p.major) + Be16(p.count)
  }

  lemma PrologueRoundTrip(p: Prologue, rest: Buffer)
    ensures ParsePrologue(EncodePrologue(p) + rest) == Ok(Read(p, rest))
  {
    var c := Be16(p.count) + rest;
    var b := Be16(p.major) + c;
    var a := Be16(p.minor) + b;
    assert EncodePrologue(p) + rest == Be32(Magic) + a;
    Read32Be32(Magic, a);
    Read16Be16(p.minor, b);
    Read16Be16(p.major, c);
    Read16Be16(p.count, rest);
  }

  /** Access flags, this and super class, and the interface count, which
      must be zero. */
  datatype Epilogue = Epilogue(accessFlags: u16, thisClass: u16, superClass: u16)

  function ParseEpilogue(buf: Buffer): (r: Result<Read<Epilogue>>)
    ensures |buf| >= 8 && (buf[6] != 0 || buf[7] != 0) ==> r == Fail(InterfacesPresent)
    ensures r.Ok? ==> |buf| >= 8 && buf[6] == 0 && buf[7] == 0
  {
    var access :- Read16(buf);
    var thisClass :- Read16(access.rest);
    var superClass :- Read16(thisClass.rest);
    var interfaces :- Read16(superClass.rest);
    assert buf[6..8] == Be16(interfaces.value);
    if interfaces.value != 0 then Fail(InterfacesPresent)
    else Ok(Read(Epilogue(access.value, thisClass.value, superClass.value), interfaces.rest))
  }

  function EncodeEpilogue(e: Epilogue, interfaces: u16): Buffer
  {
    Be16(e.accessFlags) + Be16(e.thisClass) + Be16(e.superClass) + Be16(interfaces)
  }

  /** The epilogue is read back when the interface count is zero, and
      refused otherwise. */
  lemma EpilogueRoundTrip(e: Epilogue, interfaces: u16, rest: Buffer)
    ensures ParseEpilogue(EncodeEpilogue(e, interfaces) + rest) ==
              if interfaces == 0 then Ok(Read(e, rest)) else Fail(InterfacesPresent)
  {
    var d := Be16(interfaces) + rest;
    var c := Be16(e.superClass) + d;
    var b := Be16(e.thisClass) + c;
    assert EncodeEpilogue(e, interfaces) + rest == Be16(e.accessFlags) + b;
    Read16Be16(e.accessFlags, b);
    Read16Be16(e.thisClass, c);
    Read16Be16(e.superClass, d);
    Read16Be16(interfaces, rest);
  }

  /** The constructor up to the interface count. */
  function ParseHeader(buf: Buffer): (r: Result<Read<ClassHeader>>)
    ensures |buf| == 0 ==> r == Fail(EmptyFile)
    ensures |buf| >= 4 && buf[..4] != Be32(Magic) ==> r == Fail(WrongMagic)
    ensures r.Ok? ==> |r.value.value.pool| >= 1 && r.value.value.pool[0].Empty? && WellLaid(r.value.value.pool[1..])
  {
    var pro :- ParsePrologue(buf);
    var entries :- ParseEntries(pro.rest, 0, pro.value.count);
    var epi :- ParseEpilogue(entries.rest);
    var pool := [Empty] + entries.value;
    assert pool[1..] == entries.value;
    Ok(Read(ClassHeader(pro.value.minor, pro.value.major, pool,
                        epi.value.accessFlags, epi.value.thisClass, epi.value.superClass),
            epi.rest))
  }

  /** The bytes of a class header whose pool holds `cs` from slot 1 on. */
  function EncodeHeader(h: ClassHeader, cs: seq<Constant>, interfaces: u16): Buffer
    requires AllEncodable(cs)
    requires Slots(cs) < 0xFFFF
  {
    EncodePrologue(Prologue(h.minor, h.major, Slots(cs) + 1)) + EncodeAll(cs)
      + EncodeEpilogue(Epilogue(h.accessFlags, h.thisClass, h.superClass), interfaces)
  }

  /** The header parser reads back the encoded header, with the pool laid
      out behind its empty slot 0, and refuses a class with interfaces. */
  lemma {:induction false} ParseHeaderRoundTrip(h: ClassHeader, cs: seq<Constant>, interfaces: u16, rest: Buffer)
    requires AllEncodable(cs)
    requires Slots(cs) < 0xFFFF
    requires h.pool == [Empty] + Layout(cs)
    ensures ParseHeader(EncodeHeader(h, cs, interfaces) + rest) ==
              if interfaces == 0 then Ok(Read(h, rest)) else Fail(InterfacesPresent)
  {
    var p := Prologue(h.minor, h.major, Slots(cs) + 1);
    var e := Epilogue(h.accessFlags, h.thisClass, h.superClass);
    var tail := EncodeEpilogue(e, interfaces) + rest;
    var body := EncodeAll(cs) + tail;
    var buf := EncodeHeader(h, cs, interfaces) + rest;
    HeaderBytes(h, cs, interfaces, rest);
    PrologueRoundTrip(p, body);
    ParseEntriesRoundTrip(cs, tail, 0, Slots(cs) + 1);
    EpilogueRoundTrip(e, interfaces, rest);
    HeaderFromParts(buf, p, body, Layout(cs), tail);
  }

  /** The header bytes are the prologue, then the constants, then the
      epilogue. */
  lemma HeaderBytes(h: ClassHeader, cs: seq<Constant>, interfaces: u16, rest: Buffer)
    requires AllEncodable(cs)
    requires Slots(cs) < 0xFFFF
    ensures EncodeHeader(h, cs, interfaces) + rest ==
              EncodePrologue(Prologue(h.minor, h.major, Slots(cs) + 1))
              + (EncodeAll(cs) + (EncodeEpilogue(Epilogue(h.accessFlags, h.thisClass, h.superClass), interfaces) + rest))
  {
  }

  /** The constructor reads the prologue, the entries, then the epilogue. */
  lemma HeaderFromParts(buf: Buffer, p: Prologue, body: Buffer, layout: seq<Constant>, tail: Buffer)
    ensures ParsePrologue(buf) == Ok(Read(p, body)) && ParseEntries(body, 0, p.count) == Ok(Read(layout, tail)) ==>
              var epi := ParseEpilogue(tail);
              && (epi.Fail? ==> ParseHeader(buf) == Fail(epi.error))
              && (epi.Ok? ==>
                    ParseHeader(buf) ==
                      Ok(Read(ClassHeader(p.minor, p.major, [Empty] + layout, epi.value.value.accessFlags,
                                          epi.value.value.thisClass, epi.value.value.superClass), epi.value.rest)))
  {
  }

  /* ---------------------------------------------------------------- */
  /* Attributes                                                       */
  /* ---------------------------------------------------------------- */

  datatype Attribute = Attribute(nameIndex: u16, info: Buffer)

  /** `readAttribute`: a u2 name index, a u4 length, that many bytes. */
  function ReadAttribute(buf: Buffer): (r: Result<Read<Attribute>>)
    ensures r.Ok? ==> |r.value.value.info| < TwoTo32
    ensures r.Ok? ==> |buf| == 6 + |r.value.value.info| + |r.value.rest|
  {
    var name :- Read16(buf);
    var length :- Read32(name.rest);
    var info :- ReadBytes(length.rest, length.value);
    Ok(Read(Attribute(name.value, info.value), info.rest))
  }

  lemma ReadAttributeRoundTrip(a: Attribute, rest: Buffer)
    requires |a.info| < TwoTo32
    ensures ReadAttribute(Be16(a.nameIndex) + Be32(|a.info|) + a.info + rest) == Ok(Read(a, rest))
  {
    var buf := Be16(a.nameIndex) + (Be32(|a.info|) + (a.info + rest));
    assert Be16(a.nameIndex) + Be32(|a.info|) + a.info + rest == buf;
    Read16Be16(a.nameIndex, Be32(|a.info|) + (a.info + rest));
    Read32Be32(|a.info|, a.info + rest);
    assert (a.info + rest)[..|a.info|] == a.info;
    assert (a.info + rest)[|a.info|..] == rest;
  }
}
