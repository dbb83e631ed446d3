/** The Protocol Buffers wire format: varints, tags, the five kinds of field and nested groups. */
module WireFormat {
  import opened Bytes

  const TWO64: nat := 0x1_0000_0000_0000_0000
  const TWO32: nat := 0x1_0000_0000
  const MAX_INT: nat := 0x7FFF_FFFF

  type int32 = x: int | -0x8000_0000 <= x < 0x8000_0000
  type uint32 = x: int | 0 <= x < TWO32
  type uint64 = x: int | 0 <= x < TWO64
  type FieldNumber = x: int | 1 <= x < 0x2000_0000 witness 1

  /** One record of a message. Unknown fields are kept in this form. */
  datatype Field = Field(num: FieldNumber, val: Value)
  datatype Value =
    | Varint(v: uint64)
    | Fixed64(q: uint64)
    | Data(b: bytes)
    | Group(fs: seq<Field>)
    | Fixed32(d: uint32)

  const VARINT := 0
  const FIXED64 := 1
  const LENGTH_DELIMITED := 2
  const START_GROUP := 3
  const END_GROUP := 4
  const FIXED32 := 5

  function MakeTag(num: FieldNumber, wireType: nat): (t: uint32)
    requires wireType < 8
  {
    8 * num + wireType
  }

  function TagNumber(tag: uint32): (n: nat)
    ensures n < 0x2000_0000
  {
    tag / 8
  }

  function TagWireType(tag: uint32): nat { tag % 8 }

  lemma TagParts(num: FieldNumber, wireType: nat)
    requires wireType < 8
    ensures TagNumber(MakeTag(num, wireType)) == num && TagWireType(MakeTag(num, wireType)) == wireType
  {
  }

  // ------------------------------------------------------------------
  // Varints
  // ------------------------------------------------------------------

  /** The shortest base-128 encoding. */
  function EncVarint(n: nat): (r: bytes)
    ensures r != []
  {
    if n < 128 then [n] else [128 + n % 128] + EncVarint(n / 128)
  }

  /** Reads a varint of at most k bytes, without a bound on its value. */
  function ReadVarint(s: bytes, k: nat): (r: Parsed<nat>)
    ensures r.Ok? ==> ProperSuffix(r.rest, s)
  {
    if s == [] || k == 0 then Bad
    else if s[0] < 128 then Ok(s[0], s[1..])
    else
      match ReadVarint(s[1..], k - 1)
      case Bad => Bad
      case Ok(v, rest) => Ok(s[0] - 128 + 128 * v, rest)
  }

  /** At most ten bytes are read; bits above the 64th are dropped. */
  function ReadVarint64(s: bytes): (r: Parsed<uint64>)
    ensures r.Ok? ==> ProperSuffix(r.rest, s)
  {
    match ReadVarint(s, 10)
    case Bad => Bad
    case Ok(v, rest) => Ok(v % 0x1_0000_0000_0000_0000, rest)
  }

  function ReadVarint32(s: bytes): (r: Parsed<uint32>)
    ensures r.Ok? ==> ProperSuffix(r.rest, s)
  {
    match ReadVarint(s, 10)
    case Bad => Bad
    case Ok(v, rest) => Ok(v % 0x1_0000_0000, rest)
  }

  lemma OneByteVarint(b: byte, t: bytes)
    requires b < 128
    ensures ReadVarint32([b] + t) == Ok(b, t)
  {
    assert ([b] + t)[1..] == t;
  }

  function Pow128(k: nat): (r: nat)
    ensures r >= 1
  {
    if k == 0 then 1 else 128 * Pow128(k - 1)
  }

  lemma {:induction false} VarintRoundTrip(n: nat, k: nat, t: bytes)
    requires n < Pow128(k) && k > 0
    ensures ReadVarint(EncVarint(n) + t, k) == Ok(n, t)
    ensures |EncVarint(n)| <= k
  {
    var s := EncVarint(n) + t;
    if n < 128 {
      assert s[1..] == t;
    } else {
      assert s[1..] == EncVarint(n / 128) + t;
      assert n / 128 < Pow128(k - 1);
      VarintRoundTrip(n / 128, k - 1, t);
    }
  }

  lemma Varint64RoundTrip(n: nat, t: bytes)
    requires n < TWO64
    ensures ReadVarint64(EncVarint(n) + t) == Ok(n, t)
    ensures n < TWO32 ==> ReadVarint32(EncVarint(n) + t) == Ok(n, t)
    ensures ReadVarint32(EncVarint(n) + t) == Ok(n % 0x1_0000_0000, t)
    ensures |EncVarint(n)| <= 10
  {
    assert Pow128(5) == 34359738368;
    assert Pow128(10) == Pow128(5) * 34359738368 by {
      assert Pow128(10) == 128 * Pow128(9);
      assert Pow128(9) == 128 * Pow128(8);
      assert Pow128(8) == 128 * Pow128(7);
      assert Pow128(7) == 128 * Pow128(6);
      assert Pow128(6) == 128 * Pow128(5);
    }
    VarintRoundTrip(n, 10, t);
  }

  /** Input after a complete varint does not change how it is read. */
  lemma {:induction false} VarintStable(s: bytes, k: nat, t: bytes)
    requires ReadVarint(s, k).Ok?
    ensures ReadVarint(s + t, k) == Ok(ReadVarint(s, k).value, ReadVarint(s, k).rest + t)
  {
    if s[0] < 128 {
      assert (s + t)[1..] == s[1..] + t;
    } else {
      VarintStable(s[1..], k - 1, t);
      assert (s + t)[1..] == s[1..] + t;
    }
  }

  /** The number a varint's bytes stand for, low seven bits first. */
  function Base128(e: bytes): nat {
    if e == [] then 0 else e[0] % 128 + 128 * Base128(e[1..])
  }

  /** Every byte but the last carries the continuation bit, and the last is not superfluous. */
  lemma {:induction false} VarintShape(n: nat)
    ensures Base128(EncVarint(n)) == n
    ensures forall i | 0 <= i < |EncVarint(n)| :: EncVarint(n)[i] >= 128 <==> i < |EncVarint(n)| - 1
    ensures n >= 128 ==> EncVarint(n)[|EncVarint(n)| - 1] > 0
  {
    if n >= 128 {
      VarintShape(n / 128);
      var e := EncVarint(n);
      assert e[1..] == EncVarint(n / 128);
      forall i | 0 <= i < |e|
        ensures e[i] >= 128 <==> i < |e| - 1
      {
        if i > 0 { assert e[i] == e[1..][i - 1]; }
      }
    } else {
      assert EncVarint(n)[1..] == [];
    }
  }

  /** 1, 150 and 300 as the standard writes them. */
  lemma VarintExamples()
    ensures EncVarint(1) == [0x01] && EncVarint(150) == [0x96, 0x01] && EncVarint(300) == [0xAC, 0x02]
  {
  }

  lemma {:induction false} ReadVarintMeans(s: bytes, k: nat, i: nat)
    requires i < |s| && i < k && s[i] < 128 && forall j | 0 <= j < i :: s[j] >= 128
    ensures ReadVarint(s, k) == Ok(Base128(s[..i + 1]), s[i + 1..])
    decreases i
  {
    var e := s[..i + 1];
    assert e[0] == s[0] && e[1..] == s[1..][..i];
    if i == 0 {
      assert Base128(e[1..]) == 0;
    } else {
      ReadVarintMeans(s[1..], k - 1, i - 1);
      assert s[1..][i..] == s[i + 1..];
    }
  }

  lemma {:induction false} ReadVarintUnended(s: bytes, k: nat)
    requires forall j | 0 <= j < |s| && j < k :: s[j] >= 128
    ensures ReadVarint(s, k) == Bad
    decreases k
  {
    if s != [] && k > 0 { ReadVarintUnended(s[1..], k - 1); }
  }

  /**
   A varint, minimal or not, is read up to its first byte below 128, which must be one of the first ten,
   and keeps the low 64 or 32 bits of its number.
   */
  lemma VarintReads(s: bytes)
    ensures forall i | 0 <= i < |s| && i < 10 && s[i] < 128 && (forall j | 0 <= j < i :: s[j] >= 128) ::
              && ReadVarint64(s) == Ok(Base128(s[..i + 1]) % 0x1_0000_0000_0000_0000, s[i + 1..])
              && ReadVarint32(s) == Ok(Base128(s[..i + 1]) % 0x1_0000_0000, s[i + 1..])
    ensures (forall j | 0 <= j < |s| && j < 10 :: s[j] >= 128) ==> ReadVarint64(s) == Bad && ReadVarint32(s) == Bad
  {
    hide ReadVarint, Base128;
    forall i | 0 <= i < |s| && i < 10 && s[i] < 128 && (forall j | 0 <= j < i :: s[j] >= 128)
      ensures ReadVarint64(s) == Ok(Base128(s[..i + 1]) % 0x1_0000_0000_0000_0000, s[i + 1..])
      ensures ReadVarint32(s) == Ok(Base128(s[..i + 1]) % 0x1_0000_0000, s[i + 1..])
    {
      ReadVarintMeans(s, 10, i);
    }
    if forall j | 0 <= j < |s| && j < 10 :: s[j] >= 128 { ReadVarintUnended(s, 10); }
  }

  /** int32 on the wire: negative numbers are sign-extended to 64 bits. */
  function Int32ToVarint(i: int32): uint64 {
    if i >= 0 then i else i + TWO64
  }

  function VarintToInt32(v: nat): int32 {
    var u := v % 0x1_0000_0000;
    if u < 0x8000_0000 then u else u - TWO32
  }

  /** The varint of an int32, read as a 64-bit two's complement number, is that int32. */
  lemma SignExtended(i: int32, t: bytes)
    ensures match ReadVarint64(EncVarint(Int32ToVarint(i)) + t)
            case Bad => false
            case Ok(v, rest) => (if v < 0x8000_0000_0000_0000 then v else v - 0x1_0000_0000_0000_0000) == i && rest == t
  {
    hide EncVarint, ReadVarint64;
    Varint64RoundTrip(Int32ToVarint(i), t);
  }

  lemma OnesMore(n: nat)
    ensures EncVarint(128 * n + 127) == if n == 0 then [0x7F] else [0xFF] + EncVarint(n)
  {
  }

  /** Minus one is nine bytes of ones and a last bit. */
  lemma MinusOne()
    ensures EncVarint(Int32ToVarint(-1)) == [0xFF, 0xFF, 0xFF, 0xFF, 0xFF, 0xFF, 0xFF, 0xFF, 0xFF, 0x01]
  {
    hide EncVarint;
    VarintExamples();
    OnesMore(0x1FF_FFFF_FFFF_FFFF);
    OnesMore(0x3_FFFF_FFFF_FFFF);
    OnesMore(0x7FF_FFFF_FFFF);
    OnesMore(0xF_FFFF_FFFF);
    OnesMore(0x1FFF_FFFF);
    OnesMore(0x3F_FFFF);
    OnesMore(0x7FFF);
    OnesMore(0xFF);
    OnesMore(0x1);
  }

  lemma Int32RoundTrip(i: int32)
    ensures VarintToInt32(Int32ToVarint(i)) == i
  {
  }

  /** An int32 is the low 32 bits of its varint in two's complement. */
  lemma LowWord(v: nat)
    ensures var u := v % 0x1_0000_0000;
            VarintToInt32(u) == VarintToInt32(v) == if u < 0x8000_0000 then u else u - 0x1_0000_0000
  {
  }

  /** Reading an int32 field as 32 or as 64 bits gives the same number. */
  lemma TruncateTwice(v: nat)
    ensures v % 0x1_0000_0000_0000_0000 % 0x1_0000_0000 == v % 0x1_0000_0000
  {
    var k, r := v / 0x1_0000_0000_0000_0000, v % 0x1_0000_0000_0000_0000;
    assert v == TWO32 * (TWO32 * k) + r;
    var q := TWO32 * k;
    assert (TWO32 * q + r) / 0x1_0000_0000 == q + r / 0x1_0000_0000;
  }

  // ------------------------------------------------------------------
  // Fields
  // ------------------------------------------------------------------

  function WireType(val: Value): (t: nat)
    ensures t < 6 && t != END_GROUP
  {
    match val
    case Varint(_) => VARINT
    case Fixed64(_) => FIXED64
    case Data(_) => LENGTH_DELIMITED
    case Group(_) => START_GROUP
    case Fixed32(_) => FIXED32
  }

  function EncTag(num: FieldNumber, wireType: nat): (r: bytes)
    requires wireType < 8
    ensures r != []
  {
    EncVarint(MakeTag(num, wireType))
  }

  /** A field after its tag; a group's body runs up to and including its end tag. */
  function EncBody(f: Field): bytes
    decreases f, 0
  {
    match f.val
    case Varint(v) => EncVarint(v)
    case Fixed64(q) => ToLE(q, 8)
    case Data(b) => EncVarint(|b|) + b
    case Group(fs) => EncFields(fs) + EncTag(f.num, END_GROUP)
    case Fixed32(d) => ToLE(d, 4)
  }

  function EncField(f: Field): bytes
    decreases f, 1
  {
    EncTag(f.num, WireType(f.val)) + EncBody(f)
  }

  function EncFields(fs: seq<Field>): bytes
    decreases fs, 2
  {
    if fs == [] then [] else EncField(fs[0]) + EncFields(fs[1..])
  }

  lemma NoFieldsNoBytes()
    ensures EncFields([]) == []
  {
  }

  /** A length-delimited record: its length must fit in an int and in what is left of the input. */
  function ReadData(s: bytes): (r: Parsed<bytes>)
    ensures r.Ok? ==> ProperSuffix(r.rest, s) && |r.value| < |s|
  {
    match ReadVarint32(s)
    case Bad => Bad
    case Ok(n, rest) =>
      if n > MAX_INT || n > |rest| then Bad else Ok(rest[..n], rest[n..])
  }

  function ReadFixed(s: bytes, w: nat): (r: Parsed<nat>)
    requires w > 0
    ensures r.Ok? ==> ProperSuffix(r.rest, s) && r.value < Pow256(w)
  {
    if |s| < w then Bad else ToFromLE(s[..w]); Ok(FromLE(s[..w]), s[w..])
  }

  /** Reads one field whose tag has been read; an END_GROUP tag or field number 0 is no field. */
  function ReadBody(tag: uint32, s: bytes): (r: Parsed<Field>)
    ensures r.Ok? ==> ProperSuffix(r.rest, s)
    ensures r.Ok? ==> r.value.num == TagNumber(tag) && WireType(r.value.val) == TagWireType(tag)
    decreases |s|, 1
  {
    PowersOf256();
    if TagNumber(tag) == 0 then Bad
    else if TagWireType(tag) == VARINT then
      match ReadVarint64(s) { case Bad => Bad case Ok(v, r) => Ok(Field(TagNumber(tag), Varint(v)), r) }
    else if TagWireType(tag) == FIXED64 then
      match ReadFixed(s, 8) { case Bad => Bad case Ok(v, r) => Ok(Field(TagNumber(tag), Fixed64(v)), r) }
    else if TagWireType(tag) == LENGTH_DELIMITED then
      match ReadData(s) { case Bad => Bad case Ok(b, r) => Ok(Field(TagNumber(tag), Data(b)), r) }
    else if TagWireType(tag) == START_GROUP then
      match ReadGroup(TagNumber(tag), s) { case Bad => Bad case Ok(fs, r) => Ok(Field(TagNumber(tag), Group(fs)), r) }
    else if TagWireType(tag) == FIXED32 then
      match ReadFixed(s, 4) { case Bad => Bad case Ok(v, r) => Ok(Field(TagNumber(tag), Fixed32(v)), r) }
    else Bad
  }

  /** Reads fields up to the matching END_GROUP tag. */
  function ReadGroup(num: FieldNumber, s: bytes): (r: Parsed<seq<Field>>)
    ensures r.Ok? ==> ProperSuffix(r.rest, s)
    decreases |s|, 0
  {
    match ReadVarint32(s)
    case Bad => Bad
    case Ok(tag, s1) =>
      if tag == 0 then Bad
      else if TagWireType(tag) == END_GROUP then
        if tag == MakeTag(num, END_GROUP) then Ok([], s1) else Bad
      else
        match ReadBody(tag, s1)
        case Bad => Bad
        case Ok(f, s2) =>
          match ReadGroup(num, s2)
          case Bad => Bad
          case Ok(fs, s3) => Ok([f] + fs, s3)
  }

  lemma BodyOfData(tag: uint32, s: bytes)
    requires tag >= 8 && TagWireType(tag) == LENGTH_DELIMITED
    ensures ReadBody(tag, s) == if ReadData(s).Bad? then Bad
                                else Ok(Field(TagNumber(tag), Data(ReadData(s).value)), ReadData(s).rest)
  {
  }

  /** An int32 may be read from its varint with 32 or with 64 bits. */
  lemma BodyOfInt32(tag: uint32, s: bytes)
    requires tag >= 8 && TagWireType(tag) == VARINT
    ensures match ReadVarint32(s)
            case Bad => ReadBody(tag, s) == Bad
            case Ok(v, rest) =>
              && ReadBody(tag, s).Ok? && ReadBody(tag, s).rest == rest
              && ReadBody(tag, s).value.val.Varint?
              && VarintToInt32(ReadBody(tag, s).value.val.v) == VarintToInt32(v)
  {
    match ReadVarint(s, 10)
    case Bad =>
    case Ok(n, _) => SameInt32(n);
  }

  lemma SameInt32(n: nat)
    ensures VarintToInt32(n % 0x1_0000_0000_0000_0000) == VarintToInt32(n % 0x1_0000_0000)
  {
    TruncateTwice(n);
  }

  // ------------------------------------------------------------------
  // The bytes of each kind of field, and which bytes are no field
  // ------------------------------------------------------------------

  /** An unknown field of each kind, with the number of its wire type. */
  lemma FieldBytes(n: FieldNumber, v: uint64, b: bytes, fs: seq<Field>, d: uint32)
    ensures EncFields([Field(n, Varint(v))]) == EncVarint(8 * n) + EncVarint(v)
    ensures EncFields([Field(n, Fixed64(v))]) == EncVarint(8 * n + 1) + ToLE(v, 8)
    ensures EncFields([Field(n, Data(b))]) == EncVarint(8 * n + 2) + (EncVarint(|b|) + b)
    ensures EncFields([Field(n, Group(fs))]) == EncVarint(8 * n + 3) + (EncFields(fs) + EncVarint(8 * n + 4))
    ensures EncFields([Field(n, Fixed32(d))]) == EncVarint(8 * n + 5) + ToLE(d, 4)
  {
    hide EncVarint, ToLE, EncFields;
    OneField(Field(n, Varint(v)));
    OneField(Field(n, Fixed64(v)));
    OneField(Field(n, Data(b)));
    OneField(Field(n, Group(fs)));
    OneField(Field(n, Fixed32(d)));
  }

  lemma OneField(f: Field)
    ensures EncFields([f]) == EncTag(f.num, WireType(f.val)) + EncBody(f)
  {
    assert [f][1..] == [] && EncFields([]) == [];
  }

  /**
   What is no field, and so makes a parser fail: field number 0, an end-of-group tag, wire types 6 and 7,
   a number without its bytes, a length beyond an int or the input, a group not ended by its own number.
   */
  lemma NoField(tag: uint32, s: bytes)
    ensures tag < 8 || tag % 8 == 4 || tag % 8 == 6 || tag % 8 == 7 ==> ReadBody(tag, s) == Bad
    ensures tag >= 8 && tag % 8 == 0 ==> (ReadBody(tag, s).Ok? <==> ReadVarint64(s).Ok?)
    ensures tag >= 8 && tag % 8 == 1 ==> (ReadBody(tag, s).Ok? <==> |s| >= 8)
    ensures tag >= 8 && tag % 8 == 5 ==> (ReadBody(tag, s).Ok? <==> |s| >= 4)
    ensures tag >= 8 && tag % 8 == 2 ==>
              (ReadBody(tag, s).Ok? <==>
               ReadVarint32(s).Ok? && ReadVarint32(s).value <= 0x7FFF_FFFF
               && ReadVarint32(s).value <= |ReadVarint32(s).rest|)
    ensures tag >= 8 && tag % 8 == 3 && s == [] ==> ReadBody(tag, s) == Bad
  {
    hide ReadVarint64, ReadVarint32;
  }

  lemma WrongGroupEnd(num: FieldNumber, other: FieldNumber, t: bytes)
    requires num != other
    ensures ReadGroup(num, EncVarint(8 * other + 4) + t) == Bad
  {
    hide ReadVarint32, EncVarint;
    TagRoundTrip(other, END_GROUP, t);
  }

  // ------------------------------------------------------------------
  // Reading back what was written, and stability under longer inputs
  // ------------------------------------------------------------------

  lemma TagRoundTrip(num: FieldNumber, wireType: nat, t: bytes)
    requires wireType < 8
    ensures ReadVarint32(EncTag(num, wireType) + t) == Ok(MakeTag(num, wireType), t)
    ensures TagNumber(MakeTag(num, wireType)) == num && TagWireType(MakeTag(num, wireType)) == wireType
    ensures MakeTag(num, wireType) != 0
  {
    TagParts(num, wireType);
    Varint64RoundTrip(MakeTag(num, wireType), t);
  }

  lemma DataRoundTrip(b: bytes, t: bytes)
    requires |b| <= MAX_INT
    ensures ReadData(EncVarint(|b|) + b + t) == Ok(b, t)
  {
    assert EncVarint(|b|) + b + t == EncVarint(|b|) + (b + t);
    Varint64RoundTrip(|b|, b + t);
    assert (b + t)[..|b|] == b && (b + t)[|b|..] == t;
  }

  lemma FixedRoundTrip(v: nat, w: nat, t: bytes)
    requires 0 < w && v < Pow256(w)
    ensures ReadFixed(ToLE(v, w) + t, w) == Ok(v, t)
  {
    FromToLE(v, w);
    assert (ToLE(v, w) + t)[..w] == ToLE(v, w) && (ToLE(v, w) + t)[w..] == t;
  }

  lemma {:induction false} BodyRoundTrip(f: Field, t: bytes)
    requires |EncBody(f)| <= MAX_INT
    ensures ReadBody(MakeTag(f.num, WireType(f.val)), EncBody(f) + t) == Ok(f, t)
    decreases f, 0
  {
    hide TagNumber, TagWireType, MakeTag, EncTag, EncVarint, ReadVarint64, ReadVarint32, ReadGroup, EncFields;
    TagRoundTrip(f.num, WireType(f.val), t);
    PowersOf256();
    match f.val
    case Varint(v) => Varint64RoundTrip(v, t);
    case Fixed64(q) => FixedRoundTrip(q, 8, t);
    case Data(b) => DataRoundTrip(b, t);
    case Group(fs) =>
      assert EncBody(f) + t == EncFields(fs) + (EncTag(f.num, END_GROUP) + t);
      GroupRoundTrip(f.num, fs, t);
    case Fixed32(d) => FixedRoundTrip(d, 4, t);
  }

  lemma {:induction false} GroupRoundTrip(num: FieldNumber, fs: seq<Field>, t: bytes)
    requires |EncFields(fs)| <= MAX_INT
    ensures ReadGroup(num, EncFields(fs) + (EncTag(num, END_GROUP) + t)) == Ok(fs, t)
    decreases fs, 1
  {
    hide TagNumber, TagWireType, MakeTag, EncTag, EncVarint, ReadVarint32, ReadBody, EncBody;
    var tail := EncTag(num, END_GROUP) + t;
    if fs == [] {
      assert EncFields(fs) + tail == tail;
      TagRoundTrip(num, END_GROUP, t);
    } else {
      var f, after := fs[0], EncFields(fs[1..]) + tail;
      FirstField(fs, tail);
      TagRoundTrip(f.num, WireType(f.val), EncBody(f) + after);
      BodyRoundTrip(f, after);
      GroupRoundTrip(num, fs[1..], t);
      GroupCons(num, EncFields(fs) + tail, MakeTag(f.num, WireType(f.val)), EncBody(f) + after, f, after);
      assert fs == [f] + fs[1..];
    }
  }

  lemma GroupCons(num: FieldNumber, s: bytes, tag: uint32, s1: bytes, f: Field, after: bytes)
    requires ReadVarint32(s) == Ok(tag, s1) && tag != 0 && TagWireType(tag) != END_GROUP
    requires ReadBody(tag, s1) == Ok(f, after)
    requires ReadGroup(num, after).Ok?
    ensures ReadGroup(num, s) == Ok([f] + ReadGroup(num, after).value, ReadGroup(num, after).rest)
  {
  }

  lemma FirstField(fs: seq<Field>, t: bytes)
    requires fs != []
    ensures EncFields(fs) + t ==
            EncTag(fs[0].num, WireType(fs[0].val)) + (EncBody(fs[0]) + (EncFields(fs[1..]) + t))
    ensures |EncFields(fs)| >= |EncBody(fs[0])| && |EncFields(fs)| >= |EncFields(fs[1..])|
  {
  }

  lemma Varint32Stable(s: bytes, t: bytes)
    requires ReadVarint32(s).Ok?
    ensures ReadVarint32(s + t) == Ok(ReadVarint32(s).value, ReadVarint32(s).rest + t)
  {
    VarintStable(s, 10, t);
  }

  lemma CutBefore(s: bytes, t: bytes, n: nat)
    requires n <= |s|
    ensures (s + t)[..n] == s[..n] && (s + t)[n..] == s[n..] + t
  {
  }

  lemma DataStable(s: bytes, t: bytes)
    requires ReadData(s).Ok?
    ensures ReadData(s + t) == Ok(ReadData(s).value, ReadData(s).rest + t)
  {
    hide ReadVarint32;
    Varint32Stable(s, t);
    CutBefore(ReadVarint32(s).rest, t, ReadVarint32(s).value);
  }

  lemma FixedStable(s: bytes, w: nat, t: bytes)
    requires 0 < w <= |s|
    ensures ReadFixed(s + t, w) == Ok(ReadFixed(s, w).value, ReadFixed(s, w).rest + t)
  {
    CutBefore(s, t, w);
  }

  lemma {:induction false} BodyStable(tag: uint32, s: bytes, t: bytes)
    requires ReadBody(tag, s).Ok?
    ensures ReadBody(tag, s + t) == Ok(ReadBody(tag, s).value, ReadBody(tag, s).rest + t)
    decreases |s|, 1
  {
    if TagWireType(tag) == VARINT { VarintStable(s, 10, t); }
    if TagWireType(tag) == FIXED64 { FixedStable(s, 8, t); }
    if TagWireType(tag) == LENGTH_DELIMITED { DataStable(s, t); }
    if TagWireType(tag) == START_GROUP { GroupStable(TagNumber(tag), s, t); }
    if TagWireType(tag) == FIXED32 { FixedStable(s, 4, t); }
  }

  lemma {:induction false} GroupStable(num: FieldNumber, s: bytes, t: bytes)
    requires ReadGroup(num, s).Ok?
    ensures ReadGroup(num, s + t) == Ok(ReadGroup(num, s).value, ReadGroup(num, s).rest + t)
    decreases |s|, 0
  {
    VarintStable(s, 10, t);
    var Ok(tag, s1) := ReadVarint32(s);
    if TagWireType(tag) != END_GROUP {
      BodyStable(tag, s1, t);
      GroupStable(num, ReadBody(tag, s1).rest, t);
    }
  }

  lemma {:induction false} EncFieldsConcat(a: seq<Field>, b: seq<Field>)
    ensures EncFields(a + b) == EncFields(a) + EncFields(b)
  {
    if a == [] {
      assert a + b == b;
    } else {
      assert (a + b)[1..] == a[1..] + b;
      EncFieldsConcat(a[1..], b);
    }
  }
}
