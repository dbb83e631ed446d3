/** The size pass: what ByteSize adds up, and the length prefixes the serialisers take from it. */
module Sizes {
  import opened Bytes
  import opened WireFormat
  import opened MessageLoop
  import opened Messages
  import opened Serialization

  /** Length of a varint by comparison with the powers of 128. */
  function VarintSize(n: uint64): nat {
    if n < 0x80 then 1
    else if n < 0x4000 then 2
    else if n < 0x20_0000 then 3
    else if n < 0x1000_0000 then 4
    else if n < 0x8_0000_0000 then 5
    else if n < 0x400_0000_0000 then 6
    else if n < 0x2_0000_0000_0000 then 7
    else if n < 0x100_0000_0000_0000 then 8
    else if n < 0x8000_0000_0000_0000 then 9
    else 10
  }

  lemma {:induction false} VarintSizeExact(n: uint64)
    ensures |EncVarint(n)| == VarintSize(n)
    decreases n
  {
    if n >= 128 {
      VarintSizeExact(n / 128);
    }
  }

  function Int32Size(i: int32): nat {
    if i < 0 then 10 else VarintSize(i)
  }

  function DataSize(n: uint64): nat {
    VarintSize(n) + n
  }

  lemma Int32SizeExact(i: int32)
    ensures |EncVarint(Int32ToVarint(i))| == Int32Size(i)
  {
    VarintSizeExact(Int32ToVarint(i));
  }

  function FieldSize(f: Field): nat
    requires |EncField(f)| <= MAX_INT
    decreases f, 0
  {
    BodyFits(f);
    VarintSize(MakeTag(f.num, WireType(f.val))) +
    match f.val
    case Varint(v) => VarintSize(v)
    case Fixed64(_) => 8
    case Data(b) => DataSize(|b|)
    case Group(fs) => FieldsSize(fs) + VarintSize(MakeTag(f.num, END_GROUP))
    case Fixed32(_) => 4
  }

  function FieldsSize(fs: seq<Field>): nat
    requires |EncFields(fs)| <= MAX_INT
    decreases fs, 1
  {
    if fs == [] then 0 else FieldSize(fs[0]) + FieldsSize(fs[1..])
  }

  lemma BodyFits(f: Field)
    ensures f.val.Data? ==> |f.val.b| <= |EncField(f)|
    ensures f.val.Group? ==> |EncFields(f.val.fs)| <= |EncField(f)|
  {
  }

  /** The size of unknown fields, groups included, is the number of bytes they take on the wire. */
  lemma {:induction false} FieldSizeExact(f: Field)
    requires |EncField(f)| <= MAX_INT
    ensures FieldSize(f) == |EncField(f)|
    decreases f, 0
  {
    VarintSizeExact(MakeTag(f.num, WireType(f.val)));
    BodyFits(f);
    match f.val
    case Varint(v) => VarintSizeExact(v);
    case Data(b) => VarintSizeExact(|b|);
    case Group(fs) =>
      FieldsSizeExact(fs);
      VarintSizeExact(MakeTag(f.num, END_GROUP));
    case _ =>
  }

  lemma {:induction false} FieldsSizeExact(fs: seq<Field>)
    requires |EncFields(fs)| <= MAX_INT
    ensures FieldsSize(fs) == |EncFields(fs)|
    decreases fs, 1
  {
    if fs != [] {
      FieldSizeExact(fs[0]);
      FieldsSizeExact(fs[1..]);
    }
  }

  // ------------------------------------------------------------------
  // The bytes of each message, piece by piece
  // ------------------------------------------------------------------

  function DataRecord(present: bool, tag: byte, size: nat, b: bytes): bytes {
    if present then [tag] + (EncVarint(size) + b) else []
  }

  function Int32Record(o: Option<int32>, tag: byte): bytes {
    if o.Some? then [tag] + EncVarint(Int32ToVarint(o.value)) else []
  }

  function StringRecord(o: Option<bytes>, tag: byte): bytes {
    DataRecord(o.Some?, tag, |Or(o, [])|, Or(o, []))
  }

  /** An int32 record is its tag and a varint that is the number in 64-bit two's complement. */
  lemma Int32RecordMeans(i: int32, tag: byte, t: bytes)
    ensures var s := Int32Record(Some(i), tag) + t;
            && s[0] == tag
            && match ReadVarint64(s[1..])
               case Bad => false
               case Ok(v, rest) =>
                 (if v < 0x8000_0000_0000_0000 then v else v - 0x1_0000_0000_0000_0000) == i && rest == t
  {
    hide EncVarint, ReadVarint64;
    SignExtended(i, t);
    assert (Int32Record(Some(i), tag) + t)[1..] == EncVarint(Int32ToVarint(i)) + t;
  }

  /** A version of minus one, and a connected number of minus one. */
  lemma MinusOneRecords()
    ensures LoginBytes(Login(None, None, Some(-1), [])) ==
            [0x20, 0xFF, 0xFF, 0xFF, 0xFF, 0xFF, 0xFF, 0xFF, 0xFF, 0xFF, 0x01]
    ensures ConnectedBytes(Connected(Some(-1), None, [])) ==
            [0x08, 0xFF, 0xFF, 0xFF, 0xFF, 0xFF, 0xFF, 0xFF, 0xFF, 0xFF, 0x01]
  {
    hide EncVarint, LoginBytes, ConnectedBytes;
    MinusOne();
    LoginPieces(Login(None, None, Some(-1), []));
    ConnectedPieces(Connected(Some(-1), None, []));
    NoFieldsNoBytes();
  }

  lemma Absent(tag: byte)
    ensures StringRecord(None, tag) == [] && Int32Record(None, tag) == []
  {
  }

  lemma EncMaybe(present: bool, num: FieldNumber, val: Value, tag: byte, fs: seq<Field>)
    requires 8 * num + WireType(val) == tag < 128
    ensures EncFields(Maybe(present, num, val) + fs)
         == (if present then [tag] + EncBody(Field(num, val)) else []) + EncFields(fs)
  {
    if present {
      var f := Field(num, val);
      assert (Maybe(present, num, val) + fs)[1..] == fs;
      assert EncFields(Maybe(present, num, val) + fs) == EncField(f) + EncFields(fs);
      assert EncTag(num, WireType(val)) == [tag];
    } else {
      assert Maybe(present, num, val) + fs == fs;
    }
  }

  lemma EncMaybeData(present: bool, num: FieldNumber, b: bytes, tag: byte, fs: seq<Field>)
    requires 8 * num + LENGTH_DELIMITED == tag < 128
    ensures EncFields(Maybe(present, num, Data(b)) + fs) == DataRecord(present, tag, |b|, b) + EncFields(fs)
  {
    EncMaybe(present, num, Data(b), tag, fs);
  }

  lemma EncMaybeInt32(o: Option<int32>, num: FieldNumber, tag: byte, fs: seq<Field>)
    requires 8 * num + VARINT == tag < 128
    ensures EncFields(Maybe(o.Some?, num, Varint(Int32ToVarint(Or(o, 0)))) + fs) == Int32Record(o, tag) + EncFields(fs)
  {
    EncMaybe(o.Some?, num, Varint(Int32ToVarint(Or(o, 0))), tag, fs);
  }

  lemma LoginPieces(l: Login)
    ensures LoginBytes(l) == StringRecord(l.username, 18) + (StringRecord(l.password, 26) +
                             (Int32Record(l.version, 32) + EncFields(l.unknown)))
  {
    var fs2 := Maybe(l.version.Some?, 4, Varint(Int32ToVarint(Or(l.version, 0)))) + l.unknown;
    var fs1 := Maybe(l.password.Some?, 3, Data(Or(l.password, []))) + fs2;
    EncMaybeData(l.username.Some?, 2, Or(l.username, []), 18, fs1);
    EncMaybeData(l.password.Some?, 3, Or(l.password, []), 26, fs2);
    EncMaybeInt32(l.version, 4, 32, l.unknown);
  }

  lemma ConnectedPieces(p: Connected)
    ensures ConnectedBytes(p) == Int32Record(p.connected, 8) + (StringRecord(p.characterList, 18) +
                                 EncFields(p.unknown))
  {
    var fs1 := Maybe(p.characterList.Some?, 2, Data(Or(p.characterList, []))) + p.unknown;
    EncMaybeInt32(p.connected, 1, 8, fs1);
    EncMaybeData(p.characterList.Some?, 2, Or(p.characterList, []), 18, p.unknown);
  }

  /** What a header's serialisers write when the cached sizes of its submessages are l and p. */
  function HeaderWith(h: Header, l: nat, p: nat): bytes {
    DataRecord(h.login.Some?, 10, l, LoginBytes(Or(h.login, NO_LOGIN))) +
    (DataRecord(h.connected.Some?, 18, p, ConnectedBytes(Or(h.connected, NO_CONNECTED))) +
     (StringRecord(h.authCode, 26) + EncFields(h.unknown)))
  }

  lemma HeaderPieces(h: Header)
    ensures HeaderBytes(h) ==
            HeaderWith(h, |LoginBytes(Or(h.login, NO_LOGIN))|, |ConnectedBytes(Or(h.connected, NO_CONNECTED))|)
  {
    hide LoginBytes, ConnectedBytes;
    var login, connected := LoginBytes(Or(h.login, NO_LOGIN)), ConnectedBytes(Or(h.connected, NO_CONNECTED));
    var fs2 := Maybe(h.authCode.Some?, 3, Data(Or(h.authCode, []))) + h.unknown;
    var fs1 := Maybe(h.connected.Some?, 2, Data(connected)) + fs2;
    EncMaybeData(h.login.Some?, 1, login, 10, fs1);
    EncMaybeData(h.connected.Some?, 2, connected, 18, fs2);
    EncMaybeData(h.authCode.Some?, 3, Or(h.authCode, []), 26, h.unknown);
  }

  /** Two varint-prefixed texts are equal only if the prefixes are. */
  lemma PrefixesAgree(a: nat, x: bytes, b: nat, y: bytes)
    requires a < TWO64 && b < TWO64
    requires EncVarint(a) + x == EncVarint(b) + y
    ensures a == b && x == y
  {
    Varint64RoundTrip(a, x);
    Varint64RoundTrip(b, y);
  }

  lemma RecordTail(tag: byte, n: bytes, body: bytes, x: bytes)
    ensures ([tag] + (n + body) + x)[1..] == n + (body + x)
  {
  }

  lemma CutPrefix(body: bytes, x: bytes, y: bytes)
    requires body + x == body + y
    ensures x == y
  {
    assert (body + x)[|body|..] == x && (body + y)[|body|..] == y;
  }

  lemma RecordsAgree(present: bool, tag: byte, a: nat, x: bytes, b: nat, y: bytes, body: bytes)
    requires a < TWO64 && b < TWO64
    requires DataRecord(present, tag, a, body) + x == DataRecord(present, tag, b, body) + y
    ensures (present ==> a == b) && x == y
  {
    hide EncVarint;
    if present {
      RecordTail(tag, EncVarint(a), body, x);
      RecordTail(tag, EncVarint(b), body, y);
      PrefixesAgree(a, body + x, b, body + y);
      CutPrefix(body, x, y);
    } else {
      CutPrefix([], x, y);
    }
  }

  /** The serialisers write the right bytes exactly when every length prefix they use is the true length. */
  lemma CachedSizesMatter(h: Header, l: nat, p: nat)
    requires l < TWO64 && p < TWO64 && |HeaderBytes(h)| <= MAX_INT
    ensures HeaderWith(h, l, p) == HeaderBytes(h) <==>
            (h.login.Some? ==> l == |LoginBytes(h.login.value)|) &&
            (h.connected.Some? ==> p == |ConnectedBytes(h.connected.value)|)
  {
    HeaderPieces(h);
    SubmessagesFit(h);
    hide LoginBytes, ConnectedBytes, HeaderBytes, EncFields, EncVarint;
    var login, connected := LoginBytes(Or(h.login, NO_LOGIN)), ConnectedBytes(Or(h.connected, NO_CONNECTED));
    var l1 := if h.login.Some? then |login| else 0;
    var p1 := if h.connected.Some? then |connected| else 0;
    assert HeaderBytes(h) == HeaderWith(h, l1, p1);
    if HeaderWith(h, l, p) == HeaderBytes(h) {
      var tail := StringRecord(h.authCode, 26) + EncFields(h.unknown);
      var x := DataRecord(h.connected.Some?, 18, p, connected) + tail;
      var y := DataRecord(h.connected.Some?, 18, p1, connected) + tail;
      RecordsAgree(h.login.Some?, 10, l, x, l1, y, login);
      RecordsAgree(h.connected.Some?, 18, p, tail, p1, tail, connected);
    }
  }

  // ------------------------------------------------------------------
  // Record sizes, and pieces written one after the other
  // ------------------------------------------------------------------

  lemma StringRecordSize(o: Option<bytes>, tag: byte)
    requires |Or(o, [])| <= MAX_INT
    ensures |StringRecord(o, tag)| == if o.Some? then 1 + DataSize(|o.value|) else 0
  {
    VarintSizeExact(|Or(o, [])|);
  }

  lemma Int32RecordSize(o: Option<int32>, tag: byte)
    ensures |Int32Record(o, tag)| == if o.Some? then 1 + Int32Size(o.value) else 0
  {
    Int32SizeExact(Or(o, 0));
  }

  lemma LoginSize(l: Login)
    requires |LoginBytes(l)| <= MAX_INT
    ensures |Or(l.username, [])| <= MAX_INT && |Or(l.password, [])| <= MAX_INT && |EncFields(l.unknown)| <= MAX_INT
    ensures |LoginBytes(l)| == (if l.username.Some? then 1 + DataSize(|l.username.value|) else 0)
                             + (if l.password.Some? then 1 + DataSize(|l.password.value|) else 0)
                             + (if l.version.Some? then 1 + Int32Size(l.version.value) else 0)
                             + FieldsSize(l.unknown)
  {
    hide LoginBytes, EncFields;
    LoginPieces(l);
    StringRecordSize(l.username, 18);
    StringRecordSize(l.password, 26);
    Int32RecordSize(l.version, 32);
    FieldsSizeExact(l.unknown);
  }

  lemma ConnectedSize(p: Connected)
    requires |ConnectedBytes(p)| <= MAX_INT
    ensures |Or(p.characterList, [])| <= MAX_INT && |EncFields(p.unknown)| <= MAX_INT
    ensures |ConnectedBytes(p)| == (if p.connected.Some? then 1 + Int32Size(p.connected.value) else 0)
                                 + (if p.characterList.Some? then 1 + DataSize(|p.characterList.value|) else 0)
                                 + FieldsSize(p.unknown)
  {
    hide ConnectedBytes, EncFields;
    ConnectedPieces(p);
    Int32RecordSize(p.connected, 8);
    StringRecordSize(p.characterList, 18);
    FieldsSizeExact(p.unknown);
  }

  lemma DataRecordSize(present: bool, tag: byte, b: bytes)
    requires |b| <= MAX_INT
    ensures |DataRecord(present, tag, |b|, b)| == if present then 1 + DataSize(|b|) else 0
  {
    VarintSizeExact(|b|);
  }

  lemma HeaderSize(h: Header)
    requires |HeaderBytes(h)| <= MAX_INT
    ensures h.login.Some? ==> |LoginBytes(h.login.value)| <= MAX_INT
    ensures h.connected.Some? ==> |ConnectedBytes(h.connected.value)| <= MAX_INT
    ensures |Or(h.authCode, [])| <= MAX_INT && |EncFields(h.unknown)| <= MAX_INT
    ensures |HeaderBytes(h)| == (if h.login.Some? then 1 + DataSize(|LoginBytes(h.login.value)|) else 0)
                              + (if h.connected.Some? then 1 + DataSize(|ConnectedBytes(h.connected.value)|) else 0)
                              + (if h.authCode.Some? then 1 + DataSize(|h.authCode.value|) else 0)
                              + FieldsSize(h.unknown)
  {
    SubmessagesFit(h);
    hide HeaderBytes, LoginBytes, ConnectedBytes, EncFields, DataSize;
    HeaderPieces(h);
    if h.login.Some? { DataRecordSize(true, 10, LoginBytes(h.login.value)); }
    if h.connected.Some? { DataRecordSize(true, 18, ConnectedBytes(h.connected.value)); }
    StringRecordSize(h.authCode, 26);
    FieldsSizeExact(h.unknown);
  }

  lemma ConcatAssociative(a: bytes, b: bytes, c: bytes)
    ensures a + b + c == a + (b + c)
  {
  }

  lemma Append3(s: bytes, a: bytes, b: bytes, c: bytes)
    ensures s + a + b + c == s + (a + (b + c))
  {
  }

  lemma Append4(s: bytes, a: bytes, b: bytes, c: bytes, d: bytes)
    ensures s + a + b + c + d == s + (a + (b + (c + d)))
  {
  }
}
