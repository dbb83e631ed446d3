/**
 The read-tag-and-dispatch loop shared by the three generated parsers, as a function: what one
 record does to a message is a parameter, the order of records and the ways to stop are not.
 */
module MessageLoop {
  import opened Bytes
  import opened WireFormat

  /** What stands at the front of the input. */
  datatype Item =
    | End
    | NoTag(rest: bytes)                       // ReadTag() answers 0 but the input is not at its end
    | EndGroupTag(tag: uint32, rest: bytes)
    | BadField(tag: uint32)
    | Good(f: Field, rest: bytes)

  function NextItem(s: bytes): (r: Item)
    ensures r.Good? ==> ProperSuffix(r.rest, s)
  {
    if s == [] then End
    else
      match ReadVarint32(s)
      case Bad => NoTag(s)
      case Ok(tag, s1) =>
        if tag == 0 then NoTag(s1)
        else if TagWireType(tag) == END_GROUP then EndGroupTag(tag, s1)
        else
          match ReadBody(tag, s1)
          case Bad => BadField(tag)
          case Ok(f, s2) => Good(f, s2)
  }

  datatype Step<+M> = Next(msg: M) | Broken(msg: M)

  /** How a message takes a record, and what it looks like when the record of some tag is cut short. */
  datatype Codec<!M> = Codec(step: (M, Field) -> Step<M>, touch: (M, uint32) -> M)

  datatype Ending = AtEnd | AtNoTag | AtEndGroup(tag: uint32)

  /** A parser returns false (Failed), or true for one of three reasons; only AtEnd is a complete message. */
  datatype Outcome<+M> = Failed(msg: M) | Stopped(msg: M, rest: bytes, why: Ending)

  function Loop<M>(c: Codec<M>, m: M, s: bytes): Outcome<M>
    decreases |s|
  {
    match NextItem(s)
    case End => Stopped(m, [], AtEnd)
    case NoTag(rest) => Stopped(m, rest, AtNoTag)
    case EndGroupTag(tag, rest) => Stopped(m, rest, AtEndGroup(tag))
    case BadField(tag) => Failed(c.touch(m, tag))
    case Good(f, rest) =>
      match c.step(m, f)
      case Broken(m1) => Failed(m1)
      case Next(m1) => Loop(c, m1, rest)
  }

  /** The loop once a tag has been read. */
  function AfterTag<M>(c: Codec<M>, m: M, tag: uint32, s: bytes): Outcome<M> {
    if TagWireType(tag) == END_GROUP then Stopped(m, s, AtEndGroup(tag))
    else
      match ReadBody(tag, s)
      case Bad => Failed(c.touch(m, tag))
      case Ok(f, rest) =>
        match c.step(m, f)
        case Broken(m1) => Failed(m1)
        case Next(m1) => Loop(c, m1, rest)
  }

  lemma LoopReadsTag<M>(c: Codec<M>, m: M, s: bytes)
    ensures match ReadVarint32(s)
            case Bad => Loop(c, m, s) == Stopped(m, s, if s == [] then AtEnd else AtNoTag)
            case Ok(tag, rest) =>
              Loop(c, m, s) == if tag == 0 then Stopped(m, rest, AtNoTag) else AfterTag(c, m, tag, rest)
  {
  }

  /** What a successful ExpectTag has consumed. */
  function Ahead(expected: byte): bytes {
    if expected == 0 then [] else [expected]
  }

  lemma AheadOfNothing(s: bytes)
    ensures Ahead(0) + s == s
  {
  }

  lemma LoopExpectsTag<M>(c: Codec<M>, m: M, expected: byte, rest: bytes)
    requires 0 < expected < 128
    ensures Loop(c, m, Ahead(expected) + rest) == AfterTag(c, m, expected, rest)
  {
    hide Loop, AfterTag, ReadVarint32;
    OneByteVarint(expected, rest);
    LoopReadsTag(c, m, Ahead(expected) + rest);
  }

  lemma {:induction false} AtEndLeavesNothing<M>(c: Codec<M>, m: M, s: bytes)
    requires Loop(c, m, s).Stopped? && Loop(c, m, s).why.AtEnd?
    ensures Loop(c, m, s).rest == []
    decreases |s|
  {
    if NextItem(s).Good? {
      AtEndLeavesNothing(c, c.step(m, NextItem(s).f).msg, NextItem(s).rest);
    }
  }

  /** The three ways to stop: the end of the input, a zero byte for a tag, an end-of-group tag. */
  lemma LoopStops<M>(c: Codec<M>, m: M, n: nat, t: bytes)
    requires n < 16
    ensures Loop(c, m, []) == Stopped(m, [], AtEnd)
    ensures Loop(c, m, [0] + t) == Stopped(m, t, AtNoTag)
    ensures Loop(c, m, [8 * n + 4] + t) == Stopped(m, t, AtEndGroup(8 * n + 4))
  {
    hide ReadVarint32;
    OneByteVarint(0, t);
    OneByteVarint(8 * n + 4, t);
  }

  /** Parsing that must consume the entire message. */
  function Parse<M>(c: Codec<M>, m: M, s: bytes): Option<M> {
    match Loop(c, m, s)
    case Stopped(m1, _, AtEnd) => Some(m1)
    case _ => None
  }

  // ------------------------------------------------------------------
  // A complete parse is a fold over the records of the input
  // ------------------------------------------------------------------

  function Records(s: bytes): Option<seq<Field>>
    decreases |s|
  {
    match NextItem(s)
    case End => Some([])
    case Good(f, rest) =>
      (match Records(rest)
       case None => None
       case Some(fs) => Some([f] + fs))
    case _ => None
  }

  function Fold<M>(c: Codec<M>, m: M, fs: seq<Field>): Step<M> {
    if fs == [] then Next(m)
    else
      match c.step(m, fs[0])
      case Broken(m1) => Broken(m1)
      case Next(m1) => Fold(c, m1, fs[1..])
  }

  function Folded<M>(c: Codec<M>, m: M, fs: Option<seq<Field>>): Option<M> {
    if fs.None? then None
    else
      match Fold(c, m, fs.value)
      case Broken(_) => None
      case Next(m1) => Some(m1)
  }

  lemma {:induction false} ParseIsFold<M>(c: Codec<M>, m: M, s: bytes)
    ensures Parse(c, m, s) == Folded(c, m, Records(s))
    decreases |s|
  {
    match NextItem(s)
    case Good(f, rest) =>
      if c.step(m, f).Next? {
        ParseIsFold(c, c.step(m, f).msg, rest);
      }
      if Records(rest).Some? {
        assert ([f] + Records(rest).value)[1..] == Records(rest).value;
      }
    case _ =>
  }

  lemma NextItemStable(s: bytes, t: bytes)
    requires NextItem(s).Good?
    ensures NextItem(s + t) == Good(NextItem(s).f, NextItem(s).rest + t)
  {
    VarintStable(s, 10, t);
    var Ok(tag, s1) := ReadVarint32(s);
    BodyStable(tag, s1, t);
  }

  lemma NextItemOfFields(fs: seq<Field>, t: bytes)
    requires fs != [] && |EncFields(fs)| <= MAX_INT
    ensures NextItem(EncFields(fs) + t) == Good(fs[0], EncFields(fs[1..]) + t)
  {
    hide TagNumber, TagWireType, MakeTag;
    var f, after := fs[0], EncFields(fs[1..]) + t;
    FirstField(fs, t);
    TagRoundTrip(f.num, WireType(f.val), EncBody(f) + after);
    BodyRoundTrip(f, after);
  }

  /** The records of a serialised list of fields are those fields. */
  lemma {:induction false} RecordsOfFields(fs: seq<Field>)
    requires |EncFields(fs)| <= MAX_INT
    ensures Records(EncFields(fs)) == Some(fs)
  {
    if fs != [] {
      FirstField(fs, []);
      assert EncFields(fs) + [] == EncFields(fs) && EncFields(fs[1..]) + [] == EncFields(fs[1..]);
      NextItemOfFields(fs, []);
      RecordsOfFields(fs[1..]);
      assert fs == [fs[0]] + fs[1..];
    }
  }

  /** After a complete message the loop goes on with what follows it. */
  lemma {:induction false} LoopConcat<M>(c: Codec<M>, m: M, a: bytes, b: bytes)
    requires Parse(c, m, a).Some?
    ensures Loop(c, m, a + b) == Loop(c, Parse(c, m, a).value, b)
    decreases |a|
  {
    if a == [] {
      assert a + b == b;
    } else {
      NextItemStable(a, b);
      var Good(f, rest) := NextItem(a);
      LoopConcat(c, c.step(m, f).msg, rest, b);
    }
  }

  /** What every step and every cut-short record keeps holds after any input, accepted or not. */
  lemma {:induction false} LoopKeeps<M(!new)>(c: Codec<M>, keeps: M -> bool, m: M, s: bytes)
    requires keeps(m)
    requires forall x, f :: keeps(x) ==> keeps(c.step(x, f).msg)
    requires forall x, tag :: keeps(x) ==> keeps(c.touch(x, tag))
    ensures keeps(Loop(c, m, s).msg)
    decreases |s|
  {
    match NextItem(s)
    case Good(f, rest) =>
      if c.step(m, f).Next? {
        LoopKeeps(c, keeps, c.step(m, f).msg, rest);
      }
    case _ =>
  }

  /** A field that may be absent, as a list of at most one. */
  function Maybe(present: bool, num: FieldNumber, val: Value): seq<Field> {
    if present then [Field(num, val)] else []
  }

  lemma FoldMaybe<M>(c: Codec<M>, m: M, present: bool, num: FieldNumber, val: Value, fs: seq<Field>)
    requires present ==> c.step(m, Field(num, val)).Next?
    ensures Fold(c, m, Maybe(present, num, val) + fs)
         == Fold(c, if present then c.step(m, Field(num, val)).msg else m, fs)
  {
    if present {
      assert (Maybe(present, num, val) + fs)[1..] == fs;
    } else {
      assert Maybe(present, num, val) + fs == fs;
    }
  }

  // ------------------------------------------------------------------
  // Parsing is a merge homomorphism, whenever one record is merged
  // ------------------------------------------------------------------

  ghost predicate RecordMerges<M>(c: Codec<M>, empty: M, merge: (M, M) -> M, m: M, f: Field) {
    match c.step(empty, f)
    case Broken(_) => c.step(m, f).Broken?
    case Next(d) => c.step(m, f) == Next(merge(m, d))
  }

  ghost predicate StepMerges<M(!new)>(c: Codec<M>, empty: M, merge: (M, M) -> M) {
    forall m: M, f: Field :: RecordMerges(c, empty, merge, m, f)
  }

  ghost predicate Monoid<M(!new)>(empty: M, merge: (M, M) -> M) {
    && (forall a :: merge(a, empty) == a && merge(empty, a) == a)
    && (forall a, b, d :: merge(merge(a, b), d) == merge(a, merge(b, d)))
  }

  lemma {:induction false} FoldMerges<M(!new)>(c: Codec<M>, empty: M, merge: (M, M) -> M, m: M, fs: seq<Field>)
    requires StepMerges(c, empty, merge) && Monoid(empty, merge)
    ensures Fold(c, empty, fs).Next? == Fold(c, m, fs).Next?
    ensures Fold(c, m, fs).Next? ==> Fold(c, m, fs).msg == merge(m, Fold(c, empty, fs).msg)
    decreases |fs|
  {
    if fs == [] {
      assert merge(m, empty) == m;
    } else {
      assert RecordMerges(c, empty, merge, m, fs[0]);
      if c.step(empty, fs[0]).Next? {
        var d := c.step(empty, fs[0]).msg;
        FoldMerges(c, empty, merge, merge(m, d), fs[1..]);
        FoldMerges(c, empty, merge, d, fs[1..]);
        if Fold(c, d, fs[1..]).Next? {
          var x := Fold(c, empty, fs[1..]).msg;
          assert merge(merge(m, d), x) == merge(m, merge(d, x));
        }
      }
    }
  }

  ghost function Merged<M>(merge: (M, M) -> M, m: M, d: Option<M>): Option<M> {
    match d
    case None => None
    case Some(x) => Some(merge(m, x))
  }

  lemma ParseMerges<M(!new)>(c: Codec<M>, empty: M, merge: (M, M) -> M, m: M, s: bytes)
    requires StepMerges(c, empty, merge) && Monoid(empty, merge)
    ensures Parse(c, m, s) == Merged(merge, m, Parse(c, empty, s))
  {
    ParseIsFold(c, m, s);
    ParseIsFold(c, empty, s);
    if Records(s).Some? {
      FoldMerges(c, empty, merge, m, Records(s).value);
    }
  }

  lemma ParseConcatMerges<M(!new)>(c: Codec<M>, empty: M, merge: (M, M) -> M, a: bytes, b: bytes)
    requires StepMerges(c, empty, merge) && Monoid(empty, merge)
    requires Parse(c, empty, a).Some?
    ensures Parse(c, empty, a + b) == Merged(merge, Parse(c, empty, a).value, Parse(c, empty, b))
  {
    LoopConcat(c, empty, a, b);
    ParseMerges(c, empty, merge, Parse(c, empty, a).value, b);
  }
}
