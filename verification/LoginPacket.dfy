/** PacketHeader_LoginPacket of packet.pb.h and packet.pb.cc. */
module LoginPackets {
  import opened Bytes
  import opened WireFormat
  import opened MessageLoop
  import opened Messages
  import opened Serialization
  import opened Sizes
  import opened CodedStream

  // What the loop does after each kind of tag.

  predicate IsLoginTag(tag: uint32) {
    tag == 18 || tag == 26 || tag == 32
  }

  lemma LoginTags(tag: uint32)
    ensures TagNumber(tag) == 2 && TagWireType(tag) == LENGTH_DELIMITED <==> tag == 18
    ensures TagNumber(tag) == 3 && TagWireType(tag) == LENGTH_DELIMITED <==> tag == 26
    ensures TagNumber(tag) == 4 && TagWireType(tag) == VARINT <==> tag == 32
  {
  }

  lemma AfterLoginString(m: Login, tag: uint32, s: bytes)
    requires tag == 18 || tag == 26
    ensures AfterTag(LOGIN, m, tag, s) ==
            match ReadData(s)
            case Bad => Failed(LoginTouch(m, tag))
            case Ok(b, rest) =>
              Loop(LOGIN, if tag == 18 then m.(username := Some(b)) else m.(password := Some(b)), rest)
  {
    hide Loop, ReadData, ReadBody;
    BodyOfData(tag, s);
  }

  lemma AfterLoginVersion(m: Login, s: bytes)
    ensures AfterTag(LOGIN, m, 32, s) ==
            match ReadVarint32(s)
            case Bad => Failed(m)
            case Ok(v, rest) => Loop(LOGIN, m.(version := Some(VarintToInt32(v))), rest)
  {
    hide Loop, ReadVarint32, ReadBody, VarintToInt32;
    BodyOfInt32(32, s);
  }

  lemma AfterLoginUnknown(m: Login, tag: uint32, s: bytes)
    requires !IsLoginTag(tag)
    ensures AfterTag(LOGIN, m, tag, s) ==
            if TagWireType(tag) == END_GROUP then Stopped(m, s, AtEndGroup(tag))
            else
              match ReadBody(tag, s)
              case Bad => Failed(m)
              case Ok(f, rest) => Loop(LOGIN, m.(unknown := m.unknown + [f]), rest)
  {
  }

  /** A whole record at the front of the input sets its field, whatever it was, and the loop goes on. */
  lemma LoginTextRecords(m: Login, b: bytes, t: bytes)
    requires |b| <= 0x7FFF_FFFF
    ensures Loop(LOGIN, m, [18] + (EncVarint(|b|) + b + t)) == Loop(LOGIN, m.(username := Some(b)), t)
    ensures Loop(LOGIN, m, [26] + (EncVarint(|b|) + b + t)) == Loop(LOGIN, m.(password := Some(b)), t)
  {
    hide Loop, AfterTag, ReadData, EncVarint;
    DataRoundTrip(b, t);
    var s := EncVarint(|b|) + b + t;
    LoopExpectsTag(LOGIN, m, 18, s);
    LoopExpectsTag(LOGIN, m, 26, s);
    AfterLoginString(m, 18, s);
    AfterLoginString(m, 26, s);
  }

  lemma LoginVersionRecord(m: Login, v: uint64, t: bytes)
    ensures var u := v % 0x1_0000_0000;
            var i := if u < 0x8000_0000 then u else u - 0x1_0000_0000;
            Loop(LOGIN, m, [32] + (EncVarint(v) + t)) == Loop(LOGIN, m.(version := Some(i)), t)
  {
    hide Loop, AfterTag, EncVarint, ReadVarint32, VarintToInt32;
    LowWord(v);
    Varint64RoundTrip(v, t);
    LoopExpectsTag(LOGIN, m, 32, EncVarint(v) + t);
    AfterLoginVersion(m, EncVarint(v) + t);
  }

  /** A record cut short fails the parse; a text is present by then, with what it held before. */
  lemma LoginCut(m: Login, s: bytes)
    ensures ReadData(s) == Bad ==>
              && Loop(LOGIN, m, [18] + s) == Failed(m.(username := if m.username.Some? then m.username else Some([])))
              && Loop(LOGIN, m, [26] + s) == Failed(m.(password := if m.password.Some? then m.password else Some([])))
    ensures ReadVarint32(s) == Bad ==> Loop(LOGIN, m, [32] + s) == Failed(m)
  {
    hide Loop, AfterTag, ReadData, ReadVarint32;
    LoopExpectsTag(LOGIN, m, 18, s);
    LoopExpectsTag(LOGIN, m, 26, s);
    LoopExpectsTag(LOGIN, m, 32, s);
    AfterLoginString(m, 18, s);
    AfterLoginString(m, 26, s);
    AfterLoginVersion(m, s);
  }

  class LoginPacket {
    var username_: StringPtr
    var password_: StringPtr
    var version_: int32
    var unknown: seq<Field>
    var cachedSize: CachedSize
    var hasBits: bv32

    /** A clear presence bit means the field holds its default. */
    ghost predicate Valid()
      reads this
    {
      && hasBits & 0xFFFF_FFF8 == 0
      && (hasBits & 1 == 0 ==> Text(username_) == [])
      && (hasBits & 2 == 0 ==> Text(password_) == [])
      && (hasBits & 4 == 0 ==> version_ == 0)
    }

    /** What holds even while a caller writes through a string pointer it got earlier. */
    ghost predicate Sound()
      reads this
    {
      hasBits & 0xFFFF_FFF8 == 0
    }

    /** The fields Clear() passes over hold their defaults: its test for any bit covers the version. */
    ghost predicate Clears()
      reads this
    {
      && (hasBits & 1 == 0 ==> Text(username_) == [])
      && (hasBits & 2 == 0 ==> Text(password_) == [])
      && (hasBits & 7 == 0 ==> version_ == 0)
    }

    function Value(): Login
      reads this
    {
      Login(
        if hasBits & 1 != 0 then Some(Text(username_)) else None,
        if hasBits & 2 != 0 then Some(Text(password_)) else None,
        if hasBits & 4 != 0 then Some(version_) else None,
        unknown)
    }

    constructor ()
      ensures Valid() && Value() == NO_LOGIN && cachedSize == 0
    {
      username_, password_, version_, unknown, cachedSize, hasBits := None, None, 0, [], 0, 0;
      new;
      LowByteDecides(0);
    }

    // --- accessors ---------------------------------------------------

    /** mutable_username(): the field becomes present and keeps its text, which the caller may go on to change. */
    method MutableUsername() returns (text: bytes)
      requires Sound()
      modifies this`hasBits, this`username_
      ensures Sound() && username_ == Some(text) && text == Text(old(username_))
      ensures Value() == old(Value()).(username := Some(text))
      ensures old(Valid()) ==> Valid() && text == Or(old(Value()).username, [])
    {
      PresenceBit1(hasBits);
      hasBits := hasBits | 1;
      if username_ == None { username_ := Some([]); }
      text := Text(username_);
    }

    /**
     A write through the pointer mutable_username() gave. It may come at any later time, and breaks the
     invariant exactly when the field is no longer present by then.
     */
    method WriteUsername(b: bytes)
      requires Sound() && username_.Some?
      modifies this`username_
      ensures Sound() && username_ == Some(b)
      ensures Value() == if hasBits & 1 != 0 then old(Value()).(username := Some(b)) else old(Value())
      ensures old(Valid()) ==> (Valid() <==> hasBits & 1 != 0 || b == [])
    {
      username_ := Some(b);
    }

    method SetUsername(b: bytes)
      requires Valid()
      modifies this`hasBits, this`username_
      ensures Valid() && Value() == old(Value()).(username := Some(b))
    {
      PresenceBit1(hasBits);
      hasBits := hasBits | 1;
      if username_ == None { username_ := Some([]); }
      username_ := Some(b);
    }

    method ClearUsername()
      requires Valid()
      modifies this`hasBits, this`username_
      ensures Valid() && Value() == old(Value()).(username := None)
      ensures username_.Some? == old(username_.Some?)    // an allocated string stays, emptied
    {
      PresenceBit1(hasBits);
      if username_ != None { username_ := Some([]); }
      hasBits := hasBits & 0xFFFF_FFFE;
    }

    /** Hands the string over to the caller; null if it was never allocated. */
    method ReleaseUsername() returns (p: StringPtr)
      requires Valid()
      modifies this`hasBits, this`username_
      ensures Valid() && Value() == old(Value()).(username := None)
      ensures username_ == None && p == old(username_) && Text(p) == Or(old(Value()).username, [])
    {
      PresenceBit1(hasBits);
      hasBits := hasBits & 0xFFFF_FFFE;
      p := username_;
      username_ := None;
    }

    method SetAllocatedUsername(p: StringPtr)
      requires Valid()
      modifies this`hasBits, this`username_
      ensures Valid() && Value() == old(Value()).(username := p)
    {
      PresenceBit1(hasBits);
      hasBits := if p != None then hasBits | 1 else hasBits & 0xFFFF_FFFE;
      username_ := p;
    }

    method MutablePassword() returns (text: bytes)
      requires Sound()
      modifies this`hasBits, this`password_
      ensures Sound() && password_ == Some(text) && text == Text(old(password_))
      ensures Value() == old(Value()).(password := Some(text))
      ensures old(Valid()) ==> Valid() && text == Or(old(Value()).password, [])
    {
      PresenceBit2(hasBits);
      hasBits := hasBits | 2;
      if password_ == None { password_ := Some([]); }
      text := Text(password_);
    }

    method WritePassword(b: bytes)
      requires Sound() && password_.Some?
      modifies this`password_
      ensures Sound() && password_ == Some(b)
      ensures Value() == if hasBits & 2 != 0 then old(Value()).(password := Some(b)) else old(Value())
      ensures old(Valid()) ==> (Valid() <==> hasBits & 2 != 0 || b == [])
    {
      password_ := Some(b);
    }

    method SetPassword(b: bytes)
      requires Valid()
      modifies this`hasBits, this`password_
      ensures Valid() && Value() == old(Value()).(password := Some(b))
    {
      PresenceBit2(hasBits);
      hasBits := hasBits | 2;
      if password_ == None { password_ := Some([]); }
      password_ := Some(b);
    }

    method ClearPassword()
      requires Valid()
      modifies this`hasBits, this`password_
      ensures Valid() && Value() == old(Value()).(password := None)
      ensures password_.Some? == old(password_.Some?)    // an allocated string stays, emptied
    {
      PresenceBit2(hasBits);
      if password_ != None { password_ := Some([]); }
      hasBits := hasBits & 0xFFFF_FFFD;
    }

    /** Hands the string over to the caller; null if it was never allocated. */
    method ReleasePassword() returns (p: StringPtr)
      requires Valid()
      modifies this`hasBits, this`password_
      ensures Valid() && Value() == old(Value()).(password := None)
      ensures password_ == None && p == old(password_) && Text(p) == Or(old(Value()).password, [])
    {
      PresenceBit2(hasBits);
      hasBits := hasBits & 0xFFFF_FFFD;
      p := password_;
      password_ := None;
    }

    method SetAllocatedPassword(p: StringPtr)
      requires Valid()
      modifies this`hasBits, this`password_
      ensures Valid() && Value() == old(Value()).(password := p)
    {
      PresenceBit2(hasBits);
      hasBits := if p != None then hasBits | 2 else hasBits & 0xFFFF_FFFD;
      password_ := p;
    }

    method SetVersion(i: int32)
      requires Valid()
      modifies this`hasBits, this`version_
      ensures Valid() && Value() == old(Value()).(version := Some(i))
    {
      PresenceBit4(hasBits);
      hasBits := hasBits | 4;
      version_ := i;
    }

    method ClearVersion()
      requires Valid()
      modifies this`hasBits, this`version_
      ensures Valid() && Value() == old(Value()).(version := None)
    {
      PresenceBit4(hasBits);
      version_ := 0;
      hasBits := hasBits & 0xFFFF_FFFB;
    }

    // --- whole-message operations --------------------------------------

    predicate IsInitialized()
      requires Valid()
      reads this
      ensures IsInitialized() <==> Value().username.Some? && Value().password.Some?
    {
      LowByteDecides(hasBits);
      hasBits & 3 == 3
    }

    /**
     Clears only what a presence bit admits to. The value is that of a fresh message; every field is at
     its default exactly when those passed over were.
     */
    method Clear()
      requires Sound()
      modifies this
      ensures Sound() && Value() == NO_LOGIN && hasBits == 0 && cachedSize == old(cachedSize)
      ensures Text(username_) == if old(hasBits & 1 != 0) then [] else old(Text(username_))
      ensures Text(password_) == if old(hasBits & 2 != 0) then [] else old(Text(password_))
      ensures Valid() <==> old(Clears())
    {
      LowByteDecides(hasBits);
      LowByteDecides(0);
      if hasBits & 0xFF != 0 {
        if hasBits & 1 != 0 {
          if username_ != None { username_ := Some([]); }
        }
        if hasBits & 2 != 0 {
          if password_ != None { password_ := Some([]); }
        }
        version_ := 0;
      }
      hasBits := 0;
      unknown := [];
    }

    /** While the invariant holds, Clear() leaves nothing behind. */
    lemma ValidClears()
      requires Valid()
      ensures Sound() && Clears()
    {
      LowByteDecides(hasBits);
    }

    method MergeFrom(from: LoginPacket)
      requires from != this && Valid() && from.Valid()
      modifies this
      ensures Valid() && Value() == MergeLogin(old(Value()), from.Value())
      ensures cachedSize == old(cachedSize)
    {
      LowByteDecides(from.hasBits);
      if from.hasBits & 0xFF != 0 {
        if from.hasBits & 1 != 0 { SetUsername(Text(from.username_)); }
        if from.hasBits & 2 != 0 { SetPassword(Text(from.password_)); }
        if from.hasBits & 4 != 0 { SetVersion(from.version_); }
      }
      unknown := unknown + from.unknown;
    }

    method CopyFrom(from: LoginPacket)
      requires Valid() && from.Valid()
      modifies this
      ensures Valid() && Value() == old(from.Value())
    {
      if from == this { return; }
      ValidClears();
      Clear();
      MergeFrom(from);
      LoginIdentity(from.Value());
    }

    // --- parsing -------------------------------------------------------

    /** The parse that began as goal has failed, or goes on from here with expected already consumed. */
    ghost predicate Follows(goal: Outcome<Login>, ok: bool, expected: byte, input: CodedInputStream)
      requires input.Valid()
      reads this, input
    {
      goal == if ok then Loop(LOGIN, Value(), Ahead(expected) + input.Rest()) else Failed(Value())
    }

    method ParseUsername(input: CodedInputStream) returns (ok: bool, expected: byte)
      requires Valid() && input.Valid()
      modifies this`hasBits, this`username_, input`pos
      ensures Valid() && input.Valid() && (expected == 0 || expected == 26)
      ensures Follows(AfterTag(LOGIN, old(Value()), 18, old(input.Rest())), ok, expected, input)
      ensures ok ==> |input.Rest()| < |old(input.Rest())|
    {
      hide AfterTag, Loop, ReadData;
      AfterLoginString(Value(), 18, input.Rest());
      var _ := MutableUsername();
      var text := input.ReadString();
      if text == None { return false, 0; }
      username_ := text;
      assert Value() == old(Value()).(username := text);
      expected := ExpectNext(input, 26);
      ok := true;
    }

    method ParsePassword(input: CodedInputStream) returns (ok: bool, expected: byte)
      requires Valid() && input.Valid()
      modifies this`hasBits, this`password_, input`pos
      ensures Valid() && input.Valid() && (expected == 0 || expected == 32)
      ensures Follows(AfterTag(LOGIN, old(Value()), 26, old(input.Rest())), ok, expected, input)
      ensures ok ==> |input.Rest()| < |old(input.Rest())|
    {
      hide AfterTag, Loop, ReadData;
      AfterLoginString(Value(), 26, input.Rest());
      var _ := MutablePassword();
      var text := input.ReadString();
      if text == None { return false, 0; }
      password_ := text;
      assert Value() == old(Value()).(password := text);
      expected := ExpectNext(input, 32);
      ok := true;
    }

    method ParseVersion(input: CodedInputStream) returns (ok: bool)
      requires Valid() && input.Valid()
      modifies this`hasBits, this`version_, input`pos
      ensures Valid() && input.Valid()
      ensures Follows(AfterTag(LOGIN, old(Value()), 32, old(input.Rest())), ok, 0, input)
      ensures ok ==> |input.Rest()| < |old(input.Rest())|
    {
      hide AfterTag, Loop, ReadVarint32, VarintToInt32;
      AfterLoginVersion(Value(), input.Rest());
      var i := input.ReadInt32();
      ok := i != None;
      if ok { SetVersion(i.value); }
      AheadOfNothing(input.Rest());
    }

    method ParseUnknown(input: CodedInputStream, tag: uint32) returns (ok: bool)
      requires Valid() && input.Valid() && !IsLoginTag(tag) && TagWireType(tag) != END_GROUP
      modifies this`unknown, input`pos
      ensures Valid() && input.Valid()
      ensures Follows(AfterTag(LOGIN, old(Value()), tag, old(input.Rest())), ok, 0, input)
      ensures ok ==> |input.Rest()| < |old(input.Rest())|
    {
      hide AfterTag, Loop, ReadBody;
      AfterLoginUnknown(Value(), tag, input.Rest());
      var f := input.SkipField(tag);
      ok := f != None;
      if ok { unknown := unknown + [f.value]; }
      AheadOfNothing(input.Rest());
    }

    /**
     One turn of the generated loop. A successful ExpectTag jumps past the reading and dispatch of
     the next tag: expected is the tag byte it consumed, or 0 when the next tag is still to be read.
     */
    method ParseOne(input: CodedInputStream, expected: byte, ghost goal: Outcome<Login>) returns (flow: Flow)
      requires Valid() && input.Valid() && (expected == 0 || expected == 26 || expected == 32)
      requires Follows(goal, true, expected, input)
      modifies this`hasBits, this`username_, this`password_, this`version_, this`unknown
      modifies input`pos, input`lastTag, input`legitimateEnd
      ensures Valid() && input.Valid()
      ensures flow.Return? ==> input.Reports(flow.ok, Value(), goal)
      ensures flow.Again? ==>
                && (flow.expected == 0 || flow.expected == 26 || flow.expected == 32)
                && Follows(goal, true, flow.expected, input) && |input.Rest()| < |old(input.Rest())|
    {
      hide AfterTag, Loop, ReadVarint32, Ahead, TagNumber, TagWireType;
      var tag: uint32 := expected;
      if expected == 0 {
        AheadOfNothing(input.Rest());
        LoopReadsTag(LOGIN, Value(), input.Rest());
        tag := input.ReadTag();
        if tag == 0 { return Return(true); }
      } else {
        LoopExpectsTag(LOGIN, Value(), expected, input.Rest());
      }
      LoginTags(tag);
      var ok, next := true, 0;
      if expected == 0 && TagNumber(tag) == 2 && TagWireType(tag) == LENGTH_DELIMITED {
        ok, next := ParseUsername(input);
      } else if expected == 26 || (expected == 0 && TagNumber(tag) == 3 && TagWireType(tag) == LENGTH_DELIMITED) {
        ok, next := ParsePassword(input);
      } else if expected == 32 || (expected == 0 && TagNumber(tag) == 4 && TagWireType(tag) == VARINT) {
        ok := ParseVersion(input);
        if ok {
          AheadOfNothing(input.Rest());
          LoopReadsTag(LOGIN, Value(), input.Rest());
          var done := input.ExpectAtEnd();
          if done { return Return(true); }
        }
      } else {
        if TagWireType(tag) == END_GROUP {
          AfterLoginUnknown(Value(), tag, input.Rest());
          return Return(true);
        }
        ok := ParseUnknown(input, tag);
      }
      flow := if ok then Again(next) else Return(false);
    }

    /** The generated parser, for any answers to its hints, does what the read-tag-and-dispatch loop does. */
    method MergePartialFromCodedStream(input: CodedInputStream) returns (ok: bool)
      requires Valid() && input.Valid()
      modifies this, input
      ensures Valid() && input.Valid() && input.limit == old(input.limit) && cachedSize == old(cachedSize)
      ensures input.Reports(ok, Value(), Loop(LOGIN, old(Value()), old(input.Rest())))
    {
      hide Loop;
      ghost var goal := Loop(LOGIN, Value(), input.Rest());
      AheadOfNothing(input.Rest());
      var flow := Again(0);
      while flow.Again?
        invariant Valid() && input.Valid() && input.limit == old(input.limit) && cachedSize == old(cachedSize)
        invariant flow.Return? ==> input.Reports(flow.ok, Value(), goal)
        invariant flow.Again? ==>
                    && (flow.expected == 0 || flow.expected == 26 || flow.expected == 32)
                    && Follows(goal, true, flow.expected, input)
        decreases flow.Again?, |input.Rest()|
      {
        flow := ParseOne(input, flow.expected, goal);
      }
      ok := flow.ok;
    }

    // --- serialising -----------------------------------------------------

    /** Adds up the size of the serialised message and remembers it. */
    method ByteSize() returns (total: nat)
      requires Valid() && |LoginBytes(Value())| <= MAX_INT
      modifies this`cachedSize
      ensures Valid() && Value() == old(Value())
      ensures total == cachedSize == |LoginBytes(Value())|
    {
      hide LoginBytes, DataSize, Int32Size, FieldsSize;
      LowByteDecides(hasBits);
      LoginSize(Value());
      total := 0;
      if hasBits & 0xFF != 0 {
        if hasBits & 1 != 0 { total := total + 1 + DataSize(|Text(username_)|); }
        if hasBits & 2 != 0 { total := total + 1 + DataSize(|Text(password_)|); }
        if hasBits & 4 != 0 { total := total + 1 + Int32Size(version_); }
      }
      if unknown != [] { total := total + FieldsSize(unknown); }
      assert FieldsSize([]) == 0 by { FieldsSizeExact([]); assert EncFields([]) == []; }
      cachedSize := total;
    }

    method SerializeWithCachedSizes(output: CodedOutputStream)
      requires Valid()
      modifies output
      ensures output.out == old(output.out) + LoginBytes(Value())
    {
      hide LoginBytes, EncFields, EncVarint, StringRecord, Int32Record;
      LoginPieces(Value());
      Absent(18);
      Absent(26);
      Absent(32);
      Append4(output.out, StringRecord(Value().username, 18), StringRecord(Value().password, 26),
              Int32Record(Value().version, 32), EncFields(unknown));
      if hasBits & 1 != 0 { output.WriteString(18, Text(username_)); }
      if hasBits & 2 != 0 { output.WriteString(26, Text(password_)); }
      if hasBits & 4 != 0 { output.WriteInt32(32, version_); }
      if unknown != [] { output.SerializeUnknownFields(unknown); }
      NoFieldsNoBytes();
    }

    method SerializeWithCachedSizesToArray(target: array<byte>, at: nat) returns (end: nat)
      requires Valid() && at + |LoginBytes(Value())| <= target.Length
      modifies target
      ensures end == at + |LoginBytes(Value())|
      ensures target[..end] == old(target[..at]) + LoginBytes(Value())
      ensures forall i | end <= i < target.Length :: target[i] == old(target[i])
    {
      hide LoginBytes, EncFields, EncVarint, StringRecord, Int32Record;
      LoginPieces(Value());
      Absent(18);
      Absent(26);
      Absent(32);
      NoFieldsNoBytes();
      ghost var m := Value();
      Append4(target[..at], StringRecord(m.username, 18), StringRecord(m.password, 26),
              Int32Record(m.version, 32), EncFields(unknown));
      end := at;
      if hasBits & 1 != 0 { end := WriteStringToArray(18, Text(username_), target, end); }
      assert target[..end] == old(target[..at]) + StringRecord(m.username, 18);
      if hasBits & 2 != 0 { end := WriteStringToArray(26, Text(password_), target, end); }
      assert target[..end] == old(target[..at]) + StringRecord(m.username, 18) + StringRecord(m.password, 26);
      if hasBits & 4 != 0 { end := WriteInt32ToArray(32, version_, target, end); }
      if unknown != [] { end := WriteToArray(EncFields(unknown), target, end); }
    }
  }
}
