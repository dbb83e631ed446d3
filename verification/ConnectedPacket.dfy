/** PacketHeader_ConnectedPacket of packet.pb.h and packet.pb.cc. */
module ConnectedPackets {
  import opened Bytes
  import opened WireFormat
  import opened MessageLoop
  import opened Messages
  import opened Serialization
  import opened Sizes
  import opened CodedStream

  // What the loop does after each kind of tag.

  predicate IsConnectedTag(tag: uint32) {
    tag == 8 || tag == 18
  }

  lemma ConnectedTags(tag: uint32)
    ensures TagNumber(tag) == 1 && TagWireType(tag) == VARINT <==> tag == 8
    ensures TagNumber(tag) == 2 && TagWireType(tag) == LENGTH_DELIMITED <==> tag == 18
  {
  }

  lemma AfterConnectedString(m: Connected, s: bytes)
    ensures AfterTag(CONNECTED, m, 18, s) ==
            match ReadData(s)
            case Bad => Failed(ConnectedTouch(m, 18))
            case Ok(b, rest) => Loop(CONNECTED, m.(characterList := Some(b)), rest)
  {
    hide Loop, ReadData, ReadBody;
    BodyOfData(18, s);
  }

  lemma AfterConnectedNumber(m: Connected, s: bytes)
    ensures AfterTag(CONNECTED, m, 8, s) ==
            match ReadVarint32(s)
            case Bad => Failed(m)
            case Ok(v, rest) => Loop(CONNECTED, m.(connected := Some(VarintToInt32(v))), rest)
  {
    hide Loop, ReadVarint32, ReadBody, VarintToInt32;
    BodyOfInt32(8, s);
  }

  lemma AfterConnectedUnknown(m: Connected, tag: uint32, s: bytes)
    requires !IsConnectedTag(tag)
    ensures AfterTag(CONNECTED, m, tag, s) ==
            if TagWireType(tag) == END_GROUP then Stopped(m, s, AtEndGroup(tag))
            else
              match ReadBody(tag, s)
              case Bad => Failed(m)
              case Ok(f, rest) => Loop(CONNECTED, m.(unknown := m.unknown + [f]), rest)
  {
  }

  /** A whole record at the front of the input sets its field, whatever it was, and the loop goes on. */
  lemma ConnectedNumberRecord(m: Connected, v: uint64, t: bytes)
    ensures var u := v % 0x1_0000_0000;
            var i := if u < 0x8000_0000 then u else u - 0x1_0000_0000;
            Loop(CONNECTED, m, [8] + (EncVarint(v) + t)) == Loop(CONNECTED, m.(connected := Some(i)), t)
  {
    hide Loop, AfterTag, EncVarint, ReadVarint32, VarintToInt32;
    LowWord(v);
    Varint64RoundTrip(v, t);
    LoopExpectsTag(CONNECTED, m, 8, EncVarint(v) + t);
    AfterConnectedNumber(m, EncVarint(v) + t);
  }

  lemma ConnectedTextRecord(m: Connected, b: bytes, t: bytes)
    requires |b| <= 0x7FFF_FFFF
    ensures Loop(CONNECTED, m, [18] + (EncVarint(|b|) + b + t)) == Loop(CONNECTED, m.(characterList := Some(b)), t)
  {
    hide Loop, AfterTag, ReadData, EncVarint;
    DataRoundTrip(b, t);
    LoopExpectsTag(CONNECTED, m, 18, EncVarint(|b|) + b + t);
    AfterConnectedString(m, EncVarint(|b|) + b + t);
  }

  /** A record cut short fails the parse; the list is present by then, with what it held before. */
  lemma ConnectedCut(m: Connected, s: bytes)
    ensures ReadVarint32(s) == Bad ==> Loop(CONNECTED, m, [8] + s) == Failed(m)
    ensures ReadData(s) == Bad ==>
              Loop(CONNECTED, m, [18] + s) ==
              Failed(m.(characterList := if m.characterList.Some? then m.characterList else Some([])))
  {
    hide Loop, AfterTag, ReadData, ReadVarint32;
    LoopExpectsTag(CONNECTED, m, 8, s);
    LoopExpectsTag(CONNECTED, m, 18, s);
    AfterConnectedNumber(m, s);
    AfterConnectedString(m, s);
  }

  class ConnectedPacket {
    var connected_: int32
    var characterList_: StringPtr
    var unknown: seq<Field>
    var cachedSize: CachedSize
    var hasBits: bv32

    /** A clear presence bit means the field holds its default. */
    ghost predicate Valid()
      reads this
    {
      && hasBits & 0xFFFF_FFF8 == 0 && hasBits & 4 == 0
      && (hasBits & 1 == 0 ==> connected_ == 0)
      && (hasBits & 2 == 0 ==> Text(characterList_) == [])
    }

    /** What holds even while a caller writes through a string pointer it got earlier. */
    ghost predicate Sound()
      reads this
    {
      hasBits & 0xFFFF_FFF8 == 0 && hasBits & 4 == 0
    }

    /** The fields Clear() passes over hold their defaults: its test for any bit covers the number. */
    ghost predicate Clears()
      reads this
    {
      && (hasBits & 3 == 0 ==> connected_ == 0)
      && (hasBits & 2 == 0 ==> Text(characterList_) == [])
    }

    function Value(): Connected
      reads this
    {
      Connected(
        if hasBits & 1 != 0 then Some(connected_) else None,
        if hasBits & 2 != 0 then Some(Text(characterList_)) else None,
        unknown)
    }

    constructor ()
      ensures Valid() && Value() == NO_CONNECTED && cachedSize == 0
    {
      connected_, characterList_, unknown, cachedSize, hasBits := 0, None, [], 0, 0;
      new;
      LowByteDecides(0);
    }

    // --- accessors ---------------------------------------------------

    method SetConnected(i: int32)
      requires Valid()
      modifies this`hasBits, this`connected_
      ensures Valid() && Value() == old(Value()).(connected := Some(i))
    {
      PresenceBit1(hasBits);
      hasBits := hasBits | 1;
      connected_ := i;
    }

    method ClearConnected()
      requires Valid()
      modifies this`hasBits, this`connected_
      ensures Valid() && Value() == old(Value()).(connected := None)
    {
      PresenceBit1(hasBits);
      connected_ := 0;
      hasBits := hasBits & 0xFFFF_FFFE;
    }

    /** mutable_character_list(): the field becomes present and keeps its text, as in LoginPacket. */
    method MutableCharacterList() returns (text: bytes)
      requires Sound()
      modifies this`hasBits, this`characterList_
      ensures Sound() && characterList_ == Some(text) && text == Text(old(characterList_))
      ensures Value() == old(Value()).(characterList := Some(text))
      ensures old(Valid()) ==> Valid() && text == Or(old(Value()).characterList, [])
    {
      PresenceBit2(hasBits);
      hasBits := hasBits | 2;
      if characterList_ == None { characterList_ := Some([]); }
      text := Text(characterList_);
    }

    method WriteCharacterList(b: bytes)
      requires Sound() && characterList_.Some?
      modifies this`characterList_
      ensures Sound() && characterList_ == Some(b)
      ensures Value() == if hasBits & 2 != 0 then old(Value()).(characterList := Some(b)) else old(Value())
      ensures old(Valid()) ==> (Valid() <==> hasBits & 2 != 0 || b == [])
    {
      characterList_ := Some(b);
    }

    method SetCharacterList(b: bytes)
      requires Valid()
      modifies this`hasBits, this`characterList_
      ensures Valid() && Value() == old(Value()).(characterList := Some(b))
    {
      PresenceBit2(hasBits);
      hasBits := hasBits | 2;
      if characterList_ == None { characterList_ := Some([]); }
      characterList_ := Some(b);
    }

    method ClearCharacterList()
      requires Valid()
      modifies this`hasBits, this`characterList_
      ensures Valid() && Value() == old(Value()).(characterList := None)
      ensures characterList_.Some? == old(characterList_.Some?)    // an allocated string stays, emptied
    {
      PresenceBit2(hasBits);
      if characterList_ != None { characterList_ := Some([]); }
      hasBits := hasBits & 0xFFFF_FFFD;
    }

    /** Hands the string over to the caller; null if it was never allocated. */
    method ReleaseCharacterList() returns (p: StringPtr)
      requires Valid()
      modifies this`hasBits, this`characterList_
      ensures Valid() && Value() == old(Value()).(characterList := None)
      ensures characterList_ == None && p == old(characterList_) && Text(p) == Or(old(Value()).characterList, [])
    {
      PresenceBit2(hasBits);
      hasBits := hasBits & 0xFFFF_FFFD;
      p := characterList_;
      characterList_ := None;
    }

    method SetAllocatedCharacterList(p: StringPtr)
      requires Valid()
      modifies this`hasBits, this`characterList_
      ensures Valid() && Value() == old(Value()).(characterList := p)
    {
      PresenceBit2(hasBits);
      hasBits := if p != None then hasBits | 2 else hasBits & 0xFFFF_FFFD;
      characterList_ := p;
    }

    // --- whole-message operations --------------------------------------

    /** No field of this message is required. */
    predicate IsInitialized() { true }

    /** Clears only what a presence bit admits to, as in LoginPacket. */
    method Clear()
      requires Sound()
      modifies this
      ensures Sound() && Value() == NO_CONNECTED && hasBits == 0 && cachedSize == old(cachedSize)
      ensures Text(characterList_) == if old(hasBits & 2 != 0) then [] else old(Text(characterList_))
      ensures Valid() <==> old(Clears())
    {
      LowByteDecides(hasBits);
      LowByteDecides(0);
      if hasBits & 0xFF != 0 {
        connected_ := 0;
        if hasBits & 2 != 0 {
          if characterList_ != None { characterList_ := Some([]); }
        }
      }
      hasBits := 0;
      unknown := [];
    }

    /** While the invariant holds, Clear() leaves nothing behind. */
    lemma ValidClears()
      requires Valid()
      ensures Sound() && Clears()
    {
      LowByteDecides(hasBits);
    }

    method MergeFrom(from: ConnectedPacket)
      requires from != this && Valid() && from.Valid()
      modifies this
      ensures Valid() && Value() == MergeConnected(old(Value()), from.Value())
      ensures cachedSize == old(cachedSize)
    {
      LowByteDecides(from.hasBits);
      if from.hasBits & 0xFF != 0 {
        if from.hasBits & 1 != 0 { SetConnected(from.connected_); }
        if from.hasBits & 2 != 0 { SetCharacterList(Text(from.characterList_)); }
      }
      unknown := unknown + from.unknown;
    }

    method CopyFrom(from: ConnectedPacket)
      requires Valid() && from.Valid()
      modifies this
      ensures Valid() && Value() == old(from.Value())
    {
      if from == this { return; }
      ValidClears();
      Clear();
      MergeFrom(from);
      ConnectedIdentity(from.Value());
    }

    // --- parsing -------------------------------------------------------

    /** The parse that began as goal has failed, or goes on from here with expected already consumed. */
    ghost predicate Follows(goal: Outcome<Connected>, ok: bool, expected: byte, input: CodedInputStream)
      requires input.Valid()
      reads this, input
    {
      goal == if ok then Loop(CONNECTED, Value(), Ahead(expected) + input.Rest()) else Failed(Value())
    }

    method ParseConnected(input: CodedInputStream) returns (ok: bool, expected: byte)
      requires Valid() && input.Valid()
      modifies this`hasBits, this`connected_, input`pos
      ensures Valid() && input.Valid() && (expected == 0 || expected == 18)
      ensures Follows(AfterTag(CONNECTED, old(Value()), 8, old(input.Rest())), ok, expected, input)
      ensures ok ==> |input.Rest()| < |old(input.Rest())|
    {
      hide AfterTag, Loop, ReadVarint32, VarintToInt32;
      AfterConnectedNumber(Value(), input.Rest());
      var i := input.ReadInt32();
      if i == None { return false, 0; }
      SetConnected(i.value);
      expected := ExpectNext(input, 18);
      ok := true;
    }

    method ParseCharacterList(input: CodedInputStream) returns (ok: bool)
      requires Valid() && input.Valid()
      modifies this`hasBits, this`characterList_, input`pos
      ensures Valid() && input.Valid()
      ensures Follows(AfterTag(CONNECTED, old(Value()), 18, old(input.Rest())), ok, 0, input)
      ensures ok ==> |input.Rest()| < |old(input.Rest())|
    {
      hide AfterTag, Loop, ReadData;
      AfterConnectedString(Value(), input.Rest());
      var _ := MutableCharacterList();
      var text := input.ReadString();
      ok := text != None;
      if ok {
        characterList_ := text;
        assert Value() == old(Value()).(characterList := text);
      }
      AheadOfNothing(input.Rest());
    }

    method ParseUnknown(input: CodedInputStream, tag: uint32) returns (ok: bool)
      requires Valid() && input.Valid() && !IsConnectedTag(tag) && TagWireType(tag) != END_GROUP
      modifies this`unknown, input`pos
      ensures Valid() && input.Valid()
      ensures Follows(AfterTag(CONNECTED, old(Value()), tag, old(input.Rest())), ok, 0, input)
      ensures ok ==> |input.Rest()| < |old(input.Rest())|
    {
      hide AfterTag, Loop, ReadBody;
      AfterConnectedUnknown(Value(), tag, input.Rest());
      var f := input.SkipField(tag);
      ok := f != None;
      if ok { unknown := unknown + [f.value]; }
      AheadOfNothing(input.Rest());
    }

    /** One turn of the generated loop, as in LoginPacket. */
    method ParseOne(input: CodedInputStream, expected: byte, ghost goal: Outcome<Connected>) returns (flow: Flow)
      requires Valid() && input.Valid() && (expected == 0 || expected == 18)
      requires Follows(goal, true, expected, input)
      modifies this`hasBits, this`connected_, this`characterList_, this`unknown
      modifies input`pos, input`lastTag, input`legitimateEnd
      ensures Valid() && input.Valid()
      ensures flow.Return? ==> input.Reports(flow.ok, Value(), goal)
      ensures flow.Again? ==>
                && (flow.expected == 0 || flow.expected == 18)
                && Follows(goal, true, flow.expected, input) && |input.Rest()| < |old(input.Rest())|
    {
      hide AfterTag, Loop, ReadVarint32, Ahead, TagNumber, TagWireType;
      var tag: uint32 := expected;
      if expected == 0 {
        AheadOfNothing(input.Rest());
        LoopReadsTag(CONNECTED, Value(), input.Rest());
        tag := input.ReadTag();
        if tag == 0 { return Return(true); }
      } else {
        LoopExpectsTag(CONNECTED, Value(), expected, input.Rest());
      }
      ConnectedTags(tag);
      var ok, next := true, 0;
      if expected == 0 && TagNumber(tag) == 1 && TagWireType(tag) == VARINT {
        ok, next := ParseConnected(input);
      } else if expected == 18 || (expected == 0 && TagNumber(tag) == 2 && TagWireType(tag) == LENGTH_DELIMITED) {
        ok := ParseCharacterList(input);
        if ok {
          AheadOfNothing(input.Rest());
          LoopReadsTag(CONNECTED, Value(), input.Rest());
          var done := input.ExpectAtEnd();
          if done { return Return(true); }
        }
      } else {
        if TagWireType(tag) == END_GROUP {
          AfterConnectedUnknown(Value(), tag, input.Rest());
          return Return(true);
        }
        ok := ParseUnknown(input, tag);
      }
      flow := if ok then Again(next) else Return(false);
    }

    /** The generated parser, for any answers to its hints, does what the read-tag-and-dispatch loop does. */
    method MergePartialFromCodedStream(input: CodedInputStream) returns (ok: bool)
      requires Valid() && input.Valid()
      modifies this, input
      ensures Valid() && input.Valid() && input.limit == old(input.limit) && cachedSize == old(cachedSize)
      ensures input.Reports(ok, Value(), Loop(CONNECTED, old(Value()), old(input.Rest())))
    {
      hide Loop;
      ghost var goal := Loop(CONNECTED, Value(), input.Rest());
      AheadOfNothing(input.Rest());
      var flow := Again(0);
      while flow.Again?
        invariant Valid() && input.Valid() && input.limit == old(input.limit) && cachedSize == old(cachedSize)
        invariant flow.Return? ==> input.Reports(flow.ok, Value(), goal)
        invariant flow.Again? ==>
                    && (flow.expected == 0 || flow.expected == 18)
                    && Follows(goal, true, flow.expected, input)
        decreases flow.Again?, |input.Rest()|
      {
        flow := ParseOne(input, flow.expected, goal);
      }
      ok := flow.ok;
    }

    // --- serialising -----------------------------------------------------

    /** Adds up the size of the serialised message and remembers it. */
    method ByteSize() returns (total: nat)
      requires Valid() && |ConnectedBytes(Value())| <= MAX_INT
      modifies this`cachedSize
      ensures Valid() && Value() == old(Value())
      ensures total == cachedSize == |ConnectedBytes(Value())|
    {
      hide ConnectedBytes, DataSize, Int32Size, FieldsSize;
      LowByteDecides(hasBits);
      ConnectedSize(Value());
      total := 0;
      if hasBits & 0xFF != 0 {
        if hasBits & 1 != 0 { total := total + 1 + Int32Size(connected_); }
        if hasBits & 2 != 0 { total := total + 1 + DataSize(|Text(characterList_)|); }
      }
      if unknown != [] { total := total + FieldsSize(unknown); }
      assert FieldsSize([]) == 0 by { FieldsSizeExact([]); assert EncFields([]) == []; }
      cachedSize := total;
    }

    method SerializeWithCachedSizes(output: CodedOutputStream)
      requires Valid()
      modifies output
      ensures output.out == old(output.out) + ConnectedBytes(Value())
    {
      hide ConnectedBytes, EncFields, EncVarint, StringRecord, Int32Record;
      ConnectedPieces(Value());
      Absent(8);
      Absent(18);
      NoFieldsNoBytes();
      Append3(output.out, Int32Record(Value().connected, 8), StringRecord(Value().characterList, 18),
              EncFields(unknown));
      if hasBits & 1 != 0 { output.WriteInt32(8, connected_); }
      if hasBits & 2 != 0 { output.WriteString(18, Text(characterList_)); }
      if unknown != [] { output.SerializeUnknownFields(unknown); }
    }

    method SerializeWithCachedSizesToArray(target: array<byte>, at: nat) returns (end: nat)
      requires Valid() && at + |ConnectedBytes(Value())| <= target.Length
      modifies target
      ensures end == at + |ConnectedBytes(Value())|
      ensures target[..end] == old(target[..at]) + ConnectedBytes(Value())
      ensures forall i | end <= i < target.Length :: target[i] == old(target[i])
    {
      hide ConnectedBytes, EncFields, EncVarint, StringRecord, Int32Record;
      ConnectedPieces(Value());
      Absent(8);
      Absent(18);
      NoFieldsNoBytes();
      ghost var m := Value();
      Append3(target[..at], Int32Record(m.connected, 8), StringRecord(m.characterList, 18), EncFields(unknown));
      end := at;
      if hasBits & 1 != 0 { end := WriteInt32ToArray(8, connected_, target, end); }
      assert target[..end] == old(target[..at]) + Int32Record(m.connected, 8);
      if hasBits & 2 != 0 { end := WriteStringToArray(18, Text(characterList_), target, end); }
      if unknown != [] { end := WriteToArray(EncFields(unknown), target, end); }
    }
  }
}
