/** PacketHeader of packet.pb.h and packet.pb.cc, with its lazily allocated submessages. */
module PacketHeaders {
  import opened Bytes
  import opened WireFormat
  import opened MessageLoop
  import opened Messages
  import opened Serialization
  import opened Sizes
  import opened CodedStream
  import opened LoginPackets
  import opened ConnectedPackets

  // What the loop does after each kind of tag.

  predicate IsHeaderTag(tag: uint32) {
    tag == 10 || tag == 18 || tag == 26
  }

  lemma HeaderTags(tag: uint32)
    ensures TagNumber(tag) == 1 && TagWireType(tag) == LENGTH_DELIMITED <==> tag == 10
    ensures TagNumber(tag) == 2 && TagWireType(tag) == LENGTH_DELIMITED <==> tag == 18
    ensures TagNumber(tag) == 3 && TagWireType(tag) == LENGTH_DELIMITED <==> tag == 26
  {
  }

  lemma AfterLogin(m: Header, s: bytes)
    ensures AfterTag(HEADER, m, 10, s) ==
            match ReadData(s)
            case Bad => Failed(HeaderTouch(m, 10))
            case Ok(b, rest) =>
              (match Loop(LOGIN, Or(m.login, NO_LOGIN), b)
               case Stopped(l, _, AtEnd) => Loop(HEADER, m.(login := Some(l)), rest)
               case o => Failed(m.(login := Some(o.msg))))
  {
    hide Loop, ReadData, ReadBody;
    BodyOfData(10, s);
  }

  lemma AfterConnected(m: Header, s: bytes)
    ensures AfterTag(HEADER, m, 18, s) ==
            match ReadData(s)
            case Bad => Failed(HeaderTouch(m, 18))
            case Ok(b, rest) =>
              (match Loop(CONNECTED, Or(m.connected, NO_CONNECTED), b)
               case Stopped(p, _, AtEnd) => Loop(HEADER, m.(connected := Some(p)), rest)
               case o => Failed(m.(connected := Some(o.msg))))
  {
    hide Loop, ReadData, ReadBody;
    BodyOfData(18, s);
  }

  lemma AfterAuthCode(m: Header, s: bytes)
    ensures AfterTag(HEADER, m, 26, s) ==
            match ReadData(s)
            case Bad => Failed(HeaderTouch(m, 26))
            case Ok(b, rest) => Loop(HEADER, m.(authCode := Some(b)), rest)
  {
    hide Loop, ReadData, ReadBody;
    BodyOfData(26, s);
  }

  lemma AfterHeaderUnknown(m: Header, tag: uint32, s: bytes)
    requires !IsHeaderTag(tag)
    ensures AfterTag(HEADER, m, tag, s) ==
            if TagWireType(tag) == END_GROUP then Stopped(m, s, AtEndGroup(tag))
            else
              match ReadBody(tag, s)
              case Bad => Failed(m)
              case Ok(f, rest) => Loop(HEADER, m.(unknown := m.unknown + [f]), rest)
  {
    hide Loop;
  }

  /** A whole record: a submessage is parsed into the one present, or a fresh one, and must be used up. */
  lemma HeaderRecords(m: Header, b: bytes, t: bytes)
    requires |b| <= 0x7FFF_FFFF
    ensures var l := Loop(LOGIN, if m.login.Some? then m.login.value else Login(None, None, None, []), b);
            Loop(HEADER, m, [10] + (EncVarint(|b|) + b + t)) ==
            if l.Stopped? && l.why.AtEnd? then Loop(HEADER, m.(login := Some(l.msg)), t)
            else Failed(m.(login := Some(l.msg)))
    ensures var p := Loop(CONNECTED, if m.connected.Some? then m.connected.value else Connected(None, None, []), b);
            Loop(HEADER, m, [18] + (EncVarint(|b|) + b + t)) ==
            if p.Stopped? && p.why.AtEnd? then Loop(HEADER, m.(connected := Some(p.msg)), t)
            else Failed(m.(connected := Some(p.msg)))
    ensures Loop(HEADER, m, [26] + (EncVarint(|b|) + b + t)) == Loop(HEADER, m.(authCode := Some(b)), t)
  {
    hide Loop, AfterTag, ReadData, EncVarint;
    DataRoundTrip(b, t);
    var s := EncVarint(|b|) + b + t;
    LoopExpectsTag(HEADER, m, 10, s);
    LoopExpectsTag(HEADER, m, 18, s);
    LoopExpectsTag(HEADER, m, 26, s);
    AfterLogin(m, s);
    AfterConnected(m, s);
    AfterAuthCode(m, s);
  }

  /** A record cut short fails the parse; its field is present by then, with what it held before. */
  lemma HeaderCut(m: Header, s: bytes)
    requires ReadData(s) == Bad
    ensures Loop(HEADER, m, [10] + s) ==
            Failed(m.(login := if m.login.Some? then m.login else Some(Login(None, None, None, []))))
    ensures Loop(HEADER, m, [18] + s) ==
            Failed(m.(connected := if m.connected.Some? then m.connected else Some(Connected(None, None, []))))
    ensures Loop(HEADER, m, [26] + s) == Failed(m.(authCode := if m.authCode.Some? then m.authCode else Some([])))
  {
    hide Loop, AfterTag, ReadData;
    LoopExpectsTag(HEADER, m, 10, s);
    LoopExpectsTag(HEADER, m, 18, s);
    LoopExpectsTag(HEADER, m, 26, s);
    AfterLogin(m, s);
    AfterConnected(m, s);
    AfterAuthCode(m, s);
  }

  class PacketHeader {
    var login_: LoginPacket?
    var connected_: ConnectedPacket?
    var authCode_: StringPtr
    var unknown: seq<Field>
    var cachedSize: CachedSize
    var hasBits: bv32

    ghost function Repr(): set<object>
      reads this
    {
      {this} + (if login_ == null then {} else {login_}) + (if connected_ == null then {} else {connected_})
    }

    /** A clear presence bit means the field holds its default: a submessage is then null or empty. */
    ghost predicate Valid()
      reads this, login_, connected_
    {
      && hasBits & 0xFFFF_FFF8 == 0
      && (login_ != null ==> login_.Valid())
      && (connected_ != null ==> connected_.Valid())
      && (if hasBits & 1 != 0 then login_ != null else login_ == null || login_.Value() == NO_LOGIN)
      && (if hasBits & 2 != 0 then connected_ != null else connected_ == null || connected_.Value() == NO_CONNECTED)
      && (hasBits & 4 == 0 ==> Text(authCode_) == [])
    }

    /** What holds even while a caller writes through a pointer to a submessage or a string it got earlier. */
    ghost predicate Sound()
      reads this, login_, connected_
    {
      && hasBits & 0xFFFF_FFF8 == 0
      && (login_ != null ==> login_.Sound())
      && (connected_ != null ==> connected_.Sound())
      && (hasBits & 1 != 0 ==> login_ != null)
      && (hasBits & 2 != 0 ==> connected_ != null)
    }

    /** What Clear() passes over, here and in the submessages present, holds its default. */
    ghost predicate Clears()
      reads this, login_, connected_
    {
      && (login_ != null ==> if hasBits & 1 != 0 then login_.Clears() else login_.Valid() && login_.Value() == NO_LOGIN)
      && (connected_ != null ==>
           if hasBits & 2 != 0 then connected_.Clears()
           else connected_.Valid() && connected_.Value() == NO_CONNECTED)
      && (hasBits & 4 == 0 ==> Text(authCode_) == [])
    }

    /** While the invariant holds, Clear() leaves nothing behind. */
    lemma ValidClears()
      requires Valid()
      ensures Sound() && Clears()
    {
      if login_ != null { login_.ValidClears(); }
      if connected_ != null { connected_.ValidClears(); }
    }

    function Value(): Header
      reads this, login_, connected_
    {
      Header(
        if hasBits & 1 != 0 && login_ != null then Some(login_.Value()) else None,
        if hasBits & 2 != 0 && connected_ != null then Some(connected_.Value()) else None,
        if hasBits & 4 != 0 then Some(Text(authCode_)) else None,
        unknown)
    }

    constructor ()
      ensures Valid() && Value() == NO_HEADER && Repr() == {this} && cachedSize == 0
    {
      login_, connected_, authCode_, unknown, cachedSize, hasBits := null, null, None, [], 0, 0;
      new;
      LowByteDecides(0);
    }

    // --- accessors ---------------------------------------------------

    /** The submessage, or the shared default instance when there is none. */
    function LoginPacketView(): (v: Login)
      reads this, login_, connected_
      ensures Valid() ==> v == Or(Value().login, NO_LOGIN)
    {
      if login_ != null then login_.Value() else NO_LOGIN
    }

    /** mutable_login_packet(): allocates the submessage on first use; the caller may go on to change it. */
    method MutableLoginPacket() returns (p: LoginPacket)
      requires Valid()
      modifies this`hasBits, this`login_
      ensures Valid() && p == login_ && (if old(login_) == null then fresh(p) else p == old(login_))
      ensures p.Value() == Or(old(Value()).login, NO_LOGIN)
      ensures Value() == old(Value()).(login := Some(p.Value())) && hasBits & 1 != 0
    {
      PresenceBit1(hasBits);
      hasBits := hasBits | 1;
      if login_ == null { login_ := new LoginPacket(); }
      p := login_;
    }

    method ClearLoginPacket()
      requires Valid()
      modifies this`hasBits, login_
      ensures Valid() && Value() == old(Value()).(login := None)
    {
      PresenceBit1(hasBits);
      if login_ != null {
        login_.ValidClears();
        login_.Clear();
      }
      hasBits := hasBits & 0xFFFF_FFFE;
    }

    method ReleaseLoginPacket() returns (p: LoginPacket?)
      requires Valid()
      modifies this`hasBits, this`login_
      ensures Valid() && Value() == old(Value()).(login := None)
      ensures p == old(login_) && login_ == null
    {
      PresenceBit1(hasBits);
      hasBits := hasBits & 0xFFFF_FFFE;
      p := login_;
      login_ := null;
    }

    /** The header deletes its old submessage and owns p from now on, so p must be another object. */
    method SetAllocatedLoginPacket(p: LoginPacket?)
      requires Valid() && (p != null ==> p.Valid() && p != login_)
      modifies this`hasBits, this`login_
      ensures Valid() && login_ == p
      ensures Value() == old(Value()).(login := if p == null then None else Some(p.Value()))
    {
      PresenceBit1(hasBits);
      login_ := p;
      hasBits := if p != null then hasBits | 1 else hasBits & 0xFFFF_FFFE;
    }

    /** The submessage, or the shared default instance when there is none. */
    function ConnectedPacketView(): (v: Connected)
      reads this, connected_, login_
      ensures Valid() ==> v == Or(Value().connected, NO_CONNECTED)
    {
      if connected_ != null then connected_.Value() else NO_CONNECTED
    }

    /** mutable_connected_packet(): allocates the submessage on first use; the caller may go on to change it. */
    method MutableConnectedPacket() returns (p: ConnectedPacket)
      requires Valid()
      modifies this`hasBits, this`connected_
      ensures Valid() && p == connected_ && (if old(connected_) == null then fresh(p) else p == old(connected_))
      ensures p.Value() == Or(old(Value()).connected, NO_CONNECTED)
      ensures Value() == old(Value()).(connected := Some(p.Value())) && hasBits & 2 != 0
    {
      PresenceBit2(hasBits);
      hasBits := hasBits | 2;
      if connected_ == null { connected_ := new ConnectedPacket(); }
      p := connected_;
    }

    method ClearConnectedPacket()
      requires Valid()
      modifies this`hasBits, connected_
      ensures Valid() && Value() == old(Value()).(connected := None)
    {
      PresenceBit2(hasBits);
      if connected_ != null {
        connected_.ValidClears();
        connected_.Clear();
      }
      hasBits := hasBits & 0xFFFF_FFFD;
    }

    method ReleaseConnectedPacket() returns (p: ConnectedPacket?)
      requires Valid()
      modifies this`hasBits, this`connected_
      ensures Valid() && Value() == old(Value()).(connected := None)
      ensures p == old(connected_) && connected_ == null
    {
      PresenceBit2(hasBits);
      hasBits := hasBits & 0xFFFF_FFFD;
      p := connected_;
      connected_ := null;
    }

    method SetAllocatedConnectedPacket(p: ConnectedPacket?)
      requires Valid() && (p != null ==> p.Valid() && p != connected_)
      modifies this`hasBits, this`connected_
      ensures Valid() && connected_ == p
      ensures Value() == old(Value()).(connected := if p == null then None else Some(p.Value()))
    {
      PresenceBit2(hasBits);
      connected_ := p;
      hasBits := if p != null then hasBits | 2 else hasBits & 0xFFFF_FFFD;
    }

    /** mutable_auth_code(): the field becomes present and keeps its text, as in LoginPacket. */
    method MutableAuthCode() returns (text: bytes)
      requires Sound()
      modifies this`hasBits, this`authCode_
      ensures Sound() && authCode_ == Some(text) && text == Text(old(authCode_))
      ensures Value() == old(Value()).(authCode := Some(text))
      ensures old(Valid()) ==> Valid() && text == Or(old(Value()).authCode, [])
    {
      PresenceBit4(hasBits);
      hasBits := hasBits | 4;
      if authCode_ == None { authCode_ := Some([]); }
      text := Text(authCode_);
    }

    method WriteAuthCode(b: bytes)
      requires Sound() && authCode_.Some?
      modifies this`authCode_
      ensures Sound() && authCode_ == Some(b)
      ensures Value() == if hasBits & 4 != 0 then old(Value()).(authCode := Some(b)) else old(Value())
      ensures old(Valid()) ==> (Valid() <==> hasBits & 4 != 0 || b == [])
    {
      authCode_ := Some(b);
    }

    method SetAuthCode(b: bytes)
      requires Valid()
      modifies this`hasBits, this`authCode_
      ensures Valid() && Value() == old(Value()).(authCode := Some(b))
    {
      PresenceBit4(hasBits);
      hasBits := hasBits | 4;
      if authCode_ == None { authCode_ := Some([]); }
      authCode_ := Some(b);
    }

    method ClearAuthCode()
      requires Valid()
      modifies this`hasBits, this`authCode_
      ensures Valid() && Value() == old(Value()).(authCode := None)
      ensures authCode_.Some? == old(authCode_.Some?)    // an allocated string stays, emptied
    {
      PresenceBit4(hasBits);
      if authCode_ != None { authCode_ := Some([]); }
      hasBits := hasBits & 0xFFFF_FFFB;
    }

    /** Hands the string over to the caller; null if it was never allocated. */
    method ReleaseAuthCode() returns (p: StringPtr)
      requires Valid()
      modifies this`hasBits, this`authCode_
      ensures Valid() && Value() == old(Value()).(authCode := None)
      ensures authCode_ == None && p == old(authCode_) && Text(p) == Or(old(Value()).authCode, [])
    {
      PresenceBit4(hasBits);
      hasBits := hasBits & 0xFFFF_FFFB;
      p := authCode_;
      authCode_ := None;
    }

    method SetAllocatedAuthCode(p: StringPtr)
      requires Valid()
      modifies this`hasBits, this`authCode_
      ensures Valid() && Value() == old(Value()).(authCode := p)
    {
      PresenceBit4(hasBits);
      hasBits := if p != None then hasBits | 4 else hasBits & 0xFFFF_FFFB;
      authCode_ := p;
    }

    // --- whole-message operations --------------------------------------

    predicate IsInitialized()
      requires Valid()
      reads this, login_, connected_
      ensures IsInitialized() <==>
              (Value().login.Some? ==> Value().login.value.username.Some? && Value().login.value.password.Some?)
    {
      hasBits & 1 != 0 ==> login_.IsInitialized()
    }

    /**
     Clears only what a presence bit admits to. That leaves every field at its default, as in a fresh
     message, exactly when those passed over, here and in the submessages, held theirs.
     */
    method Clear()
      requires Sound()
      modifies Repr()
      ensures Sound() && Value() == NO_HEADER && Repr() == old(Repr()) && hasBits == 0
      ensures Valid() <==> old(Clears())
      ensures LoginPacketView() == if old(hasBits & 1 != 0) then NO_LOGIN else old(LoginPacketView())
      ensures ConnectedPacketView() == if old(hasBits & 2 != 0) then NO_CONNECTED else old(ConnectedPacketView())
    {
      LowByteDecides(hasBits);
      LowByteDecides(0);
      if hasBits & 0xFF != 0 {
        if hasBits & 1 != 0 {
          if login_ != null { login_.Clear(); }
        }
        if hasBits & 2 != 0 {
          if connected_ != null { connected_.Clear(); }
        }
        if hasBits & 4 != 0 {
          if authCode_ != None { authCode_ := Some([]); }
        }
      }
      hasBits := 0;
      unknown := [];
    }

    method MergeLoginFrom(from: LoginPacket)
      requires Valid() && from.Valid() && from !in Repr()
      modifies this`hasBits, this`login_, login_
      ensures Valid() && fresh(Repr() - old(Repr()))
      ensures Value() == old(Value()).(login := Some(MergeLogin(Or(old(Value()).login, NO_LOGIN), from.Value())))
    {
      var sub := MutableLoginPacket();
      sub.MergeFrom(from);
    }

    method MergeConnectedFrom(from: ConnectedPacket)
      requires Valid() && from.Valid() && from !in Repr()
      modifies this`hasBits, this`connected_, connected_
      ensures Valid() && fresh(Repr() - old(Repr()))
      ensures Value() == old(Value()).(connected :=
                           Some(MergeConnected(Or(old(Value()).connected, NO_CONNECTED), from.Value())))
    {
      var sub := MutableConnectedPacket();
      sub.MergeFrom(from);
    }

    method MergeAuthCodeFrom(from: PacketHeader)
      requires Valid() && from.Valid() && from != this
      modifies this`hasBits, this`authCode_
      ensures Valid() && Value() == old(Value()).(authCode := Later(old(Value()).authCode, from.Value().authCode))
    {
      if from.hasBits & 4 != 0 { SetAuthCode(Text(from.authCode_)); }
    }

    method MergeSubmessagesFrom(from: PacketHeader)
      requires Valid() && from.Valid() && Repr() !! from.Repr()
      modifies Repr()
      ensures Valid() && fresh(Repr() - old(Repr()))
      ensures Value() == MergeHeader(old(Value()), from.Value())
                         .(authCode := old(Value()).authCode, unknown := old(Value()).unknown)
    {
      hide MergeLogin, MergeConnected;
      hide LoginPacket.Valid, LoginPacket.Value, ConnectedPacket.Valid, ConnectedPacket.Value;
      ghost var h, d, all := Value(), from.Value(), MergeHeader(Value(), from.Value());
      if from.hasBits & 1 != 0 { MergeLoginFrom(from.login_); }
      assert from.Valid() && from.Value() == d && Value() == h.(login := all.login);
      if from.hasBits & 2 != 0 { MergeConnectedFrom(from.connected_); }
    }

    method MergeKnownFrom(from: PacketHeader)
      requires Valid() && from.Valid() && Repr() !! from.Repr()
      modifies Repr()
      ensures Valid() && fresh(Repr() - old(Repr()))
      ensures Value() == MergeHeader(old(Value()), from.Value()).(unknown := old(Value()).unknown)
    {
      hide MergeLogin, MergeConnected, Text;
      hide LoginPacket.Valid, LoginPacket.Value, ConnectedPacket.Valid, ConnectedPacket.Value;
      LowByteDecides(from.hasBits);
      if from.hasBits & 0xFF != 0 {
        MergeSubmessagesFrom(from);
        MergeAuthCodeFrom(from);
      }
    }

    method MergeFrom(from: PacketHeader)
      requires Valid() && from.Valid() && Repr() !! from.Repr()
      modifies Repr()
      ensures Valid() && fresh(Repr() - old(Repr()))
      ensures Value() == MergeHeader(old(Value()), from.Value())
    {
      hide LoginPacket.Valid, LoginPacket.Value, ConnectedPacket.Valid, ConnectedPacket.Value, Text;
      ghost var h, d := Value(), from.Value();
      MergeKnownFrom(from);
      assert unknown == h.unknown && from.unknown == d.unknown;
      unknown := unknown + from.unknown;
    }

    method CopyFrom(from: PacketHeader)
      requires Valid() && from.Valid() && (from == this || Repr() !! from.Repr())
      modifies Repr()
      ensures Valid() && fresh(Repr() - old(Repr()))
      ensures Value() == old(from.Value())
    {
      hide LoginPacket.Valid, LoginPacket.Value, ConnectedPacket.Valid, ConnectedPacket.Value, MergeHeader;
      if from == this { return; }
      HeaderIdentity(from.Value());
      ghost var d := from.Value();
      ValidClears();
      Clear();
      assert from.Valid() && from.Value() == d && Repr() !! from.Repr();
      MergeFrom(from);
    }

    // --- parsing -------------------------------------------------------

    /** The parse that began as goal has failed, or goes on from here with expected already consumed. */
    ghost predicate Follows(goal: Outcome<Header>, ok: bool, expected: byte, input: CodedInputStream)
      requires input.Valid()
      reads this, login_, connected_, input
    {
      goal == if ok then Loop(HEADER, Value(), Ahead(expected) + input.Rest()) else Failed(Value())
    }

    /** Reads a length and a login of that length into the login present so far. */
    method ParseLoginPacket(input: CodedInputStream) returns (ok: bool, expected: byte)
      requires Valid() && input.Valid()
      modifies this`hasBits, this`login_, login_, input
      ensures Valid() && input.Valid() && fresh(Repr() - old(Repr())) && (expected == 0 || expected == 18)
      ensures Follows(AfterTag(HEADER, old(Value()), 10, old(input.Rest())), ok, expected, input)
      ensures ok ==> input.limit == old(input.limit) && |input.Rest()| < |old(input.Rest())|
    {
      hide AfterTag, Loop, ReadData, Ahead, LoginTouch;
      hide LoginPacket.Value, LoginPacket.Valid, ConnectedPacket.Value, ConnectedPacket.Valid;
      AfterLogin(Value(), input.Rest());
      ghost var m := Value();
      var sub := MutableLoginPacket();
      var outer := input.EnterMessage();
      if outer == None { return false, 0; }
      ghost var o := Loop(LOGIN, sub.Value(), input.Rest());
      ok := sub.MergePartialFromCodedStream(input);
      assert Value() == m.(login := Some(o.msg));
      if !ok || !input.legitimateEnd { return false, 0; }
      AtEndLeavesNothing(LOGIN, Or(m.login, NO_LOGIN), ReadData(old(input.Rest())).value);
      input.LeaveMessage(outer.value);
      expected := ExpectNext(input, 18);
    }

    method ParseConnectedPacket(input: CodedInputStream) returns (ok: bool, expected: byte)
      requires Valid() && input.Valid()
      modifies this`hasBits, this`connected_, connected_, input
      ensures Valid() && input.Valid() && fresh(Repr() - old(Repr())) && (expected == 0 || expected == 26)
      ensures Follows(AfterTag(HEADER, old(Value()), 18, old(input.Rest())), ok, expected, input)
      ensures ok ==> input.limit == old(input.limit) && |input.Rest()| < |old(input.Rest())|
    {
      hide AfterTag, Loop, ReadData, Ahead;
      hide LoginPacket.Value, LoginPacket.Valid, ConnectedPacket.Value, ConnectedPacket.Valid;
      AfterConnected(Value(), input.Rest());
      ghost var m := Value();
      var sub := MutableConnectedPacket();
      var outer := input.EnterMessage();
      if outer == None { return false, 0; }
      ghost var o := Loop(CONNECTED, sub.Value(), input.Rest());
      ok := sub.MergePartialFromCodedStream(input);
      assert Value() == m.(connected := Some(o.msg));
      if !ok || !input.legitimateEnd { return false, 0; }
      AtEndLeavesNothing(CONNECTED, Or(m.connected, NO_CONNECTED), ReadData(old(input.Rest())).value);
      input.LeaveMessage(outer.value);
      expected := ExpectNext(input, 26);
    }

    /** Where a turn of the loop that began as goal leads. */
    ghost predicate Leads(goal: Outcome<Header>, flow: Flow, input: CodedInputStream)
      requires input.Valid()
      reads this, login_, connected_, input
    {
      if flow.Again? then Follows(goal, true, flow.expected, input) else input.Reports(flow.ok, Value(), goal)
    }

    method ReadAuthCode(input: CodedInputStream) returns (ok: bool)
      requires Valid() && input.Valid()
      modifies this`hasBits, this`authCode_, input`pos
      ensures Valid() && input.Valid()
      ensures Follows(AfterTag(HEADER, old(Value()), 26, old(input.Rest())), ok, 0, input)
      ensures ok ==> |input.Rest()| < |old(input.Rest())|
    {
      hide AfterTag, Loop, ReadData, LoginPacket.Value, LoginPacket.Valid, ConnectedPacket.Value, ConnectedPacket.Valid;
      AfterAuthCode(Value(), input.Rest());
      ValidClears();
      var _ := MutableAuthCode();
      var text := input.ReadString();
      ok := text != None;
      if ok {
        authCode_ := text;
        assert Value() == old(Value()).(authCode := text);
      }
      AheadOfNothing(input.Rest());
    }

    method ParseAuthCode(input: CodedInputStream) returns (flow: Flow)
      requires Valid() && input.Valid()
      modifies this`hasBits, this`authCode_, input`pos, input`lastTag, input`legitimateEnd
      ensures Valid() && input.Valid()
      ensures Leads(AfterTag(HEADER, old(Value()), 26, old(input.Rest())), flow, input)
      ensures flow.Again? ==> flow.expected == 0 && |input.Rest()| < |old(input.Rest())|
    {
      hide AfterTag, Loop, ReadVarint32, Ahead;
      hide LoginPacket.Value, LoginPacket.Valid, ConnectedPacket.Value, ConnectedPacket.Valid;
      var ok := ReadAuthCode(input);
      if !ok { return Return(false); }
      AheadOfNothing(input.Rest());
      LoopReadsTag(HEADER, Value(), input.Rest());
      var done := input.ExpectAtEnd();
      flow := if done then Return(true) else Again(0);
    }

    method ParseUnknown(input: CodedInputStream, tag: uint32) returns (flow: Flow)
      requires Valid() && input.Valid() && !IsHeaderTag(tag) && input.lastTag == tag && !input.legitimateEnd
      modifies this`unknown, input`pos
      ensures Valid() && input.Valid()
      ensures Leads(AfterTag(HEADER, old(Value()), tag, old(input.Rest())), flow, input)
      ensures flow.Again? ==> flow.expected == 0 && |input.Rest()| < |old(input.Rest())|
    {
      hide AfterTag, Loop, ReadBody, LoginPacket.Value, LoginPacket.Valid, ConnectedPacket.Value, ConnectedPacket.Valid;
      AfterHeaderUnknown(Value(), tag, input.Rest());
      if TagWireType(tag) == END_GROUP { return Return(true); }
      var f := input.SkipField(tag);
      if f == None { return Return(false); }
      unknown := unknown + [f.value];
      AheadOfNothing(input.Rest());
      flow := Again(0);
    }

    /** The switch on the tag's field number; expected is 0 unless a jump goes straight to its case. */
    method Dispatch(input: CodedInputStream, tag: uint32, expected: byte) returns (flow: Flow)
      requires Valid() && input.Valid() && input !in Repr()
      requires expected == 0 || ((expected == 18 || expected == 26) && tag == expected)
      requires expected == 0 ==> input.lastTag == tag && !input.legitimateEnd
      modifies Repr(), input
      ensures Valid() && input.Valid() && fresh(Repr() - old(Repr()))
      ensures Leads(AfterTag(HEADER, old(Value()), tag, old(input.Rest())), flow, input)
      ensures flow == Return(true) || flow.Again? ==> input.limit == old(input.limit)
      ensures flow.Again? ==>
                && (flow.expected == 0 || flow.expected == 18 || flow.expected == 26)
                && |input.Rest()| < |old(input.Rest())|
    {
      hide AfterTag, Loop, TagNumber, TagWireType;
      hide LoginPacket.Value, LoginPacket.Valid, ConnectedPacket.Value, ConnectedPacket.Valid;
      HeaderTags(tag);
      if expected == 0 && TagNumber(tag) == 1 && TagWireType(tag) == LENGTH_DELIMITED {
        var ok, next := ParseLoginPacket(input);
        flow := if ok then Again(next) else Return(false);
      } else if expected == 18 || (expected == 0 && TagNumber(tag) == 2 && TagWireType(tag) == LENGTH_DELIMITED) {
        var ok, next := ParseConnectedPacket(input);
        flow := if ok then Again(next) else Return(false);
      } else if expected == 26 || (expected == 0 && TagNumber(tag) == 3 && TagWireType(tag) == LENGTH_DELIMITED) {
        flow := ParseAuthCode(input);
      } else {
        flow := ParseUnknown(input, tag);
      }
    }

    /** One turn of the generated loop, as in LoginPacket. */
    method ParseOne(input: CodedInputStream, expected: byte, ghost goal: Outcome<Header>) returns (flow: Flow)
      requires Valid() && input.Valid() && input !in Repr() && (expected == 0 || expected == 18 || expected == 26)
      requires Follows(goal, true, expected, input)
      modifies Repr(), input
      ensures Valid() && input.Valid() && fresh(Repr() - old(Repr())) && Leads(goal, flow, input)
      ensures flow == Return(true) || flow.Again? ==> input.limit == old(input.limit)
      ensures flow.Again? ==>
                && (flow.expected == 0 || flow.expected == 18 || flow.expected == 26)
                && |input.Rest()| < |old(input.Rest())|
    {
      hide AfterTag, Loop, ReadVarint32, Ahead;
      hide LoginPacket.Value, LoginPacket.Valid, ConnectedPacket.Value, ConnectedPacket.Valid;
      var tag: uint32 := expected;
      if expected == 0 {
        AheadOfNothing(input.Rest());
        LoopReadsTag(HEADER, Value(), input.Rest());
        tag := input.ReadTag();
        if tag == 0 { return Return(true); }
      } else {
        LoopExpectsTag(HEADER, Value(), expected, input.Rest());
      }
      flow := Dispatch(input, tag, expected);
    }

    /** The generated parser, for any answers to its hints, does what the read-tag-and-dispatch loop does. */
    method MergePartialFromCodedStream(input: CodedInputStream) returns (ok: bool)
      requires Valid() && input.Valid() && input !in Repr()
      modifies Repr(), input
      ensures Valid() && input.Valid() && fresh(Repr() - old(Repr()))
      ensures input.Reports(ok, Value(), Loop(HEADER, old(Value()), old(input.Rest())))
      ensures ok ==> input.limit == old(input.limit)
    {
      hide Loop, LoginPacket.Value, LoginPacket.Valid, ConnectedPacket.Value, ConnectedPacket.Valid;
      ghost var goal := Loop(HEADER, Value(), input.Rest());
      AheadOfNothing(input.Rest());
      var flow := Again(0);
      while flow.Again?
        invariant Valid() && input.Valid() && fresh(Repr() - old(Repr()))
        invariant Leads(goal, flow, input)
        invariant flow == Return(true) || flow.Again? ==> input.limit == old(input.limit)
        invariant flow.Again? ==> flow.expected == 0 || flow.expected == 18 || flow.expected == 26
        decreases flow.Again?, |input.Rest()|
      {
        flow := ParseOne(input, flow.expected, goal);
      }
      ok := flow.ok;
    }

    /**
     ParseFromString: clears, parses, and accepts only a complete and initialised message. What was
     parsed before a failure stays in the message.
     */
    method ParseFromString(s: bytes) returns (ok: bool)
      requires Valid()
      modifies Repr()
      ensures Valid() && fresh(Repr() - old(Repr()))
      ensures Value() == Loop(HEADER, NO_HEADER, s).msg
      ensures ok <==>
              && Parse(HEADER, NO_HEADER, s).Some?
              && (Value().login.Some? ==> Value().login.value.username.Some? && Value().login.value.password.Some?)
    {
      hide Loop, LoginPacket.Value, LoginPacket.Valid, ConnectedPacket.Value, ConnectedPacket.Valid;
      ValidClears();
      Clear();
      var input := new CodedInputStream(s);
      ok := MergePartialFromCodedStream(input);
      ok := ok && input.legitimateEnd && IsInitialized();
    }

    // --- serialising -----------------------------------------------------

    /** The lengths remembered by the submessages' last ByteSize. */
    function LoginCache(): CachedSize
      reads this, login_
    {
      if login_ == null then 0 else login_.cachedSize
    }

    function ConnectedCache(): CachedSize
      reads this, connected_
    {
      if connected_ == null then 0 else connected_.cachedSize
    }

    /** Adds up the size of the serialised message and leaves every submessage present with its true size cached. */
    method ByteSize() returns (total: nat)
      requires Valid() && |HeaderBytes(Value())| <= MAX_INT
      modifies Repr()
      ensures Valid() && Value() == old(Value()) && Repr() == old(Repr())
      ensures total == cachedSize == |HeaderBytes(Value())|
      ensures hasBits & 1 != 0 ==> LoginCache() == |LoginBytes(Value().login.value)|
      ensures hasBits & 2 != 0 ==> ConnectedCache() == |ConnectedBytes(Value().connected.value)|
    {
      hide HeaderBytes, LoginBytes, ConnectedBytes, DataSize, FieldsSize;
      hide LoginPacket.Value, LoginPacket.Valid, ConnectedPacket.Value, ConnectedPacket.Valid;
      LowByteDecides(hasBits);
      HeaderSize(Value());
      ghost var h := Value();
      total := 0;
      if hasBits & 0xFF != 0 {
        if hasBits & 1 != 0 {
          var n := login_.ByteSize();
          total := total + 1 + DataSize(n);
        }
        assert Valid() && Value() == h;
        if hasBits & 2 != 0 {
          var n := connected_.ByteSize();
          total := total + 1 + DataSize(n);
        }
        assert Valid() && Value() == h;
        if hasBits & 4 != 0 { total := total + 1 + DataSize(|Text(authCode_)|); }
      }
      if unknown != [] { total := total + FieldsSize(unknown); }
      assert FieldsSize([]) == 0 by { FieldsSizeExact([]); NoFieldsNoBytes(); }
      cachedSize := total;
    }

    /** The records of the submessages, under the lengths remembered for them. */
    ghost function LoginRecord(): bytes
      reads this, login_, connected_
    {
      DataRecord(Value().login.Some?, 10, LoginCache(), LoginBytes(Or(Value().login, NO_LOGIN)))
    }

    ghost function ConnectedRecord(): bytes
      reads this, login_, connected_
    {
      DataRecord(Value().connected.Some?, 18, ConnectedCache(), ConnectedBytes(Or(Value().connected, NO_CONNECTED)))
    }

    method WriteLoginPacket(output: CodedOutputStream)
      requires Valid()
      modifies output
      ensures output.out == old(output.out) + LoginRecord()
    {
      hide LoginBytes, EncVarint, LoginPacket.Value, LoginPacket.Valid;
      if hasBits & 1 != 0 {
        Append3(output.out, [10], EncVarint(login_.cachedSize), LoginBytes(login_.Value()));
        output.WriteMessageHead(10, login_.cachedSize);
        login_.SerializeWithCachedSizes(output);
      }
    }

    method WriteConnectedPacket(output: CodedOutputStream)
      requires Valid()
      modifies output
      ensures output.out == old(output.out) + ConnectedRecord()
    {
      hide ConnectedBytes, EncVarint, ConnectedPacket.Value, ConnectedPacket.Valid;
      if hasBits & 2 != 0 {
        Append3(output.out, [18], EncVarint(connected_.cachedSize), ConnectedBytes(connected_.Value()));
        output.WriteMessageHead(18, connected_.cachedSize);
        connected_.SerializeWithCachedSizes(output);
      }
    }

    /** Takes each submessage's length prefix from its cache, whether or not the cache is up to date. */
    method SerializeWithCachedSizes(output: CodedOutputStream)
      requires Valid()
      modifies output
      ensures output.out == old(output.out) + HeaderWith(Value(), LoginCache(), ConnectedCache())
    {
      hide LoginBytes, ConnectedBytes, EncFields, EncVarint, StringRecord, DataRecord;
      hide LoginPacket.Value, LoginPacket.Valid, ConnectedPacket.Value, ConnectedPacket.Valid;
      Absent(26);
      NoFieldsNoBytes();
      ghost var h, l, p := Value(), LoginRecord(), ConnectedRecord();
      Append4(output.out, l, p, StringRecord(h.authCode, 26), EncFields(unknown));
      WriteLoginPacket(output);
      WriteConnectedPacket(output);
      if hasBits & 4 != 0 { output.WriteString(26, Text(authCode_)); }
      if unknown != [] { output.SerializeUnknownFields(unknown); }
    }

    method WriteLoginPacketToArray(target: array<byte>, at: nat) returns (end: nat)
      requires Valid()
      requires at + |LoginRecord()| <= target.Length
      modifies target
      ensures end == at + |LoginRecord()|
      ensures target[..end] == old(target[..at]) + LoginRecord()
      ensures forall i | end <= i < target.Length :: target[i] == old(target[i])
    {
      hide LoginBytes, EncVarint, LoginPacket.Value, LoginPacket.Valid;
      end := at;
      if hasBits & 1 != 0 {
        Append3(target[..at], [10], EncVarint(login_.cachedSize), LoginBytes(login_.Value()));
        end := WriteMessageHeadToArray(10, login_.cachedSize, target, at);
        end := login_.SerializeWithCachedSizesToArray(target, end);
      }
    }

    method WriteConnectedPacketToArray(target: array<byte>, at: nat) returns (end: nat)
      requires Valid()
      requires at + |ConnectedRecord()| <= target.Length
      modifies target
      ensures end == at + |ConnectedRecord()|
      ensures target[..end] == old(target[..at]) + ConnectedRecord()
      ensures forall i | end <= i < target.Length :: target[i] == old(target[i])
    {
      hide ConnectedBytes, EncVarint, ConnectedPacket.Value, ConnectedPacket.Valid;
      end := at;
      if hasBits & 2 != 0 {
        Append3(target[..at], [18], EncVarint(connected_.cachedSize), ConnectedBytes(connected_.Value()));
        end := WriteMessageHeadToArray(18, connected_.cachedSize, target, at);
        end := connected_.SerializeWithCachedSizesToArray(target, end);
      }
    }

    method SerializeWithCachedSizesToArray(target: array<byte>, at: nat) returns (end: nat)
      requires Valid() && at + |HeaderWith(Value(), LoginCache(), ConnectedCache())| <= target.Length
      modifies target
      ensures end == at + |HeaderWith(Value(), LoginCache(), ConnectedCache())|
      ensures target[..end] == old(target[..at]) + HeaderWith(Value(), LoginCache(), ConnectedCache())
      ensures forall i | end <= i < target.Length :: target[i] == old(target[i])
    {
      hide LoginBytes, ConnectedBytes, EncFields, EncVarint, StringRecord, DataRecord;
      hide LoginPacket.Value, LoginPacket.Valid, ConnectedPacket.Value, ConnectedPacket.Valid;
      Absent(26);
      NoFieldsNoBytes();
      ghost var h, l, p := Value(), LoginRecord(), ConnectedRecord();
      Append4(target[..at], l, p, StringRecord(h.authCode, 26), EncFields(unknown));
      end := WriteLoginPacketToArray(target, at);
      assert target[..end] == old(target[..at]) + l;
      end := WriteConnectedPacketToArray(target, end);
      assert target[..end] == old(target[..at]) + l + p;
      if hasBits & 4 != 0 { end := WriteStringToArray(26, Text(authCode_), target, end); }
      if unknown != [] { end := WriteToArray(EncFields(unknown), target, end); }
    }

    /** SerializeToString: the size pass, then the array serialiser into a buffer of that size. */
    method SerializeToString() returns (s: bytes)
      requires Valid() && |HeaderBytes(Value())| <= MAX_INT
      modifies Repr()
      ensures Valid() && Value() == old(Value()) && Repr() == old(Repr()) && s == HeaderBytes(Value())
    {
      hide HeaderBytes, LoginBytes, ConnectedBytes, HeaderWith;
      hide LoginPacket.Value, LoginPacket.Valid, ConnectedPacket.Value, ConnectedPacket.Valid;
      var total := ByteSize();
      CachedSizesMatter(Value(), LoginCache(), ConnectedCache());
      var target := new byte[total](_ => 0);
      var end := SerializeWithCachedSizesToArray(target, 0);
      s := target[..];
    }
  }
  /**
   A clean header that fits goes through its bytes into another object: the value arrives whole, and the
   verdict is true exactly when a login, if there is one, has both its name and its password.
   */
  method ThroughBytes(h: PacketHeader) returns (ok: bool, copy: PacketHeader)
    requires h.Valid() && HeaderClean(h.Value()) && |HeaderBytes(h.Value())| <= 0x7FFF_FFFF
    modifies h.Repr()
    ensures fresh(copy.Repr()) && copy.Valid() && copy.Value() == old(h.Value())
    ensures var login := old(h.Value().login);
            ok <==> (login.Some? ==> login.value.username.Some? && login.value.password.Some?)
  {
    hide HeaderBytes, HeaderClean, Loop;
    hide LoginPacket.Value, LoginPacket.Valid, ConnectedPacket.Value, ConnectedPacket.Valid;
    HeaderRoundTrip(h.Value());
    var s := h.SerializeToString();
    copy := new PacketHeader();
    ok := copy.ParseFromString(s);
  }
}
