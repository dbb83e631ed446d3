/** Runs of operations on a header: what any run keeps, and what it cannot protect against. */
module MessageRuns {
  import opened Bytes
  import opened WireFormat
  import opened MessageLoop
  import opened Messages
  import opened Serialization
  import opened CodedStream
  import opened LoginPackets
  import opened ConnectedPackets
  import opened PacketHeaders

  /** An operation on a string field; write is what the caller puts through the pointer mutable_ gives, if anything. */
  datatype TextOp =
    | Set(b: bytes)
    | Clear
    | Mutable(write: Option<bytes>)
    | Release
    | SetAllocated(p: StringPtr)

  /** An operation on an int32 field. */
  datatype NumberOp = SetNumber(i: int32) | ClearNumber

  /** An operation on a login object; other logins are the results of runs of their own. */
  datatype LoginOp =
    | Username(text: TextOp)
    | Password(text: TextOp)
    | Version(number: NumberOp)
    | ClearAll
    | MergePartial(s: bytes)       // parse into the message, whether or not the input is accepted
    | MergeFrom(from: seq<LoginOp>)
    | CopyFrom(from: seq<LoginOp>)

  datatype ConnectedOp =
    | Number(number: NumberOp)
    | CharacterList(text: TextOp)
    | ClearAll
    | MergePartial(s: bytes)
    | MergeFrom(from: seq<ConnectedOp>)
    | CopyFrom(from: seq<ConnectedOp>)

  datatype Op =
    | AuthCode(text: TextOp)
    | OnLogin(login: LoginOp)                  // on what mutable_login_packet() gives
    | ClearLogin
    | ReleaseLogin
    | SetAllocatedLogin(built: Option<seq<LoginOp>>)
    | OnConnected(connected: ConnectedOp)      // on what mutable_connected_packet() gives
    | ClearConnected
    | ReleaseConnected
    | SetAllocatedConnected(made: Option<seq<ConnectedOp>>)
    | ClearAll
    | MergePartial(s: bytes)
    | ParseString(s: bytes)
    | MergeFrom(from: seq<Op>)
    | CopyFrom(from: seq<Op>)

  // ------------------------------------------------------------------
  // What the operations do to values
  // ------------------------------------------------------------------

  function TextEffect(t: Option<bytes>, op: TextOp): Option<bytes> {
    match op
    case Set(b) => Some(b)
    case Clear => None
    case Mutable(write) => Some(Or(write, Or(t, [])))
    case Release => None
    case SetAllocated(p) => p
  }

  function NumberEffect(op: NumberOp): Option<int32> {
    match op
    case SetNumber(i) => Some(i)
    case ClearNumber => None
  }

  function LoginEffect(l: Login, op: LoginOp): Login
    decreases op, 0
  {
    match op
    case Username(t) => l.(username := TextEffect(l.username, t))
    case Password(t) => l.(password := TextEffect(l.password, t))
    case Version(n) => l.(version := NumberEffect(n))
    case ClearAll => NO_LOGIN
    case MergePartial(s) => Loop(LOGIN, l, s).msg
    case MergeFrom(from) => MergeLogin(l, LoginEffects(NO_LOGIN, from))
    case CopyFrom(from) => LoginEffects(NO_LOGIN, from)
  }

  function LoginEffects(l: Login, ops: seq<LoginOp>): Login
    decreases ops, 1
  {
    if ops == [] then l else LoginEffects(LoginEffect(l, ops[0]), ops[1..])
  }

  function ConnectedEffect(p: Connected, op: ConnectedOp): Connected
    decreases op, 0
  {
    match op
    case Number(n) => p.(connected := NumberEffect(n))
    case CharacterList(t) => p.(characterList := TextEffect(p.characterList, t))
    case ClearAll => NO_CONNECTED
    case MergePartial(s) => Loop(CONNECTED, p, s).msg
    case MergeFrom(from) => MergeConnected(p, ConnectedEffects(NO_CONNECTED, from))
    case CopyFrom(from) => ConnectedEffects(NO_CONNECTED, from)
  }

  function ConnectedEffects(p: Connected, ops: seq<ConnectedOp>): Connected
    decreases ops, 1
  {
    if ops == [] then p else ConnectedEffects(ConnectedEffect(p, ops[0]), ops[1..])
  }

  function Effect(h: Header, op: Op): Header
    decreases op, 0
  {
    match op
    case AuthCode(t) => h.(authCode := TextEffect(h.authCode, t))
    case OnLogin(l) => h.(login := Some(LoginEffect(Or(h.login, NO_LOGIN), l)))
    case ClearLogin => h.(login := None)
    case ReleaseLogin => h.(login := None)
    case SetAllocatedLogin(ops) => h.(login := if ops == None then None else Some(LoginEffects(NO_LOGIN, ops.value)))
    case OnConnected(p) => h.(connected := Some(ConnectedEffect(Or(h.connected, NO_CONNECTED), p)))
    case ClearConnected => h.(connected := None)
    case ReleaseConnected => h.(connected := None)
    case SetAllocatedConnected(ops) =>
      h.(connected := if ops == None then None else Some(ConnectedEffects(NO_CONNECTED, ops.value)))
    case ClearAll => NO_HEADER
    case MergePartial(s) => Loop(HEADER, h, s).msg
    case ParseString(s) => Loop(HEADER, NO_HEADER, s).msg
    case MergeFrom(from) => MergeHeader(h, Effects(NO_HEADER, from))
    case CopyFrom(from) => Effects(NO_HEADER, from)
  }

  function Effects(h: Header, ops: seq<Op>): Header
    decreases ops, 1
  {
    if ops == [] then h else Effects(Effect(h, ops[0]), ops[1..])
  }

  lemma WhatTextOpsSay(t: Option<bytes>, b: bytes, i: int32)
    ensures TextEffect(t, Set(b)) == Some(b) && TextEffect(t, Mutable(Some(b))) == Some(b)
    ensures TextEffect(t, Mutable(None)) == if t.Some? then t else Some([])
    ensures TextEffect(t, TextOp.Clear) == None && TextEffect(t, Release) == None
    ensures TextEffect(t, SetAllocated(Some(b))) == Some(b) && TextEffect(t, SetAllocated(None)) == None
    ensures NumberEffect(SetNumber(i)) == Some(i) && NumberEffect(ClearNumber) == None
  {
  }

  lemma WhatSubmessageOpsSay(l: Login, p: Connected, s: bytes)
    ensures LoginEffect(l, LoginOp.ClearAll) == Login(None, None, None, [])
    ensures LoginEffect(l, LoginOp.MergePartial(s)) == Loop(LOGIN, l, s).msg
    ensures ConnectedEffect(p, ConnectedOp.ClearAll) == Connected(None, None, [])
    ensures ConnectedEffect(p, ConnectedOp.MergePartial(s)) == Loop(CONNECTED, p, s).msg
  {
    hide Loop;
  }

  lemma WhatHeaderOpsSay(h: Header, s: bytes)
    ensures Effect(h, ClearLogin) == Effect(h, ReleaseLogin) == Effect(h, SetAllocatedLogin(None)) == h.(login := None)
    ensures Effect(h, ClearConnected) == Effect(h, ReleaseConnected) == Effect(h, SetAllocatedConnected(None))
         == h.(connected := None)
    ensures Effect(h, Op.ClearAll) == Header(None, None, None, [])
    ensures Effect(h, Op.MergePartial(s)) == Loop(HEADER, h, s).msg
    ensures Effect(h, ParseString(s)) == Loop(HEADER, Header(None, None, None, []), s).msg
  {
    hide Loop;
  }

  // ------------------------------------------------------------------
  // The classes follow these effects, and their invariants survive every run
  // ------------------------------------------------------------------

  method RunUsername(p: LoginPacket, op: TextOp)
    requires p.Valid()
    modifies p
    ensures p.Valid() && p.Value() == old(p.Value()).(username := TextEffect(old(p.Value()).username, op))
  {
    match op {
      case Set(b) => p.SetUsername(b);
      case Clear => p.ClearUsername();
      case Mutable(write) =>
        var _ := p.MutableUsername();
        if write.Some? { p.WriteUsername(write.value); }
      case Release => var _ := p.ReleaseUsername();
      case SetAllocated(s) => p.SetAllocatedUsername(s);
    }
  }

  method RunPassword(p: LoginPacket, op: TextOp)
    requires p.Valid()
    modifies p
    ensures p.Valid() && p.Value() == old(p.Value()).(password := TextEffect(old(p.Value()).password, op))
  {
    match op {
      case Set(b) => p.SetPassword(b);
      case Clear => p.ClearPassword();
      case Mutable(write) =>
        var _ := p.MutablePassword();
        if write.Some? { p.WritePassword(write.value); }
      case Release => var _ := p.ReleasePassword();
      case SetAllocated(s) => p.SetAllocatedPassword(s);
    }
  }

  method RunVersion(p: LoginPacket, op: NumberOp)
    requires p.Valid()
    modifies p
    ensures p.Valid() && p.Value() == old(p.Value()).(version := NumberEffect(op))
  {
    match op {
      case SetNumber(i) => p.SetVersion(i);
      case ClearNumber => p.ClearVersion();
    }
  }

  method RunLoginOp(p: LoginPacket, op: LoginOp)
    requires p.Valid()
    modifies p
    ensures p.Valid() && p.Value() == LoginEffect(old(p.Value()), op)
    decreases op, 0
  {
    hide Loop, MergeLogin, TextEffect, NumberEffect, LoginEffects, LoginPacket.Valid, LoginPacket.Value;
    match op {
      case Username(t) => RunUsername(p, t);
      case Password(t) => RunPassword(p, t);
      case Version(n) => RunVersion(p, n);
      case ClearAll =>
        p.ValidClears();
        p.Clear();
      case MergePartial(s) =>
        var input := new CodedInputStream(s);
        var _ := p.MergePartialFromCodedStream(input);
      case MergeFrom(ops) =>
        var from := RunLogin(ops);
        p.MergeFrom(from);
      case CopyFrom(ops) =>
        var from := RunLogin(ops);
        p.CopyFrom(from);
    }
  }

  /** Any run on a new login object. */
  method RunLogin(ops: seq<LoginOp>) returns (p: LoginPacket)
    ensures fresh(p) && p.Valid() && p.Value() == LoginEffects(NO_LOGIN, ops)
    ensures p.hasBits & 1 == 0 ==> Text(p.username_) == []
    ensures p.hasBits & 2 == 0 ==> Text(p.password_) == []
    ensures p.hasBits & 4 == 0 ==> p.version_ == 0
    decreases ops, 1
  {
    hide LoginEffect, LoginPacket.Value;
    p := new LoginPacket();
    var i := 0;
    assert ops[0..] == ops;
    while i < |ops|
      invariant i <= |ops| && fresh(p) && p.Valid()
      invariant LoginEffects(p.Value(), ops[i..]) == LoginEffects(NO_LOGIN, ops)
    {
      RunLoginOp(p, ops[i]);
      assert ops[i..][1..] == ops[i + 1..];
      i := i + 1;
    }
  }

  method RunCharacterList(p: ConnectedPacket, op: TextOp)
    requires p.Valid()
    modifies p
    ensures p.Valid() && p.Value() == old(p.Value()).(characterList := TextEffect(old(p.Value()).characterList, op))
  {
    match op {
      case Set(b) => p.SetCharacterList(b);
      case Clear => p.ClearCharacterList();
      case Mutable(write) =>
        var _ := p.MutableCharacterList();
        if write.Some? { p.WriteCharacterList(write.value); }
      case Release => var _ := p.ReleaseCharacterList();
      case SetAllocated(s) => p.SetAllocatedCharacterList(s);
    }
  }

  method RunNumber(p: ConnectedPacket, op: NumberOp)
    requires p.Valid()
    modifies p
    ensures p.Valid() && p.Value() == old(p.Value()).(connected := NumberEffect(op))
  {
    match op {
      case SetNumber(i) => p.SetConnected(i);
      case ClearNumber => p.ClearConnected();
    }
  }

  method RunConnectedOp(p: ConnectedPacket, op: ConnectedOp)
    requires p.Valid()
    modifies p
    ensures p.Valid() && p.Value() == ConnectedEffect(old(p.Value()), op)
    decreases op, 0
  {
    hide Loop, MergeConnected, TextEffect, NumberEffect, ConnectedEffects, ConnectedPacket.Valid, ConnectedPacket.Value;
    match op {
      case Number(n) => RunNumber(p, n);
      case CharacterList(t) => RunCharacterList(p, t);
      case ClearAll =>
        p.ValidClears();
        p.Clear();
      case MergePartial(s) =>
        var input := new CodedInputStream(s);
        var _ := p.MergePartialFromCodedStream(input);
      case MergeFrom(ops) =>
        var from := RunConnected(ops);
        p.MergeFrom(from);
      case CopyFrom(ops) =>
        var from := RunConnected(ops);
        p.CopyFrom(from);
    }
  }

  /** Any run on a new connected packet. */
  method RunConnected(ops: seq<ConnectedOp>) returns (p: ConnectedPacket)
    ensures fresh(p) && p.Valid() && p.Value() == ConnectedEffects(NO_CONNECTED, ops)
    ensures p.hasBits & 1 == 0 ==> p.connected_ == 0
    ensures p.hasBits & 2 == 0 ==> Text(p.characterList_) == []
    decreases ops, 1
  {
    hide ConnectedEffect, ConnectedPacket.Value;
    p := new ConnectedPacket();
    var i := 0;
    assert ops[0..] == ops;
    while i < |ops|
      invariant i <= |ops| && fresh(p) && p.Valid()
      invariant ConnectedEffects(p.Value(), ops[i..]) == ConnectedEffects(NO_CONNECTED, ops)
    {
      RunConnectedOp(p, ops[i]);
      assert ops[i..][1..] == ops[i + 1..];
      i := i + 1;
    }
  }

  method RunAuthCode(h: PacketHeader, op: TextOp)
    requires h.Valid()
    modifies h`hasBits, h`authCode_
    ensures h.Valid() && h.Value() == old(h.Value()).(authCode := TextEffect(old(h.Value()).authCode, op))
  {
    hide LoginPacket.Valid, LoginPacket.Value, ConnectedPacket.Valid, ConnectedPacket.Value;
    match op {
      case Set(b) => h.SetAuthCode(b);
      case Clear => h.ClearAuthCode();
      case Mutable(write) =>
        h.ValidClears();
        var _ := h.MutableAuthCode();
        if write.Some? { h.WriteAuthCode(write.value); }
      case Release => var _ := h.ReleaseAuthCode();
      case SetAllocated(p) => h.SetAllocatedAuthCode(p);
    }
  }

  method RunOnLogin(h: PacketHeader, op: LoginOp)
    requires h.Valid()
    modifies h.Repr()
    ensures h.Valid() && fresh(h.Repr() - old(h.Repr()))
    ensures h.Value() == old(h.Value()).(login := Some(LoginEffect(Or(old(h.Value()).login, NO_LOGIN), op)))
  {
    hide LoginEffect, LoginPacket.Valid, LoginPacket.Value, ConnectedPacket.Valid, ConnectedPacket.Value;
    var p := h.MutableLoginPacket();
    RunLoginOp(p, op);
  }

  method RunSetAllocatedLogin(h: PacketHeader, ops: Option<seq<LoginOp>>)
    requires h.Valid()
    modifies h.Repr()
    ensures h.Valid() && fresh(h.Repr() - old(h.Repr()))
    ensures h.Value() == Effect(old(h.Value()), SetAllocatedLogin(ops))
  {
    hide LoginEffects, LoginPacket.Valid, LoginPacket.Value, ConnectedPacket.Valid, ConnectedPacket.Value;
    if ops == None {
      h.SetAllocatedLoginPacket(null);
    } else {
      var p := RunLogin(ops.value);
      h.SetAllocatedLoginPacket(p);
    }
  }

  method RunOnConnected(h: PacketHeader, op: ConnectedOp)
    requires h.Valid()
    modifies h.Repr()
    ensures h.Valid() && fresh(h.Repr() - old(h.Repr()))
    ensures h.Value() ==
            old(h.Value()).(connected := Some(ConnectedEffect(Or(old(h.Value()).connected, NO_CONNECTED), op)))
  {
    hide ConnectedEffect, LoginPacket.Valid, LoginPacket.Value, ConnectedPacket.Valid, ConnectedPacket.Value;
    var p := h.MutableConnectedPacket();
    RunConnectedOp(p, op);
  }

  method RunSetAllocatedConnected(h: PacketHeader, ops: Option<seq<ConnectedOp>>)
    requires h.Valid()
    modifies h.Repr()
    ensures h.Valid() && fresh(h.Repr() - old(h.Repr()))
    ensures h.Value() == Effect(old(h.Value()), SetAllocatedConnected(ops))
  {
    hide ConnectedEffects, LoginPacket.Valid, LoginPacket.Value, ConnectedPacket.Valid, ConnectedPacket.Value;
    if ops == None {
      h.SetAllocatedConnectedPacket(null);
    } else {
      var p := RunConnected(ops.value);
      h.SetAllocatedConnectedPacket(p);
    }
  }

  method RunMergePartial(h: PacketHeader, s: bytes)
    requires h.Valid()
    modifies h.Repr()
    ensures h.Valid() && fresh(h.Repr() - old(h.Repr()))
    ensures h.Value() == Loop(HEADER, old(h.Value()), s).msg
  {
    hide Loop, LoginPacket.Valid, LoginPacket.Value, ConnectedPacket.Valid, ConnectedPacket.Value;
    var input := new CodedInputStream(s);
    var _ := h.MergePartialFromCodedStream(input);
  }

  /** Builds another header by a run of its own, and merges or copies it into h. */
  method RunOther(h: PacketHeader, ops: seq<Op>, copy: bool)
    requires h.Valid()
    modifies h.Repr()
    ensures h.Valid() && fresh(h.Repr() - old(h.Repr()))
    ensures h.Value() == if copy then Effects(NO_HEADER, ops) else MergeHeader(old(h.Value()), Effects(NO_HEADER, ops))
    decreases ops, 4
  {
    hide MergeHeader, Effects, LoginPacket.Valid, LoginPacket.Value, ConnectedPacket.Valid, ConnectedPacket.Value;
    var from := Run(ops);
    if copy { h.CopyFrom(from); } else { h.MergeFrom(from); }
  }

  method RunOp(h: PacketHeader, op: Op)
    requires h.Valid()
    modifies h.Repr()
    ensures h.Valid() && fresh(h.Repr() - old(h.Repr()))
    ensures h.Value() == Effect(old(h.Value()), op)
    decreases op, 2
  {
    hide Loop, MergeHeader, TextEffect, LoginEffect, LoginEffects, ConnectedEffect, ConnectedEffects;
    hide LoginPacket.Valid, LoginPacket.Value, ConnectedPacket.Valid, ConnectedPacket.Value;
    match op {
      case AuthCode(t) => RunAuthCode(h, t);
      case OnLogin(l) => RunOnLogin(h, l);
      case ClearLogin => h.ClearLoginPacket();
      case ReleaseLogin => var _ := h.ReleaseLoginPacket();
      case SetAllocatedLogin(ops) => RunSetAllocatedLogin(h, ops);
      case OnConnected(p) => RunOnConnected(h, p);
      case ClearConnected => h.ClearConnectedPacket();
      case ReleaseConnected => var _ := h.ReleaseConnectedPacket();
      case SetAllocatedConnected(ops) => RunSetAllocatedConnected(h, ops);
      case ClearAll =>
        h.ValidClears();
        h.Clear();
      case MergePartial(s) => RunMergePartial(h, s);
      case ParseString(s) => var _ := h.ParseFromString(s);
      case MergeFrom(ops) => RunOther(h, ops, false);
      case CopyFrom(ops) => RunOther(h, ops, true);
    }
  }

  /** Any run on a new header: the object ends up holding what the operations say, with its invariant intact. */
  method Run(ops: seq<Op>) returns (h: PacketHeader)
    ensures fresh(h.Repr()) && h.Valid() && h.Value() == Effects(NO_HEADER, ops)
    ensures h.hasBits & 1 == 0 ==> h.login_ == null || h.login_.Value() == NO_LOGIN
    ensures h.hasBits & 2 == 0 ==> h.connected_ == null || h.connected_.Value() == NO_CONNECTED
    ensures h.hasBits & 4 == 0 ==> Text(h.authCode_) == []
    decreases ops, 3
  {
    hide Effect;
    hide LoginPacket.Valid, LoginPacket.Value, ConnectedPacket.Valid, ConnectedPacket.Value;
    h := new PacketHeader();
    var i := 0;
    while i < |ops|
      invariant i <= |ops| && fresh(h.Repr()) && h.Valid()
      invariant Effects(h.Value(), ops[i..]) == Effects(NO_HEADER, ops)
    {
      RunOp(h, ops[i]);
      i := i + 1;
    }
  }

  // ------------------------------------------------------------------
  // What holds of every reachable message
  // ------------------------------------------------------------------

  lemma {:induction false} LoginEffectClean(l: Login, op: LoginOp)
    requires LoginClean(l)
    ensures LoginClean(LoginEffect(l, op))
    decreases op, 0
  {
    match op
    case MergePartial(s) => LoginStaysClean(l, s);
    case MergeFrom(from) => LoginEffectsClean(NO_LOGIN, from);
    case CopyFrom(from) => LoginEffectsClean(NO_LOGIN, from);
    case _ =>
  }

  lemma {:induction false} LoginEffectsClean(l: Login, ops: seq<LoginOp>)
    requires LoginClean(l)
    ensures LoginClean(LoginEffects(l, ops))
    decreases ops, 1
  {
    if ops != [] {
      LoginEffectClean(l, ops[0]);
      LoginEffectsClean(LoginEffect(l, ops[0]), ops[1..]);
    }
  }

  lemma {:induction false} ConnectedEffectClean(p: Connected, op: ConnectedOp)
    requires ConnectedClean(p)
    ensures ConnectedClean(ConnectedEffect(p, op))
    decreases op, 0
  {
    match op
    case MergePartial(s) => ConnectedStaysClean(p, s);
    case MergeFrom(from) => ConnectedEffectsClean(NO_CONNECTED, from);
    case CopyFrom(from) => ConnectedEffectsClean(NO_CONNECTED, from);
    case _ =>
  }

  lemma {:induction false} ConnectedEffectsClean(p: Connected, ops: seq<ConnectedOp>)
    requires ConnectedClean(p)
    ensures ConnectedClean(ConnectedEffects(p, ops))
    decreases ops, 1
  {
    if ops != [] {
      ConnectedEffectClean(p, ops[0]);
      ConnectedEffectsClean(ConnectedEffect(p, ops[0]), ops[1..]);
    }
  }

  lemma {:induction false} EffectClean(h: Header, op: Op)
    requires HeaderClean(h)
    ensures HeaderClean(Effect(h, op))
    decreases op, 0
  {
    match op
    case OnLogin(l) => LoginEffectClean(Or(h.login, NO_LOGIN), l);
    case SetAllocatedLogin(Some(ops)) => LoginEffectsClean(NO_LOGIN, ops);
    case OnConnected(p) => ConnectedEffectClean(Or(h.connected, NO_CONNECTED), p);
    case SetAllocatedConnected(Some(ops)) => ConnectedEffectsClean(NO_CONNECTED, ops);
    case MergePartial(s) => HeaderStaysClean(h, s);
    case ParseString(s) => HeaderStaysClean(NO_HEADER, s);
    case MergeFrom(from) => EffectsClean(NO_HEADER, from);
    case CopyFrom(from) => EffectsClean(NO_HEADER, from);
    case _ =>
  }

  lemma {:induction false} EffectsClean(h: Header, ops: seq<Op>)
    requires HeaderClean(h)
    ensures HeaderClean(Effects(h, ops))
    decreases ops, 1
  {
    if ops != [] {
      EffectClean(h, ops[0]);
      EffectsClean(Effect(h, ops[0]), ops[1..]);
    }
  }

  /** Every message some run can produce comes back from its serialisation, provided the sizes fit in an int. */
  lemma ReachableRoundTrip(ops: seq<Op>)
    requires |HeaderBytes(Effects(NO_HEADER, ops))| <= 0x7FFF_FFFF
    ensures Parse(HEADER, NO_HEADER, HeaderBytes(Effects(NO_HEADER, ops))) == Some(Effects(NO_HEADER, ops))
  {
    EffectsClean(NO_HEADER, ops);
    HeaderRoundTrip(Effects(NO_HEADER, ops));
  }

  // ------------------------------------------------------------------
  // What no run above does: write through a pointer after its field was cleared
  // ------------------------------------------------------------------

  /** The text stays behind in a message of a fresh one's value, and the next mutable_username() finds it. */
  method StaleString(name: bytes) returns (p: LoginPacket, found: bytes)
    ensures fresh(p) && p.Sound() && p.Value() == NO_LOGIN.(username := Some(name)) && found == name
  {
    p := new LoginPacket();
    var _ := p.MutableUsername();
    p.ClearUsername();
    p.WriteUsername(name);
    p.Clear();
    assert p.Value() == NO_LOGIN && (p.Valid() <==> name == []);
    found := p.MutableUsername();
  }

  /** The same with a pointer to a submessage; there Clear() leaves a whole login behind. */
  method StaleSubmessage(name: bytes) returns (h: PacketHeader)
    ensures h.Sound() && h.Value() == NO_HEADER && !h.Valid()
    ensures h.login_ != null && h.login_.Value() == NO_LOGIN.(username := Some(name))
  {
    hide LoginPacket.Valid, LoginPacket.Value, ConnectedPacket.Valid, ConnectedPacket.Value;
    h := new PacketHeader();
    var p := h.MutableLoginPacket();
    h.ClearLoginPacket();
    assert p.Value() == NO_LOGIN;
    p.SetUsername(name);
    p.ValidClears();
    h.Clear();
  }
}
