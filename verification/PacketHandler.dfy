/** The packet builders of PacketHandler.cpp, and what their packets look like once read through a C string. */
module PacketHandlers {
  import opened Bytes
  import opened WireFormat
  import opened MessageLoop
  import opened Messages
  import opened Serialization
  import opened Sizes
  import opened CodedStream
  import opened LoginPackets
  import opened ConnectedPackets
  import opened PacketHeaders

  function ConnectedReply(conn: bool): Header {
    NO_HEADER.(connected := Some(Connected(if conn then Some(1) else None, None, [])))
  }

  function LoginRequest(username: bytes, password: bytes, version: int32): Header {
    NO_HEADER.(login := Some(Login(Some(username), Some(password), Some(version), [])))
  }

  function AuthCode(code: bytes): Header {
    NO_HEADER.(authCode := Some(code))
  }

  // ------------------------------------------------------------------
  // The builders
  // ------------------------------------------------------------------

  method BuildConnectedPacket(conn: bool) returns (buf: bytes)
    ensures buf == HeaderBytes(ConnectedReply(conn)) == if conn then [18, 2, 8, 1] else [18, 0]
  {
    hide HeaderBytes;
    ConnectedReplyBytes(conn);
    var header := new PacketHeader();
    var connected := header.MutableConnectedPacket();
    if conn { connected.SetConnected(1); }
    assert header.Valid() && header.Value() == ConnectedReply(conn);
    buf := header.SerializeToString();
  }

  /** The arguments are C strings: only what precedes their first zero byte is sent. */
  method BuildLoginPacket(username: bytes, password: bytes, version: int32) returns (buf: bytes)
    requires |HeaderBytes(LoginRequest(CString(username), CString(password), version))| <= MAX_INT
    ensures buf == HeaderBytes(LoginRequest(CString(username), CString(password), version))
    ensures var u, p := CString(username), CString(password);
            var v := if version >= 0 then version else version + 0x1_0000_0000_0000_0000;
            var body := [18] + (EncVarint(|u|) + u) + ([26] + (EncVarint(|p|) + p) + ([32] + EncVarint(v)));
            buf == [10] + (EncVarint(|body|) + body)
  {
    hide HeaderBytes, CString, EncVarint;
    LoginRequestBytes(CString(username), CString(password), version);
    var header := new PacketHeader();
    var login := header.MutableLoginPacket();
    login.SetUsername(CString(username));
    login.SetPassword(CString(password));
    login.SetVersion(version);
    assert header.Valid() && header.Value() == LoginRequest(CString(username), CString(password), version);
    buf := header.SerializeToString();
  }

  method BuildAuthCodePacket(code: bytes) returns (buf: bytes)
    requires |HeaderBytes(AuthCode(CString(code)))| <= MAX_INT
    ensures buf == HeaderBytes(AuthCode(CString(code)))
    ensures buf == [26] + (EncVarint(|CString(code)|) + CString(code))
  {
    hide HeaderBytes, CString, EncVarint;
    AuthCodeBytes(CString(code));
    var header := new PacketHeader();
    header.SetAuthCode(CString(code));
    buf := header.SerializeToString();
  }

  // ------------------------------------------------------------------
  // Zero bytes
  // ------------------------------------------------------------------

  /** A minimal varint holds a zero byte only when it encodes 0. */
  lemma {:induction false} VarintZeroFree(n: nat)
    ensures 0 in EncVarint(n) <==> n == 0
  {
    if n >= 128 {
      VarintZeroFree(n / 128);
    }
  }

  lemma ZeroFreeConcat(a: bytes, b: bytes)
    ensures 0 in a + b <==> 0 in a || 0 in b
  {
  }

  lemma ZeroFreeString(b: bytes, tag: byte)
    requires tag != 0 && 0 !in b
    ensures 0 in StringRecord(Some(b), tag) <==> b == []
  {
    hide EncVarint;
    VarintZeroFree(|b|);
    ZeroFreeConcat([tag], EncVarint(|b|) + b);
    ZeroFreeConcat(EncVarint(|b|), b);
  }

  lemma ZeroFreeInt32(i: int32, tag: byte)
    requires tag != 0
    ensures 0 in Int32Record(Some(i), tag) <==> i == 0
  {
    hide EncVarint;
    VarintZeroFree(Int32ToVarint(i));
    ZeroFreeConcat([tag], EncVarint(Int32ToVarint(i)));
  }

  lemma ConnectedReplyBytes(conn: bool)
    ensures HeaderBytes(ConnectedReply(conn)) == if conn then [18, 2, 8, 1] else [18, 0]
  {
    var h := ConnectedReply(conn);
    var p := h.connected.value;
    HeaderPieces(h);
    ConnectedPieces(p);
    NoFieldsNoBytes();
    assert ConnectedBytes(p) == if conn then [8, 1] else [];
  }

  lemma AuthCodeBytes(code: bytes)
    ensures HeaderBytes(AuthCode(code)) == [26] + (EncVarint(|code|) + code)
  {
    hide EncVarint, EncFields, HeaderBytes, LoginBytes, ConnectedBytes;
    HeaderPieces(AuthCode(code));
    NoFieldsNoBytes();
  }

  /** A login request is one length-prefixed submessage: name, password, version. */
  lemma LoginRequestBytes(username: bytes, password: bytes, version: int32)
    ensures var v := if version >= 0 then version else version + 0x1_0000_0000_0000_0000;
            var body := [18] + (EncVarint(|username|) + username) +
                        ([26] + (EncVarint(|password|) + password) + ([32] + EncVarint(v)));
            && LoginBytes(LoginRequest(username, password, version).login.value) == body
            && HeaderBytes(LoginRequest(username, password, version)) == [10] + (EncVarint(|body|) + body)
  {
    hide EncVarint, EncFields, LoginBytes, HeaderBytes;
    var h := LoginRequest(username, password, version);
    HeaderPieces(h);
    LoginPieces(h.login.value);
    NoFieldsNoBytes();
    Absent(26);
  }

  lemma LoginBodyZeroFree(username: bytes, password: bytes, version: int32)
    requires 0 !in username && 0 !in password
    ensures var body := LoginBytes(LoginRequest(username, password, version).login.value);
            |body| > 0 && (0 in body <==> username == [] || password == [] || version == 0)
  {
    hide EncVarint, EncFields, LoginBytes, StringRecord, Int32Record;
    var l := LoginRequest(username, password, version).login.value;
    LoginPieces(l);
    NoFieldsNoBytes();
    var u, p, v := StringRecord(l.username, 18), StringRecord(l.password, 26), Int32Record(l.version, 32);
    assert LoginBytes(l) == u + (p + v);
    RecordNotEmpty(username, 18);
    ZeroFreeString(username, 18);
    ZeroFreeString(password, 26);
    ZeroFreeInt32(version, 32);
    ZeroFreeConcat(u, p + v);
    ZeroFreeConcat(p, v);
  }

  /** login_packet("a", "b", 1) */
  lemma LoginExample()
    ensures HeaderBytes(LoginRequest([0x61], [0x62], 1)) ==
            [0x0A, 0x08, 0x12, 0x01, 0x61, 0x1A, 0x01, 0x62, 0x20, 0x01]
  {
    hide HeaderBytes, LoginBytes;
    LoginRequestBytes([0x61], [0x62], 1);
  }

  lemma RecordNotEmpty(b: bytes, tag: byte)
    ensures |StringRecord(Some(b), tag)| > 0
  {
  }

  /** A login request has no zero byte exactly when nothing in it is empty or zero. */
  lemma LoginRequestZeroFree(username: bytes, password: bytes, version: int32)
    requires 0 !in username && 0 !in password
    ensures 0 !in HeaderBytes(LoginRequest(username, password, version)) <==>
            username != [] && password != [] && version != 0
  {
    hide HeaderBytes, EncVarint, LoginBytes;
    LoginRequestBytes(username, password, version);
    LoginBodyZeroFree(username, password, version);
    var body := LoginBytes(LoginRequest(username, password, version).login.value);
    VarintZeroFree(|body|);
    ZeroFreeConcat([10], EncVarint(|body|) + body);
    ZeroFreeConcat(EncVarint(|body|), body);
  }

  lemma AuthCodeZeroFree(code: bytes)
    requires 0 !in code
    ensures 0 !in HeaderBytes(AuthCode(code)) <==> code != []
  {
    hide HeaderBytes, EncVarint;
    AuthCodeBytes(code);
    VarintZeroFree(|code|);
    ZeroFreeConcat([26], EncVarint(|code|) + code);
    ZeroFreeConcat(EncVarint(|code|), code);
  }

  // ------------------------------------------------------------------
  // header.ParseFromString(buf) with buf a char array: a C string
  // ------------------------------------------------------------------

  /** What the receiver parses: the packet sits at the front of a buffer, with a zero byte after it. */
  function Received(packet: bytes, junk: bytes): bytes {
    CString(packet + [0] + junk)
  }

  lemma ReceivedWhole(packet: bytes, junk: bytes)
    requires 0 !in packet
    ensures Received(packet, junk) == packet
  {
    CStringStopsAtZero(packet, junk);
  }

  /** A zero byte in the body of a packet cuts the packet somewhere inside that body. */
  lemma ReceivedCut(head: bytes, body: bytes, junk: bytes)
    requires 0 !in head && 0 in body
    ensures exists k :: 0 <= k < |body| && Received(head + body, junk) == head + body[..k]
  {
    var s := head + body + [0] + junk;
    var r := CString(s);
    var z :| 0 <= z < |body| && body[z] == 0;
    assert s[|head| + z] == 0;
    assert forall i | 0 <= i < |r| :: s[i] == r[i] != 0;
    assert forall i | 0 <= i < |head| :: s[i] == head[i] != 0;
    var k := |r| - |head|;
    assert r == s[..|r|];
    assert s[..|head| + k] == head + body[..k];
  }

  /** A length-delimited record cut short is rejected; its field is only marked present. */
  lemma CutRecord(tag: byte, n: nat, part: bytes)
    requires (tag == 10 || tag == 18 || tag == 26) && |part| < n <= MAX_INT
    ensures Loop(HEADER, NO_HEADER, [tag] + (EncVarint(n) + part)) == Failed(HeaderTouch(NO_HEADER, tag))
  {
    hide EncVarint, Loop;
    var s := EncVarint(n) + part;
    Varint64RoundTrip(n, part);
    assert ReadData(s) == Bad;
    LoopExpectsTag(HEADER, NO_HEADER, tag, s);
    if tag == 10 {
      AfterLogin(NO_HEADER, s);
    } else if tag == 18 {
      AfterConnected(NO_HEADER, s);
    } else {
      AfterAuthCode(NO_HEADER, s);
    }
  }

  lemma ParsesWhole(h: Header)
    requires HeaderClean(h) && |HeaderBytes(h)| <= MAX_INT
    ensures Loop(HEADER, NO_HEADER, HeaderBytes(h)) == Stopped(h, [], AtEnd)
  {
    HeaderRoundTrip(h);
    AtEndLeavesNothing(HEADER, NO_HEADER, HeaderBytes(h));
  }

  /**
   A login request reaches the server intact exactly when its name and password are not empty and its
   version is not zero. Otherwise the parse fails, and the server finds a login with no fields.
   */
  lemma LoginOverCString(username: bytes, password: bytes, version: int32, junk: bytes)
    requires 0 !in username && 0 !in password
    requires |HeaderBytes(LoginRequest(username, password, version))| <= MAX_INT
    ensures Loop(HEADER, NO_HEADER, Received(HeaderBytes(LoginRequest(username, password, version)), junk)) ==
            if username != [] && password != [] && version != 0
            then Stopped(
              Header(Some(Login(Some(username), Some(password), Some(version), [])), None, None, []), [], AtEnd)
            else Failed(Header(Some(Login(None, None, None, [])), None, None, []))
  {
    hide HeaderBytes, LoginBytes, EncVarint, Loop, Received;
    var h := LoginRequest(username, password, version);
    LoginRequestZeroFree(username, password, version);
    LoginRequestBytes(username, password, version);
    LoginBodyZeroFree(username, password, version);
    if username != [] && password != [] && version != 0 {
      ReceivedWhole(HeaderBytes(h), junk);
      ParsesWhole(h);
    } else {
      var body := LoginBytes(h.login.value);
      var head := [10] + EncVarint(|body|);
      VarintZeroFree(|body|);
      ZeroFreeConcat([10], EncVarint(|body|));
      assert HeaderBytes(h) == head + body;
      ReceivedCut(head, body, junk);
      var k :| 0 <= k < |body| && Received(head + body, junk) == head + body[..k];
      assert head + body[..k] == [10] + (EncVarint(|body|) + body[..k]);
      CutRecord(10, |body|, body[..k]);
    }
  }

  /** An auth code always arrives as it was sent, but an empty one makes the parse fail. */
  lemma AuthCodeOverCString(code: bytes, junk: bytes)
    requires 0 !in code && |HeaderBytes(AuthCode(code))| <= MAX_INT
    ensures var o := Loop(HEADER, NO_HEADER, Received(HeaderBytes(AuthCode(code)), junk));
            var held := Header(None, None, Some(code), []);
            o == if code != [] then Stopped(held, [], AtEnd) else Failed(held)
  {
    hide HeaderBytes, EncVarint, Loop, Received;
    AuthCodeZeroFree(code);
    if code != [] {
      ReceivedWhole(HeaderBytes(AuthCode(code)), junk);
      ParsesWhole(AuthCode(code));
    } else {
      AuthCodeBytes(code);
      CutAfterTag(26, junk);
    }
  }

  /** An empty record: the zero length byte ends the C string right after the tag. */
  lemma CutAfterTag(tag: byte, junk: bytes)
    requires tag == 18 || tag == 26
    ensures EncVarint(0) == [0]
    ensures Loop(HEADER, NO_HEADER, Received([tag] + ([0] + []), junk)) == Failed(HeaderTouch(NO_HEADER, tag))
  {
    var s := [tag] + ([0] + []) + [0] + junk;
    assert s[0] == tag && s[1..][0] == 0;
    assert CString(s[1..]) == [];
    assert CString(s) == [tag] + CString(s[1..]) == [tag];
    LoopExpectsTag(HEADER, NO_HEADER, tag, []);
    assert Ahead(tag) + [] == [tag];
    assert ReadData([]) == Bad;
    if tag == 18 { AfterConnected(NO_HEADER, []); } else { AfterAuthCode(NO_HEADER, []); }
  }

  /**
   The game client reads the right answer off a connected packet in both cases, although the
   refusing packet is cut after its tag and its parse fails.
   */
  lemma ConnectedOverCString(conn: bool, junk: bytes)
    ensures var o := Loop(HEADER, NO_HEADER, Received(HeaderBytes(ConnectedReply(conn)), junk));
            o == if conn then Stopped(Header(None, Some(Connected(Some(1), None, [])), None, []), [], AtEnd)
                 else Failed(Header(None, Some(Connected(None, None, [])), None, []))
  {
    hide HeaderBytes, Loop, Received, EncVarint;
    ConnectedReplyBytes(conn);
    if conn {
      ReceivedWhole(HeaderBytes(ConnectedReply(conn)), junk);
      ParsesWhole(ConnectedReply(conn));
    } else {
      CutAfterTag(18, junk);
      assert [18] + ([0] + []) == [18, 0];
    }
  }

  /** The text the auth server sends for a refused login is no packet, and sets no field. */
  lemma RefusalSetsNothing(junk: bytes)
    ensures Loop(HEADER, NO_HEADER, Received([102, 97, 105, 108, 117, 114, 101], junk))
         == Failed(Header(None, None, None, []))
  {
    hide Loop, ReadData;
    var s: bytes := [102, 97, 105, 108, 117, 114, 101];
    ReceivedWhole(s, junk);
    assert s == Ahead(102) + s[1..];
    LoopExpectsTag(HEADER, NO_HEADER, 102, s[1..]);
    assert TagNumber(102) == 12 && TagWireType(102) == 6;
    AfterHeaderUnknown(NO_HEADER, 102, s[1..]);
  }
}
