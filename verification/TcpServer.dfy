/** TcpServer of server.cpp: framing, the messages it sends, and their way to a client. */
module TcpServers {
  import opened Bytes
  import opened BufferCodec
  import opened ByteBuffers
  import opened Framing
  import opened TcpClients

  /** The sending end of a connection. A send may fail or accept only the front of what it is given. */
  class Wire {
    var sent: bytes
    var failed: bool     // the last send accepted nothing
    const whole: bool    // on this connection a send accepts everything or fails

    constructor (whole: bool)
      ensures sent == [] && this.whole == whole
    {
      sent := [];
      failed := false;
      this.whole := whole;
    }

    method Send(b: bytes) returns (ret: int)
      modifies this
      ensures -1 <= ret <= |b| && sent == old(sent) + b[..if ret > 0 then ret else 0]
      ensures failed == (ret <= 0) && (whole && ret > 0 ==> ret == |b|)
    {
      var some: int := *;
      ret := if whole && some > 0 then |b| else if -1 <= some <= |b| then some else -1;
      if ret > 0 { sent := sent + b[..ret]; }
      failed := ret <= 0;
    }
  }

  const SERIALIZE_TYPES := [TSigned(4), TString]

  predicate IsSerializable(nIndex: int, strMessage: bytes) {
    -0x8000_0000 <= nIndex < 0x8000_0000 && 0 !in strMessage
  }

  lemma SerializableTypes(nIndex: int, strMessage: bytes)
    requires IsSerializable(nIndex, strMessage)
    ensures HaveTypes([VInt(nIndex), VString(strMessage)], SERIALIZE_TYPES)
  {
    PowersOf256();
  }

  /** A NetPacket_Test_Serialize on the wire: nIndex << strMessage. */
  function SerializedPayload(nIndex: int, strMessage: bytes): bytes
    requires IsSerializable(nIndex, strMessage)
  {
    SerializableTypes(nIndex, strMessage);
    EncodeAll([VInt(nIndex), VString(strMessage)], SERIALIZE_TYPES)
  }

  lemma SerializedParts(nIndex: int, strMessage: bytes)
    requires IsSerializable(nIndex, strMessage)
    ensures HasType(VInt(nIndex), TSigned(4))
    ensures SerializedPayload(nIndex, strMessage) == Encode(VInt(nIndex), TSigned(4)) + (strMessage + [0])
    ensures |SerializedPayload(nIndex, strMessage)| == 5 + |strMessage|
  {
    SerializableTypes(nIndex, strMessage);
    var vs, tys := [VInt(nIndex), VString(strMessage)], SERIALIZE_TYPES;
    assert vs[1..] == [VString(strMessage)] && tys[1..] == [TString];
    assert EncodeAll(vs[1..], tys[1..]) == (strMessage + [0]) + EncodeAll(vs[1..][1..], tys[1..][1..]);
  }

  /** Whatever index and text are written, the client's handler reads them back. */
  lemma ReceiveSerialized(nIndex: int, strMessage: bytes)
    requires -0x8000_0000 <= nIndex < 0x8000_0000 && 0 !in strMessage
    ensures Receive(Some(SerializedPayload(nIndex, strMessage))) == Serialized(nIndex, strMessage)
  {
    hide Encode, Decode, DecodeString, SerializedPayload;
    SerializedParts(nIndex, strMessage);
    RoundTrip(VInt(nIndex), TSigned(4), strMessage + [0]);
    StringReadsBack(strMessage, []);
    assert strMessage + [0] + [] == strMessage + [0];
  }

  // ------------------------------------------------------------------
  // What the server sends: POD and serialised messages in turn
  // ------------------------------------------------------------------

  // "[1]..[2]..[3].." with two Chinese characters after each number, in UTF-8.
  const POD_TEXT: bytes := [
    0x5B, 0x31, 0x5D, 0xE4, 0xBD, 0xA0, 0xE5, 0xA5, 0xBD,
    0x5B, 0x32, 0x5D, 0xE4, 0xBD, 0xA0, 0xE5, 0xA5, 0xBD,
    0x5B, 0x33, 0x5D, 0xE4, 0xBD, 0xA0, 0xE5, 0xA5, 0xBD]
  const SERIALIZE_TEXT: bytes := [
    0x5B, 0x31, 0x5D, 0xE6, 0x97, 0xA9, 0xE6, 0x99, 0xA8,
    0x5B, 0x32, 0x5D, 0xE6, 0x97, 0xA9, 0xE6, 0x99, 0xA8,
    0x5B, 0x33, 0x5D, 0xE6, 0x97, 0xA9, 0xE6, 0x99, 0xA8]

  lemma Texts()
    ensures |POD_TEXT| == |SERIALIZE_TEXT| == 27 && 0 !in POD_TEXT && 0 !in SERIALIZE_TEXT
  {
  }

  /** The object representation of a NetPacket_Test_POD whose array was filled by strncpy. */
  function PodMessage(nCount: nat): (r: bytes)
    ensures |r| == POD_SIZE
  {
    ToLE(nCount % 0x1_0000_0000, 4) + POD_TEXT + seq(512 - |POD_TEXT|, _ => 0)
  }

  lemma Padded(index: bytes, text: bytes, zeros: bytes)
    requires |index| == 4 && 0 !in text && zeros != [] && zeros[0] == 0
    ensures var m := index + text + zeros;
            m[..4] == index && 0 in m[4..] && CString(m[4..]) == text
  {
    hide CString;
    var m := index + text + zeros;
    assert m[4..] == text + [0] + zeros[1..];
    assert m[4..][|text|] == 0;
    CStringStopsAtZero(text, zeros[1..]);
  }

  lemma PodMessageParts(nCount: nat)
    requires nCount < 0x8000_0000
    ensures FromLE(PodMessage(nCount)[..4]) == nCount && Signed(nCount, 4) == nCount
    ensures 0 in PodMessage(nCount)[4..] && CString(PodMessage(nCount)[4..]) == POD_TEXT
  {
    hide POD_TEXT, CString, FromLE, ToLE;
    Texts();
    PowersOf256();
    FromToLE(nCount, 4);
    Padded(ToLE(nCount, 4), POD_TEXT, seq(512 - |POD_TEXT|, _ => 0));
  }

  function PodPacket(n: nat): (p: Packet)
    requires n < 0x8000_0000
    ensures Sane(p)
  {
    PodMessageParts(n);
    Packet(NET_TEST_POD, PodMessage(n))
  }

  function SerializedPacket(n: nat): (p: Packet)
    requires n < 0x8000_0000
    ensures Sane(p)
  {
    SerializedParts(n, SERIALIZE_TEXT);
    Packet(NET_TEST_SERIALIZE, SerializedPayload(n, SERIALIZE_TEXT))
  }

  /** The i-th packet of a run: a round is a POD packet and a serialised one, both with the round's number. */
  function Traffic(i: nat): (p: Packet)
    requires i / 2 < 0x8000_0000
    ensures Sane(p)
  {
    if i % 2 == 0 then PodPacket(i / 2) else SerializedPacket(i / 2)
  }

  function TrafficUpTo(k: nat): (ps: seq<Packet>)
    requires k <= 0x1_0000_0000
    ensures |ps| == k && AllSane(ps) && forall i | 0 <= i < k :: ps[i] == Traffic(i)
  {
    if k == 0 then [] else TrafficUpTo(k - 1) + [Traffic(k - 1)]
  }

  lemma {:induction false} FramesAppend(ps: seq<Packet>, p: Packet)
    requires AllFit(ps) && Fits(p)
    ensures AllFit(ps + [p]) && Frames(ps + [p]) == Frames(ps) + Frame(p)
  {
    hide Frame, Fits;
    if ps == [] {
      assert ps + [p] == [p] && [p][1..] == [];
    } else {
      assert (ps + [p])[1..] == ps[1..] + [p];
      FramesAppend(ps[1..], p);
    }
  }

  lemma TrafficStep(k: nat)
    requires k < 0x1_0000_0000
    ensures Frames(TrafficUpTo(k + 1)) == Frames(TrafficUpTo(k)) + Frame(Traffic(k))
  {
    hide Traffic, Frame, Frames;
    FramesAppend(TrafficUpTo(k), Traffic(k));
  }

  lemma TrafficRound(n: nat)
    requires n < 0x8000_0000
    ensures Traffic(2 * n) == PodPacket(n) && Traffic(2 * n + 1) == SerializedPacket(n)
  {
    hide PodPacket, SerializedPacket;
  }

  /** nSendSize is an unsigned short. */
  function SendSize(nDataSize: nat): (n: uint16) {
    (nDataSize + HDR) % 0x1_0000
  }

  /** A payload is copied into the send buffer, and as many bytes as nSendSize says are read from it. */
  predicate Inside(pDataBuffer: Option<bytes>, nDataSize: nat) {
    (pDataBuffer.Some? ==> HDR + nDataSize <= CAP) && SendSize(nDataSize) <= CAP
  }

  // Opcode, payload and size, written into a buffer in this order.

  lemma HeaderInPlace(buf: bytes, size: bytes, opcode: bytes)
    requires |size| == |opcode| == 2 && |buf| >= HDR
    ensures var b1 := buf[..2] + opcode + buf[HDR..];
            b1[..0] + size + b1[2..] == size + opcode + buf[HDR..]
  {
  }

  lemma FrameInPlace(buf: bytes, size: bytes, opcode: bytes, data: bytes)
    requires |size| == |opcode| == 2 && |buf| >= HDR + |data|
    ensures var b1 := buf[..2] + opcode + buf[HDR..];
            var b2 := if data == [] then b1 else b1[..HDR] + data + b1[HDR + |data|..];
            (b2[..0] + size + b2[2..])[..HDR + |data|] == size + opcode + data
  {
    HeaderInPlace(buf, size, opcode);
  }

  class TcpServer {
    const wire: Wire
    const m_cbSendBuf: array<byte>
    const m_SendBuffer: ByteBuffer

    ghost predicate Valid()
    {
      m_cbSendBuf.Length == CAP
    }

    constructor (w: Wire)
      ensures Valid() && wire == w && fresh(m_cbSendBuf) && fresh(m_SendBuffer)
    {
      wire := w;
      m_cbSendBuf := new byte[CAP](_ => 0);
      m_SendBuffer := new ByteBuffer();
    }

    method Fill(at: nat, b: bytes)
      requires Valid() && at + |b| <= CAP
      modifies m_cbSendBuf
      ensures m_cbSendBuf[..] == old(m_cbSendBuf[..at]) + b + old(m_cbSendBuf[at + |b|..])
    {
      forall i | 0 <= i < |b| {
        m_cbSendBuf[at + i] := b[i];
      }
    }

    /** What SendData puts at the front of the send buffer: with no payload to copy, what was there stays. */
    ghost function Framed(nOpcode: uint16, pDataBuffer: Option<bytes>, nDataSize: nat): bytes
      requires Valid() && Inside(pDataBuffer, nDataSize)
      requires pDataBuffer.Some? ==> |pDataBuffer.value| == nDataSize
      reads m_cbSendBuf
    {
      if pDataBuffer.Some? then Frame(Packet(nOpcode, pDataBuffer.value))
      else (ToLE(SendSize(nDataSize), 2) + ToLE(nOpcode, 2) + m_cbSendBuf[HDR..])[..SendSize(nDataSize)]
    }

    /**
     Frames a payload, or none when the pointer is null, and sends it. inside is false when that leaves
     the send buffer. The answer is true as soon as one byte is accepted; the frame is on the wire
     exactly when sent is its whole length.
     */
    method SendData(nOpcode: uint16, pDataBuffer: Option<bytes>, nDataSize: nat)
      returns (inside: bool, ok: bool, sent: int)
      requires Valid() && nDataSize < 0x1_0000_0000
      requires pDataBuffer.Some? ==> |pDataBuffer.value| == nDataSize
      modifies wire, m_cbSendBuf
      ensures inside <==>
              (pDataBuffer.Some? ==> 4 + nDataSize <= 10280) && (4 + nDataSize) % 0x1_0000 <= 10280
      ensures !inside ==> wire.sent == old(wire.sent)
      ensures inside ==>
                var f := old(Framed(nOpcode, pDataBuffer, nDataSize));
                && ok == (sent > 0) == !wire.failed && sent <= |f|
                && wire.sent == old(wire.sent) + f[..if ok then sent else 0]
                && (wire.sent == old(wire.sent) + f <==> sent == |f| || f == [])
                && (wire.whole && ok ==> sent == |f|)
    {
      hide ToLE;
      inside, ok, sent := Inside(pDataBuffer, nDataSize), false, -1;
      if !inside { return; }
      ghost var f := Framed(nOpcode, pDataBuffer, nDataSize);
      ghost var was := m_cbSendBuf[..];
      var nSendSize := SendSize(nDataSize);
      Fill(2, ToLE(nOpcode, 2));
      if nDataSize > 0 && pDataBuffer.Some? { Fill(HDR, pDataBuffer.value); }
      Fill(0, ToLE(nSendSize, 2));
      assert m_cbSendBuf[..nSendSize] == f by {
        if pDataBuffer.Some? {
          FrameInPlace(was, ToLE(nSendSize, 2), ToLE(nOpcode, 2), pDataBuffer.value);
        } else {
          HeaderInPlace(was, ToLE(nSendSize, 2), ToLE(nOpcode, 2));
        }
        assert m_cbSendBuf[..nSendSize] == m_cbSendBuf[..][..nSendSize];
      }
      sent := wire.Send(m_cbSendBuf[..nSendSize]);
      ok := sent > 0;
    }

    /** SendData for a payload that fits. */
    method SendPacket(p: Packet) returns (ok: bool, sent: int)
      requires Valid() && Fits(p)
      modifies wire, m_cbSendBuf
      ensures ok == (sent > 0) == !wire.failed && sent <= |Frame(p)|
      ensures wire.sent == old(wire.sent) + Frame(p)[..if ok then sent else 0]
      ensures wire.whole && ok ==> sent == |Frame(p)|
    {
      var inside;
      inside, ok, sent := SendData(p.opcode, Some(p.payload), |p.payload|);
    }

    /** Serialises a message into the reused buffer and sends it. */
    method SendSerialized(nIndex: int, strMessage: bytes) returns (ok: bool)
      requires Valid() && IsSerializable(nIndex, strMessage)
      requires Fits(Packet(NET_TEST_SERIALIZE, SerializedPayload(nIndex, strMessage)))
      modifies wire, m_cbSendBuf, m_SendBuffer
      ensures ok == !wire.failed && (!ok ==> wire.sent == old(wire.sent))
      ensures ok && wire.whole ==>
                wire.sent == old(wire.sent) + Frame(Packet(NET_TEST_SERIALIZE, SerializedPayload(nIndex, strMessage)))
    {
      hide EncodeAll, Overwrite, LastOfAll;
      SerializableTypes(nIndex, strMessage);
      ghost var payload := SerializedPayload(nIndex, strMessage);
      m_SendBuffer.Clear();
      OverwriteAtEnd([], payload);
      var room := m_SendBuffer.WriteAll([VInt(nIndex), VString(strMessage)], SERIALIZE_TYPES);
      assert room && m_SendBuffer.mStorage == payload;
      var sent;
      ok, sent := SendPacket(Packet(NET_TEST_SERIALIZE, m_SendBuffer.mStorage));
    }

    /**
     run(), for at most the given number of rounds: the packets go out in turn until a send fails.
     done counts the packets sent.
     */
    method RunRounds(rounds: nat) returns (done: nat)
      requires Valid() && rounds <= 0x8000_0000 && wire.sent == []
      modifies wire, m_cbSendBuf, m_SendBuffer
      ensures done <= 2 * rounds && (done < 2 * rounds ==> wire.failed)
      ensures wire.whole ==> wire.sent == Frames(TrafficUpTo(done))
    {
      hide PodPacket, PodMessage, SerializedPayload, Frame, Traffic, TrafficUpTo, Sane, POD_TEXT, SERIALIZE_TEXT;
      Texts();
      done := 0;
      var nCount := 0;
      assert TrafficUpTo(0) == [];
      while nCount < rounds
        invariant nCount <= rounds && done == 2 * nCount
        invariant wire.whole ==> wire.sent == Frames(TrafficUpTo(done))
      {
        TrafficRound(nCount);
        TrafficStep(done);
        var ok, sent := SendPacket(PodPacket(nCount));
        if !ok { return; }
        done := done + 1;
        TrafficStep(done);
        ok := SendSerialized(nCount, SERIALIZE_TEXT);
        if !ok { return; }
        done := done + 1;
        nCount := nCount + 1;
      }
    }

    /** Sends any packets in turn until a send fails; done counts those sent. */
    method SendAll(ps: seq<Packet>) returns (done: nat)
      requires Valid() && AllFit(ps) && wire.sent == []
      modifies wire, m_cbSendBuf
      ensures done <= |ps| && (done < |ps| ==> wire.failed)
      ensures wire.whole ==> wire.sent == Frames(ps[..done])
    {
      hide Frame, Frames;
      NoFrames();
      done := 0;
      assert ps[..0] == [];
      while done < |ps|
        invariant done <= |ps| && (wire.whole ==> wire.sent == Frames(ps[..done]))
      {
        FramesAppend(ps[..done], ps[done]);
        assert ps[..done + 1] == ps[..done] + [ps[done]];
        var ok, sent := SendPacket(ps[done]);
        if !ok { return; }
        done := done + 1;
      }
    }
  }

  lemma NoFrames()
    ensures Frames([]) == []
  {
  }

  /**
   Any packets that fit, framed by SendData and cut up by recv() in any way, are delivered with the same
   opcode and payload and in order, up to the tenth or the first that breaks the client.
   */
  method Relay(ps: seq<Packet>) returns (wire: Wire, done: nat, client: TcpClient)
    requires forall i | 0 <= i < |ps| :: 4 + |ps[i].payload| <= 10280
    ensures done <= |ps| && (done < |ps| ==> wire.failed)
    ensures AllDeliver(client.log, ps)
    ensures forall i | 0 <= i < |client.log| ::
              client.log[i].opcode == ps[i].opcode && client.log[i].payload == Some(ps[i].payload)
    ensures var most := if done < 10 then done else 10;
            |client.log| == most || (0 < |client.log| < most && client.log[|client.log| - 1].msg.OutOfBounds?)
  {
    hide Deliver, Frames, Delivers;
    wire := new Wire(true);
    var server := new TcpServer(wire);
    done := server.SendAll(ps);
    var socket := new Socket(wire.sent);
    client := new TcpClient(socket);
    DeliverFrames(ps[..done], client.m_cbDataBuf[..], 0);
    var _ := client.RunLoop();
    forall i | 0 <= i < |client.log|
      ensures Delivers(client.log[i], ps[i])
      ensures client.log[i].opcode == ps[i].opcode && client.log[i].payload == Some(ps[i].payload)
    {
      assert Delivers(client.log[i], ps[..done][i]);
      DeliversParts(client.log[i], ps[i]);
    }
  }

  /** Sane packets all arrive, up to the tenth, and say what they said. */
  method RelaySane(ps: seq<Packet>) returns (wire: Wire, done: nat, client: TcpClient)
    requires AllSane(ps)
    ensures done <= |ps| && (done < |ps| ==> wire.failed)
    ensures |client.log| == if done < 10 then done else 10
    ensures forall i | 0 <= i < |client.log| ::
              Delivers(client.log[i], ps[i]) && client.log[i].msg == Meaning(ps[i])
  {
    hide Meaning, Sane, Delivers;
    wire, done, client := Relay(ps);
    SaneLog(client.log, ps);
  }

  lemma SaneLog(log: seq<Delivery>, ps: seq<Packet>)
    requires AllSane(ps) && AllDeliver(log, ps)
    ensures forall i | 0 <= i < |log| :: log[i].msg == Meaning(ps[i]) && !log[i].msg.OutOfBounds?
  {
    hide Meaning, Sane;
    forall i | 0 <= i < |log|
      ensures log[i].msg == Meaning(ps[i]) && !log[i].msg.OutOfBounds?
    {
      assert Delivers(log[i], ps[i]) && Sane(ps[i]);
    }
  }

  lemma TrafficMeans(n: nat)
    requires n < 0x8000_0000
    ensures Meaning(PodPacket(n)) == Pod(n, POD_TEXT)
    ensures Meaning(SerializedPacket(n)) == Serialized(n, SERIALIZE_TEXT)
  {
    hide PodMessage, SerializedPayload, Receive, POD_TEXT, SERIALIZE_TEXT;
    Texts();
    PodMessageParts(n);
    ReceiveSerialized(n, SERIALIZE_TEXT);
  }

  /**
   A whole session: the server runs until a send fails or for so many rounds, recv() cuts its stream up
   in any way, and the client's application sees the first ten messages, each with the index and text
   the server put in.
   */
  method Session(rounds: nat) returns (wire: Wire, done: nat, client: TcpClient)
    requires rounds <= 0x8000_0000
    ensures done <= 2 * rounds && (done < 2 * rounds ==> wire.failed)
    ensures |client.log| == if done < 10 then done else 10
    ensures forall i | 0 <= i < |client.log| ::
              client.log[i].msg == if i % 2 == 0 then Pod(i / 2, POD_TEXT) else Serialized(i / 2, SERIALIZE_TEXT)
  {
    hide Deliver, Frames, PodPacket, SerializedPacket, Delivers, Meaning, POD_TEXT, SERIALIZE_TEXT;
    wire := new Wire(true);
    var server := new TcpServer(wire);
    done := server.RunRounds(rounds);
    var socket := new Socket(wire.sent);
    client := new TcpClient(socket);
    DeliverSane(TrafficUpTo(done), client.m_cbDataBuf[..]);
    var _ := client.RunLoop();
    forall i | 0 <= i < |client.log|
      ensures client.log[i].msg == if i % 2 == 0 then Pod(i / 2, POD_TEXT) else Serialized(i / 2, SERIALIZE_TEXT)
    {
      TrafficMeans(i / 2);
    }
  }

  /** The server's first two packets, byte by byte. */
  lemma FirstRound()
    ensures Frame(Traffic(0)) ==
            [8, 2, 1, 0] + [0, 0, 0, 0]
            + [0x5B, 0x31, 0x5D, 0xE4, 0xBD, 0xA0, 0xE5, 0xA5, 0xBD,
               0x5B, 0x32, 0x5D, 0xE4, 0xBD, 0xA0, 0xE5, 0xA5, 0xBD,
               0x5B, 0x33, 0x5D, 0xE4, 0xBD, 0xA0, 0xE5, 0xA5, 0xBD]
            + seq(485, _ => 0)
    ensures Frame(Traffic(1)) ==
            [36, 0, 2, 0] + [0, 0, 0, 0]
            + [0x5B, 0x31, 0x5D, 0xE6, 0x97, 0xA9, 0xE6, 0x99, 0xA8,
               0x5B, 0x32, 0x5D, 0xE6, 0x97, 0xA9, 0xE6, 0x99, 0xA8,
               0x5B, 0x33, 0x5D, 0xE6, 0x97, 0xA9, 0xE6, 0x99, 0xA8]
            + [0]
  {
    FirstRoundParts();
  }

  lemma FirstRoundParts()
    ensures Frame(Traffic(0)) == [8, 2, 1, 0] + [0, 0, 0, 0] + POD_TEXT + seq(485, _ => 0)
    ensures Frame(Traffic(1)) == [36, 0, 2, 0] + [0, 0, 0, 0] + SERIALIZE_TEXT + [0]
  {
    hide ToLE, POD_TEXT, SERIALIZE_TEXT, SerializedPayload;
    Texts();
    LittleEndianBytes([8, 2]);
    LittleEndianBytes([1, 0]);
    LittleEndianBytes([2, 0]);
    LittleEndianBytes([36, 0]);
    LittleEndianBytes([0, 0, 0, 0]);
    SerializedParts(0, SERIALIZE_TEXT);
  }

  // ------------------------------------------------------------------
  // Partial sends
  // ------------------------------------------------------------------

  lemma FirstBytes()
    ensures Frame(Traffic(0))[..1] == [8]
    ensures |Frame(Traffic(1))| == 36 && Frame(Traffic(1))[0] == 36
  {
    hide PodMessage, SerializedPayload, POD_TEXT, SERIALIZE_TEXT;
    Texts();
    SerializedParts(0, SERIALIZE_TEXT);
    assert ToLE(520, 2)[0] == 8 && ToLE(36, 2)[0] == 36;
  }

  /** The frames of the first two packets, the first cut after one byte, hold no complete packet. */
  lemma CutTraffic(data: bytes)
    requires |data| == CAP
    ensures Deliver(Frame(Traffic(0))[..1] + Frame(Traffic(1)), data, 0).log == []
  {
    hide Traffic, Frame, Understand;
    FirstBytes();
    var s := [8] + Frame(Traffic(1));
    assert s[..2] == [8, 36];
    assert FromLE([8, 36]) == 8 + 256 * FromLE([8, 36][1..]);
    assert [8, 36][1..] == [36];
    assert FromLE([36]) == 36 + 256 * FromLE([]);
  }

  /** When the first send of a run is cut after one byte, both sends still report success; nothing is delivered. */
  method PartialSendLoses() returns (first: int, ok1: bool, second: int, ok2: bool, client: TcpClient)
    ensures first == 1 && second == |Frame(Traffic(1))| ==> ok1 && ok2 && client.log == []
  {
    hide Deliver, Traffic, Frame;
    var wire := new Wire(false);
    var server := new TcpServer(wire);
    ok1, first := server.SendPacket(Traffic(0));
    ok2, second := server.SendPacket(Traffic(1));
    var socket := new Socket(wire.sent);
    client := new TcpClient(socket);
    CutTraffic(client.m_cbDataBuf[..]);
    if first == 1 && second == |Frame(Traffic(1))| {
      assert Frame(Traffic(1))[..second] == Frame(Traffic(1));
      assert wire.sent == Frame(Traffic(0))[..1] + Frame(Traffic(1));
    }
    var _ := client.RunLoop();
  }
}
