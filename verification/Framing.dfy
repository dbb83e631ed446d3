/** The frames of NetDefine.h, and what a client delivers from a byte stream, as functions of the stream alone. */
module Framing {
  import opened Bytes
  import opened BufferCodec

  /** sizeof(NetPacketHeader): wDataSize, then wOpcode, two bytes each. */
  const HDR := 4

  /** NET_PACKET_SIZE, the size of every packet buffer. */
  const CAP := 10280

  const NET_TEST_POD := 1
  const NET_TEST_SERIALIZE := 2

  /** sizeof(NetPacket_Test_POD): an int and 512 chars. */
  const POD_SIZE := 516

  /** The client leaves after this many packets. */
  const MAX_PACKETS := 10

  type uint16 = x: int | 0 <= x < 0x1_0000

  datatype Packet = Packet(opcode: uint16, payload: bytes)

  predicate Fits(p: Packet) {
    HDR + |p.payload| <= CAP
  }

  /** wDataSize counts the header too. */
  function Frame(p: Packet): (r: bytes)
    requires Fits(p)
    ensures |r| == HDR + |p.payload|
  {
    ToLE(HDR + |p.payload|, 2) + ToLE(p.opcode, 2) + p.payload
  }

  predicate AllFit(ps: seq<Packet>) {
    forall i | 0 <= i < |ps| :: Fits(ps[i])
  }

  function Frames(ps: seq<Packet>): bytes
    requires AllFit(ps)
  {
    if ps == [] then [] else Frame(ps[0]) + Frames(ps[1..])
  }

  // ------------------------------------------------------------------
  // What the application makes of a packet
  // ------------------------------------------------------------------

  datatype Message =
    | Pod(nIndex: int, arrMessage: bytes)
    | Serialized(nIndex: int, strMessage: bytes)
    | Unknown
    | OutOfBounds      // a read past the end of the packet buffer, or a failed assertion of ByteBuffer

  /** The bytes dispatched and what was made of them; payload is None when its size runs past the packet buffer. */
  datatype Delivery = Delivery(packet: bytes, opcode: int, payload: Option<bytes>, msg: Message)

  /** Where the text of a NetPacket_Test_POD starts in a packet, behind the header and nIndex. */
  const TEXT := 8

  /** The packet buffer read as a POD message, whose text is printed as a C string. */
  function ReadPod(data: bytes): Message
    requires |data| == CAP
  {
    if 0 in data[TEXT..] then Pod(Signed(FromLE(data[HDR..TEXT]), 4), CString(data[TEXT..])) else OutOfBounds
  }

  /** m_RecvBuffer >> msg */
  function Receive(payload: Option<bytes>): Message {
    match payload
    case None => OutOfBounds
    case Some(p) =>
      match Decode(TSigned(4), p)
      case Bad => OutOfBounds
      case Ok(index, rest) => Serialized(index.i, DecodeString(rest).value)
  }

  /** OnNetMessage on a packet buffer; nDataSize is an unsigned short, and wraps when size is below HDR. */
  function Understand(data: bytes, size: uint16): Delivery
    requires |data| == CAP && size <= CAP
  {
    var opcode := FromLE(data[2..4]);
    var nDataSize := (size - HDR) % 0x1_0000;
    var payload := if HDR + nDataSize <= CAP then Some(data[HDR..HDR + nDataSize]) else None;
    Delivery(data[..size], opcode, payload,
             if opcode == NET_TEST_POD then ReadPod(data)
             else if opcode == NET_TEST_SERIALIZE then Receive(payload)
             else Unknown)
  }

  // ------------------------------------------------------------------
  // What a client delivers from a stream
  // ------------------------------------------------------------------

  function SizeField(s: bytes): (n: uint16)
    requires |s| >= HDR
  {
    ToFromLE(s[..2]);
    PowersOf256();
    FromLE(s[..2])
  }

  datatype Run = Run(log: seq<Delivery>, left: bytes)

  /** No packet is taken off the front of s: ten were, or s does not hold a complete one. */
  predicate Blocked(s: bytes, n: nat) {
    n >= MAX_PACKETS || |s| < HDR || |s| < SizeField(s)
  }

  /** The deliveries from stream s when data is in the packet buffer and n packets went before. */
  function Deliver(s: bytes, data: bytes, n: nat): Run
    requires |data| == CAP
    decreases MAX_PACKETS - n
  {
    if Blocked(s, n) || SizeField(s) > CAP then Run([], s)
    else
      var size := SizeField(s);
      var data' := s[..size] + data[size..];
      var d := Understand(data', size);
      if d.msg.OutOfBounds? then Run([d], s[size..])
      else
        var r := Deliver(s[size..], data', n + 1);
        Run([d] + r.log, r.left)
  }

  /** More input never takes back a delivery. */
  lemma {:induction false} DeliverGrows(s: bytes, t: bytes, data: bytes, n: nat)
    requires |data| == CAP
    ensures Deliver(s, data, n).log <= Deliver(s + t, data, n).log
    decreases MAX_PACKETS - n
  {
    hide Understand;
    if !Blocked(s, n) && SizeField(s) <= CAP {
      var size := SizeField(s);
      assert (s + t)[..2] == s[..2];
      assert (s + t)[..size] == s[..size] && (s + t)[size..] == s[size..] + t;
      DeliverGrows(s[size..], t, s[..size] + data[size..], n + 1);
    }
  }

  lemma {:induction false} AtMostTen(s: bytes, data: bytes, n: nat)
    requires |data| == CAP && n <= 10
    ensures |Deliver(s, data, n).log| <= 10 - n
    decreases 10 - n
  {
    hide Understand;
    if !Blocked(s, n) && SizeField(s) <= CAP {
      AtMostTen(s[SizeField(s)..], s[..SizeField(s)] + data[SizeField(s)..], n + 1);
    }
  }

  function Packets(log: seq<Delivery>): bytes {
    if log == [] then [] else log[0].packet + Packets(log[1..])
  }

  lemma {:induction false} PacketsAppend(log: seq<Delivery>, d: Delivery)
    ensures Packets(log + [d]) == Packets(log) + d.packet
  {
    if log == [] {
      assert log + [d] == [d] && [d][1..] == [];
      assert Packets([d]) == d.packet + Packets([]);
    } else {
      assert (log + [d])[1..] == log[1..] + [d];
      PacketsAppend(log[1..], d);
    }
  }

  lemma PacketsCons(d: Delivery, log: seq<Delivery>)
    ensures Packets([d] + log) == d.packet + Packets(log)
  {
    assert ([d] + log)[1..] == log;
  }

  lemma UnderstandsFront(s: bytes, data: bytes, size: uint16)
    requires |data| == CAP && size <= |s| && size <= CAP
    ensures Understand(s[..size] + data[size..], size).packet == s[..size]
  {
  }

  lemma DeliverOne(s: bytes, data: bytes, n: nat)
    requires |data| == CAP && !Blocked(s, n) && SizeField(s) <= CAP
    ensures var size := SizeField(s);
            var d := Understand(s[..size] + data[size..], size);
            Deliver(s, data, n) ==
            if d.msg.OutOfBounds? then Run([d], s[size..])
            else
              var r := Deliver(s[size..], s[..size] + data[size..], n + 1);
              Run([d] + r.log, r.left)
  {
    hide Understand;
  }

  lemma CutAndJoined(s: bytes, i: nat, a: bytes, b: bytes)
    requires i <= |s| && a + b == s[i..]
    ensures s[..i] + a + b == s
  {
    assert s[..i] + a + b == s[..i] + (a + b);
  }

  /** No byte is lost or invented: the packets dispatched and the bytes left over are the stream. */
  lemma {:induction false} DeliverConserves(s: bytes, data: bytes, n: nat)
    requires |data| == CAP
    ensures var r := Deliver(s, data, n);
            Packets(r.log) + r.left == s
    decreases MAX_PACKETS - n
  {
    hide Understand, Packets, Deliver;
    NoPackets();
    if Blocked(s, n) || SizeField(s) > CAP {
      DeliverNone(s, data, n);
    } else {
      var size := SizeField(s);
      var data' := s[..size] + data[size..];
      DeliverOne(s, data, n);
      UnderstandsFront(s, data, size);
      var d := Understand(data', size);
      var log, left := [], s[size..];
      if !d.msg.OutOfBounds? {
        DeliverConserves(left, data', n + 1);
        log, left := Deliver(left, data', n + 1).log, Deliver(left, data', n + 1).left;
      }
      assert [d] + [] == [d];
      PacketsCons(d, log);
      CutAndJoined(s, size, Packets(log), left);
    }
  }

  lemma DeliverNone(s: bytes, data: bytes, n: nat)
    requires |data| == CAP && (Blocked(s, n) || SizeField(s) > CAP)
    ensures Deliver(s, data, n) == Run([], s) && [] + s == s
  {
  }

  lemma NoPackets()
    ensures Packets([]) == []
  {
  }

  // ------------------------------------------------------------------
  // Framed messages are delivered as sent
  // ------------------------------------------------------------------

  /** A packet the client can digest, whatever an earlier one left in its packet buffer. */
  predicate Sane(p: Packet) {
    && Fits(p)
    && (p.opcode == NET_TEST_POD ==> |p.payload| > 4 && 0 in p.payload[4..])
    && (p.opcode == NET_TEST_SERIALIZE ==> |p.payload| >= 4)
  }

  /** What the packet buffer holds once p was copied over data. */
  function Over(p: Packet, data: bytes): (r: bytes)
    requires Fits(p) && |data| == CAP
    ensures |r| == CAP
  {
    Frame(p) + data[|Frame(p)|..]
  }

  /** Whether the client can digest p over data: a POD text may also end in what was there before. */
  predicate Digests(p: Packet, data: bytes)
    requires Fits(p) && |data| == CAP
  {
    && (p.opcode == NET_TEST_POD ==> 0 in Over(p, data)[TEXT..])
    && (p.opcode == NET_TEST_SERIALIZE ==> |p.payload| >= 4)
  }

  lemma TextOver(p: Packet, data: bytes)
    requires Fits(p) && |data| == CAP && |p.payload| > 4
    ensures Over(p, data)[HDR..TEXT] == p.payload[..4]
    ensures Over(p, data)[TEXT..] == p.payload[4..] + data[|Frame(p)|..]
  {
  }

  /** A packet can be digested over every content of the buffer exactly when it is sane. */
  lemma SaneAlways(p: Packet)
    requires Fits(p)
    ensures Sane(p) <==> forall data: bytes | |data| == CAP :: Digests(p, data)
  {
    hide Frame;
    forall data: bytes | |data| == CAP && Sane(p)
      ensures Digests(p, data)
    {
      if p.opcode == NET_TEST_POD { TextOver(p, data); }
    }
    if !Sane(p) && p.opcode == NET_TEST_POD {
      var ones: bytes := seq(CAP, _ => 1);
      if |p.payload| > 4 { TextOver(p, ones); }
      assert !Digests(p, ones);
    } else if !Sane(p) {
      assert !Digests(p, seq(CAP, _ => 1));
    }
  }

  predicate AllSane(ps: seq<Packet>)
    ensures AllSane(ps) ==> AllFit(ps)
  {
    forall i | 0 <= i < |ps| :: Sane(ps[i])
  }

  /** What a sane packet says. */
  function Meaning(p: Packet): (m: Message)
    requires Sane(p)
    ensures !m.OutOfBounds?
  {
    if p.opcode == NET_TEST_POD then Pod(Signed(FromLE(p.payload[..4]), 4), CString(p.payload[4..]))
    else if p.opcode == NET_TEST_SERIALIZE then Receive(Some(p.payload))
    else Unknown
  }

  predicate Delivers(d: Delivery, p: Packet)
    requires Fits(p)
  {
    && d.packet == Frame(p)
    && d.opcode == p.opcode
    && d.payload == Some(p.payload)
    && (Sane(p) ==> d.msg == Meaning(p))
  }

  lemma TwoBytes(n: uint16)
    ensures var b := ToLE(n, 2);
            b[0] as int + 256 * b[1] as int == n
  {
    assert ToLE(n / 256, 1) == [n / 256 % 256] + ToLE(n / 256 / 256, 0);
  }

  lemma FrameFields(p: Packet, t: bytes)
    requires Fits(p)
    ensures var s := Frame(p) + t;
            && |Frame(p)| == HDR + |p.payload|
            && s[..2] == ToLE(HDR + |p.payload|, 2) && s[2..4] == ToLE(p.opcode, 2)
            && s[HDR..|Frame(p)|] == p.payload && s[..|Frame(p)|] == Frame(p) && s[|Frame(p)|..] == t
            && SizeField(s) == |Frame(p)|
            && s[0] as int + 256 * s[1] as int == 4 + |p.payload| && s[2] as int + 256 * s[3] as int == p.opcode
  {
    var s := Frame(p) + t;
    PowersOf256();
    FromToLE(HDR + |p.payload|, 2);
    assert s[..2] == ToLE(HDR + |p.payload|, 2);
    TwoBytes(HDR + |p.payload|);
    TwoBytes(p.opcode);
  }

  lemma UnderstandFrame(p: Packet, data: bytes)
    requires Fits(p) && |data| == CAP
    ensures Delivers(Understand(Over(p, data), |Frame(p)|), p)
    ensures Digests(p, data) <==> !Understand(Over(p, data), |Frame(p)|).msg.OutOfBounds?
  {
    hide FromLE, ToLE, Receive, Pow256, Frame, Signed;
    var size := |Frame(p)|;
    FrameFields(p, data[size..]);
    var data' := Over(p, data);
    assert FromLE(data'[2..4]) == p.opcode by {
      PowersOf256();
      FromToLE(p.opcode, 2);
    }
    if p.opcode == NET_TEST_POD && Sane(p) {
      TextOver(p, data);
      CStringWithin(p.payload[4..], data[size..]);
    }
    if p.opcode == NET_TEST_SERIALIZE {
      ReceiveSane(p.payload);
    }
  }

  lemma ReceiveSane(payload: bytes)
    ensures |payload| >= 4 <==> !Receive(Some(payload)).OutOfBounds?
  {
  }

  /** What the opcode's two bytes make of a packet buffer: 1 is a POD message, 2 a serialised one. */
  lemma OpcodeDecides(data: bytes, size: uint16)
    requires |data| == CAP && HDR <= size <= CAP
    ensures var d := Understand(data, size);
            && d.packet == data[..size] && d.payload == Some(data[4..size])
            && d.opcode == data[2] as int + 256 * data[3] as int
            && (data[2..4] == [1, 0] ==> d.msg == ReadPod(data))
            && (data[2..4] == [2, 0] ==> d.msg == Receive(Some(data[4..size])))
            && (data[2..4] != [1, 0] && data[2..4] != [2, 0] ==> d.msg == Unknown)
  {
    hide ReadPod, Receive;
    var b := data[2..4];
    assert b[1..] == [b[1]] && FromLE([b[1]]) == b[1] + 256 * FromLE([b[1]][1..]);
    assert b == [b[0], b[1]];
  }

  /** A POD message is its index, then a text up to a zero byte; a serialised one likewise. */
  lemma MeaningOfPayloads(n: int, text: bytes, junk: bytes)
    requires -0x8000_0000 <= n < 0x8000_0000 && 0 !in text && 4 + 4 + |text| + 1 + |junk| <= 10280
    ensures var payload := ToLE(if n >= 0 then n else n + 0x1_0000_0000, 4) + text + [0] + junk;
            && Sane(Packet(1, payload)) && Meaning(Packet(1, payload)) == Pod(n, text)
            && Sane(Packet(2, payload)) && Meaning(Packet(2, payload)) == Serialized(n, text)
  {
    hide FromLE, ToLE, CString;
    PowersOf256();
    var u := if n >= 0 then n else n + 0x1_0000_0000;
    FromToLE(u, 4);
    var payload := ToLE(u, 4) + text + [0] + junk;
    assert payload[..4] == ToLE(u, 4) && payload[4..] == text + [0] + junk;
    assert payload[4..][|text|] == 0;
    CStringStopsAtZero(text, junk);
  }

  /** A size below the header's wraps nDataSize; only a serialised message believes it. */
  lemma SizeBelowHeader(data: bytes, size: uint16)
    requires |data| == CAP && size < HDR
    ensures Understand(data, size).payload == None
    ensures Understand(data, size).msg.OutOfBounds? <==>
            var opcode := Understand(data, size).opcode;
            opcode == NET_TEST_SERIALIZE || (opcode == NET_TEST_POD && 0 !in data[TEXT..])
  {
  }

  lemma DeliversParts(d: Delivery, p: Packet)
    requires Fits(p) && Delivers(d, p)
    ensures d.packet == Frame(p) && d.opcode == p.opcode && d.payload == Some(p.payload)
  {
  }

  predicate AllDeliver(log: seq<Delivery>, ps: seq<Packet>)
    requires AllFit(ps)
  {
    |log| <= |ps| && forall i | 0 <= i < |log| :: Delivers(log[i], ps[i])
  }

  function Min(a: nat, b: nat): nat {
    if a < b then a else b
  }

  /**
   From frames the client delivers packets unchanged and in order, and leaves the rest of the stream:
   the first ten, unless one of them breaks it before.
   */
  lemma {:induction false} DeliverFrames(ps: seq<Packet>, data: bytes, n: nat)
    requires |data| == CAP && n <= 10 && AllFit(ps)
    ensures var r := Deliver(Frames(ps), data, n);
            && AllDeliver(r.log, ps) && r.left == Frames(ps[|r.log|..])
            && (|r.log| == Min(|ps|, 10 - n)
                || (0 < |r.log| < Min(|ps|, 10 - n) && r.log[|r.log| - 1].msg.OutOfBounds?))
    decreases |ps|
  {
    hide Frame, Understand, Delivers, Deliver, Digests, Over;
    if ps != [] && n < MAX_PACKETS {
      var p, t := ps[0], Frames(ps[1..]);
      UnderstandFrame(p, data);
      DeliverFirst(p, t, data, n);
      var d := Understand(Over(p, data), |Frame(p)|);
      if d.msg.OutOfBounds? {
        AllDeliverCons(d, [], ps);
        assert [d] + [] == [d];
      } else {
        var r := Deliver(t, Over(p, data), n + 1);
        DeliverFrames(ps[1..], Over(p, data), n + 1);
        AllDeliverCons(d, r.log, ps);
        assert ps[1..][|r.log|..] == ps[|r.log| + 1..];
      }
    } else {
      DeliverNone(Frames(ps), data, n);
      assert ps[0..] == ps;
    }
  }

  /** From the frames of sane packets it delivers exactly the first ten. */
  lemma DeliverSane(ps: seq<Packet>, data: bytes)
    requires |data| == 10280 && AllSane(ps)
    ensures var r := Deliver(Frames(ps), data, 0);
            && |r.log| == (if |ps| < 10 then |ps| else 10) && r.left == Frames(ps[|r.log|..])
            && forall i | 0 <= i < |r.log| :: Delivers(r.log[i], ps[i]) && r.log[i].msg == Meaning(ps[i])
  {
    hide Frame, Frames, Deliver, Meaning, Sane;
    DeliverFrames(ps, data, 0);
    var log := Deliver(Frames(ps), data, 0).log;
    forall i | 0 <= i < |log|
      ensures Delivers(log[i], ps[i]) && log[i].msg == Meaning(ps[i])
    {
      assert Sane(ps[i]);
    }
  }

  lemma AllDeliverCons(d: Delivery, log: seq<Delivery>, ps: seq<Packet>)
    requires ps != [] && AllFit(ps) && Delivers(d, ps[0]) && AllDeliver(log, ps[1..])
    ensures AllDeliver([d] + log, ps)
  {
    hide Delivers, Fits;
    forall i | 0 <= i < |[d] + log|
      ensures Delivers(([d] + log)[i], ps[i])
    {
      if i > 0 { assert Delivers(log[i - 1], ps[1..][i - 1]); }
    }
  }

  lemma DeliverFirst(p: Packet, t: bytes, data: bytes, n: nat)
    requires Fits(p) && |data| == CAP && n < MAX_PACKETS
    ensures var d := Understand(Over(p, data), |Frame(p)|);
            Deliver(Frame(p) + t, data, n) ==
            if d.msg.OutOfBounds? then Run([d], t)
            else
              var r := Deliver(t, Over(p, data), n + 1);
              Run([d] + r.log, r.left)
  {
    hide Understand, Frame;
    FrameFields(p, t);
  }
}
