/** TcpClient of client.cpp: reassembling packets from whatever pieces recv() hands over. */
module TcpClients {
  import opened Bytes
  import opened BufferCodec
  import opened ByteBuffers
  import opened Framing

  /** The receiving end of a connection whose peer sends stream and then closes. */
  class Socket {
    var stream: bytes     // not received yet
    var open: bool

    constructor (s: bytes)
      ensures stream == s && open
    {
      stream, open := s, true;
    }

    method Close()
      modifies this`open
      ensures !open
    {
      open := false;
    }

    /**
     recv(): an arbitrary non-empty piece of at most room bytes, put at buf[at..]; 0 once the peer has
     closed or when there is no room, and -1 on a closed socket.
     */
    method Recv(buf: array<byte>, at: nat, room: nat) returns (n: int)
      requires at + room <= buf.Length
      modifies this`stream, buf
      ensures n >= -1 && (n == -1 <==> !open)
      ensures n <= 0 ==> stream == old(stream) && buf[..] == old(buf[..])
      ensures n == 0 ==> room == 0 || stream == []
      ensures n > 0 ==>
                && n <= room && n <= old(|stream|)
                && stream == old(stream)[n..]
                && buf[..] == old(buf[..at]) + old(stream)[..n] + old(buf[at + n..])
    {
      if !open { return -1; }
      var most := if |stream| < room then |stream| else room;
      var some: int := *;
      n := if 1 <= some <= most then some else most;
      assert 0 <= n <= most;
      ghost var was := buf[..];
      var i := 0;
      while i < n
        invariant 0 <= i <= n <= |stream|
        invariant stream == old(stream)
        invariant buf[..at + i] == was[..at] + stream[..i]
        invariant forall k | at + i <= k < buf.Length :: buf[k] == was[k]
      {
        buf[at + i] := stream[i];
        i := i + 1;
      }
      assert buf[..] == buf[..at + i] + buf[at + i..] && buf[at + i..] == was[at + i..];
      if n > 0 { stream := stream[n..]; }
    }
  }

  /** Why the client stopped receiving. */
  datatype Stop = PeerClosed | BufferFull | EnoughPackets | Crashed

  class TcpClient {
    const socket: Socket
    const m_cbRecvBuf: array<byte>
    const m_cbDataBuf: array<byte>
    var m_nRecvSize: nat
    const m_RecvBuffer: ByteBuffer
    var log: seq<Delivery>    // the packets dispatched and what the application was given
    var liveAt: seq<nat>      // for each of them, how many bytes were in the receive buffer when it was taken
    var overran: bool         // a memmove has read past the end of m_cbRecvBuf

    /** A memmove has read past the receive buffer exactly when the bytes moved end beyond it. */
    ghost predicate Valid()
      reads this
    {
      && m_cbRecvBuf.Length == CAP && m_cbDataBuf.Length == CAP && m_cbRecvBuf != m_cbDataBuf
      && m_nRecvSize <= CAP
      && |liveAt| == |log| && (overran <==> Overran(log, liveAt))
    }

    /** Received and not yet taken by a packet. */
    ghost function Live(): bytes
      requires Valid()
      reads this, m_cbRecvBuf
    {
      m_cbRecvBuf[..m_nRecvSize]
    }

    constructor (s: Socket)
      ensures Valid() && socket == s && Live() == [] && log == [] && !overran
      ensures fresh(m_cbRecvBuf) && fresh(m_cbDataBuf) && fresh(m_RecvBuffer)
    {
      socket := s;
      m_cbRecvBuf := new byte[CAP](_ => 0);
      m_cbDataBuf := new byte[CAP](_ => 0);
      m_nRecvSize := 0;
      m_RecvBuffer := new ByteBuffer();
      log, liveAt, overran := [], [], false;
    }

    /** memcpy(m_cbDataBuf, m_cbRecvBuf, n) */
    method CopyToData(n: nat)
      requires Valid() && n <= CAP
      modifies m_cbDataBuf
      ensures m_cbDataBuf[..] == m_cbRecvBuf[..n] + old(m_cbDataBuf[n..])
    {
      ghost var was := m_cbDataBuf[..];
      var i := 0;
      while i < n
        invariant i <= n && m_cbDataBuf[..i] == m_cbRecvBuf[..i] && m_cbDataBuf[i..] == was[i..]
      {
        m_cbDataBuf[i] := m_cbRecvBuf[i];
        i := i + 1;
      }
      assert m_cbDataBuf[..] == m_cbDataBuf[..n] + m_cbDataBuf[n..];
    }

    /**
     memmove(m_cbRecvBuf, m_cbRecvBuf + n, count). The source may run past the end of m_cbRecvBuf,
     into m_cbDataBuf, the next member of the object; pastEnd tells whether it does.
     */
    method MoveDown(n: nat, count: nat) returns (pastEnd: bool)
      requires Valid() && n <= count <= CAP
      modifies m_cbRecvBuf
      ensures pastEnd <==> n + count > CAP
      ensures m_cbRecvBuf[..count] == old(m_cbRecvBuf[..] + m_cbDataBuf[..])[n..n + count]
      ensures m_cbRecvBuf[count..] == old(m_cbRecvBuf[count..])
    {
      ghost var memory := m_cbRecvBuf[..] + m_cbDataBuf[..];
      pastEnd := false;
      var i := 0;
      while i < count
        invariant i <= count
        invariant pastEnd <==> n + i > CAP && i > 0
        invariant forall k | 0 <= k < i :: m_cbRecvBuf[k] == memory[n + k]
        invariant forall k | i <= k < CAP :: m_cbRecvBuf[k] == memory[k]
      {
        if n + i < CAP {
          m_cbRecvBuf[i] := m_cbRecvBuf[n + i];
        } else {
          m_cbRecvBuf[i] := m_cbDataBuf[n + i - CAP];
          pastEnd := true;
        }
        i := i + 1;
      }
    }

    /** Dispatches on the opcode; answers false when a read leaves m_cbDataBuf or a ByteBuffer assertion fails. */
    method OnNetMessage(nPacketSize: uint16) returns (d: Delivery)
      requires m_cbDataBuf.Length == CAP && nPacketSize <= CAP
      modifies m_RecvBuffer
      ensures d == Understand(m_cbDataBuf[..], nPacketSize)
    {
      hide ReadPod, Receive;
      var data := m_cbDataBuf[..];
      var opcode := FromLE(data[2..4]);
      var nDataSize := (nPacketSize - HDR) % 0x1_0000;
      var payload := if HDR + nDataSize <= CAP then Some(data[HDR..HDR + nDataSize]) else None;
      var msg;
      if opcode == NET_TEST_POD {
        msg := PrintPod();
      } else if opcode == NET_TEST_SERIALIZE {
        msg := ReadSerialized(payload);
      } else {
        msg := Unknown;
      }
      d := Delivery(data[..nPacketSize], opcode, payload, msg);
    }

    /** OnNetPacket for a POD message: its text is printed up to a zero byte, wherever that is. */
    method PrintPod() returns (msg: Message)
      requires m_cbDataBuf.Length == CAP
      ensures msg == ReadPod(m_cbDataBuf[..])
    {
      hide Signed;
      ghost var text := m_cbDataBuf[TEXT..];
      assert m_cbDataBuf[..][TEXT..] == text && m_cbDataBuf[..][HDR..TEXT] == m_cbDataBuf[HDR..TEXT];
      var arrMessage := [];
      var i := TEXT;
      while i < CAP && m_cbDataBuf[i] != 0
        invariant TEXT <= i <= CAP && arrMessage == m_cbDataBuf[TEXT..i] == text[..i - TEXT]
        invariant 0 !in arrMessage
      {
        assert m_cbDataBuf[i] == text[i - TEXT];
        arrMessage := arrMessage + [m_cbDataBuf[i]];
        i := i + 1;
      }
      if i == CAP {
        assert arrMessage == text;
        return OutOfBounds;
      }
      assert text == arrMessage + [0] + text[i + 1 - TEXT..];
      CStringStopsAtZero(arrMessage, text[i + 1 - TEXT..]);
      msg := Pod(Signed(FromLE(m_cbDataBuf[HDR..TEXT]), 4), arrMessage);
    }

    /** Clears m_RecvBuffer, whatever an earlier message left there, fills it and reads the message out. */
    method ReadSerialized(payload: Option<bytes>) returns (msg: Message)
      modifies m_RecvBuffer
      ensures msg == Receive(payload)
    {
      if payload == None { return OutOfBounds; }
      var p := payload.value;
      m_RecvBuffer.Clear();
      OverwriteAtEnd([], p);
      var _ := m_RecvBuffer.Append(p);
      assert m_RecvBuffer.Rest() == p;
      if |p| < 4 { return OutOfBounds; }
      var index := m_RecvBuffer.Read(TSigned(4));
      var text := m_RecvBuffer.Read(TString);
      msg := Serialized(index.i, text.s);
    }

    /** memcpy and memmove: a packet of n bytes goes to the packet buffer, the surplus to the front. */
    method TakePacket(n: uint16) returns (pastEnd: bool)
      requires Valid() && n <= m_nRecvSize
      modifies this`m_nRecvSize, m_cbRecvBuf, m_cbDataBuf
      ensures Valid() && Live() == old(Live())[n..]
      ensures m_cbDataBuf[..] == old(Live())[..n] + old(m_cbDataBuf[n..])
      ensures pastEnd <==> n + old(m_nRecvSize) > CAP
    {
      hide Overran;
      ghost var live := Live();
      CopyToData(n);
      assert m_cbRecvBuf[..n] == live[..n];
      ghost var memory := m_cbRecvBuf[..] + m_cbDataBuf[..];
      assert memory[n..m_nRecvSize] == live[n..];
      pastEnd := MoveDown(n, m_nRecvSize);
      assert m_cbRecvBuf[..m_nRecvSize - n] == memory[n..n + m_nRecvSize][..m_nRecvSize - n] == memory[n..m_nRecvSize];
      m_nRecvSize := m_nRecvSize - n;
    }

    /** Takes a packet of n bytes off the front of the receive buffer and dispatches it. */
    method Dispatch(n: uint16) returns (alive: bool)
      requires Valid() && n <= m_nRecvSize
      modifies this`m_nRecvSize, this`log, this`liveAt, this`overran, m_cbRecvBuf, m_cbDataBuf, m_RecvBuffer
      ensures Valid() && Live() == old(Live())[n..]
      ensures m_cbDataBuf[..] == old(Live())[..n] + old(m_cbDataBuf[n..])
      ensures var d := Understand(m_cbDataBuf[..], n);
              && log == old(log) + [d] && liveAt == old(liveAt) + [old(m_nRecvSize)]
              && (alive <==> !d.msg.OutOfBounds?) && d.packet == old(Live())[..n]
    {
      hide Understand, Overran;
      UnderstandsFront(Live(), m_cbDataBuf[..], n);
      ghost var live, data := Live(), m_cbDataBuf[..];
      var size := m_nRecvSize;
      var pastEnd := TakePacket(n);
      assert m_cbDataBuf[..] == live[..n] + data[n..];
      var d := OnNetMessage(n);
      OverranAppend(log, liveAt, d, size);
      log, liveAt, overran := log + [d], liveAt + [size], overran || pastEnd;
      alive := !d.msg.OutOfBounds?;
    }

    /** What is in the buffer and still to come will complete the run r of deliveries. */
    ghost predicate Completes(r: Run, nCount: nat)
      requires Valid()
      reads this, socket, m_cbRecvBuf, m_cbDataBuf
    {
      var more := Deliver(Live() + socket.stream, m_cbDataBuf[..], nCount);
      log + more.log == r.log && more.left == r.left
    }

    /** Every byte of the stream was dispatched, is in the receive buffer or is still to come, in this order. */
    ghost predicate Accounts(stream: bytes)
      requires Valid()
      reads this, socket, m_cbRecvBuf
    {
      Packets(log) + Live() + socket.stream == stream && LiveBounded(log, liveAt, |stream|)
    }

    /** Nothing was delivered that broke the program, except the last thing if it is no longer alive. */
    static predicate Fine(before: seq<Delivery>, log: seq<Delivery>, alive: bool) {
      && before <= log
      && (!alive ==> |before| < |log| && log[|log| - 1].msg.OutOfBounds?)
      && (alive ==> forall i | |before| <= i < |log| :: !log[i].msg.OutOfBounds?)
    }

    /** One turn of the inner loop of run(), for a complete packet of n bytes. */
    method DispatchNext(n: uint16, nCount: nat, ghost r: Run, ghost stream: bytes) returns (alive: bool)
      requires Valid() && Completes(r, nCount) && Accounts(stream)
      requires !Blocked(Live(), nCount) && n == SizeField(Live())
      modifies this`m_nRecvSize, this`log, this`liveAt, this`overran, m_cbRecvBuf, m_cbDataBuf, m_RecvBuffer
      ensures Valid() && Accounts(stream)
      ensures if alive then Completes(r, nCount + 1) else log == r.log && Live() + socket.stream == r.left
      ensures |log| == |old(log)| + 1 && log[..|old(log)|] == old(log)
      ensures alive <==> !log[|log| - 1].msg.OutOfBounds?
    {
      hide Understand, Deliver, Overran, Packets, LiveBounded, SizeField;
      DeliverTakes(Live(), socket.stream, m_cbDataBuf[..], nCount);
      ghost var live, before, at, data := Live(), log, liveAt, m_cbDataBuf[..];
      alive := Dispatch(n);
      assert m_cbDataBuf[..] == live[..n] + data[n..];
      ghost var d := Understand(m_cbDataBuf[..], n);
      assert log == before + [d];
      StillAccounts(before, at, d, live, socket.stream, stream);
      assert forall more: seq<Delivery> :: before + ([d] + more) == log + more;
    }

    /** The inner loop of run(): takes every complete packet out of the receive buffer. */
    method Drain(count: nat, ghost r: Run, ghost stream: bytes) returns (nCount: nat, alive: bool)
      requires Valid() && Completes(r, count) && Accounts(stream) && socket.open && count <= MAX_PACKETS
      modifies this`m_nRecvSize, this`log, this`liveAt, this`overran, m_cbRecvBuf, m_cbDataBuf, m_RecvBuffer
      modifies socket`open
      ensures Valid() && Accounts(stream) && nCount <= MAX_PACKETS
      ensures alive ==> Completes(r, nCount) && Blocked(Live(), nCount)
      ensures !alive ==> log == r.log && Live() + socket.stream == r.left
      ensures if alive then !socket.open <==> nCount == 10 && m_nRecvSize >= 4 else socket.open
      ensures Fine(old(log), log, alive)
      ensures alive ==> |log| - old(|log|) == nCount - count
    {
      hide Understand, Deliver, Overran, Packets, LiveBounded;
      nCount, alive := count, true;
      while m_nRecvSize >= HDR
        invariant Valid() && Completes(r, nCount) && Accounts(stream) && socket.open && nCount <= MAX_PACKETS
        invariant Fine(old(log), log, true) && |log| - old(|log|) == nCount - count
        decreases MAX_PACKETS - nCount
      {
        if nCount >= MAX_PACKETS {
          socket.Close();
          break;
        }
        var nPacketSize := SizeField(m_cbRecvBuf[..m_nRecvSize]);
        if m_nRecvSize < nPacketSize { break; }
        alive := DispatchNext(nPacketSize, nCount, r, stream);
        if !alive {
          return;
        }
        nCount := nCount + 1;
      }
    }

    /** Receives into what is free of the buffer. */
    method ReceiveMore(nCount: nat, ghost r: Run, ghost stream: bytes) returns (nRecvSize: int)
      requires Valid() && Completes(r, nCount) && Accounts(stream)
      modifies this`m_nRecvSize, m_cbRecvBuf, socket`stream
      ensures Valid() && Completes(r, nCount) && Accounts(stream)
      ensures nRecvSize < 0 <==> !socket.open
      ensures nRecvSize <= 0 ==> Live() == old(Live()) && socket.stream == old(socket.stream)
      ensures nRecvSize == 0 ==> m_nRecvSize == CAP || socket.stream == []
      ensures nRecvSize > 0 ==> |socket.stream| < |old(socket.stream)|
    {
      hide Deliver, Overran, Packets, LiveBounded;
      ghost var live, rest := Live(), socket.stream;
      nRecvSize := socket.Recv(m_cbRecvBuf, m_nRecvSize, CAP - m_nRecvSize);
      if nRecvSize <= 0 {
        assert Live() == live;
        return;
      }
      m_nRecvSize := m_nRecvSize + nRecvSize;
      assert Live() + socket.stream == live + rest;
      Regroup(Packets(log), live, rest, Live(), socket.stream);
    }

    /** Why run() ends when recv() has no more: what was delivered and what was left of the stream decide. */
    lemma Finished(why: Stop, nCount: nat, r: Run)
      requires Valid() && Completes(r, nCount) && Blocked(Live(), nCount)
      requires Fine([], log, true) && nCount == |log| <= MAX_PACKETS
      requires if why == EnoughPackets then nCount == MAX_PACKETS && m_nRecvSize >= HDR
               else if nCount == MAX_PACKETS then why == PeerClosed && m_nRecvSize < HDR && socket.stream == []
               else if m_nRecvSize == CAP then why == BufferFull
               else why == PeerClosed && socket.stream == []
      ensures log == r.log && Live() + socket.stream == r.left && (r.log != [] ==> !r.log[|r.log| - 1].msg.OutOfBounds?)
      ensures why == EnoughPackets <==> |r.log| == 10 && |r.left| >= 4
      ensures why == BufferFull <==> |r.log| < 10 && |r.left| >= 10280 && SizeField(r.left) > 10280
    {
      hide Deliver, Overran;
      var live, stream := Live(), socket.stream;
      NothingMore(live, stream, m_cbDataBuf[..], nCount);
      assert log + [] == log;
      if |live| >= HDR { assert (live + stream)[..2] == live[..2]; }
    }

    lemma Begins()
      requires Valid() && Live() == [] && log == []
      ensures Accounts(socket.stream) && Blocked(Live(), 0) && Fine([], log, true)
      ensures Completes(Deliver(socket.stream, m_cbDataBuf[..], 0), 0)
    {
      hide Deliver, Overran;
      assert Live() + socket.stream == socket.stream;
      NothingTaken(socket.stream);
    }

    static lemma FineSoFar(before: seq<Delivery>, log: seq<Delivery>, alive: bool)
      requires Fine([], before, true) && Fine(before, log, alive)
      ensures if alive then Fine([], log, true) else log != [] && log[|log| - 1].msg.OutOfBounds?
    {
    }

    /**
     run(): on a connection whose peer sends a given stream and closes, the client delivers what the
     stream determines, however recv() cuts it up. It stops for a full buffer exactly when a packet
     larger than the buffer is next and fills it, and closes the socket exactly when ten packets were
     dispatched and another header has arrived. Whether a memmove reads past the receive buffer does
     depend on how recv() cut the stream: overran tells.
     */
    method RunLoop() returns (why: Stop)
      requires Valid() && socket.open && Live() == [] && log == []
      modifies this`m_nRecvSize, this`log, this`liveAt, this`overran, m_cbRecvBuf, m_cbDataBuf, m_RecvBuffer, socket
      ensures Valid() && Accounts(old(socket.stream))
      ensures var r := old(Deliver(socket.stream, m_cbDataBuf[..], 0));
              && log == r.log && Live() + socket.stream == r.left
              && (why == Crashed <==> r.log != [] && r.log[|r.log| - 1].msg.OutOfBounds?)
              && (why == EnoughPackets <==> why != Crashed && |r.log| == 10 && |r.left| >= 4)
              && (why == BufferFull <==>
                   why != Crashed && |r.log| < 10 && |r.left| >= 10280 && SizeField(r.left) > 10280)
      ensures Packets(log) + Live() + socket.stream == old(socket.stream)
      ensures |log| <= 10 && (why != Crashed ==> (!socket.open <==> |log| == 10 && m_nRecvSize >= 4))
      ensures overran <==> exists i | 0 <= i < |log| :: |log[i].packet| + liveAt[i] > 10280
    {
      hide Understand, Deliver, Overran, Packets, LiveBounded, Blocked, SizeField, Completes, Fine;
      ghost var stream := socket.stream;
      ghost var r := Deliver(stream, m_cbDataBuf[..], 0);
      Begins();
      AtMostTen(stream, m_cbDataBuf[..], 0);
      var nCount: nat, alive := 0, true;
      while true
        invariant Valid() && nCount <= MAX_PACKETS && Completes(r, nCount) && Blocked(Live(), nCount)
        invariant Accounts(stream)
        invariant Fine([], log, true) && nCount == |log|
        invariant !socket.open <==> nCount == 10 && m_nRecvSize >= 4
        decreases |socket.stream|
      {
        var nRecvSize := ReceiveMore(nCount, r, stream);
        if nRecvSize <= 0 {
          why := if nRecvSize < 0 then EnoughPackets else if m_nRecvSize == CAP then BufferFull else PeerClosed;
          Finished(why, nCount, r);
          OverranExactly(log, liveAt);
          return;
        }
        ghost var before := log;
        nCount, alive := Drain(nCount, r, stream);
        FineSoFar(before, log, alive);
        if !alive {
          OverranExactly(log, liveAt);
          return Crashed;
        }
      }
    }
  }

  // ------------------------------------------------------------------
  // Reads past the receive buffer
  // ------------------------------------------------------------------

  /** Taking packet d out of a receive buffer of size bytes moves bytes from beyond its end. */
  predicate MovesPastEnd(d: Delivery, size: nat) {
    |d.packet| + size > CAP
  }

  predicate Overran(log: seq<Delivery>, liveAt: seq<nat>)
    requires |log| == |liveAt|
  {
    exists i | 0 <= i < |log| :: MovesPastEnd(log[i], liveAt[i])
  }

  /** In terms of the sizes alone. */
  lemma OverranExactly(log: seq<Delivery>, liveAt: seq<nat>)
    requires |log| == |liveAt|
    ensures Overran(log, liveAt) <==> exists i | 0 <= i < |log| :: |log[i].packet| + liveAt[i] > 10280
  {
    if exists i | 0 <= i < |log| :: |log[i].packet| + liveAt[i] > 10280 {
      var i :| 0 <= i < |log| && |log[i].packet| + liveAt[i] > 10280;
      assert MovesPastEnd(log[i], liveAt[i]);
    }
  }

  lemma OverranAppend(log: seq<Delivery>, liveAt: seq<nat>, d: Delivery, size: nat)
    requires |log| == |liveAt|
    ensures Overran(log + [d], liveAt + [size]) <==> Overran(log, liveAt) || MovesPastEnd(d, size)
  {
    hide MovesPastEnd;
    var log', liveAt' := log + [d], liveAt + [size];
    if Overran(log, liveAt) {
      var i :| 0 <= i < |log| && MovesPastEnd(log[i], liveAt[i]);
      assert MovesPastEnd(log'[i], liveAt'[i]);
    }
    if MovesPastEnd(d, size) {
      assert MovesPastEnd(log'[|log|], liveAt'[|log|]);
    }
  }

  /** A packet was all in the buffer when it was taken, and what was there had come from the stream. */
  predicate LiveBounded(log: seq<Delivery>, liveAt: seq<nat>, total: nat)
    requires |log| == |liveAt|
  {
    forall i | 0 <= i < |log| ::
      |log[i].packet| <= liveAt[i] <= CAP && |Packets(log[..i])| + liveAt[i] <= total
  }

  /**
   Some streams make every client overrun, others none: it is certain once a packet is longer than half
   the buffer, and impossible while each packet and all that follows it fit in the buffer twice over.
   */
  lemma OverrunFromStream(log: seq<Delivery>, liveAt: seq<nat>, total: nat)
    requires |log| == |liveAt| && LiveBounded(log, liveAt, total)
    ensures (exists i | 0 <= i < |log| :: 2 * |log[i].packet| > CAP) ==> Overran(log, liveAt)
    ensures (forall i | 0 <= i < |log| ::
               |log[i].packet| + Min(CAP, total - |Packets(log[..i])|) <= CAP) ==> !Overran(log, liveAt)
  {
  }

  lemma StillAccounts(log: seq<Delivery>, liveAt: seq<nat>, d: Delivery, live: bytes, rest: bytes, stream: bytes)
    requires |log| == |liveAt| && |d.packet| <= |live| <= CAP && d.packet == live[..|d.packet|]
    requires Packets(log) + live + rest == stream && LiveBounded(log, liveAt, |stream|)
    ensures Packets(log + [d]) + live[|d.packet|..] + rest == stream
    ensures LiveBounded(log + [d], liveAt + [|live|], |stream|)
  {
    hide Packets;
    PacketsAppend(log, d);
    assert live == d.packet + live[|d.packet|..];
    assert Packets(log) + d.packet + live[|d.packet|..] == Packets(log) + live;
    forall i | 0 <= i <= |log|
      ensures |Packets((log + [d])[..i])| + (liveAt + [|live|])[i] <= |stream|
    {
      if i < |log| { assert (log + [d])[..i] == log[..i]; } else { assert (log + [d])[..i] == log; }
    }
  }

  lemma NothingTaken(stream: bytes)
    ensures Packets([]) + [] + stream == stream && LiveBounded([], [], |stream|) && Blocked([], 0)
  {
  }

  lemma Regroup(front: bytes, a: bytes, b: bytes, c: bytes, d: bytes)
    requires a + b == c + d
    ensures front + a + b == front + c + d
  {
    assert front + a + b == front + (a + b) && front + c + d == front + (c + d);
  }

  /** When recv() has no more to give, no packet is left to deliver. */
  lemma NothingMore(live: bytes, stream: bytes, data: bytes, n: nat)
    requires |data| == CAP && |live| <= CAP && Blocked(live, n)
    requires n >= MAX_PACKETS || |live| == CAP || stream == []
    ensures Deliver(live + stream, data, n) == Run([], live + stream)
  {
    if stream == [] { assert live + stream == live; }
    if |live| >= 2 { assert (live + stream)[..2] == live[..2]; }
  }

  lemma DeliverTakes(live: bytes, stream: bytes, data: bytes, n: nat)
    requires |data| == CAP && |live| <= CAP && !Blocked(live, n)
    ensures var size := SizeField(live);
            var data' := live[..size] + data[size..];
            var d := Understand(data', size);
            Deliver(live + stream, data, n) ==
            if d.msg.OutOfBounds? then Run([d], live[size..] + stream)
            else
              var r := Deliver(live[size..] + stream, data', n + 1);
              Run([d] + r.log, r.left)
  {
    hide Understand, Deliver;
    var s := live + stream;
    assert s[..2] == live[..2];
    var size := SizeField(live);
    assert s[..size] == live[..size] && s[size..] == live[size..] + stream;
    DeliverOne(s, data, n);
  }
}
