/** One packet-based session: transparent chunking on send, reassembly and
    validation on receive, and tracking of in-flight request ids. */
module Session {
  import opened Wire
  import opened Envelope
  import Batch
  import Bits

  datatype Role = Client | Server

  datatype UdsError =
    | LimitExceeded | DuplicateMsgId(id: u64) | UnknownMsgId(id: u64)
    | SendFailed | RecvFailed | ProtocolError | ChunkError

  datatype Outcome<+T> = Done(value: T) | Fail(error: UdsError)

  /** The limits a handshake agrees on. */
  datatype Limits = Limits(
    maxRequestPayload: u32, maxRequestItems: u32, maxResponsePayload: u32, maxResponseItems: u32, packetSize: u32)
  {
    /** Packets have room for a header and at least one payload byte. */
    predicate Usable()
    {
      packetSize > HEADER_SIZE
    }

    function MaxPayloadSent(role: Role): u32
    {
      if role.Client? then maxRequestPayload else maxResponsePayload
    }

    function MaxItemsSent(role: Role): u32
    {
      if role.Client? then maxRequestItems else maxResponseItems
    }
  }

  function Peer(role: Role): Role
  {
    if role.Client? then Server else Client
  }

  /** What a receive finds on the wire: a packet, or a closed, expired or aborted wait. */
  datatype Arrival = Packet(bytes: seq<byte>) | Broken

  // -------------------------------------------------------------------------
  //  Chunking
  // -------------------------------------------------------------------------

  /** The payload cut into pieces of `budget` bytes, the last one possibly shorter. */
  function Slices(payload: seq<byte>, budget: nat): (ss: seq<seq<byte>>)
    requires budget > 0
    ensures ss != []
    decreases |payload|
  {
    if |payload| <= budget then [payload]
    else [payload[..budget]] + Slices(payload[budget..], budget)
  }

  function Concat(ss: seq<seq<byte>>): (s: seq<byte>)
  {
    if ss == [] then [] else ss[0] + Concat(ss[1..])
  }

  lemma {:induction false} SlicesMeaning(payload: seq<byte>, budget: nat)
    requires budget > 0
    ensures Concat(Slices(payload, budget)) == payload
    ensures forall s :: s in Slices(payload, budget) ==> |s| <= budget && (payload != [] ==> s != [])
    decreases |payload|
  {
    if |payload| > budget {
      SlicesMeaning(payload[budget..], budget);
      var rest := Slices(payload[budget..], budget);
      assert Slices(payload, budget)[1..] == rest;
      assert payload == payload[..budget] + payload[budget..];
    } else {
      assert Concat([payload]) == payload + Concat([]);
    }
  }

  /** The chunk count the sender and the receiver each compute, from the payload bytes
      the first packet did not carry. */
  function ChunkCount(remainingAfterFirst: nat, budget: nat): (n: nat)
    requires budget > 0
  {
    1 + if remainingAfterFirst > 0 then 1 + (remainingAfterFirst - 1) / budget else 0
  }

  lemma {:induction false} SlicesCount(payload: seq<byte>, budget: nat)
    requires budget > 0 && |payload| > 0
    ensures |Slices(payload, budget)| == 1 + (|payload| - 1) / budget
    decreases |payload|
  {
    if |payload| > budget {
      SlicesCount(payload[budget..], budget);
      var q, r := (|payload| - budget - 1) / budget, (|payload| - budget - 1) % budget;
      DivModUnique(|payload| - 1, budget, q + 1, r);
    } else {
      DivModUnique(|payload| - 1, budget, 0, |payload| - 1);
    }
  }

  /** Packet `ci` of a message: the outer header first, chunk headers after it. */
  function Frame(h: Header, count: u32, total: u32, ci: u32, piece: seq<byte>): (b: seq<byte>)
    requires |piece| < U32_LIMIT
    ensures |b| == HEADER_SIZE + |piece|
  {
    if ci == 0 then HeaderBytes(h) + piece
    else ChunkBytes(ChunkHeader(MAGIC_CHUNK, VERSION, 0, h.messageId, total, ci, count, |piece|)) + piece
  }

  function Frames(h: Header, count: u32, total: u32, ci: nat, ss: seq<seq<byte>>): (ps: seq<seq<byte>>)
    requires ci + |ss| <= U32_LIMIT && forall s :: s in ss ==> |s| < U32_LIMIT
    ensures |ps| == |ss|
    decreases |ss|
  {
    if ss == [] then [] else [Frame(h, count, total, ci, ss[0])] + Frames(h, count, total, ci + 1, ss[1..])
  }

  /** A payload the envelope can describe. */
  predicate Sendable(payload: seq<byte>)
  {
    HEADER_SIZE + |payload| < U32_LIMIT
  }

  lemma SlicesFitU32(payload: seq<byte>, budget: nat)
    requires budget > 0 && Sendable(payload)
    ensures |Slices(payload, budget)| < U32_LIMIT
    ensures forall s :: s in Slices(payload, budget) ==> |s| < U32_LIMIT
  {
    SlicesMeaning(payload, budget);
    if payload != [] {
      SlicesCount(payload, budget);
      DivAtMost(|payload| - 1, budget);
      hide Slices;
      forall s | s in Slices(payload, budget)
        ensures |s| < U32_LIMIT
      {
        PieceAtMostWhole(Slices(payload, budget), s);
      }
    }
  }

  lemma ScaleUp(b: nat, q: nat)
    requires b > 0
    ensures b * q >= q
  {
  }

  lemma DivAtMost(a: nat, b: nat)
    requires b > 0
    ensures a / b <= a
  {
    ScaleUp(b, a / b);
  }

  lemma {:induction false} PieceAtMostWhole(ss: seq<seq<byte>>, s: seq<byte>)
    requires s in ss
    ensures |s| <= |Concat(ss)|
  {
    if s != ss[0] {
      PieceAtMostWhole(ss[1..], s);
    }
  }

  /** The packets of one message. */
  function Packets(h: Header, payload: seq<byte>, packetSize: nat): (ps: seq<seq<byte>>)
    requires packetSize > HEADER_SIZE && Sendable(payload)
  {
    var ss := Slices(payload, packetSize - HEADER_SIZE);
    SlicesFitU32(payload, packetSize - HEADER_SIZE);
    Frames(h, |ss|, HEADER_SIZE + |payload|, 0, ss)
  }

  // -------------------------------------------------------------------------
  //  Reassembly
  // -------------------------------------------------------------------------

  /** A packet read into a buffer of `cap` bytes loses what does not fit. */
  function Clip(bytes: seq<byte>, cap: nat): (s: seq<byte>)
    ensures |s| <= cap && |s| <= |bytes|
  {
    if |bytes| <= cap then bytes else bytes[..cap]
  }

  /** The data of a continuation packet, if its header continues this message. */
  function ChunkData(h: Header, count: nat, ci: nat, assembled: nat, pkt: seq<byte>): (r: Outcome<seq<byte>>)
    ensures r.Done? ==> r.value != [] && assembled + |r.value| <= h.payloadLen
  {
    if |pkt| < HEADER_SIZE then Fail(ChunkError)
    else
      match DecodeChunk(pkt)
      case Err(_) => Fail(ChunkError)
      case Ok(c) =>
        if c.messageId != h.messageId then Fail(ChunkError)
        else if c.chunkIndex != ci then Fail(ChunkError)
        else if c.chunkCount != count then Fail(ChunkError)
        else if c.totalMessageLen != HEADER_SIZE + h.payloadLen then Fail(ChunkError)
        else if |pkt| - HEADER_SIZE != c.chunkPayloadLen then Fail(ChunkError)
        else if assembled + |pkt| - HEADER_SIZE > h.payloadLen then Fail(ChunkError)
        else Done(pkt[HEADER_SIZE..])
  }

  datatype Assembly = Assembly(outcome: Outcome<seq<byte>>, rest: seq<Arrival>)

  function Assemble(h: Header, packetSize: nat, count: nat, ci: nat, acc: seq<byte>, wire: seq<Arrival>): (r: Assembly)
    ensures |acc| <= h.payloadLen && r.outcome.Done? ==> |r.outcome.value| == h.payloadLen
    decreases |wire|
  {
    if |acc| >= h.payloadLen then Assembly(Done(acc), wire)
    else if wire == [] then Assembly(Fail(RecvFailed), [])
    else if wire[0].Broken? || wire[0].bytes == [] then Assembly(Fail(RecvFailed), wire[1..])
    else
      match ChunkData(h, count, ci, |acc|, Clip(wire[0].bytes, packetSize))
      case Fail(e) => Assembly(Fail(e), wire[1..])
      case Done(data) => Assemble(h, packetSize, count, ci + 1, acc + data, wire[1..])
  }

  /** A flagged batch of more than one item must carry a valid directory. */
  function BatchOk(h: Header, payload: seq<byte>): (ok: bool)
    requires |payload| < U32_LIMIT
  {
    Bits.And(h.flags, 1) != 0 && h.itemCount > 1 ==>
      8 * h.itemCount <= |payload|
      && Batch.Directory(payload[..8 * h.itemCount], h.itemCount, |payload| - 8 * h.itemCount).Ok?
  }

  datatype Received = Received(outcome: Outcome<(Header, seq<byte>)>, rest: seq<Arrival>, inflight: set<u64>)

  function Checked(h: Header, payload: seq<byte>): (r: Outcome<(Header, seq<byte>)>)
    requires |payload| < U32_LIMIT
  {
    if BatchOk(h, payload) then Done((h, payload)) else Fail(ProtocolError)
  }

  /** In-flight ids after a failed wait: a client forgets them all. */
  function Forgotten(role: Role, inflight: set<u64>): set<u64>
  {
    if role.Client? then {} else inflight
  }

  /** What follows once the header and the id have been accepted. */
  function Body(role: Role, lim: Limits, ids: set<u64>, h: Header, pkt: seq<byte>, wire: seq<Arrival>): (r: Received)
    requires lim.Usable() && |pkt| >= HEADER_SIZE
  {
    var total: nat := HEADER_SIZE + h.payloadLen;
    if total >= U32_LIMIT then Received(Fail(ProtocolError), wire, ids)
    else if |pkt| > total then Received(Fail(ProtocolError), wire, ids)
    else if |pkt| == total then Received(Checked(h, pkt[HEADER_SIZE..]), wire, ids)
    else
      var first := |pkt| - HEADER_SIZE;
      var count := ChunkCount(h.payloadLen - first, lim.packetSize - HEADER_SIZE);
      var a := Assemble(h, lim.packetSize, count, 1, pkt[HEADER_SIZE..], wire);
      match a.outcome
      case Fail(e) => Received(Fail(e), a.rest, if e.RecvFailed? then Forgotten(role, ids) else ids)
      case Done(payload) => Received(Checked(h, payload), a.rest, ids)
  }

  /** Receives one logical message into a buffer of `cap` bytes. */
  function Receive(role: Role, lim: Limits, inflight: set<u64>, wire: seq<Arrival>, cap: nat): (r: Received)
    requires lim.Usable()
  {
    if wire == [] then Received(Fail(RecvFailed), [], Forgotten(role, inflight))
    else if wire[0].Broken? || Clip(wire[0].bytes, cap) == [] then
      Received(Fail(RecvFailed), wire[1..], Forgotten(role, inflight))
    else
      var pkt := Clip(wire[0].bytes, cap);
      if |pkt| < HEADER_SIZE then Received(Fail(ProtocolError), wire[1..], inflight)
      else
        match DecodeHeader(pkt)
        case Err(_) => Received(Fail(ProtocolError), wire[1..], inflight)
        case Ok(h) =>
          if h.payloadLen > lim.MaxPayloadSent(Peer(role)) then Received(Fail(LimitExceeded), wire[1..], inflight)
          else if h.itemCount > lim.MaxItemsSent(Peer(role)) then Received(Fail(LimitExceeded), wire[1..], inflight)
          else if role.Client? && h.kind == KIND_RESPONSE && h.messageId !in inflight then
            Received(Fail(UnknownMsgId(h.messageId)), wire[1..], inflight)
          else
            var ids := if role.Client? && h.kind == KIND_RESPONSE then inflight - {h.messageId} else inflight;
            Body(role, lim, ids, h, pkt, wire[1..])
  }

  // -------------------------------------------------------------------------
  //  Sending is inverted by receiving
  // -------------------------------------------------------------------------

  function OnWire(packets: seq<seq<byte>>): (w: seq<Arrival>)
    ensures |w| == |packets|
  {
    if packets == [] then [] else [Packet(packets[0])] + OnWire(packets[1..])
  }

  lemma ChunkFrameReads(h: Header, count: u32, ci: u32, assembled: nat, piece: seq<byte>)
    requires ci > 0 && 0 < |piece| && HEADER_SIZE + h.payloadLen < U32_LIMIT
    requires assembled + |piece| <= h.payloadLen
    ensures ChunkData(h, count, ci, assembled, Frame(h, count, HEADER_SIZE + h.payloadLen, ci, piece)) == Done(piece)
  {
    hide ChunkBytes, DecodeChunk;
    var c := ChunkHeader(MAGIC_CHUNK, VERSION, 0, h.messageId, HEADER_SIZE + h.payloadLen, ci, count, |piece|);
    ChunkRoundTrip(c, piece);
    assert (ChunkBytes(c) + piece)[HEADER_SIZE..] == piece;
  }

  lemma AssembleStep(h: Header, packetSize: nat, count: nat, ci: nat, acc: seq<byte>, pkt: seq<byte>,
                     data: seq<byte>, wire: seq<Arrival>)
    requires |acc| < h.payloadLen && 0 < |pkt| <= packetSize
    requires ChunkData(h, count, ci, |acc|, pkt) == Done(data)
    ensures Assemble(h, packetSize, count, ci, acc, [Packet(pkt)] + wire)
            == Assemble(h, packetSize, count, ci + 1, acc + data, wire)
  {
    hide ChunkData;
    assert ([Packet(pkt)] + wire)[1..] == wire;
  }

  lemma FramesUnfold(h: Header, count: u32, total: u32, ci: nat, ss: seq<seq<byte>>)
    requires ss != [] && ci + |ss| <= U32_LIMIT && forall s :: s in ss ==> |s| < U32_LIMIT
    ensures Frames(h, count, total, ci, ss)
            == [Frame(h, count, total, ci, ss[0])] + Frames(h, count, total, ci + 1, ss[1..])
  {
  }

  lemma OnWireUnfold(packet: seq<byte>, packets: seq<seq<byte>>, rest: seq<Arrival>)
    ensures OnWire([packet] + packets) + rest == [Packet(packet)] + (OnWire(packets) + rest)
  {
    assert ([packet] + packets)[1..] == packets;
  }

  lemma ConcatUnfold(acc: seq<byte>, ss: seq<seq<byte>>)
    requires ss != []
    ensures acc + ss[0] + Concat(ss[1..]) == acc + Concat(ss)
  {
  }

  /** Continuation frames are reassembled in order, and nothing behind them is read. */
  lemma {:induction false} FramesAssemble(h: Header, packetSize: nat, count: u32, ci: nat, acc: seq<byte>,
                                          ss: seq<seq<byte>>, rest: seq<Arrival>)
    requires 0 < ci && ci + |ss| <= U32_LIMIT && HEADER_SIZE + h.payloadLen < U32_LIMIT
    requires forall s :: s in ss ==> 0 < |s| && HEADER_SIZE + |s| <= packetSize && |s| < U32_LIMIT
    requires |acc| + |Concat(ss)| == h.payloadLen
    ensures Assemble(h, packetSize, count, ci, acc, OnWire(Frames(h, count, HEADER_SIZE + h.payloadLen, ci, ss)) + rest)
            == Assembly(Done(acc + Concat(ss)), rest)
    decreases |ss|
  {
    hide ChunkData, Frame, Assemble, Frames, OnWire, Concat;
    var total := HEADER_SIZE + h.payloadLen;
    if ss == [] {
      NothingOnWire(h, count, total, ci, acc, rest);
      AssembleDone(h, packetSize, count, ci, acc, rest);
    } else {
      var s, ss' := ss[0], ss[1..];
      assert s in ss;
      var f, fs' := Frame(h, count, total, ci, s), Frames(h, count, total, ci + 1, ss');
      ConcatUnfold(acc, ss);
      ChunkFrameReads(h, count, ci, |acc|, s);
      FramesUnfold(h, count, total, ci, ss);
      OnWireUnfold(f, fs', rest);
      AssembleStep(h, packetSize, count, ci, acc, f, s, OnWire(fs') + rest);
      FramesAssemble(h, packetSize, count, ci + 1, acc + s, ss', rest);
    }
  }

  lemma NothingOnWire(h: Header, count: u32, total: u32, ci: nat, acc: seq<byte>, rest: seq<Arrival>)
    requires ci <= U32_LIMIT
    ensures OnWire(Frames(h, count, total, ci, [])) + rest == rest && acc + Concat([]) == acc
  {
  }

  lemma AssembleDone(h: Header, packetSize: nat, count: nat, ci: nat, acc: seq<byte>, wire: seq<Arrival>)
    requires |acc| == h.payloadLen
    ensures Assemble(h, packetSize, count, ci, acc, wire) == Assembly(Done(acc), wire)
  {
  }

  /** The header `send` puts on the wire. */
  function Filled(h: Header, payloadLen: u32): Header
  {
    h.(magic := MAGIC_MSG, version := VERSION, headerLen := HEADER_SIZE, payloadLen := payloadLen)
  }

  /** The ids a receiver still waits for after message `h` arrived. */
  function Settled(role: Role, inflight: set<u64>, h: Header): set<u64>
  {
    if role.Client? && h.kind == KIND_RESPONSE then inflight - {h.messageId} else inflight
  }

  /** The receiver would let this message through. */
  predicate Deliverable(role: Role, lim: Limits, inflight: set<u64>, h: Header, payload: seq<byte>)
  {
    && Sendable(payload)
    && |payload| <= lim.MaxPayloadSent(Peer(role)) && h.itemCount <= lim.MaxItemsSent(Peer(role))
    && KIND_REQUEST <= h.kind <= KIND_CONTROL
    && (role.Client? && h.kind == KIND_RESPONSE ==> h.messageId in inflight)
    && BatchOk(Filled(h, |payload|), payload)
  }

  lemma FirstFrameHeader(h: Header, count: u32, total: u32, piece: seq<byte>)
    requires WellFormed(h) && |piece| < U32_LIMIT
    ensures DecodeHeader(Frame(h, count, total, 0, piece)) == Ok(h)
    ensures Frame(h, count, total, 0, piece)[HEADER_SIZE..] == piece
  {
    hide DecodeHeader, HeaderBytes;
    HeaderRoundTrip(h, piece);
  }

  lemma PacketsSplit(h: Header, payload: seq<byte>, packetSize: nat)
    requires packetSize > HEADER_SIZE && Sendable(payload)
    ensures var ss := Slices(payload, packetSize - HEADER_SIZE);
            && |ss| < U32_LIMIT
            && (forall s :: s in ss ==> |s| < U32_LIMIT)
            && Packets(h, payload, packetSize)
               == [Frame(h, |ss|, HEADER_SIZE + |payload|, 0, ss[0])]
                  + Frames(h, |ss|, HEADER_SIZE + |payload|, 1, ss[1..])
  {
    hide Frame, Slices;
    SlicesFitU32(payload, packetSize - HEADER_SIZE);
  }

  /** A first packet that carries everything is the whole body. */
  lemma SingleBody(role: Role, lim: Limits, ids: set<u64>, h: Header, pkt: seq<byte>, payload: seq<byte>,
                   wire: seq<Arrival>)
    requires lim.Usable() && Sendable(payload) && h.payloadLen == |payload|
    requires |pkt| == HEADER_SIZE + |payload| && pkt[HEADER_SIZE..] == payload
    ensures Body(role, lim, ids, h, pkt, wire) == Received(Checked(h, payload), wire, ids)
  {
    hide Checked;
  }

  /** A first packet and its continuation frames make up the body. */
  lemma ChunkedBody(role: Role, lim: Limits, ids: set<u64>, h: Header, pkt: seq<byte>,
                    ss: seq<seq<byte>>, count: u32, payload: seq<byte>, rest: seq<Arrival>)
    requires lim.Usable() && Sendable(payload) && h.payloadLen == |payload|
    requires |pkt| >= HEADER_SIZE && |pkt| < HEADER_SIZE + |payload| && pkt[HEADER_SIZE..] + Concat(ss) == payload
    requires forall s :: s in ss ==> 0 < |s| && HEADER_SIZE + |s| <= lim.packetSize && |s| < U32_LIMIT
    requires 1 + |ss| <= U32_LIMIT
    requires count == ChunkCount(|payload| - (|pkt| - HEADER_SIZE), lim.packetSize - HEADER_SIZE)
    ensures Body(role, lim, ids, h, pkt, OnWire(Frames(h, count, HEADER_SIZE + |payload|, 1, ss)) + rest)
            == Received(Checked(h, payload), rest, ids)
  {
    hide Checked, Assemble, Frames, OnWire, Concat, ChunkCount;
    FramesAssemble(h, lim.packetSize, count, 1, pkt[HEADER_SIZE..], ss, rest);
  }

  /** Once the first packet's header is accepted, the body is the sent payload. */
  lemma BodyOfFrames(role: Role, lim: Limits, ids: set<u64>, h: Header, payload: seq<byte>, rest: seq<Arrival>)
    requires lim.Usable() && Sendable(payload) && h.payloadLen == |payload| && WellFormed(h)
    ensures var ps := Packets(h, payload, lim.packetSize);
            && |ps| > 0 && |ps[0]| >= HEADER_SIZE && DecodeHeader(ps[0]) == Ok(h)
            && |ps[0]| <= lim.packetSize && |ps[0]| <= HEADER_SIZE + |payload|
            && Body(role, lim, ids, h, ps[0], OnWire(ps[1..]) + rest) == Received(Checked(h, payload), rest, ids)
  {
    hide Frame, Frames, Checked, DecodeHeader, Body, Packets, Slices, Concat, OnWire;
    var budget := lim.packetSize - HEADER_SIZE;
    var ss := Slices(payload, budget);
    PacketsSplit(h, payload, lim.packetSize);
    SlicesShape(payload, budget);
    var total := HEADER_SIZE + |payload|;
    var ps := Packets(h, payload, lim.packetSize);
    assert ss[0] in ss;
    FirstFrameHeader(h, |ss|, total, ss[0]);
    assert ps[1..] == Frames(h, |ss|, total, 1, ss[1..]);
    if |payload| <= budget {
      assert OnWire(ps[1..]) + rest == rest;
      SingleBody(role, lim, ids, h, ps[0], payload, rest);
    } else {
      ChunkedBody(role, lim, ids, h, ps[0], ss[1..], |ss|, payload, rest);
    }
  }

  /** The first slice, and what the others hold. */
  lemma SlicesShape(payload: seq<byte>, budget: nat)
    requires budget > 0
    ensures var ss := Slices(payload, budget);
            && |ss[0]| <= budget
            && (|payload| <= budget ==> ss == [payload])
            && (|payload| > budget ==>
                  && |ss[0]| == budget
                  && ss[0] + Concat(ss[1..]) == payload
                  && |ss| == ChunkCount(|payload| - budget, budget)
                  && forall s :: s in ss[1..] ==> 0 < |s| <= budget)
  {
    hide Concat, Slices;
    SlicesUnfold(payload, budget);
    if |payload| > budget {
      SlicesMeaning(payload[budget..], budget);
      SlicesCount(payload[budget..], budget);
    }
  }

  lemma SlicesUnfold(payload: seq<byte>, budget: nat)
    requires budget > 0
    ensures if |payload| <= budget then Slices(payload, budget) == [payload]
            else Slices(payload, budget) == [payload[..budget]] + Slices(payload[budget..], budget)
  {
  }

  /** A first packet that passes every header check leaves only the body to receive. */
  lemma ReceiveFirst(role: Role, lim: Limits, inflight: set<u64>, h: Header, pkt: seq<byte>, tail: seq<Arrival>,
                     cap: nat)
    requires lim.Usable() && HEADER_SIZE <= |pkt| <= cap && DecodeHeader(pkt) == Ok(h)
    requires h.payloadLen <= lim.MaxPayloadSent(Peer(role)) && h.itemCount <= lim.MaxItemsSent(Peer(role))
    requires role.Client? && h.kind == KIND_RESPONSE ==> h.messageId in inflight
    ensures Receive(role, lim, inflight, [Packet(pkt)] + tail, cap)
            == Body(role, lim, Settled(role, inflight, h), h, pkt, tail)
  {
    hide Body, DecodeHeader;
    var wire := [Packet(pkt)] + tail;
    assert wire[0] == Packet(pkt) && wire[1..] == tail;
  }

  /** What one side sends within the agreed limits the other side receives: the same
      header and payload, from exactly the packets of that message. */
  lemma SendReceive(role: Role, lim: Limits, inflight: set<u64>, h: Header, payload: seq<byte>, cap: nat,
                    rest: seq<Arrival>)
    requires lim.Usable() && Deliverable(role, lim, inflight, h, payload)
    requires cap >= lim.packetSize || cap >= HEADER_SIZE + |payload|
    ensures var sent := Filled(h, |payload|);
            Receive(role, lim, inflight, OnWire(Packets(sent, payload, lim.packetSize)) + rest, cap)
            == Received(Done((sent, payload)), rest, Settled(role, inflight, h))
  {
    hide Packets, Body, DecodeHeader, BatchOk, Receive;
    var sent := Filled(h, |payload|);
    var ps := Packets(sent, payload, lim.packetSize);
    BodyOfFrames(role, lim, Settled(role, inflight, h), sent, payload, rest);
    ReceiveFirst(role, lim, inflight, sent, ps[0], OnWire(ps[1..]) + rest, cap);
    assert OnWire(ps) + rest == [Packet(ps[0])] + (OnWire(ps[1..]) + rest);
  }

  // -------------------------------------------------------------------------
  //  Streams of messages
  // -------------------------------------------------------------------------

  datatype Message = Message(h: Header, payload: seq<byte>)

  function SettledAll(role: Role, inflight: set<u64>, ms: seq<Message>): set<u64>
  {
    if ms == [] then inflight else SettledAll(role, Settled(role, inflight, ms[0].h), ms[1..])
  }

  predicate AllDeliverable(role: Role, lim: Limits, inflight: set<u64>, ms: seq<Message>)
  {
    ms == [] ||
    (Deliverable(role, lim, inflight, ms[0].h, ms[0].payload)
     && AllDeliverable(role, lim, Settled(role, inflight, ms[0].h), ms[1..]))
  }

  /** The packets of the messages, one message after the other. */
  function Stream(ms: seq<Message>, packetSize: nat): (w: seq<Arrival>)
    requires packetSize > HEADER_SIZE && forall i :: 0 <= i < |ms| ==> Sendable(ms[i].payload)
  {
    if ms == [] then []
    else
      assert Sendable(ms[0].payload);
      OnWire(Packets(Filled(ms[0].h, |ms[0].payload|), ms[0].payload, packetSize)) + Stream(ms[1..], packetSize)
  }

  /** Receives `n` messages, stopping at the first failure. */
  function ReceiveMany(role: Role, lim: Limits, inflight: set<u64>, wire: seq<Arrival>, cap: nat, n: nat)
    : (r: (seq<(Header, seq<byte>)>, seq<Arrival>, set<u64>))
    requires lim.Usable()
    decreases n
  {
    hide Receive;
    if n == 0 then ([], wire, inflight)
    else
      var one := Receive(role, lim, inflight, wire, cap);
      if one.outcome.Fail? then ([], one.rest, one.inflight)
      else
        var more := ReceiveMany(role, lim, one.inflight, one.rest, cap, n - 1);
        ([one.outcome.value] + more.0, more.1, more.2)
  }

  function Delivered(ms: seq<Message>): (r: seq<(Header, seq<byte>)>)
    requires forall i :: 0 <= i < |ms| ==> Sendable(ms[i].payload)
    ensures |r| == |ms|
  {
    if ms == [] then []
    else
      assert Sendable(ms[0].payload);
      [(Filled(ms[0].h, |ms[0].payload|), ms[0].payload)] + Delivered(ms[1..])
  }

  lemma {:induction false} AllSendable(role: Role, lim: Limits, inflight: set<u64>, ms: seq<Message>)
    requires AllDeliverable(role, lim, inflight, ms)
    ensures forall i :: 0 <= i < |ms| ==> Sendable(ms[i].payload)
  {
    hide BatchOk;
    if ms != [] {
      AllSendable(role, lim, Settled(role, inflight, ms[0].h), ms[1..]);
    }
  }

  /** Any number of messages sent back to back arrive in order, each whole, with the
      packets behind them left unread. */
  lemma {:induction false} StreamRoundTrip(role: Role, lim: Limits, inflight: set<u64>, ms: seq<Message>, cap: nat,
                                           rest: seq<Arrival>)
    requires lim.Usable() && AllDeliverable(role, lim, inflight, ms) && cap >= lim.packetSize
    ensures forall i :: 0 <= i < |ms| ==> Sendable(ms[i].payload)
    ensures ReceiveMany(role, lim, inflight, Stream(ms, lim.packetSize) + rest, cap, |ms|)
            == (Delivered(ms), rest, SettledAll(role, inflight, ms))
  {
    hide Receive, Packets, Deliverable;
    AllSendable(role, lim, inflight, ms);
    if ms == [] {
      assert Stream(ms, lim.packetSize) + rest == rest;
    } else {
      var m, ms', ids := ms[0], ms[1..], Settled(role, inflight, ms[0].h);
      var w := OnWire(Packets(Filled(m.h, |m.payload|), m.payload, lim.packetSize));
      var tail := Stream(ms', lim.packetSize) + rest;
      assert Stream(ms, lim.packetSize) + rest == w + tail;
      DeliverableSendable(role, lim, inflight, m);
      SendReceive(role, lim, inflight, m.h, m.payload, cap, tail);
      StreamRoundTrip(role, lim, ids, ms', cap, rest);
    }
  }

  lemma DeliverableSendable(role: Role, lim: Limits, inflight: set<u64>, m: Message)
    requires Deliverable(role, lim, inflight, m.h, m.payload)
    ensures Sendable(m.payload)
  {
  }

  // -------------------------------------------------------------------------
  //  Arbitrary packets
  // -------------------------------------------------------------------------

  /** The payload part of a packet read into `cap` bytes. */
  function Data(a: Arrival, cap: nat): (s: seq<byte>)
  {
    if a.Packet? && |Clip(a.bytes, cap)| >= HEADER_SIZE then Clip(a.bytes, cap)[HEADER_SIZE..] else []
  }

  function Gather(wire: seq<Arrival>, cap: nat): (s: seq<byte>)
  {
    if wire == [] then [] else Data(wire[0], cap) + Gather(wire[1..], cap)
  }

  /** `a` is a continuation packet of message `h` with this index and count. */
  predicate Continues(h: Header, count: nat, ci: nat, packetSize: nat, a: Arrival)
  {
    && a.Packet?
    && var pkt := Clip(a.bytes, packetSize);
    && DecodeChunk(pkt).Ok?
    && var c := DecodeChunk(pkt).value;
    && c.messageId == h.messageId && c.chunkIndex == ci && c.chunkCount == count
    && c.totalMessageLen == HEADER_SIZE + h.payloadLen
    && 0 < c.chunkPayloadLen == |pkt| - HEADER_SIZE
  }

  /** What `k` packets gather behind an accepted one, all `k + 1` gather. */
  lemma GatherStep(h: Header, packetSize: nat, count: nat, ci: nat, acc: seq<byte>, wire: seq<Arrival>, k: nat)
    requires k < |wire| && wire[0].Packet?
    requires ChunkData(h, count, ci, |acc|, Clip(wire[0].bytes, packetSize)).Done?
    ensures wire[1..][k..] == wire[k + 1..]
    ensures acc + ChunkData(h, count, ci, |acc|, Clip(wire[0].bytes, packetSize)).value
            + Gather(wire[1..][..k], packetSize) == acc + Gather(wire[..k + 1], packetSize)
    ensures (forall j :: 0 <= j < k ==> Continues(h, count, ci + 1 + j, packetSize, wire[1..][j])) ==>
              forall j :: 0 <= j < k + 1 ==> Continues(h, count, ci + j, packetSize, wire[j])
  {
    hide ChunkData, Continues, Data, Gather, Clip;
    ChunkDataMeaning(h, count, ci, |acc|, wire[0], packetSize);
    ConsumeOne(wire, k, packetSize);
    if forall j :: 0 <= j < k ==> Continues(h, count, ci + 1 + j, packetSize, wire[1..][j]) {
      forall j | 0 <= j < k + 1
        ensures Continues(h, count, ci + j, packetSize, wire[j])
      {
        assert j > 0 ==> Continues(h, count, ci + 1 + (j - 1), packetSize, wire[1..][j - 1]);
      }
    }
  }

  /** A reassembled payload is what came in front followed by the data of the packets
      consumed, and each of them continued this message under the next index. */
  lemma {:induction false} AssembleMeaning(h: Header, packetSize: nat, count: nat, ci: nat, acc: seq<byte>,
                                           wire: seq<Arrival>)
    returns (k: nat)
    requires |acc| <= h.payloadLen
    ensures k <= |wire|
    ensures var a := Assemble(h, packetSize, count, ci, acc, wire);
            a.outcome.Done? ==>
              && a.rest == wire[k..]
              && a.outcome.value == acc + Gather(wire[..k], packetSize)
              && forall j :: 0 <= j < k ==> Continues(h, count, ci + j, packetSize, wire[j])
    decreases |wire|
  {
    hide ChunkData, Continues, Data, Gather, Clip;
    k := 0;
    GatherNothing(wire, packetSize);
    if |acc| < h.payloadLen && wire != [] && wire[0].Packet? && wire[0].bytes != [] {
      var data := ChunkData(h, count, ci, |acc|, Clip(wire[0].bytes, packetSize));
      if data.Done? {
        var k' := AssembleMeaning(h, packetSize, count, ci + 1, acc + data.value, wire[1..]);
        k := k' + 1;
        assert Assemble(h, packetSize, count, ci, acc, wire)
               == Assemble(h, packetSize, count, ci + 1, acc + data.value, wire[1..]);
        GatherStep(h, packetSize, count, ci, acc, wire, k');
      }
    }
  }

  lemma GatherNothing(wire: seq<Arrival>, cap: nat)
    ensures Gather(wire[..0], cap) == []
  {
  }

  lemma ChunkDataMeaning(h: Header, count: nat, ci: nat, assembled: nat, a: Arrival, packetSize: nat)
    requires a.Packet? && ChunkData(h, count, ci, assembled, Clip(a.bytes, packetSize)).Done?
    ensures Continues(h, count, ci, packetSize, a)
    ensures ChunkData(h, count, ci, assembled, Clip(a.bytes, packetSize)).value == Data(a, packetSize)
  {
  }

  lemma ConsumeOne(wire: seq<Arrival>, k: nat, cap: nat)
    requires k < |wire|
    ensures wire[1..][k..] == wire[k + 1..]
    ensures Gather(wire[..k + 1], cap) == Data(wire[0], cap) + Gather(wire[1..][..k], cap)
  {
    assert wire[..k + 1][1..] == wire[1..][..k];
  }

  /** Everything an accepted message guarantees, for arbitrary packets: how many were
      consumed, that limits, id and batch directory were honoured, and that the payload
      is exactly the data those packets carried, in order. */
  ghost predicate ReceivedFrom(role: Role, lim: Limits, inflight: set<u64>, wire: seq<Arrival>, cap: nat, k: nat,
                               r: Received)
    requires lim.Usable()
  {
    && r.outcome.Done?
    && var (h, p) := r.outcome.value;
    && 1 <= k <= |wire| && r.rest == wire[k..]
    && wire[0].Packet? && DecodeHeader(Clip(wire[0].bytes, cap)) == Ok(h)
    && h.payloadLen == |p| <= lim.MaxPayloadSent(Peer(role)) && h.itemCount <= lim.MaxItemsSent(Peer(role))
    && (role.Client? && h.kind == KIND_RESPONSE ==> h.messageId in inflight)
    && r.inflight == Settled(role, inflight, h)
    && BatchOk(h, p)
    && p == Data(wire[0], cap) + Gather(wire[1..k], lim.packetSize)
    && var count := ChunkCount(|p| - |Data(wire[0], cap)|, lim.packetSize - HEADER_SIZE);
    && forall j :: 1 <= j < k ==> Continues(h, count, j, lim.packetSize, wire[j])
  }

  lemma BodyMeaning(role: Role, lim: Limits, ids: set<u64>, h: Header, pkt: seq<byte>, wire: seq<Arrival>)
    returns (k: nat)
    requires lim.Usable() && |pkt| >= HEADER_SIZE
    ensures k <= |wire|
    ensures var r := Body(role, lim, ids, h, pkt, wire);
            r.outcome.Done? ==>
              var (h', p) := r.outcome.value;
              && h' == h && r.rest == wire[k..] && r.inflight == ids
              && |p| == h.payloadLen && BatchOk(h, p)
              && p == pkt[HEADER_SIZE..] + Gather(wire[..k], lim.packetSize)
              && var count := ChunkCount(|p| - (|pkt| - HEADER_SIZE), lim.packetSize - HEADER_SIZE);
              && forall j :: 0 <= j < k ==> Continues(h, count, 1 + j, lim.packetSize, wire[j])
  {
    hide BatchOk, Assemble, Continues, Gather, ChunkCount;
    k := 0;
    GatherNothing(wire, lim.packetSize);
    if |pkt| - HEADER_SIZE < h.payloadLen {
      var count := ChunkCount(h.payloadLen - (|pkt| - HEADER_SIZE), lim.packetSize - HEADER_SIZE);
      k := AssembleMeaning(h, lim.packetSize, count, 1, pkt[HEADER_SIZE..], wire);
    }
  }

  lemma ReceivedMeaning(role: Role, lim: Limits, inflight: set<u64>, wire: seq<Arrival>, cap: nat) returns (k: nat)
    requires lim.Usable()
    ensures Receive(role, lim, inflight, wire, cap).outcome.Done? ==>
              ReceivedFrom(role, lim, inflight, wire, cap, k, Receive(role, lim, inflight, wire, cap))
  {
    hide Body, BatchOk, Continues, Gather, ChunkCount, DecodeHeader;
    k := 1;
    var r := Receive(role, lim, inflight, wire, cap);
    if r.outcome.Done? {
      var pkt := Clip(wire[0].bytes, cap);
      var h := DecodeHeader(pkt).value;
      var tail := wire[1..];
      var k' := BodyMeaning(role, lim, Settled(role, inflight, h), h, pkt, tail);
      k := k' + 1;
      assert tail[..k'] == wire[1..k] && tail[k'..] == wire[k..];
      var (_, p) := r.outcome.value;
      var count := ChunkCount(|p| - |Data(wire[0], cap)|, lim.packetSize - HEADER_SIZE);
      forall j | 1 <= j < k
        ensures Continues(h, count, j, lim.packetSize, wire[j])
      {
        assert tail[j - 1] == wire[j] && Continues(h, count, 1 + (j - 1), lim.packetSize, tail[j - 1]);
      }
    }
  }

  // -------------------------------------------------------------------------
  //  The documented chunk index rule
  // -------------------------------------------------------------------------

  /** `first` and then `ss` are the payload, cut into pieces that fit a packet. */
  predicate Cut(packetSize: nat, first: seq<byte>, ss: seq<seq<byte>>, payload: seq<byte>)
  {
    && 0 < |ss| && 1 + |ss| <= U32_LIMIT && first + Concat(ss) == payload
    && |first| < |payload|
    && forall s :: s in ss ==> 0 < |s| < U32_LIMIT && HEADER_SIZE + |s| <= packetSize
  }

  /** The packets of a message cut that way, under the given chunk count field. */
  function CutPackets(sent: Header, count: u32, packetSize: nat, first: seq<byte>, ss: seq<seq<byte>>,
                      payload: seq<byte>)
    : (ps: seq<seq<byte>>)
    requires Sendable(payload) && Cut(packetSize, first, ss, payload)
  {
    [Frame(sent, count, HEADER_SIZE + |payload|, 0, first)] + Frames(sent, count, HEADER_SIZE + |payload|, 1, ss)
  }

  /** The receiver accepts any cut of the payload into pieces that fit a packet, as long
      as the chunk count field holds the count of the coarsest cut. */
  lemma AnyCutAccepted(role: Role, lim: Limits, inflight: set<u64>, sent: Header, count: u32, first: seq<byte>,
                       ss: seq<seq<byte>>, payload: seq<byte>, cap: nat, rest: seq<Arrival>)
    requires lim.Usable() && Deliverable(role, lim, inflight, sent, payload) && sent == Filled(sent, |payload|)
    requires Cut(lim.packetSize, first, ss, payload) && HEADER_SIZE + |first| <= cap
    requires count == ChunkCount(|payload| - |first|, lim.packetSize - HEADER_SIZE)
    ensures Receive(role, lim, inflight, OnWire(CutPackets(sent, count, lim.packetSize, first, ss, payload)) + rest,
                    cap)
            == Received(Done((sent, payload)), rest, Settled(role, inflight, sent))
  {
    hide Body, BatchOk, DecodeHeader, Frames, Concat, Frame, ChunkCount, Receive, OnWire, Checked;
    CheckedOk(sent, payload);
    var pkt := Frame(sent, count, HEADER_SIZE + |payload|, 0, first);
    var tail := Frames(sent, count, HEADER_SIZE + |payload|, 1, ss);
    FirstFrameHeader(sent, count, HEADER_SIZE + |payload|, first);
    ChunkedBody(role, lim, Settled(role, inflight, sent), sent, pkt, ss, count, payload, rest);
    ReceiveFirst(role, lim, inflight, sent, pkt, OnWire(tail) + rest, cap);
    OnWireCons(pkt, tail, rest);
  }

  lemma CheckedOk(h: Header, payload: seq<byte>)
    requires |payload| < U32_LIMIT && BatchOk(h, payload)
    ensures Checked(h, payload) == Done((h, payload))
  {
  }

  lemma OnWireCons(pkt: seq<byte>, tail: seq<seq<byte>>, rest: seq<Arrival>)
    ensures OnWire([pkt] + tail) + rest == [Packet(pkt)] + (OnWire(tail) + rest)
  {
    assert ([pkt] + tail)[1..] == tail;
  }

  /** The rule the wire format states for every chunk. */
  predicate IndexBelowCount(a: Arrival, packetSize: nat)
  {
    && a.Packet?
    && var c := DecodeChunk(Clip(a.bytes, packetSize));
       c.Ok? && c.value.chunkIndex < c.value.chunkCount
  }

  lemma LastIndexBelow(k: nat, remaining: nat, budget: nat)
    requires k > 0 && remaining > 0 && budget > 0
    ensures k < ChunkCount(remaining, budget) <==> k * budget < remaining + budget
  {
    var q, r := (remaining - 1) / budget, (remaining - 1) % budget;
    assert remaining - 1 == budget * q + r;
    Scaled(k - 1, q, budget);
    assert (k - 1) * budget == k * budget - budget;
  }

  lemma ContinuesCarries(h: Header, count: nat, ci: nat, packetSize: nat, a: Arrival)
    requires Continues(h, count, ci, packetSize, a)
    ensures |Data(a, packetSize)| > 0
    ensures IndexBelowCount(a, packetSize) <==> ci < count
  {
    hide Get16, Get32, Get64;
  }

  /** For arbitrary packets and any accepted message: every continuation chunk of it obeys
      `chunk_index < chunk_count` exactly when the chunks together leave less than one packet
      budget unused. */
  lemma IndexBelowCountExactlyWhen(role: Role, lim: Limits, inflight: set<u64>, wire: seq<Arrival>, cap: nat, k: nat)
    requires lim.Usable() && k > 1
    requires ReceivedFrom(role, lim, inflight, wire, cap, k, Receive(role, lim, inflight, wire, cap))
    ensures var (_, p) := Receive(role, lim, inflight, wire, cap).outcome.value;
            var budget := lim.packetSize - HEADER_SIZE;
            (forall j :: 1 <= j < k ==> IndexBelowCount(wire[j], lim.packetSize))
            <==> (k - 1) * budget < |p| - |Data(wire[0], cap)| + budget
  {
    hide Receive, Continues, Data, IndexBelowCount, ChunkCount, BatchOk, DecodeHeader;
    var (h, p) := Receive(role, lim, inflight, wire, cap).outcome.value;
    var budget: nat := lim.packetSize - HEADER_SIZE;
    var remaining: nat := |p| - |Data(wire[0], cap)|;
    var count := ChunkCount(remaining, budget);
    forall j | 1 <= j < k
      ensures IndexBelowCount(wire[j], lim.packetSize) <==> j < count
    {
      ContinuesCarries(h, count, j, lim.packetSize, wire[j]);
    }
    ContinuesCarries(h, count, 1, lim.packetSize, wire[1]);
    assert wire[1..k][0] == wire[1];
    assert remaining > 0;
    assert IndexBelowCount(wire[k - 1], lim.packetSize) <==> k - 1 < count;
    LastIndexBelow(k - 1, remaining, budget);
  }

  lemma {:induction false} FrameAt(h: Header, count: u32, total: u32, ci: nat, ss: seq<seq<byte>>, j: nat)
    requires ci + |ss| <= U32_LIMIT && j < |ss| && forall s :: s in ss ==> |s| < U32_LIMIT
    ensures Frames(h, count, total, ci, ss)[j] == Frame(h, count, total, ci + j, ss[j])
    decreases j
  {
    hide Frame;
    if j > 0 {
      FrameAt(h, count, total, ci + 1, ss[1..], j - 1);
    }
  }

  lemma FrameIndex(h: Header, count: u32, total: u32, ci: u32, piece: seq<byte>, packetSize: nat)
    requires ci > 0 && 0 < |piece| < U32_LIMIT && HEADER_SIZE + |piece| <= packetSize
    ensures IndexBelowCount(Packet(Frame(h, count, total, ci, piece)), packetSize) <==> ci < count
  {
    hide ChunkBytes, DecodeChunk;
    ChunkRoundTrip(ChunkHeader(MAGIC_CHUNK, VERSION, 0, h.messageId, total, ci, count, |piece|), piece);
  }

  /** The same for a sender, before anything is on the wire: the packets of a cut obey the rule
      exactly when the number of pieces is the coarsest possible. */
  lemma CutObeysRuleExactlyWhen(sent: Header, count: u32, packetSize: nat, first: seq<byte>, ss: seq<seq<byte>>,
                                payload: seq<byte>)
    requires packetSize > HEADER_SIZE && Sendable(payload) && Cut(packetSize, first, ss, payload)
    requires count == ChunkCount(|payload| - |first|, packetSize - HEADER_SIZE)
    ensures var ps, budget := CutPackets(sent, count, packetSize, first, ss, payload), packetSize - HEADER_SIZE;
            && |ps| == 1 + |ss|
            && ((forall j :: 1 <= j < |ps| ==> IndexBelowCount(Packet(ps[j]), packetSize))
                <==> |ss| * budget < |payload| - |first| + budget)
  {
    hide Frame, Frames, Concat, IndexBelowCount, ChunkCount;
    var ps := CutPackets(sent, count, packetSize, first, ss, payload);
    forall j | 1 <= j < |ps|
      ensures IndexBelowCount(Packet(ps[j]), packetSize) <==> j < count
    {
      FrameAt(sent, count, HEADER_SIZE + |payload|, 1, ss, j - 1);
      FrameIndex(sent, count, HEADER_SIZE + |payload|, j, ss[j - 1], packetSize);
    }
    assert IndexBelowCount(Packet(ps[|ss|]), packetSize) <==> |ss| < count;
    LastIndexBelow(|ss|, |payload| - |first|, packetSize - HEADER_SIZE);
  }

  /** What this library's own sender puts on the wire obeys the rule. */
  lemma SenderObeysRule(h: Header, payload: seq<byte>, packetSize: nat, j: nat)
    requires packetSize > HEADER_SIZE && Sendable(payload)
    requires 1 <= j < |Packets(h, payload, packetSize)|
    ensures IndexBelowCount(Packet(Packets(h, payload, packetSize)[j]), packetSize)
  {
    hide Packets, Slices, Concat, Frame, Frames, IndexBelowCount, ChunkCount;
    PacketsSplit(h, payload, packetSize);
    SlicesShape(payload, packetSize - HEADER_SIZE);
    var ss := Slices(payload, packetSize - HEADER_SIZE);
    assert ss[1..][j - 1] == ss[j];
    FrameAt(h, |ss|, HEADER_SIZE + |payload|, 1, ss[1..], j - 1);
    FrameIndex(h, |ss|, HEADER_SIZE + |payload|, j, ss[j], packetSize);
  }

  lemma Scaled(a: nat, b: nat, m: nat)
    requires m > 0
    ensures a <= b ==> a * m <= m * b
    ensures a > b ==> a * m >= m * b + m
  {
    if a <= b {
      assert m * (b - a) >= 0;
    } else {
      assert m * (a - b - 1) >= 0;
    }
  }

  /** A message whose last accepted chunk has an index equal to its chunk count: four
      bytes sent one at a time over packets with room for two. */
  lemma IndexCanReachCount(b0: byte, b1: byte, b2: byte, b3: byte, id: u64, rest: seq<Arrival>)
    ensures var lim := Limits(4, 1, 4, 1, 34);
            var sent := Header(MAGIC_MSG, VERSION, HEADER_SIZE, KIND_REQUEST, 0, 0, 0, 4, 1, id);
            && ChunkCount(3, 2) == 3
            && Cut(34, [b0], [[b1], [b2], [b3]], [b0, b1, b2, b3])
            && Receive(Server, lim, {},
                       OnWire(CutPackets(sent, 3, 34, [b0], [[b1], [b2], [b3]], [b0, b1, b2, b3])) + rest, 34)
               == Received(Done((sent, [b0, b1, b2, b3])), rest, {})
            && !IndexBelowCount(Packet(CutPackets(sent, 3, 34, [b0], [[b1], [b2], [b3]], [b0, b1, b2, b3])[3]), 34)
  {
    hide Receive, OnWire, Frame, Frames, IndexBelowCount;
    var sent := Header(MAGIC_MSG, VERSION, HEADER_SIZE, KIND_REQUEST, 0, 0, 0, 4, 1, id);
    var ss: seq<seq<byte>> := [[b1], [b2], [b3]];
    var payload: seq<byte> := [b0, b1, b2, b3];
    assert ss[1..][1..] == [[b3]] && ss[1..][1..][1..] == [];
    assert Concat(ss[1..][1..]) == [b3];
    assert Concat(ss[1..]) == [b2] + [b3];
    assert Concat(ss) == [b1] + ([b2] + [b3]);
    assert [b0] + Concat(ss) == payload;
    assert Bits.And(0, 1) == 0;
    AnyCutAccepted(Server, Limits(4, 1, 4, 1, 34), {}, sent, 3, [b0], ss, payload, 34, rest);
    FrameAt(sent, 3, 36, 1, ss, 2);
    FrameIndex(sent, 3, 36, 3, [b3], 34);
  }
}
