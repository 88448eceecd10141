/** The session object: loops that put packets on the link and reassemble them. */
module UdsSessions {
  import opened Wire
  import opened Envelope
  import opened Session

  /** Raw send `k` of a call is the first to fail, after all earlier ones succeeded. */
  predicate FailsFirstAt(link: nat -> bool, k: nat)
  {
    !link(k) && forall j: nat :: j < k ==> link(j)
  }

  /** The payload bytes from `offset` on are what frames `ci` and later still carry. */
  ghost predicate Pending(h: Header, payload: seq<byte>, packetSize: nat, count: nat, ci: nat, offset: nat)
    requires packetSize > HEADER_SIZE && Sendable(payload)
  {
    var all := Packets(h, payload, packetSize);
    && count == |all| < U32_LIMIT && 1 <= ci <= count && offset <= |payload|
    && (ci == count <==> offset == |payload|)
    && (ci < count ==>
          var ss := Slices(payload[offset..], packetSize - HEADER_SIZE);
          && ci + |ss| == count
          && (forall s :: s in ss ==> |s| < U32_LIMIT)
          && all[ci..] == Frames(h, count, HEADER_SIZE + |payload|, ci, ss))
  }

  lemma PendingStart(h: Header, payload: seq<byte>, packetSize: nat)
    requires packetSize > HEADER_SIZE && Sendable(payload) && HEADER_SIZE + |payload| > packetSize
    ensures var budget := packetSize - HEADER_SIZE;
            var all := Packets(h, payload, packetSize);
            && |all| == ChunkCount(|payload| - budget, budget)
            && all[0] == HeaderBytes(h) + payload[..budget]
            && Pending(h, payload, packetSize, |all|, 1, budget)
  {
    hide Frames, Frame, Packets, ChunkCount, Slices, HeaderBytes, Concat;
    var budget := packetSize - HEADER_SIZE;
    PacketsSplit(h, payload, packetSize);
    SlicesShape(payload, budget);
    var ss := Slices(payload, budget);
    SlicesTail(payload, budget);
    var all := Packets(h, payload, packetSize);
    FrameZero(h, |ss|, HEADER_SIZE + |payload|, ss[0]);
    assert all[1..] == Frames(h, |ss|, HEADER_SIZE + |payload|, 1, ss[1..]);
    assert forall s :: s in ss[1..] ==> s in ss;
  }

  lemma SlicesTail(payload: seq<byte>, budget: nat)
    requires 0 < budget < |payload|
    ensures Slices(payload, budget)[0] == payload[..budget]
    ensures Slices(payload, budget)[1..] == Slices(payload[budget..], budget)
  {
  }

  lemma FrameZero(h: Header, count: u32, total: u32, piece: seq<byte>)
    requires |piece| < U32_LIMIT
    ensures Frame(h, count, total, 0, piece) == HeaderBytes(h) + piece
  {
  }

  /** Sending the next frame. */
  lemma PendingStep(h: Header, payload: seq<byte>, packetSize: nat, count: u32, ci: u32, offset: nat)
    requires packetSize > HEADER_SIZE && Sendable(payload)
    requires Pending(h, payload, packetSize, count, ci, offset) && ci < count
    ensures var budget := packetSize - HEADER_SIZE;
            var size := if |payload| - offset <= budget then |payload| - offset else budget;
            && |Packets(h, payload, packetSize)| == count
            && Packets(h, payload, packetSize)[ci]
               == ChunkBytes(ChunkHeader(MAGIC_CHUNK, VERSION, 0, h.messageId, HEADER_SIZE + |payload|, ci, count,
                                         size))
                  + payload[offset..offset + size]
            && Pending(h, payload, packetSize, count, ci + 1, offset + size)
  {
    hide Packets, ChunkBytes, Slices, Frames;
    var budget, all := packetSize - HEADER_SIZE, Packets(h, payload, packetSize);
    var left := payload[offset..];
    var ss := Slices(left, budget);
    SlicesUnfold(left, budget);
    FramesUnfold(h, count, HEADER_SIZE + |payload|, ci, ss);
    assert all[ci] == all[ci..][0];
    if |left| > budget {
      assert ss[1..] == Slices(left[budget..], budget);
      assert left[budget..] == payload[offset + budget..];
      assert all[ci + 1..] == all[ci..][1..];
      assert left[..budget] == payload[offset..offset + budget];
    } else {
      assert left == payload[offset..offset + |left|];
    }
  }

  class UdsSession {
    const role: Role
    const lim: Limits
    var inflight: set<u64>   // ids of requests not yet answered, client side only
    var recvBuf: seq<byte>   // reassembly buffer, kept between messages

    constructor (role: Role, lim: Limits)
      ensures this.role == role && this.lim == lim && inflight == {}
    {
      this.role, this.lim := role, lim;
      inflight, recvBuf := {}, [];
    }

    /** Cuts the message into packets and sends them in order; `link` says which raw
        sends succeed. */
    static method SendInner(h: Header, payload: seq<byte>, packetSize: nat, link: nat -> bool)
      returns (ok: bool, packets: seq<seq<byte>>)
      requires packetSize > HEADER_SIZE && Sendable(payload)
      ensures ok ==> packets == Packets(h, payload, packetSize) && forall k: nat :: k < |packets| ==> link(k)
      ensures !ok ==> |packets| < |Packets(h, payload, packetSize)|
                      && packets == Packets(h, payload, packetSize)[..|packets|] && FailsFirstAt(link, |packets|)
    {
      hide Packets, Pending, ChunkBytes, HeaderBytes, ChunkCount;
      ghost var all := Packets(h, payload, packetSize);
      if HEADER_SIZE + |payload| <= packetSize {
        SinglePacket(h, payload, packetSize);
        if !link(0) {
          return false, [];
        }
        return true, [HeaderBytes(h) + payload];
      }
      var budget := packetSize - HEADER_SIZE;
      PendingStart(h, payload, packetSize);
      var chunkCount := ChunkCount(|payload| - budget, budget);
      CountFits(h, payload, packetSize, budget);
      packets := [];
      if !link(0) {
        return false, [];
      }
      packets := [HeaderBytes(h) + payload[..budget]];
      var offset: nat := budget;
      for ci := 1 to chunkCount
        invariant |all| == chunkCount
        invariant Pending(h, payload, packetSize, chunkCount, ci, offset)
        invariant packets == all[..ci]
        invariant forall k: nat :: k < ci ==> link(k)
      {
        PendingBounds(h, payload, packetSize, chunkCount, ci, offset);
        PendingStep(h, payload, packetSize, chunkCount, ci, offset);
        var remaining := |payload| - offset;
        var thisChunk := if remaining <= budget then remaining else budget;
        var chk := ChunkHeader(MAGIC_CHUNK, VERSION, 0, h.messageId, HEADER_SIZE + |payload|, ci, chunkCount,
                               thisChunk);
        if !link(ci) {
          return false, packets;
        }
        packets := packets + [ChunkBytes(chk) + payload[offset..offset + thisChunk]];
        offset := offset + thisChunk;
      }
      return true, packets;
    }

    /** Sends one message. Nothing reaches the link for a message outside the limits or
        a request id already in flight; a failed raw send makes a client forget every
        in-flight id. */
    method Send(h: Header, payload: seq<byte>, link: nat -> bool) returns (r: Outcome<Header>, packets: seq<seq<byte>>)
      requires lim.Usable()
      modifies this`inflight
      ensures var tracked := role.Client? && h.kind == KIND_REQUEST;
              if |payload| > lim.MaxPayloadSent(role) || !Sendable(payload) || h.itemCount > lim.MaxItemsSent(role) then
                r == Fail(LimitExceeded) && packets == [] && inflight == old(inflight)
              else if tracked && h.messageId in old(inflight) then
                r == Fail(DuplicateMsgId(h.messageId)) && packets == [] && inflight == old(inflight)
              else
                var all := Packets(Filled(h, |payload|), payload, lim.packetSize);
                if forall k: nat :: k < |all| ==> link(k) then
                  && r == Done(Filled(h, |payload|)) && packets == all
                  && inflight == if tracked then old(inflight) + {h.messageId} else old(inflight)
                else
                  && r == Fail(SendFailed)
                  && |packets| < |all| && packets == all[..|packets|] && FailsFirstAt(link, |packets|)
                  && inflight == if tracked then {} else old(inflight)
    {
      hide Packets;
      if |payload| > lim.MaxPayloadSent(role) || HEADER_SIZE + |payload| >= U32_LIMIT {
        return Fail(LimitExceeded), [];
      }
      if h.itemCount > lim.MaxItemsSent(role) {
        return Fail(LimitExceeded), [];
      }
      var tracked := role.Client? && h.kind == KIND_REQUEST;
      if tracked {
        if h.messageId in inflight {
          return Fail(DuplicateMsgId(h.messageId)), [];
        }
        inflight := inflight + {h.messageId};
      }
      var sent := Filled(h, |payload|);
      var ok;
      ok, packets := SendInner(sent, payload, lim.packetSize, link);
      if !ok {
        if tracked {
          inflight := {};
        }
        return Fail(SendFailed), packets;
      }
      return Done(sent), packets;
    }

    /** Receives one message into a caller buffer of `cap` bytes, or into the session's
        own buffer when it comes in chunks. Whatever that buffer held before, the
        result is the one `Receive` defines. */
    method ReceiveMessage(wire: seq<Arrival>, cap: nat)
      returns (outcome: Outcome<(Header, seq<byte>)>, rest: seq<Arrival>)
      requires lim.Usable()
      modifies this
      ensures Received(outcome, rest, inflight) == Receive(role, lim, old(inflight), wire, cap)
    {
      hide DecodeHeader, Assemble, BatchOk, ChunkData;
      if wire == [] {
        inflight := Forgotten(role, inflight);
        return Fail(RecvFailed), [];
      }
      rest := wire[1..];
      if wire[0].Broken? || Clip(wire[0].bytes, cap) == [] {
        inflight := Forgotten(role, inflight);
        return Fail(RecvFailed), rest;
      }
      var pkt := Clip(wire[0].bytes, cap);
      if |pkt| < HEADER_SIZE {
        return Fail(ProtocolError), rest;
      }
      var decoded := DecodeHeader(pkt);
      if decoded.Err? {
        return Fail(ProtocolError), rest;
      }
      var h := decoded.value;
      if h.payloadLen > lim.MaxPayloadSent(Peer(role)) || h.itemCount > lim.MaxItemsSent(Peer(role)) {
        return Fail(LimitExceeded), rest;
      }
      if role.Client? && h.kind == KIND_RESPONSE {
        if h.messageId !in inflight {
          return Fail(UnknownMsgId(h.messageId)), rest;
        }
        inflight := inflight - {h.messageId};
      }
      outcome, rest := ReceiveBody(h, pkt, rest);
    }

    method ReceiveBody(h: Header, pkt: seq<byte>, wire: seq<Arrival>)
      returns (outcome: Outcome<(Header, seq<byte>)>, rest: seq<Arrival>)
      requires lim.Usable() && |pkt| >= HEADER_SIZE
      modifies this
      ensures Received(outcome, rest, inflight) == Body(role, lim, old(inflight), h, pkt, wire)
    {
      hide Assemble, BatchOk, ChunkCount;
      rest := wire;
      var total: nat := HEADER_SIZE + h.payloadLen;
      if total >= U32_LIMIT || |pkt| > total {
        return Fail(ProtocolError), rest;
      }
      if |pkt| == total {
        outcome := Checked(h, pkt[HEADER_SIZE..]);
        return;
      }
      var first := |pkt| - HEADER_SIZE;
      if |recvBuf| < h.payloadLen {
        recvBuf := recvBuf + Zeros(h.payloadLen - |recvBuf|);
      }
      recvBuf := Splice(recvBuf, 0, pkt[HEADER_SIZE..]);
      assert recvBuf[..first] == pkt[HEADER_SIZE..];
      var count := ChunkCount(h.payloadLen - first, lim.packetSize - HEADER_SIZE);
      var error;
      error, rest := ReceiveChunks(h, count, first, wire);
      if error.Fail? {
        if error.error.RecvFailed? {
          inflight := Forgotten(role, inflight);
        }
        return Fail(error.error), rest;
      }
      outcome := Checked(h, recvBuf[..h.payloadLen]);
    }

    /** The reassembly loop. */
    method ReceiveChunks(h: Header, count: nat, first: nat, wire: seq<Arrival>)
      returns (r: Outcome<()>, rest: seq<Arrival>)
      requires first <= h.payloadLen <= |recvBuf|
      modifies this`recvBuf
      ensures |recvBuf| == old(|recvBuf|)
      ensures var a := Assemble(h, lim.packetSize, count, 1, old(recvBuf)[..first], wire);
              && rest == a.rest
              && (r.Done? <==> a.outcome.Done?)
              && (r.Done? ==> recvBuf[..h.payloadLen] == a.outcome.value)
              && (r.Fail? ==> a.outcome == Fail(r.error))
    {
      hide ChunkData;
      var assembled: nat, ci: nat := first, 1;
      rest := wire;
      ghost var a := Assemble(h, lim.packetSize, count, 1, recvBuf[..first], wire);
      while assembled < h.payloadLen
        invariant assembled <= h.payloadLen <= |recvBuf| == old(|recvBuf|)
        invariant Assemble(h, lim.packetSize, count, ci, recvBuf[..assembled], rest) == a
        decreases |rest|
      {
        if rest == [] {
          return Fail(RecvFailed), [];
        }
        var arrival := rest[0];
        rest := rest[1..];
        if arrival.Broken? || arrival.bytes == [] {
          return Fail(RecvFailed), rest;
        }
        var data := ChunkData(h, count, ci, assembled, Clip(arrival.bytes, lim.packetSize));
        if data.Fail? {
          return Fail(data.error), rest;
        }
        ghost var b := recvBuf;
        recvBuf := Splice(recvBuf, assembled, data.value);
        assert recvBuf[..assembled + |data.value|] == b[..assembled] + data.value;
        assembled := assembled + |data.value|;
        ci := ci + 1;
      }
      return Done(()), rest;
    }
  }

  lemma SinglePacket(h: Header, payload: seq<byte>, packetSize: nat)
    requires packetSize > HEADER_SIZE && HEADER_SIZE + |payload| <= packetSize && Sendable(payload)
    ensures Packets(h, payload, packetSize) == [HeaderBytes(h) + payload]
  {
    hide HeaderBytes;
    PacketsSplit(h, payload, packetSize);
    SlicesShape(payload, packetSize - HEADER_SIZE);
  }

  lemma PendingBounds(h: Header, payload: seq<byte>, packetSize: nat, count: nat, ci: nat, offset: nat)
    requires packetSize > HEADER_SIZE && Sendable(payload)
    requires Pending(h, payload, packetSize, count, ci, offset)
    ensures 1 <= ci <= count < U32_LIMIT && offset <= |payload|
  {
  }

  lemma CountFits(h: Header, payload: seq<byte>, packetSize: nat, budget: nat)
    requires packetSize > HEADER_SIZE && Sendable(payload) && budget == packetSize - HEADER_SIZE < |payload|
    ensures 1 <= ChunkCount(|payload| - budget, budget) < U32_LIMIT
  {
    SlicesShape(payload, budget);
    SlicesFitU32(payload, budget);
  }
}
