/** The HELLO / HELLO_ACK handshake, both sides, and what it guarantees the session. */
module Handshake {
  import opened Wire
  import opened Envelope
  import opened Session
  import Bits

  const CODE_HELLO: u16 := 1
  const CODE_HELLO_ACK: u16 := 2

  const STATUS_OK: u16 := 0
  const STATUS_AUTH_FAILED: u16 := 2
  const STATUS_INCOMPATIBLE: u16 := 3
  const STATUS_UNSUPPORTED: u16 := 4
  const STATUS_LIMIT_EXCEEDED: u16 := 5

  const PROFILE_BASELINE: u32 := 1
  const MAX_PAYLOAD_DEFAULT: u32 := 1024
  const DEFAULT_BATCH_ITEMS: u32 := 1
  const HANDSHAKE_BUF: nat := 128

  datatype Config = Config(
    supportedProfiles: u32, preferredProfiles: u32,
    maxRequestPayloadBytes: u32, maxRequestBatchItems: u32,
    maxResponsePayloadBytes: u32, maxResponseBatchItems: u32,
    authToken: u64, packetSize: u32)

  datatype HandshakeError = AuthFailed | NoProfile | Incompatible | OverLimit | BadProtocol | Rejected(status: u16)

  datatype Verdict<+T> = Agreed(value: T) | Refused(error: HandshakeError)

  /** What a session knows once the handshake is over. */
  datatype Negotiated = Negotiated(lim: Limits, selectedProfile: u32, sessionId: u64)

  function ApplyDefault(v: u32, def: u32): u32
  {
    if v == 0 then def else v
  }

  function ControlHeader(code: u16, status: u16, payloadLen: u32): Header
  {
    Header(MAGIC_MSG, VERSION, HEADER_SIZE, KIND_CONTROL, 0, code, status, payloadLen, 1, 0)
  }

  // -------------------------------------------------------------------------
  //  Client: hello
  // -------------------------------------------------------------------------

  /** The HELLO a client proposes; `detected` is the socket's own packet size. */
  function ClientHello(c: Config, detected: u32): Hello
  {
    Hello(1, 0, ApplyDefault(c.supportedProfiles, PROFILE_BASELINE), c.preferredProfiles,
          ApplyDefault(c.maxRequestPayloadBytes, MAX_PAYLOAD_DEFAULT),
          ApplyDefault(c.maxRequestBatchItems, DEFAULT_BATCH_ITEMS),
          ApplyDefault(c.maxResponsePayloadBytes, MAX_PAYLOAD_DEFAULT),
          ApplyDefault(c.maxResponseBatchItems, DEFAULT_BATCH_ITEMS),
          c.authToken, ApplyDefault(c.packetSize, detected))
  }

  function HelloPacket(hello: Hello): (p: seq<byte>)
    ensures |p| == HEADER_SIZE + HELLO_SIZE
  {
    HeaderBytes(ControlHeader(CODE_HELLO, STATUS_OK, HELLO_SIZE)) + HelloBytes(hello)
  }

  // -------------------------------------------------------------------------
  //  Server
  // -------------------------------------------------------------------------

  function AckPacket(status: u16, ack: HelloAck): (p: seq<byte>)
    ensures |p| == HEADER_SIZE + HELLO_ACK_SIZE
  {
    HeaderBytes(ControlHeader(CODE_HELLO_ACK, status, HELLO_ACK_SIZE)) + HelloAckBytes(ack)
  }

  /** The empty acknowledgement that carries a rejection status. */
  const REJECTION: HelloAck := HelloAck(1, 0, 0, 0, 0, 0, 0, 0, 0, 0, 0)

  datatype ServerReply = ServerReply(reply: Option<seq<byte>>, verdict: Verdict<Negotiated>)

  function Reject(status: u16, e: HandshakeError): ServerReply
  {
    ServerReply(Some(AckPacket(status, REJECTION)), Refused(e))
  }

  function SelectProfile(hello: Hello, s: Config, intersection: u32): (p: u32)
  {
    var preferred := Bits.And(Bits.And(intersection, hello.preferredProfiles), s.preferredProfiles);
    if preferred != 0 then Bits.HighestBit(preferred) else Bits.HighestBit(intersection)
  }

  /** The server's decision on a decoded HELLO. */
  function Decide(s: Config, detected: u32, sessionId: u64, hello: Hello): (r: ServerReply)
  {
    var profiles := ApplyDefault(s.supportedProfiles, PROFILE_BASELINE);
    var intersection := Bits.And(hello.supportedProfiles, profiles);
    if intersection == 0 then Reject(STATUS_UNSUPPORTED, NoProfile)
    else if hello.authToken != s.authToken then Reject(STATUS_AUTH_FAILED, AuthFailed)
    else if hello.maxRequestPayloadBytes > ApplyDefault(s.maxRequestPayloadBytes, MAX_PAYLOAD_DEFAULT) then
      Reject(STATUS_LIMIT_EXCEEDED, OverLimit)
    else
      var serverPacket := ApplyDefault(s.packetSize, detected);
      var packet := if hello.packetSize <= serverPacket then hello.packetSize else serverPacket;
      if packet <= HEADER_SIZE then Reject(STATUS_INCOMPATIBLE, Incompatible)
      else
        var selected := SelectProfile(hello, s, intersection);
        var responsePayload := ApplyDefault(s.maxResponsePayloadBytes, MAX_PAYLOAD_DEFAULT);
        var lim := Limits(hello.maxRequestPayloadBytes, hello.maxRequestBatchItems,
                          responsePayload, hello.maxRequestBatchItems, packet);
        var ack := HelloAck(1, 0, profiles, intersection, selected,
                            lim.maxRequestPayload, lim.maxRequestItems,
                            lim.maxResponsePayload, lim.maxResponseItems, packet, sessionId);
        ServerReply(Some(AckPacket(STATUS_OK, ack)), Agreed(Negotiated(lim, selected, sessionId)))
  }

  /** The server's side, from the first packet it receives. */
  function ServerHandshake(s: Config, detected: u32, sessionId: u64, packet: seq<byte>): (r: ServerReply)
  {
    var buf := Clip(packet, HANDSHAKE_BUF);
    match DecodeHeader(buf)
    case Err(e) =>
      if e.BadVersion? && Get16(buf, 6) == HEADER_SIZE && Get16(buf, 8) == KIND_CONTROL && Get16(buf, 12) == CODE_HELLO
      then Reject(STATUS_INCOMPATIBLE, Incompatible)
      else ServerReply(None, Refused(BadProtocol))
    case Ok(h) =>
      if h.kind != KIND_CONTROL || h.code != CODE_HELLO then ServerReply(None, Refused(BadProtocol))
      else
        match DecodeHello(buf[HEADER_SIZE..])
        case Err(e) =>
          if e.BadLayout? && Get16(buf[HEADER_SIZE..], 0) != 1 then Reject(STATUS_INCOMPATIBLE, Incompatible)
          else ServerReply(None, Refused(BadProtocol))
        case Ok(hello) => Decide(s, detected, sessionId, hello)
  }

  // -------------------------------------------------------------------------
  //  Client: acknowledgement
  // -------------------------------------------------------------------------

  /** The client's side, from the acknowledgement packet it receives. */
  function ClientFinish(packet: seq<byte>): (r: Verdict<Negotiated>)
  {
    var buf := Clip(packet, HANDSHAKE_BUF);
    match DecodeHeader(buf)
    case Err(e) => Refused(if e.BadVersion? then Incompatible else BadProtocol)
    case Ok(h) =>
      if h.kind != KIND_CONTROL || h.code != CODE_HELLO_ACK then Refused(BadProtocol)
      else if h.transportStatus == STATUS_AUTH_FAILED then Refused(AuthFailed)
      else if h.transportStatus == STATUS_UNSUPPORTED then Refused(NoProfile)
      else if h.transportStatus == STATUS_INCOMPATIBLE then Refused(Incompatible)
      else if h.transportStatus == STATUS_LIMIT_EXCEEDED then Refused(OverLimit)
      else if h.transportStatus != STATUS_OK then Refused(Rejected(h.transportStatus))
      else if |buf| < HEADER_SIZE + HELLO_ACK_SIZE then Refused(BadProtocol)
      else
        match DecodeHelloAck(buf[HEADER_SIZE..])
        case Err(e) =>
          Refused(if e.BadLayout? && Get16(buf[HEADER_SIZE..], 0) != 1 then Incompatible else BadProtocol)
        case Ok(ack) =>
          if ack.agreedPacketSize <= HEADER_SIZE then Refused(BadProtocol)
          else
            Agreed(Negotiated(
              Limits(ack.agreedMaxRequestPayloadBytes, ack.agreedMaxRequestBatchItems,
                     ack.agreedMaxResponsePayloadBytes, ack.agreedMaxResponseBatchItems, ack.agreedPacketSize),
              ack.selectedProfile, ack.sessionId))
  }

  // -------------------------------------------------------------------------
  //  What the handshake guarantees
  // -------------------------------------------------------------------------

  /** The server reads exactly the hello the client sent. */
  lemma HelloArrives(s: Config, detected: u32, sessionId: u64, hello: Hello)
    requires hello.layoutVersion == 1
    ensures ServerHandshake(s, detected, sessionId, HelloPacket(hello)) == Decide(s, detected, sessionId, hello)
  {
    hide Decide, HeaderBytes, HelloBytes, DecodeHeader, DecodeHello;
    var p := HelloPacket(hello);
    HeaderRoundTrip(ControlHeader(CODE_HELLO, STATUS_OK, HELLO_SIZE), HelloBytes(hello));
    HelloRoundTrip(hello, []);
    assert p[HEADER_SIZE..] == HelloBytes(hello) == HelloBytes(hello) + [];
  }

  /** The client reads exactly the acknowledgement the server sent. */
  lemma AckArrives(status: u16, ack: HelloAck)
    requires ack.layoutVersion == 1 && ack.flags == 0
    ensures var p := AckPacket(status, ack);
            && DecodeHeader(Clip(p, HANDSHAKE_BUF)) == Ok(ControlHeader(CODE_HELLO_ACK, status, HELLO_ACK_SIZE))
            && Clip(p, HANDSHAKE_BUF) == p
            && DecodeHelloAck(p[HEADER_SIZE..]) == Ok(ack)
  {
    hide HeaderBytes, HelloAckBytes, DecodeHeader, DecodeHelloAck;
    var p := AckPacket(status, ack);
    HeaderRoundTrip(ControlHeader(CODE_HELLO_ACK, status, HELLO_ACK_SIZE), HelloAckBytes(ack));
    HelloAckRoundTrip(ack, []);
    assert p[HEADER_SIZE..] == HelloAckBytes(ack) == HelloAckBytes(ack) + [];
  }

  /** Whatever the server decides, it answers, and the client comes to the same verdict. */
  lemma SameVerdict(s: Config, detected: u32, sessionId: u64, hello: Hello)
    ensures var r := Decide(s, detected, sessionId, hello);
            r.reply.Some? && ClientFinish(r.reply.value) == r.verdict
  {
    hide DecodeHeader, DecodeHelloAck, AckPacket, SelectProfile, Clip, Get16;
    AckArrives(STATUS_UNSUPPORTED, REJECTION);
    AckArrives(STATUS_AUTH_FAILED, REJECTION);
    AckArrives(STATUS_LIMIT_EXCEEDED, REJECTION);
    AckArrives(STATUS_INCOMPATIBLE, REJECTION);
    var r := Decide(s, detected, sessionId, hello);
    if r.verdict.Agreed? {
      var n := r.verdict.value;
      var profiles := ApplyDefault(s.supportedProfiles, PROFILE_BASELINE);
      AckArrives(STATUS_OK, HelloAck(1, 0, profiles, Bits.And(hello.supportedProfiles, profiles), n.selectedProfile,
                                     n.lim.maxRequestPayload, n.lim.maxRequestItems,
                                     n.lim.maxResponsePayload, n.lim.maxResponseItems, n.lim.packetSize, sessionId));
    }
  }

  /** Both sides' profiles and preferences, as the server sees them. */
  function Shared(c: Config, s: Config): u32
  {
    Bits.And(ApplyDefault(c.supportedProfiles, PROFILE_BASELINE), ApplyDefault(s.supportedProfiles, PROFILE_BASELINE))
  }

  /** `bit` is a single bit of `mask`, and no bit of `mask` is higher. */
  ghost predicate TopBitOf(bit: nat, mask: nat)
  {
    Bits.IsPow2(bit) && Bits.And(bit, mask) == bit && mask < 2 * bit
  }

  function Smaller(a: u32, b: u32): u32
  {
    if a <= b then a else b
  }

  /** For every pair of configurations: the handshake succeeds exactly when profiles
      overlap, tokens match, the proposed request size is within the server's, and the
      smaller packet size exceeds a header; both sides then hold the same limits, each
      the client's proposal, the server's own value or the smaller of the two. If it
      fails, both sides report the same error. */
  lemma HandshakeAgreement(c: Config, s: Config, clientDetected: u32, serverDetected: u32, sessionId: u64)
    ensures var r := ServerHandshake(s, serverDetected, sessionId, HelloPacket(ClientHello(c, clientDetected)));
            && r.reply.Some? && ClientFinish(r.reply.value) == r.verdict
            && (r.verdict.Agreed? <==>
                  && Shared(c, s) != 0
                  && c.authToken == s.authToken
                  && ApplyDefault(c.maxRequestPayloadBytes, MAX_PAYLOAD_DEFAULT)
                     <= ApplyDefault(s.maxRequestPayloadBytes, MAX_PAYLOAD_DEFAULT)
                  && ApplyDefault(c.packetSize, clientDetected) > HEADER_SIZE
                  && ApplyDefault(s.packetSize, serverDetected) > HEADER_SIZE)
            && (r.verdict.Agreed? ==>
                  var n := r.verdict.value;
                  && n.lim.Usable()
                  && n.lim.packetSize == Smaller(ApplyDefault(c.packetSize, clientDetected),
                                                 ApplyDefault(s.packetSize, serverDetected))
                  && n.lim.maxRequestPayload == ApplyDefault(c.maxRequestPayloadBytes, MAX_PAYLOAD_DEFAULT)
                  && n.lim.maxResponsePayload == ApplyDefault(s.maxResponsePayloadBytes, MAX_PAYLOAD_DEFAULT)
                  && n.lim.maxRequestItems == n.lim.maxResponseItems
                     == ClientHello(c, clientDetected).maxRequestBatchItems
                  && n.sessionId == sessionId
                  && var both := Bits.And(Bits.And(Shared(c, s), c.preferredProfiles), s.preferredProfiles);
                  && TopBitOf(n.selectedProfile, if both != 0 then both else Shared(c, s)))
  {
    hide DecodeHeader, DecodeHello, HelloPacket, AckPacket, ClientFinish, ServerHandshake;
    var hello := ClientHello(c, clientDetected);
    HelloArrives(s, serverDetected, sessionId, hello);
    SameVerdict(s, serverDetected, sessionId, hello);
    var both := Bits.And(Bits.And(Shared(c, s), c.preferredProfiles), s.preferredProfiles);
    if both != 0 {
      Bits.HighestBitMeaning(both);
    } else if Shared(c, s) != 0 {
      Bits.HighestBitMeaning(Shared(c, s));
    }
  }

  /** After a successful handshake, every message either side may send under its limits
      is received whole by the other. */
  lemma NegotiatedSessionDelivers(c: Config, s: Config, clientDetected: u32, serverDetected: u32, sessionId: u64,
                                  receiver: Role, inflight: set<u64>, h: Header, payload: seq<byte>, rest: seq<Arrival>)
    requires var v := ServerHandshake(s, serverDetected, sessionId,
                                      HelloPacket(ClientHello(c, clientDetected))).verdict;
             v.Agreed? && Deliverable(receiver, v.value.lim, inflight, h, payload)
    ensures var n := ServerHandshake(s, serverDetected, sessionId,
                                     HelloPacket(ClientHello(c, clientDetected))).verdict.value;
            && n.lim.Usable() && Sendable(payload)
            && Receive(receiver, n.lim, inflight,
                       OnWire(Packets(Filled(h, |payload|), payload, n.lim.packetSize)) + rest, n.lim.packetSize)
               == Received(Done((Filled(h, |payload|), payload)), rest, Settled(receiver, inflight, h))
  {
    hide ServerHandshake, HelloPacket, ClientFinish, Receive, Packets, BatchOk;
    HandshakeAgreement(c, s, clientDetected, serverDetected, sessionId);
    var n := ServerHandshake(s, serverDetected, sessionId, HelloPacket(ClientHello(c, clientDetected))).verdict.value;
    SendReceive(receiver, n.lim, inflight, h, payload, n.lim.packetSize, rest);
  }
}
