/** The outer message header, the chunk continuation header and the handshake payloads. */
module Envelope {
  import opened Wire

  const MAGIC_MSG: u32 := 0x4e495043
  const MAGIC_CHUNK: u32 := 0x4e43484b
  const VERSION: u16 := 1
  const HEADER_SIZE: nat := 32
  const KIND_REQUEST: u16 := 1
  const KIND_RESPONSE: u16 := 2
  const KIND_CONTROL: u16 := 3
  const HELLO_SIZE: nat := 44
  const HELLO_ACK_SIZE: nat := 48

  /** Writes an encoded record at the front of `buf`, or returns 0 if it does not fit. */
  method EncodeInto(record: seq<byte>, buf: array<byte>) returns (n: nat)
    modifies buf
    ensures buf.Length < |record| ==> n == 0 && buf[..] == old(buf[..])
    ensures buf.Length >= |record| ==> n == |record| && buf[..] == Splice(old(buf[..]), 0, record)
  {
    if buf.Length < |record| {
      return 0;
    }
    Put(buf, 0, record);
    return |record|;
  }

  // -------------------------------------------------------------------------
  //  Outer message header
  // -------------------------------------------------------------------------

  datatype Header = Header(
    magic: u32, version: u16, headerLen: u16, kind: u16, flags: u16, code: u16, transportStatus: u16,
    payloadLen: u32, itemCount: u32, messageId: u64)

  function HeaderBytes(h: Header): (b: seq<byte>)
    ensures |b| == HEADER_SIZE
  {
    (U32(h.magic) + U16(h.version) + U16(h.headerLen))
    + (U16(h.kind) + U16(h.flags) + U16(h.code) + U16(h.transportStatus))
    + (U32(h.payloadLen) + U32(h.itemCount) + U64(h.messageId))
  }

  function DecodeHeader(buf: seq<byte>): (r: Result<Header>)
  {
    if |buf| < HEADER_SIZE then Err(Truncated)
    else
      var h := Header(Get32(buf, 0), Get16(buf, 4), Get16(buf, 6), Get16(buf, 8), Get16(buf, 10), Get16(buf, 12),
                      Get16(buf, 14), Get32(buf, 16), Get32(buf, 20), Get64(buf, 24));
      if h.magic != MAGIC_MSG then Err(BadMagic)
      else if h.version != VERSION then Err(BadVersion)
      else if h.headerLen != HEADER_SIZE then Err(BadHeaderLen)
      else if h.kind < KIND_REQUEST || h.kind > KIND_CONTROL then Err(BadKind)
      else Ok(h)
  }

  predicate WellFormed(h: Header)
  {
    && h.magic == MAGIC_MSG && h.version == VERSION && h.headerLen == HEADER_SIZE
    && KIND_REQUEST <= h.kind <= KIND_CONTROL
  }

  /** Encoded headers decode to themselves exactly when they are well formed. */
  lemma HeaderRoundTrip(h: Header, rest: seq<byte>)
    ensures DecodeHeader(HeaderBytes(h) + rest).Ok? <==> WellFormed(h)
    ensures WellFormed(h) ==> DecodeHeader(HeaderBytes(h) + rest) == Ok(h)
  {
    hide U16, U32, U64, Get16, Get32, Get64, Val, LE, Pow256;
    var b := HeaderBytes(h) + rest;
    assert b[..HEADER_SIZE] == HeaderBytes(h);
    SplitThree(b, 0, U32(h.magic) + U16(h.version) + U16(h.headerLen),
               U16(h.kind) + U16(h.flags) + U16(h.code) + U16(h.transportStatus),
               U32(h.payloadLen) + U32(h.itemCount) + U64(h.messageId));
    SplitThree(b, 0, U32(h.magic), U16(h.version), U16(h.headerLen));
    SplitFour(b, 8, U16(h.kind), U16(h.flags), U16(h.code), U16(h.transportStatus));
    SplitThree(b, 16, U32(h.payloadLen), U32(h.itemCount), U64(h.messageId));
    Reads32(b, 0, h.magic);
    Reads16(b, 4, h.version);
    Reads16(b, 6, h.headerLen);
    Reads16(b, 8, h.kind);
    Reads16(b, 10, h.flags);
    Reads16(b, 12, h.code);
    Reads16(b, 14, h.transportStatus);
    Reads32(b, 16, h.payloadLen);
    Reads32(b, 20, h.itemCount);
    Reads64(b, 24, h.messageId);
  }

  /** Every accepted header is the encoding of what it decodes to. */
  lemma HeaderReencodes(b: seq<byte>)
    requires DecodeHeader(b).Ok?
    ensures WellFormed(DecodeHeader(b).value)
    ensures HeaderBytes(DecodeHeader(b).value) == b[..HEADER_SIZE]
  {
    hide U16, U32, U64, Get16, Get32, Get64, Val, LE, Pow256;
    Rewrite32(b, 0);
    Rewrite16(b, 4);
    Rewrite16(b, 6);
    Rewrite16(b, 8);
    Rewrite16(b, 10);
    Rewrite16(b, 12);
    Rewrite16(b, 14);
    Rewrite32(b, 16);
    Rewrite32(b, 20);
    Rewrite64(b, 24);
    JoinThree(b, 0, 4, 6, 8);
    JoinFour(b, 8, 10, 12, 14, 16);
    JoinThree(b, 16, 20, 24, 32);
    JoinThree(b, 0, 8, 16, 32);
  }

  // -------------------------------------------------------------------------
  //  Chunk continuation header
  // -------------------------------------------------------------------------

  datatype ChunkHeader = ChunkHeader(
    magic: u32, version: u16, flags: u16, messageId: u64, totalMessageLen: u32,
    chunkIndex: u32, chunkCount: u32, chunkPayloadLen: u32)

  function ChunkBytes(c: ChunkHeader): (b: seq<byte>)
    ensures |b| == HEADER_SIZE
  {
    (U32(c.magic) + U16(c.version) + U16(c.flags) + U64(c.messageId))
    + (U32(c.totalMessageLen) + U32(c.chunkIndex) + U32(c.chunkCount) + U32(c.chunkPayloadLen))
  }

  function DecodeChunk(buf: seq<byte>): (r: Result<ChunkHeader>)
  {
    if |buf| < HEADER_SIZE then Err(Truncated)
    else
      var c := ChunkHeader(Get32(buf, 0), Get16(buf, 4), Get16(buf, 6), Get64(buf, 8), Get32(buf, 16),
                           Get32(buf, 20), Get32(buf, 24), Get32(buf, 28));
      if c.magic != MAGIC_CHUNK then Err(BadMagic)
      else if c.version != VERSION then Err(BadVersion)
      else if c.flags != 0 then Err(BadLayout)
      else if c.chunkPayloadLen == 0 then Err(BadLayout)
      else Ok(c)
  }

  predicate WellFormedChunk(c: ChunkHeader)
  {
    c.magic == MAGIC_CHUNK && c.version == VERSION && c.flags == 0 && c.chunkPayloadLen != 0
  }

  lemma ChunkRoundTrip(c: ChunkHeader, rest: seq<byte>)
    ensures DecodeChunk(ChunkBytes(c) + rest).Ok? <==> WellFormedChunk(c)
    ensures WellFormedChunk(c) ==> DecodeChunk(ChunkBytes(c) + rest) == Ok(c)
  {
    hide U16, U32, U64, Get16, Get32, Get64, Val, LE, Pow256;
    var b := ChunkBytes(c) + rest;
    assert b[..HEADER_SIZE] == ChunkBytes(c);
    SplitTwo(b, 0, U32(c.magic) + U16(c.version) + U16(c.flags) + U64(c.messageId),
             U32(c.totalMessageLen) + U32(c.chunkIndex) + U32(c.chunkCount) + U32(c.chunkPayloadLen));
    SplitFour(b, 0, U32(c.magic), U16(c.version), U16(c.flags), U64(c.messageId));
    SplitFour(b, 16, U32(c.totalMessageLen), U32(c.chunkIndex), U32(c.chunkCount), U32(c.chunkPayloadLen));
    Reads32(b, 0, c.magic);
    Reads16(b, 4, c.version);
    Reads16(b, 6, c.flags);
    Reads64(b, 8, c.messageId);
    Reads32(b, 16, c.totalMessageLen);
    Reads32(b, 20, c.chunkIndex);
    Reads32(b, 24, c.chunkCount);
    Reads32(b, 28, c.chunkPayloadLen);
  }

  lemma ChunkReencodes(b: seq<byte>)
    requires DecodeChunk(b).Ok?
    ensures WellFormedChunk(DecodeChunk(b).value)
    ensures ChunkBytes(DecodeChunk(b).value) == b[..HEADER_SIZE]
  {
    hide U16, U32, U64, Get16, Get32, Get64, Val, LE, Pow256;
    Rewrite32(b, 0);
    Rewrite16(b, 4);
    Rewrite16(b, 6);
    Rewrite64(b, 8);
    Rewrite32(b, 16);
    Rewrite32(b, 20);
    Rewrite32(b, 24);
    Rewrite32(b, 28);
    JoinFour(b, 0, 4, 6, 8, 16);
    JoinFour(b, 16, 20, 24, 28, 32);
    Joined(b, 0, 16, 32, b[0..16], b[16..32]);
  }

  /** A packet is never both a message header and a chunk continuation. */
  lemma NeverBothKinds(b: seq<byte>)
    ensures !(DecodeHeader(b).Ok? && DecodeChunk(b).Ok?)
  {
    hide Get16, Get32, Get64;
  }

  // -------------------------------------------------------------------------
  //  Hello
  // -------------------------------------------------------------------------

  datatype Hello = Hello(
    layoutVersion: u16, flags: u16, supportedProfiles: u32, preferredProfiles: u32,
    maxRequestPayloadBytes: u32, maxRequestBatchItems: u32,
    maxResponsePayloadBytes: u32, maxResponseBatchItems: u32,
    authToken: u64, packetSize: u32)

  function HelloBytes(h: Hello): (b: seq<byte>)
    ensures |b| == HELLO_SIZE
  {
    (U16(h.layoutVersion) + U16(h.flags) + U32(h.supportedProfiles) + U32(h.preferredProfiles))
    + (U32(h.maxRequestPayloadBytes) + U32(h.maxRequestBatchItems) + U32(h.maxResponsePayloadBytes)
       + U32(h.maxResponseBatchItems))
    + (U32(0) + U64(h.authToken) + U32(h.packetSize))
  }

  function DecodeHello(buf: seq<byte>): (r: Result<Hello>)
  {
    if |buf| < HELLO_SIZE then Err(Truncated)
    else
      var h := Hello(Get16(buf, 0), Get16(buf, 2), Get32(buf, 4), Get32(buf, 8), Get32(buf, 12), Get32(buf, 16),
                     Get32(buf, 20), Get32(buf, 24), Get64(buf, 32), Get32(buf, 40));
      if h.layoutVersion != 1 then Err(BadLayout)
      else if Get32(buf, 28) != 0 then Err(BadLayout)
      else Ok(h)
  }

  lemma HelloRoundTrip(h: Hello, rest: seq<byte>)
    ensures DecodeHello(HelloBytes(h) + rest).Ok? <==> h.layoutVersion == 1
    ensures h.layoutVersion == 1 ==> DecodeHello(HelloBytes(h) + rest) == Ok(h)
  {
    hide U16, U32, U64, Get16, Get32, Get64, Val, LE, Pow256;
    var b := HelloBytes(h) + rest;
    assert b[..HELLO_SIZE] == HelloBytes(h);
    SplitThree(b, 0, U16(h.layoutVersion) + U16(h.flags) + U32(h.supportedProfiles) + U32(h.preferredProfiles),
               U32(h.maxRequestPayloadBytes) + U32(h.maxRequestBatchItems) + U32(h.maxResponsePayloadBytes)
               + U32(h.maxResponseBatchItems),
               U32(0) + U64(h.authToken) + U32(h.packetSize));
    SplitFour(b, 0, U16(h.layoutVersion), U16(h.flags), U32(h.supportedProfiles), U32(h.preferredProfiles));
    SplitFour(b, 12, U32(h.maxRequestPayloadBytes), U32(h.maxRequestBatchItems), U32(h.maxResponsePayloadBytes),
              U32(h.maxResponseBatchItems));
    SplitThree(b, 28, U32(0), U64(h.authToken), U32(h.packetSize));
    Reads16(b, 0, h.layoutVersion);
    Reads16(b, 2, h.flags);
    Reads32(b, 4, h.supportedProfiles);
    Reads32(b, 8, h.preferredProfiles);
    Reads32(b, 12, h.maxRequestPayloadBytes);
    Reads32(b, 16, h.maxRequestBatchItems);
    Reads32(b, 20, h.maxResponsePayloadBytes);
    Reads32(b, 24, h.maxResponseBatchItems);
    Reads32(b, 28, 0);
    Reads64(b, 32, h.authToken);
    Reads32(b, 40, h.packetSize);
  }

  lemma HelloReencodes(b: seq<byte>)
    requires DecodeHello(b).Ok?
    ensures HelloBytes(DecodeHello(b).value) == b[..HELLO_SIZE]
  {
    hide U16, U32, U64, Get16, Get32, Get64, Val, LE, Pow256;
    Rewrite16(b, 0);
    Rewrite16(b, 2);
    Rewrite32(b, 4);
    Rewrite32(b, 8);
    Rewrite32(b, 12);
    Rewrite32(b, 16);
    Rewrite32(b, 20);
    Rewrite32(b, 24);
    Rewrite32(b, 28);
    Rewrite64(b, 32);
    Rewrite32(b, 40);
    JoinFour(b, 0, 2, 4, 8, 12);
    JoinFour(b, 12, 16, 20, 24, 28);
    JoinThree(b, 28, 32, 40, 44);
    JoinThree(b, 0, 12, 28, 44);
  }

  // -------------------------------------------------------------------------
  //  Hello-ack
  // -------------------------------------------------------------------------

  datatype HelloAck = HelloAck(
    layoutVersion: u16, flags: u16, serverSupportedProfiles: u32, intersectionProfiles: u32, selectedProfile: u32,
    agreedMaxRequestPayloadBytes: u32, agreedMaxRequestBatchItems: u32,
    agreedMaxResponsePayloadBytes: u32, agreedMaxResponseBatchItems: u32,
    agreedPacketSize: u32, sessionId: u64)

  /** The fields in front of the padding. */
  function HelloAckFront(h: HelloAck): (b: seq<byte>)
    ensures |b| == 36
  {
    (U16(h.layoutVersion) + U16(h.flags) + U32(h.serverSupportedProfiles) + U32(h.intersectionProfiles))
    + (U32(h.selectedProfile) + U32(h.agreedMaxRequestPayloadBytes) + U32(h.agreedMaxRequestBatchItems))
    + (U32(h.agreedMaxResponsePayloadBytes) + U32(h.agreedMaxResponseBatchItems) + U32(h.agreedPacketSize))
  }

  function HelloAckBytes(h: HelloAck): (b: seq<byte>)
    ensures |b| == HELLO_ACK_SIZE
  {
    HelloAckFront(h) + (U32(0) + U64(h.sessionId))
  }

  function DecodeHelloAck(buf: seq<byte>): (r: Result<HelloAck>)
  {
    if |buf| < HELLO_ACK_SIZE then Err(Truncated)
    else
      var h := HelloAck(Get16(buf, 0), Get16(buf, 2), Get32(buf, 4), Get32(buf, 8), Get32(buf, 12), Get32(buf, 16),
                        Get32(buf, 20), Get32(buf, 24), Get32(buf, 28), Get32(buf, 32), Get64(buf, 40));
      if h.layoutVersion != 1 then Err(BadLayout)
      else if h.flags != 0 then Err(BadLayout)
      else Ok(h)
  }

  /** The decoder reads every field and skips the four padding bytes, whatever they are. */
  lemma HelloAckIgnoresPadding(h: HelloAck, pad: seq<byte>, rest: seq<byte>)
    requires |pad| == 4
    ensures var b := HelloAckFront(h) + (pad + U64(h.sessionId)) + rest;
            && (DecodeHelloAck(b).Ok? <==> h.layoutVersion == 1 && h.flags == 0)
            && (DecodeHelloAck(b).Ok? ==> DecodeHelloAck(b) == Ok(h))
  {
    hide U16, U32, U64, Get16, Get32, Get64, Val, LE, Pow256;
    var b := HelloAckFront(h) + (pad + U64(h.sessionId)) + rest;
    assert b[..HELLO_ACK_SIZE] == HelloAckFront(h) + (pad + U64(h.sessionId));
    SplitTwo(b, 0, HelloAckFront(h), pad + U64(h.sessionId));
    SplitThree(b, 0, U16(h.layoutVersion) + U16(h.flags) + U32(h.serverSupportedProfiles) + U32(h.intersectionProfiles),
               U32(h.selectedProfile) + U32(h.agreedMaxRequestPayloadBytes) + U32(h.agreedMaxRequestBatchItems),
               U32(h.agreedMaxResponsePayloadBytes) + U32(h.agreedMaxResponseBatchItems) + U32(h.agreedPacketSize));
    SplitFour(b, 0, U16(h.layoutVersion), U16(h.flags), U32(h.serverSupportedProfiles), U32(h.intersectionProfiles));
    SplitThree(b, 12, U32(h.selectedProfile), U32(h.agreedMaxRequestPayloadBytes), U32(h.agreedMaxRequestBatchItems));
    SplitThree(b, 24, U32(h.agreedMaxResponsePayloadBytes), U32(h.agreedMaxResponseBatchItems),
               U32(h.agreedPacketSize));
    SplitTwo(b, 36, pad, U64(h.sessionId));
    Reads16(b, 0, h.layoutVersion);
    Reads16(b, 2, h.flags);
    Reads32(b, 4, h.serverSupportedProfiles);
    Reads32(b, 8, h.intersectionProfiles);
    Reads32(b, 12, h.selectedProfile);
    Reads32(b, 16, h.agreedMaxRequestPayloadBytes);
    Reads32(b, 20, h.agreedMaxRequestBatchItems);
    Reads32(b, 24, h.agreedMaxResponsePayloadBytes);
    Reads32(b, 28, h.agreedMaxResponseBatchItems);
    Reads32(b, 32, h.agreedPacketSize);
    Reads64(b, 40, h.sessionId);
  }

  lemma HelloAckRoundTrip(h: HelloAck, rest: seq<byte>)
    ensures DecodeHelloAck(HelloAckBytes(h) + rest).Ok? <==> h.layoutVersion == 1 && h.flags == 0
    ensures h.layoutVersion == 1 && h.flags == 0 ==> DecodeHelloAck(HelloAckBytes(h) + rest) == Ok(h)
  {
    hide U32, U64, HelloAckFront, DecodeHelloAck;
    HelloAckIgnoresPadding(h, U32(0), rest);
  }

  /** An accepted hello-ack re-encodes to the same bytes up to its four padding bytes,
      which the decoder ignores: it is canonical exactly when they are zero. */
  lemma HelloAckReencodes(b: seq<byte>)
    requires DecodeHelloAck(b).Ok?
    ensures HelloAckBytes(DecodeHelloAck(b).value) == b[..36] + U32(0) + b[40..HELLO_ACK_SIZE]
    ensures HelloAckBytes(DecodeHelloAck(b).value) == b[..HELLO_ACK_SIZE] <==> b[36..40] == U32(0)
  {
    hide U16, U32, U64, Get16, Get32, Get64, Val, LE, Pow256;
    Rewrite16(b, 0);
    Rewrite16(b, 2);
    Rewrite32(b, 4);
    Rewrite32(b, 8);
    Rewrite32(b, 12);
    Rewrite32(b, 16);
    Rewrite32(b, 20);
    Rewrite32(b, 24);
    Rewrite32(b, 28);
    Rewrite32(b, 32);
    Rewrite64(b, 40);
    JoinFour(b, 0, 2, 4, 8, 12);
    JoinThree(b, 12, 16, 20, 24);
    JoinThree(b, 24, 28, 32, 36);
    JoinThree(b, 0, 12, 24, 36);
    PaddingDecides(b, HelloAckFront(DecodeHelloAck(b).value), U32(0), U64(DecodeHelloAck(b).value.sessionId));
  }

  lemma PaddingDecides(b: seq<byte>, front: seq<byte>, pad: seq<byte>, tail: seq<byte>)
    requires |b| >= 48 && |pad| == 4 && front == b[0..36] && tail == b[40..48]
    ensures front + (pad + tail) == b[..36] + pad + b[40..48]
    ensures front + (pad + tail) == b[..48] <==> b[36..40] == pad
  {
    var c := front + (pad + tail);
    assert c[36..40] == pad;
    assert b[..48] == b[..36] + b[36..40] + b[40..48];
  }

  /** An accepted hello-ack that is not the encoding of what it decodes to. */
  lemma HelloAckPaddingCanDiffer(h: HelloAck)
    requires h.layoutVersion == 1 && h.flags == 0
    ensures var b := HelloAckFront(h) + ([1, 0, 0, 0] + U64(h.sessionId));
            DecodeHelloAck(b) == Ok(h) && HelloAckBytes(h) != b
  {
    hide U64, HelloAckFront, DecodeHelloAck;
    var b := HelloAckFront(h) + ([1, 0, 0, 0] + U64(h.sessionId));
    HelloAckIgnoresPadding(h, [1, 0, 0, 0], []);
    assert b + [] == b;
    assert b[36] == 1 && HelloAckBytes(h)[36] == U32(0)[0];
    assert U32(0)[0] == 0;
  }
}
