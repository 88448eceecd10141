/** The STRING_REVERSE method: the Rust codec, the Go decoder beside it, and dispatch. */
module StringReverse {
  import opened Wire

  const HDR_SIZE: nat := 8

  /** Header, string and NUL. */
  function StringBytes(s: seq<byte>): (b: seq<byte>)
    ensures |b| == HDR_SIZE + |s| + 1
  {
    U32(HDR_SIZE) + U32(|s|) + s + [0]
  }

  /** Writes the payload at the front of `buf`; 0 if the string is too long or does not fit. */
  method Encode(s: seq<byte>, buf: array<byte>) returns (n: nat)
    modifies buf
    ensures n == if |s| < U32_LIMIT && HDR_SIZE + |s| + 1 <= buf.Length then HDR_SIZE + |s| + 1 else 0
    ensures n == 0 ==> buf[..] == old(buf[..])
    ensures n > 0 ==> buf[..] == Splice(old(buf[..]), 0, StringBytes(s))
  {
    hide Splice, U32;
    if |s| >= U32_LIMIT {
      return 0;
    }
    var total := HDR_SIZE + |s| + 1;
    if buf.Length < total {
      return 0;
    }
    ghost var b := buf[..];
    Put(buf, 0, U32(HDR_SIZE));
    Put(buf, 4, U32(|s|));
    SpliceAdjacent(b, 0, U32(HDR_SIZE), U32(|s|));
    Put(buf, 8, s);
    SpliceAdjacent(b, 0, U32(HDR_SIZE) + U32(|s|), s);
    Put(buf, 8 + |s|, [0]);
    SpliceAdjacent(b, 0, U32(HDR_SIZE) + U32(|s|) + s, [0]);
    return total;
  }

  /** The Rust decoder. */
  function Decode(buf: seq<byte>): (r: Result<seq<byte>>)
    ensures r.Ok? ==> |r.value| < U32_LIMIT
  {
    if |buf| < HDR_SIZE then Err(Truncated)
    else
      var offset: nat := Get32(buf, 0);
      if offset < HDR_SIZE then Err(BadLayout)
      else
        var length: nat := Get32(buf, 4);
        if offset + length + 1 > |buf| then Err(OutOfBounds)
        else if buf[offset + length] != 0 then Err(MissingNul)
        else Ok(buf[offset..offset + length])
  }

  /** The Go decoder, which has no lower bound on the offset. */
  function GoDecode(buf: seq<byte>): (r: Result<seq<byte>>)
  {
    if |buf| < HDR_SIZE then Err(Truncated)
    else
      var offset: nat, length: nat := Get32(buf, 0), Get32(buf, 4);
      var end: nat := offset + length;
      if end + 1 > |buf| then Err(OutOfBounds)
      else if buf[end] != 0 then Err(MissingNul)
      else Ok(buf[offset..end])
  }

  /** The two decoders agree on exactly the buffers without an offset that points into
      the header. */
  lemma DecodersAgreeExactlyWhen(buf: seq<byte>)
    ensures Decode(buf) == GoDecode(buf) <==> |buf| < HDR_SIZE || Get32(buf, 0) >= HDR_SIZE
  {
    hide Get32;
  }

  /** They do differ: an offset of 0 over an empty string is refused by one only. */
  lemma DecodersCanDiffer()
    ensures var buf := U32(0) + U32(0);
            Decode(buf) == Err(BadLayout) && GoDecode(buf) == Ok([])
  {
    hide U32;
    var buf := U32(0) + U32(0);
    assert buf[0..4] == U32(0) && buf[4..8] == U32(0);
    assert U32(0)[0] == 0 by { FirstByteOfZero(); }
    assert buf[0..0] == [];
  }

  lemma FirstByteOfZero()
    ensures U32(0)[0] == 0
  {
  }

  /** Every string decodes back, in both languages, whatever follows it. */
  lemma RoundTrip(s: seq<byte>, rest: seq<byte>)
    requires |s| < U32_LIMIT
    ensures Decode(StringBytes(s) + rest) == Ok(s) && GoDecode(StringBytes(s) + rest) == Ok(s)
  {
    hide U32;
    var b := StringBytes(s) + rest;
    assert b[0..4] == U32(HDR_SIZE) && b[4..8] == U32(|s|);
    assert b[8..8 + |s|] == s && b[8 + |s|] == 0;
  }

  // -------------------------------------------------------------------------
  //  Dispatch
  // -------------------------------------------------------------------------

  /** The bytes dispatch writes for a request into `cap` bytes, if it succeeds. */
  function Response(req: seq<byte>, cap: nat, handler: seq<byte> -> Option<seq<byte>>): (r: Option<seq<byte>>)
  {
    match Decode(req)
    case Err(_) => None
    case Ok(s) =>
      match handler(s)
      case None => None
      case Some(t) => if |t| < U32_LIMIT && HDR_SIZE + |t| + 1 <= cap then Some(StringBytes(t)) else None
  }

  method Dispatch(req: seq<byte>, resp: array<byte>, handler: seq<byte> -> Option<seq<byte>>) returns (r: Option<nat>)
    modifies resp
    ensures r.Some? <==> Response(req, resp.Length, handler).Some?
    ensures r.Some? ==> r.value <= resp.Length && resp[..r.value] == Response(req, resp.Length, handler).value
    ensures r.None? ==> resp[..] == old(resp[..])
  {
    hide Decode, StringBytes;
    match Decode(req) {
      case Err(_) => return None;
      case Ok(s) =>
        match handler(s) {
          case None => return None;
          case Some(t) =>
            var n := Encode(t, resp);
            if n == 0 {
              return None;
            }
            return Some(n);
        }
    }
  }

  function Reverse(s: seq<byte>): (r: seq<byte>)
    ensures |r| == |s| && forall i :: 0 <= i < |s| ==> r[i] == s[|s| - 1 - i]
  {
    seq(|s|, i requires 0 <= i < |s| => s[|s| - 1 - i])
  }

  lemma ReverseTwice(s: seq<byte>)
    ensures Reverse(Reverse(s)) == s
  {
  }

  /** Dispatching a reversing handler twice restores the string of any accepted request,
      wherever that request kept it, given room for the answers. */
  lemma ReversingTwiceRestores(req: seq<byte>, cap1: nat, cap2: nat)
    requires Decode(req).Ok?
    requires cap1 >= HDR_SIZE + |Decode(req).value| + 1 && cap2 >= HDR_SIZE + |Decode(req).value| + 1
    ensures var reverse := s => Some(Reverse(s));
            var first := Response(req, cap1, reverse);
            && first.Some?
            && var second := Response(first.value, cap2, reverse);
            second.Some? && Decode(second.value) == Decode(req)
  {
    hide Decode, StringBytes, Reverse;
    var s := Decode(req).value;
    RoundTrip(Reverse(s), []);
    RoundTrip(Reverse(Reverse(s)), []);
    assert StringBytes(Reverse(s)) + [] == StringBytes(Reverse(s));
    assert StringBytes(Reverse(Reverse(s))) + [] == StringBytes(Reverse(Reverse(s)));
    ReverseTwice(s);
  }
}
