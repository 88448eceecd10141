/** The INCREMENT method: its codec, its dispatch and the batch handler built on it. */
module Increment {
  import opened Wire
  import opened PackedLayout
  import opened Batch

  const PAYLOAD_SIZE: nat := 8

  function Encode(value: u64): (b: seq<byte>)
    ensures |b| == PAYLOAD_SIZE
  {
    U64(value)
  }

  function Decode(buf: seq<byte>): (r: Result<u64>)
  {
    if |buf| < PAYLOAD_SIZE then Err(Truncated) else Ok(Get64(buf, 0))
  }

  lemma RoundTrip(value: u64, rest: seq<byte>)
    ensures Decode(Encode(value) + rest) == Ok(value)
  {
    assert (Encode(value) + rest)[0..8] == U64(value);
  }

  /** Decodes, applies the handler, encodes; fails without a response if any step does. */
  method Dispatch(req: seq<byte>, resp: array<byte>, handler: u64 -> Option<u64>) returns (r: Option<nat>)
    modifies resp
    ensures r.Some? <==> Decode(req).Ok? && handler(Decode(req).value).Some? && resp.Length >= PAYLOAD_SIZE
    ensures r.Some? ==> r.value == PAYLOAD_SIZE && Decode(resp[..]) == Ok(handler(Decode(req).value).value)
  {
    hide Encode;
    match Decode(req) {
      case Err(_) => return None;
      case Ok(value) =>
        match handler(value) {
          case None => return None;
          case Some(result) =>
            if resp.Length < PAYLOAD_SIZE {
              return None;
            }
            ghost var b := resp[..];
            Put(resp, 0, Encode(result));
            assert resp[..] == Encode(result) + b[PAYLOAD_SIZE..];
            RoundTrip(result, b[PAYLOAD_SIZE..]);
            return Some(PAYLOAD_SIZE);
        }
    }
  }

  // -------------------------------------------------------------------------
  //  The batch handler
  // -------------------------------------------------------------------------

  /** The number in item `i` of a batch request. */
  function ItemValue(request: seq<byte>, itemCount: u32, i: u32): (r: Result<u64>)
  {
    match ItemGet(request, itemCount, i)
    case Err(e) => Err(e)
    case Ok(item) => Decode(item)
  }

  function Next(v: u64): u64
  {
    (v + 1) % U64_LIMIT
  }

  /** Payloads of a list of numbers. */
  function Payloads(vs: seq<u64>): (items: seq<seq<byte>>)
    ensures |items| == |vs| && forall i :: 0 <= i < |vs| ==> items[i] == Encode(vs[i])
  {
    seq(|vs|, i requires 0 <= i < |vs| => Encode(vs[i]))
  }

  lemma {:induction false} PayloadsSize(vs: seq<u64>)
    ensures AlignedTotal(Payloads(vs)) == 8 * |vs| && |Pack(Payloads(vs))| == 8 * |vs|
  {
    hide Encode;
    if vs != [] {
      var n := |vs| - 1;
      PayloadsSize(vs[..n]);
      assert Payloads(vs)[..n] == Payloads(vs[..n]);
    }
  }

  lemma PayloadsSnoc(vs: seq<u64>, v: u64)
    ensures Payloads(vs + [v]) == Payloads(vs) + [Encode(v)]
  {
    hide Encode;
  }

  lemma PayloadsFit(vs: seq<u64>)
    requires 16 * |vs| < U32_LIMIT
    ensures Fits(Payloads(vs))
  {
    hide Pack, Encode;
    forall i | 0 <= i < |vs|
      ensures Offset(Payloads(vs), i) < U32_LIMIT
    {
      assert Payloads(vs)[..i] == Payloads(vs[..i]);
      PayloadsSize(vs[..i]);
    }
  }

  /** The request parses as a batch of numbers. */
  ghost predicate Carries(request: seq<byte>, itemCount: u32, vs: seq<u64>)
  {
    |vs| == itemCount && forall i: u32 :: i < itemCount ==> ItemValue(request, itemCount, i) == Ok(vs[i])
  }

  function Incremented(vs: seq<u64>): (r: seq<u64>)
    ensures |r| == |vs| && forall i :: 0 <= i < |vs| ==> r[i] == Next(vs[i])
  {
    seq(|vs|, i requires 0 <= i < |vs| => Next(vs[i]))
  }

  /** Item `i` is where the handler stops: its own error, or no room left for it. */
  predicate StopsAt(request: seq<byte>, itemCount: u32, room: nat, i: u32, e: NipcError)
  {
    match ItemValue(request, itemCount, i)
    case Err(e') => e == e'
    case Ok(_) => 8 * itemCount + 8 * i + 8 > room && e == Overflow
  }

  /** Extract, increment and rebuild, item by item, into the response buffer. Succeeds
      exactly when every item holds a number and the buffer has 16 bytes per item. */
  method HandleBatch(request: seq<byte>, itemCount: u32, resp: array<byte>) returns (r: Result<nat>)
    requires itemCount >= 1
    modifies resp
    ensures r.Ok? <==> 16 * itemCount <= resp.Length && exists vs :: Carries(request, itemCount, vs)
    ensures r.Ok? ==> exists vs :: Carries(request, itemCount, vs)
                        && r.value == 16 * itemCount <= resp.Length
                        && Dir(0, Payloads(Incremented(vs))) + Pack(Payloads(Incremented(vs))) == resp[..r.value]
    ensures r.Err? ==> exists i: u32 :: i < itemCount && StopsAt(request, itemCount, resp.Length, i, r.error)
                         && forall j: u32 :: j < i ==> ItemValue(request, itemCount, j).Ok?
  {
    hide Dir, Pack, Holds, AlignedTotal, ItemValue, Encode, Payloads, BatchBytes;
    var builder := new BatchBuilder(resp, itemCount);
    ghost var vs: seq<u64> := [];
    PayloadsEmpty();
    for i := 0 to itemCount
      invariant fresh(builder) && builder.buf == resp && builder.maxItems == itemCount && builder.Valid()
      invariant |vs| == i && forall j: u32 :: j < i ==> ItemValue(request, itemCount, j) == Ok(vs[j])
      invariant builder.items == Payloads(Incremented(vs))
      invariant i > 0 ==> 8 * itemCount + 8 * i <= resp.Length
    {
      var value := ItemValue(request, itemCount, i);
      if value.Err? {
        assert StopsAt(request, itemCount, resp.Length, i, value.error);
        return Err(value.error);
      }
      PayloadsSize(Incremented(vs));
      var added := builder.Add(Encode(Next(value.value)));
      if added.Err? {
        assert StopsAt(request, itemCount, resp.Length, i, Overflow);
        return Err(added.error);
      }
      PayloadsSnoc(Incremented(vs), Next(value.value));
      assert Incremented(vs + [value.value]) == Incremented(vs) + [Next(value.value)];
      vs := vs + [value.value];
    }
    assert Carries(request, itemCount, vs);
    PayloadsSize(Incremented(vs));
    var total, count := builder.Finish();
    return Ok(total);
  }

  lemma PayloadsEmpty()
    ensures Payloads(Incremented([])) == []
  {
  }

  // -------------------------------------------------------------------------
  //  End to end
  // -------------------------------------------------------------------------

  /** Any payload that starts with a batch of numbers carries them. */
  lemma BatchCarries(vs: seq<u64>, b: seq<byte>)
    requires 16 * |vs| < U32_LIMIT
    requires Dir(0, Payloads(vs)) + Pack(Payloads(vs)) <= b
    ensures Carries(b, |vs|, vs)
  {
    hide Dir, Pack, Fits, ItemGet, Carries;
    PayloadsFit(vs);
    forall i: u32 | i < |vs|
      ensures ItemGet(b, |vs|, i) == Ok(Payloads(vs)[i])
    {
      ItemGetInverts(Payloads(vs), b, i);
    }
    BuiltCarries(vs, b);
  }

  lemma CarriesOne(request: seq<byte>, itemCount: u32, vs: seq<u64>, ws: seq<u64>)
    requires Carries(request, itemCount, vs) && Carries(request, itemCount, ws)
    ensures vs == ws
  {
    hide ItemValue;
    forall i | 0 <= i < itemCount
      ensures vs[i] == ws[i]
    {
      assert ItemValue(request, itemCount, i) == Ok(vs[i]);
    }
  }

  /** A list of numbers fits a builder with `maxItems` slots, so no add of it fails. */
  lemma {:induction false} AllKept(cap: nat, maxItems: u32, vs: seq<u64>, results: seq<Result<()>>)
    requires Batch.Reported(cap, maxItems, Payloads(vs), results)
    requires |vs| <= maxItems && 8 * maxItems + 8 * |vs| <= cap
    ensures Kept(Payloads(vs), results) == Payloads(vs)
  {
    hide Encode, Payloads, AlignedTotal, Kept, Batch.Reported;
    if vs == [] {
      NothingKept(cap, maxItems, Payloads(vs));
      ReportedLength(cap, maxItems, Payloads(vs), results);
      assert Payloads(vs)[..0] == Payloads(vs) && results == [];
    } else {
      var n := |vs| - 1;
      PayloadsFront(vs);
      ReportedFront(cap, maxItems, Payloads(vs), results);
      AllKept(cap, maxItems, vs[..n], results[..n]);
      PayloadsSize(vs[..n]);
    }
  }

  lemma PayloadsFront(vs: seq<u64>)
    requires vs != []
    ensures var n := |vs| - 1;
            Payloads(vs)[..n] == Payloads(vs[..n]) && |Payloads(vs)[n]| == 8
            && Payloads(vs) == Payloads(vs[..n]) + [Payloads(vs)[n]]
  {
    hide Encode;
  }

  /** A batch of any numbers, built with any number of slots, through the handler and back: each
      number plus one modulo 2^64, in order, whenever the two buffers have the room. */
  method IncrementBatch(vs: seq<u64>, maxItems: u32, req: array<byte>, resp: array<byte>) returns (r: Result<nat>)
    requires req != resp
    requires 1 <= |vs| <= maxItems && 8 * maxItems + 8 * |vs| <= req.Length < U32_LIMIT
    requires 16 * |vs| <= resp.Length && 16 * |vs| < U32_LIMIT
    modifies req, resp
    ensures r == Ok(16 * |vs|)
    ensures Carries(resp[..16 * |vs|], |vs|, Incremented(vs))
  {
    hide Dir, Pack, Carries, Payloads, BatchBytes, ItemGet, AlignedTotal, Kept, Batch.Reported;
    var total, count, results := Build(req, maxItems, Payloads(vs));
    AllKept(req.Length, maxItems, vs, results);
    PayloadsSize(vs);
    var request := req[..total];
    BuiltCarries(vs, request);
    r := HandleBatch(request, |vs|, resp);
    ghost var ws :| Carries(request, |vs|, ws)
      && Dir(0, Payloads(Incremented(ws))) + Pack(Payloads(Incremented(ws))) == resp[..16 * |vs|];
    CarriesOne(request, |vs|, vs, ws);
    BatchCarries(Incremented(vs), resp[..16 * |vs|]);
  }

  lemma BuiltCarries(vs: seq<u64>, request: seq<byte>)
    requires |vs| < U32_LIMIT
    requires forall i: u32 :: i < |vs| ==> ItemGet(request, |vs|, i) == Ok(Payloads(vs)[i])
    ensures Carries(request, |vs|, vs)
  {
    hide ItemGet, Encode, Decode;
    forall i: u32 | i < |vs|
      ensures ItemValue(request, |vs|, i) == Ok(vs[i])
    {
      RoundTrip(vs[i], []);
      assert Encode(vs[i]) + [] == Encode(vs[i]);
    }
  }
}
