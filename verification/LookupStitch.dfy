/** Putting raw lookup items together into one response, and the stand-in for a path too long
    to ask about. */
module LookupStitching {
  import opened Wire
  import opened PackedLayout
  import opened LookupItem
  import opened LookupCodec
  import opened LookupReply
  import opened LookupBuilding

  lemma ResponseLength(generation: u64, raws: seq<seq<byte>>)
    ensures |ResponseBytes(generation, raws)| == LOOKUP_HDR_SIZE + 8 * |raws| + |Pack(raws)|
  {
    hide Dir, Pack, ResponseHeader;
  }

  lemma PackPrefixSnoc(raws: seq<seq<byte>>, i: nat)
    requires i < |raws|
    ensures raws[..i + 1] == raws[..i] + [raws[i]]
    ensures |Pack(raws[..i + 1])| == Align8(|Pack(raws[..i])|) + |raws[i]|
  {
    hide Pack;
    PackSnoc(raws[..i], raws[i]);
    assert raws[..i + 1] == raws[..i] + [raws[i]];
  }

  lemma {:induction false} PackPrefixGrows(raws: seq<seq<byte>>, i: nat, j: nat)
    requires i <= j <= |raws|
    ensures |Pack(raws[..i])| <= |Pack(raws[..j])|
    decreases j - i
  {
    hide Pack;
    if i < j {
      PackPrefixGrows(raws, i, j - 1);
      PackPrefixSnoc(raws, j - 1);
    }
  }

  method ResponseSize(ghost generation: u64, raws: seq<seq<byte>>) returns (n: nat)
    ensures n == |ResponseBytes(generation, raws)|
  {
    hide Pack, ResponseBytes;
    var start := LOOKUP_HDR_SIZE + 8 * |raws|;
    var i := 0;
    n := start;
    PackEmpty();
    assert raws[..0] == [];
    while i < |raws|
      invariant i <= |raws| && n == start + |Pack(raws[..i])|
    {
      PackPrefixSnoc(raws, i);
      AlignSum(start, |Pack(raws[..i])|);
      n := Align8(n) + |raws[i]|;
      i := i + 1;
    }
    assert raws[..i] == raws;
    ResponseLength(generation, raws);
  }

  predicate RawOk(raw: seq<byte>)
  {
    |raw| >= ITEM_HDR_SIZE && DecodeItem(raw).Ok?
  }

  /** Encodes raw items as one response: exactly when all decode and the buffer is large enough. */
  method EncodeRaw(raws: seq<seq<byte>>, generation: u64, buf: array<byte>) returns (r: Result<nat>)
    modifies buf
    ensures r.Ok? <==> && (forall i :: 0 <= i < |raws| ==> RawOk(raws[i]))
                       && |ResponseBytes(generation, raws)| <= buf.Length
                       && |raws| < U32_LIMIT && Addressable(LOOKUP_HDR_SIZE + 8 * |raws|, raws)
    ensures r.Ok? ==> r.value <= buf.Length && buf[..r.value] == ResponseBytes(generation, raws)
  {
    hide Dir, Pack, Holds, Addressable, ResponseBytes, DecodeItem;
    if |raws| >= U32_LIMIT {
      return Err(Overflow);
    }
    var area := LOOKUP_HDR_SIZE + 8 * |raws|;
    ResponseLength(generation, raws);
    if buf.Length < area {
      return Err(Overflow);
    }
    var data, i := area, 0;
    assert raws[..0] == [];
    NoRaws(buf[..], area);
    while i < |raws|
      invariant i <= |raws| && |buf[..]| == buf.Length
      invariant forall j :: 0 <= j < i ==> RawOk(raws[j])
      invariant data == area + |Pack(raws[..i])| <= buf.Length
      invariant Holds(buf[..], LOOKUP_HDR_SIZE, area, Dir(area, raws[..i]), Pack(raws[..i]))
      invariant Addressable(area, raws[..i])
    {
      var raw := raws[i];
      if |raw| < ITEM_HDR_SIZE {
        assert !RawOk(raw);
        return Err(BadLayout);
      }
      var item := DecodeItem(raw);
      if item.Err? {
        assert !RawOk(raw);
        return Err(item.error);
      }
      PackPrefixSnoc(raws, i);
      AlignSum(area, |Pack(raws[..i])|);
      var end := Align8(data) + |raw|;
      if end > buf.Length {
        PackPrefixGrows(raws, i + 1, |raws|);
        assert raws[..|raws|] == raws;
        return Err(Overflow);
      }
      AddressableAt(area, raws, i);
      if Align8(data) >= U32_LIMIT || |raw| >= U32_LIMIT {
        return Err(Overflow);
      }
      PackedLayout.Append(buf, LOOKUP_HDR_SIZE, area, area, raws[..i], i, data - area, raw);
      AddressableSnoc(area, raws[..i], raw);
      data := end;
      i := i + 1;
    }
    assert raws[..i] == raws;
    var n := FinishResponse(buf, area, |raws|, data, generation, raws);
    return Ok(n);
  }

  lemma AddressableAt(area: nat, raws: seq<seq<byte>>, i: nat)
    requires i < |raws|
    ensures Addressable(area, raws) ==> area + Align8(|Pack(raws[..i])|) < U32_LIMIT && |raws[i]| < U32_LIMIT
  {
    hide Pack;
    assert Addressable(area, raws) ==> area + Offset(raws, i) < U32_LIMIT;
  }

  /** Below 4 GiB every item of a response is addressable. */
  lemma SmallIsAddressable(generation: u64, raws: seq<seq<byte>>)
    requires |ResponseBytes(generation, raws)| < U32_LIMIT
    ensures |raws| < U32_LIMIT && Addressable(LOOKUP_HDR_SIZE + 8 * |raws|, raws)
  {
    hide Pack, Offset, ResponseBytes;
    ResponseLength(generation, raws);
    forall i | 0 <= i < |raws|
      ensures LOOKUP_HDR_SIZE + 8 * |raws| + Offset(raws, i) < U32_LIMIT && |raws[i]| < U32_LIMIT
    {
      BlobAt(raws, i);
    }
  }

  lemma NoRaws(b: seq<byte>, area: nat)
    requires LOOKUP_HDR_SIZE <= area <= |b|
    ensures Holds(b, LOOKUP_HDR_SIZE, area, Dir(area, []), Pack([])) && Addressable(area, []) && Pack([]) == []
  {
  }

  lemma PlaceholderEncodable(status: u16, path: seq<byte>)
    requires status <= OVERSIZED_ITEM && PathOk(path) && PlaceholderLen(path) < U32_LIMIT
    ensures Encodable(Placeholder(status, path))
  {
    hide ItemBytes;
    PlaceholderSize(status, path);
  }

  lemma OneRaw(raw: seq<byte>)
    requires |raw| < U32_LIMIT
    ensures Fits([raw])
  {
    hide Pack;
    assert [raw][..0] == [];
    PackEmpty();
  }

  /** The item that stands for a path whose request cannot be sent: built with the server's own
      builder and read back. */
  method OversizedItem(path: seq<byte>) returns (r: Result<seq<byte>>)
    ensures r.Ok? <==> PathOk(path) && PlaceholderLen(path) < U32_LIMIT
    ensures r.Ok? ==> r.value == ItemBytes(Placeholder(OVERSIZED_ITEM, path))
  {
    hide Dir, Pack, Holds, Addressable, ItemBytes, ResponseBytes, DecodeResponse;
    var size := LOOKUP_HDR_SIZE + 8 + PlaceholderLen(path);
    var buf := new byte[size](_ => 0);
    var b := new LookupBuilder(buf, 1, 0);
    var x := Placeholder(OVERSIZED_ITEM, path);
    assert Pack(Raws([])) == [] by { PackEmpty(); assert Raws([]) == []; }
    var added := b.Add(x, false);
    if added.Err? {
      return Err(added.error);
    }
    PlaceholderEncodable(OVERSIZED_ITEM, path);
    ItemRoundTrip(x);
    PlaceholderSize(OVERSIZED_ITEM, path);
    ghost var raws := [ItemBytes(x)];
    assert Raws(b.items) == raws;
    var n := b.Finish();
    OneRaw(ItemBytes(x));
    ResponseRoundTrip(0, raws);
    var view := DecodeResponse(buf[..n]);
    return Ok(RawItem(view.value, 0));
  }
}
