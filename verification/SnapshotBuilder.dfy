/** The snapshot response builder, its in-place compaction, whole builder runs and
    the dispatch that drives one. */
module SnapshotBuilding {
  import opened Wire
  import opened PackedLayout
  import opened Snapshot

  // -------------------------------------------------------------------------
  //  Writing one item
  // -------------------------------------------------------------------------

  method WriteItemHeader(a: array<byte>, p: nat, x: SnapshotItem)
    requires p + ITEM_HDR_SIZE <= a.Length
    modifies a
    ensures a[..] == Splice(old(a[..]), p, ItemHeader(x))
  {
    hide Splice, U16, U32;
    ghost var b := a[..];
    Put(a, p, U16(1));
    ghost var d1 := U16(1);
    PutNext(a, b, p, d1, p + 2, U16(0));
    ghost var d2 := d1 + U16(0);
    PutNext(a, b, p, d2, p + 4, U32(x.hash));
    ghost var d3 := d2 + U32(x.hash);
    PutNext(a, b, p, d3, p + 8, U32(x.options));
    ghost var d4 := d3 + U32(x.options);
    PutNext(a, b, p, d4, p + 12, U32(x.enabled));
    ghost var d5 := d4 + U32(x.enabled);
    PutNext(a, b, p, d5, p + 16, U32(ITEM_HDR_SIZE));
    ghost var d6 := d5 + U32(ITEM_HDR_SIZE);
    PutNext(a, b, p, d6, p + 20, U32(|x.name|));
    ghost var d7 := d6 + U32(|x.name|);
    PutNext(a, b, p, d7, p + 24, U32(ITEM_HDR_SIZE + |x.name| + 1));
    ghost var d8 := d7 + U32(ITEM_HDR_SIZE + |x.name| + 1);
    PutNext(a, b, p, d8, p + 28, U32(|x.path|));
    Regroup(d4, U32(x.enabled), U32(ITEM_HDR_SIZE), U32(|x.name|), U32(ITEM_HDR_SIZE + |x.name| + 1), U32(|x.path|));
  }

  lemma Regroup(a: seq<byte>, s: seq<byte>, t: seq<byte>, u: seq<byte>, v: seq<byte>, w: seq<byte>)
    ensures a + s + t + u + v + w == a + (s + t + u) + (v + w)
  {
    assert a + s + t + u == a + (s + t + u);
  }

  method WriteItem(a: array<byte>, p: nat, x: SnapshotItem)
    requires p + ItemSize(x) <= a.Length
    modifies a
    ensures a[..] == Splice(old(a[..]), p, ItemBytes(x))
  {
    hide Splice, ItemHeader;
    ghost var b := a[..];
    WriteItemHeader(a, p, x);
    var nameStart := p + ITEM_HDR_SIZE;
    PutNext(a, b, p, ItemHeader(x), nameStart, x.name);
    PutNext(a, b, p, ItemHeader(x) + x.name, nameStart + |x.name|, [0]);
    var pathStart := nameStart + |x.name| + 1;
    PutNext(a, b, p, ItemHeader(x) + x.name + [0], pathStart, x.path);
    PutNext(a, b, p, ItemHeader(x) + x.name + [0] + x.path, pathStart + |x.path|, [0]);
  }

  method WriteHeader(a: array<byte>, count: nat, systemdEnabled: u32, generation: u64)
    requires HDR_SIZE <= a.Length
    modifies a
    ensures a[..] == Splice(old(a[..]), 0, SnapshotHeader(count, systemdEnabled, generation))
  {
    hide Splice, U16, U32, U64;
    ghost var b := a[..];
    Put(a, 0, U16(1));
    ghost var d1 := U16(1);
    PutNext(a, b, 0, d1, 2, U16(0));
    ghost var d2 := d1 + U16(0);
    PutNext(a, b, 0, d2, 4, U32(count));
    ghost var d3 := d2 + U32(count);
    PutNext(a, b, 0, d3, 8, U32(systemdEnabled));
    ghost var d4 := d3 + U32(systemdEnabled);
    PutNext(a, b, 0, d4, 12, U32(0));
    ghost var d5 := d4 + U32(0);
    PutNext(a, b, 0, d5, 16, U64(generation));
  }

  // -------------------------------------------------------------------------
  //  The builder
  // -------------------------------------------------------------------------

  /** Whether a builder over `cap` bytes and `maxItems` slots that holds `items`
      accepts `x`: a slot, the bytes, and u32 offset and size. */
  predicate Accepts(cap: nat, maxItems: u32, items: seq<SnapshotItem>, x: SnapshotItem)
  {
    var start := HDR_SIZE + 8 * maxItems + AlignedTotal(Blobs(items));
    && |items| < maxItems
    && start + ItemSize(x) <= cap
    && start < U32_LIMIT
    && ItemSize(x) < U32_LIMIT
  }

  lemma BlobsSnoc(items: seq<SnapshotItem>, x: SnapshotItem)
    ensures Blobs(items + [x]) == Blobs(items) + [ItemBytes(x)]
  {
    hide ItemBytes;
  }

  class SnapshotBuilder {
    const buf: array<byte>
    var systemdEnabled: u32
    var generation: u64
    var itemCount: nat
    const maxItems: u32
    var dataOffset: nat
    ghost var items: seq<SnapshotItem>  // the items added so far

    ghost function Area(): nat
    {
      HDR_SIZE + 8 * maxItems
    }

    ghost predicate Valid()
      reads this, buf
    {
      && itemCount == |items| <= maxItems
      && Area() <= buf.Length
      && dataOffset == Area() + |Pack(Blobs(items))|
      && Holds(buf[..], HDR_SIZE, Area(), Dir(Area(), Blobs(items)), Pack(Blobs(items)))
      && Addressable(Area(), Blobs(items))
    }

    constructor (buf: array<byte>, maxItems: u32, systemdEnabled: u32, generation: u64)
      requires HDR_SIZE + 8 * maxItems <= buf.Length
      ensures Valid()
      ensures this.buf == buf && this.maxItems == maxItems && items == []
      ensures this.systemdEnabled == systemdEnabled && this.generation == generation
    {
      this.buf, this.maxItems := buf, maxItems;
      this.systemdEnabled, this.generation := systemdEnabled, generation;
      itemCount, dataOffset := 0, HDR_SIZE + 8 * maxItems;
      items := [];
      new;
      assert Blobs([]) == [];
    }

    method SetHeader(systemdEnabled: u32, generation: u64)
      requires Valid()
      modifies this`systemdEnabled, this`generation
      ensures Valid()
      ensures this.systemdEnabled == systemdEnabled && this.generation == generation
    {
      hide Dir, Pack, Blobs, Holds, Addressable;
      this.systemdEnabled, this.generation := systemdEnabled, generation;
    }

    /** Appends an item, or reports Overflow and changes nothing. */
    method Add(x: SnapshotItem) returns (r: Result<()>)
      requires Valid()
      modifies this`itemCount, this`dataOffset, this`items, buf
      ensures Valid()
      ensures r.Ok? <==> Accepts(buf.Length, maxItems, old(items), x)
      ensures r.Ok? ==> items == old(items) + [x]
      ensures r.Err? ==> r.error == Overflow && items == old(items) && buf[..] == old(buf[..])
    {
      hide Dir, Pack, Blobs, AlignedTotal, Holds, Addressable, ItemBytes, Splice, Offset, Align8, Tail, Entry, Pad;
      ghost var blobs := Blobs(items);
      PackSize(blobs);
      AlignSum(Area(), |Pack(blobs)|);
      if itemCount >= maxItems {
        return Err(Overflow);
      }
      var itemStart := Align8(dataOffset);
      var itemSize := ITEM_HDR_SIZE + |x.name| + 1 + |x.path| + 1;
      var itemEnd := itemStart + itemSize;
      if itemEnd > buf.Length {
        return Err(Overflow);
      }
      if itemStart >= U32_LIMIT || itemSize >= U32_LIMIT {
        return Err(Overflow);
      }
      ghost var b0 := buf[..];
      AppendBlob(b0, HDR_SIZE, Area(), Area(), blobs, ItemBytes(x));
      TailIs(blobs, ItemBytes(x));

      ZeroGap(buf, dataOffset, itemStart);
      WriteItem(buf, itemStart, x);
      SpliceAdjacent(b0, dataOffset, Zeros(itemStart - dataOffset), ItemBytes(x));
      PutEntry(buf, HDR_SIZE + 8 * itemCount, itemStart, itemSize);

      dataOffset := itemStart + itemSize;
      itemCount := itemCount + 1;
      items := items + [x];
      BlobsSnoc(old(items), x);
      PackSnoc(blobs, ItemBytes(x));
      AddressableSnoc(Area(), blobs, ItemBytes(x));
      return Ok(());
    }

    method Apply(op: Op) returns (r: Result<()>)
      requires Valid()
      modifies this, buf
      ensures Valid()
      ensures CallReports(buf.Length, maxItems, old(items), op, r)
      ensures items == if op.AddItem? && r.Ok? then old(items) + [op.x] else old(items)
      ensures (systemdEnabled, generation)
              == if op.SetHeader? then (op.systemdEnabled, op.generation) else old((systemdEnabled, generation))
    {
      hide Dir, Pack, Blobs, Holds, Addressable, Accepts;
      match op {
        case AddItem(x) =>
          r := Add(x);
        case SetHeader(s, g) =>
          SetHeader(s, g);
          r := Ok(());
      }
    }

    /** Compacts in place: the buffer then starts with exactly the pure serialization
        of the added items and the last header values. */
    method Finish() returns (n: nat)
      requires Valid()
      modifies buf
      ensures Fits(Blobs(items))
      ensures n <= buf.Length && buf[..n] == SnapshotBytes(systemdEnabled, generation, items)
    {
      hide Dir, Pack, Holds, Offset, SnapshotBytes, SnapshotHeader, Splice;
      ghost var blobs := Blobs(items);
      if itemCount == 0 {
        WriteHeader(buf, 0, systemdEnabled, generation);
        EmptyFront(old(buf[..]), systemdEnabled, generation, items);
        return HDR_SIZE;
      }
      n := CompactDirectory(buf, HDR_SIZE, Area(), itemCount, dataOffset, blobs);
      ghost var b := buf[..];
      WriteHeader(buf, itemCount, systemdEnabled, generation);
      HeaderFront(b, systemdEnabled, generation, items);
    }
  }

  lemma EmptyFront(b: seq<byte>, systemdEnabled: u32, generation: u64, items: seq<SnapshotItem>)
    requires |b| >= HDR_SIZE && items == []
    ensures Splice(b, 0, SnapshotHeader(0, systemdEnabled, generation))[..HDR_SIZE]
            == SnapshotBytes(systemdEnabled, generation, items)
  {
    hide SnapshotHeader;
  }

  /** Header in front of directory and packed items is the serialized response. */
  lemma HeaderFront(b: seq<byte>, systemdEnabled: u32, generation: u64, items: seq<SnapshotItem>)
    requires Holds(b, HDR_SIZE, HDR_SIZE + 8 * |items|, Dir(0, Blobs(items)), Pack(Blobs(items)))
    ensures var n := HDR_SIZE + 8 * |items| + |Pack(Blobs(items))|;
            n <= |b|
            && Splice(b, 0, SnapshotHeader(|items|, systemdEnabled, generation))[..n]
               == SnapshotBytes(systemdEnabled, generation, items)
  {
    hide Dir, Pack, Blobs, SnapshotHeader;
    FrontIs(b, SnapshotHeader(|items|, systemdEnabled, generation), Dir(0, Blobs(items)), Pack(Blobs(items)));
  }

  // -------------------------------------------------------------------------
  //  Whole builder runs
  // -------------------------------------------------------------------------

  /** One call a snapshot handler makes on its builder. */
  datatype Op = AddItem(x: SnapshotItem) | SetHeader(systemdEnabled: u32, generation: u64)

  /** The items whose `add` reported success, in call order. */
  function Succeeded(ops: seq<Op>, results: seq<Result<()>>): (items: seq<SnapshotItem>)
    requires |ops| == |results|
  {
    if ops == [] then []
    else
      var n := |ops| - 1;
      var front := Succeeded(ops[..n], results[..n]);
      if ops[n].AddItem? && results[n].Ok? then front + [ops[n].x] else front
  }

  /** The header values of the last `set_header`, or the initial ones. */
  function LastHeader(ops: seq<Op>, systemdEnabled: u32, generation: u64): (h: (u32, u64))
  {
    if ops == [] then (systemdEnabled, generation)
    else
      var n := |ops| - 1;
      if ops[n].SetHeader? then (ops[n].systemdEnabled, ops[n].generation)
      else LastHeader(ops[..n], systemdEnabled, generation)
  }

  /** What a call reports: an add succeeds exactly when the items accepted so far
      leave room for it. */
  predicate CallReports(cap: nat, maxItems: u32, before: seq<SnapshotItem>, op: Op, r: Result<()>)
  {
    match op
    case SetHeader(_, _) => r.Ok?
    case AddItem(x) => if Accepts(cap, maxItems, before, x) then r.Ok? else r == Err(Overflow)
  }

  ghost predicate Reported(cap: nat, maxItems: u32, ops: seq<Op>, results: seq<Result<()>>)
  {
    && |results| == |ops|
    && forall i :: 0 <= i < |ops| ==>
         CallReports(cap, maxItems, Succeeded(ops[..i], results[..i]), ops[i], results[i])
  }

  lemma ReportedSnoc(cap: nat, maxItems: u32, ops: seq<Op>, results: seq<Result<()>>, op: Op, r: Result<()>)
    requires Reported(cap, maxItems, ops, results)
    requires CallReports(cap, maxItems, Succeeded(ops, results), op, r)
    ensures Reported(cap, maxItems, ops + [op], results + [r])
    ensures Succeeded(ops + [op], results + [r])
            == if op.AddItem? && r.Ok? then Succeeded(ops, results) + [op.x] else Succeeded(ops, results)
  {
    hide CallReports;
    var ops', results' := ops + [op], results + [r];
    assert ops'[..|ops|] == ops && results'[..|ops|] == results;
    forall i | 0 <= i < |ops'|
      ensures CallReports(cap, maxItems, Succeeded(ops'[..i], results'[..i]), ops'[i], results'[i])
    {
      assert i < |ops| ==> ops'[..i] == ops[..i] && results'[..i] == results[..i];
    }
  }

  lemma HeaderSnoc(ops: seq<Op>, op: Op, s: u32, g: u64)
    ensures LastHeader(ops + [op], s, g)
            == if op.SetHeader? then (op.systemdEnabled, op.generation) else LastHeader(ops, s, g)
  {
    assert (ops + [op])[..|ops|] == ops;
  }

  /** Runs a new builder through any sequence of calls, some failing. */
  method Drive(buf: array<byte>, maxItems: u32, systemdEnabled: u32, generation: u64, ops: seq<Op>)
    returns (b: SnapshotBuilder, results: seq<Result<()>>)
    requires HDR_SIZE + 8 * maxItems <= buf.Length
    modifies buf
    ensures fresh(b) && b.buf == buf && b.Valid()
    ensures Reported(buf.Length, maxItems, ops, results)
    ensures b.items == Succeeded(ops, results)
    ensures (b.systemdEnabled, b.generation) == LastHeader(ops, systemdEnabled, generation)
  {
    hide Blobs, Succeeded, LastHeader, Reported, CallReports, Dir, Pack, Holds, Addressable;
    b := new SnapshotBuilder(buf, maxItems, systemdEnabled, generation);
    results := [];
    NothingReported(buf.Length, maxItems, systemdEnabled, generation, ops);
    for i := 0 to |ops|
      invariant fresh(b) && b.buf == buf && b.maxItems == maxItems && b.Valid()
      invariant |results| == i && Reported(buf.Length, maxItems, ops[..i], results)
      invariant b.items == Succeeded(ops[..i], results)
      invariant (b.systemdEnabled, b.generation) == LastHeader(ops[..i], systemdEnabled, generation)
    {
      assert ops[..i + 1] == ops[..i] + [ops[i]];
      var r := b.Apply(ops[i]);
      ReportedSnoc(buf.Length, maxItems, ops[..i], results, ops[i], r);
      HeaderSnoc(ops[..i], ops[i], systemdEnabled, generation);
      results := results + [r];
    }
    assert ops[..|ops|] == ops;
  }

  lemma NothingReported(cap: nat, maxItems: u32, s: u32, g: u64, ops: seq<Op>)
    ensures Reported(cap, maxItems, ops[..0], []) && Succeeded(ops[..0], []) == []
            && LastHeader(ops[..0], s, g) == (s, g)
  {
  }

  /** Whatever the calls, the finished bytes are the pure serialization of the
      successful adds under the last header, and decode back to them. */
  method Build(buf: array<byte>, maxItems: u32, systemdEnabled: u32, generation: u64, ops: seq<Op>)
    returns (n: nat, results: seq<Result<()>>)
    requires HDR_SIZE + 8 * maxItems <= buf.Length
    modifies buf
    ensures Reported(buf.Length, maxItems, ops, results)
    ensures n <= buf.Length
    ensures var (s, g) := LastHeader(ops, systemdEnabled, generation);
            && buf[..n] == SnapshotBytes(s, g, Succeeded(ops, results))
            && DecodesTo(buf[..n], s, g, Succeeded(ops, results))
  {
    hide SnapshotBytes, Fits, Blobs, Succeeded, LastHeader, Reported, Dir, Pack, Holds, Addressable, DecodesTo;
    var b;
    b, results := Drive(buf, maxItems, systemdEnabled, generation, ops);
    n := b.Finish();
    SnapshotRoundTrip(b.systemdEnabled, b.generation, b.items, []);
    assert buf[..n] + [] == buf[..n];
  }

  /** Decodes the request, lets the handler drive a builder over the response buffer,
      and finishes it. A handler is the calls it makes and its verdict. */
  method Dispatch(req: seq<byte>, resp: array<byte>, maxItems: u32, handler: SnapshotRequest -> (seq<Op>, bool))
    returns (r: Option<nat>, ghost results: seq<Result<()>>)
    modifies resp
    ensures r.Some? <==>
              && DecodeRequest(req).Ok?
              && HDR_SIZE + 8 * maxItems <= resp.Length
              && handler(DecodeRequest(req).value).1
    ensures r.Some? ==>
              var ops := handler(DecodeRequest(req).value).0;
              var (s, g) := LastHeader(ops, 0, 0);
              && Reported(resp.Length, maxItems, ops, results)
              && r.value <= resp.Length
              && DecodesTo(resp[..r.value], s, g, Succeeded(ops, results))
  {
    hide SnapshotBytes, Fits, Blobs, Succeeded, LastHeader, Reported, Dir, Pack, Holds, Addressable, DecodesTo;
    results := [];
    match DecodeRequest(req) {
      case Err(_) => return None, [];
      case Ok(request) =>
        if resp.Length < HDR_SIZE + 8 * maxItems {
          return None, [];
        }
        var (ops, accept) := handler(request);
        var b, rs := Drive(resp, maxItems, 0, 0, ops);
        results := rs;
        if !accept {
          return None, results;
        }
        var n := b.Finish();
        SnapshotRoundTrip(b.systemdEnabled, b.generation, b.items, []);
        assert resp[..n] + [] == resp[..n];
        return Some(n), results;
    }
  }
}
