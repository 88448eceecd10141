/** The cgroups snapshot codec: request, response serializer and response view. */
module Snapshot {
  import opened Wire
  import opened PackedLayout

  const HDR_SIZE: nat := 24
  const ITEM_HDR_SIZE: nat := 32

  // -------------------------------------------------------------------------
  //  Request
  // -------------------------------------------------------------------------

  datatype SnapshotRequest = SnapshotRequest(layoutVersion: u16, flags: u16)

  function RequestBytes(r: SnapshotRequest): (b: seq<byte>)
    ensures |b| == 4
  {
    U16(r.layoutVersion) + U16(r.flags)
  }

  function DecodeRequest(buf: seq<byte>): (r: Result<SnapshotRequest>)
  {
    if |buf| < 4 then Err(Truncated)
    else
      var req := SnapshotRequest(Get16(buf, 0), Get16(buf, 2));
      if req.layoutVersion != 1 then Err(BadLayout)
      else if req.flags != 0 then Err(BadLayout)
      else Ok(req)
  }

  // -------------------------------------------------------------------------
  //  Response, as a pure serializer
  // -------------------------------------------------------------------------

  datatype SnapshotItem = SnapshotItem(hash: u32, options: u32, enabled: u32, name: seq<byte>, path: seq<byte>)

  function ItemSize(x: SnapshotItem): nat
  {
    ITEM_HDR_SIZE + |x.name| + 1 + |x.path| + 1
  }

  function ItemHeader(x: SnapshotItem): (b: seq<byte>)
    ensures |b| == ITEM_HDR_SIZE
  {
    (U16(1) + U16(0) + U32(x.hash) + U32(x.options))
    + (U32(x.enabled) + U32(ITEM_HDR_SIZE) + U32(|x.name|))
    + (U32(ITEM_HDR_SIZE + |x.name| + 1) + U32(|x.path|))
  }

  function ItemBytes(x: SnapshotItem): (b: seq<byte>)
    ensures |b| == ItemSize(x)
  {
    ItemHeader(x) + x.name + [0] + x.path + [0]
  }

  function Blobs(items: seq<SnapshotItem>): (bs: seq<seq<byte>>)
    ensures |bs| == |items| && forall i :: 0 <= i < |items| ==> bs[i] == ItemBytes(items[i])
  {
    seq(|items|, i requires 0 <= i < |items| => ItemBytes(items[i]))
  }

  function SnapshotHeader(count: nat, systemdEnabled: u32, generation: u64): (b: seq<byte>)
    ensures |b| == HDR_SIZE
  {
    U16(1) + U16(0) + U32(count) + U32(systemdEnabled) + U32(0) + U64(generation)
  }

  function SnapshotBytes(systemdEnabled: u32, generation: u64, items: seq<SnapshotItem>): (b: seq<byte>)
  {
    SnapshotHeader(|items|, systemdEnabled, generation) + Dir(0, Blobs(items)) + Pack(Blobs(items))
  }

  // -------------------------------------------------------------------------
  //  Response view
  // -------------------------------------------------------------------------

  datatype StrView = StrView(bytes: seq<byte>, len: u32)

  datatype ItemView = ItemView(
    layoutVersion: u16, flags: u16, hash: u32, options: u32, enabled: u32, name: StrView, path: StrView)

  datatype SnapshotView = SnapshotView(
    layoutVersion: u16, flags: u16, itemCount: u32, systemdEnabled: u32, generation: u64, payload: seq<byte>)

  /** Decodes the response header and validates the item directory. */
  function DecodeSnapshot(buf: seq<byte>): (r: Result<SnapshotView>)
  {
    if |buf| < HDR_SIZE then Err(Truncated)
    else
      var layoutVersion := Get16(buf, 0);
      var flags := Get16(buf, 2);
      var itemCount := Get32(buf, 4);
      var systemdEnabled := Get32(buf, 8);
      var reserved := Get32(buf, 12);
      var generation := Get64(buf, 16);
      if layoutVersion != 1 then Err(BadLayout)
      else if flags != 0 then Err(BadLayout)
      else if reserved != 0 then Err(BadLayout)
      else
        var dirEnd := HDR_SIZE + 8 * itemCount;
        if dirEnd > |buf| then Err(Truncated)
        else
          match Entries(buf, HDR_SIZE, itemCount, |buf| - dirEnd, ITEM_HDR_SIZE)
          case Err(e) => Err(e)
          case Ok(_) => Ok(SnapshotView(layoutVersion, flags, itemCount, systemdEnabled, generation, buf))
  }

  /** A view handed out by `DecodeSnapshot`. */
  predicate Accepted(v: SnapshotView)
  {
    DecodeSnapshot(v.payload) == Ok(v)
  }

  /** The directory loop of the decoder, run as a loop. */
  method Decode(buf: seq<byte>) returns (r: Result<SnapshotView>)
    ensures r == DecodeSnapshot(buf)
  {
    hide Get16, Get32, Get64, CheckedEntry;
    if |buf| < HDR_SIZE {
      return Err(Truncated);
    }
    var layoutVersion, flags := Get16(buf, 0), Get16(buf, 2);
    var itemCount: nat, systemdEnabled, reserved := Get32(buf, 4), Get32(buf, 8), Get32(buf, 12);
    var generation := Get64(buf, 16);
    if layoutVersion != 1 || flags != 0 || reserved != 0 {
      return Err(BadLayout);
    }
    var dirEnd := HDR_SIZE + 8 * itemCount;
    if dirEnd > |buf| {
      return Err(Truncated);
    }
    var packedLen := |buf| - dirEnd;
    for i := 0 to itemCount
      invariant Entries(buf, HDR_SIZE, i, packedLen, ITEM_HDR_SIZE).Ok?
    {
      match CheckedEntry(buf, HDR_SIZE, i, packedLen, ITEM_HDR_SIZE) {
        case Err(e) =>
          EntriesErrStays(buf, HDR_SIZE, i + 1, itemCount, packedLen, ITEM_HDR_SIZE);
          return Err(e);
        case Ok(_) =>
      }
    }
    return Ok(SnapshotView(layoutVersion, flags, itemCount, systemdEnabled, generation, buf));
  }

  /** What an accepted view promises about its directory: every item lies whole in
      the packed area and holds at least an item header. */
  lemma AcceptedEntry(v: SnapshotView, i: nat)
    requires Accepted(v) && i < v.itemCount
    ensures var area := HDR_SIZE + 8 * v.itemCount;
            && area <= |v.payload|
            && var off, len := Get32(v.payload, HDR_SIZE + 8 * i), Get32(v.payload, HDR_SIZE + 8 * i + 4);
            && off % 8 == 0 && len >= ITEM_HDR_SIZE
            && area + off + len <= |v.payload|
  {
    hide Entries, Get16, Get32, Get64;
    var area := HDR_SIZE + 8 * v.itemCount;
    EntriesMeaning(v.payload, HDR_SIZE, v.itemCount, |v.payload| - area, ITEM_HDR_SIZE);
    assert CheckedEntry(v.payload, HDR_SIZE, i, |v.payload| - area, ITEM_HDR_SIZE).Ok?;
  }

  /** The bytes of item `index` of an accepted view. */
  function ItemSlice(v: SnapshotView, index: nat): (item: seq<byte>)
    requires Accepted(v) && index < v.itemCount
    ensures |item| >= ITEM_HDR_SIZE
  {
    AcceptedEntry(v, index);
    var start := HDR_SIZE + 8 * v.itemCount + Get32(v.payload, HDR_SIZE + 8 * index);
    v.payload[start..start + Get32(v.payload, HDR_SIZE + 8 * index + 4)]
  }

  function DecodeItem(item: seq<byte>): (r: Result<ItemView>)
    requires |item| >= ITEM_HDR_SIZE
  {
    var layoutVersion, flags := Get16(item, 0), Get16(item, 2);
    var hash, options, enabled := Get32(item, 4), Get32(item, 8), Get32(item, 12);
    var nameOff, nameLen := Get32(item, 16), Get32(item, 20);
    var pathOff, pathLen := Get32(item, 24), Get32(item, 28);
    if layoutVersion != 1 then Err(BadLayout)
    else if flags != 0 then Err(BadLayout)
    else if nameOff < ITEM_HDR_SIZE then Err(OutOfBounds)
    else if nameOff + nameLen + 1 > |item| then Err(OutOfBounds)
    else if item[nameOff + nameLen] != 0 then Err(MissingNul)
    else if pathOff < ITEM_HDR_SIZE then Err(OutOfBounds)
    else if pathOff + pathLen + 1 > |item| then Err(OutOfBounds)
    else if item[pathOff + pathLen] != 0 then Err(MissingNul)
    else if nameOff < pathOff + pathLen + 1 && pathOff < nameOff + nameLen + 1 then Err(BadLayout)
    else Ok(ItemView(layoutVersion, flags, hash, options, enabled,
                     StrView(item[nameOff..nameOff + nameLen + 1], nameLen),
                     StrView(item[pathOff..pathOff + pathLen + 1], pathLen)))
  }

  function ViewItem(v: SnapshotView, index: u32): (r: Result<ItemView>)
    requires Accepted(v)
  {
    if index >= v.itemCount then Err(OutOfBounds) else DecodeItem(ItemSlice(v, index))
  }

  /** `s` is a NUL-terminated string stored at `at` in `item`, behind the item header. */
  predicate StringAt(item: seq<byte>, s: StrView, at: nat)
  {
    && ITEM_HDR_SIZE <= at
    && at + s.len + 1 <= |item|
    && s.bytes == item[at..at + s.len + 1]
    && s.bytes[s.len] == 0
  }

  /** For arbitrary bytes: an item is accepted exactly when its version and flags are
      right and its two offset fields locate disjoint NUL-terminated strings behind
      the header, and the view then shows those strings. */
  lemma ItemMeaning(item: seq<byte>)
    requires |item| >= ITEM_HDR_SIZE
    ensures DecodeItem(item).Ok? <==>
              && Get16(item, 0) == 1 && Get16(item, 2) == 0
              && exists name, path ::
                   && StringAt(item, name, Get32(item, 16)) && name.len == Get32(item, 20)
                   && StringAt(item, path, Get32(item, 24)) && path.len == Get32(item, 28)
                   && (Get32(item, 16) + name.len + 1 <= Get32(item, 24)
                       || Get32(item, 24) + path.len + 1 <= Get32(item, 16))
    ensures DecodeItem(item).Ok? ==>
              var v := DecodeItem(item).value;
              && StringAt(item, v.name, Get32(item, 16)) && StringAt(item, v.path, Get32(item, 24))
              && (Get32(item, 16) + v.name.len + 1 <= Get32(item, 24)
                  || Get32(item, 24) + v.path.len + 1 <= Get32(item, 16))
  {
    hide Get16, Get32;
    if DecodeItem(item).Ok? {
      var v := DecodeItem(item).value;
      assert StringAt(item, v.name, Get32(item, 16)) && StringAt(item, v.path, Get32(item, 24));
    }
  }

  // -------------------------------------------------------------------------
  //  Decoding what was serialized
  // -------------------------------------------------------------------------

  /** The view of a stored item. */
  function ViewOf(x: SnapshotItem): ItemView
    requires |x.name| < U32_LIMIT && |x.path| < U32_LIMIT
  {
    ItemView(1, 0, x.hash, x.options, x.enabled, StrView(x.name + [0], |x.name|), StrView(x.path + [0], |x.path|))
  }

  lemma HeaderFields(count: u32, systemdEnabled: u32, generation: u64, rest: seq<byte>)
    ensures var b := SnapshotHeader(count, systemdEnabled, generation) + rest;
            && Get16(b, 0) == 1 && Get16(b, 2) == 0 && Get32(b, 4) == count
            && Get32(b, 8) == systemdEnabled && Get32(b, 12) == 0 && Get64(b, 16) == generation
  {
    hide U16, U32, U64, Get16, Get32, Get64, Val, LE, Pow256;
    var b := SnapshotHeader(count, systemdEnabled, generation) + rest;
    assert b[..HDR_SIZE] == SnapshotHeader(count, systemdEnabled, generation);
    SplitThree(b, 0, U16(1) + U16(0) + U32(count) + U32(systemdEnabled), U32(0), U64(generation));
    SplitFour(b, 0, U16(1), U16(0), U32(count), U32(systemdEnabled));
    Reads16(b, 0, 1);
    Reads16(b, 2, 0);
    Reads32(b, 4, count);
    Reads32(b, 8, systemdEnabled);
    Reads32(b, 12, 0);
    Reads64(b, 16, generation);
  }

  lemma ItemHeaderFields(x: SnapshotItem, rest: seq<byte>)
    requires ItemSize(x) < U32_LIMIT
    ensures var b := ItemHeader(x) + rest;
            && Get16(b, 0) == 1 && Get16(b, 2) == 0
            && Get32(b, 4) == x.hash && Get32(b, 8) == x.options && Get32(b, 12) == x.enabled
            && Get32(b, 16) == ITEM_HDR_SIZE && Get32(b, 20) == |x.name|
            && Get32(b, 24) == ITEM_HDR_SIZE + |x.name| + 1 && Get32(b, 28) == |x.path|
  {
    hide U16, U32, Get16, Get32, Val, LE, Pow256;
    var b := ItemHeader(x) + rest;
    assert b[..ITEM_HDR_SIZE] == ItemHeader(x);
    SplitThree(b, 0, U16(1) + U16(0) + U32(x.hash) + U32(x.options),
               U32(x.enabled) + U32(ITEM_HDR_SIZE) + U32(|x.name|),
               U32(ITEM_HDR_SIZE + |x.name| + 1) + U32(|x.path|));
    SplitFour(b, 0, U16(1), U16(0), U32(x.hash), U32(x.options));
    SplitThree(b, 12, U32(x.enabled), U32(ITEM_HDR_SIZE), U32(|x.name|));
    SplitTwo(b, 24, U32(ITEM_HDR_SIZE + |x.name| + 1), U32(|x.path|));
    Reads16(b, 0, 1);
    Reads16(b, 2, 0);
    Reads32(b, 4, x.hash);
    Reads32(b, 8, x.options);
    Reads32(b, 12, x.enabled);
    Reads32(b, 16, ITEM_HDR_SIZE);
    Reads32(b, 20, |x.name|);
    Reads32(b, 24, ITEM_HDR_SIZE + |x.name| + 1);
    Reads32(b, 28, |x.path|);
  }

  lemma ItemStrings(x: SnapshotItem)
    ensures var b, p := ItemBytes(x), ITEM_HDR_SIZE + |x.name| + 1;
            && b == ItemHeader(x) + (x.name + [0] + x.path + [0])
            && b[ITEM_HDR_SIZE..p] == x.name + [0] && b[p - 1] == 0
            && b[p..p + |x.path| + 1] == x.path + [0] && b[p + |x.path|] == 0
  {
    hide ItemHeader;
    assert |ItemHeader(x)| == ITEM_HDR_SIZE;
  }

  lemma ItemRoundTrip(x: SnapshotItem)
    requires ItemSize(x) < U32_LIMIT
    ensures DecodeItem(ItemBytes(x)) == Ok(ViewOf(x))
  {
    hide ItemHeader, ItemBytes, Get16, Get32;
    ItemStrings(x);
    ItemHeaderFields(x, x.name + [0] + x.path + [0]);
  }

  /** A serialized response lays out header, directory and packed items. */
  lemma SnapshotHolds(systemdEnabled: u32, generation: u64, items: seq<SnapshotItem>, rest: seq<byte>)
    ensures var b := SnapshotBytes(systemdEnabled, generation, items) + rest;
            && Holds(b, HDR_SIZE, HDR_SIZE + 8 * |items|, Dir(0, Blobs(items)), Pack(Blobs(items)))
            && HDR_SIZE + 8 * |items| <= |b|
            && b == SnapshotHeader(|items|, systemdEnabled, generation) + (b[HDR_SIZE..])
  {
    hide Dir, Pack, Blobs, SnapshotHeader;
  }

  /** Entry `i` of a serialized response passes the reader's checks. */
  lemma SerializedEntry(b: seq<byte>, items: seq<SnapshotItem>, i: nat)
    requires Fits(Blobs(items)) && i < |items|
    requires Holds(b, HDR_SIZE, HDR_SIZE + 8 * |items|, Dir(0, Blobs(items)), Pack(Blobs(items)))
    ensures CheckedEntry(b, HDR_SIZE, i, |b| - HDR_SIZE - 8 * |items|, ITEM_HDR_SIZE).Ok?
  {
    hide Dir, Pack, Offset, Fits, ItemBytes, Get32;
    FitsAt(Blobs(items), i);
    ReadBlob(b, HDR_SIZE, Blobs(items), i);
  }

  lemma SerializedDecodes(systemdEnabled: u32, generation: u64, items: seq<SnapshotItem>, rest: seq<byte>)
    requires Fits(Blobs(items))
    ensures var b := SnapshotBytes(systemdEnabled, generation, items) + rest;
            DecodeSnapshot(b) == Ok(SnapshotView(1, 0, |items|, systemdEnabled, generation, b))
  {
    hide SnapshotBytes, SnapshotHeader, Dir, Pack, Holds, CheckedEntry, Entries, Get16, Get32, Get64;
    var b := SnapshotBytes(systemdEnabled, generation, items) + rest;
    SnapshotHolds(systemdEnabled, generation, items, rest);
    HeaderFields(|items|, systemdEnabled, generation, b[HDR_SIZE..]);
    var packedLen := |b| - HDR_SIZE - 8 * |items|;
    forall i | 0 <= i < |items|
      ensures CheckedEntry(b, HDR_SIZE, i, packedLen, ITEM_HDR_SIZE).Ok?
    {
      SerializedEntry(b, items, i);
    }
    EntriesMeaning(b, HDR_SIZE, |items|, packedLen, ITEM_HDR_SIZE);
  }

  lemma SerializedItem(v: SnapshotView, items: seq<SnapshotItem>, i: u32)
    requires Fits(Blobs(items)) && i < |items| == v.itemCount
    requires Accepted(v)
    requires Holds(v.payload, HDR_SIZE, HDR_SIZE + 8 * |items|, Dir(0, Blobs(items)), Pack(Blobs(items)))
    ensures ItemSize(items[i]) < U32_LIMIT && ViewItem(v, i) == Ok(ViewOf(items[i]))
  {
    hide Dir, Pack, ItemBytes, DecodeItem, ViewOf, Holds, Fits, Blobs, Offset, DecodeSnapshot, Get32;
    FitsAt(Blobs(items), i);
    ReadBlob(v.payload, HDR_SIZE, Blobs(items), i);
    assert ItemSlice(v, i) == ItemBytes(items[i]);
    ItemRoundTrip(items[i]);
  }

  /** `b` is accepted, with these header values, and `ViewItem` gives exactly `items`. */
  ghost predicate DecodesTo(b: seq<byte>, systemdEnabled: u32, generation: u64, items: seq<SnapshotItem>)
  {
    && |items| < U32_LIMIT
    && var v := SnapshotView(1, 0, |items|, systemdEnabled, generation, b);
    && DecodeSnapshot(b) == Ok(v)
    && forall i: u32 :: i < |items| ==>
         ItemSize(items[i]) < U32_LIMIT && ViewItem(v, i) == Ok(ViewOf(items[i]))
  }

  /** The decoder accepts a serialized response, whatever follows it, and its items
      are exactly the stored ones. */
  lemma SnapshotRoundTrip(systemdEnabled: u32, generation: u64, items: seq<SnapshotItem>, rest: seq<byte>)
    requires Fits(Blobs(items))
    ensures DecodesTo(SnapshotBytes(systemdEnabled, generation, items) + rest, systemdEnabled, generation, items)
  {
    hide SnapshotBytes, DecodeSnapshot, Dir, Pack, Holds, ViewItem, ViewOf;
    SerializedDecodes(systemdEnabled, generation, items, rest);
    SnapshotHolds(systemdEnabled, generation, items, rest);
    var b := SnapshotBytes(systemdEnabled, generation, items) + rest;
    var v := SnapshotView(1, 0, |items|, systemdEnabled, generation, b);
    forall i: u32 | i < |items|
      ensures ItemSize(items[i]) < U32_LIMIT && ViewItem(v, i) == Ok(ViewOf(items[i]))
    {
      SerializedItem(v, items, i);
    }
  }

  // -------------------------------------------------------------------------
  //  Truncated and extended payloads
  // -------------------------------------------------------------------------

  /** Reads that stay inside `b` do not see what follows it. */
  lemma ReadsAgree(b: seq<byte>, x: seq<byte>, at: nat)
    ensures at + 2 <= |b| ==> Get16(b + x, at) == Get16(b, at)
    ensures at + 4 <= |b| ==> Get32(b + x, at) == Get32(b, at)
    ensures at + 8 <= |b| ==> Get64(b + x, at) == Get64(b, at)
  {
    assert at + 2 <= |b| ==> (b + x)[at..at + 2] == b[at..at + 2];
    assert at + 4 <= |b| ==> (b + x)[at..at + 4] == b[at..at + 4];
    assert at + 8 <= |b| ==> (b + x)[at..at + 8] == b[at..at + 8];
  }

  lemma HeaderReadsAgree(b: seq<byte>, x: seq<byte>)
    requires |b| >= HDR_SIZE
    ensures && Get16(b + x, 0) == Get16(b, 0) && Get16(b + x, 2) == Get16(b, 2)
            && Get32(b + x, 4) == Get32(b, 4) && Get32(b + x, 8) == Get32(b, 8)
            && Get32(b + x, 12) == Get32(b, 12) && Get64(b + x, 16) == Get64(b, 16)
  {
    hide Get16, Get32, Get64;
    ReadsAgree(b, x, 0);
    ReadsAgree(b, x, 2);
    ReadsAgree(b, x, 4);
    ReadsAgree(b, x, 8);
    ReadsAgree(b, x, 12);
    ReadsAgree(b, x, 16);
  }

  lemma EntriesExtend(b: seq<byte>, x: seq<byte>, n: nat, packedLen: nat)
    requires HDR_SIZE + 8 * n <= |b|
    requires Entries(b, HDR_SIZE, n, packedLen, ITEM_HDR_SIZE).Ok?
    ensures Entries(b + x, HDR_SIZE, n, packedLen + |x|, ITEM_HDR_SIZE).Ok?
  {
    hide Entries, Get32;
    EntriesMeaning(b, HDR_SIZE, n, packedLen, ITEM_HDR_SIZE);
    var longer, room := b + x, packedLen + |x|;
    forall i | 0 <= i < n
      ensures CheckedEntry(longer, HDR_SIZE, i, room, ITEM_HDR_SIZE).Ok?
    {
      assert CheckedEntry(b, HDR_SIZE, i, packedLen, ITEM_HDR_SIZE).Ok?;
      ReadsAgree(b, x, HDR_SIZE + 8 * i);
      ReadsAgree(b, x, HDR_SIZE + 8 * i + 4);
    }
    EntriesMeaning(longer, HDR_SIZE, n, room, ITEM_HDR_SIZE);
  }

  lemma ExtendedDecodes(v: SnapshotView, x: seq<byte>)
    requires Accepted(v)
    ensures Accepted(v.(payload := v.payload + x))
  {
    hide Entries, Get16, Get32, Get64;
    HeaderReadsAgree(v.payload, x);
    EntriesExtend(v.payload, x, v.itemCount, |v.payload| - HDR_SIZE - 8 * v.itemCount);
  }

  /** Bytes appended to an accepted payload change neither its acceptance nor any item. */
  lemma ExtensionInvisible(v: SnapshotView, x: seq<byte>, index: u32)
    requires Accepted(v)
    ensures var w := v.(payload := v.payload + x);
            Accepted(w) && ViewItem(w, index) == ViewItem(v, index)
  {
    hide DecodeSnapshot, DecodeItem, Get32;
    ExtendedDecodes(v, x);
    if index < v.itemCount {
      var w := v.(payload := v.payload + x);
      AcceptedEntry(v, index);
      ReadsAgree(v.payload, x, HDR_SIZE + 8 * index);
      ReadsAgree(v.payload, x, HDR_SIZE + 8 * index + 4);
      assert ItemSlice(w, index) == ItemSlice(v, index);
    }
  }

  lemma SnapshotSize(systemdEnabled: u32, generation: u64, items: seq<SnapshotItem>)
    ensures |SnapshotBytes(systemdEnabled, generation, items)| == HDR_SIZE + 8 * |items| + |Pack(Blobs(items))|
    ensures |SnapshotBytes(systemdEnabled, generation, items)|
            == if items == [] then HDR_SIZE
               else var n := |items| - 1;
                    HDR_SIZE + 8 * |items| + AlignedTotal(Blobs(items[..n])) + ItemSize(items[n])
  {
    hide ItemBytes, Pack, Dir, SnapshotHeader, AlignedTotal;
    if items == [] {
      PackEmpty();
    } else {
      var n := |items| - 1;
      assert Blobs(items) == Blobs(items[..n]) + [ItemBytes(items[n])];
      PackSnoc(Blobs(items[..n]), ItemBytes(items[n]));
      PackSize(Blobs(items[..n]));
    }
  }

  /** A directory that runs past the bytes given is refused. */
  lemma DirTooLong(c: seq<byte>, n: nat)
    requires n > 0 && HDR_SIZE + 8 * n <= |c|
    requires Get32(c, HDR_SIZE + 8 * (n - 1)) + Get32(c, HDR_SIZE + 8 * (n - 1) + 4) > |c| - HDR_SIZE - 8 * n
    ensures Entries(c, HDR_SIZE, n, |c| - HDR_SIZE - 8 * n, ITEM_HDR_SIZE).Err?
  {
    hide Entries, Get32;
    EntriesMeaning(c, HDR_SIZE, n, |c| - HDR_SIZE - 8 * n, ITEM_HDR_SIZE);
    assert !CheckedEntry(c, HDR_SIZE, n - 1, |c| - HDR_SIZE - 8 * n, ITEM_HDR_SIZE).Ok?;
  }

  /** No strict prefix of a serialized response is accepted. */
  lemma PrefixRejected(systemdEnabled: u32, generation: u64, items: seq<SnapshotItem>, k: nat)
    requires Fits(Blobs(items)) && k < |SnapshotBytes(systemdEnabled, generation, items)|
    ensures DecodeSnapshot(SnapshotBytes(systemdEnabled, generation, items)[..k]).Err?
  {
    hide SnapshotBytes, SnapshotHeader, Dir, Pack, Holds, Entries, Get16, Get32, Get64, Fits, AlignedTotal, ItemBytes;
    var b, n := SnapshotBytes(systemdEnabled, generation, items), |items|;
    SnapshotSize(systemdEnabled, generation, items);
    FitsCount(Blobs(items));
    var c, x := b[..k], b[k..];
    assert c + x == b && b + [] == b;
    SnapshotHolds(systemdEnabled, generation, items, []);
    HeaderFields(n, systemdEnabled, generation, b[HDR_SIZE..]);
    if k >= HDR_SIZE {
      HeaderReadsAgree(c, x);
      if k >= HDR_SIZE + 8 * n {
        LastEntry(b, HDR_SIZE, Blobs(items));
        ReadsAgree(c, x, HDR_SIZE + 8 * (n - 1));
        ReadsAgree(c, x, HDR_SIZE + 8 * (n - 1) + 4);
        DirTooLong(c, n);
      }
    }
  }
}
