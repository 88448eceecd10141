/** Batch payloads: the item directory, its readers and the in-place builder. */
module Batch {
  import opened Wire
  import opened PackedLayout

  // -------------------------------------------------------------------------
  //  Reading a directory
  // -------------------------------------------------------------------------

  function Directory(buf: seq<byte>, itemCount: u32, packedLen: u32): (r: Result<seq<DirEntry>>)
  {
    if |buf| < 8 * itemCount then Err(Truncated) else Entries(buf, 0, itemCount, packedLen, 0)
  }

  method DirDecode(buf: seq<byte>, itemCount: u32, packedLen: u32) returns (r: Result<seq<DirEntry>>)
    ensures r == Directory(buf, itemCount, packedLen)
  {
    if |buf| < 8 * itemCount {
      return Err(Truncated);
    }
    var out: seq<DirEntry> := [];
    for i := 0 to itemCount
      invariant Entries(buf, 0, i, packedLen, 0) == Ok(out)
    {
      var offset := Get32(buf, 8 * i);
      var length := Get32(buf, 8 * i + 4);
      if offset % 8 != 0 {
        EntriesErrStays(buf, 0, i + 1, itemCount, packedLen, 0);
        return Err(BadAlignment);
      }
      if offset + length > packedLen {
        EntriesErrStays(buf, 0, i + 1, itemCount, packedLen, 0);
        return Err(OutOfBounds);
      }
      out := out + [DirEntry(offset, length)];
    }
    return Ok(out);
  }

  /** Accepts and rejects exactly as `DirDecode` does, with the same error. */
  method DirValidate(buf: seq<byte>, itemCount: u32, packedLen: u32) returns (r: Result<()>)
    ensures r.Ok? <==> Directory(buf, itemCount, packedLen).Ok?
    ensures r.Err? ==> Directory(buf, itemCount, packedLen) == Err(r.error)
  {
    if |buf| < 8 * itemCount {
      return Err(Truncated);
    }
    for i := 0 to itemCount
      invariant Entries(buf, 0, i, packedLen, 0).Ok?
    {
      var offset := Get32(buf, 8 * i);
      var length := Get32(buf, 8 * i + 4);
      if offset % 8 != 0 {
        EntriesErrStays(buf, 0, i + 1, itemCount, packedLen, 0);
        return Err(BadAlignment);
      }
      if offset + length > packedLen {
        EntriesErrStays(buf, 0, i + 1, itemCount, packedLen, 0);
        return Err(OutOfBounds);
      }
    }
    return Ok(());
  }

  /** `buf` starts with the entries of `entries`, in order. */
  ghost predicate Lists(buf: seq<byte>, entries: seq<DirEntry>)
  {
    && 8 * |entries| <= |buf|
    && forall i :: 0 <= i < |entries| ==> buf[8 * i..8 * i + 8] == Entry(entries[i].offset, entries[i].length)
  }

  method DirEncode(entries: seq<DirEntry>, buf: array<byte>) returns (n: nat)
    modifies buf
    ensures n == if buf.Length < 8 * |entries| then 0 else 8 * |entries|
    ensures 8 * |entries| <= buf.Length ==> Lists(buf[..], entries)
    ensures buf[n..] == old(buf[n..])
  {
    hide Entry;
    if buf.Length < 8 * |entries| {
      return 0;
    }
    n := 8 * |entries|;
    ghost var b := buf[..];
    for i := 0 to |entries|
      invariant Lists(buf[..], entries[..i]) && buf[8 * i..] == b[8 * i..]
    {
      ghost var c := buf[..];
      PutEntry(buf, 8 * i, entries[i].offset, entries[i].length);
      ListsMore(c, entries, i);
      assert buf[8 * i + 8..] == c[8 * i..][8..];
    }
    assert entries[..|entries|] == entries;
  }

  lemma ListsMore(b: seq<byte>, entries: seq<DirEntry>, i: nat)
    requires i < |entries| && 8 * i + 8 <= |b| && Lists(b, entries[..i])
    ensures Lists(Splice(b, 8 * i, Entry(entries[i].offset, entries[i].length)), entries[..i + 1])
  {
    hide Entry;
    var c := Splice(b, 8 * i, Entry(entries[i].offset, entries[i].length));
    forall j | 0 <= j < i + 1
      ensures c[8 * j..8 * j + 8] == Entry(entries[j].offset, entries[j].length)
    {
      assert j < i ==> c[8 * j..8 * j + 8] == b[8 * j..8 * j + 8] && entries[..i][j] == entries[j];
    }
  }

  /** Decoding an encoded directory gives the entries back exactly when each is aligned and
      inside the packed area. */
  lemma DirRoundTrip(buf: seq<byte>, entries: seq<DirEntry>, packedLen: u32)
    requires |entries| < U32_LIMIT && Lists(buf, entries)
    ensures var r := Directory(buf, |entries|, packedLen);
            && (r.Ok? <==> forall i :: 0 <= i < |entries| ==>
                             entries[i].offset % 8 == 0 && entries[i].offset + entries[i].length <= packedLen)
            && (r.Ok? ==> r.value == entries)
  {
    hide Entries, Entry, Get32;
    EntriesMeaning(buf, 0, |entries|, packedLen, 0);
    forall i | 0 <= i < |entries|
      ensures Get32(buf, 8 * i) == entries[i].offset && Get32(buf, 8 * i + 4) == entries[i].length
    {
      EntryFields(buf, 8 * i, entries[i].offset, entries[i].length);
    }
    assert forall i :: 0 <= i < |entries| ==>
             (CheckedEntry(buf, 0, i, packedLen, 0).Ok?
              <==> entries[i].offset % 8 == 0 && entries[i].offset + entries[i].length <= packedLen);
  }

  /** The bytes of item `index` of a batch payload. */
  function ItemGet(payload: seq<byte>, itemCount: u32, index: u32): (r: Result<seq<byte>>)
  {
    if index >= itemCount then Err(OutOfBounds)
    else
      var dirAligned := Align8(8 * itemCount);
      if |payload| < dirAligned then Err(Truncated)
      else
        var offset := Get32(payload, 8 * index);
        var length := Get32(payload, 8 * index + 4);
        if offset % 8 != 0 then Err(BadAlignment)
        else if offset + length > |payload| - dirAligned then Err(OutOfBounds)
        else Ok(payload[dirAligned + offset..dirAligned + offset + length])
  }

  lemma ItemGetChecksEntry(payload: seq<byte>, itemCount: u32, i: u32)
    requires i < itemCount && 8 * itemCount <= |payload|
    ensures var c := CheckedEntry(payload[..8 * itemCount], 0, i, |payload| - 8 * itemCount, 0);
            match ItemGet(payload, itemCount, i)
            case Ok(_) => c.Ok?
            case Err(e) => c == Err(e)
  {
    var dir := payload[..8 * itemCount];
    assert dir[8 * i..8 * i + 4] == payload[8 * i..8 * i + 4];
    assert dir[8 * i + 4..8 * i + 8] == payload[8 * i + 4..8 * i + 8];
  }

  /** On a payload whose directory is present, validating the directory says in
      advance what `ItemGet` will say of every index. */
  lemma ValidateForeseesItemGet(payload: seq<byte>, itemCount: u32)
    requires 8 * itemCount <= |payload| < 8 * itemCount + U32_LIMIT
    ensures var d := Directory(payload[..8 * itemCount], itemCount, |payload| - 8 * itemCount);
            && (d.Ok? <==> forall i: u32 :: i < itemCount ==> ItemGet(payload, itemCount, i).Ok?)
            && (d.Err? ==> exists k: u32 :: k < itemCount
                             && ItemGet(payload, itemCount, k) == Err(d.error)
                             && forall i: u32 :: i < k ==> ItemGet(payload, itemCount, i).Ok?)
  {
    hide CheckedEntry, ItemGet, Entries;
    var dir, packedLen := payload[..8 * itemCount], |payload| - 8 * itemCount;
    EntriesMeaning(dir, 0, itemCount, packedLen, 0);
    forall i: u32 | i < itemCount
      ensures ItemGet(payload, itemCount, i).Ok? <==> CheckedEntry(dir, 0, i, packedLen, 0).Ok?
      ensures CheckedEntry(dir, 0, i, packedLen, 0).Err? ==>
                ItemGet(payload, itemCount, i) == Err(CheckedEntry(dir, 0, i, packedLen, 0).error)
    {
      ItemGetChecksEntry(payload, itemCount, i);
    }
    var d := Directory(dir, itemCount, packedLen);
    if d.Err? {
      var k :| 0 <= k < itemCount
        && CheckedEntry(dir, 0, k, packedLen, 0) == Err(d.error)
        && forall i :: 0 <= i < k ==> CheckedEntry(dir, 0, i, packedLen, 0).Ok?;
      assert ItemGet(payload, itemCount, k) == Err(d.error);
    }
  }

  // -------------------------------------------------------------------------
  //  The pure serializer
  // -------------------------------------------------------------------------

  function BatchBytes(items: seq<seq<byte>>): (b: seq<byte>)
  {
    Dir(0, items) + Pad(Pack(items))
  }

  lemma BatchSize(items: seq<seq<byte>>)
    ensures |BatchBytes(items)| == 8 * |items| + AlignedTotal(items)
  {
    PackSize(items);
  }

  /** Any payload that starts with the directory and the packed items gives every
      item back, whatever bytes follow. */
  lemma ItemGetInverts(items: seq<seq<byte>>, b: seq<byte>, i: u32)
    requires Fits(items) && i < |items|
    requires Dir(0, items) + Pack(items) <= b
    ensures ItemGet(b, |items|, i) == Ok(items[i])
  {
    hide Dir, Pack, Offset, Fits, Get32;
    FitsAt(items, i);
    HoldsPrefix(b, Dir(0, items), Pack(items));
    ReadBlob(b, 0, items, i);
  }

  // -------------------------------------------------------------------------
  //  The builder
  // -------------------------------------------------------------------------

  class BatchBuilder {
    const buf: array<byte>
    var itemCount: nat
    const maxItems: u32
    const dirEnd: nat
    var dataOffset: nat
    ghost var items: seq<seq<byte>>  // the items added so far

    ghost predicate Valid()
      reads this, buf
    {
      && dirEnd == 8 * maxItems
      && itemCount == |items| <= maxItems
      && dataOffset == |Pack(items)|
      && (items != [] ==> Holds(buf[..], 0, dirEnd, Dir(0, items), Pack(items)))
    }

    constructor (buf: array<byte>, maxItems: u32)
      ensures Valid()
      ensures this.buf == buf && this.maxItems == maxItems && items == []
    {
      this.buf, this.maxItems := buf, maxItems;
      itemCount, dataOffset := 0, 0;
      dirEnd := Align8(8 * maxItems);
      items := [];
    }

    /** Succeeds exactly when a directory slot and the bytes are free. */
    method Add(item: seq<byte>) returns (r: Result<()>)
      requires Valid()
      modifies this`itemCount, this`dataOffset, this`items, buf
      ensures Valid()
      ensures r.Ok? <==> |old(items)| < maxItems
                         && 8 * maxItems + AlignedTotal(old(items)) + |item| <= buf.Length
      ensures r.Ok? ==> items == old(items) + [item]
      ensures r.Err? ==> r.error == Overflow && items == old(items) && buf[..] == old(buf[..])
      ensures r.Ok? ==> forall k :: 8 * maxItems + |Pack(items)| <= k < buf.Length ==> buf[k] == old(buf[k])
    {
      hide Dir, Pack, Entry, Tail, AlignedTotal, Holds;
      PackSize(items);
      if itemCount >= maxItems {
        return Err(Overflow);
      }
      var alignedOff := Align8(dataOffset);
      var absPos := dirEnd + alignedOff;
      if absPos + |item| > buf.Length {
        return Err(Overflow);
      }
      HoldsEmpty(buf[..], 0, dirEnd, 0);
      ghost var end := absPos + |item|;
      Append(buf, 0, dirEnd, 0, items, itemCount, dataOffset, item);
      assert forall k :: end <= k < buf.Length ==> buf[k] == buf[end..][k - end];
      PackSnoc(items, item);
      dataOffset := alignedOff + |item|;
      itemCount := itemCount + 1;
      items := items + [item];
      return Ok(());
    }

    /** Compacts in place. The buffer then starts with the directory and the packed
        items; the trailing padding is cleared exactly when some buffer is left over
        behind it, so otherwise the result is canonical only if those bytes were
        already zero. */
    method Finish() returns (total: nat, count: nat)
      requires Valid()
      modifies buf
      ensures count == |items| && total == 8 * |items| + AlignedTotal(items)
      ensures 8 * count + |Pack(items)| <= buf.Length
      ensures buf[..8 * count + |Pack(items)|] == Dir(0, items) + Pack(items)
      ensures total < buf.Length ==> buf[..total] == BatchBytes(items)
      ensures total == buf.Length ==>
                (buf[..total] == BatchBytes(items) <==>
                 forall k :: 8 * count + |Pack(items)| <= k < total ==> old(buf[k]) == 0)
      ensures total > buf.Length <==> |items| == maxItems && 8 * maxItems + AlignedTotal(items) > buf.Length
      ensures buf.Length % 8 == 0 ==> total <= buf.Length
      ensures total == buf.Length > 0 ==> |items| == maxItems && buf[..] == old(buf[..])
    {
      hide Dir, Pack, AlignedTotal, Splice, Holds, Align8, Pad;
      PackSize(items);
      PackEmpty();
      count := itemCount;
      total := Compact(buf, dirEnd, Align8(8 * count), dataOffset, Dir(0, items), Pack(items));
      Canonical(items, buf[..]);
    }
  }

  /** Slides the packed bytes down to `finalDir` and clears the trailing padding when
      there is buffer behind it. */
  method Compact(buf: array<byte>, dirEnd: nat, finalDir: nat, used: nat, ghost dir: seq<byte>, ghost pack: seq<byte>)
    returns (total: nat)
    requires finalDir == |dir| <= dirEnd && used == |pack|
    requires finalDir % 8 == 0 && dirEnd % 8 == 0
    requires if |dir| > 0 then Holds(buf[..], 0, dirEnd, dir, pack) else pack == []
    modifies buf
    ensures total == finalDir + Align8(used)
    ensures dir + pack <= buf[..]
    ensures total < buf.Length ==> buf[..total] == dir + Pad(pack)
    ensures total >= buf.Length ==> buf[..] == old(buf[..])
    ensures buf.Length % 8 == 0 || finalDir < dirEnd ==> total <= buf.Length
    ensures finalDir < dirEnd ==> total < buf.Length || buf.Length == 0
  {
    hide Splice, Pad, Holds, Align8;
    SlideDown(buf, dirEnd, finalDir, used, dir, pack);
    ghost var b1 := buf[..];
    total := finalDir + Align8(used);
    TotalFits(finalDir, dirEnd, used, buf.Length);
    if total < buf.Length {
      var padStart := finalDir + used;
      ZeroGap(buf, padStart, total);
      PaddedFront(b1, dir, pack);
    }
  }

  lemma TotalFits(finalDir: nat, dirEnd: nat, used: nat, size: nat)
    requires finalDir % 8 == 0 && dirEnd % 8 == 0 && finalDir <= dirEnd && finalDir + used <= size
    requires finalDir > 0 ==> dirEnd + used <= size
    ensures size % 8 == 0 || (finalDir > 0 && finalDir < dirEnd) ==> finalDir + Align8(used) <= size
    ensures finalDir > 0 && finalDir < dirEnd ==> finalDir + Align8(used) < size
  {
  }

  /** Zeroing the gap behind directory and items leaves both, and the padding. */
  lemma PaddedFront(b: seq<byte>, dir: seq<byte>, pack: seq<byte>)
    requires dir + pack <= b && |dir| + Align8(|pack|) <= |b|
    ensures var c := Splice(b, |dir| + |pack|, Zeros(Align8(|pack|) - |pack|));
            dir + pack <= c && c[..|dir| + Align8(|pack|)] == dir + Pad(pack)
  {
    var at, zeros := |dir| + |pack|, Zeros(Align8(|pack|) - |pack|);
    var c := Splice(b, at, zeros);
    assert c[..at] == b[..at] == dir + pack;
    assert c[..at + |zeros|] == c[..at] + zeros;
    assert dir + Pad(pack) == dir + pack + zeros;
  }

  method SlideDown(buf: array<byte>, dirEnd: nat, finalDir: nat, used: nat, ghost dir: seq<byte>, ghost pack: seq<byte>)
    requires finalDir == |dir| <= dirEnd && used == |pack|
    requires if |dir| > 0 then Holds(buf[..], 0, dirEnd, dir, pack) else pack == []
    modifies buf
    ensures |dir| > 0 ==> dirEnd + used <= buf.Length
    ensures dir + pack <= buf[..]
    ensures finalDir == dirEnd || used == 0 ==> buf[..] == old(buf[..])
  {
    hide Splice;
    ghost var b0 := buf[..];
    if finalDir < dirEnd && used > 0 {
      CopyWithin(buf, dirEnd, dirEnd + used, finalDir);
    }
    CompactFront(b0, dirEnd, dir, pack, buf[..]);
  }

  /** The buffer front after the optional left shift. */
  lemma CompactFront(b0: seq<byte>, dirEnd: nat, dir: seq<byte>, pack: seq<byte>, b1: seq<byte>)
    requires |dir| > 0 ==> Holds(b0, 0, dirEnd, dir, pack)
    requires |dir| == 0 ==> pack == []
    requires b1 == if |dir| < dirEnd && |pack| > 0 then Splice(b0, |dir|, pack) else b0
    ensures dir + pack <= b1
  {
    if |dir| > 0 && |dir| < dirEnd && |pack| > 0 {
      HoldsCompact(b0, 0, dirEnd, dir, pack);
    }
  }

  /** A buffer that starts with directory and items is canonical iff it pads with zeros. */
  lemma Canonical(items: seq<seq<byte>>, b: seq<byte>)
    requires Dir(0, items) + Pack(items) <= b
    ensures var used := 8 * |items| + |Pack(items)|;
            var total := 8 * |items| + Align8(|Pack(items)|);
            total <= |b| ==>
              (b[..total] == BatchBytes(items) <==> forall k :: used <= k < total ==> b[k] == 0)
  {
    hide Dir, Pack;
    var used := 8 * |items| + |Pack(items)|;
    var total := 8 * |items| + Align8(|Pack(items)|);
    if total <= |b| {
      var gap := Zeros(total - used);
      assert BatchBytes(items) == (Dir(0, items) + Pack(items)) + gap;
      assert b[..total] == b[..used] + b[used..total];
      assert b[used..total] == gap <==> forall k :: used <= k < total ==> b[k] == 0;
      assert b[..total] == BatchBytes(items) ==> BatchBytes(items)[used..] == b[used..total];
    }
  }

  // -------------------------------------------------------------------------
  //  Whole builder runs
  // -------------------------------------------------------------------------

  /** The items whose add succeeded. */
  function Kept(items: seq<seq<byte>>, results: seq<Result<()>>): (kept: seq<seq<byte>>)
    requires |items| == |results|
    ensures |kept| <= |items|
  {
    if items == [] then []
    else
      var n := |items| - 1;
      var front := Kept(items[..n], results[..n]);
      if results[n].Ok? then front + [items[n]] else front
  }

  /** Each add succeeds exactly when the items kept before it leave a slot and the bytes. */
  ghost predicate Reported(cap: nat, maxItems: u32, items: seq<seq<byte>>, results: seq<Result<()>>)
  {
    && |results| == |items|
    && forall i :: 0 <= i < |items| ==>
         var before := Kept(items[..i], results[..i]);
         (results[i].Ok? <==> |before| < maxItems && 8 * maxItems + AlignedTotal(before) + |items[i]| <= cap)
  }

  lemma KeptSnoc(items: seq<seq<byte>>, results: seq<Result<()>>, item: seq<byte>, r: Result<()>)
    requires |items| == |results|
    ensures Kept(items + [item], results + [r]) == if r.Ok? then Kept(items, results) + [item] else Kept(items, results)
  {
    assert (items + [item])[..|items|] == items && (results + [r])[..|items|] == results;
  }

  lemma ReportedSnoc(cap: nat, maxItems: u32, items: seq<seq<byte>>, results: seq<Result<()>>, item: seq<byte>,
                     r: Result<()>)
    requires Reported(cap, maxItems, items, results)
    requires var before := Kept(items, results);
             r.Ok? <==> |before| < maxItems && 8 * maxItems + AlignedTotal(before) + |item| <= cap
    ensures Reported(cap, maxItems, items + [item], results + [r])
  {
    hide Kept, AlignedTotal;
    var items', results' := items + [item], results + [r];
    forall i | 0 <= i < |items'|
      ensures var before := Kept(items'[..i], results'[..i]);
              results'[i].Ok? <==> |before| < maxItems && 8 * maxItems + AlignedTotal(before) + |items'[i]| <= cap
    {
      if i < |items| {
        assert items'[..i] == items[..i] && results'[..i] == results[..i];
      } else {
        assert items'[..i] == items && results'[..i] == results;
      }
    }
  }

  lemma ReportedLength(cap: nat, maxItems: u32, items: seq<seq<byte>>, results: seq<Result<()>>)
    requires Reported(cap, maxItems, items, results)
    ensures |results| == |items|
  {
    hide Kept, AlignedTotal;
  }

  /** The last add of a run, and the run before it. */
  lemma ReportedFront(cap: nat, maxItems: u32, items: seq<seq<byte>>, results: seq<Result<()>>)
    requires items != [] && Reported(cap, maxItems, items, results)
    ensures var n := |items| - 1;
            && |results| == |items| && Reported(cap, maxItems, items[..n], results[..n])
            && var before := Kept(items[..n], results[..n]);
               && (results[n].Ok? <==> |before| < maxItems && 8 * maxItems + AlignedTotal(before) + |items[n]| <= cap)
               && Kept(items, results) == if results[n].Ok? then before + [items[n]] else before
  {
    hide AlignedTotal;
    var n := |items| - 1;
    var front, reported := items[..n], results[..n];
    forall i | 0 <= i < n
      ensures var before := Kept(front[..i], reported[..i]);
              reported[i].Ok? <==> |before| < maxItems && 8 * maxItems + AlignedTotal(before) + |front[i]| <= cap
    {
      assert front[..i] == items[..i] && reported[..i] == results[..i];
    }
  }

  lemma NothingKept(cap: nat, maxItems: u32, items: seq<seq<byte>>)
    ensures Kept(items[..0], []) == [] && Reported(cap, maxItems, items[..0], [])
  {
  }

  /** Adds every item of a list to a new builder, some adds failing. */
  method AddAll(buf: array<byte>, maxItems: u32, items: seq<seq<byte>>)
    returns (b: BatchBuilder, results: seq<Result<()>>)
    modifies buf
    ensures fresh(b) && b.buf == buf && b.maxItems == maxItems && b.Valid()
    ensures Reported(buf.Length, maxItems, items, results) && b.items == Kept(items, results)
    ensures forall k :: 8 * maxItems + |Pack(b.items)| <= k < buf.Length ==> buf[k] == old(buf[k])
  {
    hide Kept, Reported, Dir, Pack, Holds, AlignedTotal;
    b := new BatchBuilder(buf, maxItems);
    results := [];
    NothingKept(buf.Length, maxItems, items);
    for i := 0 to |items|
      invariant fresh(b) && b.buf == buf && b.maxItems == maxItems && b.Valid() && |results| == i
      invariant Reported(buf.Length, maxItems, items[..i], results) && b.items == Kept(items[..i], results)
      invariant forall k :: 8 * maxItems + |Pack(b.items)| <= k < buf.Length ==> buf[k] == old(buf[k])
    {
      assert items[..i + 1] == items[..i] + [items[i]];
      ghost var before := b.items;
      var r := b.Add(items[i]);
      KeptSnoc(items[..i], results, items[i], r);
      ReportedSnoc(buf.Length, maxItems, items[..i], results, items[i], r);
      PackSnoc(before, items[i]);
      results := results + [r];
    }
    assert items[..|items|] == items;
  }

  /** Builds a batch from any list, with any number of slots: `ItemGet` on the finished batch
      returns exactly the kept items, in order, through the left shift of unused slots. The bytes
      are canonical, except that padding up to the very end of the buffer keeps what was there. */
  method Build(buf: array<byte>, maxItems: u32, items: seq<seq<byte>>)
    returns (total: nat, count: nat, results: seq<Result<()>>)
    modifies buf
    ensures Reported(buf.Length, maxItems, items, results)
    ensures var kept := Kept(items, results);
            && count == |kept| <= maxItems && total == 8 * count + AlignedTotal(kept)
            && (total > buf.Length <==> count == maxItems && 8 * maxItems + AlignedTotal(kept) > buf.Length)
            && (buf.Length % 8 == 0 ==> total <= buf.Length)
            && (total < buf.Length ==> buf[..total] == BatchBytes(kept))
            && (total == buf.Length ==>
                  (buf[..] == BatchBytes(kept)
                   <==> forall k :: 8 * count + |Pack(kept)| <= k < total ==> old(buf[k]) == 0))
    ensures buf.Length < U32_LIMIT ==>
              forall i: u32 :: i < count ==>
                ItemGet(buf[..if total <= buf.Length then total else buf.Length], count, i)
                == Ok(Kept(items, results)[i])
  {
    hide Kept, Reported, Dir, Pack, Holds, AlignedTotal, BatchBytes, ItemGet;
    var b;
    b, results := AddAll(buf, maxItems, items);
    ghost var kept := b.items;
    total, count := b.Finish();
    PackSize(kept);
    assert total == buf.Length ==> buf[..] == buf[..total];
    if buf.Length < U32_LIMIT {
      var n := if total <= buf.Length then total else buf.Length;
      PrefixOf(buf[..], 8 * count + |Pack(kept)|, n);
      PackedFits(kept);
      forall i: u32 | i < count
        ensures ItemGet(buf[..n], count, i) == Ok(kept[i])
      {
        ItemGetInverts(kept, buf[..n], i);
      }
    }
  }

  lemma PrefixOf(b: seq<byte>, m: nat, n: nat)
    requires m <= n <= |b|
    ensures b[..m] <= b[..n]
  {
  }

  /** A nine-byte buffer with one slot takes a one-byte item, and finishing reports 16 bytes. */
  method TotalCanExceedBuffer(x: byte) returns (buf: array<byte>, total: nat)
    ensures fresh(buf) && buf.Length == 9 && total == 16
  {
    buf := new byte[9](_ => 0);
    var count, results;
    total, count, results := Build(buf, 1, [[x]]);
    OneItem(9, [x], results);
  }

  /** A full 16-byte buffer keeps stale bytes in its padding, so the batch is not canonical. */
  method StalePaddingSurvives(x: byte) returns (buf: array<byte>, total: nat)
    ensures fresh(buf) && buf.Length == total == 16 && buf[..] != BatchBytes([[x]])
    ensures ItemGet(buf[..], 1, 0) == Ok([x])
  {
    hide Kept, Reported, Dir, Pack, AlignedTotal, BatchBytes, ItemGet;
    buf := new byte[16](_ => 1);
    assert buf[15] == 1;
    var count, results;
    total, count, results := Build(buf, 1, [[x]]);
    OneItem(16, [x], results);
    assert buf[..16] == buf[..];
    assert ItemGet(buf[..16], count, 0) == Ok(Kept([[x]], results)[0]);
  }

  lemma OneItem(cap: nat, item: seq<byte>, results: seq<Result<()>>)
    requires Reported(cap, 1, [item], results) && 8 + |item| <= cap
    ensures |results| == 1 && Kept([item], results) == [item] && AlignedTotal([item]) == Align8(|item|)
            && Pack([item]) == item
  {
    var none: seq<seq<byte>> := [];
    assert [item] == none + [item] && [item][..0] == none && results[..0] == [];
    assert Kept(none, []) == [] && AlignedTotal(none) == 0;
    PackSnoc(none, item);
    PackEmpty();
  }
}
