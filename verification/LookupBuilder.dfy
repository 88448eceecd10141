/** The lookup response builder and the dispatcher that drives a handler with it. */
module LookupBuilding {
  import opened Wire
  import opened PackedLayout
  import opened LookupItem
  import opened LookupCodec
  import opened LookupReply

  // -------------------------------------------------------------------------
  //  Writing one item
  // -------------------------------------------------------------------------

  method WriteItemHeader(a: array<byte>, p: nat, x: Item)
    requires p + ITEM_HDR_SIZE <= a.Length
    modifies a
    ensures a[..] == Splice(old(a[..]), p, Header(x))
  {
    hide Splice, U16, U32;
    ghost var b := a[..];
    Put(a, p, U16(1));
    ghost var d1 := U16(1);
    PutNext(a, b, p, d1, p + 2, U16(x.status));
    ghost var d2 := d1 + U16(x.status);
    PutNext(a, b, p, d2, p + 4, U16(x.orchestrator));
    ghost var d3 := d2 + U16(x.orchestrator);
    PutNext(a, b, p, d3, p + 6, U16(0));
    ghost var d4 := d3 + U16(0);
    PutNext(a, b, p, d4, p + 8, U32(ITEM_HDR_SIZE));
    ghost var d5 := d4 + U32(ITEM_HDR_SIZE);
    PutNext(a, b, p, d5, p + 12, U32(|x.path|));
    ghost var d6 := d5 + U32(|x.path|);
    PutNext(a, b, p, d6, p + 16, U32(ITEM_HDR_SIZE + |x.path| + 1));
    ghost var d7 := d6 + U32(ITEM_HDR_SIZE + |x.path| + 1);
    PutNext(a, b, p, d7, p + 20, U32(|x.name|));
    ghost var d8 := d7 + U32(|x.name|);
    PutNext(a, b, p, d8, p + 24, U16(|x.labels|));
    ghost var d9 := d8 + U16(|x.labels|);
    PutNext(a, b, p, d9, p + 26, U16(0));
    Regroup(d4, U32(ITEM_HDR_SIZE), U32(|x.path|), U32(ITEM_HDR_SIZE + |x.path| + 1), U32(|x.name|), U16(|x.labels|),
            U16(0));
  }

  lemma Regroup(a: seq<byte>, s: seq<byte>, t: seq<byte>, u: seq<byte>, v: seq<byte>, w: seq<byte>, x: seq<byte>)
    ensures a + s + t + u + v + w + x == a + (s + t + u + v) + (w + x)
  {
    assert a + s + t + u + v == a + (s + t + u + v);
  }

  method WriteFixed(a: array<byte>, p: nat, x: Item)
    requires p + FixedEnd(x) <= a.Length
    modifies a
    ensures a[..] == Splice(old(a[..]), p, Header(x) + (x.path + [0] + x.name + [0]))
  {
    hide Splice, Header;
    ghost var b := a[..];
    WriteItemHeader(a, p, x);
    var pathStart := p + ITEM_HDR_SIZE;
    PutNext(a, b, p, Header(x), pathStart, x.path);
    PutNext(a, b, p, Header(x) + x.path, pathStart + |x.path|, [0]);
    var nameStart := pathStart + |x.path| + 1;
    PutNext(a, b, p, Header(x) + x.path + [0], nameStart, x.name);
    PutNext(a, b, p, Header(x) + x.path + [0] + x.name, nameStart + |x.name|, [0]);
    assert Header(x) + x.path + [0] + x.name + [0] == Header(x) + (x.path + [0] + x.name + [0]);
  }

  method WriteStrings(a: array<byte>, at: nat, l: Label)
    requires at + |l.key| + 1 + |l.value| + 1 <= a.Length
    modifies a
    ensures a[..] == Splice(old(a[..]), at, l.key + [0] + l.value + [0])
  {
    hide Splice;
    ghost var b := a[..];
    Put(a, at, l.key);
    PutNext(a, b, at, l.key, at + |l.key|, [0]);
    PutNext(a, b, at, l.key + [0], at + |l.key| + 1, l.value);
    PutNext(a, b, at, l.key + [0] + l.value, at + |l.key| + 1 + |l.value|, [0]);
  }

  method WriteLabelEntry(a: array<byte>, at: nat, next: nat, l: Label)
    requires at + LABEL_ENTRY_SIZE <= a.Length
    modifies a
    ensures a[..] == Splice(old(a[..]), at, LabelEntry(next, l))
  {
    hide Splice, U32;
    ghost var b := a[..];
    Put(a, at, U32(next));
    PutNext(a, b, at, U32(next), at + 4, U32(|l.key|));
    PutNext(a, b, at, U32(next) + U32(|l.key|), at + 8, U32(next + |l.key| + 1));
    PutNext(a, b, at, U32(next) + U32(|l.key|) + U32(next + |l.key| + 1), at + 12, U32(|l.value|));
  }

  /** Outside `from..to` nothing differs. */
  ghost predicate SameOutside(b: seq<byte>, c: seq<byte>, from: nat, to: nat)
  {
    from <= to <= |b| == |c| && b[..from] == c[..from] && b[to..] == c[to..]
  }

  lemma SpliceInside(b: seq<byte>, c: seq<byte>, from: nat, to: nat, at: nat, s: seq<byte>)
    requires SameOutside(b, c, from, to) && from <= at && at + |s| <= to
    ensures SameOutside(b, Splice(c, at, s), from, to)
  {
    var d := Splice(c, at, s);
    assert d[..from] == c[..from];
    assert d[to..] == c[to..];
  }

  lemma FilledIn(b: seq<byte>, c: seq<byte>, from: nat, dir: seq<byte>, packed: seq<byte>)
    requires SameOutside(b, c, from, from + |dir| + |packed|)
    requires Holds(c, from, from + |dir|, dir, packed)
    ensures c == Splice(b, from, dir + packed)
  {
    var mid, to := from + |dir|, from + |dir| + |packed|;
    assert c == c[..from] + c[from..mid] + c[mid..to] + c[to..];
  }

  lemma LabelStringsGrow(ls: seq<Label>, i: nat)
    requires i < |ls|
    ensures |LabelStrings(ls[..i])| + |ls[i].key| + 1 + |ls[i].value| + 1
            == |LabelStrings(ls[..i + 1])| <= |LabelStrings(ls)|
  {
    LabelPlaces(0, ls, i);
  }

  /** Writes the table at `table` and the strings behind it; item offsets are counted from `p`. */
  method WriteTable(a: array<byte>, p: nat, table: nat, ls: seq<Label>)
    requires p + table + LABEL_ENTRY_SIZE * |ls| + |LabelStrings(ls)| <= a.Length
    modifies a
    ensures a[..] == Splice(old(a[..]), p + table, LabelTable(table + LABEL_ENTRY_SIZE * |ls|, ls) + LabelStrings(ls))
  {
    hide Splice, Holds, LabelTable, LabelStrings, LabelEntry, SameOutside;
    ghost var b := a[..];
    var base := table + LABEL_ENTRY_SIZE * |ls|;
    ghost var end := p + base + |LabelStrings(ls)|;
    var next, i := base, 0;
    StartsEmpty(b, p, table, base, ls);
    while i < |ls|
      invariant i <= |ls| && next == base + |LabelStrings(ls[..i])|
      invariant |a[..]| == a.Length
      invariant SameOutside(b, a[..], p + table, end)
      invariant Holds(a[..], p + table, p + base, LabelTable(base, ls[..i]), LabelStrings(ls[..i]))
    {
      var l := ls[i];
      ghost var c := a[..];
      LabelStringsGrow(ls, i);
      LabelStep(b, c, p, table, base, end, ls, i);
      WriteStrings(a, p + next, l);
      WriteLabelEntry(a, p + table + LABEL_ENTRY_SIZE * i, next, l);
      next := next + |l.key| + 1 + |l.value| + 1;
      i := i + 1;
    }
    assert ls[..i] == ls;
    FilledIn(b, a[..], p + table, LabelTable(base, ls), LabelStrings(ls));
  }

  lemma StartsEmpty(b: seq<byte>, p: nat, table: nat, base: nat, ls: seq<Label>)
    requires table <= base && p + base + |LabelStrings(ls)| <= |b|
    ensures LabelStrings(ls[..0]) == []
    ensures SameOutside(b, b, p + table, p + base + |LabelStrings(ls)|)
    ensures Holds(b, p + table, p + base, LabelTable(base, ls[..0]), LabelStrings(ls[..0]))
  {
  }

  lemma LabelStep(b: seq<byte>, c: seq<byte>, p: nat, table: nat, base: nat, end: nat, ls: seq<Label>, i: nat)
    requires i < |ls| && base == table + LABEL_ENTRY_SIZE * |ls| && end == p + base + |LabelStrings(ls)| <= |c|
    requires SameOutside(b, c, p + table, end)
    requires Holds(c, p + table, p + base, LabelTable(base, ls[..i]), LabelStrings(ls[..i]))
    requires |LabelStrings(ls[..i])| + |ls[i].key| + 1 + |ls[i].value| + 1
             == |LabelStrings(ls[..i + 1])| <= |LabelStrings(ls)|
    ensures var at, l := |LabelStrings(ls[..i])|, ls[i];
            var d := Splice(Splice(c, p + base + at, l.key + [0] + l.value + [0]),
                            p + table + LABEL_ENTRY_SIZE * i, LabelEntry(base + at, l));
            && SameOutside(b, d, p + table, end)
            && Holds(d, p + table, p + base, LabelTable(base, ls[..i + 1]), LabelStrings(ls[..i + 1]))
  {
    hide Splice, Holds, LabelTable, LabelStrings, LabelEntry, SameOutside;
    var front, l := ls[..i], ls[i];
    var at, strings := |LabelStrings(front)|, l.key + [0] + l.value + [0];
    assert ls[..i + 1] == front + [l];
    TableSnoc(base, front, l);
    HoldsAppend(c, p + table, p + base, LabelTable(base, front), LabelStrings(front), strings,
                LabelEntry(base + at, l));
    SpliceInside(b, c, p + table, end, p + base + at, strings);
    SpliceInside(b, Splice(c, p + base + at, strings), p + table, end,
                 p + table + LABEL_ENTRY_SIZE * i, LabelEntry(base + at, l));
  }

  method WriteItem(a: array<byte>, p: nat, x: Item)
    requires p + |ItemBytes(x)| <= a.Length
    modifies a
    ensures a[..] == Splice(old(a[..]), p, ItemBytes(x))
  {
    hide Splice, Header, LabelTable, LabelStrings, ItemBytes, LabelPart, Zeros;
    ghost var b := a[..];
    ItemInParts(x);
    var fixedEnd := FixedEnd(x);
    ghost var fixed := Header(x) + (x.path + [0] + x.name + [0]);
    WriteFixed(a, p, x);
    if x.labels != [] {
      var table := Align8(fixedEnd);
      ZeroGap(a, p + fixedEnd, p + table);
      ghost var pad := Zeros(table - fixedEnd);
      SpliceAdjacent(b, p, fixed, pad);
      WriteTable(a, p, table, x.labels);
      ghost var labels := LabelTable(table + LABEL_ENTRY_SIZE * |x.labels|, x.labels) + LabelStrings(x.labels);
      SpliceAdjacent(b, p, fixed + pad, labels);
    }
  }

  /** Checks the labels and sizes the item they end. */
  method LabelLayout(fixedEnd: nat, ls: seq<Label>) returns (r: Result<nat>)
    ensures r.Ok? <==> LabelsOk(ls)
    ensures r.Ok? ==> r.value == fixedEnd + |LabelPart(fixedEnd, ls)|
    ensures r.Err? ==> r.error == BadLayout
  {
    hide LabelTable, LabelStrings, NoNul;
    if ls == [] {
      return Ok(fixedEnd);
    }
    var size, i := Align8(fixedEnd) + LABEL_ENTRY_SIZE * |ls|, 0;
    NoStrings(ls);
    while i < |ls|
      invariant i <= |ls| && LabelsOk(ls[..i])
      invariant size == Align8(fixedEnd) + LABEL_ENTRY_SIZE * |ls| + |LabelStrings(ls[..i])|
    {
      var l := ls[i];
      if l.key == [] || !NoNul(l.key) || !NoNul(l.value) {
        return Err(BadLayout);
      }
      LabelStringsGrow(ls, i);
      size := size + |l.key| + 1 + |l.value| + 1;
      i := i + 1;
    }
    assert ls[..i] == ls;
    return Ok(size);
  }

  // -------------------------------------------------------------------------
  //  The builder
  // -------------------------------------------------------------------------

  method WriteHeader(a: array<byte>, count: nat, generation: u64)
    requires LOOKUP_HDR_SIZE <= a.Length
    modifies a
    ensures a[..] == Splice(old(a[..]), 0, ResponseHeader(count, generation))
  {
    hide Splice, U16, U32, U64;
    ghost var b := a[..];
    Put(a, 0, U16(1));
    ghost var d1 := U16(1);
    PutNext(a, b, 0, d1, 2, U16(0));
    ghost var d2 := d1 + U16(0);
    PutNext(a, b, 0, d2, 4, U32(count));
    ghost var d3 := d2 + U32(count);
    PutNext(a, b, 0, d3, 8, U64(generation));
  }

  /** Compacts a response in place and writes its header. */
  method FinishResponse(a: array<byte>, ghost area: nat, count: nat, dataOffset: nat, generation: u64,
                        ghost raws: seq<seq<byte>>)
    returns (n: nat)
    requires count == |raws| && dataOffset == area + |Pack(raws)|
    requires Holds(a[..], LOOKUP_HDR_SIZE, area, Dir(area, raws), Pack(raws)) && Addressable(area, raws)
    modifies a
    ensures n <= a.Length && a[..n] == ResponseBytes(generation, raws)
  {
    hide Dir, Pack, Holds, Offset, ResponseHeader, Splice;
    ghost var b := a[..];
    if count == 0 {
      LayoutBounds(b, area, raws);
      WriteHeader(a, 0, generation);
      EmptyFront(b, generation, raws);
      return LOOKUP_HDR_SIZE;
    }
    n := CompactDirectory(a, LOOKUP_HDR_SIZE, area, count, dataOffset, raws);
    b := a[..];
    LayoutBounds(b, LOOKUP_HDR_SIZE + 8 * count, raws);
    WriteHeader(a, count, generation);
    FrontIs(b, ResponseHeader(count, generation), Dir(0, raws), Pack(raws));
  }

  lemma LayoutBounds(b: seq<byte>, area: nat, raws: seq<seq<byte>>)
    requires Holds(b, LOOKUP_HDR_SIZE, area, Dir(area, raws), Pack(raws))
             || Holds(b, LOOKUP_HDR_SIZE, area, Dir(0, raws), Pack(raws))
    ensures LOOKUP_HDR_SIZE + 8 * |raws| <= area && area + |Pack(raws)| <= |b|
  {
    hide Dir, Pack;
  }

  lemma EmptyFront(b: seq<byte>, generation: u64, raws: seq<seq<byte>>)
    requires |b| >= LOOKUP_HDR_SIZE && raws == []
    ensures Splice(b, 0, ResponseHeader(0, generation))[..LOOKUP_HDR_SIZE] == ResponseBytes(generation, raws)
  {
    hide ResponseHeader;
  }

  class LookupBuilder {
    const buf: array<byte>
    var generation: u64
    var itemCount: nat
    const maxItems: u32
    var dataOffset: nat
    var error: Option<NipcError>
    var cut: bool
    var reserved: seq<nat>
    ghost var items: seq<Item>  // the items added so far

    ghost predicate Valid()
      reads this, buf
    {
      var area, raws := LOOKUP_HDR_SIZE + 8 * maxItems, Raws(items);
      && itemCount == |items| <= maxItems
      && area <= buf.Length
      && dataOffset == area + |Pack(raws)|
      && Holds(buf[..], LOOKUP_HDR_SIZE, area, Dir(area, raws), Pack(raws))
      && Addressable(area, raws)
    }

    function Limits(): (g: Budget)
      reads this
    {
      Budget(LOOKUP_HDR_SIZE + 8 * maxItems, buf.Length, maxItems, reserved)
    }

    constructor (buf: array<byte>, maxItems: u32, generation: u64)
      requires LOOKUP_HDR_SIZE + 8 * maxItems <= buf.Length
      ensures Valid()
      ensures this.buf == buf && this.maxItems == maxItems && this.generation == generation
      ensures items == [] && !cut && error == None && reserved == []
    {
      this.buf, this.maxItems, this.generation := buf, maxItems, generation;
      itemCount, dataOffset := 0, LOOKUP_HDR_SIZE + 8 * maxItems;
      error, cut, reserved, items := None, false, [], [];
      new;
      assert Raws([]) == [];
    }

    method SetGeneration(generation: u64)
      requires Valid()
      modifies this`generation
      ensures Valid() && this.generation == generation
    {
      hide Dir, Pack, Raws, Holds, Addressable;
      this.generation := generation;
    }

    /** Reserves placeholder space for a whole request. */
    method SetPlaceholderLens(lens: seq<nat>)
      requires Valid()
      modifies this`reserved, this`error
      ensures Valid()
      ensures if Reserved(lens, 0) < U32_LIMIT
              then error == old(error)
                   && |reserved| == |lens| + 1 && forall i :: 0 <= i <= |lens| ==> reserved[i] == Reserved(lens, i)
              else error == Some(Overflow) && reserved == old(reserved)
    {
      hide Dir, Pack, Raws, Holds, Addressable;
      var r := SuffixBytes(lens);
      match r {
        case Ok(table) => reserved := table;
        case Err(e) => error := Some(e);
      }
    }

    /** Writes `x` behind the items added so far and enters it in the directory. */
    method Store(x: Item)
      requires Valid() && itemCount < maxItems
      requires Align8(dataOffset) + |ItemBytes(x)| <= buf.Length
      requires Align8(dataOffset) < U32_LIMIT && |ItemBytes(x)| < U32_LIMIT
      modifies this`itemCount, this`dataOffset, this`error, this`items, buf
      ensures Valid() && items == old(items) + [x] && error == None
    {
      hide Dir, Pack, Raws, Holds, Addressable, ItemBytes, Splice, Offset, Align8, Tail, Entry, Pad;
      ghost var area, raws := LOOKUP_HDR_SIZE + 8 * maxItems, Raws(items);
      AlignSum(area, |Pack(raws)|);
      var itemStart := Align8(dataOffset);
      var itemSize := |ItemBytes(x)|;
      ghost var b0 := buf[..];
      AppendBlob(b0, LOOKUP_HDR_SIZE, area, area, raws, ItemBytes(x));
      TailIs(raws, ItemBytes(x));

      ZeroGap(buf, dataOffset, itemStart);
      WriteItem(buf, itemStart, x);
      SpliceAdjacent(b0, dataOffset, Zeros(itemStart - dataOffset), ItemBytes(x));
      PutEntry(buf, LOOKUP_HDR_SIZE + 8 * itemCount, itemStart, itemSize);

      dataOffset := itemStart + itemSize;
      itemCount := itemCount + 1;
      error := None;
      items := items + [x];
      RawsSnoc(old(items), x);
      PackSnoc(raws, ItemBytes(x));
      AddressableSnoc(area, raws, ItemBytes(x));
    }

    method AddNonKnown(status: u16, path: seq<byte>) returns (r: Result<()>)
      requires Valid()
      modifies this`itemCount, this`dataOffset, this`error, this`items, buf
      ensures Valid()
      ensures Does(AddPlaceholder(old(Limits()), old(itemCount), old(dataOffset), status, path),
                   old(items), old(error), r)
    {
      hide Dir, Pack, Raws, Holds, Addressable, ItemBytes;
      var x := Placeholder(status, path);
      PlaceholderSize(status, path);
      var itemStart, itemSize := Align8(dataOffset), ITEM_HDR_SIZE + |path| + 2;
      if itemCount >= maxItems || itemStart + itemSize > buf.Length || itemStart >= U32_LIMIT || itemSize >= U32_LIMIT {
        error := Some(Overflow);
        return Err(Overflow);
      }
      Store(x);
      return Ok(());
    }

    /** The result, items and error field that a choice leads to. */
    ghost predicate Does(c: Choice, items0: seq<Item>, error0: Option<NipcError>, r: Result<()>)
      reads this
    {
      if c.Append? then r.Ok? && items == items0 + [c.item] && error == None
      else r == Err(c.error) && items == items0 && error == if c.noted then Some(c.error) else error0
    }

    method NoteOverflow(path: seq<byte>) returns (r: Result<()>)
      requires Valid()
      modifies this`itemCount, this`dataOffset, this`error, this`items, this`cut, buf
      ensures Valid() && cut == (old(cut) || old(itemCount) > 0)
      ensures Does(AddOverflowed(old(Limits()), old(itemCount), old(dataOffset), path), old(items), old(error), r)
    {
      hide Dir, Pack, Raws, Holds, Addressable, ItemBytes;
      if itemCount == 0 {
        r := AddNonKnown(OVERSIZED_ITEM, path);
      } else {
        cut := true;
        r := AddNonKnown(PAYLOAD_EXCEEDED, path);
      }
    }

    method AddKnownItem(x: Item) returns (r: Result<()>)
      requires Valid() && itemCount < maxItems
      modifies this`itemCount, this`dataOffset, this`error, this`items, this`cut, buf
      ensures Valid()
      ensures Does(AddKnown(old(Limits()), old(itemCount), old(dataOffset), x), old(items), old(error), r)
      ensures cut == (old(cut) || (old(itemCount) > 0
                                   && (|x.labels| >= U16_LIMIT
                                       || (LabelsOk(x.labels)
                                           && !KnownFits(old(Limits()), old(itemCount), old(dataOffset), x)))))
    {
      hide Dir, Pack, Raws, Holds, Addressable, LabelPart, Header, LabelsOk, RestFits, AddPlaceholder;
      if |x.labels| >= U16_LIMIT {
        r := NoteOverflow(x.path);
        return;
      }
      var fixedEnd := FixedEnd(x);
      var layout := LabelLayout(fixedEnd, x.labels);
      if layout.Err? {
        error := Some(layout.error);
        return Err(layout.error);
      }
      var itemStart, itemSize := Align8(dataOffset), layout.value;
      var itemEnd := itemStart + itemSize;
      if itemEnd > buf.Length || !RestFits(Limits(), itemCount + 1, itemEnd) {
        r := NoteOverflow(x.path);
        return;
      }
      if ITEM_HDR_SIZE + |x.path| + 1 >= U32_LIMIT || |x.name| >= U32_LIMIT {
        error := Some(Overflow);
        return Err(Overflow);
      }
      if itemStart >= U32_LIMIT || itemSize >= U32_LIMIT {
        return Err(Overflow);
      }
      Store(x);
      return Ok(());
    }

    /** Adds one item, or the placeholder that stands in for it. */
    method Add(x: Item, pathValidated: bool) returns (r: Result<()>)
      requires Valid()
      modifies this`itemCount, this`dataOffset, this`error, this`items, this`cut, buf
      ensures Valid()
      ensures Does(if old(cut)
                   then AddPlaceholder(old(Limits()), old(itemCount), old(dataOffset), PAYLOAD_EXCEEDED, x.path)
                   else Choose(old(Limits()), old(itemCount), old(dataOffset), x, pathValidated),
                   old(items), old(error), r)
      ensures cut == (old(cut) || CutsOff(old(Limits()), old(itemCount), old(dataOffset), x, pathValidated))
    {
      hide Dir, Pack, Raws, Holds, Addressable, ItemBytes, LabelsOk, RestFits, NoNul;
      if cut {
        r := AddNonKnown(PAYLOAD_EXCEEDED, x.path);
        return;
      }
      if itemCount >= maxItems {
        error := Some(Overflow);
        return Err(Overflow);
      }
      if !SemanticsOk(x.status, x.orchestrator, |x.path|, |x.name|, |x.labels|) {
        error := Some(BadLayout);
        return Err(BadLayout);
      }
      if (!pathValidated && !NoNul(x.path)) || !NoNul(x.name) {
        error := Some(BadLayout);
        return Err(BadLayout);
      }
      if x.status == KNOWN {
        r := AddKnownItem(x);
        return;
      }
      r := AddNonKnown(x.status, x.path);
      if r == Err(Overflow) {
        r := NoteOverflow(x.path);
      }
    }

    method Finish() returns (n: nat)
      requires Valid()
      modifies buf
      ensures n <= buf.Length && buf[..n] == ResponseBytes(generation, Raws(items))
    {
      hide Dir, Pack, Raws, Holds, Addressable, ResponseBytes;
      n := FinishResponse(buf, LOOKUP_HDR_SIZE + 8 * maxItems, itemCount, dataOffset, generation, Raws(items));
    }
  }

  // -------------------------------------------------------------------------
  //  Dispatch
  // -------------------------------------------------------------------------

  /** The reply to a request, when a handler answers every path in order. */
  function Reply(req: seq<byte>, size: nat, generation: u64, answer: seq<byte> -> Answer): (r: Result<seq<byte>>)
  {
    match DecodeRequest(req)
    case Err(e) => Err(e)
    case Ok(paths) =>
      if size < LOOKUP_HDR_SIZE + 8 * |paths| then Err(Overflow)
      else if Reserved(Lens(paths), 0) >= U32_LIMIT then Err(Overflow)
      else
        match Served(BudgetFor(paths, size), paths, answer, |paths|)
        case Err(e) => Err(e)
        case Ok(s) => if |s.items| != |paths| then Err(BadItemCount) else Ok(ResponseBytes(generation, Raws(s.items)))
  }

  lemma {:induction false} PathsOfCount(b: seq<byte>, n: nat, k: nat)
    requires LOOKUP_HDR_SIZE + 8 * n <= |b| && k <= n
    requires DirScan(b, LOOKUP_HDR_SIZE, n, |b| - LOOKUP_HDR_SIZE - 8 * n, 2).Ok?
    ensures PathsOf(b, n, k).Ok? ==> |PathsOf(b, n, k).value| == k
  {
    hide DirScan, RawAt, KeyPath;
    if k > 0 {
      PathsOfCount(b, n, k - 1);
    }
  }

  lemma RequestCount(req: seq<byte>)
    requires DecodeRequest(req).Ok?
    ensures |DecodeRequest(req).value| < U32_LIMIT
  {
    hide DirScan, PathsOf, Get16;
    PathsOfCount(req, Get32(req, 4), Get32(req, 4));
  }

  /** Lets the handler answer path after path, until an add fails. */
  method AnswerAll(b: LookupBuilder, paths: seq<seq<byte>>, generation: u64, answer: seq<byte> -> Answer)
    returns (ok: bool)
    requires b.Valid() && b.items == [] && !b.cut && b.error == None
    requires b.maxItems == |paths| && (paths != [] ==> b.Limits() == BudgetFor(paths, b.buf.Length))
    modifies b, b.buf
    ensures b.Valid()
    ensures var r := Served(BudgetFor(paths, b.buf.Length), paths, answer, |paths|);
            && ok == r.Ok?
            && (ok ==> b.items == r.value.items && b.error == None && b.generation == generation)
            && (!ok ==> r.error == if b.error.Some? then b.error.value else HandlerFailed)
  {
    hide Dir, Pack, Raws, Holds, Addressable, ItemBytes, Choose, CutsOff, AddPlaceholder, BudgetFor;
    b.SetGeneration(generation);
    ghost var g := BudgetFor(paths, b.buf.Length);
    var i := 0;
    while i < |paths|
      invariant i <= |paths|
      invariant b.Valid() && b.error == None && b.generation == generation && b.itemCount == i
      invariant paths != [] ==> b.Limits() == g
      invariant Served(g, paths, answer, i) == Ok(State(b.items, b.cut))
    {
      var path := paths[i];
      var a := answer(path);
      var x := Item(a.status, a.orchestrator, path, a.name, a.labels);
      var r := b.Add(x, true);
      if r.Err? {
        ServedFails(g, paths, answer, i + 1, |paths|);
        return false;
      }
      i := i + 1;
    }
    return true;
  }

  lemma {:induction false} ServedFails(g: Budget, paths: seq<seq<byte>>, answer: seq<byte> -> Answer, i: nat, n: nat)
    requires i <= n <= |paths| && Served(g, paths, answer, i).Err?
    ensures Served(g, paths, answer, n) == Served(g, paths, answer, i)
  {
    hide Next, CutsOff;
    if i < n {
      ServedFails(g, paths, answer, i, n - 1);
    }
  }

  /** A builder with placeholder space reserved for a whole request. */
  method Start(resp: array<byte>, paths: seq<seq<byte>>) returns (r: Result<LookupBuilder>)
    requires |paths| < U32_LIMIT
    ensures r.Ok? <==> LOOKUP_HDR_SIZE + 8 * |paths| <= resp.Length && Reserved(Lens(paths), 0) < U32_LIMIT
    ensures r.Err? ==> r.error == Overflow
    ensures r.Ok? ==>
              var b := r.value;
              && fresh(b) && b.buf == resp && b.Valid() && b.items == [] && !b.cut && b.error == None
              && b.maxItems == |paths| && (paths != [] ==> b.Limits() == BudgetFor(paths, resp.Length))
  {
    hide Dir, Pack, Raws, Holds, Addressable, Reserved;
    if resp.Length < LOOKUP_HDR_SIZE + 8 * |paths| {
      return Err(Overflow);
    }
    var b := new LookupBuilder(resp, |paths|, 0);
    ReservedLast([]);
    if paths != [] {
      b.SetPlaceholderLens(Lens(paths));
      if b.error.Some? {
        return Err(b.error.value);
      }
      assert b.reserved == BudgetFor(paths, resp.Length).reserved;
    }
    return Ok(b);
  }

  /** Serves one request. */
  method Dispatch(req: seq<byte>, resp: array<byte>, generation: u64, answer: seq<byte> -> Answer)
    returns (r: Result<nat>)
    modifies resp
    ensures var reply := Reply(req, resp.Length, generation, answer);
            && (r.Ok? <==> reply.Ok?)
            && (r.Ok? ==> r.value <= resp.Length && resp[..r.value] == reply.value)
            && (r.Err? ==> r.error == reply.error)
  {
    hide Raws, Served, ResponseBytes, Reserved, Lens, BudgetFor, DecodeRequest, Dir, Pack, Holds, Addressable;
    var request := DecodeRequest(req);
    if request.Err? {
      return Err(request.error);
    }
    var paths := request.value;
    RequestCount(req);
    var started := Start(resp, paths);
    if started.Err? {
      return Err(started.error);
    }
    var b := started.value;
    var ok := AnswerAll(b, paths, generation, answer);
    if !ok || b.error.Some? {
      return Err(if b.error.Some? then b.error.value else HandlerFailed);
    }
    if b.itemCount != |paths| {
      return Err(BadItemCount);
    }
    var n := b.Finish();
    return Ok(n);
  }
}
