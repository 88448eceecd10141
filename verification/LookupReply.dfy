/** What a lookup server puts in its reply: space is reserved so that every requested path
    still gets at least a placeholder. */
module LookupReply {
  import opened Wire
  import opened PackedLayout
  import opened LookupItem
  import LookupCodec

  // -------------------------------------------------------------------------
  //  Reserved space
  // -------------------------------------------------------------------------

  function PlaceholderLen(path: seq<byte>): nat
  {
    ITEM_HDR_SIZE + |path| + 2
  }

  function Raws(items: seq<Item>): (raws: seq<seq<byte>>)
    ensures |raws| == |items| && forall i :: 0 <= i < |items| ==> raws[i] == ItemBytes(items[i])
  {
    seq(|items|, i requires 0 <= i < |items| => ItemBytes(items[i]))
  }

  function Placeholders(status: u16, paths: seq<seq<byte>>): (items: seq<Item>)
    ensures |items| == |paths| && forall i :: 0 <= i < |paths| ==> items[i] == Placeholder(status, paths[i])
  {
    seq(|paths|, i requires 0 <= i < |paths| => Placeholder(status, paths[i]))
  }

  function Lens(paths: seq<seq<byte>>): (lens: seq<nat>)
    ensures |lens| == |paths| && forall i :: 0 <= i < |paths| ==> lens[i] == PlaceholderLen(paths[i])
  {
    seq(|paths|, i requires 0 <= i < |paths| => PlaceholderLen(paths[i]))
  }

  /** Bytes reserved for the items from `i` on. */
  function Reserved(lens: seq<nat>, i: nat): (r: nat)
    requires i <= |lens|
    decreases |lens| - i
  {
    if i == |lens| then 0
    else
      var next := Reserved(lens, i + 1);
      (if next > 0 then Align8(lens[i]) else lens[i]) + next
  }

  /** One backward pass turns a table of lengths into the reserved bytes of every suffix. */
  method SuffixBytes(lens: seq<nat>) returns (r: Result<seq<nat>>)
    ensures r.Ok? <==> Reserved(lens, 0) < U32_LIMIT
    ensures r.Err? ==> r.error == Overflow
    ensures r.Ok? ==> |r.value| == |lens| + 1 && forall i :: 0 <= i <= |lens| ==> r.value[i] == Reserved(lens, i)
  {
    hide Reserved, Align8;
    var table: seq<nat> := [];
    var k := 0;
    while k < |lens|
      invariant k <= |lens| && table == lens[..k]
    {
      if lens[k] >= U32_LIMIT {
        ReservedCovers(lens, k);
        return Err(Overflow);
      }
      table := table + [lens[k]];
      k := k + 1;
    }
    table := table + [0];
    var i := |lens|;
    ReservedLast(lens);
    while i > 0
      invariant 0 <= i <= |lens| == |table| - 1
      invariant Reserved(lens, i) < U32_LIMIT
      invariant forall j :: 0 <= j < i ==> table[j] == lens[j]
      invariant forall j :: i <= j <= |lens| ==> table[j] == Reserved(lens, j)
    {
      i := i - 1;
      ReservedUnfold(lens, i);
      var next := table[i + 1];
      var total := (if next > 0 then Align8(table[i]) else table[i]) + next;
      if total >= U32_LIMIT {
        ReservedShrinks(lens, 0, i);
        return Err(Overflow);
      }
      table := table[i := total];
    }
    return Ok(table);
  }

  lemma ReservedLast(lens: seq<nat>)
    ensures Reserved(lens, |lens|) == 0
  {
  }

  lemma ReservedUnfold(lens: seq<nat>, i: nat)
    requires i < |lens|
    ensures var next := Reserved(lens, i + 1);
            Reserved(lens, i) == (if next > 0 then Align8(lens[i]) else lens[i]) + next
  {
  }

  lemma {:induction false} ReservedShrinks(lens: seq<nat>, i: nat, j: nat)
    requires i <= j <= |lens|
    ensures Reserved(lens, i) >= Reserved(lens, j)
    decreases j - i
  {
    if i < j {
      ReservedShrinks(lens, i + 1, j);
    }
  }

  lemma ReservedCovers(lens: seq<nat>, i: nat)
    requires i < |lens|
    ensures Reserved(lens, 0) >= lens[i]
  {
    ReservedShrinks(lens, 0, i);
  }

  lemma {:induction false} PackCons(x: seq<byte>, rest: seq<seq<byte>>)
    ensures |Pack([x] + rest)| == if rest == [] then |x| else Align8(|x|) + |Pack(rest)|
  {
    hide Offset;
    if rest == [] {
      assert [x] + rest == [x];
      PackSnoc([], x);
      PackEmpty();
      assert [] + [x] == [x];
    } else {
      var n := |rest| - 1;
      var front, y := rest[..n], rest[n];
      assert rest == front + [y];
      assert [x] + rest == ([x] + front) + [y];
      PackSnoc([x] + front, y);
      PackSnoc(front, y);
      PackCons(x, front);
      if front == [] {
        PackEmpty();
      } else {
        AlignSum(Align8(|x|), |Pack(front)|);
      }
    }
  }

  /** What is reserved is exactly what placeholders for the rest of the request take. */
  lemma {:induction false} ReservedIsPlaceholders(status: u16, paths: seq<seq<byte>>, i: nat)
    requires i <= |paths|
    ensures Reserved(Lens(paths), i) == |Pack(Raws(Placeholders(status, paths[i..])))|
    ensures i < |paths| ==> Reserved(Lens(paths), i) > 0
    decreases |paths| - i
  {
    hide Pack, ItemBytes;
    var raws := Raws(Placeholders(status, paths[i..]));
    if i == |paths| {
      assert raws == [];
      PackEmpty();
    } else {
      ReservedIsPlaceholders(status, paths, i + 1);
      var rest := Raws(Placeholders(status, paths[i + 1..]));
      PlaceholderSize(status, paths[i]);
      assert raws == [ItemBytes(Placeholder(status, paths[i]))] + rest;
      PackCons(ItemBytes(Placeholder(status, paths[i])), rest);
    }
  }

  // -------------------------------------------------------------------------
  //  One add
  // -------------------------------------------------------------------------

  /** The fixed facts of one reply: where items start, the buffer size, the item limit and
      the table of reserved bytes. */
  datatype Budget = Budget(area: nat, size: nat, maxItems: nat, reserved: seq<nat>)

  /** What an add does: append an item, or report an error (`noted` when it is also kept in
      the builder). */
  datatype Choice = Append(item: Item) | Refuse(error: NipcError, noted: bool)

  predicate RestFits(g: Budget, next: nat, dataOffset: nat)
  {
    |g.reserved| == g.maxItems + 1 && next <= g.maxItems ==>
      Align8(dataOffset) + g.reserved[next] <= g.size
  }

  function AddPlaceholder(g: Budget, count: nat, dataOffset: nat, status: u16, path: seq<byte>): (c: Choice)
  {
    var start := Align8(dataOffset);
    if count >= g.maxItems || start + PlaceholderLen(path) > g.size then Refuse(Overflow, true)
    else if start >= U32_LIMIT || PlaceholderLen(path) >= U32_LIMIT then Refuse(Overflow, true)
    else Append(Placeholder(status, path))
  }

  function AddOverflowed(g: Budget, count: nat, dataOffset: nat, path: seq<byte>): (c: Choice)
  {
    AddPlaceholder(g, count, dataOffset, if count == 0 then OVERSIZED_ITEM else PAYLOAD_EXCEEDED, path)
  }

  /** Whether a known item fits and leaves what the rest of the request needs. */
  predicate KnownFits(g: Budget, count: nat, dataOffset: nat, x: Item)
  {
    var end := Align8(dataOffset) + |ItemBytes(x)|;
    end <= g.size && RestFits(g, count + 1, end)
  }

  function AddKnown(g: Budget, count: nat, dataOffset: nat, x: Item): (c: Choice)
  {
    if |x.labels| >= U16_LIMIT then AddOverflowed(g, count, dataOffset, x.path)
    else if !LabelsOk(x.labels) then Refuse(BadLayout, true)
    else if !KnownFits(g, count, dataOffset, x) then AddOverflowed(g, count, dataOffset, x.path)
    else if ITEM_HDR_SIZE + |x.path| + 1 >= U32_LIMIT || |x.name| >= U32_LIMIT then Refuse(Overflow, true)
    else if Align8(dataOffset) >= U32_LIMIT || |ItemBytes(x)| >= U32_LIMIT then Refuse(Overflow, false)
    else Append(x)
  }

  /** The whole decision of an add, while no item has been cut off yet. */
  function Choose(g: Budget, count: nat, dataOffset: nat, x: Item, pathValidated: bool): (c: Choice)
  {
    if count >= g.maxItems then Refuse(Overflow, true)
    else if !SemanticsOk(x.status, x.orchestrator, |x.path|, |x.name|, |x.labels|) then Refuse(BadLayout, true)
    else if (!pathValidated && !NoNul(x.path)) || !NoNul(x.name) then Refuse(BadLayout, true)
    else if x.status == KNOWN then AddKnown(g, count, dataOffset, x)
    else
      var c := AddPlaceholder(g, count, dataOffset, x.status, x.path);
      if c.Refuse? then AddOverflowed(g, count, dataOffset, x.path) else c
  }

  /** Whether that decision goes through the cut-off branch (and so cuts off all later items). */
  predicate CutsOff(g: Budget, count: nat, dataOffset: nat, x: Item, pathValidated: bool)
  {
    && 0 < count < g.maxItems
    && SemanticsOk(x.status, x.orchestrator, |x.path|, |x.name|, |x.labels|)
    && (pathValidated || NoNul(x.path)) && NoNul(x.name)
    && if x.status == KNOWN
       then |x.labels| >= U16_LIMIT || (LabelsOk(x.labels) && !KnownFits(g, count, dataOffset, x))
       else AddPlaceholder(g, count, dataOffset, x.status, x.path).Refuse?
  }

  // -------------------------------------------------------------------------
  //  A whole reply
  // -------------------------------------------------------------------------

  /** What a handler knows about one path. */
  datatype Answer = Answer(status: u16, orchestrator: u16, name: seq<byte>, labels: seq<Label>)

  function AsItem(path: seq<byte>, a: Answer): Item
  {
    Item(a.status, a.orchestrator, path, a.name, a.labels)
  }

  /** Items added so far, and whether the rest is cut off. */
  datatype State = State(items: seq<Item>, cut: bool)

  function DataEnd(g: Budget, items: seq<Item>): nat
  {
    g.area + |Pack(Raws(items))|
  }

  function Next(g: Budget, s: State, x: Item): (c: Choice)
  {
    if s.cut then AddPlaceholder(g, |s.items|, DataEnd(g, s.items), PAYLOAD_EXCEEDED, x.path)
    else Choose(g, |s.items|, DataEnd(g, s.items), x, true)
  }

  /** The reply after the handler has answered the first `i` requested paths, in order. */
  function Served(g: Budget, paths: seq<seq<byte>>, answer: seq<byte> -> Answer, i: nat): (r: Result<State>)
    requires i <= |paths|
  {
    if i == 0 then Ok(State([], false))
    else
      match Served(g, paths, answer, i - 1)
      case Err(e) => Err(e)
      case Ok(s) =>
        var x := AsItem(paths[i - 1], answer(paths[i - 1]));
        match Next(g, s, x)
        case Refuse(e, noted) => Err(if noted then e else HandlerFailed)
        case Append(y) =>
          Ok(State(s.items + [y], s.cut || CutsOff(g, |s.items|, DataEnd(g, s.items), x, true)))
  }

  /** The budget the dispatcher gives a request, for a buffer of `size` bytes. */
  function BudgetFor(paths: seq<seq<byte>>, size: nat): (g: Budget)
    ensures g.area % 8 == 0
  {
    Budget(LookupCodec.LOOKUP_HDR_SIZE + 8 * |paths|, size, |paths|,
           seq(|paths| + 1, i requires 0 <= i <= |paths| => Reserved(Lens(paths), i)))
  }

  /** A definite answer the builder's own checks accept. */
  predicate Answerable(a: Answer)
  {
    && a.status <= UNKNOWN_PERMANENT
    && (a.status != KNOWN ==> a.orchestrator == 0 && a.name == [] && a.labels == [])
    && NoNul(a.name) && LabelsOk(a.labels)
  }

  /** Whether the buffer takes a placeholder for every path. */
  predicate Roomy(paths: seq<seq<byte>>, size: nat)
  {
    LookupCodec.LOOKUP_HDR_SIZE + 8 * |paths| + Reserved(Lens(paths), 0) <= size < U32_LIMIT
  }

  /** Answers up to `k`, the first of which may be marked oversized, then cut-off marks. */
  predicate Shaped(paths: seq<seq<byte>>, answer: seq<byte> -> Answer, items: seq<Item>, k: nat)
  {
    && k <= |items| <= |paths|
    && (items != [] ==> k > 0)
    && (forall j :: 0 <= j < k ==>
          || items[j] == AsItem(paths[j], answer(paths[j]))
          || (j == 0 && items[j] == Placeholder(OVERSIZED_ITEM, paths[j])))
    && (forall j :: k <= j < |items| ==> items[j] == Placeholder(PAYLOAD_EXCEEDED, paths[j]))
  }

  lemma RawsSnoc(items: seq<Item>, y: Item)
    ensures Raws(items + [y]) == Raws(items) + [ItemBytes(y)]
  {
    hide ItemBytes;
  }

  lemma DataEndSnoc(g: Budget, items: seq<Item>, y: Item)
    requires g.area % 8 == 0
    ensures DataEnd(g, items + [y]) == Align8(DataEnd(g, items)) + |ItemBytes(y)|
  {
    hide ItemBytes, Pack, Raws;
    RawsSnoc(items, y);
    PackSnoc(Raws(items), ItemBytes(y));
    AlignSum(g.area, |Pack(Raws(items))|);
  }

  /** A placeholder takes exactly what was reserved for it. */
  lemma ReserveStep(lens: seq<nat>, i: nat, at: nat)
    requires i + 1 < |lens| && Reserved(lens, i + 1) > 0
    ensures Align8(Align8(at) + lens[i]) + Reserved(lens, i + 1) == Align8(at) + Reserved(lens, i)
  {
    AlignSum(Align8(at), lens[i]);
  }

  /** Whether the items still to come have room. */
  predicate RoomAt(paths: seq<seq<byte>>, size: nat, items: seq<Item>)
  {
    |items| < |paths| ==>
      Align8(DataEnd(BudgetFor(paths, size), items)) + Reserved(Lens(paths), |items|) <= size
  }

  lemma PlaceholderGoesIn(paths: seq<seq<byte>>, size: nat, items: seq<Item>, status: u16)
    requires |items| < |paths| && RoomAt(paths, size, items) && size < U32_LIMIT
    ensures var g, path := BudgetFor(paths, size), paths[|items|];
            && AddPlaceholder(g, |items|, DataEnd(g, items), status, path) == Append(Placeholder(status, path))
            && RoomAt(paths, size, items + [Placeholder(status, path)])
  {
    hide ItemBytes, Pack, Raws;
    var g, n, path := BudgetFor(paths, size), |items|, paths[|items|];
    ReservedIsPlaceholders(status, paths, n);
    ReservedIsPlaceholders(status, paths, n + 1);
    PlaceholderSize(status, path);
    DataEndSnoc(g, items, Placeholder(status, path));
    if n + 1 < |paths| {
      ReserveStep(Lens(paths), n, DataEnd(g, items));
    }
  }

  lemma KnownGoesIn(paths: seq<seq<byte>>, size: nat, items: seq<Item>, x: Item)
    requires |items| < |paths| && size < U32_LIMIT
    requires KnownFits(BudgetFor(paths, size), |items|, DataEnd(BudgetFor(paths, size), items), x)
    ensures RoomAt(paths, size, items + [x])
    ensures Align8(DataEnd(BudgetFor(paths, size), items)) + |ItemBytes(x)| <= size
  {
    hide ItemBytes, Pack, Raws, Reserved, Align8;
    DataEndSnoc(BudgetFor(paths, size), items, x);
  }

  /** One more answer keeps the shape and the room, and is cut off only after the first. */
  lemma ServeStep(paths: seq<seq<byte>>, size: nat, answer: seq<byte> -> Answer, s: State, k: nat)
    requires |s.items| < |paths| && size < U32_LIMIT
    requires RoomAt(paths, size, s.items) && Shaped(paths, answer, s.items, k) && (s.cut <==> k < |s.items|)
    requires Answerable(answer(paths[|s.items|])) && LookupCodec.PathOk(paths[|s.items|])
    ensures var g, n := BudgetFor(paths, size), |s.items|;
            var x := AsItem(paths[n], answer(paths[n]));
            var c, cut := Next(g, s, x), s.cut || CutsOff(g, n, DataEnd(g, s.items), x, true);
            && c.Append?
            && RoomAt(paths, size, s.items + [c.item])
            && Shaped(paths, answer, s.items + [c.item], if cut then k else n + 1)
  {
    hide ItemBytes, Pack, Raws, Reserved, Align8, DataEnd, RoomAt, NoNul, LabelsOk, AddPlaceholder, KnownFits,
         BudgetFor;
    var g, n := BudgetFor(paths, size), |s.items|;
    var path, at := paths[n], DataEnd(g, s.items);
    var x := AsItem(path, answer(path));
    BudgetCount(paths, size);
    PlaceholderGoesIn(paths, size, s.items, PAYLOAD_EXCEEDED);
    PlaceholderGoesIn(paths, size, s.items, OVERSIZED_ITEM);
    PlaceholderGoesIn(paths, size, s.items, x.status);
    if KnownFits(g, n, at, x) {
      KnownGoesIn(paths, size, s.items, x);
      KnownStarts(g, n, at, x);
    }
  }

  lemma BudgetCount(paths: seq<seq<byte>>, size: nat)
    ensures BudgetFor(paths, size).maxItems == |paths| && BudgetFor(paths, size).size == size
  {
  }

  lemma KnownStarts(g: Budget, count: nat, at: nat, x: Item)
    requires KnownFits(g, count, at, x) && g.size < U32_LIMIT
    ensures Align8(at) < U32_LIMIT && |ItemBytes(x)| < U32_LIMIT
    ensures ITEM_HDR_SIZE + |x.path| + 1 < U32_LIMIT && |x.name| < U32_LIMIT
  {
    hide LabelPart;
  }

  /** With room for placeholders the handler never runs out of space, and the reply is the
      answers in order, cut off at some point after the first. */
  lemma {:induction false} ServedShape(paths: seq<seq<byte>>, size: nat, answer: seq<byte> -> Answer, i: nat)
    returns (k: nat)
    requires i <= |paths| && Roomy(paths, size)
    requires forall j :: 0 <= j < |paths| ==> LookupCodec.PathOk(paths[j]) && Answerable(answer(paths[j]))
    ensures var r := Served(BudgetFor(paths, size), paths, answer, i);
            && r.Ok? && |r.value.items| == i && k <= i
            && RoomAt(paths, size, r.value.items)
            && Shaped(paths, answer, r.value.items, k) && (r.value.cut <==> k < i)
  {
    hide ItemBytes, Pack, Reserved, NoNul, LabelsOk, Shaped, RoomAt, Next, CutsOff, DataEnd;
    if i == 0 {
      k := 0;
      StartHasRoom(paths, size, answer);
    } else {
      k := ServedShape(paths, size, answer, i - 1);
      var g := BudgetFor(paths, size);
      var s := Served(g, paths, answer, i - 1).value;
      var x := AsItem(paths[i - 1], answer(paths[i - 1]));
      ServeStep(paths, size, answer, s, k);
      if !(s.cut || CutsOff(g, |s.items|, DataEnd(g, s.items), x, true)) {
        k := i;
      }
    }
  }

  lemma StartHasRoom(paths: seq<seq<byte>>, size: nat, answer: seq<byte> -> Answer)
    requires Roomy(paths, size)
    ensures RoomAt(paths, size, []) && Shaped(paths, answer, [], 0)
  {
    hide Reserved;
    assert Raws([]) == [];
    PackEmpty();
  }

  // -------------------------------------------------------------------------
  //  Exactly when
  // -------------------------------------------------------------------------

  /** Whatever is appended names the path, ends inside the buffer, and is no smaller than a
      placeholder. */
  lemma AppendedIsAtLeast(g: Budget, s: State, x: Item)
    ensures var c := Next(g, s, x);
            c.Append? ==>
              && |ItemBytes(c.item)| >= PlaceholderLen(x.path)
              && Align8(DataEnd(g, s.items)) + |ItemBytes(c.item)| <= g.size
  {
    hide Pack, LabelPart, Raws, Header, Align8, DataEnd, Reserved, RestFits, NoNul, LabelsOk, SemanticsOk;
    PlaceholderSize(PAYLOAD_EXCEEDED, x.path);
    PlaceholderSize(OVERSIZED_ITEM, x.path);
    PlaceholderSize(x.status, x.path);
  }

  lemma PackGrows(small: seq<seq<byte>>, large: seq<seq<byte>>, x: seq<byte>, y: seq<byte>)
    requires |Pack(small)| <= |Pack(large)| && |x| <= |y|
    ensures |Pack(small + [x])| <= |Pack(large + [y])|
  {
    hide Pack, Pad, Offset, Align8;
    PackSnoc(small, x);
    PackSnoc(large, y);
    AlignMonotone(|Pack(small)|, |Pack(large)|);
  }

  lemma AlignMonotone(a: nat, b: nat)
    requires a <= b
    ensures Align8(a) <= Align8(b)
  {
  }

  /** A reply is never smaller than the same number of placeholders. */
  lemma {:induction false} ServedIsAtLeast(g: Budget, paths: seq<seq<byte>>, answer: seq<byte> -> Answer, i: nat,
                                           status: u16)
    requires i <= |paths| && g.area % 8 == 0
    requires Served(g, paths, answer, i).Ok?
    ensures var items := Served(g, paths, answer, i).value.items;
            && |items| == i
            && |Pack(Raws(Placeholders(status, paths[..i])))| <= |Pack(Raws(items))|
            && (i > 0 ==> DataEnd(g, items) <= g.size)
  {
    hide ItemBytes, Pack, Raws, Reserved, Next, CutsOff, Align8;
    if i == 0 {
      assert Placeholders(status, paths[..0]) == [];
    } else {
      ServedIsAtLeast(g, paths, answer, i - 1, status);
      var s := Served(g, paths, answer, i - 1).value;
      var x := AsItem(paths[i - 1], answer(paths[i - 1]));
      AppendedIsAtLeast(g, s, x);
      var y, p := Next(g, s, x).item, Placeholder(status, paths[i - 1]);
      var front := Placeholders(status, paths[..i - 1]);
      PlaceholderSize(status, paths[i - 1]);
      assert Placeholders(status, paths[..i]) == front + [p];
      RawsSnoc(front, p);
      RawsSnoc(s.items, y);
      PackGrows(Raws(front), Raws(s.items), ItemBytes(p), ItemBytes(y));
      DataEndSnoc(g, s.items, y);
    }
  }

  /** A handler that answers every path in order gets a reply out exactly when the buffer takes
      a placeholder for every path. */
  lemma ServedExactlyWhen(paths: seq<seq<byte>>, size: nat, answer: seq<byte> -> Answer)
    requires paths != [] && size < U32_LIMIT
    requires forall j :: 0 <= j < |paths| ==> LookupCodec.PathOk(paths[j]) && Answerable(answer(paths[j]))
    ensures Served(BudgetFor(paths, size), paths, answer, |paths|).Ok?
            <==> LookupCodec.LOOKUP_HDR_SIZE + 8 * |paths| + |Pack(Raws(Placeholders(PAYLOAD_EXCEEDED, paths)))| <= size
  {
    hide ItemBytes, Pack, Raws, Reserved, Served, Shaped, RoomAt;
    var g, n := BudgetFor(paths, size), |paths|;
    ReservedIsPlaceholders(PAYLOAD_EXCEEDED, paths, 0);
    assert paths[0..] == paths == paths[..n];
    if Roomy(paths, size) {
      var k := ServedShape(paths, size, answer, n);
    } else if Served(g, paths, answer, n).Ok? {
      ServedIsAtLeast(g, paths, answer, n, PAYLOAD_EXCEEDED);
    }
  }

  /** The first item of a reply: the answer itself, or an oversized mark exactly when the answer
      does not fit together with what is reserved for the other paths. */
  lemma {:induction false} OversizedExactlyWhen(paths: seq<seq<byte>>, size: nat, answer: seq<byte> -> Answer, i: nat)
    requires 1 <= i <= |paths| && Roomy(paths, size)
    requires forall j :: 0 <= j < |paths| ==> LookupCodec.PathOk(paths[j]) && Answerable(answer(paths[j]))
    ensures var g, x := BudgetFor(paths, size), AsItem(paths[0], answer(paths[0]));
            var r := Served(g, paths, answer, i);
            && r.Ok? && |r.value.items| == i
            && r.value.items[0] ==
               if x.status == KNOWN
                  && (|x.labels| >= U16_LIMIT || Align8(g.area + |ItemBytes(x)|) + Reserved(Lens(paths), 1) > size)
               then Placeholder(OVERSIZED_ITEM, paths[0]) else x
  {
    hide ItemBytes, Pack, Reserved, NoNul, LabelsOk, Shaped, RoomAt;
    var g := BudgetFor(paths, size);
    if i == 1 {
      FirstServed(paths, size, answer);
    } else {
      OversizedExactlyWhen(paths, size, answer, i - 1);
      var k := ServedShape(paths, size, answer, i);
    }
  }

  lemma FirstServed(paths: seq<seq<byte>>, size: nat, answer: seq<byte> -> Answer)
    requires paths != [] && Roomy(paths, size)
    requires forall j :: 0 <= j < |paths| ==> LookupCodec.PathOk(paths[j]) && Answerable(answer(paths[j]))
    ensures var g, x := BudgetFor(paths, size), AsItem(paths[0], answer(paths[0]));
            var r := Served(g, paths, answer, 1);
            && r.Ok? && |r.value.items| == 1
            && r.value.items[0] ==
               if x.status == KNOWN
                  && (|x.labels| >= U16_LIMIT || Align8(g.area + |ItemBytes(x)|) + Reserved(Lens(paths), 1) > size)
               then Placeholder(OVERSIZED_ITEM, paths[0]) else x
  {
    hide ItemBytes, Pack, Reserved, NoNul, LabelsOk, Shaped, RoomAt, AddPlaceholder;
    var g, x := BudgetFor(paths, size), AsItem(paths[0], answer(paths[0]));
    var k := ServedShape(paths, size, answer, 1);
    StartHasRoom(paths, size, answer);
    PlaceholderGoesIn(paths, size, [], OVERSIZED_ITEM);
    PlaceholderGoesIn(paths, size, [], x.status);
    assert Raws([]) == [];
    PackEmpty();
    assert DataEnd(g, []) == g.area;
    assert Served(g, paths, answer, 0) == Ok(State([], false));
  }

  function FortyByteName(path: seq<byte>): Answer
  {
    Answer(KNOWN, 0, seq(40, _ => 1), [])
  }

  lemma TwoPathReservation(path: seq<byte>)
    ensures Reserved(Lens([path]), 0) == PlaceholderLen(path) && Reserved(Lens([path]), 1) == 0
    ensures Reserved(Lens([path, path]), 1) == PlaceholderLen(path)
    ensures Reserved(Lens([path, path]), 0) == Align8(PlaceholderLen(path)) + PlaceholderLen(path)
  {
    assert Reserved(Lens([path, path]), 2) == 0;
  }

  /** An item that fits in a reply of its own is still marked oversized (a final outcome) when it
      comes first in a longer request. */
  lemma OversizedThoughItFits()
    ensures Roomy([[1]], 96) && Roomy([[1], [1]], 96)
    ensures var alone := Served(BudgetFor([[1]], 96), [[1]], FortyByteName, 1);
            alone.Ok? && alone.value.items == [AsItem([1], FortyByteName([1]))]
    ensures var both := Served(BudgetFor([[1], [1]], 96), [[1], [1]], FortyByteName, 2);
            both.Ok? && |both.value.items| == 2 && both.value.items[0] == Placeholder(OVERSIZED_ITEM, [1])
  {
    hide Served, Reserved, Header, BudgetFor;
    TwoPathReservation([1]);
    var x := AsItem([1], FortyByteName([1]));
    assert |ItemBytes(x)| == 71;
    assert BudgetFor([[1]], 96).area == 24 && BudgetFor([[1], [1]], 96).area == 32 by { Areas(); }
    OversizedExactlyWhen([[1]], 96, FortyByteName, 1);
    OversizedExactlyWhen([[1], [1]], 96, FortyByteName, 2);
  }

  lemma Areas()
    ensures BudgetFor([[1]], 96).area == 24 && BudgetFor([[1], [1]], 96).area == 32
  {
  }
}
