/** Replies of a server that runs one handler, as a client sees them. */
module HonestLookup {
  import opened Wire
  import opened PackedLayout
  import opened LookupItem
  import opened LookupCodec
  import opened LookupReply
  import opened LookupBuilding
  import opened LookupRequests
  import opened LookupStitching

  /** One item of a response as the client looks at it. */
  datatype Row = Row(path: seq<byte>, status: u16, raw: seq<byte>)

  function Rows(v: LookupView): (rows: seq<Row>)
    requires AcceptedResponse(v)
    ensures |rows| == v.itemCount
    ensures forall j :: 0 <= j < |rows| ==> rows[j] == Row(ViewItem(v, j).path, ViewItem(v, j).status, RawItem(v, j))
  {
    hide AcceptedResponse, ViewItem, RawItem;
    seq(v.itemCount, j requires 0 <= j < v.itemCount => Row(ViewItem(v, j).path, ViewItem(v, j).status, RawItem(v, j)))
  }

  /** The rows from `k` on, and only those, are cut off, and every row echoes its path. */
  ghost predicate SplitAt(rows: seq<Row>, paths: seq<seq<byte>>, k: nat)
  {
    && |rows| == |paths| && k <= |paths|
    && (forall j :: 0 <= j < |paths| ==> rows[j].path == paths[j])
    && (forall j :: 0 <= j < k ==> rows[j].status != PAYLOAD_EXCEEDED)
    && (forall j :: k <= j < |paths| ==> rows[j].status == PAYLOAD_EXCEEDED)
  }

  lemma SplitUnique(rows: seq<Row>, paths: seq<seq<byte>>, k: nat, l: nat)
    requires SplitAt(rows, paths, k) && SplitAt(rows, paths, l)
    ensures k == l
  {
    assert k < |rows| ==> rows[k].status == PAYLOAD_EXCEEDED;
    assert l < |rows| ==> rows[l].status == PAYLOAD_EXCEEDED;
  }

  /** What a server that dispatches every request to one handler is made of. */
  datatype Truth = Truth(size: nat, generation: u64, answer: seq<byte> -> Answer)

  ghost predicate Answered(paths: seq<seq<byte>>, t: Truth)
  {
    AllPathsOk(paths) && Roomy(paths, t.size) && forall i :: 0 <= i < |paths| ==> Answerable(t.answer(paths[i]))
  }

  lemma AnswerEncodable(path: seq<byte>, a: Answer)
    requires PathOk(path) && Answerable(a) && |a.labels| < U16_LIMIT && |ItemBytes(AsItem(path, a))| < U32_LIMIT
    ensures Encodable(AsItem(path, a))
  {
    hide ItemBytes;
  }

  lemma AppendedEncodable(g: Budget, s: State, path: seq<byte>, a: Answer)
    requires PathOk(path) && Answerable(a)
    ensures Next(g, s, AsItem(path, a)).Append? ==> Encodable(Next(g, s, AsItem(path, a)).item)
  {
    hide ItemBytes, Raws, Pack, DataEnd, RestFits, NoNul, LabelsOk, Align8, Encodable;
    var x := AsItem(path, a);
    if PlaceholderLen(x.path) < U32_LIMIT {
      PlaceholderEncodable(PAYLOAD_EXCEEDED, x.path);
      PlaceholderEncodable(OVERSIZED_ITEM, x.path);
      PlaceholderEncodable(x.status, x.path);
    }
    if |x.labels| < U16_LIMIT && |ItemBytes(x)| < U32_LIMIT {
      AnswerEncodable(x.path, a);
    }
  }

  ghost predicate AllEncodable(items: seq<Item>)
  {
    forall j :: 0 <= j < |items| ==> Encodable(items[j])
  }

  lemma EncodableSnoc(items: seq<Item>, y: Item)
    requires AllEncodable(items) && Encodable(y)
    ensures AllEncodable(items + [y])
  {
    hide Encodable;
  }

  lemma {:induction false} ServedEncodable(g: Budget, paths: seq<seq<byte>>, answer: seq<byte> -> Answer, i: nat)
    requires i <= |paths| && AllPathsOk(paths) && forall j :: 0 <= j < |paths| ==> Answerable(answer(paths[j]))
    ensures Served(g, paths, answer, i).Ok? ==> AllEncodable(Served(g, paths, answer, i).value.items)
  {
    hide Encodable, AllEncodable, Next, CutsOff, DataEnd, PathOk, Answerable, AsItem;
    if i == 0 {
      assert AllEncodable([]) by { NoneEncodable(); }
    } else {
      ServedEncodable(g, paths, answer, i - 1);
      var before := Served(g, paths, answer, i - 1);
      if before.Ok? {
        var s, path := before.value, paths[i - 1];
        var x := AsItem(path, answer(path));
        AppendedEncodable(g, s, path, answer(path));
        if Next(g, s, x).Append? {
          EncodableSnoc(s.items, Next(g, s, x).item);
        }
      }
    }
  }

  lemma NoneEncodable()
    ensures AllEncodable([])
  {
  }

  /** The items an honest server puts in its reply. */
  ghost function HonestItems(paths: seq<seq<byte>>, t: Truth): (items: seq<Item>)
  {
    var r := Served(BudgetFor(paths, t.size), paths, t.answer, |paths|);
    if r.Ok? then r.value.items else []
  }

  lemma HonestShape(paths: seq<seq<byte>>, t: Truth) returns (k: nat)
    requires Answered(paths, t)
    ensures var items := HonestItems(paths, t); |items| == |paths| && Shaped(paths, t.answer, items, k)
  {
    hide Served, Shaped, PathOk, Answerable, Roomy, RoomAt;
    k := ServedShape(paths, t.size, t.answer, |paths|);
  }

  /** The reply to a request for `paths`: the answers, cut off after at least the first. */
  lemma HonestReply(req: seq<byte>, paths: seq<seq<byte>>, t: Truth) returns (k: nat)
    requires Answered(paths, t) && DecodeRequest(req) == Ok(paths)
    ensures var items := HonestItems(paths, t);
            && |items| == |paths| < U32_LIMIT && k <= |items| && Shaped(paths, t.answer, items, k)
            && Reply(req, t.size, t.generation, t.answer) == Ok(ResponseBytes(t.generation, Raws(items)))
            && AllEncodable(items)
            && Fits(Raws(items))
  {
    hide DecodeRequest, Served, ResponseBytes, Raws, Pack, ItemBytes, AllEncodable, Fits, Shaped, Reserved, PathOk,
         Answerable;
    var g, n := BudgetFor(paths, t.size), |paths|;
    k := ServedShape(paths, t.size, t.answer, n);
    ServedEncodable(g, paths, t.answer, n);
    ServedIsAtLeast(g, paths, t.answer, n, PAYLOAD_EXCEEDED);
    var items := HonestItems(paths, t);
    if items == [] {
      assert Raws(items) == [];
      PackEmpty();
    }
    PackedFits(Raws(items));
  }

  /** What the client sees of it. */
  lemma HonestRows(paths: seq<seq<byte>>, t: Truth, k: nat)
    requires var items := HonestItems(paths, t);
             && |items| == |paths| < U32_LIMIT && k <= |items| && Shaped(paths, t.answer, items, k)
             && AllEncodable(items)
             && Fits(Raws(items))
    requires forall j :: 0 <= j < |paths| ==> Answerable(t.answer(paths[j]))
    ensures var items := HonestItems(paths, t);
            var v := LookupView(|items|, t.generation, ResponseBytes(t.generation, Raws(items)));
            && AcceptedResponse(v)
            && |Rows(v)| == |items|
            && (forall j :: 0 <= j < |items| ==> Rows(v)[j] == Row(items[j].path, items[j].status, ItemBytes(items[j])))
            && SplitAt(Rows(v), paths, k)
  {
    hide HonestItems, ResponseBytes, ItemBytes, Encodable, Fits, DecodeResponse, DecodeItem, AcceptedResponse, RawItem,
         LabelsOk, NoNul;
    var items := HonestItems(paths, t);
    var raws := Raws(items);
    forall j | 0 <= j < |items|
      ensures DecodeItem(raws[j]) == Ok(ViewOf(items[j])) && |raws[j]| >= ITEM_HDR_SIZE
    {
      ItemRoundTrip(items[j]);
    }
    ResponseRoundTrip(t.generation, raws);
    var v := LookupView(|items|, t.generation, ResponseBytes(t.generation, raws));
    forall j | 0 <= j < |items|
      ensures Rows(v)[j] == Row(items[j].path, items[j].status, ItemBytes(items[j]))
    {
      assert RawItem(v, j) == raws[j];
    }
  }

  ghost predicate Exact(raw: seq<byte>, path: seq<byte>, t: Truth)
  {
    raw == ItemBytes(AsItem(path, t.answer(path)))
  }

  /** The mark of an answer too large. */
  ghost predicate Marked(raw: seq<byte>, path: seq<byte>)
  {
    raw == ItemBytes(Placeholder(OVERSIZED_ITEM, path))
  }

  ghost predicate Settled(raw: seq<byte>, path: seq<byte>, t: Truth)
  {
    Exact(raw, path, t) || Marked(raw, path)
  }

  /** The answer to `path` fits next to `reserved` bytes, in a reply of `count` items. */
  ghost predicate Snug(path: seq<byte>, count: nat, reserved: nat, t: Truth)
  {
    var x := AsItem(path, t.answer(path));
    x.status == KNOWN ==>
      && |x.labels| < U16_LIMIT
      && Align8(LOOKUP_HDR_SIZE + 8 * count + |ItemBytes(x)|) + reserved <= t.size
  }

  /** The items taken from an honest reply: exactly those in front of its cut-off marks. */
  ghost predicate Fair(got: seq<seq<byte>>, paths: seq<seq<byte>>, t: Truth)
  {
    var items := HonestItems(paths, t);
    && |items| == |paths| && |got| <= |paths| && Shaped(paths, t.answer, items, |got|)
    && forall j :: 0 <= j < |got| ==> got[j] == ItemBytes(items[j])
  }

  lemma HonestFair(paths: seq<seq<byte>>, t: Truth, k: nat, got: seq<seq<byte>>)
    requires var items := HonestItems(paths, t);
             && |items| == |paths| && Shaped(paths, t.answer, items, k)
             && |got| == k && forall j :: 0 <= j < k ==> got[j] == ItemBytes(items[j])
    ensures Fair(got, paths, t)
  {
    hide ItemBytes, HonestItems;
  }

  /** Items with the same bytes have the same status. */
  lemma StatusShows(x: Item, y: Item)
    requires ItemBytes(x) == ItemBytes(y)
    ensures x.status == y.status
  {
    hide U16, U32, Val, LE, Pow256, LabelPart;
    assert ItemBytes(x)[2..4] == U16(x.status);
    assert ItemBytes(y)[2..4] == U16(y.status);
    assert Val(U16(x.status)) == x.status && Val(U16(y.status)) == y.status;
  }

  /** What was taken from an honest reply: later items are always the answers; the first one is
      the answer exactly when it fits beside the placeholders of the other paths, and the mark
      otherwise. */
  lemma FairItems(got: seq<seq<byte>>, paths: seq<seq<byte>>, t: Truth)
    requires Answered(paths, t) && Fair(got, paths, t)
    ensures forall j :: 0 < j < |got| ==> Exact(got[j], paths[j], t)
    ensures got != [] ==>
              var snug := Snug(paths[0], |paths|, Reserved(Lens(paths), 1), t);
              && (Exact(got[0], paths[0], t) <==> snug)
              && (Marked(got[0], paths[0]) <==> !snug)
  {
    hide ItemBytes, Reserved, PathOk, Served;
    if got != [] {
      OversizedExactlyWhen(paths, t.size, t.answer, |paths|);
      var x, mark := AsItem(paths[0], t.answer(paths[0])), Placeholder(OVERSIZED_ITEM, paths[0]);
      if ItemBytes(x) == ItemBytes(mark) {
        StatusShows(x, mark);
      }
    }
  }

  // -------------------------------------------------------------------------
  //  Parts of a request
  // -------------------------------------------------------------------------

  /** Reserving for a stretch of the request takes no more than reserving from there on. */
  lemma {:induction false} ReservedSlice(lens: seq<nat>, a: nat, b: nat, i: nat)
    requires a <= b <= |lens| && i <= b - a
    ensures Reserved(lens[a..b], i) <= Reserved(lens, a + i)
    decreases b - a - i
  {
    if i < b - a {
      ReservedSlice(lens, a, b, i + 1);
    }
  }

  lemma LensSlice(paths: seq<seq<byte>>, a: nat, b: nat)
    requires a <= b <= |paths|
    ensures Lens(paths[a..b]) == Lens(paths)[a..b]
  {
  }

  /** Every part of an answerable request is answerable. */
  lemma AnsweredSlice(paths: seq<seq<byte>>, t: Truth, a: nat, b: nat)
    requires Answered(paths, t) && a <= b <= |paths|
    ensures Answered(paths[a..b], t)
  {
    hide Reserved, PathOk, Answerable;
    LensSlice(paths, a, b);
    ReservedSlice(Lens(paths), a, b, 0);
    ReservedShrinks(Lens(paths), 0, a);
  }
}
