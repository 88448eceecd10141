/** One item of a cgroups lookup response: path, name and a table of labels. */
module LookupItem {
  import opened Wire

  const KNOWN: u16 := 0
  const UNKNOWN_PERMANENT: u16 := 2
  const PAYLOAD_EXCEEDED: u16 := 3
  const OVERSIZED_ITEM: u16 := 4

  const ITEM_HDR_SIZE: nat := 28
  const LABEL_ENTRY_SIZE: nat := 16

  datatype Label = Label(key: seq<byte>, value: seq<byte>)

  datatype Item = Item(status: u16, orchestrator: u16, path: seq<byte>, name: seq<byte>, labels: seq<Label>)

  predicate NoNul(s: seq<byte>)
  {
    forall i :: 0 <= i < |s| ==> s[i] != 0
  }

  /** The status rules: known statuses, a path, and enrichment only when known. */
  predicate SemanticsOk(status: u16, orchestrator: u16, pathLen: nat, nameLen: nat, labelCount: nat)
  {
    && status <= OVERSIZED_ITEM
    && pathLen != 0
    && (status != KNOWN ==> orchestrator == 0 && nameLen == 0 && labelCount == 0)
  }

  // -------------------------------------------------------------------------
  //  Serializer
  // -------------------------------------------------------------------------

  function LabelStrings(ls: seq<Label>): (s: seq<byte>)
  {
    if ls == [] then []
    else
      var n := |ls| - 1;
      LabelStrings(ls[..n]) + (ls[n].key + [0] + ls[n].value + [0])
  }

  function LabelEntry(at: nat, l: Label): (s: seq<byte>)
    ensures |s| == LABEL_ENTRY_SIZE
  {
    U32(at) + U32(|l.key|) + U32(at + |l.key| + 1) + U32(|l.value|)
  }

  /** Entries for labels whose strings start at `base`. */
  function LabelTable(base: nat, ls: seq<Label>): (s: seq<byte>)
    ensures |s| == LABEL_ENTRY_SIZE * |ls|
  {
    if ls == [] then []
    else
      var n := |ls| - 1;
      LabelTable(base, ls[..n]) + LabelEntry(base + |LabelStrings(ls[..n])|, ls[n])
  }

  function Header(x: Item): (b: seq<byte>)
    ensures |b| == ITEM_HDR_SIZE
  {
    (U16(1) + U16(x.status) + U16(x.orchestrator) + U16(0))
    + (U32(ITEM_HDR_SIZE) + U32(|x.path|) + U32(ITEM_HDR_SIZE + |x.path| + 1) + U32(|x.name|))
    + (U16(|x.labels|) + U16(0))
  }

  /** End of the header and the two fixed strings. */
  function FixedEnd(x: Item): nat
  {
    ITEM_HDR_SIZE + |x.path| + 1 + |x.name| + 1
  }

  function LabelPart(fixedEnd: nat, ls: seq<Label>): (s: seq<byte>)
  {
    if ls == [] then []
    else
      var table := Align8(fixedEnd);
      Zeros(table - fixedEnd) + LabelTable(table + LABEL_ENTRY_SIZE * |ls|, ls) + LabelStrings(ls)
  }

  function ItemBytes(x: Item): (b: seq<byte>)
    ensures |b| >= ITEM_HDR_SIZE + 2
  {
    Header(x) + (x.path + [0] + x.name + [0]) + LabelPart(FixedEnd(x), x.labels)
  }

  predicate LabelsOk(ls: seq<Label>)
  {
    forall i :: 0 <= i < |ls| ==> ls[i].key != [] && NoNul(ls[i].key) && NoNul(ls[i].value)
  }

  /** An item every encoder accepts and the wire can represent. */
  predicate Encodable(x: Item)
  {
    && SemanticsOk(x.status, x.orchestrator, |x.path|, |x.name|, |x.labels|)
    && NoNul(x.path) && NoNul(x.name)
    && LabelsOk(x.labels)
    && |x.labels| < U16_LIMIT
    && |ItemBytes(x)| < U32_LIMIT
  }

  // -------------------------------------------------------------------------
  //  Decoder
  // -------------------------------------------------------------------------

  /** Checks the NUL-terminated string at `offset` and returns where it ends. */
  function StringEnd(item: seq<byte>, offset: nat, length: nat): (r: Result<nat>)
  {
    if offset < ITEM_HDR_SIZE then Err(OutOfBounds)
    else if offset + length >= |item| then Err(OutOfBounds)
    else if item[offset + length] != 0 then Err(MissingNul)
    else if !NoNul(item[offset..offset + length]) then Err(BadLayout)
    else Ok(offset + length + 1)
  }

  /** Checks label entries `i` and later; the strings must be packed from `expected` on. */
  function ScanLabels(item: seq<byte>, table: nat, i: nat, n: nat, expected: nat): (r: Result<nat>)
    requires i <= n && table + LABEL_ENTRY_SIZE * n <= |item|
    decreases n - i
  {
    if i == n then Ok(expected)
    else
      var at := table + LABEL_ENTRY_SIZE * i;
      var keyOff, keyLen := Get32(item, at), Get32(item, at + 4);
      var valueOff, valueLen := Get32(item, at + 8), Get32(item, at + 12);
      if keyLen == 0 || keyOff != expected then Err(BadLayout)
      else
        match StringEnd(item, keyOff, keyLen)
        case Err(e) => Err(e)
        case Ok(keyEnd) =>
          if valueOff != keyEnd then Err(BadLayout)
          else
            match StringEnd(item, valueOff, valueLen)
            case Err(e) => Err(e)
            case Ok(valueEnd) => ScanLabels(item, table, i + 1, n, valueEnd)
  }

  function ValidateLabels(item: seq<byte>, n: nat, fixedEnd: nat): (r: Result<nat>)
    requires fixedEnd <= |item|
  {
    if n == 0 then (if fixedEnd != |item| then Err(BadLayout) else Ok(fixedEnd))
    else
      var table := Align8(fixedEnd);
      if table > |item| then Err(OutOfBounds)
      else if exists i :: fixedEnd <= i < table && item[i] != 0 then Err(BadLayout)
      else if table + LABEL_ENTRY_SIZE * n > |item| then Err(OutOfBounds)
      else
        match ScanLabels(item, table, 0, n, table + LABEL_ENTRY_SIZE * n)
        case Err(e) => Err(e)
        case Ok(end) => if end != |item| then Err(BadLayout) else Ok(table)
  }

  datatype ItemView = ItemView(
    status: u16, orchestrator: u16, path: seq<byte>, name: seq<byte>, labelCount: nat, item: seq<byte>, table: nat)

  function DecodeItem(item: seq<byte>): (r: Result<ItemView>)
  {
    if |item| < ITEM_HDR_SIZE then Err(Truncated)
    else
      var status, orchestrator := Get16(item, 2), Get16(item, 4);
      var pathOff, pathLen := Get32(item, 8), Get32(item, 12);
      var nameOff, nameLen := Get32(item, 16), Get32(item, 20);
      var labelCount := Get16(item, 24);
      if Get16(item, 0) != 1 || Get16(item, 6) != 0 || Get16(item, 26) != 0 then Err(BadLayout)
      else if !SemanticsOk(status, orchestrator, pathLen, nameLen, labelCount) then Err(BadLayout)
      else
        match StringEnd(item, pathOff, pathLen)
        case Err(e) => Err(e)
        case Ok(pathEnd) =>
          match StringEnd(item, nameOff, nameLen)
          case Err(e) => Err(e)
          case Ok(nameEnd) =>
            if pathOff < nameEnd && nameOff < pathEnd then Err(BadLayout)
            else
              match ValidateLabels(item, labelCount, if pathEnd >= nameEnd then pathEnd else nameEnd)
              case Err(e) => Err(e)
              case Ok(table) =>
                Ok(ItemView(status, orchestrator, item[pathOff..pathEnd - 1], item[nameOff..nameEnd - 1],
                            labelCount, item, table))
  }

  /** The key and value of label `index` of a decoded item. */
  function LabelAt(v: ItemView, index: nat): (r: Result<Label>)
  {
    if index >= v.labelCount then Err(OutOfBounds)
    else
      var at := v.table + LABEL_ENTRY_SIZE * index;
      if at + LABEL_ENTRY_SIZE > |v.item| then Err(OutOfBounds)
      else
        var keyOff, keyLen := Get32(v.item, at), Get32(v.item, at + 4);
        var valueOff, valueLen := Get32(v.item, at + 8), Get32(v.item, at + 12);
        match StringEnd(v.item, keyOff, keyLen)
        case Err(e) => Err(e)
        case Ok(keyEnd) =>
          match StringEnd(v.item, valueOff, valueLen)
          case Err(e) => Err(e)
          case Ok(valueEnd) => Ok(Label(v.item[keyOff..keyEnd - 1], v.item[valueOff..valueEnd - 1]))
  }

  // -------------------------------------------------------------------------
  //  Round trip
  // -------------------------------------------------------------------------

  lemma TableSnoc(base: nat, ls: seq<Label>, l: Label)
    ensures LabelTable(base, ls + [l]) == LabelTable(base, ls) + LabelEntry(base + |LabelStrings(ls)|, l)
    ensures LabelStrings(ls + [l]) == LabelStrings(ls) + (l.key + [0] + l.value + [0])
  {
    hide LabelEntry;
    assert (ls + [l])[..|ls|] == ls;
  }

  /** Entry `i` and the strings it points at, inside the whole table and string area. */
  lemma {:induction false} LabelPlaces(base: nat, ls: seq<Label>, i: nat)
    requires i < |ls|
    ensures LabelTable(base, ls)[LABEL_ENTRY_SIZE * i..LABEL_ENTRY_SIZE * i + LABEL_ENTRY_SIZE]
            == LabelEntry(base + |LabelStrings(ls[..i])|, ls[i])
    ensures var at := |LabelStrings(ls[..i])|;
            var end := at + |ls[i].key| + 1 + |ls[i].value| + 1;
            && end == |LabelStrings(ls[..i + 1])| <= |LabelStrings(ls)|
            && LabelStrings(ls)[at..end] == ls[i].key + [0] + ls[i].value + [0]
  {
    hide LabelEntry, LabelStrings, LabelTable;
    var n := |ls| - 1;
    var front, l := ls[..n], ls[n];
    assert ls == front + [l];
    TableSnoc(base, front, l);
    if i < n {
      LabelPlaces(base, front, i);
      assert front[..i] == ls[..i] && front[..i + 1] == ls[..i + 1];
    } else {
      assert ls[..i + 1] == ls;
    }
  }

  /** `item` holds the label table at `table` and, right behind it to the end, the strings. */
  ghost predicate HoldsLabels(item: seq<byte>, table: nat, ls: seq<Label>)
  {
    var base := table + LABEL_ENTRY_SIZE * |ls|;
    && ITEM_HDR_SIZE <= table
    && base + |LabelStrings(ls)| == |item| < U32_LIMIT
    && item[table..base] == LabelTable(base, ls)
    && item[base..] == LabelStrings(ls)
  }

  lemma EntryReads(item: seq<byte>, at: nat, o: nat, l: Label)
    requires at + LABEL_ENTRY_SIZE <= |item| < U32_LIMIT && o + |l.key| + 1 + |l.value| < U32_LIMIT
    requires item[at..at + LABEL_ENTRY_SIZE] == LabelEntry(o, l)
    ensures Get32(item, at) == o && Get32(item, at + 4) == |l.key|
    ensures Get32(item, at + 8) == o + |l.key| + 1 && Get32(item, at + 12) == |l.value|
  {
    hide U32, Get32, Val, LE, Pow256;
    SplitFour(item, at, U32(o), U32(|l.key|), U32(o + |l.key| + 1), U32(|l.value|));
    Reads32(item, at, o);
    Reads32(item, at + 4, |l.key|);
    Reads32(item, at + 8, o + |l.key| + 1);
    Reads32(item, at + 12, |l.value|);
  }

  lemma StringsRead(item: seq<byte>, o: nat, l: Label)
    requires ITEM_HDR_SIZE <= o && o + |l.key| + 1 + |l.value| + 1 <= |item|
    requires item[o..o + |l.key| + 1 + |l.value| + 1] == l.key + [0] + l.value + [0]
    requires NoNul(l.key) && NoNul(l.value)
    ensures StringEnd(item, o, |l.key|) == Ok(o + |l.key| + 1)
    ensures item[o..o + |l.key|] == l.key
    ensures var v := o + |l.key| + 1;
            StringEnd(item, v, |l.value|) == Ok(v + |l.value| + 1) && item[v..v + |l.value|] == l.value
  {
    hide NoNul;
    var k, n := |l.key|, |l.key| + 1 + |l.value| + 1;
    var s := l.key + [0] + l.value + [0];
    Within(item, o, o + n, 0, k);
    Within(item, o, o + n, k + 1, n - 1);
    assert s[0..k] == l.key && s[k + 1..n - 1] == l.value && s[k] == 0 && s[n - 1] == 0;
    assert item[o + k] == item[o..o + n][k] && item[o + n - 1] == item[o..o + n][n - 1];
  }

  /** Everything a reader finds at label `i`. */
  lemma LabelReads(item: seq<byte>, table: nat, ls: seq<Label>, i: nat)
    requires HoldsLabels(item, table, ls) && i < |ls|
    requires NoNul(ls[i].key) && NoNul(ls[i].value)
    ensures var at, l := table + LABEL_ENTRY_SIZE * i, ls[i];
            var o := table + LABEL_ENTRY_SIZE * |ls| + |LabelStrings(ls[..i])|;
            var v := o + |l.key| + 1;
            && Get32(item, at) == o && Get32(item, at + 4) == |l.key|
            && Get32(item, at + 8) == v && Get32(item, at + 12) == |l.value|
            && StringEnd(item, o, |l.key|) == Ok(v) && StringEnd(item, v, |l.value|) == Ok(v + |l.value| + 1)
            && v + |l.value| + 1 == table + LABEL_ENTRY_SIZE * |ls| + |LabelStrings(ls[..i + 1])| <= |item|
            && item[o..v - 1] == l.key && item[v..v + |l.value|] == l.value
  {
    hide LabelStrings, LabelTable, LabelEntry, StringEnd, Get32, NoNul;
    var base := table + LABEL_ENTRY_SIZE * |ls|;
    var at, l := table + LABEL_ENTRY_SIZE * i, ls[i];
    var o := base + |LabelStrings(ls[..i])|;
    LabelPlaces(base, ls, i);
    Within(item, table, base, LABEL_ENTRY_SIZE * i, LABEL_ENTRY_SIZE * i + LABEL_ENTRY_SIZE);
    Within(item, base, |item|, o - base, o - base + |l.key| + 1 + |l.value| + 1);
    EntryReads(item, at, o, l);
    StringsRead(item, o, l);
  }

  lemma {:induction false} ScanAccepts(item: seq<byte>, table: nat, ls: seq<Label>, i: nat)
    requires HoldsLabels(item, table, ls) && i <= |ls|
    requires LabelsOk(ls)
    ensures ScanLabels(item, table, i, |ls|, table + LABEL_ENTRY_SIZE * |ls| + |LabelStrings(ls[..i])|) == Ok(|item|)
    decreases |ls| - i
  {
    hide LabelStrings, LabelTable, StringEnd, Get32, NoNul;
    if i == |ls| {
      assert ls[..i] == ls;
    } else {
      LabelReads(item, table, ls, i);
      ScanAccepts(item, table, ls, i + 1);
    }
  }

  /** The view of an encoded item. */
  function ViewOf(x: Item): ItemView
  {
    ItemView(x.status, x.orchestrator, x.path, x.name, |x.labels|, ItemBytes(x),
             if x.labels == [] then FixedEnd(x) else Align8(FixedEnd(x)))
  }

  lemma HeaderReads(x: Item, rest: seq<byte>)
    requires |x.labels| < U16_LIMIT && FixedEnd(x) < U32_LIMIT
    ensures var b := Header(x) + rest;
            && Get16(b, 0) == 1 && Get16(b, 2) == x.status && Get16(b, 4) == x.orchestrator && Get16(b, 6) == 0
            && Get32(b, 8) == ITEM_HDR_SIZE && Get32(b, 12) == |x.path|
            && Get32(b, 16) == ITEM_HDR_SIZE + |x.path| + 1 && Get32(b, 20) == |x.name|
            && Get16(b, 24) == |x.labels| && Get16(b, 26) == 0
  {
    hide U16, U32, Get16, Get32, Val, LE, Pow256;
    var b := Header(x) + rest;
    var a := U16(1) + U16(x.status) + U16(x.orchestrator) + U16(0);
    var c := U32(ITEM_HDR_SIZE) + U32(|x.path|) + U32(ITEM_HDR_SIZE + |x.path| + 1) + U32(|x.name|);
    var d := U16(|x.labels|) + U16(0);
    assert b[..28] == Header(x);
    SplitThree(b, 0, a, c, d);
    SplitFour(b, 0, U16(1), U16(x.status), U16(x.orchestrator), U16(0));
    SplitFour(b, 8, U32(ITEM_HDR_SIZE), U32(|x.path|), U32(ITEM_HDR_SIZE + |x.path| + 1), U32(|x.name|));
    SplitTwo(b, 24, U16(|x.labels|), U16(0));
    Reads16(b, 0, 1);
    Reads16(b, 2, x.status);
    Reads16(b, 4, x.orchestrator);
    Reads16(b, 6, 0);
    Reads32(b, 8, ITEM_HDR_SIZE);
    Reads32(b, 12, |x.path|);
    Reads32(b, 16, ITEM_HDR_SIZE + |x.path| + 1);
    Reads32(b, 20, |x.name|);
    Reads16(b, 24, |x.labels|);
    Reads16(b, 26, 0);
  }

  /** The path and the name read back like a label's key and value. */
  lemma FixedStrings(x: Item)
    requires NoNul(x.path) && NoNul(x.name)
    ensures var b, o := ItemBytes(x), ITEM_HDR_SIZE;
            var v := o + |x.path| + 1;
            && b == Header(x) + b[o..]
            && FixedEnd(x) <= |b|
            && StringEnd(b, o, |x.path|) == Ok(v) && b[o..v - 1] == x.path
            && StringEnd(b, v, |x.name|) == Ok(FixedEnd(x)) && b[v..v + |x.name|] == x.name
  {
    hide Header, LabelPart, StringEnd, NoNul;
    var b, o := ItemBytes(x), ITEM_HDR_SIZE;
    assert b[o..FixedEnd(x)] == x.path + [0] + x.name + [0];
    StringsRead(b, o, Label(x.path, x.name));
  }

  /** An item is its fixed part and, when it has labels, a gap, their table and their strings. */
  lemma ItemInParts(x: Item)
    ensures var fixed, table := Header(x) + (x.path + [0] + x.name + [0]), Align8(FixedEnd(x));
            && |fixed| == FixedEnd(x) <= table
            && |Zeros(table - FixedEnd(x))| == table - FixedEnd(x)
            && ItemBytes(x) ==
                 if x.labels == [] then fixed
                 else
                   fixed + Zeros(table - FixedEnd(x))
                   + (LabelTable(table + LABEL_ENTRY_SIZE * |x.labels|, x.labels) + LabelStrings(x.labels))
  {
    hide Header, LabelTable, LabelStrings, Zeros;
    var fixed, table := Header(x) + (x.path + [0] + x.name + [0]), Align8(FixedEnd(x));
    if x.labels != [] {
      JoinBehind(fixed, Zeros(table - FixedEnd(x)),
                 LabelTable(table + LABEL_ENTRY_SIZE * |x.labels|, x.labels), LabelStrings(x.labels));
    }
  }

  lemma JoinBehind(s: seq<byte>, t: seq<byte>, u: seq<byte>, v: seq<byte>)
    ensures s + (t + u + v) == s + t + (u + v)
  {
  }

  lemma TailSplits(fixed: seq<byte>, pad: seq<byte>, t: seq<byte>, s: seq<byte>)
    ensures var b, at := fixed + pad + (t + s), |fixed| + |pad|;
            && |b| == at + |t| + |s|
            && b[|fixed|..at] == pad && b[at..at + |t|] == t && b[at + |t|..] == s
  {
  }

  lemma ZerosBetween(b: seq<byte>, from: nat, to: nat)
    requires from <= to <= |b| && b[from..to] == Zeros(to - from)
    ensures forall i :: from <= i < to ==> b[i] == 0
  {
    forall i | from <= i < to
      ensures b[i] == 0
    {
      assert b[i] == b[from..to][i - from];
    }
  }

  /** The label part is where the decoder looks for it, after zero padding. */
  lemma LabelsFollow(x: Item)
    requires x.labels != [] && |ItemBytes(x)| < U32_LIMIT
    ensures var b, table := ItemBytes(x), Align8(FixedEnd(x));
            && HoldsLabels(b, table, x.labels)
            && table <= |b|
            && forall i :: FixedEnd(x) <= i < table ==> b[i] == 0
  {
    hide Header, LabelTable, LabelStrings, ItemBytes, Zeros;
    ItemInParts(x);
    var fixed, end, table := Header(x) + (x.path + [0] + x.name + [0]), FixedEnd(x), Align8(FixedEnd(x));
    var base := table + LABEL_ENTRY_SIZE * |x.labels|;
    TailSplits(fixed, Zeros(table - end), LabelTable(base, x.labels), LabelStrings(x.labels));
    ZerosBetween(ItemBytes(x), end, table);
  }

  lemma LabelsValidate(x: Item)
    requires Encodable(x)
    ensures FixedEnd(x) <= |ItemBytes(x)|
    ensures ValidateLabels(ItemBytes(x), |x.labels|, FixedEnd(x)) == Ok(ViewOf(x).table)
  {
    hide Header, ItemBytes, LabelTable, LabelStrings, ScanLabels, NoNul, HoldsLabels;
    if x.labels == [] {
      NoLabels(x);
    } else {
      LabelsFollow(x);
      ScanAccepts(ItemBytes(x), Align8(FixedEnd(x)), x.labels, 0);
      NoStrings(x.labels);
      TableFits(ItemBytes(x), Align8(FixedEnd(x)), x.labels);
    }
  }

  lemma NoLabels(x: Item)
    requires x.labels == []
    ensures |ItemBytes(x)| == FixedEnd(x)
  {
    hide Header;
  }

  lemma TableFits(item: seq<byte>, table: nat, ls: seq<Label>)
    requires HoldsLabels(item, table, ls)
    ensures table + LABEL_ENTRY_SIZE * |ls| <= |item|
  {
    hide LabelTable, LabelStrings;
  }

  lemma NoStrings(ls: seq<Label>)
    ensures LabelStrings(ls[..0]) == []
  {
  }

  /** Every encodable item decodes to itself, path, name and each label. */
  lemma ItemRoundTrip(x: Item)
    requires Encodable(x)
    ensures DecodeItem(ItemBytes(x)) == Ok(ViewOf(x))
    ensures forall i :: 0 <= i < |x.labels| ==> LabelAt(ViewOf(x), i) == Ok(x.labels[i])
  {
    hide Header, ItemBytes, ValidateLabels, StringEnd, NoNul, Get16, Get32, HoldsLabels, LabelStrings;
    var b := ItemBytes(x);
    FixedStrings(x);
    HeaderReads(x, b[ITEM_HDR_SIZE..]);
    LabelsValidate(x);
    forall i | 0 <= i < |x.labels|
      ensures LabelAt(ViewOf(x), i) == Ok(x.labels[i])
    {
      LabelsFollow(x);
      LabelReads(b, Align8(FixedEnd(x)), x.labels, i);
    }
  }

  // -------------------------------------------------------------------------
  //  Arbitrary items
  // -------------------------------------------------------------------------

  /** A NUL-terminated string of `length` bytes at `offset`, past the item header. */
  predicate StringIn(item: seq<byte>, offset: nat, length: nat)
  {
    ITEM_HDR_SIZE <= offset && offset + length < |item| && item[offset + length] == 0
    && NoNul(item[offset..offset + length])
  }

  /** The first entries and strings of a table of `n` entries are those of `ls`. */
  ghost predicate Begins(item: seq<byte>, table: nat, n: nat, ls: seq<Label>)
  {
    var base := table + LABEL_ENTRY_SIZE * n;
    && |ls| <= n && ITEM_HDR_SIZE <= table && base + |LabelStrings(ls)| <= |item| < U32_LIMIT
    && LabelsOk(ls)
    && item[table..table + LABEL_ENTRY_SIZE * |ls|] == LabelTable(base, ls)
    && item[base..base + |LabelStrings(ls)|] == LabelStrings(ls)
  }

  /** What the scan read at one entry is the encoding of a label. */
  lemma EntryIsLabel(item: seq<byte>, at: nat, o: nat, l: Label)
    requires at + LABEL_ENTRY_SIZE <= |item|
    requires Get32(item, at) == o && Get32(item, at + 4) == |l.key|
    requires Get32(item, at + 8) == o + |l.key| + 1 && Get32(item, at + 12) == |l.value|
    ensures item[at..at + LABEL_ENTRY_SIZE] == LabelEntry(o, l)
  {
    hide U32, Get32, Val, LE, Pow256;
    Rewrite32(item, at);
    Rewrite32(item, at + 4);
    Rewrite32(item, at + 8);
    Rewrite32(item, at + 12);
    Joined(item, at, at + 4, at + 8, U32(o), U32(|l.key|));
    Joined(item, at, at + 8, at + 12, U32(o) + U32(|l.key|), U32(o + |l.key| + 1));
    Joined(item, at, at + 12, at + 16, U32(o) + U32(|l.key|) + U32(o + |l.key| + 1), U32(|l.value|));
  }

  lemma StringsAreLabel(item: seq<byte>, o: nat, l: Label)
    requires var v := o + |l.key| + 1;
             && StringEnd(item, o, |l.key|).Ok? && item[o..v - 1] == l.key
             && StringEnd(item, v, |l.value|).Ok? && item[v..v + |l.value|] == l.value
    ensures NoNul(l.key) && NoNul(l.value) && o + |l.key| + 1 + |l.value| + 1 <= |item|
    ensures item[o..o + |l.key| + 1 + |l.value| + 1] == l.key + [0] + l.value + [0]
  {
    hide NoNul;
    var v := o + |l.key| + 1;
    var end := v + |l.value|;
    Joined(item, o, v - 1, v, l.key, [0]);
    Joined(item, o, v, end, l.key + [0], l.value);
    Joined(item, o, end, end + 1, l.key + [0] + l.value, [0]);
  }

  lemma BeginsMore(item: seq<byte>, table: nat, n: nat, ls: seq<Label>, l: Label)
    requires Begins(item, table, n, ls) && |ls| < n && l.key != []
    requires var o := table + LABEL_ENTRY_SIZE * n + |LabelStrings(ls)|;
             var at := table + LABEL_ENTRY_SIZE * |ls|;
             && NoNul(l.key) && NoNul(l.value) && o + |l.key| + 1 + |l.value| + 1 <= |item|
             && item[at..at + LABEL_ENTRY_SIZE] == LabelEntry(o, l)
             && item[o..o + |l.key| + 1 + |l.value| + 1] == l.key + [0] + l.value + [0]
    ensures Begins(item, table, n, ls + [l])
    ensures |LabelStrings(ls + [l])| == |LabelStrings(ls)| + |l.key| + 1 + |l.value| + 1
  {
    hide LabelTable, LabelStrings, LabelEntry, NoNul;
    var base, used := table + LABEL_ENTRY_SIZE * n, |LabelStrings(ls)|;
    var at, o, strings := table + LABEL_ENTRY_SIZE * |ls|, base + used, l.key + [0] + l.value + [0];
    TableSnoc(base, ls, l);
    Joined(item, table, at, at + LABEL_ENTRY_SIZE, LabelTable(base, ls), LabelEntry(o, l));
    Joined(item, base, o, o + |strings|, LabelStrings(ls), strings);
  }

  /** A successful scan has read the serialization of some labels. */
  lemma {:induction false} ScanFinds(item: seq<byte>, table: nat, n: nat, ls: seq<Label>) returns (all: seq<Label>)
    requires Begins(item, table, n, ls) && table + LABEL_ENTRY_SIZE * n <= |item|
    requires ScanLabels(item, table, |ls|, n, table + LABEL_ENTRY_SIZE * n + |LabelStrings(ls)|).Ok?
    ensures |all| == n && Begins(item, table, n, all)
    ensures ScanLabels(item, table, |ls|, n, table + LABEL_ENTRY_SIZE * n + |LabelStrings(ls)|)
            == Ok(table + LABEL_ENTRY_SIZE * n + |LabelStrings(all)|)
    decreases n - |ls|
  {
    hide LabelTable, LabelStrings, LabelEntry, NoNul, Begins, Get32, StringEnd;
    BeginsBounds(item, table, n, ls);
    if |ls| == n {
      all := ls;
    } else {
      var at, o := table + LABEL_ENTRY_SIZE * |ls|, table + LABEL_ENTRY_SIZE * n + |LabelStrings(ls)|;
      var keyLen: nat, valueLen: nat := Get32(item, at + 4), Get32(item, at + 12);
      StringInside(item, o, keyLen);
      StringInside(item, o + keyLen + 1, valueLen);
      var l := Label(item[o..o + keyLen], item[o + keyLen + 1..o + keyLen + 1 + valueLen]);
      EntryIsLabel(item, at, o, l);
      StringsAreLabel(item, o, l);
      BeginsMore(item, table, n, ls, l);
      all := ScanFinds(item, table, n, ls + [l]);
    }
  }

  lemma BeginsBounds(item: seq<byte>, table: nat, n: nat, ls: seq<Label>)
    requires Begins(item, table, n, ls)
    ensures |ls| <= n
  {
    hide LabelTable, LabelStrings;
  }

  lemma StringInside(item: seq<byte>, offset: nat, length: nat)
    ensures StringEnd(item, offset, length).Ok? <==> StringIn(item, offset, length)
    ensures StringEnd(item, offset, length).Ok? ==> StringEnd(item, offset, length) == Ok(offset + length + 1)
    ensures StringEnd(item, offset, length).Ok? ==> offset + length < |item|
  {
    hide NoNul;
  }

  /** The rest of an item behind its fixed strings: nothing, or zero padding and exactly the
      serialized table and strings of `n` labels. */
  ghost predicate LabelsFill(item: seq<byte>, n: nat, fixedEnd: nat)
  {
    if n == 0 then fixedEnd == |item|
    else
      var table := Align8(fixedEnd);
      && table <= |item|
      && (forall i :: fixedEnd <= i < table ==> item[i] == 0)
      && exists ls :: |ls| == n && LabelsOk(ls) && HoldsLabels(item, table, ls)
  }

  lemma LabelsExactlyWhen(item: seq<byte>, n: nat, fixedEnd: nat)
    requires ITEM_HDR_SIZE <= fixedEnd <= |item| < U32_LIMIT
    ensures ValidateLabels(item, n, fixedEnd).Ok? <==> LabelsFill(item, n, fixedEnd)
  {
    hide LabelTable, LabelStrings, ScanLabels, NoNul, Begins, HoldsLabels;
    var table := Align8(fixedEnd);
    if n > 0 && ValidateLabels(item, n, fixedEnd).Ok? {
      StartsScan(item, table, n);
      var ls := ScanFinds(item, table, n, []);
      FilledToEnd(item, table, ls);
    }
    if n > 0 && LabelsFill(item, n, fixedEnd) {
      var ls :| |ls| == n && LabelsOk(ls) && HoldsLabels(item, table, ls);
      TableFits(item, table, ls);
      NoStrings(ls);
      ScanAccepts(item, table, ls, 0);
    }
  }

  lemma StartsScan(item: seq<byte>, table: nat, n: nat)
    requires ITEM_HDR_SIZE <= table && table + LABEL_ENTRY_SIZE * n <= |item| < U32_LIMIT
    ensures Begins(item, table, n, []) && LabelStrings([]) == []
  {
  }

  lemma FilledToEnd(item: seq<byte>, table: nat, ls: seq<Label>)
    requires Begins(item, table, |ls|, ls) && table + LABEL_ENTRY_SIZE * |ls| + |LabelStrings(ls)| == |item|
    ensures LabelsOk(ls) && HoldsLabels(item, table, ls)
  {
    hide LabelTable, LabelStrings, LabelsOk;
  }

  /** Where the later of path and name ends. */
  function FixedEndOf(item: seq<byte>): nat
    requires |item| >= ITEM_HDR_SIZE
  {
    var pathEnd, nameEnd := Get32(item, 8) + Get32(item, 12) + 1, Get32(item, 16) + Get32(item, 20) + 1;
    if pathEnd >= nameEnd then pathEnd else nameEnd
  }

  /** The decoder accepts exactly the items whose header is right, whose path and name are two
      disjoint strings past the header, and whose rest is a serialized label table. */
  lemma ItemExactlyWhen(item: seq<byte>)
    requires |item| < U32_LIMIT
    ensures DecodeItem(item).Ok? <==>
              && |item| >= ITEM_HDR_SIZE
              && Get16(item, 0) == 1 && Get16(item, 6) == 0 && Get16(item, 26) == 0
              && SemanticsOk(Get16(item, 2), Get16(item, 4), Get32(item, 12), Get32(item, 20), Get16(item, 24))
              && StringIn(item, Get32(item, 8), Get32(item, 12)) && StringIn(item, Get32(item, 16), Get32(item, 20))
              && (Get32(item, 8) + Get32(item, 12) < Get32(item, 16)
                  || Get32(item, 16) + Get32(item, 20) < Get32(item, 8))
              && LabelsFill(item, Get16(item, 24), FixedEndOf(item))
  {
    hide Get16, Get32, StringEnd, StringIn, ValidateLabels, LabelsFill, NoNul, SemanticsOk;
    if |item| >= ITEM_HDR_SIZE {
      var pathOff: nat, pathLen: nat, nameOff: nat, nameLen: nat :=
        Get32(item, 8), Get32(item, 12), Get32(item, 16), Get32(item, 20);
      StringInside(item, pathOff, pathLen);
      StringInside(item, nameOff, nameLen);
      var fixedEnd := FixedEndOf(item);
      if ITEM_HDR_SIZE <= fixedEnd <= |item| {
        LabelsExactlyWhen(item, Get16(item, 24), fixedEnd);
      }
      PastHeader(item, pathOff, pathLen);
    }
  }

  lemma PastHeader(item: seq<byte>, offset: nat, length: nat)
    ensures StringIn(item, offset, length) ==> ITEM_HDR_SIZE <= offset
  {
  }

  lemma AcceptedTable(item: seq<byte>)
    requires DecodeItem(item).Ok?
    ensures |item| >= ITEM_HDR_SIZE && ITEM_HDR_SIZE <= FixedEndOf(item) <= |item|
    ensures var v := DecodeItem(item).value;
            v.item == item && ValidateLabels(item, v.labelCount, FixedEndOf(item)) == Ok(v.table)
  {
    hide Get16, Get32, StringEnd, StringIn, ValidateLabels, SemanticsOk;
    StringInside(item, Get32(item, 8), Get32(item, 12));
    StringInside(item, Get32(item, 16), Get32(item, 20));
    PastHeader(item, Get32(item, 8), Get32(item, 12));
  }

  /** Every label of an accepted item can be read, and has a key. */
  lemma AcceptedLabels(item: seq<byte>, i: nat)
    requires |item| < U32_LIMIT && DecodeItem(item).Ok? && i < DecodeItem(item).value.labelCount
    ensures var r := LabelAt(DecodeItem(item).value, i);
            r.Ok? && r.value.key != [] && NoNul(r.value.key) && NoNul(r.value.value)
  {
    hide DecodeItem, LabelTable, LabelStrings, ScanLabels, StringEnd, NoNul, HoldsLabels, Get16, Get32, FixedEndOf;
    AcceptedTable(item);
    var v, fixedEnd := DecodeItem(item).value, FixedEndOf(item);
    LabelsExactlyWhen(item, v.labelCount, fixedEnd);
    var ls :| |ls| == v.labelCount && LabelsOk(ls) && HoldsLabels(item, v.table, ls);
    TableFits(item, v.table, ls);
    LabelReads(item, v.table, ls, i);
  }

  // -------------------------------------------------------------------------
  //  Placeholders
  // -------------------------------------------------------------------------

  /** An item that only echoes the path. */
  function Placeholder(status: u16, path: seq<byte>): Item
  {
    Item(status, 0, path, [], [])
  }

  lemma PlaceholderSize(status: u16, path: seq<byte>)
    ensures |ItemBytes(Placeholder(status, path))| == ITEM_HDR_SIZE + |path| + 2
  {
    hide Header;
  }
}
