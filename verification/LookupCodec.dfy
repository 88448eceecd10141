/** The cgroups lookup request and response payloads. */
module LookupCodec {
  import opened Wire
  import opened PackedLayout
  import opened LookupItem

  const LOOKUP_HDR_SIZE: nat := 16

  // -------------------------------------------------------------------------
  //  Directory validation
  // -------------------------------------------------------------------------

  /** Checks the first `n` entries of the directory at `h`: aligned, long enough, inside
      the packed area and not overlapping; returns where the last one ends. */
  function DirScan(b: seq<byte>, h: nat, n: nat, packedLen: nat, minLen: nat): (r: Result<nat>)
    requires h + 8 * n <= |b|
  {
    if n == 0 then Ok(0)
    else
      match DirScan(b, h, n - 1, packedLen, minLen)
      case Err(e) => Err(e)
      case Ok(prevEnd) =>
        var off: nat, len: nat := Get32(b, h + 8 * (n - 1)), Get32(b, h + 8 * (n - 1) + 4);
        if off % 8 != 0 then Err(BadAlignment)
        else if len < minLen then Err(BadLayout)
        else if off + len > packedLen then Err(OutOfBounds)
        else if n > 1 && off < prevEnd then Err(BadLayout)
        else Ok(off + len)
  }

  /** What acceptance of a directory means for each entry. */
  lemma {:induction false} DirScanMeaning(b: seq<byte>, h: nat, n: nat, packedLen: nat, minLen: nat, i: nat)
    requires h + 8 * n <= |b| && i < n
    requires DirScan(b, h, n, packedLen, minLen).Ok?
    ensures var off: nat, len: nat := Get32(b, h + 8 * i), Get32(b, h + 8 * i + 4);
            off % 8 == 0 && minLen <= len && off + len <= packedLen
  {
    hide Get32;
    if i < n - 1 {
      DirScanMeaning(b, h, n - 1, packedLen, minLen, i);
    }
  }

  /** Entry `i` passes: aligned, long enough, inside the packed area and not before the end of
      the entry in front of it. */
  predicate EntryOk(b: seq<byte>, h: nat, i: nat, packedLen: nat, minLen: nat)
    requires h + 8 * i + 8 <= |b|
  {
    var off: nat, len: nat := Get32(b, h + 8 * i), Get32(b, h + 8 * i + 4);
    && off % 8 == 0 && minLen <= len && off + len <= packedLen
    && (i > 0 ==> Get32(b, h + 8 * i - 8) + Get32(b, h + 8 * i - 4) <= off)
  }

  /** The scan succeeds exactly when every entry passes, and then ends where the last one ends. */
  lemma {:induction false} DirScanExactlyWhen(b: seq<byte>, h: nat, n: nat, packedLen: nat, minLen: nat)
    requires h + 8 * n <= |b|
    ensures DirScan(b, h, n, packedLen, minLen).Ok? <==> forall i :: 0 <= i < n ==> EntryOk(b, h, i, packedLen, minLen)
    ensures n > 0 && DirScan(b, h, n, packedLen, minLen).Ok? ==>
              DirScan(b, h, n, packedLen, minLen).value == Get32(b, h + 8 * n - 8) + Get32(b, h + 8 * n - 4)
  {
    hide Get32;
    if n > 0 {
      DirScanExactlyWhen(b, h, n - 1, packedLen, minLen);
      assert h + 8 * (n - 1) + 4 == h + 8 * n - 4;
      if DirScan(b, h, n - 1, packedLen, minLen).Ok? {
        assert DirScan(b, h, n, packedLen, minLen).Ok? <==> EntryOk(b, h, n - 1, packedLen, minLen);
      }
    }
  }

  /** A serialized directory passes, for every prefix of its entries. */
  lemma {:induction false} DirScanAccepts(b: seq<byte>, h: nat, blobs: seq<seq<byte>>, packedLen: nat, minLen: nat,
                                          n: nat)
    requires Fits(blobs) && n <= |blobs| && |Pack(blobs)| <= packedLen
    requires Holds(b, h, h + 8 * |blobs|, Dir(0, blobs), Pack(blobs))
    requires forall i :: 0 <= i < |blobs| ==> |blobs[i]| >= minLen
    ensures DirScan(b, h, n, packedLen, minLen) == Ok(|Pack(blobs[..n])|)
  {
    hide Dir, Pack, Offset, Get32, Holds, Fits;
    if n == 0 {
      assert blobs[..0] == [];
      PackEmpty();
    } else {
      DirScanAccepts(b, h, blobs, packedLen, minLen, n - 1);
      FitsAt(blobs, n - 1);
      ReadBlob(b, h, blobs, n - 1);
      PrefixOffset(blobs, n - 1);
      assert blobs[..n] == blobs[..n - 1] + [blobs[n - 1]];
      PackSnoc(blobs[..n - 1], blobs[n - 1]);
    }
  }

  // -------------------------------------------------------------------------
  //  Request
  // -------------------------------------------------------------------------

  predicate PathOk(path: seq<byte>)
  {
    path != [] && NoNul(path)
  }

  /** A key on the wire: the path and its NUL. */
  function Keys(paths: seq<seq<byte>>): (ks: seq<seq<byte>>)
    ensures |ks| == |paths| && forall i :: 0 <= i < |paths| ==> ks[i] == paths[i] + [0]
  {
    seq(|paths|, i requires 0 <= i < |paths| => paths[i] + [0])
  }

  function RequestHeader(n: nat): (b: seq<byte>)
    ensures |b| == LOOKUP_HDR_SIZE
  {
    U16(1) + U16(0) + U32(n) + U32(0) + U32(0)
  }

  function RequestBytes(paths: seq<seq<byte>>): (b: seq<byte>)
  {
    RequestHeader(|paths|) + Dir(0, Keys(paths)) + Pack(Keys(paths))
  }

  /** The bytes of entry `i` behind an accepted directory of `n` entries. */
  function RawAt(b: seq<byte>, n: nat, minLen: nat, i: nat): (item: seq<byte>)
    requires LOOKUP_HDR_SIZE + 8 * n <= |b| && i < n
    requires DirScan(b, LOOKUP_HDR_SIZE, n, |b| - LOOKUP_HDR_SIZE - 8 * n, minLen).Ok?
    ensures |item| >= minLen
  {
    hide Get32, DirScan;
    DirScanMeaning(b, LOOKUP_HDR_SIZE, n, |b| - LOOKUP_HDR_SIZE - 8 * n, minLen, i);
    var start := LOOKUP_HDR_SIZE + 8 * n + Get32(b, LOOKUP_HDR_SIZE + 8 * i);
    b[start..start + Get32(b, LOOKUP_HDR_SIZE + 8 * i + 4)]
  }

  /** A serialized blob reads back. */
  lemma RawReads(b: seq<byte>, blobs: seq<seq<byte>>, minLen: nat, i: nat)
    requires Fits(blobs) && i < |blobs|
    requires Holds(b, LOOKUP_HDR_SIZE, LOOKUP_HDR_SIZE + 8 * |blobs|, Dir(0, blobs), Pack(blobs))
    requires LOOKUP_HDR_SIZE + 8 * |blobs| <= |b|
    requires DirScan(b, LOOKUP_HDR_SIZE, |blobs|, |b| - LOOKUP_HDR_SIZE - 8 * |blobs|, minLen).Ok?
    ensures RawAt(b, |blobs|, minLen, i) == blobs[i]
  {
    hide Dir, Pack, Offset, Holds, Fits, Get32, DirScan;
    FitsAt(blobs, i);
    ReadBlob(b, LOOKUP_HDR_SIZE, blobs, i);
  }

  /** The path in a stored key. */
  function KeyPath(key: seq<byte>): (r: Result<seq<byte>>)
    requires key != []
  {
    var len := |key| - 1;
    if key[len] != 0 then Err(MissingNul)
    else if !NoNul(key[..len]) then Err(BadLayout)
    else Ok(key[..len])
  }

  lemma KeyReads(path: seq<byte>)
    requires PathOk(path)
    ensures KeyPath(path + [0]) == Ok(path)
  {
    hide NoNul;
    assert (path + [0])[..|path|] == path;
  }

  /** The first `k` paths of a request. */
  function PathsOf(b: seq<byte>, n: nat, k: nat): (r: Result<seq<seq<byte>>>)
    requires LOOKUP_HDR_SIZE + 8 * n <= |b| && k <= n
    requires DirScan(b, LOOKUP_HDR_SIZE, n, |b| - LOOKUP_HDR_SIZE - 8 * n, 2).Ok?
  {
    if k == 0 then Ok([])
    else
      match PathsOf(b, n, k - 1)
      case Err(e) => Err(e)
      case Ok(front) =>
        match KeyPath(RawAt(b, n, 2, k - 1))
        case Err(e) => Err(e)
        case Ok(path) => Ok(front + [path])
  }

  function DecodeRequest(b: seq<byte>): (r: Result<seq<seq<byte>>>)
  {
    if |b| < LOOKUP_HDR_SIZE then Err(Truncated)
    else if Get16(b, 0) != 1 || Get16(b, 2) != 0 || Get32(b, 8) != 0 || Get32(b, 12) != 0 then Err(BadLayout)
    else
      var n: nat := Get32(b, 4);
      var dirEnd := LOOKUP_HDR_SIZE + 8 * n;
      if dirEnd > |b| then Err(Truncated)
      else
        match DirScan(b, LOOKUP_HDR_SIZE, n, |b| - dirEnd, 2)
        case Err(e) => Err(e)
        case Ok(_) => PathsOf(b, n, n)
  }

  lemma RequestHeaderReads(n: nat, rest: seq<byte>)
    requires n < U32_LIMIT
    ensures var b := RequestHeader(n) + rest;
            && Get16(b, 0) == 1 && Get16(b, 2) == 0 && Get32(b, 4) == n && Get32(b, 8) == 0 && Get32(b, 12) == 0
  {
    hide U16, U32;
    var b := RequestHeader(n) + rest;
    assert b[0..2] == U16(1) && b[2..4] == U16(0) && b[4..8] == U32(n) && b[8..12] == U32(0) && b[12..16] == U32(0);
  }

  /** A 16-byte header in front of directory and packed area holds both. */
  lemma LayoutHolds(hdr: seq<byte>, blobs: seq<seq<byte>>)
    requires |hdr| == LOOKUP_HDR_SIZE
    ensures var b := hdr + Dir(0, blobs) + Pack(blobs);
            && Holds(b, LOOKUP_HDR_SIZE, LOOKUP_HDR_SIZE + 8 * |blobs|, Dir(0, blobs), Pack(blobs))
            && b == hdr + b[LOOKUP_HDR_SIZE..]
            && |b| == LOOKUP_HDR_SIZE + 8 * |blobs| + |Pack(blobs)|
  {
    hide Dir, Pack;
  }

  lemma {:induction false} PathsRead(b: seq<byte>, paths: seq<seq<byte>>, k: nat)
    requires Fits(Keys(paths)) && k <= |paths| && forall i :: 0 <= i < |paths| ==> PathOk(paths[i])
    requires Holds(b, LOOKUP_HDR_SIZE, LOOKUP_HDR_SIZE + 8 * |paths|, Dir(0, Keys(paths)), Pack(Keys(paths)))
    requires LOOKUP_HDR_SIZE + 8 * |paths| <= |b|
    requires DirScan(b, LOOKUP_HDR_SIZE, |paths|, |b| - LOOKUP_HDR_SIZE - 8 * |paths|, 2).Ok?
    ensures PathsOf(b, |paths|, k) == Ok(paths[..k])
  {
    hide Dir, Pack, Holds, Fits, DirScan, RawAt, KeyPath, PathOk;
    if k > 0 {
      PathsRead(b, paths, k - 1);
      RawReads(b, Keys(paths), 2, k - 1);
      KeyReads(paths[k - 1]);
      assert paths[..k] == paths[..k - 1] + [paths[k - 1]];
    }
  }

  /** The server reads back exactly the paths the client encoded. */
  lemma RequestRoundTrip(paths: seq<seq<byte>>)
    requires Fits(Keys(paths)) && forall i :: 0 <= i < |paths| ==> PathOk(paths[i])
    ensures DecodeRequest(RequestBytes(paths)) == Ok(paths)
  {
    hide Dir, Pack, Holds, RequestHeader, DirScan, PathsOf, Get16, Get32, NoNul;
    var b, n := RequestBytes(paths), |paths|;
    LayoutHolds(RequestHeader(n), Keys(paths));
    RequestHeaderReads(n, b[LOOKUP_HDR_SIZE..]);
    DirScanAccepts(b, LOOKUP_HDR_SIZE, Keys(paths), |b| - LOOKUP_HDR_SIZE - 8 * n, 2, n);
    PathsRead(b, paths, n);
    assert paths[..n] == paths;
  }

  // -------------------------------------------------------------------------
  //  Response
  // -------------------------------------------------------------------------

  datatype LookupView = LookupView(itemCount: u32, generation: u64, payload: seq<byte>)

  function ResponseHeader(n: nat, generation: u64): (b: seq<byte>)
    ensures |b| == LOOKUP_HDR_SIZE
  {
    U16(1) + U16(0) + U32(n) + U64(generation)
  }

  /** A response made of raw items. */
  function ResponseBytes(generation: u64, raws: seq<seq<byte>>): (b: seq<byte>)
  {
    ResponseHeader(|raws|, generation) + Dir(0, raws) + Pack(raws)
  }

  /** The error of the first of `k` items that does not decode, if there is one. */
  function BadItem(b: seq<byte>, n: nat, k: nat): (r: Option<NipcError>)
    requires LOOKUP_HDR_SIZE + 8 * n <= |b| && k <= n
    requires DirScan(b, LOOKUP_HDR_SIZE, n, |b| - LOOKUP_HDR_SIZE - 8 * n, ITEM_HDR_SIZE).Ok?
  {
    if k == 0 then None
    else
      match BadItem(b, n, k - 1)
      case Some(e) => Some(e)
      case None =>
        match DecodeItem(RawAt(b, n, ITEM_HDR_SIZE, k - 1))
        case Err(e) => Some(e)
        case Ok(_) => None
  }

  function DecodeResponse(b: seq<byte>): (r: Result<LookupView>)
  {
    if |b| < LOOKUP_HDR_SIZE then Err(Truncated)
    else if Get16(b, 0) != 1 || Get16(b, 2) != 0 then Err(BadLayout)
    else
      var n: nat := Get32(b, 4);
      var dirEnd := LOOKUP_HDR_SIZE + 8 * n;
      if dirEnd > |b| then Err(Truncated)
      else
        match DirScan(b, LOOKUP_HDR_SIZE, n, |b| - dirEnd, ITEM_HDR_SIZE)
        case Err(e) => Err(e)
        case Ok(_) =>
          match BadItem(b, n, n)
          case Some(e) => Err(e)
          case None => Ok(LookupView(n, Get64(b, 8), b))
  }

  predicate AcceptedResponse(v: LookupView)
  {
    DecodeResponse(v.payload) == Ok(v)
  }

  function RawItem(v: LookupView, i: nat): (item: seq<byte>)
    requires AcceptedResponse(v) && i < v.itemCount
    ensures |item| >= ITEM_HDR_SIZE
  {
    hide DirScan, BadItem, RawAt, Get16, Get32, Get64;
    RawAt(v.payload, v.itemCount, ITEM_HDR_SIZE, i)
  }

  lemma {:induction false} NoBadItem(b: seq<byte>, n: nat, k: nat, i: nat)
    requires LOOKUP_HDR_SIZE + 8 * n <= |b| && i < k <= n
    requires DirScan(b, LOOKUP_HDR_SIZE, n, |b| - LOOKUP_HDR_SIZE - 8 * n, ITEM_HDR_SIZE).Ok?
    requires BadItem(b, n, k).None?
    ensures DecodeItem(RawAt(b, n, ITEM_HDR_SIZE, i)).Ok?
  {
    hide DirScan, DecodeItem, RawAt;
    if i < k - 1 {
      NoBadItem(b, n, k - 1, i);
    }
  }

  lemma AcceptedCount(v: LookupView)
    requires AcceptedResponse(v)
    ensures |v.payload| >= LOOKUP_HDR_SIZE && v.itemCount == Get32(v.payload, 4)
    ensures LOOKUP_HDR_SIZE + 8 * v.itemCount <= |v.payload|
  {
    hide DirScan, BadItem, Get16, Get32, Get64;
  }

  lemma AcceptedDirectory(v: LookupView)
    requires AcceptedResponse(v)
    ensures LOOKUP_HDR_SIZE + 8 * v.itemCount <= |v.payload|
    ensures DirScan(v.payload, LOOKUP_HDR_SIZE, v.itemCount, |v.payload| - LOOKUP_HDR_SIZE - 8 * v.itemCount,
                    ITEM_HDR_SIZE).Ok?
  {
    hide DirScan, BadItem, Get16, Get32, Get64;
    AcceptedCount(v);
  }

  lemma NothingBad(b: seq<byte>, n: nat)
    requires |b| >= LOOKUP_HDR_SIZE && n == Get32(b, 4) && LOOKUP_HDR_SIZE + 8 * n <= |b|
    requires DirScan(b, LOOKUP_HDR_SIZE, n, |b| - LOOKUP_HDR_SIZE - 8 * n, ITEM_HDR_SIZE).Ok?
    requires DecodeResponse(b).Ok?
    ensures BadItem(b, n, n).None?
  {
    hide DirScan, BadItem, Get16, Get32, Get64;
  }

  lemma AcceptedDecodes(v: LookupView, i: nat)
    requires AcceptedResponse(v) && i < v.itemCount
    ensures DecodeItem(RawItem(v, i)).Ok?
  {
    hide DirScan, BadItem, RawAt, DecodeItem, DecodeResponse, Get32;
    AcceptedCount(v);
    AcceptedDirectory(v);
    NothingBad(v.payload, v.itemCount);
    NoBadItem(v.payload, v.itemCount, v.itemCount, i);
  }

  /** Every item of an accepted response decodes. */
  function ViewItem(v: LookupView, i: nat): (x: ItemView)
    requires AcceptedResponse(v) && i < v.itemCount
    ensures DecodeItem(RawItem(v, i)) == Ok(x)
  {
    hide RawItem, DecodeItem, AcceptedResponse;
    AcceptedDecodes(v, i);
    DecodeItem(RawItem(v, i)).value
  }

  lemma ResponseHeaderReads(n: nat, generation: u64, rest: seq<byte>)
    requires n < U32_LIMIT
    ensures var b := ResponseHeader(n, generation) + rest;
            Get16(b, 0) == 1 && Get16(b, 2) == 0 && Get32(b, 4) == n && Get64(b, 8) == generation
  {
    hide U16, U32, U64;
    var b := ResponseHeader(n, generation) + rest;
    assert b[0..2] == U16(1) && b[2..4] == U16(0) && b[4..8] == U32(n) && b[8..16] == U64(generation);
  }

  lemma {:induction false} AllGood(b: seq<byte>, n: nat, k: nat)
    requires LOOKUP_HDR_SIZE + 8 * n <= |b| && k <= n
    requires DirScan(b, LOOKUP_HDR_SIZE, n, |b| - LOOKUP_HDR_SIZE - 8 * n, ITEM_HDR_SIZE).Ok?
    requires forall i :: 0 <= i < k ==> DecodeItem(RawAt(b, n, ITEM_HDR_SIZE, i)).Ok?
    ensures BadItem(b, n, k).None?
  {
    hide DirScan, RawAt, DecodeItem;
    if k > 0 {
      AllGood(b, n, k - 1);
    }
  }

  /** A response of decodable raw items is accepted and gives each of them back. */
  lemma ResponseRoundTrip(generation: u64, raws: seq<seq<byte>>)
    requires Fits(raws) && forall i :: 0 <= i < |raws| ==> |raws[i]| >= ITEM_HDR_SIZE && DecodeItem(raws[i]).Ok?
    ensures var v := LookupView(|raws|, generation, ResponseBytes(generation, raws));
            && AcceptedResponse(v)
            && forall i :: 0 <= i < |raws| ==> RawItem(v, i) == raws[i]
  {
    hide Dir, Pack, Holds, ResponseHeader, DirScan, BadItem, RawAt, Get16, Get32, Get64, DecodeItem;
    var b, n := ResponseBytes(generation, raws), |raws|;
    LayoutHolds(ResponseHeader(n, generation), raws);
    ResponseHeaderReads(n, generation, b[LOOKUP_HDR_SIZE..]);
    DirScanAccepts(b, LOOKUP_HDR_SIZE, raws, |b| - LOOKUP_HDR_SIZE - 8 * n, ITEM_HDR_SIZE, n);
    forall i | 0 <= i < n
      ensures RawAt(b, n, ITEM_HDR_SIZE, i) == raws[i]
    {
      RawReads(b, raws, ITEM_HDR_SIZE, i);
    }
    AllGood(b, n, n);
  }
}
