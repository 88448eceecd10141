/** Sizing, splitting and encoding lookup requests on the client. */
module LookupRequests {
  import opened Wire
  import opened PackedLayout
  import opened LookupItem
  import opened LookupCodec

  const MAX_PAYLOAD_DEFAULT: nat := 1024

  /** The payload limit a configured or negotiated value stands for. */
  function Cap(limit: u32): (r: nat)
    ensures r > 0
  {
    if limit == 0 then MAX_PAYLOAD_DEFAULT else limit
  }

  lemma KeysSnoc(paths: seq<seq<byte>>, i: nat)
    requires i < |paths|
    ensures Keys(paths[..i + 1]) == Keys(paths[..i]) + [paths[i] + [0]]
  {
  }

  lemma PackKeysSnoc(paths: seq<seq<byte>>, i: nat)
    requires i < |paths|
    ensures |Pack(Keys(paths[..i + 1]))| == Align8(|Pack(Keys(paths[..i]))|) + |paths[i]| + 1
  {
    hide Pack, Keys;
    KeysSnoc(paths, i);
    PackSnoc(Keys(paths[..i]), paths[i] + [0]);
  }

  lemma RequestLength(paths: seq<seq<byte>>)
    ensures |RequestBytes(paths)| == LOOKUP_HDR_SIZE + 8 * |paths| + |Pack(Keys(paths))|
  {
    hide Dir, Pack, RequestHeader;
  }

  lemma NoKeys(paths: seq<seq<byte>>)
    ensures Pack(Keys(paths[..0])) == []
  {
    assert Keys(paths[..0]) == [];
  }

  /** The size law: what the client computes before encoding is what encoding produces. */
  method RequestSize(paths: seq<seq<byte>>) returns (n: nat)
    ensures n == |RequestBytes(paths)|
  {
    hide Pack, Keys, RequestBytes;
    var start := LOOKUP_HDR_SIZE + 8 * |paths|;
    var i := 0;
    n := start;
    NoKeys(paths);
    while i < |paths|
      invariant i <= |paths| && n == start + |Pack(Keys(paths[..i]))|
    {
      PackKeysSnoc(paths, i);
      AlignSum(start, |Pack(Keys(paths[..i]))|);
      n := Align8(n) + |paths[i]| + 1;
      i := i + 1;
    }
    assert paths[..i] == paths;
    RequestLength(paths);
  }

  /** A longer prefix makes a longer request. */
  lemma {:induction false} RequestGrows(paths: seq<seq<byte>>, i: nat, j: nat)
    requires i <= j <= |paths|
    ensures |RequestBytes(paths[..i])| + 9 * (j - i) <= |RequestBytes(paths[..j])|
    decreases j - i
  {
    hide Pack, Keys, RequestBytes;
    if i < j {
      RequestGrows(paths, i, j - 1);
      PackKeysSnoc(paths, j - 1);
      RequestLength(paths[..j - 1]);
      RequestLength(paths[..j]);
    }
  }

  lemma OnePathRequest(path: seq<byte>)
    ensures |RequestBytes([path])| == LOOKUP_HDR_SIZE + 8 + |path| + 1
  {
    hide RequestBytes, Keys, Pack;
    var paths := [path];
    RequestLength(paths);
    NoKeys(paths);
    PackKeysSnoc(paths, 0);
    assert paths[..1] == paths;
  }

  /** A request takes at least what a request for any one of its paths takes. */
  lemma PartTakesEach(part: seq<seq<byte>>, i: nat)
    requires i < |part|
    ensures |RequestBytes([part[i]])| <= |RequestBytes(part)|
  {
    hide Pack, Keys, RequestBytes;
    OnePathRequest(part[i]);
    PackKeysSnoc(part, i);
    RequestLength(part[..i + 1]);
    RequestGrows(part, i + 1, |part|);
    assert part[..|part|] == part;
  }

  /** How many of the leading paths to ask for: the most that fit, found by bisection. */
  method NextRequestCount(paths: seq<seq<byte>>, limit: u32) returns (r: Result<(nat, nat)>)
    ensures paths == [] ==> r == Ok((0, LOOKUP_HDR_SIZE))
    ensures paths != [] ==> (r.Ok? <==> |RequestBytes(paths[..1])| <= Cap(limit))
    ensures r.Err? ==> r.error == Overflow
    ensures r.Ok? && paths != [] ==>
              && 1 <= r.value.0 <= |paths|
              && r.value.1 == |RequestBytes(paths[..r.value.0])| <= Cap(limit)
              && forall c :: r.value.0 < c <= |paths| ==> |RequestBytes(paths[..c])| > Cap(limit)
  {
    hide Pack, Keys, RequestBytes;
    if paths == [] {
      var n := RequestSize(paths);
      RequestLength(paths);
      NoKeys(paths);
      assert paths[..0] == paths;
      return Ok((0, n));
    }
    var cap := Cap(limit);
    var lo, hi, bestCount, bestSize := 1, |paths|, 0, 0;
    while lo <= hi
      invariant bestCount + 1 == lo <= hi + 1 <= |paths| + 1
      invariant bestCount > 0 ==> bestSize == |RequestBytes(paths[..bestCount])| <= cap
      invariant forall c :: hi < c <= |paths| ==> |RequestBytes(paths[..c])| > cap
      decreases hi + 1 - lo
    {
      var mid := lo + (hi - lo) / 2;
      var size := RequestSize(paths[..mid]);
      if size <= cap {
        bestCount, bestSize, lo := mid, size, mid + 1;
      } else {
        forall c | mid <= c <= |paths|
          ensures |RequestBytes(paths[..c])| > cap
        {
          RequestGrows(paths, mid, c);
        }
        hi := mid - 1;
      }
    }
    if bestCount == 0 {
      return Err(Overflow);
    }
    RequestGrows(paths, 1, bestCount);
    return Ok((bestCount, bestSize));
  }

  ghost predicate AllPathsOk(paths: seq<seq<byte>>)
  {
    forall i :: 0 <= i < |paths| ==> PathOk(paths[i])
  }

  lemma KeysFit(paths: seq<seq<byte>>)
    requires |RequestBytes(paths)| < U32_LIMIT
    ensures Fits(Keys(paths))
  {
    hide Dir, Pack, Offset, Keys;
    RequestLength(paths);
    forall i | 0 <= i < |paths|
      ensures Offset(Keys(paths), i) < U32_LIMIT && |Keys(paths)[i]| < U32_LIMIT
    {
      BlobAt(Keys(paths), i);
    }
  }

  method WriteRequestHeader(a: array<byte>, count: nat)
    requires LOOKUP_HDR_SIZE <= a.Length
    modifies a
    ensures a[..] == Splice(old(a[..]), 0, RequestHeader(count))
  {
    hide Splice, U16, U32;
    ghost var b := a[..];
    Put(a, 0, U16(1));
    ghost var d1 := U16(1);
    PutNext(a, b, 0, d1, 2, U16(0));
    ghost var d2 := d1 + U16(0);
    PutNext(a, b, 0, d2, 4, U32(count));
    ghost var d3 := d2 + U32(count);
    PutNext(a, b, 0, d3, 8, U32(0));
    ghost var d4 := d3 + U32(0);
    PutNext(a, b, 0, d4, 12, U32(0));
  }

  /** The directory entry of path `i` is representable. */
  ghost predicate KeyFits(paths: seq<seq<byte>>, i: nat)
    requires i < |paths|
  {
    Offset(Keys(paths), i) < U32_LIMIT && |Keys(paths)[i]| < U32_LIMIT
  }

  lemma KeyFitsWhen(paths: seq<seq<byte>>, i: nat)
    requires i < |paths|
    ensures KeyFits(paths, i) <==> Align8(|Pack(Keys(paths[..i]))|) < U32_LIMIT && |paths[i]| + 1 < U32_LIMIT
    ensures Fits(Keys(paths)) ==> KeyFits(paths, i)
  {
    hide Pack;
    assert Keys(paths)[..i] == Keys(paths[..i]);
  }

  lemma AllKeysFit(paths: seq<seq<byte>>)
    requires forall i :: 0 <= i < |paths| ==> KeyFits(paths, i)
    ensures Fits(Keys(paths)) <==> |paths| < U32_LIMIT
  {
    hide Offset;
    var keys := Keys(paths);
    forall i | 0 <= i < |keys|
      ensures Offset(keys, i) < U32_LIMIT && |keys[i]| < U32_LIMIT
    {
      assert KeyFits(paths, i);
    }
  }

  /** Encodes a request into `buf`, or reports the first path that is invalid or has no room. */
  method EncodeRequest(paths: seq<seq<byte>>, buf: array<byte>) returns (r: Result<nat>)
    modifies buf
    ensures r.Ok? <==> AllPathsOk(paths) && |RequestBytes(paths)| <= buf.Length && Fits(Keys(paths))
    ensures r.Ok? ==> r.value == |RequestBytes(paths)| && buf[..r.value] == RequestBytes(paths)
    ensures r.Err? ==> r.error == BadLayout || r.error == Overflow
    ensures r.Err? && AllPathsOk(paths) ==> r.error == Overflow
  {
    hide Dir, Pack, Keys, Holds, Splice, RequestHeader, PathOk, Fits, Offset;
    var area := LOOKUP_HDR_SIZE + 8 * |paths|;
    RequestLength(paths);
    if buf.Length < area {
      return Err(Overflow);
    }
    var data, i := area, 0;
    NothingYet(buf[..], area, paths);
    while i < |paths|
      invariant i <= |paths| && |buf[..]| == buf.Length && AllPathsOk(paths[..i])
      invariant data == area + |Pack(Keys(paths[..i]))| <= buf.Length
      invariant forall j :: 0 <= j < i ==> KeyFits(paths, j)
      invariant Holds(buf[..], LOOKUP_HDR_SIZE, area, Dir(0, Keys(paths[..i])), Pack(Keys(paths[..i])))
    {
      var path := paths[i];
      if !PathOk(path) {
        return Err(BadLayout);
      }
      ghost var keys := Keys(paths[..i]);
      PackKeysSnoc(paths, i);
      KeysSnoc(paths, i);
      AlignSum(area, |Pack(keys)|);
      var end := Align8(data) + |path| + 1;
      if end > buf.Length {
        RequestLength(paths[..i + 1]);
        RequestGrows(paths, i + 1, |paths|);
        assert paths[..|paths|] == paths;
        return Err(Overflow);
      }
      KeyFitsWhen(paths, i);
      if Align8(data) - area >= U32_LIMIT || |path| + 1 >= U32_LIMIT {
        return Err(Overflow);
      }
      Append(buf, LOOKUP_HDR_SIZE, area, 0, keys, i, data - area, path + [0]);
      data := end;
      i := i + 1;
    }
    assert paths[..i] == paths;
    AllKeysFit(paths);
    if |paths| >= U32_LIMIT {
      return Err(Overflow);
    }
    ghost var b := buf[..];
    WriteRequestHeader(buf, |paths|);
    FrontIs(b, RequestHeader(|paths|), Dir(0, Keys(paths)), Pack(Keys(paths)));
    return Ok(data);
  }

  lemma NothingYet(b: seq<byte>, area: nat, paths: seq<seq<byte>>)
    requires LOOKUP_HDR_SIZE <= area <= |b|
    ensures Holds(b, LOOKUP_HDR_SIZE, area, Dir(0, Keys(paths[..0])), Pack(Keys(paths[..0])))
    ensures Pack(Keys(paths[..0])) == []
  {
    NoKeys(paths);
    assert Keys(paths[..0]) == [];
  }
}
