/** The client-side snapshot cache: refresh from a decoded payload, lookup by probing. */
module SnapshotCache {
  import opened Wire
  import opened Snapshot
  import opened SnapshotBuilding
  import opened HashIndex
  import Bits
  import PowerOfTwo

  /** Turns the bytes of a string into text: valid UTF-8 as it is, anything else lossily. */
  type Text = seq<byte> -> seq<byte>

  function Owned(v: ItemView, text: Text): CacheItem
    requires v.name.len <= |v.name.bytes| && v.path.len <= |v.path.bytes|
  {
    CacheItem(v.hash, v.options, v.enabled, text(v.name.bytes[..v.name.len]), text(v.path.bytes[..v.path.len]))
  }

  lemma ItemStringsInBounds(v: SnapshotView, i: u32)
    requires Accepted(v) && ViewItem(v, i).Ok?
    ensures var x := ViewItem(v, i).value;
            x.name.len + 1 == |x.name.bytes| && x.path.len + 1 == |x.path.bytes|
  {
    hide DecodeSnapshot, Get16, Get32;
  }

  /** Item `i` of a view as an owned copy, if it decodes. */
  function OwnedAt(v: SnapshotView, text: Text, i: u32): (r: Option<CacheItem>)
    requires Accepted(v)
  {
    hide DecodeSnapshot, ViewItem;
    match ViewItem(v, i)
    case Err(_) => None
    case Ok(x) =>
      ItemStringsInBounds(v, i);
      Some(Owned(x, text))
  }

  /** The first `n` items of a view as owned copies, if all of them decode. */
  function OwnedItems(v: SnapshotView, text: Text, n: nat): (r: Option<seq<CacheItem>>)
    requires Accepted(v) && n <= v.itemCount
    ensures r.Some? ==> |r.value| == n
  {
    hide DecodeSnapshot, OwnedAt;
    if n == 0 then Some([])
    else
      match OwnedItems(v, text, n - 1)
      case None => None
      case Some(front) =>
        match OwnedAt(v, text, n - 1)
        case None => None
        case Some(x) => Some(front + [x])
  }

  lemma {:induction false} MissingItemStays(v: SnapshotView, text: Text, k: nat, n: nat)
    requires Accepted(v) && k <= n <= v.itemCount && OwnedItems(v, text, k).None?
    ensures OwnedItems(v, text, n).None?
    decreases n - k
  {
    hide ViewItem, DecodeSnapshot;
    if k < n {
      MissingItemStays(v, text, k, n - 1);
    }
  }

  /** What a reply to the snapshot call holds, if the cache can take it over. */
  function Loaded(reply: Result<seq<byte>>, text: Text): (r: Option<(SnapshotView, seq<CacheItem>)>)
  {
    if reply.Err? then None
    else
      match DecodeSnapshot(reply.value)
      case Err(_) => None
      case Ok(v) =>
        match OwnedItems(v, text, v.itemCount)
        case None => None
        case Some(items) => Some((v, items))
  }

  /** Copies every item out of the view, or gives up at the first that does not decode. */
  method CopyItems(v: SnapshotView, text: Text) returns (r: Option<seq<CacheItem>>)
    requires Accepted(v)
    ensures r == OwnedItems(v, text, v.itemCount)
  {
    hide DecodeSnapshot, ViewItem;
    var newItems: seq<CacheItem> := [];
    for i := 0 to v.itemCount
      invariant OwnedItems(v, text, i) == Some(newItems)
    {
      var x := ViewItem(v, i);
      if x.Err? {
        MissingItemStays(v, text, i + 1, v.itemCount);
        return None;
      }
      ItemStringsInBounds(v, i);
      newItems := newItems + [Owned(x.value, text)];
    }
    return Some(newItems);
  }

  /** Builds the bucket table for the items; no table for no items. */
  method IndexItems(items: seq<CacheItem>) returns (table: seq<Bucket>)
    requires |items| < 0x8000_0000
    ensures if items == [] then table == []
            else Bits.IsPow2(|table|) && |items| < |table| && Indexes(table, items, |items|)
  {
    hide Indexes, PowerOfTwo.NextPowerOf2;
    table := [];
    if items != [] {
      var count := PowerOfTwo.NextPowerOf2(|items| * 2);
      PowerOfTwo.NextPowerOf2Meaning(|items| * 2);
      table := BuildIndex(items, count);
    }
  }

  class CgroupsCache {
    var items: seq<CacheItem>
    var buckets: seq<Bucket>
    var systemdEnabled: u32
    var generation: u64
    var populated: bool
    var refreshSuccessCount: nat
    var refreshFailureCount: nat

    /** The bucket table indexes exactly the cached items and has a free bucket. */
    ghost predicate Valid()
      reads this
    {
      && (buckets == [] <==> items == [])
      && (buckets != [] ==> Bits.IsPow2(|buckets|) && |items| < |buckets| && Indexes(buckets, items, |items|))
    }

    constructor ()
      ensures Valid() && !populated && items == []
    {
      items, buckets := [], [];
      systemdEnabled, generation := 0, 0;
      populated := false;
      refreshSuccessCount, refreshFailureCount := 0, 0;
    }

    /** Replaces the cache by a reply that decodes completely; otherwise counts a
        failure and keeps the previous cache. */
    method Refresh(reply: Result<seq<byte>>, text: Text) returns (updated: bool)
      requires Valid()
      requires reply.Ok? ==> |reply.value| < U32_LIMIT
      modifies this
      ensures Valid()
      ensures updated <==> Loaded(reply, text).Some?
      ensures updated ==>
                var (v, loaded) := Loaded(reply, text).value;
                && items == loaded && populated
                && systemdEnabled == v.systemdEnabled && generation == v.generation
                && refreshSuccessCount == old(refreshSuccessCount) + 1
                && refreshFailureCount == old(refreshFailureCount)
      ensures !updated ==>
                && items == old(items) && buckets == old(buckets) && populated == old(populated)
                && systemdEnabled == old(systemdEnabled) && generation == old(generation)
                && refreshSuccessCount == old(refreshSuccessCount)
                && refreshFailureCount == old(refreshFailureCount) + 1
    {
      hide DecodeSnapshot, ViewItem, Indexes, OwnedItems;
      if reply.Err? {
        refreshFailureCount := refreshFailureCount + 1;
        return false;
      }
      var decoded := Decode(reply.value);
      if decoded.Err? {
        refreshFailureCount := refreshFailureCount + 1;
        return false;
      }
      var v := decoded.value;
      SamePayload(reply.value);
      var copied := CopyItems(v, text);
      if copied.None? {
        refreshFailureCount := refreshFailureCount + 1;
        return false;
      }
      ItemCountBound(v);
      var newBuckets := IndexItems(copied.value);
      items, buckets := copied.value, newBuckets;
      systemdEnabled, generation := v.systemdEnabled, v.generation;
      populated := true;
      refreshSuccessCount := refreshSuccessCount + 1;
      return true;
    }

    /** Finds the first cached item with this hash and name. */
    method Lookup(hash: u32, name: seq<byte>) returns (r: Option<CacheItem>)
      requires Valid()
      ensures r == if !populated then None
                   else match FirstMatch(items, hash, name)
                        case None => None
                        case Some(i) => Some(items[i])
    {
      hide Indexes;
      if !populated {
        return None;
      }
      if buckets != [] {
        var found := Find(buckets, items, hash, name);
        match found {
          case None => return None;
          case Some(i) => return Some(items[i]);
        }
      }
      return None;
    }
  }

  lemma SamePayload(buf: seq<byte>)
    requires DecodeSnapshot(buf).Ok?
    ensures Accepted(DecodeSnapshot(buf).value) && DecodeSnapshot(buf).value.payload == buf
  {
  }

  /** A payload the envelope can describe has too few directory entries to fill the table. */
  lemma ItemCountBound(v: SnapshotView)
    requires Accepted(v) && |v.payload| < U32_LIMIT
    ensures v.itemCount < 0x2000_0000
  {
  }

  // -------------------------------------------------------------------------
  //  From builder to lookup
  // -------------------------------------------------------------------------

  /** A server-side item as a cache holds it. */
  function Cached(x: SnapshotItem, text: Text): CacheItem
  {
    CacheItem(x.hash, x.options, x.enabled, text(x.name), text(x.path))
  }

  function CachedAll(items: seq<SnapshotItem>, text: Text): (r: seq<CacheItem>)
    ensures |r| == |items| && forall i :: 0 <= i < |items| ==> r[i] == Cached(items[i], text)
  {
    seq(|items|, i requires 0 <= i < |items| => Cached(items[i], text))
  }

  lemma {:induction false} OwnedAreCached(v: SnapshotView, items: seq<SnapshotItem>, text: Text, n: nat)
    requires DecodesTo(v.payload, v.systemdEnabled, v.generation, items) && Accepted(v) && n <= |items| == v.itemCount
    requires v == SnapshotView(1, 0, |items|, v.systemdEnabled, v.generation, v.payload)
    ensures OwnedItems(v, text, n) == Some(CachedAll(items[..n], text))
  {
    hide DecodeSnapshot, ViewItem;
    if n > 0 {
      OwnedAreCached(v, items, text, n - 1);
      var x := items[n - 1];
      assert ViewItem(v, n - 1) == Ok(ViewOf(x));
      assert (x.name + [0])[..|x.name|] == x.name && (x.path + [0])[..|x.path|] == x.path;
      assert CachedAll(items[..n], text) == CachedAll(items[..n - 1], text) + [Cached(x, text)];
    }
  }

  /** A reply with the finished bytes of any builder run loads exactly the items whose
      `add` succeeded. */
  lemma BuiltReplyLoads(payload: seq<byte>, s: u32, g: u64, items: seq<SnapshotItem>, text: Text)
    requires DecodesTo(payload, s, g, items)
    ensures var v := SnapshotView(1, 0, |items|, s, g, payload);
            Loaded(Ok(payload), text) == Some((v, CachedAll(items, text)))
  {
    hide DecodeSnapshot, ViewItem, OwnedItems;
    var v := SnapshotView(1, 0, |items|, s, g, payload);
    OwnedAreCached(v, items, text, |items|);
    assert items[..|items|] == items;
  }

  /** From server to client: a snapshot built by any calls, sent and cached, answers every
      lookup with the first successfully added item of that key, or nothing. */
  method ServeRefreshLookup(buf: array<byte>, maxItems: u32, ops: seq<Op>, text: Text, hash: u32, name: seq<byte>)
    returns (r: Option<CacheItem>, ghost results: seq<Result<()>>)
    requires HDR_SIZE + 8 * maxItems <= buf.Length < U32_LIMIT
    modifies buf
    ensures Reported(buf.Length, maxItems, ops, results)
    ensures var stored := CachedAll(Succeeded(ops, results), text);
            r == match FirstMatch(stored, hash, name)
                 case None => None
                 case Some(i) => Some(stored[i])
  {
    hide Succeeded, LastHeader, SnapshotBytes, DecodesTo, Loaded, FirstMatch;
    var n, rs := Build(buf, maxItems, 0, 0, ops);
    results := rs;
    var cache := new CgroupsCache();
    var (s, g) := LastHeader(ops, 0, 0);
    BuiltReplyLoads(buf[..n], s, g, Succeeded(ops, rs), text);
    var updated := cache.Refresh(Ok(buf[..n]), text);
    r := cache.Lookup(hash, name);
  }
}
