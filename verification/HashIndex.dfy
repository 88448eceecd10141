/** The open-addressing (hash, name) index: linear probing over a power-of-two table. */
module HashIndex {
  import opened Wire
  import Bits

  datatype CacheItem = CacheItem(hash: u32, options: u32, enabled: u32, name: seq<byte>, path: seq<byte>)

  datatype Bucket = Bucket(index: nat, used: bool)

  const EMPTY_BUCKET := Bucket(0, false)

  // -------------------------------------------------------------------------
  //  Hashing
  // -------------------------------------------------------------------------

  /** The djb2 hash, without any word size. */
  function Djb2(name: seq<byte>): (h: nat)
  {
    if name == [] then 5381 else 33 * Djb2(name[..|name| - 1]) + name[|name| - 1]
  }

  /** Its low 32 bits. */
  function Hash(name: seq<byte>): (h: u32)
  {
    Djb2(name) % U32_LIMIT
  }

  /** One step in wrapping words: shift, add, add. */
  function WrapStep(h: u32, c: byte): (r: u32)
  {
    ((h * 32 % U32_LIMIT + h) % U32_LIMIT + c) % U32_LIMIT
  }

  lemma WrapStepIsMod(d: nat, c: byte)
    ensures WrapStep(d % U32_LIMIT, c) == (33 * d + c) % U32_LIMIT
  {
    var h := d % U32_LIMIT;
    ModAdd(h * 32, h);
    ModAdd(h * 33, c);
    ModScale(d, c);
  }

  lemma ModAdd(a: nat, b: nat)
    ensures (a % U32_LIMIT + b) % U32_LIMIT == (a + b) % U32_LIMIT
  {
  }

  lemma ModScale(d: nat, c: nat)
    ensures ((d % U32_LIMIT) * 33 + c) % U32_LIMIT == (33 * d + c) % U32_LIMIT
  {
    assert d == d / U32_LIMIT * U32_LIMIT + d % U32_LIMIT;
  }

  /** Folding with wrapping words gives the low 32 bits of the unbounded hash. */
  method HashName(name: seq<byte>) returns (h: u32)
    ensures h == Djb2(name) % U32_LIMIT
  {
    h := 5381;
    for i := 0 to |name|
      invariant h == Djb2(name[..i]) % U32_LIMIT
    {
      assert name[..i + 1][..i] == name[..i];
      WrapStepIsMod(Djb2(name[..i]), name[i]);
      h := WrapStep(h, name[i]);
    }
    assert name[..|name|] == name;
  }

  /** The first slot probed for a key in a table of `n` buckets. */
  function Home(hash: u32, name: seq<byte>, n: nat): (slot: nat)
    requires n > 0
    ensures slot < n
  {
    Bits.And(Bits.Xor(hash, Hash(name)), n - 1)
  }

  lemma WordSize()
    ensures Bits.Pow2(32) == U32_LIMIT
  {
    assert Bits.Pow2(8) == 256;
    assert Bits.Pow2(16) == 256 * 256;
    assert Bits.Pow2(24) == 256 * 256 * 256;
  }

  /** The key a bucket is chosen by is a 32-bit word, and in a table whose size is a power of two
      its home is that word modulo the size. */
  lemma HomeMeaning(hash: u32, name: seq<byte>, n: nat)
    requires Bits.IsPow2(n)
    ensures Bits.Xor(hash, Hash(name)) < U32_LIMIT
    ensures Home(hash, name, n) == Bits.Xor(hash, Hash(name)) % n
  {
    WordSize();
    Bits.XorBound(hash, Hash(name), 32);
    var k: nat :| n == Bits.Pow2(k);
    Bits.MaskIsMod(Bits.Xor(hash, Hash(name)), k);
  }

  /** The slot `e` probes after `home`. */
  function Probe(home: nat, e: nat, n: nat): (slot: nat)
    requires home < n && e < n
    ensures slot < n
  {
    if home + e < n then home + e else home + e - n
  }

  /** Stepping with the mask walks the table cyclically. */
  lemma NextSlot(home: nat, e: nat, n: nat)
    requires home < n && e + 1 < n && Bits.IsPow2(n)
    ensures Bits.And(Probe(home, e, n) + 1, n - 1) == Probe(home, e + 1, n)
  {
    var k: nat :| n == Bits.Pow2(k);
    Bits.MaskIsMod(Probe(home, e, n) + 1, k);
    ModSmall(Probe(home, e, n) + 1, n);
  }

  lemma ModSmall(x: nat, n: nat)
    requires 0 < n && x <= n
    ensures x % n == if x == n then 0 else x
  {
    if x == n {
      DivModUnique(x, n, 1, 0);
    } else {
      DivModUnique(x, n, 0, x);
    }
  }

  // -------------------------------------------------------------------------
  //  The table
  // -------------------------------------------------------------------------

  predicate Matches(x: CacheItem, hash: u32, name: seq<byte>)
  {
    x.hash == hash && x.name == name
  }

  function HomeOf(x: CacheItem, n: nat): (slot: nat)
    requires n > 0
    ensures slot < n
  {
    Home(x.hash, x.name, n)
  }

  /** Item `i` sits `d` probes after its home, behind items that came before it. */
  ghost predicate PlacedAt(table: seq<Bucket>, items: seq<CacheItem>, i: nat, d: nat)
    requires i < |items| && |table| > 0
  {
    && d < |table|
    && table[Probe(HomeOf(items[i], |table|), d, |table|)] == Bucket(i, true)
    && forall e :: 0 <= e < d ==>
         var b := table[Probe(HomeOf(items[i], |table|), e, |table|)];
         b.used && b.index < i
  }

  ghost predicate Placed(table: seq<Bucket>, items: seq<CacheItem>, i: nat)
    requires i < |items| && |table| > 0
  {
    exists d: nat :: PlacedAt(table, items, i, d)
  }

  /** The table indexes the first `m` items. */
  ghost predicate Indexes(table: seq<Bucket>, items: seq<CacheItem>, m: nat)
  {
    && m <= |items| && |table| > 0
    && (forall s :: 0 <= s < |table| && table[s].used ==> table[s].index < m)
    && (forall i :: 0 <= i < m ==> Placed(table, items, i))
    && |UsedSlots(table)| == m
  }

  ghost function UsedSlots(table: seq<Bucket>): set<nat>
  {
    set s: nat | s < |table| && table[s].used
  }

  ghost function Slots(n: nat): (r: set<nat>)
    ensures |r| == n && forall s: nat :: s in r <==> s < n
  {
    if n == 0 then {} else
      var front := Slots(n - 1);
      var r := front + {n - 1};
      r
  }

  /** A table with fewer items than buckets has a free bucket. */
  lemma FreeSlot(table: seq<Bucket>, items: seq<CacheItem>, m: nat) returns (s: nat)
    requires Indexes(table, items, m) && m < |table|
    ensures s < |table| && !table[s].used
  {
    assert UsedSlots(table) != Slots(|table|);
    s :| s < |table| && !table[s].used;
  }

  /** Every slot is on the probe path from every home. */
  lemma Reaches(home: nat, s: nat, n: nat) returns (e: nat)
    requires home < n && s < n
    ensures e < n && Probe(home, e, n) == s
  {
    e := if home <= s then s - home else s + n - home;
  }

  lemma Insert(table: seq<Bucket>, items: seq<CacheItem>, m: nat, d: nat)
    requires Indexes(table, items, m) && m < |items| && d < |table|
    requires !table[Probe(HomeOf(items[m], |table|), d, |table|)].used
    requires forall e :: 0 <= e < d ==> table[Probe(HomeOf(items[m], |table|), e, |table|)].used
    ensures Indexes(table[Probe(HomeOf(items[m], |table|), d, |table|) := Bucket(m, true)], items, m + 1)
  {
    hide HomeOf;
    var n := |table|;
    var at := Probe(HomeOf(items[m], n), d, n);
    var t := table[at := Bucket(m, true)];
    assert UsedSlots(t) == UsedSlots(table) + {at};
    forall i | 0 <= i < m + 1
      ensures Placed(t, items, i)
    {
      if i < m {
        assert Placed(table, items, i);
        var d': nat :| PlacedAt(table, items, i, d');
        assert PlacedAt(t, items, i, d');
      } else {
        assert PlacedAt(t, items, m, d);
      }
    }
  }

  /** Places every item, in order, in the first free bucket from its home. */
  method BuildIndex(items: seq<CacheItem>, n: nat) returns (table: seq<Bucket>)
    requires Bits.IsPow2(n) && |items| < n
    ensures |table| == n && Indexes(table, items, |items|)
  {
    hide Home, HomeOf, Indexes;
    table := seq(n, i => EMPTY_BUCKET);
    EmptyTable(table, items);
    for m := 0 to |items|
      invariant |table| == n && Indexes(table, items, m)
    {
      table := InsertItem(table, items, m);
    }
  }

  lemma EmptyTable(table: seq<Bucket>, items: seq<CacheItem>)
    requires |table| > 0 && forall s :: 0 <= s < |table| ==> !table[s].used
    ensures Indexes(table, items, 0)
  {
    assert UsedSlots(table) == {};
  }

  method InsertItem(table: seq<Bucket>, items: seq<CacheItem>, m: nat) returns (table': seq<Bucket>)
    requires Bits.IsPow2(|table|) && m < |items| && m < |table|
    requires Indexes(table, items, m)
    ensures |table'| == |table| && Indexes(table', items, m + 1)
  {
    hide Bits.And, Indexes;
    var n := |table|;
    var mask := n - 1;
    var h := HashName(items[m].name);
    var slot := Bits.And(Bits.Xor(items[m].hash, h), mask);
    ghost var home := HomeOf(items[m], n);
    ghost var free := FreeSlot(table, items, m);
    ghost var stop := Reaches(home, free, n);
    ghost var e := 0;
    while table[slot].used
      invariant e <= stop < n && slot == Probe(home, e, n)
      invariant forall k :: 0 <= k < e ==> table[Probe(home, k, n)].used
      decreases stop - e
    {
      NextSlot(home, e, n);
      slot := Bits.And(slot + 1, mask);
      e := e + 1;
    }
    Insert(table, items, m, e);
    table' := table[slot := Bucket(m, true)];
  }

  // -------------------------------------------------------------------------
  //  Lookup
  // -------------------------------------------------------------------------

  /** The smallest index whose item has this key, or nothing. */
  function FirstMatch(items: seq<CacheItem>, hash: u32, name: seq<byte>): (r: Option<nat>)
    ensures r.Some? ==> r.value < |items| && Matches(items[r.value], hash, name)
    ensures r.Some? ==> forall i :: 0 <= i < r.value ==> !Matches(items[i], hash, name)
    ensures r.None? ==> forall i :: 0 <= i < |items| ==> !Matches(items[i], hash, name)
  {
    if items == [] then None
    else
      var n := |items| - 1;
      match FirstMatch(items[..n], hash, name)
      case Some(i) => Some(i)
      case None => if Matches(items[n], hash, name) then Some(n) else None
  }

  /** Probing for a key finds exactly what a first-match scan finds. */
  method Find(table: seq<Bucket>, items: seq<CacheItem>, hash: u32, name: seq<byte>) returns (r: Option<nat>)
    requires Bits.IsPow2(|table|) && |items| < |table| && Indexes(table, items, |items|)
    ensures r == FirstMatch(items, hash, name)
  {
    hide Bits.And;
    var n := |table|;
    var mask := n - 1;
    var h := HashName(name);
    var slot := Bits.And(Bits.Xor(hash, h), mask);
    ghost var home := Home(hash, name, n);
    ghost var free := FreeSlot(table, items, |items|);
    ghost var stop := Reaches(home, free, n);
    ghost var e := 0;
    while table[slot].used
      invariant e <= stop < n && slot == Probe(home, e, n)
      invariant forall k :: 0 <= k < e ==>
                  var b := table[Probe(home, k, n)];
                  b.used && !Matches(items[b.index], hash, name)
      decreases stop - e
    {
      var item := items[table[slot].index];
      if item.hash == hash && item.name == name {
        FoundIsFirst(table, items, hash, name, e);
        return Some(table[slot].index);
      }
      NextSlot(home, e, n);
      slot := Bits.And(slot + 1, mask);
      e := e + 1;
    }
    MissedIsAbsent(table, items, hash, name, e);
    return None;
  }

  /** The match reached after `e` probes over other keys is the first match. */
  lemma FoundIsFirst(table: seq<Bucket>, items: seq<CacheItem>, hash: u32, name: seq<byte>, e: nat)
    requires Indexes(table, items, |items|) && e < |table|
    requires var b := table[Probe(Home(hash, name, |table|), e, |table|)];
             b.used && Matches(items[b.index], hash, name)
    requires forall k :: 0 <= k < e ==>
               var b := table[Probe(Home(hash, name, |table|), k, |table|)];
               b.used && !Matches(items[b.index], hash, name)
    ensures FirstMatch(items, hash, name) == Some(table[Probe(Home(hash, name, |table|), e, |table|)].index)
  {
    hide Home, FirstMatch;
    var n := |table|;
    var home := Home(hash, name, n);
    var i := table[Probe(home, e, n)].index;
    var first := FirstMatch(items, hash, name).value;
    assert first <= i;
    assert Placed(table, items, first);
    var d: nat :| PlacedAt(table, items, first, d);
    assert HomeOf(items[first], n) == home;
    assert d == e;
  }

  /** A free bucket after `e` probes over other keys means the key is nowhere. */
  lemma MissedIsAbsent(table: seq<Bucket>, items: seq<CacheItem>, hash: u32, name: seq<byte>, e: nat)
    requires Indexes(table, items, |items|) && e < |table|
    requires !table[Probe(Home(hash, name, |table|), e, |table|)].used
    requires forall k :: 0 <= k < e ==>
               var b := table[Probe(Home(hash, name, |table|), k, |table|)];
               b.used && !Matches(items[b.index], hash, name)
    ensures FirstMatch(items, hash, name) == None
  {
    hide Home, FirstMatch;
    var r := FirstMatch(items, hash, name);
    assert r.Some? ==> HomeOf(items[r.value], |table|) == Home(hash, name, |table|);
    assert r.Some? ==> Placed(table, items, r.value);
  }
}
