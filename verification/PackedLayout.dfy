/** The payload shape all directory codecs share: a directory of (offset, length)
    entries followed by blobs packed on 8-byte boundaries. */
module PackedLayout {
  import opened Wire

  /** `s` followed by zero bytes up to the next multiple of 8. */
  function Pad(s: seq<byte>): (r: seq<byte>)
    ensures |r| == Align8(|s|)
  {
    s + Zeros(Align8(|s|) - |s|)
  }

  /** The blobs in order, each starting on a multiple of 8, zeros between. */
  function Pack(blobs: seq<seq<byte>>): (s: seq<byte>)
  {
    if blobs == [] then []
    else
      var n := |blobs| - 1;
      Pad(Pack(blobs[..n])) + blobs[n]
  }

  /** Where blob `i` starts in the packed area. */
  function Offset(blobs: seq<seq<byte>>, i: nat): (r: nat)
    requires i <= |blobs|
    ensures r % 8 == 0
  {
    Align8(|Pack(blobs[..i])|)
  }

  function Entry(offset: nat, length: nat): (s: seq<byte>)
    ensures |s| == 8
  {
    U32(offset) + U32(length)
  }

  /** Directory entries whose offsets are counted from `-base`. */
  function Dir(base: nat, blobs: seq<seq<byte>>): (s: seq<byte>)
    ensures |s| == 8 * |blobs|
  {
    if blobs == [] then []
    else
      var n := |blobs| - 1;
      Dir(base, blobs[..n]) + Entry(base + Offset(blobs, n), |blobs[n]|)
  }

  /** Sum of the aligned blob lengths. */
  function AlignedTotal(blobs: seq<seq<byte>>): (r: nat)
  {
    if blobs == [] then 0
    else
      var n := |blobs| - 1;
      AlignedTotal(blobs[..n]) + Align8(|blobs[n]|)
  }

  /** Count, offsets and lengths are representable in u32 directory fields. */
  predicate Fits(blobs: seq<seq<byte>>)
  {
    && |blobs| < U32_LIMIT
    && forall i :: 0 <= i < |blobs| ==> Offset(blobs, i) < U32_LIMIT && |blobs[i]| < U32_LIMIT
  }

  lemma FitsAt(blobs: seq<seq<byte>>, i: nat)
    requires Fits(blobs) && i < |blobs|
    ensures |blobs| < U32_LIMIT && Offset(blobs, i) < U32_LIMIT && |blobs[i]| < U32_LIMIT
  {
  }

  /** A packed area below 4 GiB makes every offset and length representable. */
  lemma PackedFits(blobs: seq<seq<byte>>)
    requires |blobs| < U32_LIMIT && |Pack(blobs)| < U32_LIMIT
    ensures Fits(blobs)
  {
    hide Pack, Offset;
    forall i | 0 <= i < |blobs|
      ensures Offset(blobs, i) < U32_LIMIT && |blobs[i]| < U32_LIMIT
    {
      BlobAt(blobs, i);
    }
  }

  lemma FitsCount(blobs: seq<seq<byte>>)
    requires Fits(blobs)
    ensures |blobs| < U32_LIMIT
  {
    hide Offset;
  }

  lemma PackSnoc(blobs: seq<seq<byte>>, x: seq<byte>)
    ensures Pack(blobs + [x]) == Pad(Pack(blobs)) + x
    ensures Offset(blobs + [x], |blobs|) == Align8(|Pack(blobs)|)
  {
    assert (blobs + [x])[..|blobs|] == blobs;
  }

  lemma DirSnoc(base: nat, blobs: seq<seq<byte>>, x: seq<byte>)
    ensures Dir(base, blobs + [x]) == Dir(base, blobs) + Entry(base + Align8(|Pack(blobs)|), |x|)
  {
    assert (blobs + [x])[..|blobs|] == blobs;
  }

  lemma AlignSum(a: nat, v: nat)
    requires a % 8 == 0
    ensures Align8(a + v) == a + Align8(v)
  {
  }

  /** The packed size law. */
  lemma {:induction false} PackSize(blobs: seq<seq<byte>>)
    ensures Align8(|Pack(blobs)|) == AlignedTotal(blobs)
  {
    if blobs != [] {
      var n := |blobs| - 1;
      PackSize(blobs[..n]);
      AlignSum(AlignedTotal(blobs[..n]), |blobs[n]|);
    }
  }

  lemma OffsetInFront(front: seq<seq<byte>>, x: seq<byte>, i: nat)
    requires i <= |front|
    ensures Offset(front + [x], i) == Offset(front, i)
  {
    assert (front + [x])[..i] == front[..i];
  }

  /** Blob `i` lies whole in the packed area, at its offset. */
  lemma {:induction false} BlobAt(blobs: seq<seq<byte>>, i: nat)
    requires i < |blobs|
    ensures Offset(blobs, i) + |blobs[i]| <= |Pack(blobs)|
    ensures Pack(blobs)[Offset(blobs, i)..Offset(blobs, i) + |blobs[i]|] == blobs[i]
  {
    hide Pack, Offset;
    var n := |blobs| - 1;
    var front, x := blobs[..n], blobs[n];
    assert blobs == front + [x];
    PackSnoc(front, x);
    if i < n {
      BlobAt(front, i);
      OffsetInFront(front, x, i);
    }
  }

  /** The packed area ends where its last blob ends. */
  lemma LastBlobEnds(blobs: seq<seq<byte>>)
    requires blobs != []
    ensures Offset(blobs, |blobs| - 1) + |blobs[|blobs| - 1]| == |Pack(blobs)|
  {
  }

  lemma {:induction false} DirAt(base: nat, blobs: seq<seq<byte>>, i: nat)
    requires i < |blobs|
    ensures Dir(base, blobs)[8 * i..8 * i + 8] == Entry(base + Offset(blobs, i), |blobs[i]|)
  {
    hide Dir, Pack, Offset, Entry;
    var n := |blobs| - 1;
    var front, x := blobs[..n], blobs[n];
    assert blobs == front + [x];
    DirSnoc(base, front, x);
    PackSnoc(front, x);
    if i < n {
      DirAt(base, front, i);
      OffsetInFront(front, x, i);
    }
  }

  /** A directory entry read back from any payload that carries it. */
  lemma EntryFields(b: seq<byte>, at: nat, offset: nat, length: nat)
    requires at + 8 <= |b| && b[at..at + 8] == Entry(offset, length)
    ensures Get32(b, at) == offset % U32_LIMIT
    ensures Get32(b, at + 4) == length % U32_LIMIT
  {
    assert b[at..at + 4] == b[at..at + 8][..4] == U32(offset);
    assert b[at + 4..at + 8] == b[at..at + 8][4..] == U32(length);
  }

  // -------------------------------------------------------------------------
  //  Reading
  // -------------------------------------------------------------------------

  /** `b` holds `dir` at `h` and `packed` at `area`, behind it. */
  ghost predicate Holds(b: seq<byte>, h: nat, area: nat, dir: seq<byte>, packed: seq<byte>)
  {
    && h + |dir| <= area
    && area + |packed| <= |b|
    && b[h..h + |dir|] == dir
    && b[area..area + |packed|] == packed
  }

  /** Reading entry `i` and following it gives blob `i`. */
  lemma ReadBlob(b: seq<byte>, h: nat, blobs: seq<seq<byte>>, i: nat)
    requires i < |blobs| && Offset(blobs, i) < U32_LIMIT && |blobs[i]| < U32_LIMIT
    requires Holds(b, h, h + 8 * |blobs|, Dir(0, blobs), Pack(blobs))
    ensures var off, len := Get32(b, h + 8 * i), Get32(b, h + 8 * i + 4);
            && off == Offset(blobs, i)
            && len == |blobs[i]|
            && off + len <= |Pack(blobs)|
            && b[h + 8 * |blobs| + off..h + 8 * |blobs| + off + len] == blobs[i]
  {
    hide Dir, Pack, Entry, Get32, Offset;
    var dir, pack, lo := Dir(0, blobs), Pack(blobs), Offset(blobs, i);
    BlobAt(blobs, i);
    DirAt(0, blobs, i);
    SubSlice(b, h, dir, 8 * i, 8 * i + 8);
    EntryFields(b, h + 8 * i, lo, |blobs[i]|);
    SubSlice(b, h + 8 * |blobs|, pack, lo, lo + |blobs[i]|);
  }

  /** The last entry points at the very end of the packed area. */
  lemma LastEntry(b: seq<byte>, h: nat, blobs: seq<seq<byte>>)
    requires blobs != [] && Fits(blobs)
    requires Holds(b, h, h + 8 * |blobs|, Dir(0, blobs), Pack(blobs))
    ensures var e := h + 8 * (|blobs| - 1);
            Get32(b, e) + Get32(b, e + 4) == |Pack(blobs)|
  {
    hide Dir, Pack, Offset, Get32;
    ReadBlob(b, h, blobs, |blobs| - 1);
    LastBlobEnds(blobs);
  }

  lemma SubSlice(b: seq<byte>, at: nat, s: seq<byte>, lo: nat, hi: nat)
    requires at + |s| <= |b| && b[at..at + |s|] == s && lo <= hi <= |s|
    ensures b[at + lo..at + hi] == s[lo..hi]
  {
    forall k | 0 <= k < hi - lo
      ensures b[at + lo..at + hi][k] == s[lo..hi][k]
    {
      assert b[at + lo + k] == b[at..at + |s|][lo + k];
    }
  }

  lemma HoldsPrefix(b: seq<byte>, dir: seq<byte>, packed: seq<byte>)
    requires dir + packed <= b
    ensures Holds(b, 0, |dir|, dir, packed)
  {
    assert b[..|dir| + |packed|] == dir + packed;
  }

  datatype DirEntry = DirEntry(offset: u32, length: u32)

  /** Entry `i` of the directory at `h`, with the checks a reader makes. */
  function CheckedEntry(b: seq<byte>, h: nat, i: nat, packedLen: nat, minLen: nat): (r: Result<DirEntry>)
    requires h + 8 * i + 8 <= |b|
  {
    var offset := Get32(b, h + 8 * i);
    var length := Get32(b, h + 8 * i + 4);
    if offset % 8 != 0 then Err(BadAlignment)
    else if offset + length > packedLen then Err(OutOfBounds)
    else if length < minLen then Err(Truncated)
    else Ok(DirEntry(offset, length))
  }

  /** The first `n` entries, or the error of the first one that fails. */
  function Entries(b: seq<byte>, h: nat, n: nat, packedLen: nat, minLen: nat): (r: Result<seq<DirEntry>>)
    requires h + 8 * n <= |b|
  {
    if n == 0 then Ok([])
    else
      match Entries(b, h, n - 1, packedLen, minLen)
      case Err(e) => Err(e)
      case Ok(front) =>
        match CheckedEntry(b, h, n - 1, packedLen, minLen)
        case Err(e) => Err(e)
        case Ok(last) => Ok(front + [last])
  }

  lemma {:induction false} EntriesErrStays(b: seq<byte>, h: nat, k: nat, n: nat, packedLen: nat, minLen: nat)
    requires k <= n && h + 8 * n <= |b|
    requires Entries(b, h, k, packedLen, minLen).Err?
    ensures Entries(b, h, n, packedLen, minLen) == Entries(b, h, k, packedLen, minLen)
    decreases n - k
  {
    if k < n {
      EntriesErrStays(b, h, k, n - 1, packedLen, minLen);
    }
  }

  /** `Entries` succeeds exactly when every entry passes, and then lists them;
      otherwise it reports the error of the least failing index. */
  lemma {:induction false} EntriesMeaning(b: seq<byte>, h: nat, n: nat, packedLen: nat, minLen: nat)
    requires h + 8 * n <= |b|
    ensures var r := Entries(b, h, n, packedLen, minLen);
            && (r.Ok? <==> forall i :: 0 <= i < n ==> CheckedEntry(b, h, i, packedLen, minLen).Ok?)
            && (r.Ok? ==> |r.value| == n
                          && forall i :: 0 <= i < n ==> CheckedEntry(b, h, i, packedLen, minLen) == Ok(r.value[i]))
            && (r.Err? ==> exists k :: 0 <= k < n
                             && CheckedEntry(b, h, k, packedLen, minLen) == Err(r.error)
                             && forall i :: 0 <= i < k ==> CheckedEntry(b, h, i, packedLen, minLen).Ok?)
  {
    hide CheckedEntry;
    if n > 0 {
      EntriesMeaning(b, h, n - 1, packedLen, minLen);
      assert CheckedEntry(b, h, n - 1, packedLen, minLen).Err? || CheckedEntry(b, h, n - 1, packedLen, minLen).Ok?;
    }
  }

  // -------------------------------------------------------------------------
  //  Building in place
  // -------------------------------------------------------------------------

  /** Extending the packed area and then the directory, in place. */
  lemma HoldsAppend(b: seq<byte>, h: nat, area: nat, dir: seq<byte>, packed: seq<byte>, t: seq<byte>, e: seq<byte>)
    requires Holds(b, h, area, dir, packed)
    requires h + |dir| + |e| <= area && area + |packed| + |t| <= |b|
    ensures Holds(Splice(Splice(b, area + |packed|, t), h + |dir|, e), h, area, dir + e, packed + t)
  {
    var mid := Splice(b, area + |packed|, t);
    var r := Splice(mid, h + |dir|, e);
    assert r[area..area + |packed| + |t|] == mid[area..area + |packed| + |t|] == b[area..area + |packed|] + t;
    assert r[h..h + |dir| + |e|] == b[h..h + |dir|] + e;
  }

  /** Sliding the packed area down behind the directory leaves the two adjacent. */
  lemma HoldsCompact(b: seq<byte>, h: nat, area: nat, dir: seq<byte>, packed: seq<byte>)
    requires Holds(b, h, area, dir, packed)
    ensures Holds(Splice(b, h + |dir|, packed), h, h + |dir|, dir, packed)
  {
  }

  /** What `add` writes in front of and including blob `x`. */
  function Tail(blobs: seq<seq<byte>>, x: seq<byte>): (t: seq<byte>)
    ensures |Pack(blobs)| + |t| == Align8(|Pack(blobs)|) + |x|
    ensures Pack(blobs + [x]) == Pack(blobs) + t
  {
    PackSnoc(blobs, x);
    var used := |Pack(blobs)|;
    var t := Zeros(Align8(used) - used) + x;
    assert Pad(Pack(blobs)) + x == Pack(blobs) + t;
    t
  }

  lemma HoldsEmpty(b: seq<byte>, h: nat, area: nat, base: nat)
    requires h <= area <= |b|
    ensures Holds(b, h, area, Dir(base, []), Pack([]))
  {
  }

  lemma PackEmpty()
    ensures Pack([]) == []
  {
  }

  lemma TailIs(blobs: seq<seq<byte>>, x: seq<byte>)
    ensures Tail(blobs, x) == Zeros(Align8(|Pack(blobs)|) - |Pack(blobs)|) + x
  {
  }

  lemma AppendBlob(b: seq<byte>, h: nat, area: nat, base: nat, blobs: seq<seq<byte>>, x: seq<byte>)
    requires Holds(b, h, area, Dir(base, blobs), Pack(blobs))
    requires h + 8 * |blobs| + 8 <= area
    requires area + Align8(|Pack(blobs)|) + |x| <= |b|
    ensures Holds(Splice(Splice(b, area + |Pack(blobs)|, Tail(blobs, x)),
                         h + 8 * |blobs|, Entry(base + Align8(|Pack(blobs)|), |x|)),
                  h, area, Dir(base, blobs + [x]), Pack(blobs + [x]))
  {
    hide Dir, Pack;
    DirSnoc(base, blobs, x);
    HoldsAppend(b, h, area, Dir(base, blobs), Pack(blobs), Tail(blobs, x), Entry(base + Align8(|Pack(blobs)|), |x|));
  }

  /** Writes one directory entry. */
  method PutEntry(a: array<byte>, at: nat, offset: nat, length: nat)
    requires at + 8 <= a.Length
    modifies a
    ensures a[..] == Splice(old(a[..]), at, Entry(offset, length))
  {
    ghost var b0 := a[..];
    Put(a, at, U32(offset));
    Put(a, at + 4, U32(length));
    SpliceAdjacent(b0, at, U32(offset), U32(length));
  }

  /** Writes `s` behind the `done` bytes already written at `p`. */
  method PutNext(a: array<byte>, ghost b0: seq<byte>, ghost p: nat, ghost done: seq<byte>, at: nat, s: seq<byte>)
    requires |b0| == a.Length && p + |done| == at && at + |s| <= a.Length
    requires a[..] == Splice(b0, p, done)
    modifies a
    ensures a[..] == Splice(b0, p, done + s)
  {
    Put(a, at, s);
    SpliceAdjacent(b0, p, done, s);
  }

  /** Zeroes the alignment gap `a[from..to]`, if there is one. */
  method ZeroGap(a: array<byte>, from: nat, to: nat)
    requires from <= to <= a.Length
    modifies a
    ensures a[..] == Splice(old(a[..]), from, Zeros(to - from))
  {
    if to > from {
      Put(a, from, Zeros(to - from));
    }
  }

  /** Every absolute item offset and every item length is representable. */
  ghost predicate Addressable(area: nat, blobs: seq<seq<byte>>)
  {
    forall i :: 0 <= i < |blobs| ==> area + Offset(blobs, i) < U32_LIMIT && |blobs[i]| < U32_LIMIT
  }

  lemma AddressableSnoc(area: nat, blobs: seq<seq<byte>>, x: seq<byte>)
    requires Addressable(area, blobs)
    requires area + Align8(|Pack(blobs)|) < U32_LIMIT && |x| < U32_LIMIT
    ensures Addressable(area, blobs + [x])
  {
    hide Pack, Offset;
    forall i | 0 <= i < |blobs + [x]|
      ensures area + Offset(blobs + [x], i) < U32_LIMIT && |(blobs + [x])[i]| < U32_LIMIT
    {
      PackSnoc(blobs, x);
      OffsetInFront(blobs, x, if i < |blobs| then i else 0);
    }
  }

  /** Appends blob `x` behind the `used` packed bytes and enters it in the directory. */
  method Append(a: array<byte>, h: nat, area: nat, base: nat, ghost blobs: seq<seq<byte>>, count: nat, used: nat,
                x: seq<byte>)
    requires Holds(a[..], h, area, Dir(base, blobs), Pack(blobs))
    requires count == |blobs| && used == |Pack(blobs)|
    requires h + 8 * count + 8 <= area
    requires area + Align8(used) + |x| <= a.Length
    modifies a
    ensures Holds(a[..], h, area, Dir(base, blobs + [x]), Pack(blobs + [x]))
    ensures a[area + Align8(used) + |x|..] == old(a[area + Align8(used) + |x|..])
  {
    hide Dir, Pack, Entry, Tail, Holds, Splice, Align8;
    ghost var b0 := a[..];
    AppendBlob(b0, h, area, base, blobs, x);
    TailIs(blobs, x);
    var start := area + Align8(used);
    ZeroGap(a, area + used, start);
    Put(a, start, x);
    SpliceAdjacent(b0, area + used, Zeros(Align8(used) - used), x);
    ghost var b1 := a[..];
    PutEntry(a, h + 8 * count, base + Align8(used), |x|);
    SpliceLeaves(b0, area + used, Tail(blobs, x), start + |x|);
    SpliceLeaves(b1, h + 8 * count, Entry(base + Align8(used), |x|), start + |x|);
  }

  lemma SpliceLeaves(b: seq<byte>, at: nat, s: seq<byte>, from: nat)
    requires at + |s| <= from <= |b|
    ensures Splice(b, at, s)[from..] == b[from..]
  {
  }

  /** Writing bytes that are already there changes nothing. */
  lemma SpliceKeepsTail(b: seq<byte>, at: nat, s: seq<byte>, t: seq<byte>)
    requires at + |s| + |t| <= |b| && b[at + |s|..at + |s| + |t|] == t
    ensures Splice(b, at, s) == Splice(b, at, s + t)
  {
    assert b[at + |s|..] == t + b[at + |s| + |t|..];
  }

  lemma SpliceBeyond(b: seq<byte>, at: nat, s: seq<byte>, lo: nat, hi: nat)
    requires at + |s| <= lo <= hi <= |b|
    ensures Splice(b, at, s)[lo..hi] == b[lo..hi]
  {
  }

  /** Rewriting the offset of entry `i` from `-first` to the packed area's start. */
  lemma RelativizeStep(b0: seq<byte>, b: seq<byte>, h: nat, first: nat, blobs: seq<seq<byte>>, i: nat)
    requires i < |blobs| && h + 8 * |blobs| <= |b0|
    requires b0[h..h + 8 * |blobs|] == Dir(first, blobs)
    requires b == Splice(b0, h, Dir(0, blobs[..i]))
    ensures b[h + 8 * i..h + 8 * i + 8] == Entry(first + Offset(blobs, i), |blobs[i]|)
    ensures Splice(b, h + 8 * i, U32(Offset(blobs, i))) == Splice(b0, h, Dir(0, blobs[..i + 1]))
  {
    hide Dir, Pack, Offset, Splice, U32;
    var front, x, at := blobs[..i], blobs[i], h + 8 * i;
    assert blobs[..i + 1] == front + [x];
    DirSnoc(0, front, x);
    PrefixOffset(blobs, i);
    DirAt(first, blobs, i);
    SubSlice(b0, h, Dir(first, blobs), 8 * i, 8 * i + 8);
    SpliceBeyond(b0, h, Dir(0, front), at, at + 8);
    var e := Entry(first + Offset(blobs, i), |x|);
    assert b[at + 4..at + 8] == b[at..at + 8][4..] == e[4..] == U32(|x|);
    SpliceKeepsTail(b, at, U32(Offset(blobs, i)), U32(|x|));
    SpliceAdjacent(b0, h, Dir(0, front), Entry(Offset(blobs, i), |x|));
  }

  lemma PrefixOffset(blobs: seq<seq<byte>>, i: nat)
    requires i <= |blobs|
    ensures Offset(blobs, i) == Align8(|Pack(blobs[..i])|)
  {
  }

  /** Turns the absolute directory offsets at `h` into offsets from the packed area. */
  method Relativize(a: array<byte>, h: nat, first: nat, count: nat, ghost blobs: seq<seq<byte>>)
    requires count == |blobs| && h + 8 * count <= a.Length
    requires a[h..h + 8 * count] == Dir(first, blobs)
    requires forall i :: 0 <= i < |blobs| ==> first + Offset(blobs, i) < U32_LIMIT
    modifies a
    ensures a[..] == Splice(old(a[..]), h, Dir(0, blobs))
  {
    hide Dir, Pack, Offset, Splice;
    ghost var b0 := a[..];
    RelativizeStart(b0, h, blobs);
    for i := 0 to count
      invariant a[..] == Splice(b0, h, Dir(0, blobs[..i]))
    {
      RelativizeEntry(a, h, first, i, b0, blobs);
    }
    assert blobs[..count] == blobs;
  }

  method RelativizeEntry(a: array<byte>, h: nat, first: nat, i: nat, ghost b0: seq<byte>, ghost blobs: seq<seq<byte>>)
    requires i < |blobs| && h + 8 * |blobs| <= |b0| == a.Length
    requires b0[h..h + 8 * |blobs|] == Dir(first, blobs)
    requires first + Offset(blobs, i) < U32_LIMIT
    requires a[..] == Splice(b0, h, Dir(0, blobs[..i]))
    modifies a
    ensures a[..] == Splice(b0, h, Dir(0, blobs[..i + 1]))
  {
    hide Dir, Pack, Offset, Splice, Get32, Entry, U32;
    ghost var b := a[..];
    RelativizeStep(b0, b, h, first, blobs, i);
    EntryFields(b, h + 8 * i, first + Offset(blobs, i), |blobs[i]|);
    var abs := Get32(a[..], h + 8 * i);
    Put(a, h + 8 * i, U32(abs - first));
  }

  lemma RelativizeStart(b0: seq<byte>, h: nat, blobs: seq<seq<byte>>)
    requires h <= |b0|
    ensures b0 == Splice(b0, h, Dir(0, blobs[..0]))
  {
  }

  lemma HoldsNewDir(b: seq<byte>, h: nat, area: nat, dir: seq<byte>, dir': seq<byte>, packed: seq<byte>)
    requires Holds(b, h, area, dir, packed) && |dir'| == |dir|
    ensures Holds(Splice(b, h, dir'), h, area, dir', packed)
  {
    SpliceBeyond(b, h, dir', area, area + |packed|);
  }

  /** Moves the packed area at `first` down to `finalStart`, right behind the directory. */
  method Slide(a: array<byte>, h: nat, first: nat, packedLen: nat, finalStart: nat, ghost dir: seq<byte>,
               ghost packed: seq<byte>)
    requires Holds(a[..], h, first, dir, packed) && packedLen == |packed| && finalStart == h + |dir|
    modifies a
    ensures Holds(a[..], h, finalStart, dir, packed)
    ensures finalStart <= a.Length && a[h..finalStart] == dir
  {
    hide Splice;
    HoldsCompact(a[..], h, first, dir, packed);
    if finalStart < first {
      CopyWithin(a, first, first + packedLen, finalStart);
    }
  }

  /** The first directory entry records where the packed area begins. */
  lemma FirstEntry(b: seq<byte>, h: nat, area: nat, blobs: seq<seq<byte>>)
    requires blobs != [] && area < U32_LIMIT
    requires Holds(b, h, area, Dir(area, blobs), Pack(blobs))
    ensures h + 8 * |blobs| <= area && area + |Pack(blobs)| <= |b|
    ensures Get32(b, h) == area
  {
    hide Dir, Pack, Entry;
    assert Pack(blobs[..0]) == [] by { PackEmpty(); }
    DirAt(area, blobs, 0);
    SubSlice(b, h, Dir(area, blobs), 0, 8);
    EntryFields(b, h, area + Offset(blobs, 0), |blobs[0]|);
  }

  /** Slides the packed area down behind the directory and makes the directory
      relative to it; `end` is one past the packed bytes. */
  method CompactDirectory(a: array<byte>, h: nat, ghost area: nat, count: nat, end: nat, ghost blobs: seq<seq<byte>>)
    returns (size: nat)
    requires blobs != [] && count == |blobs|
    requires Holds(a[..], h, area, Dir(area, blobs), Pack(blobs))
    requires end == area + |Pack(blobs)|
    requires forall i :: 0 <= i < |blobs| ==> area + Offset(blobs, i) < U32_LIMIT
    modifies a
    ensures Holds(a[..], h, h + 8 * count, Dir(0, blobs), Pack(blobs))
    ensures size == h + 8 * count + |Pack(blobs)|
  {
    hide Dir, Pack, Splice, Get32, Offset, Holds;
    assert area + Offset(blobs, 0) < U32_LIMIT;
    FirstEntry(a[..], h, area, blobs);
    var finalStart := h + 8 * count;
    var first := Get32(a[..], h);
    var packedLen := end - first;
    Slide(a, h, first, packedLen, finalStart, Dir(area, blobs), Pack(blobs));
    ghost var b1 := a[..];
    Relativize(a, h, first, count, blobs);
    HoldsNewDir(b1, h, finalStart, Dir(area, blobs), Dir(0, blobs), Pack(blobs));
    size := finalStart + packedLen;
  }

  /** A header written in front of directory and packed area. */
  lemma FrontIs(b: seq<byte>, hdr: seq<byte>, dir: seq<byte>, pack: seq<byte>)
    requires Holds(b, |hdr|, |hdr| + |dir|, dir, pack)
    ensures Splice(b, 0, hdr)[..|hdr| + |dir| + |pack|] == hdr + dir + pack
  {
    var at := |hdr| + |dir|;
    assert b[|hdr|..at + |pack|] == b[|hdr|..at] + b[at..at + |pack|];
  }
}
