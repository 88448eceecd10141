/** Bytes, little-endian integers, the error type and in-place buffer writes
    shared by every netipc codec. */
module Wire {

  type byte = b: int | 0 <= b < 256

  datatype NipcError =
    | Truncated | BadMagic | BadVersion | BadHeaderLen | BadKind | BadLayout
    | OutOfBounds | MissingNul | BadAlignment | BadItemCount | Overflow
    | HandlerFailed | Timeout | Aborted

  datatype Result<+T> = Ok(value: T) | Err(error: NipcError)

  datatype Option<+T> = None | Some(value: T)

  const U16_LIMIT: nat := 0x1_0000
  const U32_LIMIT: nat := 0x1_0000_0000
  const U64_LIMIT: nat := 0x1_0000_0000_0000_0000

  type u16 = v: nat | v < 0x1_0000
  type u32 = v: nat | v < 0x1_0000_0000
  type u64 = v: nat | v < 0x1_0000_0000_0000_0000

  // -------------------------------------------------------------------------
  //  Integers on the wire
  // -------------------------------------------------------------------------

  function Pow256(width: nat): (p: nat)
    ensures p > 0
  {
    if width == 0 then 1 else 256 * Pow256(width - 1)
  }

  /** The `width` low bytes of `v`, least significant first. */
  function LE(width: nat, v: nat): (s: seq<byte>)
    ensures |s| == width
  {
    if width == 0 then [] else [v % 256] + LE(width - 1, v / 256)
  }

  /** The number whose little-endian form is `s`. */
  function Val(s: seq<byte>): (v: nat)
    ensures v < Pow256(|s|)
  {
    if s == [] then 0 else s[0] + 256 * Val(s[1..])
  }

  lemma MultipleMagnitude(m: nat, d: int)
    ensures d > 0 ==> m * d >= m
    ensures d < 0 ==> m * d <= -1 * m
  {
  }

  lemma DivModUnique(v: nat, m: nat, q: nat, r: nat)
    requires m > 0 && r < m && v == m * q + r
    ensures v % m == r && v / m == q
  {
    var d := v / m - q;
    assert m * d == r - v % m;
    MultipleMagnitude(m, d);
  }

  lemma ScaledMod(v: nat, p: nat)
    requires p > 0
    ensures v % (256 * p) == v % 256 + 256 * (v / 256 % p)
  {
    var q, r := v / 256 / p, v / 256 % p;
    assert v / 256 == p * q + r;
    assert 256 * (p * q) == (256 * p) * q;
    DivModUnique(v, 256 * p, q, 256 * r + v % 256);
  }

  /** Reading back what was written gives the value reduced to its width. */
  lemma {:induction false} ValOfLE(width: nat, v: nat)
    ensures Val(LE(width, v)) == v % Pow256(width)
  {
    if width > 0 {
      var tail := LE(width - 1, v / 256);
      assert LE(width, v) == [v % 256] + tail;
      assert LE(width, v)[1..] == tail;
      ValOfLE(width - 1, v / 256);
      ScaledMod(v, Pow256(width - 1));
    }
  }

  /** Every byte string is the little-endian form of its value. */
  lemma {:induction false} LEOfVal(s: seq<byte>)
    ensures LE(|s|, Val(s)) == s
  {
    if s != [] {
      LEOfVal(s[1..]);
      DivModUnique(Val(s), 256, Val(s[1..]), s[0]);
      assert s == [s[0]] + s[1..];
    }
  }

  function U16(v: nat): (s: seq<byte>)
    ensures |s| == 2 && Val(s) == v % U16_LIMIT
  {
    ValOfLE(2, v);
    LE(2, v)
  }

  function U32(v: nat): (s: seq<byte>)
    ensures |s| == 4 && Val(s) == v % U32_LIMIT
  {
    ValOfLE(4, v);
    LE(4, v)
  }

  function U64(v: nat): (s: seq<byte>)
    ensures |s| == 8 && Val(s) == v % U64_LIMIT
  {
    ValOfLE(8, v);
    assert Pow256(8) == U64_LIMIT;
    LE(8, v)
  }

  function Get16(b: seq<byte>, at: nat): (v: u16)
    requires at + 2 <= |b|
  {
    Val(b[at..at + 2])
  }

  function Get32(b: seq<byte>, at: nat): (v: u32)
    requires at + 4 <= |b|
  {
    assert Pow256(4) == U32_LIMIT;
    Val(b[at..at + 4])
  }

  function Get64(b: seq<byte>, at: nat): (v: u64)
    requires at + 8 <= |b|
  {
    assert Pow256(8) == U64_LIMIT;
    Val(b[at..at + 8])
  }

  /** Reading a field that was written gives the value reduced to its width. */
  lemma Reads16(b: seq<byte>, at: nat, v: nat)
    requires at + 2 <= |b| && b[at..at + 2] == U16(v)
    ensures Get16(b, at) == v % U16_LIMIT
  {
  }

  lemma Reads32(b: seq<byte>, at: nat, v: nat)
    requires at + 4 <= |b| && b[at..at + 4] == U32(v)
    ensures Get32(b, at) == v % U32_LIMIT
  {
  }

  lemma Reads64(b: seq<byte>, at: nat, v: nat)
    requires at + 8 <= |b| && b[at..at + 8] == U64(v)
    ensures Get64(b, at) == v % U64_LIMIT
  {
  }

  /** Writing a field that was read restores its bytes. */
  lemma Rewrite16(b: seq<byte>, at: nat)
    requires at + 2 <= |b|
    ensures U16(Get16(b, at)) == b[at..at + 2]
  {
    LEOfVal(b[at..at + 2]);
  }

  lemma Rewrite32(b: seq<byte>, at: nat)
    requires at + 4 <= |b|
    ensures U32(Get32(b, at)) == b[at..at + 4]
  {
    LEOfVal(b[at..at + 4]);
  }

  lemma Rewrite64(b: seq<byte>, at: nat)
    requires at + 8 <= |b|
    ensures U64(Get64(b, at)) == b[at..at + 8]
  {
    LEOfVal(b[at..at + 8]);
  }

  // -------------------------------------------------------------------------
  //  Slices
  // -------------------------------------------------------------------------

  lemma Within(b: seq<byte>, from: nat, to: nat, lo: nat, hi: nat)
    requires from <= to <= |b| && lo <= hi <= to - from
    ensures b[from..to][lo..hi] == b[from + lo..from + hi]
    ensures b[from..] == b[from..|b|]
  {
    forall k | 0 <= k < hi - lo
      ensures b[from..to][lo..hi][k] == b[from + lo..from + hi][k]
    {
      assert b[from..to][lo + k] == b[from + lo + k];
    }
  }

  lemma Joined(b: seq<byte>, from: nat, mid: nat, to: nat, s: seq<byte>, t: seq<byte>)
    requires from <= mid <= to <= |b| && b[from..mid] == s && b[mid..to] == t
    ensures b[from..to] == s + t
  {
    assert b[from..to] == b[from..mid] + b[mid..to];
  }

  lemma JoinThree(b: seq<byte>, i: nat, j: nat, k: nat, l: nat)
    requires i <= j <= k <= l <= |b|
    ensures b[i..j] + b[j..k] + b[k..l] == b[i..l]
  {
    Joined(b, i, j, k, b[i..j], b[j..k]);
    Joined(b, i, k, l, b[i..k], b[k..l]);
  }

  lemma JoinFour(b: seq<byte>, i: nat, j: nat, k: nat, l: nat, m: nat)
    requires i <= j <= k <= l <= m <= |b|
    ensures b[i..j] + b[j..k] + b[k..l] + b[l..m] == b[i..m]
  {
    JoinThree(b, i, j, k, l);
    Joined(b, i, l, m, b[i..l], b[l..m]);
  }

  lemma SplitTwo(b: seq<byte>, at: nat, u: seq<byte>, v: seq<byte>)
    requires at + |u| + |v| <= |b| && b[at..at + |u| + |v|] == u + v
    ensures b[at..at + |u|] == u && b[at + |u|..at + |u| + |v|] == v
  {
    Within(b, at, at + |u| + |v|, 0, |u|);
    Within(b, at, at + |u| + |v|, |u|, |u| + |v|);
    assert (u + v)[0..|u|] == u;
  }

  lemma SplitThree(b: seq<byte>, at: nat, u: seq<byte>, v: seq<byte>, w: seq<byte>)
    requires at + |u| + |v| + |w| <= |b| && b[at..at + |u| + |v| + |w|] == u + v + w
    ensures var i := at + |u|;
            var j := i + |v|;
            b[at..i] == u && b[i..j] == v && b[j..j + |w|] == w
  {
    SplitTwo(b, at, u + v, w);
    SplitTwo(b, at, u, v);
  }

  lemma SplitFour(b: seq<byte>, at: nat, u: seq<byte>, v: seq<byte>, w: seq<byte>, x: seq<byte>)
    requires at + |u| + |v| + |w| + |x| <= |b| && b[at..at + |u| + |v| + |w| + |x|] == u + v + w + x
    ensures var i := at + |u|;
            var j := i + |v|;
            var k := j + |w|;
            b[at..i] == u && b[i..j] == v && b[j..k] == w && b[k..k + |x|] == x
  {
    SplitThree(b, at, u + v, w, x);
    SplitTwo(b, at, u, v);
  }

  // -------------------------------------------------------------------------
  //  Alignment
  // -------------------------------------------------------------------------

  function Align8(v: nat): (r: nat)
    ensures r % 8 == 0 && v <= r < v + 8
  {
    (v + 7) / 8 * 8
  }

  function Zeros(n: nat): (s: seq<byte>)
    ensures |s| == n && forall i :: 0 <= i < n ==> s[i] == 0
  {
    seq(n, i => 0)
  }

  // -------------------------------------------------------------------------
  //  In-place writes
  // -------------------------------------------------------------------------

  /** `b` with the bytes from `at` on replaced by `s`. */
  function Splice(b: seq<byte>, at: nat, s: seq<byte>): (r: seq<byte>)
    requires at + |s| <= |b|
    ensures |r| == |b|
  {
    b[..at] + s + b[at + |s|..]
  }

  /** Two adjacent writes are one write. */
  lemma SpliceAdjacent(b: seq<byte>, at: nat, s: seq<byte>, t: seq<byte>)
    requires at + |s| + |t| <= |b|
    ensures Splice(Splice(b, at, s), at + |s|, t) == Splice(b, at, s + t)
  {
  }

  /** Copies `s` into `a` at `at`. */
  method Put(a: array<byte>, at: nat, s: seq<byte>)
    requires at + |s| <= a.Length
    modifies a
    ensures a[..] == Splice(old(a[..]), at, s)
  {
    forall i | 0 <= i < |s| {
      a[at + i] := s[i];
    }
  }

  /** Moves `a[from..to]` to `at`; source and destination may overlap. */
  method CopyWithin(a: array<byte>, from: nat, to: nat, at: nat)
    requires from <= to <= a.Length && at + (to - from) <= a.Length
    modifies a
    ensures a[..] == Splice(old(a[..]), at, old(a[from..to]))
  {
    forall i | 0 <= i < to - from {
      a[at + i] := a[from + i];
    }
  }
}
