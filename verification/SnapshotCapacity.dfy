/** How many snapshot items a buffer can hold, against the reservation hint. */
module SnapshotCapacity {
  import opened Wire
  import opened PackedLayout
  import opened Snapshot
  import opened SnapshotBuilding

  /** The reservation hint for a buffer of `bufSize` bytes. */
  function EstimateMaxItems(bufSize: nat): (n: u32)
  {
    if bufSize <= HDR_SIZE then 0
    else (bufSize - HDR_SIZE) / (8 + Align8(ITEM_HDR_SIZE + 2)) % U32_LIMIT
  }

  /** A builder over `cap` bytes with `maxItems` slots accepts `items` one by one. */
  predicate Holdable(cap: nat, maxItems: u32, items: seq<SnapshotItem>)
  {
    forall i :: 0 <= i < |items| ==> Accepts(cap, maxItems, items[..i], items[i])
  }

  lemma HoldableSnoc(cap: nat, maxItems: u32, items: seq<SnapshotItem>, x: SnapshotItem)
    requires Holdable(cap, maxItems, items) && Accepts(cap, maxItems, items, x)
    ensures Holdable(cap, maxItems, items + [x])
  {
    hide Accepts;
    var all := items + [x];
    assert all[..|items|] == items;
    forall i | 0 <= i < |items|
      ensures Accepts(cap, maxItems, all[..i], all[i])
    {
      assert all[..i] == items[..i];
    }
  }

  /** Whatever a run of calls leaves in a builder is holdable. */
  lemma {:induction false} RunIsHoldable(cap: nat, maxItems: u32, ops: seq<Op>, results: seq<Result<()>>)
    requires Reported(cap, maxItems, ops, results)
    ensures Holdable(cap, maxItems, Succeeded(ops, results))
  {
    hide Accepts, Holdable;
    if ops == [] {
      NothingHeld(cap, maxItems);
    } else {
      var n := |ops| - 1;
      var front, reported := ops[..n], results[..n];
      forall i | 0 <= i < n
        ensures CallReports(cap, maxItems, Succeeded(front[..i], reported[..i]), front[i], reported[i])
      {
        assert front[..i] == ops[..i] && reported[..i] == results[..i];
      }
      RunIsHoldable(cap, maxItems, front, reported);
      if ops[n].AddItem? && results[n].Ok? {
        HoldableSnoc(cap, maxItems, Succeeded(front, reported), ops[n].x);
      }
    }
  }

  /** Conversely, a holdable list is what some run of calls leaves: every add of it succeeds. */
  lemma {:induction false} HoldableIsRun(cap: nat, maxItems: u32, items: seq<SnapshotItem>)
    returns (ops: seq<Op>, results: seq<Result<()>>)
    requires Holdable(cap, maxItems, items)
    ensures Reported(cap, maxItems, ops, results) && Succeeded(ops, results) == items
    ensures |ops| == |results| == |items|
    ensures forall i :: 0 <= i < |items| ==> ops[i] == AddItem(items[i]) && results[i] == Ok(())
  {
    hide Accepts, Reported, Succeeded;
    if items == [] {
      ops, results := [], [];
      NothingReported(cap, maxItems, 0, 0, ops);
      assert ops[..0] == ops;
    } else {
      var n := |items| - 1;
      var front, x := items[..n], items[n];
      assert forall i :: 0 <= i < n ==> front[..i] == items[..i];
      ops, results := HoldableIsRun(cap, maxItems, front);
      RunOfOne(cap, maxItems, ops, results, x);
      ops, results := ops + [AddItem(x)], results + [Ok(())];
      assert front + [x] == items;
    }
  }

  lemma RunOfOne(cap: nat, maxItems: u32, ops: seq<Op>, results: seq<Result<()>>, x: SnapshotItem)
    requires Reported(cap, maxItems, ops, results) && Accepts(cap, maxItems, Succeeded(ops, results), x)
    ensures Reported(cap, maxItems, ops + [AddItem(x)], results + [Ok(())])
    ensures Succeeded(ops + [AddItem(x)], results + [Ok(())]) == Succeeded(ops, results) + [x]
  {
    hide Accepts, Succeeded;
    ReportedSnoc(cap, maxItems, ops, results, AddItem(x), Ok(()));
  }

  lemma NothingHeld(cap: nat, maxItems: u32)
    ensures Holdable(cap, maxItems, [])
  {
  }

  const EMPTY_ITEM: SnapshotItem := SnapshotItem(0, 0, 0, [], [])

  function Empties(n: nat): (items: seq<SnapshotItem>)
    ensures |items| == n
  {
    seq(n, i => EMPTY_ITEM)
  }

  lemma {:induction false} AlignedTotalAtLeast(items: seq<SnapshotItem>)
    ensures AlignedTotal(Blobs(items)) >= 40 * |items|
  {
    hide ItemBytes;
    if items != [] {
      var n := |items| - 1;
      assert items == items[..n] + [items[n]];
      BlobsSnoc(items[..n], items[n]);
      AlignedTotalSnoc(Blobs(items[..n]), ItemBytes(items[n]));
      AlignedTotalAtLeast(items[..n]);
    }
  }

  lemma AlignedTotalSnoc(blobs: seq<seq<byte>>, x: seq<byte>)
    ensures AlignedTotal(blobs + [x]) == AlignedTotal(blobs) + Align8(|x|)
  {
    assert (blobs + [x])[..|blobs|] == blobs;
  }

  lemma {:induction false} AlignedTotalEmpties(n: nat)
    ensures AlignedTotal(Blobs(Empties(n))) == 40 * n
  {
    hide ItemBytes;
    if n > 0 {
      assert Empties(n) == Empties(n - 1) + [EMPTY_ITEM];
      BlobsSnoc(Empties(n - 1), EMPTY_ITEM);
      AlignedTotalSnoc(Blobs(Empties(n - 1)), ItemBytes(EMPTY_ITEM));
      AlignedTotalEmpties(n - 1);
    }
  }

  /** The largest number of items any builder run can leave in `bufSize` bytes. */
  function Capacity(bufSize: nat): nat
    requires bufSize >= HDR_SIZE
  {
    (bufSize - 18) / 48
  }

  /** No builder, whatever its slot count and items, holds more than the capacity. */
  lemma CapacityIsBound(bufSize: nat, maxItems: u32, items: seq<SnapshotItem>)
    requires bufSize >= HDR_SIZE && Holdable(bufSize, maxItems, items)
    ensures |items| <= Capacity(bufSize)
  {
    if items != [] {
      var n := |items| - 1;
      assert Accepts(bufSize, maxItems, items[..n], items[n]);
      AlignedTotalAtLeast(items[..n]);
    }
  }

  lemma EmptiesHoldable(bufSize: nat, n: u32)
    requires HDR_SIZE <= bufSize < U32_LIMIT && n <= Capacity(bufSize)
    ensures Holdable(bufSize, n, Empties(n))
  {
    hide AlignedTotal, Blobs;
    forall i | 0 <= i < n
      ensures Accepts(bufSize, n, Empties(n)[..i], Empties(n)[i])
    {
      assert Empties(n)[..i] == Empties(i);
      AlignedTotalEmpties(i);
    }
  }

  /** The capacity is reached by a run of calls, so the bound is sharp. */
  lemma CapacityIsReached(bufSize: nat) returns (ops: seq<Op>, results: seq<Result<()>>)
    requires HDR_SIZE <= bufSize < U32_LIMIT
    ensures Reported(bufSize, Capacity(bufSize), ops, results)
    ensures Succeeded(ops, results) == Empties(Capacity(bufSize))
  {
    hide Reported, Succeeded, Holdable, Accepts;
    EmptiesHoldable(bufSize, Capacity(bufSize));
    ops, results := HoldableIsRun(bufSize, Capacity(bufSize), Empties(Capacity(bufSize)));
  }

  /** A builder given the hint as its slot count can fill every slot, and no builder
      run on the buffer holds more than one item beyond the hint. */
  lemma HintIsClose(bufSize: nat) returns (ops: seq<Op>, results: seq<Result<()>>)
    requires HDR_SIZE <= bufSize < U32_LIMIT
    ensures Reported(bufSize, EstimateMaxItems(bufSize), ops, results)
    ensures Succeeded(ops, results) == Empties(EstimateMaxItems(bufSize))
    ensures EstimateMaxItems(bufSize) <= Capacity(bufSize) <= EstimateMaxItems(bufSize) + 1
  {
    hide Reported, Succeeded, Holdable, Accepts;
    var n := EstimateMaxItems(bufSize);
    EmptiesHoldable(bufSize, n);
    ops, results := HoldableIsRun(bufSize, n, Empties(n));
  }

  /** What a run leaves stays within the hint. */
  ghost predicate WithinHint(bufSize: nat, maxItems: u32, ops: seq<Op>, results: seq<Result<()>>)
  {
    Reported(bufSize, maxItems, ops, results) ==> |Succeeded(ops, results)| <= EstimateMaxItems(bufSize)
  }

  /** The hint is the "safe upper bound" it is documented to be, for every run of calls on every
      slot count, exactly when the bytes left over after whole slots cannot take one more
      unpadded item. */
  lemma HintBoundsExactlyWhen(bufSize: nat)
    requires HDR_SIZE <= bufSize < U32_LIMIT
    ensures (forall maxItems: u32, ops, results :: WithinHint(bufSize, maxItems, ops, results))
            <==> (bufSize - HDR_SIZE) % 48 < 42
  {
    hide Reported, Succeeded;
    if (bufSize - HDR_SIZE) % 48 < 42 {
      forall maxItems: u32, ops, results
        ensures WithinHint(bufSize, maxItems, ops, results)
      {
        if Reported(bufSize, maxItems, ops, results) {
          RunStaysWithinCapacity(bufSize, maxItems, ops, results);
        }
      }
    } else {
      var ops, results := CapacityIsReached(bufSize);
      assert !WithinHint(bufSize, Capacity(bufSize), ops, results);
    }
  }

  /** No run of builder calls, on any slot count, leaves more than the capacity. */
  lemma RunStaysWithinCapacity(bufSize: nat, maxItems: u32, ops: seq<Op>, results: seq<Result<()>>)
    requires bufSize >= HDR_SIZE && Reported(bufSize, maxItems, ops, results)
    ensures |Succeeded(ops, results)| <= Capacity(bufSize)
  {
    hide Succeeded, Holdable, CallReports;
    RunIsHoldable(bufSize, maxItems, ops, results);
    CapacityIsBound(bufSize, maxItems, Succeeded(ops, results));
  }

  /** A buffer on which the hint is one short: 66 bytes take one item, the hint is 0. */
  lemma HintCanBeOneShort()
    ensures EstimateMaxItems(66) == 0 && Reported(66, 1, [AddItem(EMPTY_ITEM)], [Ok(())])
    ensures Succeeded([AddItem(EMPTY_ITEM)], [Ok(())]) == [EMPTY_ITEM]
  {
    hide Reported, Succeeded, Holdable, Accepts;
    EmptiesHoldable(66, 1);
    assert Empties(1) == [EMPTY_ITEM];
    var ops, results := HoldableIsRun(66, 1, Empties(1));
    assert ops == [AddItem(EMPTY_ITEM)] && results == [Ok(())];
  }
}
