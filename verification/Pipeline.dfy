/** The pipelined batch client: a window of in-flight batches under a byte budget,
    against a peer that may answer in any order. */
module Pipeline {
  import opened Wire
  import opened PackedLayout
  import opened Batch
  import opened XorShift
  import Increment

  const MAX_BATCH_ITEMS: nat := 1000
  const BATCH_BUF_SIZE: nat := 1000 * 48 + 4096
  const HEADER_SIZE: nat := 32
  const MAX_DEPTH: nat := 128

  datatype Slot = Slot(messageId: u64, batchSize: nat, inflightBytes: nat, active: bool)

  const EMPTY_SLOT := Slot(0, 0, 0, false)

  /** The variables of one cycle. `counter` and `total` are the run's item counters,
      kept unbounded; the client's 64-bit variables are their values modulo 2^64. */
  datatype Cycle = Cycle(
    slots: seq<Slot>, sent: nat, received: nat, outstanding: nat, inflightBytes: nat, counter: nat, total: nat)

  // -------------------------------------------------------------------------
  //  What the slots account for
  // -------------------------------------------------------------------------

  function Actives(slots: seq<Slot>): (n: nat)
  {
    if slots == [] then 0 else Actives(slots[..|slots| - 1]) + if slots[|slots| - 1].active then 1 else 0
  }

  function ActiveBytes(slots: seq<Slot>): (n: nat)
  {
    if slots == [] then 0
    else ActiveBytes(slots[..|slots| - 1]) + if slots[|slots| - 1].active then slots[|slots| - 1].inflightBytes else 0
  }

  function ActiveItems(slots: seq<Slot>): (n: nat)
  {
    if slots == [] then 0
    else ActiveItems(slots[..|slots| - 1]) + if slots[|slots| - 1].active then slots[|slots| - 1].batchSize else 0
  }

  /** Items of all the batches in the slots, answered or not. */
  function Sizes(slots: seq<Slot>): (n: nat)
  {
    if slots == [] then 0 else Sizes(slots[..|slots| - 1]) + slots[|slots| - 1].batchSize
  }

  /** One slot changed, all sums change by its share. */
  lemma {:induction false} UpdateSums(slots: seq<Slot>, k: nat, s: Slot)
    requires k < |slots|
    ensures var t := slots[k := s];
            && Actives(t) + (if slots[k].active then 1 else 0) == Actives(slots) + (if s.active then 1 else 0)
            && ActiveBytes(t) + (if slots[k].active then slots[k].inflightBytes else 0)
               == ActiveBytes(slots) + (if s.active then s.inflightBytes else 0)
            && ActiveItems(t) + (if slots[k].active then slots[k].batchSize else 0)
               == ActiveItems(slots) + (if s.active then s.batchSize else 0)
  {
    var n := |slots| - 1;
    var t := slots[k := s];
    if k < n {
      UpdateSums(slots[..n], k, s);
      assert t[..n] == slots[..n][k := s];
    } else {
      assert t[..n] == slots[..n];
    }
  }

  lemma {:induction false} NoActives(slots: seq<Slot>)
    ensures Actives(slots) == 0 <==> forall k :: 0 <= k < |slots| ==> !slots[k].active
    ensures Actives(slots) == 0 ==> ActiveBytes(slots) == 0 && ActiveItems(slots) == 0
  {
    if slots != [] {
      var n := |slots| - 1;
      NoActives(slots[..n]);
      assert forall k :: 0 <= k < n ==> slots[..n][k] == slots[k];
    }
  }

  lemma {:induction false} SizesMonotone(slots: seq<Slot>, k: nat, m: nat)
    requires k <= m <= |slots| && forall i :: k <= i < m ==> slots[i].batchSize <= MAX_BATCH_ITEMS
    ensures Sizes(slots[..k]) <= Sizes(slots[..m]) <= Sizes(slots[..k]) + MAX_BATCH_ITEMS * (m - k)
    decreases m - k
  {
    if k < m {
      SizesMonotone(slots, k, m - 1);
      assert slots[..m][..m - 1] == slots[..m - 1];
    }
  }

  // -------------------------------------------------------------------------
  //  The cycle invariant
  // -------------------------------------------------------------------------

  /** Bytes a batch of `n` items keeps in flight: request and response, headers included. */
  function BatchCost(n: nat): nat
  {
    (HEADER_SIZE + 16 * n) * 2
  }

  /** The id of the batch in slot `k`, from the counter at the start of the cycle. */
  function MessageId(slots: seq<Slot>, counter0: nat, k: nat): u64
    requires k <= |slots|
  {
    (counter0 + Sizes(slots[..k]) + 1 + k) % U64_LIMIT
  }

  ghost predicate SlotOk(slots: seq<Slot>, counter0: nat, k: nat)
    requires k < |slots|
  {
    && 2 <= slots[k].batchSize <= MAX_BATCH_ITEMS
    && slots[k].inflightBytes == BatchCost(slots[k].batchSize)
    && slots[k].messageId == MessageId(slots, counter0, k)
  }

  /** What holds in every state a cycle reaches, whatever the peer does. */
  ghost predicate Inv(c: Cycle, depth: nat, budget: nat, counter0: nat, total0: nat)
  {
    && |c.slots| == depth <= MAX_DEPTH && c.sent <= depth
    && c.received + c.outstanding == c.sent
    && c.outstanding == Actives(c.slots)
    && c.inflightBytes == ActiveBytes(c.slots)
    && c.counter == counter0 + Sizes(c.slots[..c.sent])
    && c.counter + total0 == counter0 + c.total + ActiveItems(c.slots)
    && (c.inflightBytes <= budget || c.outstanding <= 1)
    && (forall k :: 0 <= k < c.sent ==> SlotOk(c.slots, counter0, k))
    && (forall k :: c.sent <= k < depth ==> !c.slots[k].active)
  }

  function Start(depth: nat, counter0: nat, total0: nat): Cycle
  {
    Cycle(seq(depth, i => EMPTY_SLOT), 0, 0, 0, 0, counter0, total0)
  }

  lemma StartInv(depth: nat, budget: nat, counter0: nat, total0: nat)
    requires depth <= MAX_DEPTH
    ensures Inv(Start(depth, counter0, total0), depth, budget, counter0, total0)
  {
    NoActives(Start(depth, counter0, total0).slots);
  }

  lemma ModDistinct(a: nat, b: nat)
    requires a < b < a + U64_LIMIT
    ensures a % U64_LIMIT != b % U64_LIMIT
  {
  }

  /** Ids of batches sent in one cycle are pairwise distinct, also across the wrap of the
      64-bit id. */
  lemma IdsDistinct(c: Cycle, depth: nat, budget: nat, counter0: nat, total0: nat, j: nat, k: nat)
    requires Inv(c, depth, budget, counter0, total0) && j < k <= c.sent
    ensures MessageId(c.slots, counter0, j) != MessageId(c.slots, counter0, k)
  {
    hide Sizes, Actives, ActiveBytes, ActiveItems, BatchCost;
    forall i | j <= i < k
      ensures c.slots[i].batchSize <= MAX_BATCH_ITEMS
    {
      assert SlotOk(c.slots, counter0, i);
    }
    SizesMonotone(c.slots, j, k);
    ModDistinct(counter0 + Sizes(c.slots[..j]) + 1 + j, counter0 + Sizes(c.slots[..k]) + 1 + k);
  }

  // -------------------------------------------------------------------------
  //  Receiving one response
  // -------------------------------------------------------------------------

  /** The first active slot waiting for `id`. */
  function Position(slots: seq<Slot>, id: u64): (r: Option<nat>)
    ensures r.Some? ==> r.value < |slots| && slots[r.value].active && slots[r.value].messageId == id
    ensures r.None? ==> forall k :: 0 <= k < |slots| && slots[k].active ==> slots[k].messageId != id
  {
    if slots == [] then None
    else
      var n := |slots| - 1;
      match Position(slots[..n], id)
      case Some(k) => Some(k)
      case None => if slots[n].active && slots[n].messageId == id then Some(n) else None
  }

  /** Retiring the batch in slot `k`. */
  function Retire(c: Cycle, k: nat): Cycle
    requires k < |c.slots| && c.slots[k].inflightBytes <= c.inflightBytes && c.outstanding > 0
  {
    c.(inflightBytes := c.inflightBytes - c.slots[k].inflightBytes,
       total := c.total + c.slots[k].batchSize,
       slots := c.slots[k := c.slots[k].(active := false)],
       outstanding := c.outstanding - 1,
       received := c.received + 1)
  }

  /** Changing only the active flag changes neither sizes nor ids. */
  lemma {:induction false} DeactivateKeepsSizes(slots: seq<Slot>, k: nat, m: nat)
    requires k < |slots| && m <= |slots|
    ensures Sizes(slots[k := slots[k].(active := false)][..m]) == Sizes(slots[..m])
    decreases m
  {
    if m > 0 {
      DeactivateKeepsSizes(slots, k, m - 1);
      var t := slots[k := slots[k].(active := false)];
      assert t[..m][..m - 1] == t[..m - 1] && slots[..m][..m - 1] == slots[..m - 1];
    }
  }

  lemma RetireEnabled(c: Cycle, depth: nat, budget: nat, counter0: nat, total0: nat, k: nat)
    requires Inv(c, depth, budget, counter0, total0) && k < depth && c.slots[k].active
    ensures c.slots[k].inflightBytes <= c.inflightBytes && c.outstanding > 0 && k < c.sent
  {
    UpdateSums(c.slots, k, c.slots[k].(active := false));
  }

  lemma RetireKeepsInv(c: Cycle, depth: nat, budget: nat, counter0: nat, total0: nat, k: nat)
    requires Inv(c, depth, budget, counter0, total0) && k < depth && c.slots[k].active
    requires c.slots[k].inflightBytes <= c.inflightBytes && c.outstanding > 0
    ensures Inv(Retire(c, k), depth, budget, counter0, total0)
  {
    hide Actives, ActiveBytes, ActiveItems, Sizes, BatchCost;
    var s := c.slots[k].(active := false);
    var t := c.slots[k := s];
    UpdateSums(c.slots, k, s);
    DeactivateKeepsSizes(c.slots, k, c.sent);
    forall i | 0 <= i < c.sent
      ensures SlotOk(t, counter0, i)
    {
      assert SlotOk(c.slots, counter0, i);
      DeactivateKeepsSizes(c.slots, k, i);
    }
  }

  /** The ids the client is waiting for. */
  function Waiting(slots: seq<Slot>): set<u64>
  {
    set k | 0 <= k < |slots| && slots[k].active :: slots[k].messageId
  }

  /** A response settles exactly its own id: one slot is retired, and no other slot waits
      for the same id. */
  lemma RetireSettlesOne(c: Cycle, depth: nat, budget: nat, counter0: nat, total0: nat, k: nat)
    requires Inv(c, depth, budget, counter0, total0) && k < depth && c.slots[k].active
    requires c.slots[k].inflightBytes <= c.inflightBytes && c.outstanding > 0
    ensures Waiting(Retire(c, k).slots) == Waiting(c.slots) - {c.slots[k].messageId}
    ensures Position(Retire(c, k).slots, c.slots[k].messageId).None?
  {
    hide Sizes, Actives, ActiveBytes, ActiveItems, MessageId, Position;
    var id, t := c.slots[k].messageId, Retire(c, k).slots;
    forall j | 0 <= j < depth && j != k && c.slots[j].active
      ensures c.slots[j].messageId != id
    {
      assert SlotOk(c.slots, counter0, j) && SlotOk(c.slots, counter0, k);
      IdsDistinct(c, depth, budget, counter0, total0, if j < k then j else k, if j < k then k else j);
    }
    forall w
      ensures w in Waiting(t) <==> w in Waiting(c.slots) && w != id
    {
      if w in Waiting(t) {
        var j :| 0 <= j < |t| && t[j].active && t[j].messageId == w;
        assert c.slots[j].active && j != k;
      }
      if w in Waiting(c.slots) && w != id {
        var j :| 0 <= j < depth && c.slots[j].active && c.slots[j].messageId == w;
        assert t[j].active && t[j].messageId == w;
      }
    }
  }

  // -------------------------------------------------------------------------
  //  Sending one batch
  // -------------------------------------------------------------------------

  function Sent(c: Cycle, size: nat): Cycle
    requires c.sent < |c.slots|
  {
    c.(slots := c.slots[c.sent := Slot((c.counter + 1 + c.sent) % U64_LIMIT, size, BatchCost(size), true)],
       inflightBytes := c.inflightBytes + BatchCost(size),
       outstanding := c.outstanding + 1,
       counter := c.counter + size,
       sent := c.sent + 1)
  }

  lemma SizesNext(slots: seq<Slot>, n: nat)
    requires n < |slots|
    ensures Sizes(slots[..n + 1]) == Sizes(slots[..n]) + slots[n].batchSize
  {
    assert slots[..n + 1][..n] == slots[..n];
  }

  lemma SentKeepsInv(c: Cycle, depth: nat, budget: nat, counter0: nat, total0: nat, size: nat)
    requires Inv(c, depth, budget, counter0, total0) && c.sent < depth
    requires 2 <= size <= MAX_BATCH_ITEMS
    requires c.outstanding == 0 || c.inflightBytes + BatchCost(size) <= budget
    ensures Inv(Sent(c, size), depth, budget, counter0, total0)
  {
    hide Actives, ActiveBytes, ActiveItems, Sizes, BatchCost;
    var n := c.sent;
    var t := Sent(c, size).slots;
    UpdateSums(c.slots, n, t[n]);
    NoActives(c.slots);
    SizesNext(t, n);
    assert t[..n] == c.slots[..n];
    forall k | 0 <= k < n + 1
      ensures SlotOk(t, counter0, k)
    {
      assert t[..k] == c.slots[..k];
      assert k < n ==> SlotOk(c.slots, counter0, k);
    }
  }

  lemma SentWaiting(c: Cycle, size: nat)
    requires c.sent < |c.slots| && !c.slots[c.sent].active
    ensures Waiting(Sent(c, size).slots) == Waiting(c.slots) + {(c.counter + 1 + c.sent) % U64_LIMIT}
  {
    var t, id := Sent(c, size).slots, (c.counter + 1 + c.sent) % U64_LIMIT;
    assert t[c.sent].active && t[c.sent].messageId == id;
    forall w
      ensures w in Waiting(t) <==> w in Waiting(c.slots) || w == id
    {
      if w in Waiting(c.slots) {
        var j :| 0 <= j < |c.slots| && c.slots[j].active && c.slots[j].messageId == w;
        assert t[j] == c.slots[j];
      }
      if w in Waiting(t) {
        var j :| 0 <= j < |t| && t[j].active && t[j].messageId == w;
        assert j != c.sent ==> t[j] == c.slots[j];
      }
    }
  }

  // -------------------------------------------------------------------------
  //  The environment
  // -------------------------------------------------------------------------

  /** What a receive returns: the id of a response, or an error. */
  datatype Reply = Answer(id: u64) | Lost

  /** A peer: given how often it was asked and the requests it has not answered yet, it
      answers some id, one of those or not, or fails. */
  type Peer = (nat, set<u64>) -> Reply

  /** A peer that answers each request once, in any order. */
  ghost predicate Fair(peer: Peer)
  {
    forall n: nat, open: set<u64> :: open != {} ==> peer(n, open).Answer? && peer(n, open).id in open
  }

  // -------------------------------------------------------------------------
  //  Building a request
  // -------------------------------------------------------------------------

  /** The counters a batch of `n` items carries. */
  function Counters(counter: nat, n: nat): (vs: seq<u64>)
    ensures |vs| == n
  {
    seq(n, i requires 0 <= i < n => (counter + i) % U64_LIMIT)
  }

  /** Builds the request in place. With a batch size the client can draw, no add fails
      and the batch takes exactly 16 bytes per item. */
  method FillBatch(buf: array<byte>, counter: nat, size: nat) returns (ok: bool, len: nat)
    requires 2 <= size <= MAX_BATCH_ITEMS && buf.Length == BATCH_BUF_SIZE
    modifies buf
    ensures ok && len == 16 * size
    ensures buf[..len] == BatchBytes(Increment.Payloads(Counters(counter, size)))
  {
    hide Dir, Pack, Holds, AlignedTotal, Increment.Payloads, Increment.Encode, BatchBytes;
    var builder := new BatchBuilder(buf, size);
    assert Increment.Payloads(Counters(counter, 0)) == [];
    ok := true;
    for i := 0 to size
      invariant ok
      invariant fresh(builder) && builder.buf == buf && builder.maxItems == size && builder.Valid()
      invariant builder.items == Increment.Payloads(Counters(counter, i))
    {
      Increment.PayloadsSize(Counters(counter, i));
      var added := builder.Add(Increment.Encode((counter + i) % U64_LIMIT));
      ok := ok && added.Ok?;
      Increment.PayloadsSnoc(Counters(counter, i), (counter + i) % U64_LIMIT);
      assert Counters(counter, i + 1) == Counters(counter, i) + [(counter + i) % U64_LIMIT];
    }
    Increment.PayloadsSize(Counters(counter, size));
    var count;
    len, count := builder.Finish();
  }

  // -------------------------------------------------------------------------
  //  One cycle
  // -------------------------------------------------------------------------

  /** Handles one receive: retires the slot that waits for the id, or fails. */
  method HandleReply(c: Cycle, reply: Reply, ghost depth: nat, ghost budget: nat, ghost counter0: nat,
                     ghost total0: nat)
    returns (c': Cycle, ok: bool)
    requires Inv(c, depth, budget, counter0, total0)
    ensures Inv(c', depth, budget, counter0, total0)
    ensures ok <==> reply.Answer? && reply.id in Waiting(c.slots)
    ensures if ok then c'.sent == c.sent && c'.received == c.received + 1 && c'.counter == c.counter
                       && Waiting(c'.slots) == Waiting(c.slots) - {reply.id}
                  else c' == c
  {
    hide Actives, ActiveBytes, ActiveItems, Sizes, SlotOk;
    if reply.Lost? {
      return c, false;
    }
    match Position(c.slots, reply.id) {
      case None => return c, false;
      case Some(matched) =>
        RetireEnabled(c, depth, budget, counter0, total0, matched);
        RetireKeepsInv(c, depth, budget, counter0, total0, matched);
        RetireSettlesOne(c, depth, budget, counter0, total0, matched);
        return Retire(c, matched), true;
    }
  }

  lemma WaitingWhileOutstanding(slots: seq<Slot>)
    requires Actives(slots) > 0
    ensures Waiting(slots) != {}
  {
    NoActives(slots);
    var k :| 0 <= k < |slots| && slots[k].active;
    assert slots[k].messageId in Waiting(slots);
  }

  /** Receives until the next batch of `cost` bytes fits the budget or nothing is
      outstanding. `open` are the requests the peer has not answered. */
  method MakeRoom(c: Cycle, cost: nat, depth: nat, budget: nat, peer: Peer, asked: nat, open: set<u64>,
                  ghost counter0: nat, ghost total0: nat)
    returns (c': Cycle, ok: bool, asked': nat, open': set<u64>)
    requires Inv(c, depth, budget, counter0, total0) && open == Waiting(c.slots)
    ensures Inv(c', depth, budget, counter0, total0)
    ensures c'.sent == c.sent && c'.received >= c.received
    ensures ok ==> open' == Waiting(c'.slots) && (c'.outstanding == 0 || c'.inflightBytes + cost <= budget)
    ensures Fair(peer) ==> ok
  {
    hide Actives, ActiveBytes, ActiveItems, Sizes, SlotOk, Waiting;
    c', asked', open', ok := c, asked, open, true;
    while c'.outstanding > 0 && c'.inflightBytes + cost > budget
      invariant ok && Inv(c', depth, budget, counter0, total0) && open' == Waiting(c'.slots)
      invariant c'.sent == c.sent && c'.received >= c.received
      decreases c'.outstanding
    {
      WaitingWhileOutstanding(c'.slots);
      var reply := peer(asked', open');
      asked' := asked' + 1;
      c', ok := HandleReply(c', reply, depth, budget, counter0, total0);
      if !ok {
        return;
      }
      open' := open' - {reply.id};
    }
  }

  /** One cycle of the client: send `depth` batches, receive `depth` responses. */
  method RunCycle(depth: nat, budget: nat, bufs: seq<array<byte>>, rng: XorShift32, counter0: nat, total0: nat,
                  peer: Peer, sendOk: nat -> bool)
    returns (c: Cycle, ok: bool)
    requires depth == |bufs| <= MAX_DEPTH && forall i :: 0 <= i < |bufs| ==> bufs[i].Length == BATCH_BUF_SIZE
    requires rng.Valid()
    modifies rng, set i | 0 <= i < |bufs| :: bufs[i]
    ensures rng.Valid()
    ensures Inv(c, depth, budget, counter0, total0)
    ensures ok ==> c.sent == c.received == depth && Waiting(c.slots) == {} && c.inflightBytes == 0
                   && c.counter + total0 == counter0 + c.total
    ensures Fair(peer) && (forall k :: sendOk(k)) ==> ok
  {
    hide Actives, ActiveBytes, ActiveItems, Sizes, SlotOk, Waiting;
    c := Start(depth, counter0, total0);
    StartInv(depth, budget, counter0, total0);
    var open: set<u64> := {};
    StartWaiting(depth, counter0, total0);
    var asked := 0;
    while c.received < depth
      invariant rng.Valid() && Inv(c, depth, budget, counter0, total0) && open == Waiting(c.slots)
      decreases (depth - c.sent) + (depth - c.received)
    {
      if c.sent < depth {
        var draw := rng.Next();
        var size := draw % (MAX_BATCH_ITEMS - 1) + 2;
        var built, len := FillBatch(bufs[c.sent], c.counter, size);
        if !built {
          return c, false;
        }
        var cost := (HEADER_SIZE + len) * 2;
        var room;
        c, room, asked, open := MakeRoom(c, cost, depth, budget, peer, asked, open, counter0, total0);
        if !room {
          return c, false;
        }
        if !sendOk(c.sent) {
          return c, false;
        }
        SentKeepsInv(c, depth, budget, counter0, total0, size);
        SentWaiting(c, size);
        open := open + {(c.counter + 1 + c.sent) % U64_LIMIT};
        c := Sent(c, size);
      } else {
        WaitingWhileOutstanding(c.slots);
        var reply := peer(asked, open);
        asked := asked + 1;
        var handled;
        c, handled := HandleReply(c, reply, depth, budget, counter0, total0);
        if !handled {
          return c, false;
        }
        open := open - {reply.id};
      }
    }
    NothingOutstanding(c.slots);
    ok := true;
  }

  lemma StartWaiting(depth: nat, counter0: nat, total0: nat)
    ensures Waiting(Start(depth, counter0, total0).slots) == {}
  {
  }

  lemma NothingOutstanding(slots: seq<Slot>)
    requires Actives(slots) == 0
    ensures Waiting(slots) == {} && ActiveBytes(slots) == 0 && ActiveItems(slots) == 0
  {
    NoActives(slots);
  }

  // -------------------------------------------------------------------------
  //  The whole run
  // -------------------------------------------------------------------------

  /** Runs cycles until the deadline (after `cycles` of them) or the first failure. Every
      item sent in a completed run has been received; against fair peers and a working
      link the run completes. */
  method RunClient(depth: nat, packetSize: u32, cycles: nat, peers: nat -> Peer, sends: nat -> (nat -> bool))
    returns (counter: nat, total: nat, errors: nat)
    ensures total <= counter
    ensures errors == 0 ==> counter == total
    ensures (forall n :: Fair(peers(n)) && forall k :: sends(n)(k)) ==> errors == 0
  {
    hide Inv, Fair;
    var d := if depth <= MAX_DEPTH then depth else MAX_DEPTH;
    var bufs := NewBuffers(d);
    var rng := new XorShift32();
    counter, total, errors := 0, 0, 0;
    for n := 0 to cycles
      invariant rng.Valid() && counter == total && errors == 0
      invariant fresh(rng) && forall i :: 0 <= i < |bufs| ==> fresh(bufs[i])
    {
      var c, ok := RunCycle(d, packetSize * 2, bufs, rng, counter, total, peers(n), sends(n));
      CounterAhead(c, d, packetSize * 2, counter, total);
      counter, total := c.counter, c.total;
      if !ok {
        errors := 1;
        return;
      }
    }
  }

  lemma CounterAhead(c: Cycle, depth: nat, budget: nat, counter0: nat, total0: nat)
    requires Inv(c, depth, budget, counter0, total0) && counter0 == total0
    ensures c.total <= c.counter
  {
  }

  method NewBuffers(n: nat) returns (bufs: seq<array<byte>>)
    ensures |bufs| == n && forall i :: 0 <= i < n ==> fresh(bufs[i]) && bufs[i].Length == BATCH_BUF_SIZE
  {
    bufs := [];
    for i := 0 to n
      invariant |bufs| == i && forall k :: 0 <= k < i ==> fresh(bufs[k]) && bufs[k].Length == BATCH_BUF_SIZE
    {
      var b := new byte[BATCH_BUF_SIZE](_ => 0);
      bufs := bufs + [b];
    }
  }
}
