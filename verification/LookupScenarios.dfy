/** Whole lookup calls: client and server composed, and the calls that show what the rules cost. */
module LookupScenarios {
  import opened Wire
  import opened PackedLayout
  import opened LookupItem
  import opened LookupCodec
  import opened LookupReply
  import opened LookupBuilding
  import opened LookupRequests
  import opened LookupStitching
  import opened HonestLookup
  import opened LookupTrace
  import opened LogicalLookup

  // -------------------------------------------------------------------------
  //  One handler, one limit
  // -------------------------------------------------------------------------

  /** A server that runs one handler, reached without failures under a fixed request limit. */
  function OneHandler(t: Truth, limit: u32): World
  {
    World((n, req) => Reply(req, t.size, t.generation, t.answer), n => limit, n => limit, n => None, n => false,
          n => None)
  }

  /** Every single path can be asked for under `limit`. */
  ghost predicate Askable(paths: seq<seq<byte>>, limit: u32)
  {
    forall i :: 0 <= i < |paths| ==> |RequestBytes([paths[i]])| <= Cap(limit)
  }

  /** A server with room for every part of the request that fits the limit, and paths whose
      placeholder the wire can represent. */
  ghost predicate Servable(paths: seq<seq<byte>>, t: Truth, limit: u32)
  {
    && AllPathsOk(paths) && Definite(paths, t) && Answered([], t) && RoomUnder(paths, t, limit)
    && |paths| < U32_LIMIT && forall i :: 0 <= i < |paths| ==> PlaceholderLen(paths[i]) < U32_LIMIT
  }

  lemma OneLimit(t: Truth, limit: u32, l: u32)
    ensures SessionLimit(OneHandler(t, limit), limit, l) ==> l == limit
    ensures ConfiguredLimit(OneHandler(t, limit), limit, l) ==> l == limit
  {
    hide Reply;
  }

  lemma OneHandlerReaches(t: Truth, limit: u32, path: seq<byte>)
    requires PathOk(path) && PlaceholderLen(path) < U32_LIMIT
    ensures Reachable(OneHandler(t, limit), limit, limit, path)
  {
    hide RequestBytes, SessionLimit, ConfiguredLimit, RoomAfter, PathOk, OneHandler;
    forall l
      ensures SessionLimit(OneHandler(t, limit), limit, l) ==> l == limit
      ensures ConfiguredLimit(OneHandler(t, limit), limit, l) ==> l == limit
    {
      OneLimit(t, limit, l);
    }
  }

  lemma OneHandlerIsHonest(t: Truth, limit: u32)
    ensures Honest(OneHandler(t, limit), t)
  {
    hide Reply;
  }

  lemma TurnsUnderOneLimit(t: Truth, limit: u32, turns: seq<Turn>)
    requires LimitsSeen(OneHandler(t, limit), limit, limit, turns)
    ensures AllUnder(turns, limit, limit)
  {
    hide SessionLimit, ConfiguredLimit, OneHandler;
    forall i | 0 <= i < |turns|
      ensures turns[i].limit == limit && (turns[i].StoodIn? ==> turns[i].configured == limit)
    {
      OneLimit(t, limit, turns[i].limit);
      if turns[i].StoodIn? {
        OneLimit(t, limit, turns[i].configured);
      }
    }
  }

  /** The exchanges a call makes under one limit, in terms of its inputs. */
  ghost function Needed(paths: seq<seq<byte>>, t: Truth, limit: u32): nat
  {
    Subcalls(Exchanges(paths, t, limit, limit, 0))
  }

  /** A complete call made the exchanges its inputs determine; one that ran out would need more. */
  lemma NeededExactly(paths: seq<seq<byte>>, t: Truth, limit: u32, turns: seq<Turn>, outcome: seq<seq<byte>>)
    requires Servable(paths, t, limit) && Traced(turns, outcome, paths, t) && AllUnder(turns, limit, limit)
    ensures |outcome| == |paths| ==> Needed(paths, t, limit) == Subcalls(turns)
    ensures |outcome| < |paths| && |RequestBytes([paths[|outcome|]])| <= Cap(limit) ==>
              Needed(paths, t, limit) > Asks(turns)
  {
    hide RequestBytes, Exchanges, TurnOk, Cap, Asks, LongestCount, Answered, Definite, AllPathsOk, PathOk,
         PlaceholderLen;
    ExchangesFrom(turns, outcome, paths, t, limit, limit, 0);
    var n := |outcome|;
    assert turns[..0] == [] && turns[0..] == turns;
    if n == |paths| {
      NoExchanges(paths, t, limit, limit);
      assert turns + [] == turns;
    } else if |RequestBytes([paths[n]])| <= Cap(limit) {
      LongestAnswered(paths, t, limit, n);
      NextIsAsked(paths, t, limit, limit, n);
      MoreSubcalls(turns, Exchanges(paths, t, limit, limit, n));
    }
  }

  lemma LongestAnswered(paths: seq<seq<byte>>, t: Truth, limit: u32, start: nat)
    requires RoomUnder(paths, t, limit) && start < |paths| && |RequestBytes([paths[start]])| <= Cap(limit)
    ensures Answered(paths[start..start + LongestCount(paths[start..], limit, |paths| - start)], t)
  {
    hide RequestBytes, Cap, LongestCount, Answered;
    var rest := paths[start..];
    LongestPositive(rest, limit, |rest|);
    LongestFits(rest, limit, |rest|);
    var count := LongestCount(rest, limit, |rest|);
    assert rest[..count] == paths[start..start + count];
  }

  /** Item `j` is the oversized mark if the inputs say so, and the handler's answer if not. */
  ghost predicate AsInputsSay(raw: seq<byte>, paths: seq<seq<byte>>, t: Truth, limit: u32, j: nat)
    requires j < |paths|
  {
    && (Marked(raw, paths[j]) <==> MarkedBy(paths, t, limit, limit, j))
    && (Exact(raw, paths[j], t) <==> !MarkedBy(paths, t, limit, limit, j))
  }

  /** A response with one item for every path, each as the inputs say. */
  ghost predicate Gives(v: LookupView, paths: seq<seq<byte>>, t: Truth, limit: u32)
  {
    && AcceptedResponse(v) && v.itemCount == |paths| && v.generation == t.generation
    && forall j :: 0 <= j < |paths| ==> AsInputsSay(RawItem(v, j), paths, t, limit, j)
  }

  /** A response of these raw items. */
  ghost predicate Carries(v: LookupView, raws: seq<seq<byte>>)
  {
    AcceptedResponse(v) && v.itemCount == |raws| && forall j :: 0 <= j < |raws| ==> RawItem(v, j) == raws[j]
  }

  lemma DecidedByInputs(turns: seq<Turn>, outcome: seq<seq<byte>>, paths: seq<seq<byte>>, t: Truth, limit: u32)
    requires Definite(paths, t) && Traced(turns, outcome, paths, t) && AllUnder(turns, limit, limit)
    ensures |outcome| <= |paths| && forall j :: 0 <= j < |outcome| ==> AsInputsSay(outcome[j], paths, t, limit, j)
  {
    hide Definite, Traced, AllUnder, Marked, Exact, MarkedBy;
    TracedLength(turns, outcome, paths, t);
    forall j | 0 <= j < |outcome|
      ensures AsInputsSay(outcome[j], paths, t, limit, j)
    {
      MarkedByInputs(turns, outcome, paths, t, limit, limit, j);
    }
  }

  /** A client and a server that runs one handler, under one limit: the call fails exactly when it
      needs more exchanges or bytes than the caller allows, and for every path the inputs alone
      decide whether the caller gets the handler's answer or the oversized mark. */
  method LookupUnderLimit(paths: seq<seq<byte>>, t: Truth, limit: u32, maxSubcalls: u32, maxResponseBytes: u32)
    returns (r: Result<LookupView>, ghost outcome: seq<seq<byte>>, ghost turns: seq<Turn>)
    requires Servable(paths, t, limit)
    ensures |outcome| <= |paths| && (Needed(paths, t, limit) <= maxSubcalls ==> |outcome| == |paths|)
    ensures forall j :: 0 <= j < |outcome| ==> AsInputsSay(outcome[j], paths, t, limit, j)
    ensures r.Ok? <==> && Needed(paths, t, limit) <= maxSubcalls
                       && |ResponseBytes(t.generation, outcome)| <= maxResponseBytes
    ensures r.Ok? ==> Needed(paths, t, limit) <= maxSubcalls && Gives(r.value, paths, t, limit)
    ensures r.Ok? ==> Carries(r.value, outcome)
    ensures Traced(turns, outcome, paths, t) && AllUnder(turns, limit, limit)
  {
    hide RequestBytes, ResponseBytes, AcceptedResponse, RawItem, Gathered, Traced, Answered, Marked, Exact, MarkedBy,
         Reachable, Honest, RoomUnder, Definite, Believable, LimitsSeen, AllUnder, PathOk, OneHandler, SessionLimit,
         Needed, Subcalls, Asks, Cap, AllPathsOk, PlaceholderLen, AsInputsSay;
    var world := OneHandler(t, limit);
    var client := new LookupClient(world, limit, |paths|, maxSubcalls, maxResponseBytes, limit);
    OneHandlerIsHonest(t, limit);
    ServableIsFriendly(paths, t, limit);
    FriendlyIsBelievable(world, paths, t);
    r, outcome, turns := client.Call(paths, t);
    TurnsUnderOneLimit(t, limit, turns);
    OneLimit(t, limit, client.sessionLimit);
    NeededExactly(paths, t, limit, turns, outcome);
    DecidedByInputs(turns, outcome, paths, t, limit);
  }

  /** As many exchanges as paths, and one for none, always suffice. */
  lemma NeededBound(paths: seq<seq<byte>>, t: Truth, limit: u32)
    ensures Needed(paths, t, limit) <= if paths == [] then 1 else |paths|
  {
    hide Exchanges, Asks;
    SubcallsBound(paths, t, limit, limit, 0);
    NoAsks();
    if paths == [] {
      NoExchanges(paths, t, limit, limit);
    }
  }

  lemma ServableIsFriendly(paths: seq<seq<byte>>, t: Truth, limit: u32)
    requires Servable(paths, t, limit)
    ensures forall l :: SessionLimit(OneHandler(t, limit), limit, l) ==> RoomUnder(paths, t, l)
    ensures forall i :: 0 <= i < |paths| ==> Reachable(OneHandler(t, limit), limit, limit, paths[i])
    ensures forall n :: !OneHandler(t, limit).aborted(n)
  {
    hide Reachable, SessionLimit, RoomUnder, PathOk, Definite, Answered, Reply;
    forall l | SessionLimit(OneHandler(t, limit), limit, l)
      ensures RoomUnder(paths, t, l)
    {
      OneLimit(t, limit, l);
    }
    forall i | 0 <= i < |paths|
      ensures Reachable(OneHandler(t, limit), limit, limit, paths[i])
    {
      OneHandlerReaches(t, limit, paths[i]);
    }
  }

  // -------------------------------------------------------------------------
  //  When every answer fits
  // -------------------------------------------------------------------------

  function AllAnswers(paths: seq<seq<byte>>, t: Truth): (items: seq<Item>)
    ensures |items| == |paths| && forall i :: 0 <= i < |paths| ==> items[i] == AsItem(paths[i], t.answer(paths[i]))
  {
    seq(|paths|, i requires 0 <= i < |paths| => AsItem(paths[i], t.answer(paths[i])))
  }

  /** Every answer fits in every exchange that can open with it. */
  ghost predicate AllSnug(paths: seq<seq<byte>>, t: Truth, limit: u32)
  {
    forall j :: 0 <= j < |paths| ==> SnugUnder(paths, j, t, limit)
  }

  lemma SnugEncodable(path: seq<byte>, t: Truth)
    requires Answered([path], t) && Snug(path, 1, Reserved(Lens([path]), 1), t)
    ensures Encodable(AsItem(path, t.answer(path)))
  {
    hide ItemBytes, Reserved, NoNul, LabelsOk;
    var x := AsItem(path, t.answer(path));
    assert [path][0] == path;
    if x.status != KNOWN {
      ReservedCovers(Lens([path]), 0);
      PlaceholderEncodable(x.status, path);
    } else {
      AnswerEncodable(path, t.answer(path));
    }
  }

  lemma AnswersEncodable(paths: seq<seq<byte>>, t: Truth, limit: u32, j: nat)
    requires RoomUnder(paths, t, limit) && Askable(paths, limit) && AllSnug(paths, t, limit) && j < |paths|
    ensures Encodable(AsItem(paths[j], t.answer(paths[j])))
  {
    hide RequestBytes, Answered, Snug, Encodable, Reserved, Lens;
    assert paths[j..j + 1] == [paths[j]];
    assert SnugUnder(paths, j, t, limit);
    assert SnugIn(paths, j, 1, t);
    SnugEncodable(paths[j], t);
  }

  lemma ExactOutcome(turns: seq<Turn>, outcome: seq<seq<byte>>, paths: seq<seq<byte>>, t: Truth, limit: u32)
    requires Definite(paths, t) && |outcome| == |paths| && Traced(turns, outcome, paths, t)
    requires AllUnder(turns, limit, limit) && Askable(paths, limit) && AllSnug(paths, t, limit)
    ensures outcome == Raws(AllAnswers(paths, t))
  {
    hide ItemBytes, Definite, RequestBytes, AskedOk, Marked, SnugUnder;
    forall j | 0 <= j < |paths|
      ensures outcome[j] == Raws(AllAnswers(paths, t))[j]
    {
      TracedSnug(turns, outcome, paths, t, j);
      forall i | 0 <= i < |turns| && turns[i].start == j
        ensures !turns[i].StoodIn?
      {
        assert TurnOk(turns[i], outcome, paths, t);
      }
    }
  }

  lemma ReadsAnswers(paths: seq<seq<byte>>, t: Truth, limit: u32, v: LookupView)
    requires RoomUnder(paths, t, limit) && Askable(paths, limit) && AllSnug(paths, t, limit)
    requires AcceptedResponse(v) && v.itemCount == |paths|
    requires forall i :: 0 <= i < |paths| ==> RawItem(v, i) == Raws(AllAnswers(paths, t))[i]
    ensures forall i :: 0 <= i < |paths| ==> ViewItem(v, i) == ViewOf(AsItem(paths[i], t.answer(paths[i])))
  {
    hide DecodeResponse, DecodeItem, AcceptedResponse, RoomUnder, Askable, AllSnug, ItemBytes, Encodable, RawItem;
    forall i | 0 <= i < |paths|
      ensures ViewItem(v, i) == ViewOf(AsItem(paths[i], t.answer(paths[i])))
    {
      AnswersEncodable(paths, t, limit, i);
      ItemRoundTrip(AsItem(paths[i], t.answer(paths[i])));
    }
  }

  /** When every answer fits in every exchange that can open with it, and the whole result within
      the caller's limit, the caller sees exactly the handler's answers, in order. Only the parts
      that fit one request need to fit the reply buffer, never the whole. */
  method LookupEndToEnd(paths: seq<seq<byte>>, t: Truth, limit: u32, maxSubcalls: u32, maxResponseBytes: u32)
    returns (r: Result<LookupView>)
    requires Servable(paths, t, limit) && Askable(paths, limit) && AllSnug(paths, t, limit)
    requires Needed(paths, t, limit) <= maxSubcalls
    requires |ResponseBytes(t.generation, Raws(AllAnswers(paths, t)))| <= maxResponseBytes
    ensures r.Ok? && AcceptedResponse(r.value)
    ensures r.value.itemCount == |paths| && r.value.generation == t.generation
    ensures forall i :: 0 <= i < |paths| ==> ViewItem(r.value, i) == ViewOf(AsItem(paths[i], t.answer(paths[i])))
  {
    hide RequestBytes, ResponseBytes, DecodeResponse, DecodeItem, AcceptedResponse, Traced, Answered, AllSnug, Askable,
         RoomUnder, Definite, AllUnder, MarkedBy, ItemBytes;
    ghost var outcome, turns;
    r, outcome, turns := LookupUnderLimit(paths, t, limit, maxSubcalls, maxResponseBytes);
    ExactOutcome(turns, outcome, paths, t, limit);
    ReadsAnswers(paths, t, limit, r.value);
  }

  // -------------------------------------------------------------------------
  //  A request that must be split
  // -------------------------------------------------------------------------

  const THREE_PATHS: seq<seq<byte>> := [[1], [2], [3]]

  lemma FortyByteSize(path: seq<byte>)
    ensures |ItemBytes(AsItem(path, FortyByteName(path)))| == 70 + |path|
  {
    hide Header;
  }

  /** A request for two or more one-byte paths takes more than 26 bytes. */
  lemma OneAtATime(paths: seq<seq<byte>>, a: nat, b: nat)
    requires a < b <= |paths| && |paths[a]| == 1 && |RequestBytes(paths[a..b])| <= 26
    ensures b == a + 1
  {
    hide RequestBytes;
    var part := paths[a..b];
    OnePathRequest(paths[a]);
    RequestGrows(part, 1, |part|);
    assert part[..1] == [paths[a]] && part[..|part|] == part;
  }

  /** A one-byte path alone: room for it and for its answer in 96 bytes. */
  lemma AloneFits(path: seq<byte>, t: Truth)
    requires t == Truth(96, 7, FortyByteName) && |path| == 1 && path[0] != 0
    ensures Answered([path], t) && Snug(path, 1, Reserved(Lens([path]), 1), t)
    ensures |RequestBytes([path])| == 26
  {
    hide RequestBytes, ItemBytes, Reserved;
    TwoPathReservation(path);
    FortyByteSize(path);
    OnePathRequest(path);
    assert forall i :: 0 <= i < |[path]| ==> [path][i] == path;
  }

  lemma EmptyAnswered(t: Truth)
    requires t == Truth(96, 7, FortyByteName)
    ensures Answered([], t)
  {
    ReservedLast(Lens([]));
  }

  lemma ThreeItemSize(raws: seq<seq<byte>>)
    requires |raws| == 3 && |raws[0]| == |raws[1]| == |raws[2]| == 71
    ensures |ResponseBytes(7, raws)| <= 256
  {
    hide ResponseBytes, Pack;
    assert raws == [raws[0]] + ([raws[1]] + [raws[2]]);
    PackCons(raws[0], [raws[1]] + [raws[2]]);
    PackCons(raws[1], [raws[2]]);
    PackCons(raws[2], []);
    assert [raws[2]] + [] == [raws[2]];
    ResponseLength(7, raws);
  }

  lemma ThreePathsTooMany()
    ensures !Roomy(THREE_PATHS, 96)
  {
    var lens := Lens(THREE_PATHS);
    assert Reserved(lens, 3) == 0;
    assert Reserved(lens, 2) == 31;
    assert Reserved(lens, 1) == 63;
  }

  /** The end-to-end conditions are met where the request must be split and the reply buffer takes
      one part but not placeholders for the whole: three paths, a request limit and a reply
      buffer for one of them at a time. */
  lemma SplitExample()
    ensures var t := Truth(96, 7, FortyByteName);
            && Servable(THREE_PATHS, t, 26) && Askable(THREE_PATHS, 26) && AllSnug(THREE_PATHS, t, 26)
            && !Roomy(THREE_PATHS, t.size) && Needed(THREE_PATHS, t, 26) <= 3
            && |ResponseBytes(7, Raws(AllAnswers(THREE_PATHS, t)))| <= 256
  {
    hide RequestBytes, ResponseBytes, ItemBytes, Reserved, Answered, Snug, Roomy, FortyByteName, Lens, Needed;
    var t := Truth(96, 7, FortyByteName);
    EmptyAnswered(t);
    ThreePathsTooMany();
    NeededBound(THREE_PATHS, t, 26);
    forall a | 0 <= a < 3
      ensures |RequestBytes([THREE_PATHS[a]])| == 26
              && |ItemBytes(AsItem(THREE_PATHS[a], t.answer(THREE_PATHS[a])))| == 71
    {
      AloneFits(THREE_PATHS[a], t);
      FortyByteSize(THREE_PATHS[a]);
    }
    forall a, b | 0 <= a < b <= 3 && |RequestBytes(THREE_PATHS[a..b])| <= 26
      ensures Answered(THREE_PATHS[a..b], t) && SnugIn(THREE_PATHS, a, b - a, t)
    {
      OneAtATime(THREE_PATHS, a, b);
      assert THREE_PATHS[a..a + 1] == [THREE_PATHS[a]];
      AloneFits(THREE_PATHS[a], t);
    }
    assert Definite(THREE_PATHS, t) by { ForgetfulAnswers(t); }
    ThreeItemSize(Raws(AllAnswers(THREE_PATHS, t)));
  }

  lemma ForgetfulAnswers(t: Truth)
    requires t.answer == FortyByteName
    ensures forall paths :: Definite(paths, t)
  {
  }

  // -------------------------------------------------------------------------
  //  An answer the caller never gets
  // -------------------------------------------------------------------------

  const TWO_PATHS: seq<seq<byte>> := [[1], [2]]

  /** If the whole request fits one reply, so does every part of it. */
  lemma RoomFromWhole(paths: seq<seq<byte>>, t: Truth, limit: u32)
    requires Answered(paths, t)
    ensures RoomUnder(paths, t, limit)
  {
    hide Answered, RequestBytes;
    forall a, b | 0 <= a < b <= |paths|
      ensures Answered(paths[a..b], t)
    {
      AnsweredSlice(paths, t, a, b);
    }
  }

  lemma TwoPathRequest(paths: seq<seq<byte>>)
    requires |paths| == 2 && |paths[0]| == |paths[1]| == 1
    ensures |RequestBytes(paths)| == 42
  {
    hide RequestBytes, Keys, Pack;
    RequestLength(paths);
    NoKeys(paths);
    PackKeysSnoc(paths, 0);
    PackKeysSnoc(paths, 1);
    assert paths[..2] == paths;
  }

  lemma TwoPathsServable(t: Truth)
    requires t == Truth(96, 7, FortyByteName)
    ensures Servable(TWO_PATHS, t, 64) && Answered(TWO_PATHS, t) && |RequestBytes(TWO_PATHS)| == 42
    ensures Reserved(Lens(TWO_PATHS), 1) == 31 && !Snug([1], 2, 31, t)
  {
    hide RequestBytes, ItemBytes, Reserved;
    FortyByteSize([1]);
    TwoPathRequest(TWO_PATHS);
    assert Reserved(Lens(TWO_PATHS), 1) == 31 && Reserved(Lens(TWO_PATHS), 0) == 63 by { TwoLens(); }
    EmptyAnswered(t);
    RoomFromWhole(TWO_PATHS, t, 64);
  }

  lemma TwoLens()
    ensures Reserved(Lens(TWO_PATHS), 1) == 31 && Reserved(Lens(TWO_PATHS), 0) == 63
  {
    assert Reserved(Lens(TWO_PATHS), 2) == 0;
  }

  /** The first exchange asks for both paths, so the first answer is replaced; the second is not. */
  lemma FirstIsLost(turns: seq<Turn>, outcome: seq<seq<byte>>, t: Truth)
    requires t == Truth(96, 7, FortyByteName) && |outcome| == 2
    requires Traced(turns, outcome, TWO_PATHS, t) && AllUnder(turns, 64, 64)
    ensures Marked(outcome[0], [1]) && Exact(outcome[1], [2], t)
  {
    hide RequestBytes, Snug, Marked, Exact, Reserved, Lens, Answered, AskedOk, FortyByteName;
    TwoPathsServable(t);
    AloneFits([1], t);
    AloneFits([2], t);
    var i := MarkedExactlyWhen(turns, outcome, TWO_PATHS, t, 0);
    var turn := turns[i];
    assert TurnOk(turn, outcome, TWO_PATHS, t);
    if turn.Asked? {
      AskedBounds(0, turn.count, 64, outcome[0..TurnEnd(turn)], TWO_PATHS, t);
      AsksBoth(turn.count);
    }
    var k := MarkedExactlyWhen(turns, outcome, TWO_PATHS, t, 1);
    assert TurnOk(turns[k], outcome, TWO_PATHS, t);
    if turns[k].Asked? {
      AskedBounds(turns[k].start, turns[k].count, 64, outcome[turns[k].start..TurnEnd(turns[k])], TWO_PATHS, t);
    }
    assert TWO_PATHS[0..2] == TWO_PATHS && TWO_PATHS[1..2] == [[2]];
  }

  lemma AsksBoth(count: nat)
    requires Longest(TWO_PATHS[0..], count, 64) && |RequestBytes(TWO_PATHS)| == 42
    ensures count == 2
  {
    hide RequestBytes;
    assert TWO_PATHS[0..] == TWO_PATHS && TWO_PATHS[..2] == TWO_PATHS;
  }

  lemma TwoItemSize(outcome: seq<seq<byte>>, t: Truth)
    requires t == Truth(96, 7, FortyByteName) && |outcome| == 2
    requires Marked(outcome[0], [1]) && Exact(outcome[1], [2], t)
    ensures |ResponseBytes(7, outcome)| <= 256
  {
    hide ResponseBytes, ItemBytes, Pack;
    PlaceholderSize(OVERSIZED_ITEM, [1]);
    FortyByteSize([2]);
    assert outcome == [outcome[0]] + [outcome[1]];
    PackCons(outcome[0], [outcome[1]]);
    PackCons(outcome[1], []);
    assert [outcome[1]] + [] == [outcome[1]];
    ResponseLength(7, outcome);
  }

  /** A whole call whose caller gets the oversized mark for an answer that its server does put in
      a reply of its own: asked for alone, in the same 96 bytes, the first path is answered. */
  method FittingAnswerIsLost() returns (r: Result<LookupView>)
    ensures r.Ok? && AcceptedResponse(r.value) && r.value.itemCount == 2
    ensures var t := Truth(96, 7, FortyByteName);
            && Marked(RawItem(r.value, 0), [1]) && Exact(RawItem(r.value, 1), [2], t)
            && HonestItems([[1]], t) == [AsItem([1], FortyByteName([1]))]
  {
    hide RequestBytes, ResponseBytes, AcceptedResponse, RawItem, Traced, Answered, Marked, Exact, Served, AllUnder,
         MarkedBy, FortyByteName, Servable;
    var t := Truth(96, 7, FortyByteName);
    TwoPathsServable(t);
    NeededBound(TWO_PATHS, t, 64);
    ghost var outcome, turns;
    r, outcome, turns := LookupUnderLimit(TWO_PATHS, t, 64, 2, 256);
    FirstIsLost(turns, outcome, t);
    TwoItemSize(outcome, t);
    OversizedThoughItFits();
  }
}
