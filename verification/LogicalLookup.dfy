/** The logical lookup call: one caller request served by as many exchanges as the payload
    limits require. */
module LogicalLookup {
  import opened Wire
  import opened PackedLayout
  import opened LookupItem
  import opened LookupCodec
  import opened LookupReply
  import opened LookupBuilding
  import opened LookupRequests
  import opened LookupStitching
  import opened HonestLookup
  import opened LookupTrace

  /** Everything the client cannot control: what each exchange returns, the request limits of the
      session and of the configuration after it (a retry inside it may raise either), whether a
      deadline or an abort stops the call before it, whether an abort is seen when more room is
      asked for, and what a reconnect negotiates. */
  datatype World = World(
    reply: (nat, seq<byte>) -> Result<seq<byte>>,
    limit: nat -> u32,
    configured: nat -> u32,
    stopped: nat -> Option<NipcError>,
    aborted: nat -> bool,
    reconnect: nat -> Option<u32>)

  // -------------------------------------------------------------------------
  //  Any server
  // -------------------------------------------------------------------------

  /** A raw item that answers `path` for good. */
  predicate AnswersPath(raw: seq<byte>, path: seq<byte>)
  {
    RawOk(raw) && DecodeItem(raw).value.path == path && DecodeItem(raw).value.status != PAYLOAD_EXCEEDED
  }

  /** `raw` is item `j` of the reply to exchange `n`, and that reply has generation `g`. */
  ghost predicate Came(w: World, n: nat, req: seq<byte>, j: nat, g: u64, raw: seq<byte>)
  {
    && w.reply(n, req).Ok?
    && DecodeResponse(w.reply(n, req).value).Ok?
    && var v := DecodeResponse(w.reply(n, req).value).value;
       AcceptedResponse(v) && v.generation == g && j < v.itemCount && RawItem(v, j) == raw
  }

  /** An item is a server's, out of an exchange numbered below `to`, or it stands for a path whose
      request exceeds a limit that was configured at the time. */
  ghost predicate Sourced(w: World, to: nat, initial: u32, g: Option<u64>, raw: seq<byte>, path: seq<byte>)
  {
    RuledOut(w, to, initial, raw, path) || (g.Some? && FromServer(w, to, g.value, raw))
  }

  ghost predicate RuledOut(w: World, to: nat, initial: u32, raw: seq<byte>, path: seq<byte>)
  {
    Unaskable(Cap(initial), raw, path) || exists n: nat :: n < to && Unaskable(Cap(w.configured(n)), raw, path)
  }

  /** A configured limit between the start of a call and exchange `to`. */
  ghost predicate InForce(w: World, to: nat, initial: u32, limit: u32)
  {
    limit == initial || exists n: nat :: n < to && limit == w.configured(n)
  }

  lemma RuledOutBy(w: World, to: nat, initial: u32, limit: u32, raw: seq<byte>, path: seq<byte>, session: u32)
    requires InForce(w, to, initial, limit) && StoodInOk(session, limit, raw, path)
    ensures RuledOut(w, to, initial, raw, path)
  {
    hide Marked, RequestBytes, Cap;
    assert Unaskable(Cap(limit), raw, path);
  }

  lemma InForceStays(w: World, to: nat, initial: u32, limit: u32)
    requires InForce(w, to, initial, limit)
    ensures InForce(w, to + 1, initial, limit) && InForce(w, to + 1, initial, w.configured(to))
  {
  }

  ghost predicate Unaskable(requestCap: nat, raw: seq<byte>, path: seq<byte>)
  {
    Marked(raw, path) && |RequestBytes([path])| > requestCap
  }

  ghost predicate FromServer(w: World, to: nat, g: u64, raw: seq<byte>)
  {
    hide Came;
    exists n: nat, req: seq<byte>, j: nat :: n < to && Came(w, n, req, j, g, raw)
  }

  /** Takes the answered items of one reply: a uniform cut-off tail after at least one answer. */
  method Collect(rows: seq<Row>, paths: seq<seq<byte>>) returns (r: Result<seq<seq<byte>>>)
    ensures r.Ok? ==>
              && SplitAt(rows, paths, |r.value|) && (r.value != [] || paths == [])
              && forall j :: 0 <= j < |r.value| ==> r.value[j] == rows[j].raw
    ensures forall k :: SplitAt(rows, paths, k) && (k > 0 || paths == []) ==> r.Ok? && |r.value| == k
  {
    if |rows| != |paths| {
      return Err(BadItemCount);
    }
    var raws, i := [], 0;
    while i < |paths| && rows[i].status != PAYLOAD_EXCEEDED
      invariant i <= |paths| && |raws| == i
      invariant forall j :: 0 <= j < i ==>
                  rows[j].path == paths[j] && rows[j].status != PAYLOAD_EXCEEDED && raws[j] == rows[j].raw
    {
      if rows[i].path != paths[i] {
        return Err(BadLayout);
      }
      raws := raws + [rows[i].raw];
      i := i + 1;
    }
    var first := i;
    while i < |paths|
      invariant first <= i <= |paths|
      invariant forall j :: first <= j < i ==> rows[j].path == paths[j] && rows[j].status == PAYLOAD_EXCEEDED
    {
      if rows[i].path != paths[i] || rows[i].status != PAYLOAD_EXCEEDED {
        return Err(BadLayout);
      }
      i := i + 1;
    }
    if first == 0 && paths != [] {
      return Err(Overflow);
    }
    forall k | SplitAt(rows, paths, k)
      ensures k == first
    {
      SplitUnique(rows, paths, k, first);
    }
    return Ok(raws);
  }

  /** Whatever gets through came from a server that runs one handler. */
  ghost predicate Truthful(w: World, t: Truth)
  {
    forall n, req :: w.reply(n, req).Ok? ==> w.reply(n, req) == Reply(req, t.size, t.generation, t.answer)
  }

  /** Every request reaches such a server and its reply, with nothing stopping the call. */
  ghost predicate Honest(w: World, t: Truth)
  {
    && (forall n, req :: w.reply(n, req) == Reply(req, t.size, t.generation, t.answer))
    && (forall n :: w.stopped(n) == None)
  }

  /** Truthful, and every answer to these paths is definite. */
  ghost predicate Believable(w: World, paths: seq<seq<byte>>, t: Truth)
  {
    Truthful(w, t) && t.size < U32_LIMIT && Definite(paths, t)
  }

  /** A request limit the session can have during a call. */
  ghost predicate SessionLimit(w: World, initial: u32, limit: u32)
  {
    limit == initial || (exists n: nat :: limit == w.limit(n)) || exists n: nat :: w.reconnect(n) == Some(limit)
  }

  /** A request limit that can be configured during a call. */
  ghost predicate ConfiguredLimit(w: World, initial: u32, limit: u32)
  {
    limit == initial || exists n: nat :: limit == w.configured(n)
  }

  /** Reconnect `n` negotiates room for a request of `size` bytes. */
  ghost predicate RoomAfter(w: World, n: nat, size: nat)
  {
    w.reconnect(n).Some? && size <= w.reconnect(n).value
  }

  /** A path that never needs more room, or gets it from every reconnect whenever the configuration
      allows its request at all. */
  ghost predicate Reachable(w: World, session: u32, configured: u32, path: seq<byte>)
  {
    var one := |RequestBytes([path])|;
    || (forall l :: SessionLimit(w, session, l) ==> one <= Cap(l))
    || (PathOk(path) && PlaceholderLen(path) < U32_LIMIT
        && forall c, n :: ConfiguredLimit(w, configured, c) && one <= Cap(c) ==> RoomAfter(w, n, one))
  }

  /** A call stopped before path `n`, which it could ask about, with no exchange left. */
  ghost predicate RanOut(w: World, session: u32, limit: u32, maxSubcalls: u32, turns: seq<Turn>,
                         paths: seq<seq<byte>>, n: nat)
  {
    && n < |paths| && SessionLimit(w, session, limit) && |RequestBytes([paths[n]])| <= Cap(limit)
    && Asks(turns) == maxSubcalls
  }

  /** The server has room for every part of the request that can be asked for under `limit`. */
  ghost predicate RoomUnder(paths: seq<seq<byte>>, t: Truth, limit: u32)
  {
    forall a, b :: 0 <= a < b <= |paths| && |RequestBytes(paths[a..b])| <= Cap(limit) ==> Answered(paths[a..b], t)
  }

  /** The limits recorded in the turns of a call were limits of that call. */
  ghost predicate LimitsSeen(w: World, session: u32, configured: u32, turns: seq<Turn>)
  {
    forall i :: 0 <= i < |turns| ==>
      && SessionLimit(w, session, turns[i].limit)
      && (turns[i].StoodIn? ==> ConfiguredLimit(w, configured, turns[i].configured))
  }

  // -------------------------------------------------------------------------
  //  The client
  // -------------------------------------------------------------------------

  class LookupClient {
    const world: World
    var requestLimit: u32
    const maxItems: u32
    const maxSubcalls: u32
    const maxResponseBytes: u32
    var sessionLimit: u32
    var exchanges: nat
    var reconnects: nat
    var checks: nat

    constructor (world: World, requestLimit: u32, maxItems: u32, maxSubcalls: u32, maxResponseBytes: u32,
                 sessionLimit: u32)
      ensures this.world == world && this.requestLimit == requestLimit && this.maxItems == maxItems
      ensures this.maxSubcalls == maxSubcalls && this.maxResponseBytes == maxResponseBytes
      ensures this.sessionLimit == sessionLimit && exchanges == reconnects == checks == 0
    {
      this.world, this.requestLimit, this.maxItems := world, requestLimit, maxItems;
      this.maxSubcalls, this.maxResponseBytes, this.sessionLimit := maxSubcalls, maxResponseBytes, sessionLimit;
      exchanges, reconnects, checks := 0, 0, 0;
    }

    /** Makes room in the session for a request of `required` bytes, reconnecting if need be;
        refuses only what the configuration rules out. */
    method EnsureCapacity(required: nat) returns (r: Result<bool>)
      modifies this`sessionLimit, this`reconnects, this`checks
      ensures if world.aborted(old(checks)) then r == Err(Aborted)
              else if required >= U32_LIMIT then r == Err(Overflow)
              else if required > Cap(requestLimit) then r == Ok(false)
              else if required <= old(sessionLimit) || RoomAfter(world, old(reconnects), required) then r == Ok(true)
              else r == Err(Overflow)
      ensures r == Ok(true) ==> required <= sessionLimit
      ensures sessionLimit == old(sessionLimit) || Some(sessionLimit) == world.reconnect(old(reconnects))
      ensures r == Ok(false) || required <= old(sessionLimit) ==> sessionLimit == old(sessionLimit)
    {
      checks := checks + 1;
      if world.aborted(checks - 1) {
        return Err(Aborted);
      }
      if required >= U32_LIMIT {
        return Err(Overflow);
      }
      if required > Cap(requestLimit) {
        return Ok(false);
      }
      if sessionLimit >= required {
        return Ok(true);
      }
      var before := sessionLimit;
      var negotiated := world.reconnect(reconnects);
      reconnects := reconnects + 1;
      if negotiated.None? {
        return Err(Overflow);
      }
      sessionLimit := negotiated.value;
      if sessionLimit <= before || sessionLimit < required {
        return Err(Overflow);
      }
      return Ok(true);
    }

    /** One request and its reply. */
    method Ask(paths: seq<seq<byte>>, size: nat, generation: Option<u64>, allowed: bool, ghost t: Truth)
      returns (r: Result<(seq<seq<byte>>, u64)>)
      requires size == |RequestBytes(paths)| < U32_LIMIT
      modifies this`sessionLimit, this`requestLimit, this`exchanges
      ensures || (exchanges == old(exchanges) && sessionLimit == old(sessionLimit) && requestLimit == old(requestLimit))
              || (exchanges == old(exchanges) + 1 && sessionLimit == world.limit(old(exchanges))
                  && requestLimit == world.configured(old(exchanges)))
      ensures r.Ok? ==>
                var (got, g) := r.value;
                && (generation.Some? ==> generation.value == g)
                && |got| <= |paths| && (got != [] || paths == [])
                && forall j :: 0 <= j < |got| ==>
                     AnswersPath(got[j], paths[j]) && FromServer(world, exchanges, g, got[j])
      ensures Believable(world, paths, t) && r.Ok? ==>
                Answered(paths, t) && Fair(r.value.0, paths, t) && r.value.1 == t.generation
      ensures !allowed ==> r.Err? && sessionLimit == old(sessionLimit)
      ensures (Honest(world, t) && Answered(paths, t) && allowed
               && (generation.Some? ==> generation.value == t.generation))
              ==> r.Ok?
    {
      hide RequestBytes, Answered, Honest, Believable, FromServer, AnswersPath, Fair, Took;
      HonestWorks(world, exchanges, paths, generation, t);
      BelievableTakes(world, exchanges, paths, generation, t);
      KeysFit(paths);
      var buf := new byte[size](_ => 0);
      var encoded := EncodeRequest(paths, buf);
      if encoded.Err? {
        return Err(encoded.error);
      }
      var req := buf[..encoded.value];
      var stop := world.stopped(exchanges);
      if stop.Some? {
        return Err(stop.value);
      }
      if !allowed {
        return Err(Overflow);
      }
      ghost var n := exchanges;
      var reply := world.reply(exchanges, req);
      sessionLimit, requestLimit := world.limit(exchanges), world.configured(exchanges);
      exchanges := exchanges + 1;
      if reply.Err? {
        return Err(reply.error);
      }
      r := TakeReply(reply.value, paths, generation);
      if r.Ok? {
        TakenAreAnswers(world, n, req, paths, generation, r);
      }
    }

    /** Decides the next step for the paths still unanswered. */
    method Prepare(rest: seq<seq<byte>>) returns (r: Result<Plan>)
      requires rest != []
      modifies this`sessionLimit, this`reconnects, this`checks
      ensures sessionLimit == old(sessionLimit) || Some(sessionLimit) == world.reconnect(old(reconnects))
      ensures r.Ok? && r.value.AskFor? ==>
                && 1 <= r.value.count <= |rest| && r.value.size == |RequestBytes(rest[..r.value.count])| < U32_LIMIT
                && Longest(rest, r.value.count, old(sessionLimit)) && sessionLimit == old(sessionLimit)
      ensures r.Ok? && r.value.Again? ==>
                Cap(old(sessionLimit)) < |RequestBytes([rest[0]])| <= Cap(sessionLimit)
      ensures r.Ok? && r.value.StandIn? ==>
                && PathOk(rest[0]) && PlaceholderLen(rest[0]) < U32_LIMIT && sessionLimit == old(sessionLimit)
                && StoodInOk(sessionLimit, requestLimit, r.value.raw, rest[0])
      ensures var one := |RequestBytes([rest[0]])|;
              if one <= Cap(old(sessionLimit)) then r.Ok? && r.value.AskFor?
              else if world.aborted(old(checks)) then r == Err(Aborted)
              else if one > Cap(requestLimit) then
                PathOk(rest[0]) && PlaceholderLen(rest[0]) < U32_LIMIT ==> r.Ok? && r.value.StandIn?
              else RoomAfter(world, old(reconnects), one) ==> r.Ok? && r.value.Again?
    {
      hide RequestBytes, ItemBytes, PathOk;
      assert rest[..1] == [rest[0]];
      OnePathRequest(rest[0]);
      var next := NextRequestCount(rest, sessionLimit);
      if next.Ok? {
        return Ok(AskFor(next.value.0, next.value.1));
      }
      var one := RequestSize(rest[..1]);
      var grown := EnsureCapacity(one);
      if grown.Err? {
        return Err(grown.error);
      }
      if grown.value {
        return Ok(Again);
      }
      var raw := OversizedItem(rest[0]);
      if raw.Err? {
        return Err(raw.error);
      }
      return Ok(StandIn(raw.value));
    }

    /** Encodes the gathered items as one response, within the configured size. */
    method Stitch(raws: seq<seq<byte>>, generation: u64) returns (r: Result<LookupView>)
      requires forall j :: 0 <= j < |raws| ==> RawOk(raws[j])
      ensures r.Ok? <==> |ResponseBytes(generation, raws)| <= maxResponseBytes
      ensures r.Ok? ==>
                && |raws| < U32_LIMIT
                && r.value == LookupView(|raws|, generation, ResponseBytes(generation, raws))
                && AcceptedResponse(r.value)
                && forall j :: 0 <= j < |raws| ==> RawItem(r.value, j) == raws[j]
    {
      hide ResponseBytes, DecodeResponse, DecodeItem, Pack, RawItem, Fits;
      var size := ResponseSize(generation, raws);
      if size > maxResponseBytes {
        return Err(Overflow);
      }
      ResponseLength(generation, raws);
      PackedFits(raws);
      ResponseRoundTrip(generation, raws);
      SmallIsAddressable(generation, raws);
      var buf := new byte[size](_ => 0);
      var n := EncodeRaw(raws, generation, buf);
      assert buf[..n.value] == ResponseBytes(generation, raws);
      return DecodeResponse(buf[..n.value]);
    }

    /** What leaves a call only its own limits to fail by: an honest server with room for every part
        that can be asked for in one request, and paths that can be asked for or ruled out. */
    ghost predicate Friendly(paths: seq<seq<byte>>, t: Truth)
      reads this
    {
      && Honest(world, t) && AllPathsOk(paths) && Definite(paths, t) && Answered([], t)
      && (forall l :: SessionLimit(world, sessionLimit, l) ==> RoomUnder(paths, t, l))
      && (forall i :: 0 <= i < |paths| ==> Reachable(world, sessionLimit, requestLimit, paths[i]))
      && (forall n :: !world.aborted(n))
      && |paths| <= maxItems
    }

    /** Asks, retries and stands in until every path has an item. */
    method GatherAll(paths: seq<seq<byte>>, ghost t: Truth)
      returns (ok: Result<()>, raws: seq<seq<byte>>, generation: Option<u64>, subcalls: nat, asked: bool,
               ghost turns: seq<Turn>)
      modifies this
      ensures Progress(world, exchanges, old(sessionLimit), old(requestLimit), generation, raws, turns, paths, t)
      ensures ok.Ok? ==> |raws| == |paths| && (asked ==> generation.Some?)
      ensures subcalls == Asks(turns) <= maxSubcalls && (asked <==> EndsAsked(turns))
      ensures old(Friendly(paths, t)) && ok.Err? ==>
                RanOut(world, old(sessionLimit), sessionLimit, maxSubcalls, turns, paths, |raws|)
    {
      hide RequestBytes, Fair, Traced, Longest, Honest, Answered, InForce, PathOk, AnswersPath, FromServer,
           PlaceholderLen, Cap, StoodInOk, Believable, RoomUnder, SessionLimit, RoomAfter, Definite, Reachable,
           Gathered, LimitsSeen, Progress, Asks, EndsAsked;
      ghost var session, configured, friendly := sessionLimit, requestLimit, Friendly(paths, t);
      ok, raws, generation, subcalls, asked, turns := Ok(()), [], None, 0, false, [];
      NothingGathered(world, exchanges, session, configured, paths, t);
      NoAsks();
      if friendly {
        FriendlyIsBelievable(world, paths, t);
      }
      while |raws| < |paths|
        invariant ok.Ok? && |raws| <= |paths|
        invariant Progress(world, exchanges, session, configured, generation, raws, turns, paths, t)
        invariant InForce(world, exchanges, configured, requestLimit) && SessionLimit(world, session, sessionLimit)
        invariant asked ==> generation.Some?
        invariant subcalls == Asks(turns) <= maxSubcalls && (asked <==> EndsAsked(turns))
        decreases |paths| - |raws|,
                  if |raws| < |paths| && |RequestBytes([paths[|raws|]])| <= Cap(sessionLimit) then 0 else 1
      {
        var start := |raws|;
        var rest := paths[start..];
        assert rest[0] == paths[start];
        ghost var limit := sessionLimit;
        if friendly {
          ReachableStep(world, session, configured, limit, exchanges, requestLimit, reconnects, paths[start]);
        }
        SessionLimitStays(world, session, reconnects, exchanges);
        ProgressMeans(world, exchanges, session, configured, generation, raws, turns, paths, t);
        var plan := Prepare(rest);
        if plan.Err? {
          ok := Err(plan.error);
          return;
        }
        match plan.value {
          case Again =>
          case StandIn(raw) =>
            ProgressStandIn(world, exchanges, session, configured, generation, raws, turns, paths, t, limit,
                            requestLimit, raw);
            AsksSnoc(turns, StoodIn(start, limit, requestLimit));
            turns := turns + [StoodIn(start, limit, requestLimit)];
            raws, asked := raws + [raw], false;
          case AskFor(count, size) =>
            var part := paths[start..start + count];
            assert rest[..count] == part;
            ghost var before := exchanges;
            if friendly {
              RoomFor(world, session, limit, paths, t, start, count);
            }
            InForceStays(world, exchanges, configured, requestLimit);
            var got := Ask(part, size, generation, subcalls < maxSubcalls, t);
            if got.Err? {
              ProgressLater(world, before, exchanges, session, configured, generation, raws, turns, paths, t);
              ok := Err(got.error);
              return;
            }
            ProgressAsk(world, before, exchanges, session, configured, generation, got.value.1, raws, turns, paths, t,
                        count, limit, got.value.0);
            AsksSnoc(turns, Asked(start, count, |got.value.0|, limit));
            turns := turns + [Asked(start, count, |got.value.0|, limit)];
            raws, generation, subcalls, asked := raws + got.value.0, Some(got.value.1), subcalls + 1, true;
        }
      }
    }

    /** The logical call. Whatever the server does, a result names every path in order, holds no
        cut-off mark, has one generation, and every item has a source. If what gets through comes
        from a server that runs one handler, the items are what a sequence of turns gave, so that
        `MarkedExactlyWhen` says which of them are the handler's answers. And if nothing else
        stands in the way, the call fails exactly when it would make too many exchanges or its
        result is too large. */
    method Call(paths: seq<seq<byte>>, ghost t: Truth)
      returns (r: Result<LookupView>, ghost outcome: seq<seq<byte>>, ghost turns: seq<Turn>)
      modifies this
      ensures r.Ok? ==>
                var v := r.value;
                && AcceptedResponse(v) && v.itemCount == |paths| <= maxItems
                && |v.payload| <= maxResponseBytes
                && |outcome| == |paths| && (forall j :: 0 <= j < |paths| ==> RawItem(v, j) == outcome[j])
                && Gathered(world, exchanges, old(requestLimit), Some(v.generation), outcome, paths)
      ensures LimitsSeen(world, old(sessionLimit), old(requestLimit), turns)
      ensures Believable(world, paths, t) ==>
                && Traced(turns, outcome, paths, t)
                && (r.Ok? ==> r.value.generation == t.generation)
      ensures old(Friendly(paths, t)) ==>
                && (|outcome| == |paths| || RanOut(world, old(sessionLimit), sessionLimit, maxSubcalls, turns, paths,
                                                   |outcome|))
                && (r.Ok? <==> && |outcome| == |paths| && Subcalls(turns) <= maxSubcalls
                               && |ResponseBytes(t.generation, outcome)| <= maxResponseBytes)
    {
      hide RequestBytes, ResponseBytes, AcceptedResponse, RawItem, Fair, Traced, Honest, Answered, AnswersPath,
           FromServer, RawOk, Believable, RoomUnder, SessionLimit, Definite, Reachable, Gathered, LimitsSeen, Progress,
           Asks, EndsAsked;
      outcome, turns := [], [];
      ghost var session, configured := sessionLimit, requestLimit;
      NothingGathered(world, exchanges, session, configured, paths, t);
      ProgressMeans(world, exchanges, session, configured, None, [], [], paths, t);
      if |paths| > maxItems {
        return Err(Overflow), outcome, turns;
      }
      if Friendly(paths, t) {
        FriendlyIsBelievable(world, paths, t);
      }
      var ok, raws, generation, subcalls, asked;
      ok, raws, generation, subcalls, asked, turns := GatherAll(paths, t);
      outcome := raws;
      ProgressMeans(world, exchanges, session, configured, generation, raws, turns, paths, t);
      if ok.Err? {
        return Err(ok.error), outcome, turns;
      }
      if !asked {
        ghost var before := exchanges;
        EmptyRequest();
        var got := Ask([], LOOKUP_HDR_SIZE, generation, subcalls < maxSubcalls, t);
        if got.Err? {
          return Err(got.error), outcome, turns;
        }
        ProgressNothing(world, before, exchanges, session, configured, generation, got.value.1, raws, turns, paths, t);
        generation := Some(got.value.1);
        ProgressMeans(world, exchanges, session, configured, generation, raws, turns, paths, t);
      }
      GatheredDecode(world, exchanges, configured, generation, raws, paths);
      r := Stitch(raws, generation.value);
    }
  }

  /** The next step of a logical call: ask for some paths, retry with a larger session limit, or
      use a stand-in for a path that cannot be asked about. */
  datatype Plan = AskFor(count: nat, size: nat) | Again | StandIn(raw: seq<byte>)

  /** The relation between a reply and what the client takes from it: the reply must decode, keep
      the generation and split cleanly, and only then are its answered items taken. */
  ghost predicate Took(reply: seq<byte>, paths: seq<seq<byte>>, generation: Option<u64>,
                       r: Result<(seq<seq<byte>>, u64)>)
  {
    if r.Ok? then
      && DecodeResponse(reply).Ok?
      && var (v, got) := (DecodeResponse(reply).value, r.value.0);
         && AcceptedResponse(v) && v.generation == r.value.1 && (generation.Some? ==> generation.value == v.generation)
         && SplitAt(Rows(v), paths, |got|) && (got != [] || paths == [])
         && forall j :: 0 <= j < |got| ==> got[j] == Rows(v)[j].raw
    else
      DecodeResponse(reply).Ok? ==>
        var v := DecodeResponse(reply).value;
        && AcceptedResponse(v)
        && ((generation.Some? && generation.value != v.generation)
            || forall k :: SplitAt(Rows(v), paths, k) ==> k == 0 && paths != [])
  }

  method TakeReply(reply: seq<byte>, paths: seq<seq<byte>>, generation: Option<u64>)
    returns (r: Result<(seq<seq<byte>>, u64)>)
    ensures Took(reply, paths, generation, r)
  {
    hide DecodeResponse, AcceptedResponse, Rows, SplitAt;
    var decoded := DecodeResponse(reply);
    if decoded.Err? {
      return Err(decoded.error);
    }
    var view := decoded.value;
    AcceptedDecodes(reply);
    if generation.Some? && view.generation != generation.value {
      return Err(BadLayout);
    }
    var collected := Collect(Rows(view), paths);
    if collected.Err? {
      return Err(collected.error);
    }
    return Ok((collected.value, view.generation));
  }

  lemma AcceptedDecodes(b: seq<byte>)
    requires DecodeResponse(b).Ok?
    ensures AcceptedResponse(DecodeResponse(b).value)
  {
    hide DirScan, BadItem, Get16, Get32, Get64;
  }

  /** What the client takes from a reply answers its paths and came from that reply. */
  lemma TakenAreAnswers(w: World, n: nat, req: seq<byte>, paths: seq<seq<byte>>, generation: Option<u64>,
                        r: Result<(seq<seq<byte>>, u64)>)
    requires w.reply(n, req).Ok? && r.Ok? && Took(w.reply(n, req).value, paths, generation, r)
    ensures var (got, g) := r.value;
            && (generation.Some? ==> generation.value == g)
            && |got| <= |paths| && (got != [] || paths == [])
            && forall j :: 0 <= j < |got| ==> AnswersPath(got[j], paths[j]) && FromServer(w, n + 1, g, got[j])
  {
    hide DecodeResponse, DecodeItem, AcceptedResponse, RawItem, ViewItem;
    var v, got := DecodeResponse(w.reply(n, req).value).value, r.value.0;
    forall j | 0 <= j < |got|
      ensures AnswersPath(got[j], paths[j]) && FromServer(w, n + 1, v.generation, got[j])
    {
      assert got[j] == RawItem(v, j);
      assert Came(w, n, req, j, v.generation, got[j]);
    }
  }

  /** An honest server's reply, as the client will take it apart. */
  lemma HonestExchange(paths: seq<seq<byte>>, t: Truth, generation: Option<u64>, r: Result<(seq<seq<byte>>, u64)>)
    requires Answered(paths, t) && |RequestBytes(paths)| < U32_LIMIT
    requires var reply := Reply(RequestBytes(paths), t.size, t.generation, t.answer);
             reply.Ok? && Took(reply.value, paths, generation, r)
    ensures (generation.Some? ==> generation.value == t.generation) ==> r.Ok?
    ensures r.Ok? ==> r.value.1 == t.generation && Fair(r.value.0, paths, t)
  {
    hide DecodeResponse, DecodeRequest, Reply, HonestItems, Fair, Rows, SplitAt, AllEncodable, Fits, ResponseBytes,
         RequestBytes, PathOk, Answerable;
    KeysFit(paths);
    RequestRoundTrip(paths);
    var k := HonestReply(RequestBytes(paths), paths, t);
    HonestRows(paths, t, k);
    var items := HonestItems(paths, t);
    var v := LookupView(|items|, t.generation, ResponseBytes(t.generation, Raws(items)));
    assert DecodeResponse(v.payload) == Ok(v);
    if r.Ok? {
      SplitUnique(Rows(v), paths, k, |r.value.0|);
      HonestFair(paths, t, k, r.value.0);
    }
  }

  /** With an honest server, valid paths and a matching generation an exchange succeeds. */
  lemma HonestWorks(w: World, n: nat, paths: seq<seq<byte>>, generation: Option<u64>, t: Truth)
    requires |RequestBytes(paths)| < U32_LIMIT
    ensures Honest(w, t) && Answered(paths, t) ==>
              && AllPathsOk(paths) && w.stopped(n) == None && w.reply(n, RequestBytes(paths)).Ok?
              && ((generation.Some? ==> generation.value == t.generation) ==>
                    forall r :: Took(w.reply(n, RequestBytes(paths)).value, paths, generation, r) ==> r.Ok?)
  {
    hide RequestBytes, DecodeRequest, Reply, Took, Fair, Fits, PathOk, Answerable;
    if Honest(w, t) && Answered(paths, t) {
      KeysFit(paths);
      RequestRoundTrip(paths);
      var k := HonestReply(RequestBytes(paths), paths, t);
      forall r | Took(w.reply(n, RequestBytes(paths)).value, paths, generation, r)
        ensures (generation.Some? ==> generation.value == t.generation) ==> r.Ok?
      {
        HonestExchange(paths, t, generation, r);
      }
    }
  }

  /** Whatever is taken from a truthful server is what it answered, and it had the room. */
  lemma BelievableTakes(w: World, n: nat, paths: seq<seq<byte>>, generation: Option<u64>, t: Truth)
    requires |RequestBytes(paths)| < U32_LIMIT
    ensures Believable(w, paths, t) && AllPathsOk(paths) && w.reply(n, RequestBytes(paths)).Ok? ==>
              && Answered(paths, t)
              && forall r :: Took(w.reply(n, RequestBytes(paths)).value, paths, generation, r) && r.Ok? ==>
                   r.value.1 == t.generation && Fair(r.value.0, paths, t)
  {
    hide RequestBytes, DecodeRequest, Reply, Took, Fair, Fits, PathOk, Answerable, Answered;
    if Believable(w, paths, t) && AllPathsOk(paths) && w.reply(n, RequestBytes(paths)).Ok? {
      KeysFit(paths);
      RequestRoundTrip(paths);
      assert w.reply(n, RequestBytes(paths)) == Reply(RequestBytes(paths), t.size, t.generation, t.answer);
      RepliedHadRoom(RequestBytes(paths), t);
      forall r | Took(w.reply(n, RequestBytes(paths)).value, paths, generation, r) && r.Ok?
        ensures r.value.1 == t.generation && Fair(r.value.0, paths, t)
      {
        HonestExchange(paths, t, generation, r);
      }
    }
  }

  // -------------------------------------------------------------------------
  //  Progress of a call
  // -------------------------------------------------------------------------

  /** The items gathered so far answer their paths and have a source. */
  ghost predicate Gathered(w: World, to: nat, initial: u32, g: Option<u64>, raws: seq<seq<byte>>, paths: seq<seq<byte>>)
  {
    && |raws| <= |paths|
    && forall j :: 0 <= j < |raws| ==> AnswersPath(raws[j], paths[j]) && Sourced(w, to, initial, g, raws[j], paths[j])
  }

  lemma SourcedStays(w: World, to: nat, later: nat, initial: u32, g: Option<u64>, h: u64, raw: seq<byte>,
                     path: seq<byte>)
    requires Sourced(w, to, initial, g, raw, path) && to <= later && (g.Some? ==> g.value == h)
    ensures Sourced(w, later, initial, Some(h), raw, path)
  {
    hide Came, Unaskable;
  }

  lemma GatheredMore(w: World, to: nat, later: nat, initial: u32, g: Option<u64>, h: u64,
                     raws: seq<seq<byte>>, paths: seq<seq<byte>>, got: seq<seq<byte>>)
    requires Gathered(w, to, initial, g, raws, paths) && to <= later && (g.Some? ==> g.value == h)
    requires |raws| + |got| <= |paths|
    requires forall j :: 0 <= j < |got| ==> AnswersPath(got[j], paths[|raws| + j]) && FromServer(w, later, h, got[j])
    ensures Gathered(w, later, initial, Some(h), raws + got, paths)
  {
    hide AnswersPath, FromServer, Unaskable;
    forall j | 0 <= j < |raws + got|
      ensures AnswersPath((raws + got)[j], paths[j]) && Sourced(w, later, initial, Some(h), (raws + got)[j], paths[j])
    {
      if j < |raws| {
        SourcedStays(w, to, later, initial, g, h, raws[j], paths[j]);
      } else {
        assert (raws + got)[j] == got[j - |raws|];
      }
    }
  }

  lemma StandInAnswers(path: seq<byte>)
    requires PathOk(path) && PlaceholderLen(path) < U32_LIMIT
    ensures AnswersPath(ItemBytes(Placeholder(OVERSIZED_ITEM, path)), path)
  {
    hide ItemBytes, DecodeItem;
    PlaceholderEncodable(OVERSIZED_ITEM, path);
    ItemRoundTrip(Placeholder(OVERSIZED_ITEM, path));
  }

  lemma GatheredStandIn(w: World, to: nat, initial: u32, g: Option<u64>, raws: seq<seq<byte>>, paths: seq<seq<byte>>,
                        raw: seq<byte>)
    requires Gathered(w, to, initial, g, raws, paths) && |raws| < |paths|
    requires PathOk(paths[|raws|]) && PlaceholderLen(paths[|raws|]) < U32_LIMIT
    requires RuledOut(w, to, initial, raw, paths[|raws|])
    ensures Gathered(w, to, initial, g, raws + [raw], paths)
  {
    hide AnswersPath, FromServer, ItemBytes, RequestBytes;
    StandInAnswers(paths[|raws|]);
    assert raw == ItemBytes(Placeholder(OVERSIZED_ITEM, paths[|raws|]));
  }

  lemma NothingGathered(w: World, to: nat, session: u32, configured: u32, paths: seq<seq<byte>>, t: Truth)
    ensures Progress(w, to, session, configured, None, [], [], paths, t)
    ensures InForce(w, to, configured, configured) && SessionLimit(w, session, session)
  {
    hide Believable;
    NothingTraced(paths, t);
  }

  /** Everything known of the items and turns of a call so far. */
  ghost predicate Progress(w: World, to: nat, session: u32, configured: u32, g: Option<u64>,
                           raws: seq<seq<byte>>, turns: seq<Turn>, paths: seq<seq<byte>>, t: Truth)
  {
    && Gathered(w, to, configured, g, raws, paths)
    && LimitsSeen(w, session, configured, turns)
    && (Believable(w, paths, t) ==>
          Traced(turns, raws, paths, t) && (g.Some? ==> g.value == t.generation))
  }

  lemma ProgressMeans(w: World, to: nat, session: u32, configured: u32, g: Option<u64>,
                      raws: seq<seq<byte>>, turns: seq<Turn>, paths: seq<seq<byte>>, t: Truth)
    requires Progress(w, to, session, configured, g, raws, turns, paths, t)
    ensures Gathered(w, to, configured, g, raws, paths) && LimitsSeen(w, session, configured, turns)
    ensures Believable(w, paths, t) ==> Traced(turns, raws, paths, t) && (g.Some? ==> g.value == t.generation)
  {
    hide Gathered, LimitsSeen, Believable, Traced;
  }

  lemma ProgressStandIn(w: World, to: nat, session: u32, configured: u32, g: Option<u64>, raws: seq<seq<byte>>,
                        turns: seq<Turn>, paths: seq<seq<byte>>, t: Truth, limit: u32, current: u32, raw: seq<byte>)
    requires Progress(w, to, session, configured, g, raws, turns, paths, t) && |raws| < |paths|
    requires SessionLimit(w, session, limit) && InForce(w, to, configured, current)
    requires PathOk(paths[|raws|]) && PlaceholderLen(paths[|raws|]) < U32_LIMIT
    requires StoodInOk(limit, current, raw, paths[|raws|])
    ensures Progress(w, to, session, configured, g, raws + [raw], turns + [StoodIn(|raws|, limit, current)], paths, t)
  {
    hide Gathered, LimitsSeen, Believable, Traced, PathOk, PlaceholderLen, StoodInOk, SessionLimit, InForce;
    RuledOutBy(w, to, configured, current, raw, paths[|raws|], limit);
    GatheredStandIn(w, to, configured, g, raws, paths, raw);
    LimitsSeenStandIn(w, session, configured, turns, |raws|, limit, to, current);
    if Believable(w, paths, t) {
      TracedStandIn(turns, raws, paths, t, limit, current, raw);
    }
  }

  lemma ProgressAsk(w: World, to: nat, later: nat, session: u32, configured: u32, g: Option<u64>, h: u64,
                    raws: seq<seq<byte>>, turns: seq<Turn>, paths: seq<seq<byte>>, t: Truth, count: nat, limit: u32,
                    got: seq<seq<byte>>)
    requires Progress(w, to, session, configured, g, raws, turns, paths, t)
    requires to <= later && (g.Some? ==> g.value == h) && SessionLimit(w, session, limit)
    requires 0 < |got| <= count && |raws| + count <= |paths| && Longest(paths[|raws|..], count, limit)
    requires var part := paths[|raws|..|raws| + count];
             && (forall j :: 0 <= j < |got| ==> AnswersPath(got[j], part[j]) && FromServer(w, later, h, got[j]))
             && (Believable(w, part, t) ==> Answered(part, t) && Fair(got, part, t) && h == t.generation)
    ensures Progress(w, later, session, configured, Some(h), raws + got, turns + [Asked(|raws|, count, |got|, limit)],
                     paths, t)
  {
    hide Gathered, LimitsSeen, Believable, Traced, Longest, Answered, Fair, AnswersPath, FromServer, SessionLimit;
    GatheredMore(w, to, later, configured, g, h, raws, paths, got);
    LimitsSeenAsk(w, session, configured, turns, Asked(|raws|, count, |got|, limit));
    if Believable(w, paths, t) {
      BelievablePart(w, paths, t, |raws|, count);
      TracedAsk(turns, raws, paths, t, count, limit, got);
    }
  }

  lemma ProgressLater(w: World, to: nat, later: nat, session: u32, configured: u32, g: Option<u64>,
                      raws: seq<seq<byte>>, turns: seq<Turn>, paths: seq<seq<byte>>, t: Truth)
    requires Progress(w, to, session, configured, g, raws, turns, paths, t) && to <= later
    ensures Progress(w, later, session, configured, g, raws, turns, paths, t)
  {
    hide LimitsSeen, Believable, Traced, AnswersPath, Came, Unaskable;
  }

  lemma ProgressNothing(w: World, to: nat, later: nat, session: u32, configured: u32, g: Option<u64>, h: u64,
                        raws: seq<seq<byte>>, turns: seq<Turn>, paths: seq<seq<byte>>, t: Truth)
    requires Progress(w, to, session, configured, g, raws, turns, paths, t)
    requires to <= later && (g.Some? ==> g.value == h) && (Believable(w, [], t) ==> h == t.generation)
    ensures Progress(w, later, session, configured, Some(h), raws, turns, paths, t)
  {
    hide LimitsSeen, Believable, Traced, AnswersPath, FromServer, RuledOut;
    GatheredMore(w, to, later, configured, g, h, raws, paths, []);
    assert raws + [] == raws;
    NothingBelievable(w, paths, t);
  }

  lemma FriendlyIsBelievable(w: World, paths: seq<seq<byte>>, t: Truth)
    requires Honest(w, t) && Definite(paths, t) && Answered([], t)
    ensures Believable(w, paths, t)
  {
    hide Definite, Reply;
  }

  lemma BelievablePart(w: World, paths: seq<seq<byte>>, t: Truth, start: nat, count: nat)
    requires Believable(w, paths, t) && start + count <= |paths|
    ensures Believable(w, paths[start..start + count], t)
  {
    hide Truthful, Answerable;
  }

  lemma NothingBelievable(w: World, paths: seq<seq<byte>>, t: Truth)
    ensures Believable(w, paths, t) ==> Believable(w, [], t)
  {
    hide Truthful, Answerable;
  }

  lemma SessionLimitStays(w: World, session: u32, reconnects: nat, exchanges: nat)
    ensures SessionLimit(w, session, w.limit(exchanges))
    ensures w.reconnect(reconnects).Some? ==> SessionLimit(w, session, w.reconnect(reconnects).value)
  {
  }

  lemma InForceConfigured(w: World, to: nat, initial: u32, limit: u32)
    requires InForce(w, to, initial, limit)
    ensures ConfiguredLimit(w, initial, limit)
  {
  }

  /** A reachable path is asked for, ruled out, or gets the room it needs. */
  lemma ReachableStep(w: World, session: u32, configured: u32, limit: u32, to: nat, current: u32, n: nat,
                      path: seq<byte>)
    requires Reachable(w, session, configured, path) && SessionLimit(w, session, limit)
    requires InForce(w, to, configured, current)
    ensures var one := |RequestBytes([path])|;
            || one <= Cap(limit)
            || (PathOk(path) && PlaceholderLen(path) < U32_LIMIT && (one > Cap(current) || RoomAfter(w, n, one)))
  {
    hide RequestBytes, SessionLimit, RoomAfter, ConfiguredLimit, PathOk, Cap;
    InForceConfigured(w, to, configured, current);
  }

  lemma RoomFor(w: World, session: u32, limit: u32, paths: seq<seq<byte>>, t: Truth, start: nat, count: nat)
    requires forall l :: SessionLimit(w, session, l) ==> RoomUnder(paths, t, l)
    requires SessionLimit(w, session, limit) && 0 < count && start + count <= |paths|
    requires Longest(paths[start..], count, limit)
    ensures Answered(paths[start..start + count], t)
  {
    hide RequestBytes, SessionLimit, Answered, Cap;
    assert RoomUnder(paths, t, limit);
    assert paths[start..][..count] == paths[start..start + count];
  }

  lemma LimitsSeenAsk(w: World, session: u32, configured: u32, turns: seq<Turn>, turn: Turn)
    requires LimitsSeen(w, session, configured, turns) && turn.Asked? && SessionLimit(w, session, turn.limit)
    ensures LimitsSeen(w, session, configured, turns + [turn])
  {
    hide SessionLimit, ConfiguredLimit;
  }

  lemma LimitsSeenStandIn(w: World, session: u32, configured: u32, turns: seq<Turn>, start: nat, limit: u32, to: nat,
                          current: u32)
    requires LimitsSeen(w, session, configured, turns) && SessionLimit(w, session, limit)
    requires InForce(w, to, configured, current)
    ensures LimitsSeen(w, session, configured, turns + [StoodIn(start, limit, current)])
  {
    hide SessionLimit, ConfiguredLimit;
    InForceConfigured(w, to, configured, current);
  }

  lemma EmptyRequest()
    ensures |RequestBytes([])| == LOOKUP_HDR_SIZE
  {
    hide RequestBytes, Keys, Pack;
    var none: seq<seq<byte>> := [];
    RequestLength(none);
    NoKeys(none);
    assert none[..0] == none;
  }

  lemma GatheredDecode(w: World, to: nat, initial: u32, g: Option<u64>, raws: seq<seq<byte>>, paths: seq<seq<byte>>)
    requires Gathered(w, to, initial, g, raws, paths)
    ensures forall j :: 0 <= j < |raws| ==> RawOk(raws[j])
  {
    hide Sourced, DecodeItem;
  }

  // -------------------------------------------------------------------------
  //  Truthful servers never mislead
  // -------------------------------------------------------------------------

  lemma {:induction false} DecodedPathsOk(b: seq<byte>, n: nat, k: nat)
    requires LOOKUP_HDR_SIZE + 8 * n <= |b| && k <= n
    requires DirScan(b, LOOKUP_HDR_SIZE, n, |b| - LOOKUP_HDR_SIZE - 8 * n, 2).Ok?
    ensures PathsOf(b, n, k).Ok? ==> AllPathsOk(PathsOf(b, n, k).value)
  {
    hide DirScan, RawAt, NoNul;
    if k > 0 {
      DecodedPathsOk(b, n, k - 1);
    }
  }

  lemma RequestedPathsOk(req: seq<byte>)
    requires DecodeRequest(req).Ok?
    ensures AllPathsOk(DecodeRequest(req).value)
  {
    hide DirScan, PathsOf, Get16, Get32, PathOk;
    DecodedPathsOk(req, Get32(req, 4), Get32(req, 4));
  }

  /** A request the server replied to was one it had room for. */
  lemma RepliedHadRoom(req: seq<byte>, t: Truth)
    requires t.size < U32_LIMIT && (DecodeRequest(req).Ok? ==> Definite(DecodeRequest(req).value, t))
    requires Reply(req, t.size, t.generation, t.answer).Ok?
    ensures DecodeRequest(req).Ok? && Answered(DecodeRequest(req).value, t)
  {
    hide DecodeRequest, Served, Raws, Pack, Reserved, PathOk, Answerable, ResponseBytes;
    var paths := DecodeRequest(req).value;
    RequestedPathsOk(req);
    if paths == [] {
      ReservedLast(Lens(paths));
    } else {
      ServedExactlyWhen(paths, t.size, t.answer);
      ReservedIsPlaceholders(PAYLOAD_EXCEEDED, paths, 0);
      assert paths[0..] == paths;
    }
  }

  /** An item out of any honest reply that answers `path` is the handler's answer to it. */
  lemma HonestSource(w: World, t: Truth, n: nat, req: seq<byte>, j: nat, g: u64, raw: seq<byte>, path: seq<byte>)
    requires Truthful(w, t) && t.size < U32_LIMIT && forall p :: Answerable(t.answer(p))
    requires Came(w, n, req, j, g, raw) && AnswersPath(raw, path)
    ensures Settled(raw, path, t)
  {
    hide DecodeRequest, DecodeResponse, DecodeItem, Reply, HonestItems, RawItem, Answerable, AllEncodable, Fits,
         ResponseBytes, ItemBytes, PathOk;
    RepliedHadRoom(req, t);
    var paths := DecodeRequest(req).value;
    var k := HonestReply(req, paths, t);
    HonestRows(paths, t, k);
    var items := HonestItems(paths, t);
    var v := LookupView(|items|, t.generation, ResponseBytes(t.generation, Raws(items)));
    assert DecodeResponse(v.payload) == Ok(v);
    assert Rows(v)[j] == Row(ViewItem(v, j).path, ViewItem(v, j).status, RawItem(v, j));
    assert items[j].path == path && items[j].status != PAYLOAD_EXCEEDED;
  }

  /** With a truthful server every item of a result is the handler's answer or an oversized mark,
      whatever failures, limits, reconnects and interruptions the call went through. */
  lemma HonestResult(w: World, t: Truth, to: nat, initial: u32, g: Option<u64>, raws: seq<seq<byte>>,
                     paths: seq<seq<byte>>)
    requires Truthful(w, t) && t.size < U32_LIMIT && forall p :: Answerable(t.answer(p))
    requires Gathered(w, to, initial, g, raws, paths)
    ensures forall j :: 0 <= j < |raws| ==> Settled(raws[j], paths[j], t)
  {
    hide Came, AnswersPath, Truthful, Answerable, Settled;
    forall j | 0 <= j < |raws|
      ensures Settled(raws[j], paths[j], t)
    {
      if RuledOut(w, to, initial, raws[j], paths[j]) {
        StandInSettled(w, to, initial, raws[j], paths[j], t);
      } else {
        var n: nat, req: seq<byte>, i: nat :| n < to && Came(w, n, req, i, g.value, raws[j]);
        HonestSource(w, t, n, req, i, g.value, raws[j], paths[j]);
      }
    }
  }

  lemma StandInSettled(w: World, to: nat, initial: u32, raw: seq<byte>, path: seq<byte>, t: Truth)
    requires RuledOut(w, to, initial, raw, path)
    ensures Settled(raw, path, t)
  {
    hide ItemBytes, RequestBytes;
  }
}
