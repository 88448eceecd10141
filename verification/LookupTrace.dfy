/** The exchanges of a logical call: what was asked, what was answered, and so exactly which
    answers reach the caller. */
module LookupTrace {
  import opened Wire
  import opened LookupItem
  import opened LookupCodec
  import opened LookupReply
  import opened LookupRequests
  import opened HonestLookup

  // -------------------------------------------------------------------------
  //  Turns
  // -------------------------------------------------------------------------

  /** One step of a call, under the session's request limit at the time: it asked for `count`
      paths from `start` on and `taken` of them were answered, or it used a stand-in for a path
      that neither the session nor the configuration lets it ask about. */
  datatype Turn =
    | Asked(start: nat, count: nat, taken: nat, limit: u32)
    | StoodIn(start: nat, limit: u32, configured: u32)

  function TurnEnd(turn: Turn): nat
  {
    turn.start + if turn.Asked? then turn.taken else 1
  }

  /** The most paths a request under `limit` can ask for. */
  ghost predicate Longest(rest: seq<seq<byte>>, count: nat, limit: u32)
  {
    && count <= |rest| && |RequestBytes(rest[..count])| <= Cap(limit)
    && forall c :: count < c <= |rest| ==> |RequestBytes(rest[..c])| > Cap(limit)
  }

  /** An exchange that asked for the most it could, of a server with room for just that part, and
      took what the server answered. */
  ghost predicate AskedOk(start: nat, count: nat, limit: u32, got: seq<seq<byte>>, paths: seq<seq<byte>>, t: Truth)
  {
    && 0 < |got| <= count && start + count <= |paths|
    && Longest(paths[start..], count, limit)
    && Answered(paths[start..start + count], t)
    && Fair(got, paths[start..start + count], t)
  }

  ghost predicate StoodInOk(limit: u32, configured: u32, raw: seq<byte>, path: seq<byte>)
  {
    Marked(raw, path) && |RequestBytes([path])| > Cap(limit) && |RequestBytes([path])| > Cap(configured)
  }

  ghost predicate TurnOk(turn: Turn, raws: seq<seq<byte>>, paths: seq<seq<byte>>, t: Truth)
  {
    && TurnEnd(turn) <= |raws| <= |paths|
    && if turn.Asked? then AskedOk(turn.start, turn.count, turn.limit, raws[turn.start..TurnEnd(turn)], paths, t)
       else StoodInOk(turn.limit, turn.configured, raws[turn.start], paths[turn.start])
  }

  function TurnsEnd(turns: seq<Turn>): nat
  {
    if turns == [] then 0 else TurnEnd(turns[|turns| - 1])
  }

  /** The gathered items are what these turns gave, one after the other. */
  ghost predicate Traced(turns: seq<Turn>, raws: seq<seq<byte>>, paths: seq<seq<byte>>, t: Truth)
  {
    && TurnsEnd(turns) == |raws| <= |paths|
    && (forall i :: 0 <= i < |turns| ==> TurnOk(turns[i], raws, paths, t))
    && (forall i :: 0 <= i < |turns| ==> turns[i].start == TurnsEnd(turns[..i]))
  }

  lemma TurnStays(turn: Turn, raws: seq<seq<byte>>, got: seq<seq<byte>>, paths: seq<seq<byte>>, t: Truth)
    requires TurnOk(turn, raws, paths, t) && |raws| + |got| <= |paths|
    ensures TurnOk(turn, raws + got, paths, t)
  {
    hide AskedOk, StoodInOk;
    if turn.Asked? {
      assert turn.start <= TurnEnd(turn);
      assert (raws + got)[turn.start..TurnEnd(turn)] == raws[turn.start..TurnEnd(turn)];
    }
  }

  lemma TracedTurn(turns: seq<Turn>, raws: seq<seq<byte>>, paths: seq<seq<byte>>, t: Truth,
                   turn: Turn, got: seq<seq<byte>>)
    requires Traced(turns, raws, paths, t) && |raws| + |got| <= |paths|
    requires turn.start == |raws| && TurnEnd(turn) == |raws| + |got| && TurnOk(turn, raws + got, paths, t)
    ensures Traced(turns + [turn], raws + got, paths, t)
  {
    hide TurnOk;
    var all := turns + [turn];
    forall i | 0 <= i < |all|
      ensures TurnOk(all[i], raws + got, paths, t) && all[i].start == TurnsEnd(all[..i])
    {
      if i < |turns| {
        TurnStays(turns[i], raws, got, paths, t);
        assert all[..i] == turns[..i];
      } else {
        assert all[..i] == turns;
      }
    }
  }

  lemma TracedAsk(turns: seq<Turn>, raws: seq<seq<byte>>, paths: seq<seq<byte>>, t: Truth,
                  count: nat, limit: u32, got: seq<seq<byte>>)
    requires Traced(turns, raws, paths, t) && AskedOk(|raws|, count, limit, got, paths, t)
    ensures Traced(turns + [Asked(|raws|, count, |got|, limit)], raws + got, paths, t)
  {
    hide Longest, Answered, Fair, Traced;
    assert (raws + got)[|raws|..|raws| + |got|] == got;
    TracedTurn(turns, raws, paths, t, Asked(|raws|, count, |got|, limit), got);
  }

  lemma TracedStandIn(turns: seq<Turn>, raws: seq<seq<byte>>, paths: seq<seq<byte>>, t: Truth,
                      limit: u32, configured: u32, raw: seq<byte>)
    requires Traced(turns, raws, paths, t) && |raws| < |paths|
    requires StoodInOk(limit, configured, raw, paths[|raws|])
    ensures Traced(turns + [StoodIn(|raws|, limit, configured)], raws + [raw], paths, t)
  {
    hide StoodInOk, Traced;
    TracedTurn(turns, raws, paths, t, StoodIn(|raws|, limit, configured), [raw]);
  }

  lemma TracedLength(turns: seq<Turn>, raws: seq<seq<byte>>, paths: seq<seq<byte>>, t: Truth)
    requires Traced(turns, raws, paths, t)
    ensures |raws| <= |paths|
  {
  }

  lemma NothingTraced(paths: seq<seq<byte>>, t: Truth)
    ensures Traced([], [], paths, t)
  {
  }

  // -------------------------------------------------------------------------
  //  Which answers are replaced
  // -------------------------------------------------------------------------

  /** Every answer the handler gives to these paths is definite. */
  ghost predicate Definite(paths: seq<seq<byte>>, t: Truth)
  {
    forall i :: 0 <= i < |paths| ==> Answerable(t.answer(paths[i]))
  }

  /** Every gathered item belongs to one turn. */
  lemma {:induction false} TurnOf(turns: seq<Turn>, n: nat, j: nat) returns (i: nat)
    requires n <= |turns| && j < TurnsEnd(turns[..n])
    requires forall k :: 0 <= k < |turns| ==> turns[k].start == TurnsEnd(turns[..k])
    ensures i < n && turns[i].start <= j < TurnEnd(turns[i])
    decreases n
  {
    if j >= turns[n - 1].start {
      i := n - 1;
    } else {
      i := TurnOf(turns, n - 1, j);
    }
  }

  /** The answer to `paths[j]` fits next to placeholders for the rest of a request of `count` paths. */
  ghost predicate SnugIn(paths: seq<seq<byte>>, j: nat, count: nat, t: Truth)
    requires 0 < count && j + count <= |paths|
  {
    Snug(paths[j], count, Reserved(Lens(paths[j..j + count]), 1), t)
  }

  /** A turn replaces the answer it opens with: a stand-in always does, an exchange when that
      answer does not fit beside placeholders for the other paths it asked for. */
  ghost predicate Marks(turn: Turn, paths: seq<seq<byte>>, t: Truth)
  {
    turn.StoodIn? || (0 < turn.count && turn.start + turn.count <= |paths| && !SnugIn(paths, turn.start, turn.count, t))
  }

  /** Item `j` belongs to this turn; it is the oversized mark exactly when it opens the turn and
      the turn replaces it, and the handler's answer otherwise. */
  ghost predicate DecidedBy(turn: Turn, raw: seq<byte>, paths: seq<seq<byte>>, t: Truth, j: nat)
  {
    && turn.start <= j < TurnEnd(turn) && j < |paths|
    && (Marked(raw, paths[j]) <==> j == turn.start && Marks(turn, paths, t))
    && (Exact(raw, paths[j], t) <==> !(j == turn.start && Marks(turn, paths, t)))
  }

  lemma AnswerIsNotMark(path: seq<byte>, t: Truth, raw: seq<byte>)
    requires Answerable(t.answer(path))
    ensures !(Exact(raw, path, t) && Marked(raw, path))
  {
    hide ItemBytes;
    var x, mark := AsItem(path, t.answer(path)), Placeholder(OVERSIZED_ITEM, path);
    if ItemBytes(x) == ItemBytes(mark) {
      StatusShows(x, mark);
    }
  }

  lemma AskDecides(start: nat, count: nat, limit: u32, got: seq<seq<byte>>, paths: seq<seq<byte>>, t: Truth, j: nat)
    requires AskedOk(start, count, limit, got, paths, t) && start <= j < start + |got|
    ensures Exact(got[j - start], paths[j], t) <==> j > start || SnugIn(paths, start, count, t)
    ensures Marked(got[j - start], paths[j]) <==> j == start && !SnugIn(paths, start, count, t)
  {
    hide Longest, Snug, Reserved, Lens, ItemBytes, Fair, Marked, Exact;
    var part := paths[start..start + count];
    FairItems(got, part, t);
    assert part[j - start] == paths[j];
    AnswerIsNotMark(paths[j], t, got[j - start]);
  }

  lemma TurnDecides(turn: Turn, raws: seq<seq<byte>>, paths: seq<seq<byte>>, t: Truth, j: nat)
    requires TurnOk(turn, raws, paths, t) && turn.start <= j < TurnEnd(turn) && Answerable(t.answer(paths[j]))
    ensures DecidedBy(turn, raws[j], paths, t, j)
  {
    hide AskedOk, SnugIn, Marked, Exact, Answerable, RequestBytes, Cap;
    if turn.Asked? {
      var got := raws[turn.start..TurnEnd(turn)];
      AskedBounds(turn.start, turn.count, turn.limit, got, paths, t);
      AskDecides(turn.start, turn.count, turn.limit, got, paths, t, j);
      assert got[j - turn.start] == raws[j];
    } else {
      AnswerIsNotMark(paths[j], t, raws[j]);
    }
  }

  lemma AskedBounds(start: nat, count: nat, limit: u32, got: seq<seq<byte>>, paths: seq<seq<byte>>, t: Truth)
    requires AskedOk(start, count, limit, got, paths, t)
    ensures 0 < |got| <= count && start + count <= |paths| && Longest(paths[start..], count, limit)
  {
    hide Longest, Answered, Fair;
  }

  /** Exactly which answers of a call are replaced by the oversized mark. */
  lemma MarkedExactlyWhen(turns: seq<Turn>, raws: seq<seq<byte>>, paths: seq<seq<byte>>, t: Truth, j: nat)
    returns (i: nat)
    requires Definite(paths, t) && Traced(turns, raws, paths, t) && j < |raws|
    ensures i < |turns| && DecidedBy(turns[i], raws[j], paths, t, j)
  {
    hide DecidedBy, TurnOk, Answerable;
    assert turns[..|turns|] == turns;
    i := TurnOf(turns, |turns|, j);
    TurnDecides(turns[i], raws, paths, t, j);
  }

  /** The answer to path `j` fits in every exchange that can open with it under `limit`. */
  ghost predicate SnugUnder(paths: seq<seq<byte>>, j: nat, t: Truth, limit: u32)
  {
    forall b :: j < b <= |paths| && |RequestBytes(paths[j..b])| <= Cap(limit) ==> SnugIn(paths, j, b - j, t)
  }

  /** Such an answer is replaced only by a stand-in. */
  lemma TracedSnug(turns: seq<Turn>, raws: seq<seq<byte>>, paths: seq<seq<byte>>, t: Truth, j: nat)
    requires Definite(paths, t) && Traced(turns, raws, paths, t) && j < |raws|
    requires forall i :: 0 <= i < |turns| ==> SnugUnder(paths, j, t, turns[i].limit)
    ensures Exact(raws[j], paths[j], t) || exists i :: 0 <= i < |turns| && turns[i].StoodIn? && turns[i].start == j
  {
    hide Definite, Exact, Marked, SnugIn, RequestBytes, AskedOk, StoodInOk;
    var i := MarkedExactlyWhen(turns, raws, paths, t, j);
    var turn := turns[i];
    assert SnugUnder(paths, j, t, turn.limit) && TurnOk(turn, raws, paths, t);
    if turn.Asked? && j == turn.start {
      AskedBounds(turn.start, turn.count, turn.limit, raws[turn.start..TurnEnd(turn)], paths, t);
      assert paths[j..][..turn.count] == paths[j..j + turn.count];
    }
  }

  /** A path too long for every limit of the call is always replaced, and by a stand-in. */
  lemma TooLongIsMarked(turns: seq<Turn>, raws: seq<seq<byte>>, paths: seq<seq<byte>>, t: Truth, j: nat)
    requires Traced(turns, raws, paths, t) && j < |raws|
    requires forall i :: 0 <= i < |turns| ==> |RequestBytes([paths[j]])| > Cap(turns[i].limit)
    ensures Marked(raws[j], paths[j]) && exists i :: 0 <= i < |turns| && turns[i].StoodIn? && turns[i].start == j
  {
    hide RequestBytes, Cap, AskedOk, Marked;
    assert turns[..|turns|] == turns;
    var i := TurnOf(turns, |turns|, j);
    var turn := turns[i];
    assert TurnOk(turn, raws, paths, t);
    if turn.Asked? {
      AskedBounds(turn.start, turn.count, turn.limit, raws[turn.start..TurnEnd(turn)], paths, t);
      AskedTakesEach(turn.start, turn.count, turn.limit, paths, j);
    }
  }

  lemma AskedTakesEach(start: nat, count: nat, limit: u32, paths: seq<seq<byte>>, j: nat)
    requires start <= j < start + count <= |paths| && Longest(paths[start..], count, limit)
    ensures |RequestBytes([paths[j]])| <= Cap(limit)
  {
    hide RequestBytes, Cap;
    var part := paths[start..][..count];
    assert part[j - start] == paths[j];
    PartTakesEach(part, j - start);
  }

  // -------------------------------------------------------------------------
  //  Under a fixed limit
  // -------------------------------------------------------------------------

  /** The longest prefix of at most `c` paths whose request fits. */
  ghost function LongestCount(rest: seq<seq<byte>>, limit: u32, c: nat): (n: nat)
    requires c <= |rest|
    ensures n <= c
  {
    if c == 0 || |RequestBytes(rest[..c])| <= Cap(limit) then c else LongestCount(rest, limit, c - 1)
  }

  /** The first cut-off item from `i` on. */
  ghost function CutPoint(items: seq<Item>, i: nat): (k: nat)
    requires i <= |items|
    decreases |items| - i
  {
    if i == |items| || items[i].status == PAYLOAD_EXCEEDED then i else CutPoint(items, i + 1)
  }

  /** The turns of a call from path `start` on, when neither limit ever changes: a function of the
      paths, the answers, the reply size and the limits alone. */
  ghost function Exchanges(paths: seq<seq<byte>>, t: Truth, limit: u32, configured: u32, start: nat): (turns: seq<Turn>)
    decreases |paths| - start
  {
    if start >= |paths| then []
    else if |RequestBytes([paths[start]])| > Cap(limit) then
      [StoodIn(start, limit, configured)] + Exchanges(paths, t, limit, configured, start + 1)
    else
      var count := LongestCount(paths[start..], limit, |paths| - start);
      var taken := CutPoint(HonestItems(paths[start..start + count], t), 0);
      if taken == 0 then []
      else [Asked(start, count, taken, limit)] + Exchanges(paths, t, limit, configured, start + taken)
  }

  lemma {:induction false} LongestFits(rest: seq<seq<byte>>, limit: u32, c: nat)
    requires c <= |rest|
    ensures var n := LongestCount(rest, limit, c); n == 0 || |RequestBytes(rest[..n])| <= Cap(limit)
  {
    hide RequestBytes, Cap;
    if c > 0 {
      LongestFits(rest, limit, c - 1);
    }
  }

  lemma {:induction false} LongestIsCount(rest: seq<seq<byte>>, count: nat, limit: u32, c: nat)
    requires Longest(rest, count, limit) && count <= c <= |rest|
    ensures LongestCount(rest, limit, c) == count
    decreases c
  {
    hide RequestBytes;
    if c > count {
      LongestIsCount(rest, count, limit, c - 1);
    }
  }

  lemma {:induction false} ShapedCut(paths: seq<seq<byte>>, t: Truth, items: seq<Item>, k: nat, i: nat)
    requires Shaped(paths, t.answer, items, k) && Definite(paths, t) && i <= k
    ensures CutPoint(items, i) == k
    decreases k - i
  {
    if i < k {
      ShapedCut(paths, t, items, k, i + 1);
    }
  }

  lemma AskedIsExchange(start: nat, count: nat, limit: u32, got: seq<seq<byte>>, paths: seq<seq<byte>>, t: Truth)
    requires AskedOk(start, count, limit, got, paths, t)
    ensures |RequestBytes([paths[start]])| <= Cap(limit)
    ensures count == LongestCount(paths[start..], limit, |paths| - start)
    ensures |got| == CutPoint(HonestItems(paths[start..start + count], t), 0)
  {
    hide RequestBytes, HonestItems, ItemBytes, LongestCount, CutPoint, PathOk, Answerable, Reserved;
    var rest, part := paths[start..], paths[start..start + count];
    LongestIsCount(rest, count, limit, |rest|);
    RequestGrows(rest, 1, count);
    assert rest[..1] == [paths[start]];
    ShapedCut(part, t, HonestItems(part, t), |got|, 0);
  }

  /** Every turn of a call was made under these limits. */
  ghost predicate AllUnder(turns: seq<Turn>, limit: u32, configured: u32)
  {
    forall i :: 0 <= i < |turns| ==>
      turns[i].limit == limit && (turns[i].StoodIn? ==> turns[i].configured == configured)
  }

  lemma TracedEnd(turns: seq<Turn>, raws: seq<seq<byte>>, paths: seq<seq<byte>>, t: Truth)
    requires Traced(turns, raws, paths, t)
    ensures TurnsEnd(turns) == |raws|
  {
  }

  lemma TracedAt(turns: seq<Turn>, raws: seq<seq<byte>>, paths: seq<seq<byte>>, t: Truth, i: nat)
    requires Traced(turns, raws, paths, t) && i < |turns|
    ensures TurnOk(turns[i], raws, paths, t)
    ensures turns[i].start == TurnsEnd(turns[..i]) && TurnEnd(turns[i]) == TurnsEnd(turns[..i + 1])
  {
    hide TurnOk;
    assert turns[..i + 1][i] == turns[i];
  }

  lemma Reattach(turns: seq<Turn>, later: seq<Turn>, i: nat)
    requires i < |turns|
    ensures turns[i..] + later == [turns[i]] + (turns[i + 1..] + later)
  {
  }

  /** The turns of a call so far are the first of those its inputs determine. */
  lemma {:induction false} ExchangesFrom(turns: seq<Turn>, raws: seq<seq<byte>>, paths: seq<seq<byte>>, t: Truth,
                                         limit: u32, configured: u32, i: nat)
    requires Traced(turns, raws, paths, t) && AllUnder(turns, limit, configured) && i <= |turns|
    ensures Exchanges(paths, t, limit, configured, TurnsEnd(turns[..i]))
            == turns[i..] + Exchanges(paths, t, limit, configured, |raws|)
    decreases |turns| - i
  {
    hide TurnOk, Exchanges, Traced, TurnsEnd;
    var later := Exchanges(paths, t, limit, configured, |raws|);
    if i == |turns| {
      TracedEnd(turns, raws, paths, t);
      assert turns[..i] == turns && turns[i..] + later == later;
    } else {
      ExchangesFrom(turns, raws, paths, t, limit, configured, i + 1);
      TracedAt(turns, raws, paths, t, i);
      TurnIsExchange(turns[i], raws, paths, t, limit, configured);
      Reattach(turns, later, i);
    }
  }

  lemma NoExchanges(paths: seq<seq<byte>>, t: Truth, limit: u32, configured: u32)
    ensures Exchanges(paths, t, limit, configured, |paths|) == []
  {
  }

  lemma TurnIsExchange(turn: Turn, raws: seq<seq<byte>>, paths: seq<seq<byte>>, t: Truth, limit: u32, configured: u32)
    requires TurnOk(turn, raws, paths, t) && turn.limit == limit && (turn.StoodIn? ==> turn.configured == configured)
    ensures Exchanges(paths, t, limit, configured, turn.start)
            == [turn] + Exchanges(paths, t, limit, configured, TurnEnd(turn))
  {
    hide AskedOk, RequestBytes, LongestCount, CutPoint, HonestItems, Marked, Cap;
    if turn.Asked? {
      var got := raws[turn.start..TurnEnd(turn)];
      AskedBounds(turn.start, turn.count, turn.limit, got, paths, t);
      AskedIsExchange(turn.start, turn.count, turn.limit, got, paths, t);
    }
  }

  /** A path is replaced by the oversized mark, in terms of the inputs alone. */
  ghost predicate MarkedBy(paths: seq<seq<byte>>, t: Truth, limit: u32, configured: u32, j: nat)
  {
    var turns := Exchanges(paths, t, limit, configured, 0);
    exists i :: 0 <= i < |turns| && turns[i].start == j && Marks(turns[i], paths, t)
  }

  lemma {:induction false} ExchangesStartLater(paths: seq<seq<byte>>, t: Truth, limit: u32, configured: u32,
                                               start: nat, i: nat)
    requires i < |Exchanges(paths, t, limit, configured, start)|
    ensures Exchanges(paths, t, limit, configured, start)[i].start >= start
    decreases i
  {
    hide RequestBytes, LongestCount, CutPoint, HonestItems, Cap;
    var all := Exchanges(paths, t, limit, configured, start);
    if i > 0 {
      var next := TurnEnd(all[0]);
      assert all == [all[0]] + Exchanges(paths, t, limit, configured, next);
      ExchangesStartLater(paths, t, limit, configured, next, i - 1);
    }
  }

  /** Under fixed limits the marks of a call are determined by its inputs. */
  lemma MarkedByInputs(turns: seq<Turn>, raws: seq<seq<byte>>, paths: seq<seq<byte>>, t: Truth,
                       limit: u32, configured: u32, j: nat)
    requires Definite(paths, t) && Traced(turns, raws, paths, t) && j < |raws|
    requires AllUnder(turns, limit, configured)
    ensures Marked(raws[j], paths[j]) <==> MarkedBy(paths, t, limit, configured, j)
    ensures Exact(raws[j], paths[j], t) <==> !MarkedBy(paths, t, limit, configured, j)
  {
    hide TurnOk, Exchanges, Marks, Marked, Exact, Answerable;
    ExchangesFrom(turns, raws, paths, t, limit, configured, 0);
    var all, later := Exchanges(paths, t, limit, configured, 0), Exchanges(paths, t, limit, configured, |raws|);
    assert all == turns + later;
    var i := MarkedExactlyWhen(turns, raws, paths, t, j);
    assert all[i] == turns[i];
    forall k | 0 <= k < |all| && all[k].start == j
      ensures k < |turns| && DecidedBy(all[k], raws[j], paths, t, j)
    {
      if k >= |turns| {
        ExchangesStartLater(paths, t, limit, configured, |raws|, k - |turns|);
      }
      TurnNotEmpty(turns[k], raws, paths, t);
      TurnDecides(turns[k], raws, paths, t, j);
    }
  }

  lemma TurnNotEmpty(turn: Turn, raws: seq<seq<byte>>, paths: seq<seq<byte>>, t: Truth)
    requires TurnOk(turn, raws, paths, t)
    ensures turn.start < TurnEnd(turn)
  {
    hide Longest, Answered, Fair, StoodInOk;
  }

  // -------------------------------------------------------------------------
  //  The number of exchanges
  // -------------------------------------------------------------------------

  ghost function Asks(turns: seq<Turn>): nat
  {
    if turns == [] then 0 else Asks(turns[..|turns| - 1]) + if turns[|turns| - 1].Asked? then 1 else 0
  }

  ghost predicate EndsAsked(turns: seq<Turn>)
  {
    turns != [] && turns[|turns| - 1].Asked?
  }

  /** The exchanges a call of these turns makes: one more, for no path, unless its last turn was one. */
  ghost function Subcalls(turns: seq<Turn>): nat
  {
    Asks(turns) + if EndsAsked(turns) then 0 else 1
  }

  lemma AsksSnoc(turns: seq<Turn>, turn: Turn)
    ensures Asks(turns + [turn]) == Asks(turns) + if turn.Asked? then 1 else 0
    ensures EndsAsked(turns + [turn]) <==> turn.Asked?
  {
    assert (turns + [turn])[..|turns|] == turns;
  }

  lemma {:induction false} AsksConcat(a: seq<Turn>, b: seq<Turn>)
    ensures Asks(a + b) == Asks(a) + Asks(b)
    decreases |b|
  {
    if b == [] {
      assert a + b == a;
    } else {
      var n := |b| - 1;
      AsksConcat(a, b[..n]);
      assert a + b == a + b[..n] + [b[n]];
      AsksSnoc(a + b[..n], b[n]);
    }
  }

  /** A path that fits the limit is asked about, if the server has room for the longest request
      that starts with it. */
  lemma NextIsAsked(paths: seq<seq<byte>>, t: Truth, limit: u32, configured: u32, start: nat)
    requires start < |paths| && |RequestBytes([paths[start]])| <= Cap(limit) && Definite(paths, t)
    requires Answered(paths[start..start + LongestCount(paths[start..], limit, |paths| - start)], t)
    ensures var turns := Exchanges(paths, t, limit, configured, start); turns != [] && turns[0].Asked?
  {
    hide RequestBytes, LongestCount, CutPoint, HonestItems, Cap, Answered, Answerable;
    var rest := paths[start..];
    LongestPositive(rest, limit, |rest|);
    var part := paths[start..start + LongestCount(rest, limit, |rest|)];
    var k := HonestShape(part, t);
    ShapedCut(part, t, HonestItems(part, t), k, 0);
  }

  lemma {:induction false} LongestPositive(rest: seq<seq<byte>>, limit: u32, c: nat)
    requires 0 < c <= |rest| && |RequestBytes([rest[0]])| <= Cap(limit)
    ensures LongestCount(rest, limit, c) > 0
  {
    hide RequestBytes;
    if c == 1 {
      assert rest[..1] == [rest[0]];
    } else {
      LongestPositive(rest, limit, c - 1);
    }
  }

  lemma FirstAsks(turns: seq<Turn>)
    requires turns != []
    ensures Asks(turns) == Asks(turns[1..]) + if turns[0].Asked? then 1 else 0
  {
    hide Asks;
    NoAsks();
    assert turns == [turns[0]] + turns[1..] && [turns[0]] == [] + [turns[0]];
    AsksSnoc([], turns[0]);
    AsksConcat([turns[0]], turns[1..]);
  }

  /** A call that made these turns and must still ask makes more exchanges than they did. */
  lemma MoreSubcalls(turns: seq<Turn>, later: seq<Turn>)
    requires later != [] && later[0].Asked?
    ensures Subcalls(turns + later) > Asks(turns)
  {
    hide Asks;
    AsksConcat(turns, later);
    FirstAsks(later);
  }

  /** No call makes more exchanges than it has paths, or than one. */
  lemma {:induction false} SubcallsBound(paths: seq<seq<byte>>, t: Truth, limit: u32, configured: u32, start: nat)
    requires start <= |paths|
    ensures var turns := Exchanges(paths, t, limit, configured, start);
            && Asks(turns) <= |paths| - start
            && (turns != [] && !EndsAsked(turns) ==> Asks(turns) < |paths| - start)
    decreases |paths| - start
  {
    hide RequestBytes, LongestCount, CutPoint, HonestItems, Cap, Asks;
    var turns := Exchanges(paths, t, limit, configured, start);
    NoAsks();
    if turns != [] {
      var next := TurnEnd(turns[0]);
      var rest := Exchanges(paths, t, limit, configured, next);
      assert turns == [turns[0]] + rest;
      FirstAsks(turns);
      if next <= |paths| {
        SubcallsBound(paths, t, limit, configured, next);
      }
    }
  }

  lemma NoAsks()
    ensures Asks([]) == 0 && !EndsAsked([])
  {
  }
}
