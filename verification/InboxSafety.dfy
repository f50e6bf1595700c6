/**
 What every transaction of the inbox keeps, and therefore what holds in every reachable inbox:
 bounded queues, pacing, deduplication, wake coherence, and no lost unread message.
 */
module InboxSafety {
  import opened Base
  import opened Inbox

  /** What holds of an earlier row `a` and a later row `b` of the table. */
  predicate Apart(a: Row, b: Row) {
    && a.id != b.id
    && !(a.peer == b.peer && a.msg.wireId == b.msg.wireId)
    && a.received <= b.received
    && (a.peer == b.peer && a.msg.body == b.msg.body ==> b.received - a.received >= WINDOW)
  }

  ghost predicate Ordered(rows: seq<Row>) {
    forall i, j {:trigger Apart(rows[i], rows[j])} :: 0 <= i < j < |rows| ==> Apart(rows[i], rows[j])
  }

  /** No peer ever has more than twenty rows received in any ten-second window. */
  ghost predicate Paced(rows: seq<Row>) {
    forall peer, end :: Count(rows, Window(peer, end)) <= RATE_LIMIT
  }

  predicate WakeCoherent(s: Inbox) {
    s.wake.Some? ==>
      var w := s.wake.value;
      && Count(s.rows, InState(Unread)) > 0
      && w.needsManual == !w.submitted
      && (w.submitted ==> w.ackRevision == s.ackRevision)
      && w.ackRevision <= s.ackRevision
  }

  ghost predicate Valid(s: Inbox) {
    && Ordered(s.rows)
    && Paced(s.rows)
    && Count(s.rows, InState(Unread)) <= UNREAD_LIMIT
    && Count(s.rows, InState(Held)) <= HELD_LIMIT
    && WakeCoherent(s)
  }

  // ---------------------------------------------------------------- rewriting states in place

  /** The same messages in the same order; only states differ. */
  ghost predicate SameMessages(rows: seq<Row>, other: seq<Row>) {
    |rows| == |other| && forall i :: 0 <= i < |rows| ==> other[i] == rows[i].(state := other[i].state)
  }

  lemma {:induction false} SameWindowCount(rows: seq<Row>, other: seq<Row>, peer: string, end: real)
    requires SameMessages(rows, other)
    ensures Count(rows, Window(peer, end)) == Count(other, Window(peer, end))
  {
    if rows != [] {
      var n := |rows| - 1;
      SameWindowCount(rows[..n], other[..n], peer, end);
    }
  }

  lemma RestateKeepsOrder(rows: seq<Row>, other: seq<Row>)
    requires SameMessages(rows, other) && Ordered(rows) && Paced(rows)
    ensures Ordered(other) && Paced(other)
  {
    forall i, j | 0 <= i < j < |other| ensures Apart(other[i], other[j]) {
      assert Apart(rows[i], rows[j]);
    }
    forall peer, end ensures Count(other, Window(peer, end)) <= RATE_LIMIT {
      SameWindowCount(rows, other, peer, end);
    }
  }

  // ---------------------------------------------------------------- accepting

  lemma AppendKeepsOrder(rows: seq<Row>, row: Row)
    requires Ordered(rows) && Paced(rows)
    requires forall r :: r in rows ==> r.received <= row.received && r.id != row.id
    requires !Known(rows, row.peer, row.msg.wireId)
    requires !RecentBody(rows, row.peer, row.msg.body, row.received)
    requires Count(rows, Since(row.peer, row.received - WINDOW)) < RATE_LIMIT
    ensures Ordered(rows + [row]) && Paced(rows + [row])
  {
    var all := rows + [row];
    forall i, j | 0 <= i < j < |all| ensures Apart(all[i], all[j]) {
      if j == |rows| {
        assert rows[i] in rows;
      }
    }
    forall peer, end ensures Count(all, Window(peer, end)) <= RATE_LIMIT {
      CountAppend(rows, row, Window(peer, end));
      if Sat(Window(peer, end), row) {
        CountMono(rows, Window(peer, end), Since(row.peer, row.received - WINDOW));
      }
    }
  }

  /** Inserting `row`, with the row at `i` expired to make room. */
  lemma EvictKeepsOrder(rows: seq<Row>, i: nat, row: Row)
    requires i < |rows| && Ordered(rows + [row]) && Paced(rows + [row])
    ensures var kept := rows[i := rows[i].(state := Expired)] + [row]; Ordered(kept) && Paced(kept)
  {
    RestateKeepsOrder(rows + [row], rows[i := rows[i].(state := Expired)] + [row]);
  }

  lemma EvictCounts(rows: seq<Row>, i: nat, row: Row, st: Status)
    requires i < |rows| && rows[i].state == Held && row.state == Held && !st.Terminal()
    ensures Count(rows[i := rows[i].(state := Expired)] + [row], InState(st)) == Count(rows, InState(st))
  {
    var evicted := rows[i].(state := Expired);
    CountUpdate(rows, i, evicted, InState(st));
    CountAppend(rows[i := evicted], row, InState(st));
  }

  lemma AcceptOrder(s: Inbox, m: Message, peer: string, queue: Status, now: real, id: string)
    requires Ordered(s.rows) && Paced(s.rows) && Admits(s, Accept(m, peer, queue, now, id))
    ensures var rows := AcceptTx(s, m, peer, queue, now, id).0.rows; Ordered(rows) && Paced(rows)
  {
    var verdict := AcceptTx(s, m, peer, queue, now, id).1;
    if verdict.Stored? {
      AppendKeepsOrder(s.rows, verdict.row);
      if verdict.evicted.Some? {
        EvictKeepsOrder(s.rows, OldestHeld(s.rows), verdict.row);
      }
    }
  }

  lemma AcceptCount(s: Inbox, m: Message, peer: string, queue: Status, now: real, id: string, st: Status)
    requires queue.Unread? || queue.Held?
    requires !st.Terminal()
    ensures var n, n' := Count(s.rows, InState(st)), Count(AcceptTx(s, m, peer, queue, now, id).0.rows, InState(st));
      n <= n' <= (if queue == st then n + 1 else n)
      && (n >= (if st.Unread? then UNREAD_LIMIT else HELD_LIMIT) ==> n == n')
  {
    var verdict := AcceptTx(s, m, peer, queue, now, id).1;
    if verdict.Stored? {
      CountAppend(s.rows, verdict.row, InState(st));
      if verdict.evicted.Some? {
        EvictCounts(s.rows, OldestHeld(s.rows), verdict.row, st);
      }
    }
  }

  lemma AcceptKeepsValid(s: Inbox, m: Message, peer: string, queue: Status, now: real, id: string)
    requires Valid(s) && Admits(s, Accept(m, peer, queue, now, id))
    ensures Valid(AcceptTx(s, m, peer, queue, now, id).0)
  {
    AcceptOrder(s, m, peer, queue, now, id);
    AcceptCount(s, m, peer, queue, now, id, Unread);
    AcceptCount(s, m, peer, queue, now, id, Held);
  }

  // ---------------------------------------------------------------- moving

  ghost predicate UniqueIds(rows: seq<Row>) {
    forall i, j :: 0 <= i < j < |rows| ==> rows[i].id != rows[j].id
  }

  lemma ValidIds(s: Inbox)
    requires Valid(s)
    ensures UniqueIds(s.rows)
  {
    assert forall i, j :: 0 <= i < j < |s.rows| ==> Apart(s.rows[i], s.rows[j]);
  }

  lemma NamedAppend(front: seq<Row>, last: Row, ids: seq<string>, st: Status)
    requires forall r :: r in front ==> r.id != last.id
    ensures |Named(front + [last], ids, st)|
         == |Named(front, ids, st)| + if last.state == st && last.id in ids then 1 else 0
  {
    var here := if last.state == st && last.id in ids then {last.id} else {};
    assert Named(front + [last], ids, st) == Named(front, ids, st) + here by {
      assert forall r :: r in front + [last] <==> r in front || r == last;
    }
  }

  /** What one row contributes to a move. */
  function Gain(moved: nat, mv: Move, st: Status): int {
    (if st == mv.After() then moved else 0) - (if st == mv.Before() then moved else 0)
  }

  lemma MoveCountsRow(r: Row, ids: seq<string>, mv: Move, st: Status)
    ensures One(InState(st), MoveRow(r, ids, mv)) ==
      One(InState(st), r) + Gain(if r.state == mv.Before() && r.id in ids then 1 else 0, mv, st)
  {
  }

  lemma FrontIds(rows: seq<Row>)
    requires UniqueIds(rows) && rows != []
    ensures UniqueIds(rows[..|rows| - 1]) && forall r :: r in rows[..|rows| - 1] ==> r.id != rows[|rows| - 1].id
  {
  }

  lemma MoveAppend(front: seq<Row>, last: Row, ids: seq<string>, mv: Move)
    ensures MoveRows(front + [last], ids, mv) == MoveRows(front, ids, mv) + [MoveRow(last, ids, mv)]
  {
  }

  ghost predicate Conserved(rows: seq<Row>, ids: seq<string>, mv: Move, st: Status) {
    Count(MoveRows(rows, ids, mv), InState(st)) == Count(rows, InState(st)) + Gain(|Named(rows, ids, mv.Before())|, mv, st)
  }

  lemma ConservedAppend(front: seq<Row>, last: Row, ids: seq<string>, mv: Move, st: Status)
    requires Conserved(front, ids, mv, st) && forall r :: r in front ==> r.id != last.id
    ensures Conserved(front + [last], ids, mv, st)
  {
    MoveAppend(front, last, ids, mv);
    CountAppend(MoveRows(front, ids, mv), MoveRow(last, ids, mv), InState(st));
    CountAppend(front, last, InState(st));
    MoveCountsRow(last, ids, mv, st);
    NamedAppend(front, last, ids, mv.Before());
  }

  /** Exactly the named rows leave one state for the other: nothing else is gained or lost. */
  lemma {:induction false} MoveCounts(rows: seq<Row>, ids: seq<string>, mv: Move, st: Status)
    requires UniqueIds(rows)
    ensures Conserved(rows, ids, mv, st)
  {
    if rows == [] {
      assert Named(rows, ids, mv.Before()) == {};
    } else {
      var n := |rows| - 1;
      FrontIds(rows);
      MoveCounts(rows[..n], ids, mv, st);
      ConservedAppend(rows[..n], rows[n], ids, mv, st);
      assert rows == rows[..n] + [rows[n]];
    }
  }

  lemma MoveBounds(s: Inbox, ids: seq<string>, mv: Move)
    requires UniqueIds(s.rows) && WakeCoherent(s)
    requires Count(s.rows, InState(Unread)) <= UNREAD_LIMIT && Count(s.rows, InState(Held)) <= HELD_LIMIT
    ensures var t := MoveTx(s, ids, mv);
      Count(t.rows, InState(Unread)) <= UNREAD_LIMIT && Count(t.rows, InState(Held)) <= HELD_LIMIT && WakeCoherent(t)
  {
    if !Refused(s, ids, mv) {
      MoveCounts(s.rows, ids, mv, Unread);
      MoveCounts(s.rows, ids, mv, Held);
      var moved := |Named(s.rows, ids, mv.Before())|;
      assert mv.Ack? && moved == 0 ==> Named(s.rows, ids, Unread) == {};
    }
  }

  lemma MoveKeepsMessages(s: Inbox, ids: seq<string>, mv: Move)
    ensures SameMessages(s.rows, MoveTx(s, ids, mv).rows)
  {
  }

  lemma MoveKeepsValid(s: Inbox, ids: seq<string>, mv: Move)
    requires Valid(s)
    ensures Valid(MoveTx(s, ids, mv))
  {
    ValidIds(s);
    MoveBounds(s, ids, mv);
    MoveKeepsMessages(s, ids, mv);
    RestateKeepsOrder(s.rows, MoveTx(s, ids, mv).rows);
  }

  // ---------------------------------------------------------------- expiring

  lemma {:induction false} AgeCounts(rows: seq<Row>, now: real)
    ensures Count(AgeRows(rows, now), InState(Unread)) == Count(rows, InState(Unread))
    ensures Count(AgeRows(rows, now), InState(Held)) <= Count(rows, InState(Held))
  {
    if rows != [] {
      var n := |rows| - 1;
      AgeCounts(rows[..n], now);
      assert AgeRows(rows, now)[..n] == AgeRows(rows[..n], now);
    }
  }

  /** `kept` is `rows` with some terminal rows taken out and nothing else changed. */
  ghost predicate Thinned(rows: seq<Row>, kept: seq<Row>) {
    && (Ordered(rows) ==> Ordered(kept))
    && (forall r :: r in kept ==> r in rows)
    && (forall r :: r in rows && !r.state.Terminal() ==> r in kept)
    && (forall q :: Count(kept, q) <= Count(rows, q))
    && (forall st: Status :: !st.Terminal() ==> Count(kept, InState(st)) == Count(rows, InState(st)))
  }

  lemma ThinnedAppend(front: seq<Row>, kept: seq<Row>, last: Row)
    requires Thinned(front, kept)
    ensures Thinned(front + [last], kept + [last])
    ensures last.state.Terminal() ==> Thinned(front + [last], kept)
  {
    var rows := front + [last];
    assert forall i :: 0 <= i < |front| ==> rows[i] == front[i];
    if Ordered(rows) {
      assert Ordered(front) by {
        assert forall i, j :: 0 <= i < j < |front| ==> Apart(rows[i], rows[j]);
      }
      var all := kept + [last];
      forall i, j | 0 <= i < j < |all| ensures Apart(all[i], all[j]) {
        if j == |kept| {
          assert kept[i] in front;
          var k :| 0 <= k < |front| && front[k] == kept[i];
          assert Apart(rows[k], rows[|front|]);
        }
      }
    }
    forall q ensures Count(kept + [last], q) == Count(kept, q) + One(q, last)
             && Count(rows, q) == Count(front, q) + One(q, last) {
      CountAppend(kept, last, q);
      CountAppend(front, last, q);
    }
  }

  lemma {:induction false} DropStaleThins(rows: seq<Row>, now: real)
    ensures Thinned(rows, DropStale(rows, now))
    ensures forall r :: r in DropStale(rows, now) ==> !Stale(r, now)
  {
    if rows != [] {
      var n := |rows| - 1;
      var front, last := rows[..n], rows[n];
      assert rows == front + [last];
      DropStaleThins(front, now);
      ThinnedAppend(front, DropStale(front, now), last);
    }
  }

  lemma {:induction false} KeepNewestThins(rows: seq<Row>, keep: nat)
    ensures Thinned(rows, KeepNewest(rows, keep))
    ensures Count(KeepNewest(rows, keep), History)
         == if Count(rows, History) < keep then Count(rows, History) else keep
  {
    if rows != [] {
      var n := |rows| - 1;
      var rest := if rows[n].state.Terminal() && keep > 0 then keep - 1 else keep;
      var front, last := rows[..n], rows[n];
      assert rows == front + [last];
      KeepNewestThins(front, rest);
      ThinnedAppend(front, KeepNewest(front, rest), last);
      CountAppend(KeepNewest(front, rest), last, History);
    }
  }

  /** Only the oldest history goes: a row removed for room is no newer than any terminal row kept. */
  lemma {:induction false} KeepNewestDropsOldest(rows: seq<Row>, keep: nat, gone: Row, kept: Row)
    requires Ordered(rows)
    requires gone in rows && gone !in KeepNewest(rows, keep)
    requires kept in KeepNewest(rows, keep) && kept.state.Terminal()
    ensures gone.received <= kept.received
  {
    var n := |rows| - 1;
    var last := rows[n];
    assert rows == rows[..n] + [last];
    var rest := if last.state.Terminal() && keep > 0 then keep - 1 else keep;
    KeepNewestThins(rows[..n], rest);
    if kept == last {
      var k :| 0 <= k < |rows| && rows[k] == gone;
      assert k < n ==> Apart(rows[k], rows[n]);
    } else if gone == last {
      // The last row goes only when no terminal row at all is kept.
      KeepNewestThins(rows, 0);
      CountPositive(KeepNewest(rows, 0), History);
    } else {
      KeepNewestDropsOldest(rows[..n], rest, gone, kept);
    }
  }

  lemma ExpireKeepsValid(s: Inbox, now: real)
    requires Valid(s)
    ensures Valid(ExpireTx(s, now))
  {
    var aged := AgeRows(s.rows, now);
    RestateKeepsOrder(s.rows, aged);
    AgeCounts(s.rows, now);
    var recent := DropStale(aged, now);
    DropStaleThins(aged, now);
    KeepNewestThins(recent, HISTORY_LIMIT);
    var t := ExpireTx(s, now);
    forall peer, end ensures Count(t.rows, Window(peer, end)) <= RATE_LIMIT {
      assert Count(t.rows, Window(peer, end)) <= Count(recent, Window(peer, end));
      assert Count(recent, Window(peer, end)) <= Count(aged, Window(peer, end));
    }
  }

  lemma {:induction false} DropStaleExact(rows: seq<Row>, now: real, r: Row)
    ensures r in DropStale(rows, now) <==> r in rows && !Stale(r, now)
  {
    if rows != [] {
      var n := |rows| - 1;
      DropStaleExact(rows[..n], now, r);
      assert rows == rows[..n] + [rows[n]];
    }
  }

  lemma {:induction false} KeepNewestKeepsAll(rows: seq<Row>, keep: nat)
    requires Count(rows, History) <= keep
    ensures KeepNewest(rows, keep) == rows
  {
    if rows != [] {
      var n := |rows| - 1;
      KeepNewestKeepsAll(rows[..n], if rows[n].state.Terminal() then keep - 1 else keep);
    }
  }

  lemma NoneAged(rows: seq<Row>, now: real, r: Row)
    requires r in AgeRows(rows, now)
    ensures !Aged(r, now)
  {
    var k :| 0 <= k < |rows| && AgeRows(rows, now)[k] == r;
  }

  /**
   After maintenance no held message is older than five minutes, at most a thousand processed
   messages remain, and none of those is older than seven days.
   */
  lemma ExpireBounds(s: Inbox, now: real)
    ensures forall r :: r in ExpireTx(s, now).rows ==> !Aged(r, now) && !Stale(r, now)
    ensures Count(ExpireTx(s, now).rows, History) <= HISTORY_LIMIT
  {
    KeepNewestThins(DropStale(AgeRows(s.rows, now), now), HISTORY_LIMIT);
    forall r | r in ExpireTx(s, now).rows ensures !Aged(r, now) && !Stale(r, now) {
      DropStaleExact(AgeRows(s.rows, now), now, r);
      NoneAged(s.rows, now, r);
    }
  }

  /** Maintenance is no more eager than that: with a thousand or fewer to keep, recent history stays. */
  lemma ExpireKeepsHistory(s: Inbox, now: real, r: Row)
    requires r in s.rows && !Aged(r, now) && !Stale(r, now)
    requires Count(DropStale(AgeRows(s.rows, now), now), History) <= HISTORY_LIMIT
    ensures r in ExpireTx(s, now).rows
  {
    var aged := AgeRows(s.rows, now);
    var k :| 0 <= k < |s.rows| && s.rows[k] == r;
    assert aged[k] == r;
    DropStaleExact(aged, now, r);
    KeepNewestKeepsAll(DropStale(aged, now), HISTORY_LIMIT);
  }

  // ---------------------------------------------------------------- every run

  lemma PerformKeepsValid(s: Inbox, op: Op)
    requires Valid(s) && Admits(s, op)
    ensures Valid(Perform(s, op))
  {
    match op
    case Accept(m, peer, queue, now, id) => AcceptKeepsValid(s, m, peer, queue, now, id);
    case Transition(ids, mv) => MoveKeepsValid(s, ids, mv);
    case Expire(now) => ExpireKeepsValid(s, now);
    case BeginWake(id) =>
    case FinishWake(id, outcome) =>
  }

  lemma {:induction false} PerformAllKeepsValid(s: Inbox, ops: seq<Op>)
    requires Valid(s) && AdmitsAll(s, ops)
    ensures Valid(PerformAll(s, ops))
    decreases |ops|
  {
    if ops != [] {
      PerformKeepsValid(s, ops[0]);
      PerformAllKeepsValid(Perform(s, ops[0]), ops[1..]);
    }
  }

  /** The invariant, spelled out for any inbox reached from an empty database. */
  lemma ReachableInbox(ops: seq<Op>)
    requires AdmitsAll(EMPTY, ops)
    ensures var s := PerformAll(EMPTY, ops);
      && Count(s.rows, InState(Unread)) <= 50 && Count(s.rows, InState(Held)) <= 100
      && (forall peer, end :: Count(s.rows, Window(peer, end)) <= 20)
      && (forall i, j :: 0 <= i < j < |s.rows| ==> Apart(s.rows[i], s.rows[j]))
      && WakeCoherent(s)
  {
    PerformAllKeepsValid(EMPTY, ops);
  }

  // ---------------------------------------------------------------- no message is lost

  predicate Edge(before: Status, after: Status) {
    || (before == Held && (after == Unread || after == Declined || after == Expired))
    || (before == Unread && after == Read)
  }

  ghost predicate AcksId(op: Op, id: string) {
    op.Transition? && op.mv.Ack? && id in op.ids
  }

  /** Maintenance leaves unread rows, and held rows within their five minutes, as they are. */
  lemma ExpireKeeps(s: Inbox, now: real, r: Row)
    requires r in s.rows && !r.state.Terminal() && !Aged(r, now)
    ensures r in ExpireTx(s, now).rows
  {
    var aged := AgeRows(s.rows, now);
    var k :| 0 <= k < |s.rows| && s.rows[k] == r;
    assert aged[k] == r;
    DropStaleThins(aged, now);
    KeepNewestThins(DropStale(aged, now), HISTORY_LIMIT);
  }

  lemma AcceptKeeps(s: Inbox, m: Message, peer: string, queue: Status, now: real, id: string, r: Row)
    requires queue.Unread? || queue.Held?
    requires r in s.rows
    ensures r in AcceptTx(s, m, peer, queue, now, id).0.rows
         || (r.state == Held && r.(state := Expired) in AcceptTx(s, m, peer, queue, now, id).0.rows)
  {
    var (t, verdict) := AcceptTx(s, m, peer, queue, now, id);
    var k :| 0 <= k < |s.rows| && s.rows[k] == r;
    if verdict.Stored? {
      assert t.rows[k] in t.rows;
    }
  }

  lemma MoveKeeps(s: Inbox, ids: seq<string>, mv: Move, r: Row)
    requires r in s.rows
    ensures r in MoveTx(s, ids, mv).rows || MoveRow(r, ids, mv) in MoveTx(s, ids, mv).rows
    ensures MoveRow(r, ids, mv) == r ==> r in MoveTx(s, ids, mv).rows
  {
    var k :| 0 <= k < |s.rows| && s.rows[k] == r;
    if !Refused(s, ids, mv) {
      assert MoveRows(s.rows, ids, mv)[k] == MoveRow(r, ids, mv);
    }
  }

  /** An operation leaves an unread row exactly as it is, unless it acknowledges that row. */
  lemma UnreadStays(s: Inbox, op: Op, r: Row)
    requires Admits(s, op) && r in s.rows && r.state == Unread && !AcksId(op, r.id)
    ensures r in Perform(s, op).rows
  {
    match op
    case Accept(m, peer, queue, now, id) => AcceptKeeps(s, m, peer, queue, now, id, r);
    case Transition(ids, mv) => MoveKeeps(s, ids, mv, r);
    case Expire(now) => ExpireKeeps(s, now, r);
    case _ =>
  }

  /** In every run an unread message stays until an acknowledgement names it. */
  lemma {:induction false} UnreadNeverLost(s: Inbox, ops: seq<Op>, r: Row)
    requires AdmitsAll(s, ops) && r in s.rows && r.state == Unread
    requires forall op :: op in ops ==> !AcksId(op, r.id)
    ensures r in PerformAll(s, ops).rows
    decreases |ops|
  {
    if ops != [] {
      UnreadStays(s, ops[0], r);
      assert ops == [ops[0]] + ops[1..];
      UnreadNeverLost(Perform(s, ops[0]), ops[1..], r);
    }
  }

  /** The history is full, of rows no older than this one. */
  ghost predicate Crowded(rows: seq<Row>, r: Row) {
    && Count(rows, History) == HISTORY_LIMIT
    && forall k :: k in rows && k.state.Terminal() ==> r.received <= k.received
  }

  lemma KeepNewestCrowds(rows: seq<Row>, r: Row)
    requires Ordered(rows) && r in rows
    ensures r in KeepNewest(rows, HISTORY_LIMIT) || Crowded(KeepNewest(rows, HISTORY_LIMIT), r)
  {
    if r !in KeepNewest(rows, HISTORY_LIMIT) {
      if Count(rows, History) <= HISTORY_LIMIT {
        KeepNewestKeepsAll(rows, HISTORY_LIMIT);
      }
      KeepNewestThins(rows, HISTORY_LIMIT);
      forall k | k in KeepNewest(rows, HISTORY_LIMIT) && k.state.Terminal() ensures r.received <= k.received {
        KeepNewestDropsOldest(rows, HISTORY_LIMIT, r, k);
      }
    }
  }

  lemma RecentOrdered(s: Inbox, now: real)
    requires Valid(s)
    ensures Ordered(DropStale(AgeRows(s.rows, now), now))
  {
    RestateKeepsOrder(s.rows, AgeRows(s.rows, now));
    DropStaleThins(AgeRows(s.rows, now), now);
  }

  /** Maintenance drops a row, aged or not, only if it is stale or the history is full of newer ones. */
  lemma ExpireDrops(s: Inbox, now: real, r: Row)
    requires Valid(s) && r in AgeRows(s.rows, now)
    ensures r in ExpireTx(s, now).rows || Stale(r, now) || Crowded(ExpireTx(s, now).rows, r)
  {
    var aged := AgeRows(s.rows, now);
    DropStaleExact(aged, now, r);
    if !Stale(r, now) {
      RecentOrdered(s, now);
      KeepNewestCrowds(DropStale(aged, now), r);
    }
  }

  lemma AgedRow(rows: seq<Row>, now: real, r: Row)
    requires r in rows
    ensures AgeRow(r, now) in AgeRows(rows, now)
  {
    var k :| 0 <= k < |rows| && rows[k] == r;
    assert AgeRows(rows, now)[k] == AgeRow(r, now);
  }

  /**
   Rows change only along the four edges and keep their message.  A row goes only at maintenance, as
   history: with the state it then has, a held row past its time being expired, it is older than seven
   days or older than a full history.
   */
  lemma RowLifecycle(s: Inbox, op: Op, r: Row)
    requires Valid(s) && Admits(s, op) && r in s.rows
    ensures (exists st :: r.(state := st) in Perform(s, op).rows && (st == r.state || Edge(r.state, st)))
         || (op.Expire? && var last := AgeRow(r, op.now);
             last.state.Terminal() && (Stale(last, op.now) || Crowded(Perform(s, op).rows, last)))
    ensures op.Expire? && Aged(r, op.now) ==> r !in Perform(s, op).rows
  {
    assert r == r.(state := r.state);
    match op
    case Accept(m, peer, queue, now, id) => AcceptKeeps(s, m, peer, queue, now, id, r);
    case Transition(ids, mv) => MoveKeeps(s, ids, mv, r);
    case Expire(now) =>
      ExpireBounds(s, now);
      AgedRow(s.rows, now, r);
      ExpireDrops(s, now, AgeRow(r, now));
      if !AgeRow(r, now).state.Terminal() {
        ExpireKeeps(s, now, r);
      }
      assert AgeRow(r, now) == r.(state := AgeRow(r, now).state);
    case _ =>
  }

  /** The row comes from one of the earlier rows, unchanged or along an edge. */
  ghost predicate Descends(rows: seq<Row>, r: Row) {
    exists st :: r.(state := st) in rows && (st == r.state || Edge(st, r.state))
  }

  lemma {:induction false} KeepNewestFrom(rows: seq<Row>, keep: nat, x: Row)
    requires x in KeepNewest(rows, keep)
    ensures x in rows
  {
    var n := |rows| - 1;
    assert rows == rows[..n] + [rows[n]];
    if x != rows[n] {
      KeepNewestFrom(rows[..n], if rows[n].state.Terminal() && keep > 0 then keep - 1 else keep, x);
    }
  }

  /** A row after maintenance is some row before it, aged. */
  lemma ExpireFrom(s: Inbox, now: real, x: Row) returns (k: nat)
    requires x in ExpireTx(s, now).rows
    ensures k < |s.rows| && x == AgeRow(s.rows[k], now)
  {
    var aged := AgeRows(s.rows, now);
    KeepNewestFrom(DropStale(aged, now), HISTORY_LIMIT, x);
    DropStaleExact(aged, now, x);
    k :| 0 <= k < |aged| && aged[k] == x;
  }

  lemma ExpireOrigin(s: Inbox, now: real, r: Row)
    requires r in ExpireTx(s, now).rows
    ensures Descends(s.rows, r)
  {
    var k := ExpireFrom(s, now, r);
  }

  lemma MoveOrigin(s: Inbox, ids: seq<string>, mv: Move, r: Row)
    requires r in MoveTx(s, ids, mv).rows
    ensures Descends(s.rows, r)
  {
    var k :| 0 <= k < |s.rows| && MoveTx(s, ids, mv).rows[k] == r;
  }

  lemma AcceptOrigin(s: Inbox, m: Message, peer: string, queue: Status, now: real, id: string, r: Row)
    requires queue.Unread? || queue.Held?
    requires r in AcceptTx(s, m, peer, queue, now, id).0.rows
    ensures Descends(s.rows, r) || r == Row(id, peer, now, queue, m)
  {
    var rows := AcceptTx(s, m, peer, queue, now, id).0.rows;
    var k :| 0 <= k < |rows| && rows[k] == r;
  }

  /** Every row after an operation comes from an earlier row, or is the one just accepted. */
  lemma RowOrigin(s: Inbox, op: Op, r: Row)
    requires Admits(s, op) && r in Perform(s, op).rows
    ensures Descends(s.rows, r) || (op.Accept? && r == Row(op.id, op.peer, op.now, op.queue, op.m))
  {
    match op
    case Accept(m, peer, queue, now, id) => AcceptOrigin(s, m, peer, queue, now, id, r);
    case Transition(ids, mv) => MoveOrigin(s, ids, mv, r);
    case Expire(now) => ExpireOrigin(s, now, r);
    case _ => assert r.(state := r.state) in s.rows;
  }
}
