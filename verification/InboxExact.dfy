/**
 What each inbox transaction does, said of the rows themselves: literal limits, quantifiers over the
 table and sets of positions, with none of the functions that compute the transactions.
 */
module InboxExact {
  import opened Base
  import opened Inbox
  import opened InboxSafety

  /** The positions of the rows that satisfy a query. */
  ghost function Places(rows: seq<Row>, q: Query): set<nat> { set i: nat | i < |rows| && Sat(q, rows[i]) }

  lemma PlacesAppend(front: seq<Row>, last: Row, q: Query)
    ensures Places(front + [last], q) == Places(front, q) + (if Sat(q, last) then {|front|} else {})
    ensures |front| !in Places(front, q)
  {
  }

  lemma {:induction false} CountIsPlaces(rows: seq<Row>, q: Query)
    ensures Count(rows, q) == |Places(rows, q)|
  {
    if rows != [] {
      var n := |rows| - 1;
      CountIsPlaces(rows[..n], q);
      PlacesAppend(rows[..n], rows[n], q);
      assert rows == rows[..n] + [rows[n]];
    }
  }

  ghost function UnreadAt(rows: seq<Row>): set<nat> { set i: nat | i < |rows| && rows[i].state == Unread }

  ghost function HeldAt(rows: seq<Row>): set<nat> { set i: nat | i < |rows| && rows[i].state == Held }

  /** The rows of a peer in the last ten seconds. */
  ghost function RecentAt(rows: seq<Row>, peer: string, now: real): set<nat> {
    set i: nat | i < |rows| && rows[i].peer == peer && rows[i].received > now - 10.0
  }

  lemma Counts(rows: seq<Row>, peer: string, now: real)
    ensures Count(rows, InState(Unread)) == |UnreadAt(rows)|
    ensures Count(rows, InState(Held)) == |HeldAt(rows)|
    ensures Count(rows, Since(peer, now - 10.0)) == |RecentAt(rows, peer, now)|
  {
    CountIsPlaces(rows, InState(Unread));
    CountIsPlaces(rows, InState(Held));
    CountIsPlaces(rows, Since(peer, now - 10.0));
    assert Places(rows, InState(Unread)) == UnreadAt(rows);
    assert Places(rows, InState(Held)) == HeldAt(rows);
    assert Places(rows, Since(peer, now - 10.0)) == RecentAt(rows, peer, now);
  }

  // ---------------------------------------------------------------- accepting

  /** Already stored from this peer, or the same text again within ten seconds. */
  predicate Repeats(r: Row, m: Message, peer: string, now: real) {
    r.peer == peer && (r.msg.wireId == m.wireId || (r.received > now - 10.0 && r.msg.body == m.body))
  }

  ghost predicate Repeated(rows: seq<Row>, m: Message, peer: string, now: real) {
    exists i :: 0 <= i < |rows| && Repeats(rows[i], m, peer, now)
  }

  /** The four verdicts, each with its exact condition. */
  lemma AcceptExactly(s: Inbox, m: Message, peer: string, queue: Status, now: real, id: string)
    requires queue.Unread? || queue.Held?
    ensures var verdict := AcceptTx(s, m, peer, queue, now, id).1;
      var again, fast, full := Repeated(s.rows, m, peer, now), |RecentAt(s.rows, peer, now)| >= 20,
                               queue == Unread && |UnreadAt(s.rows)| >= 50;
      && (verdict == Dropped(Duplicate) <==> again)
      && (verdict == Dropped(RateLimit) <==> !again && fast)
      && (verdict == Dropped(FullQueue) <==> !again && !fast && full)
      && (verdict.Stored? <==> !again && !fast && !full)
  {
    Counts(s.rows, peer, now);
  }

  /** Position `i` holds a held row, and no held row is older. */
  predicate OldestAt(rows: seq<Row>, i: nat) {
    i < |rows| && rows[i].state == Held &&
    forall j :: 0 <= j < |rows| && rows[j].state == Held ==> rows[i].received <= rows[j].received
  }

  /**
   What an accept leaves: nothing changed if the message was dropped; else the new row at the end,
   and an oldest held row expired and reported exactly when the message joins a full held queue.
   */
  lemma AcceptLeaves(s: Inbox, m: Message, peer: string, queue: Status, now: real, id: string)
    requires queue.Unread? || queue.Held?
    ensures var (t, verdict) := AcceptTx(s, m, peer, queue, now, id);
      var row := Row(id, peer, now, queue, m);
      && t.wake == s.wake && t.ackRevision == s.ackRevision
      && match verdict
         case Dropped(_) => t.rows == s.rows
         case Stored(r, None) => r == row && t.rows == s.rows + [row] && (queue == Unread || |HeldAt(s.rows)| < 100)
         case Stored(r, Some(gone)) =>
           r == row && queue == Held && |HeldAt(s.rows)| >= 100
           && exists i: nat :: OldestAt(s.rows, i) && gone == s.rows[i] && t.rows == s.rows[i := gone.(state := Expired)] + [row]
  {
    Counts(s.rows, peer, now);
    var (t, verdict) := AcceptTx(s, m, peer, queue, now, id);
    if verdict.Stored? && verdict.evicted.Some? {
      assert OldestAt(s.rows, OldestHeld(s.rows));
    }
  }

  // ---------------------------------------------------------------- transitions

  /** The IDs listed that name a held row. */
  ghost function HeldIds(rows: seq<Row>, ids: seq<string>): set<string> {
    set i: nat | i < |rows| && rows[i].state == Held && rows[i].id in ids :: rows[i].id
  }

  ghost predicate NamesUnread(rows: seq<Row>, ids: seq<string>) {
    exists i :: 0 <= i < |rows| && rows[i].state == Unread && rows[i].id in ids
  }

  /** A transition is refused if and only if it is a release for which the unread queue has no room. */
  lemma RefusedExactly(s: Inbox, ids: seq<string>, mv: Move)
    ensures Refused(s, ids, mv) <==> mv == Release && |UnreadAt(s.rows)| + |HeldIds(s.rows, ids)| > 50
  {
    Counts(s.rows, "", 0.0);
    assert HeldIds(s.rows, ids) == Named(s.rows, ids, Held) by {
      forall r | r in s.rows && r.state == Held && r.id in ids ensures r.id in HeldIds(s.rows, ids) {
        var i :| 0 <= i < |s.rows| && s.rows[i] == r;
      }
      forall i: nat | i < |s.rows| ensures s.rows[i] in s.rows {
      }
    }
  }

  /** The states a row leaves and enters. */
  predicate Turns(mv: Move, before: Status, after: Status) {
    match mv
    case Ack => before == Unread && after == Read
    case Release => before == Held && after == Unread
    case Decline => before == Held && after == Declined
    case AgeOut => before == Held && after == Expired
  }

  lemma AckedExactly(rows: seq<Row>, ids: seq<string>)
    ensures Named(rows, ids, Unread) != {} <==> NamesUnread(rows, ids)
  {
    if NamesUnread(rows, ids) {
      var i :| 0 <= i < |rows| && rows[i].state == Unread && rows[i].id in ids;
      assert rows[i] in rows && rows[i].id in Named(rows, ids, Unread);
    } else {
      forall r | r in rows && r.state == Unread ensures r.id !in ids {
        var i :| 0 <= i < |rows| && rows[i] == r;
      }
      assert Named(rows, ids, Unread) == {};
    }
  }

  /** The row after a transition that was not refused. */
  ghost predicate Follows(mv: Move, ids: seq<string>, r: Row, t: Row) {
    t == r.(state := t.state) && if r.id in ids && (exists st :: Turns(mv, r.state, st)) then Turns(mv, r.state, t.state) else t.state == r.state
  }

  lemma FollowsMove(mv: Move, ids: seq<string>, r: Row)
    ensures Follows(mv, ids, r, MoveRow(r, ids, mv))
  {
    assert Turns(mv, mv.Before(), mv.After());
  }

  /**
   What a transition leaves when it is not refused: every named row in the state left is now in the
   state entered, every other row is as it was, in the same places; the revision grows by one exactly
   when an acknowledgement named an unread row; and the wake is cleared exactly when such an
   acknowledgement overtook a success or nothing is unread any more.  A refusal changes nothing.
   */
  lemma TransitionExactly(s: Inbox, ids: seq<string>, mv: Move)
    ensures var t := MoveTx(s, ids, mv);
      if Refused(s, ids, mv) then t == s
      else
        var acked := mv == Ack && NamesUnread(s.rows, ids);
        var overtaken := acked && s.wake.Some? && s.wake.value.submitted && !s.wake.value.needsManual;
        && |t.rows| == |s.rows| && (forall i :: 0 <= i < |s.rows| ==> Follows(mv, ids, s.rows[i], t.rows[i]))
        && t.ackRevision == s.ackRevision + (if acked then 1 else 0)
        && t.wake == (if overtaken || UnreadAt(t.rows) == {} then None else s.wake)
  {
    AckedExactly(s.rows, ids);
    var t := MoveTx(s, ids, mv);
    Counts(t.rows, "", 0.0);
    if !Refused(s, ids, mv) {
      Counts(MoveRows(s.rows, ids, mv), "", 0.0);
      forall i | 0 <= i < |s.rows| ensures Follows(mv, ids, s.rows[i], t.rows[i]) {
        FollowsMove(mv, ids, s.rows[i]);
      }
    }
  }

  // ---------------------------------------------------------------- maintenance

  predicate Processed(st: Status) { st == Read || st == Declined || st == Expired }

  ghost function ProcessedAt(rows: seq<Row>): set<nat> { set i: nat | i < |rows| && Processed(rows[i].state) }

  lemma HistoryCount(rows: seq<Row>)
    ensures Count(rows, History) == |ProcessedAt(rows)|
  {
    CountIsPlaces(rows, History);
    assert Places(rows, History) == ProcessedAt(rows);
  }

  /** After maintenance: no held row over 300 s, at most 1000 processed rows, none of them over seven days. */
  lemma ExpireLeaves(s: Inbox, now: real)
    ensures forall r :: r in ExpireTx(s, now).rows && r.state == Held ==> r.received >= now - 300.0
    ensures forall r :: r in ExpireTx(s, now).rows && Processed(r.state) ==> r.received >= now - 604800.0
    ensures |ProcessedAt(ExpireTx(s, now).rows)| <= 1000
  {
    ExpireBounds(s, now);
    HistoryCount(ExpireTx(s, now).rows);
  }

  /** And it spares the others: unread rows, held rows up to 300 s old, and the revision. */
  lemma ExpireSpares(s: Inbox, now: real, r: Row)
    requires r in s.rows && (r.state == Unread || (r.state == Held && r.received >= now - 300.0))
    ensures r in ExpireTx(s, now).rows && ExpireTx(s, now).ackRevision == s.ackRevision
  {
    ExpireKeeps(s, now, r);
  }

  /** A row as maintenance leaves or drops it: a held row over 300 s is expired. */
  function Grown(r: Row, now: real): Row {
    if r.state == Held && r.received < now - 300.0 then r.(state := Expired) else r
  }

  /**
   Every row is there after maintenance, expired if it was due, unless it is processed and over seven
   days old, or there are a thousand other processed rows, none of them older.
   */
  lemma ExpireLoses(s: Inbox, now: real, r: Row)
    requires Valid(s) && r in s.rows && Grown(r, now) !in ExpireTx(s, now).rows
    ensures Processed(Grown(r, now).state)
    ensures r.received < now - 604800.0
         || (|ProcessedAt(ExpireTx(s, now).rows)| == 1000
             && forall k :: k in ExpireTx(s, now).rows && Processed(k.state) ==> r.received <= k.received)
  {
    AgedRow(s.rows, now, r);
    ExpireDrops(s, now, Grown(r, now));
    HistoryCount(ExpireTx(s, now).rows);
    if !Processed(Grown(r, now).state) {
      ExpireSpares(s, now, r);
    }
  }

  // ---------------------------------------------------------------- the wake

  /** An attempt is recorded if and only if something is unread and nothing is latched. */
  lemma AttemptExactly(s: Inbox, id: string)
    ensures var t := BeginWakeTx(s, id);
      && t.rows == s.rows && t.ackRevision == s.ackRevision
      && (t.wake != s.wake <==> s.wake.None? && UnreadAt(s.rows) != {})
      && (t.wake != s.wake ==> t.wake.Some? && t.wake.value.id == id && t.wake.value.ackRevision == s.ackRevision
                               && t.wake.value.state == Attempted && !t.wake.value.submitted && t.wake.value.needsManual)
  {
    Counts(s.rows, "", 0.0);
  }

  // ---------------------------------------------------------------- every reachable inbox

  ghost function WindowAt(rows: seq<Row>, peer: string, end: real): set<nat> {
    set i: nat | i < |rows| && rows[i].peer == peer && end - 10.0 < rows[i].received <= end
  }

  /** The laws of the inbox with their numbers: both queues, the rate, and what two rows of a peer share. */
  lemma ReachableExactly(ops: seq<Op>, peer: string, end: real)
    requires AdmitsAll(EMPTY, ops)
    ensures var rows := PerformAll(EMPTY, ops).rows;
      && |UnreadAt(rows)| <= 50 && |HeldAt(rows)| <= 100 && |WindowAt(rows, peer, end)| <= 20
      && forall i, j :: 0 <= i < j < |rows| && rows[i].peer == rows[j].peer ==>
           rows[i].msg.wireId != rows[j].msg.wireId
           && (rows[i].msg.body == rows[j].msg.body ==> rows[j].received - rows[i].received >= 10.0)
  {
    ReachableInbox(ops);
    var rows := PerformAll(EMPTY, ops).rows;
    Counts(rows, peer, end);
    CountIsPlaces(rows, Window(peer, end));
    assert Places(rows, Window(peer, end)) == WindowAt(rows, peer, end);
    forall i, j | 0 <= i < j < |rows| && rows[i].peer == rows[j].peer
      ensures rows[i].msg.wireId != rows[j].msg.wireId
      ensures rows[i].msg.body == rows[j].msg.body ==> rows[j].received - rows[i].received >= 10.0
    {
      assert Apart(rows[i], rows[j]);
    }
  }
}
