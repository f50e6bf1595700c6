/**
 The durable inbox of one bridge worker: the rows of the `inbox` table in rowid order, the
 persistent "wake" record and the acknowledgement revision.  Every function whose name ends
 in `Tx` is the whole effect of one committed transaction; the class in Store.dfy performs
 the same transactions step by step.

 SQLite gives a new row the largest rowid plus one, so inserting appends to the sequence and
 position in the sequence is rowid order.
 */
module Inbox {
  import opened Base

  datatype Status = Unread | Held | Read | Declined | Expired {
    predicate Terminal() { Read? || Declined? || Expired? }
  }

  /** A decoded peer message; `size` is the length of its JSON encoding with its state. */
  datatype Message = Message(wireId: string, body: string, from: string, mode: Option<string>, size: nat)

  datatype Row = Row(id: string, peer: string, received: real, state: Status, msg: Message)

  datatype WakeState = Attempted | Submitted | Recorded | Uncertain | Rejected

  datatype Wake = Wake(id: string, state: WakeState, submitted: bool, needsManual: bool, ackRevision: nat)

  datatype Inbox = Inbox(rows: seq<Row>, wake: Option<Wake>, ackRevision: nat)

  const EMPTY := Inbox([], None, 0)
  const UNREAD_LIMIT := 50
  const HELD_LIMIT := 100
  const RATE_LIMIT := 20
  const HISTORY_LIMIT := 1000
  const WINDOW := 10.0
  const HELD_SECONDS := 300.0
  const HISTORY_SECONDS := 604800.0

  // ---------------------------------------------------------------- counting rows

  datatype Query =
    | InState(st: Status)
    | History
    | Since(peer: string, after: real)
    | Window(peer: string, end: real)

  predicate Sat(q: Query, r: Row) {
    match q
    case InState(st) => r.state == st
    case History => r.state.Terminal()
    case Since(peer, after) => r.peer == peer && r.received > after
    case Window(peer, end) => r.peer == peer && end - WINDOW < r.received <= end
  }

  function One(q: Query, r: Row): nat { if Sat(q, r) then 1 else 0 }

  function Count(rows: seq<Row>, q: Query): nat {
    if rows == [] then 0 else Count(rows[..|rows| - 1], q) + One(q, rows[|rows| - 1])
  }

  lemma CountAppend(rows: seq<Row>, r: Row, q: Query)
    ensures Count(rows + [r], q) == Count(rows, q) + One(q, r)
  {
    assert (rows + [r])[..|rows|] == rows;
  }

  lemma {:induction false} CountMono(rows: seq<Row>, q: Query, p: Query)
    requires forall r :: r in rows && Sat(q, r) ==> Sat(p, r)
    ensures Count(rows, q) <= Count(rows, p)
  {
    if rows != [] {
      CountMono(rows[..|rows| - 1], q, p);
    }
  }

  lemma {:induction false} CountUpdate(rows: seq<Row>, i: nat, r: Row, q: Query)
    requires i < |rows|
    ensures Count(rows[i := r], q) == Count(rows, q) - One(q, rows[i]) + One(q, r)
  {
    var n := |rows| - 1;
    if i == n {
      assert rows[i := r][..n] == rows[..n];
    } else {
      assert rows[i := r][..n] == rows[..n][i := r];
      CountUpdate(rows[..n], i, r, q);
    }
  }

  lemma {:induction false} CountPositive(rows: seq<Row>, q: Query)
    ensures Count(rows, q) > 0 <==> exists r :: r in rows && Sat(q, r)
  {
    if rows != [] {
      var n := |rows| - 1;
      CountPositive(rows[..n], q);
      assert rows == rows[..n] + [rows[n]];
    }
  }

  // ---------------------------------------------------------------- accepting a message

  datatype Reason = Duplicate | RateLimit | FullQueue

  datatype Verdict = Dropped(reason: Reason) | Stored(row: Row, evicted: Option<Row>)

  predicate Known(rows: seq<Row>, peer: string, wireId: string) {
    exists r :: r in rows && r.peer == peer && r.msg.wireId == wireId
  }

  predicate RecentBody(rows: seq<Row>, peer: string, body: string, now: real) {
    exists r :: r in rows && Sat(Since(peer, now - WINDOW), r) && r.msg.body == body
  }

  /** The held row with the least arrival time: `ORDER BY received LIMIT 1`. */
  function OldestHeld(rows: seq<Row>): (i: nat)
    requires Count(rows, InState(Held)) > 0
    ensures i < |rows| && rows[i].state == Held
    ensures forall j :: 0 <= j < |rows| && rows[j].state == Held ==> rows[i].received <= rows[j].received
  {
    var n := |rows| - 1;
    if Count(rows[..n], InState(Held)) == 0 then
      assert forall j :: 0 <= j < n ==> rows[j].state != Held by {
        CountPositive(rows[..n], InState(Held));
        assert forall j :: 0 <= j < n ==> rows[j] in rows[..n];
      }
      n
    else
      var i := OldestHeld(rows[..n]);
      if rows[n].state == Held && rows[n].received < rows[i].received then n else i
  }

  function AcceptTx(s: Inbox, m: Message, peer: string, queue: Status, now: real, id: string): (Inbox, Verdict)
    requires queue.Unread? || queue.Held?
  {
    if Known(s.rows, peer, m.wireId) || RecentBody(s.rows, peer, m.body, now) then
      (s, Dropped(Duplicate))
    else if Count(s.rows, Since(peer, now - WINDOW)) >= RATE_LIMIT then
      (s, Dropped(RateLimit))
    else if queue.Unread? && Count(s.rows, InState(Unread)) >= UNREAD_LIMIT then
      (s, Dropped(FullQueue))
    else
      var row := Row(id, peer, now, queue, m);
      if queue.Held? && Count(s.rows, InState(Held)) >= HELD_LIMIT then
        var i := OldestHeld(s.rows);
        (s.(rows := s.rows[i := s.rows[i].(state := Expired)] + [row]), Stored(row, Some(s.rows[i])))
      else
        (s.(rows := s.rows + [row]), Stored(row, None))
  }

  // ---------------------------------------------------------------- moving rows between states

  /** The four state changes the worker asks `transition` for. */
  datatype Move = Ack | Release | Decline | AgeOut {
    function Before(): Status { if Ack? then Unread else Held }
    function After(): Status {
      match this
      case Ack => Read
      case Release => Unread
      case Decline => Declined
      case AgeOut => Expired
    }
  }

  function MoveRow(r: Row, ids: seq<string>, mv: Move): Row {
    if r.state == mv.Before() && r.id in ids then r.(state := mv.After()) else r
  }

  function MoveRows(rows: seq<Row>, ids: seq<string>, mv: Move): (moved: seq<Row>)
    ensures |moved| == |rows|
    ensures forall i :: 0 <= i < |rows| ==> moved[i] == MoveRow(rows[i], ids, mv)
  {
    if rows == [] then []
    else MoveRows(rows[..|rows| - 1], ids, mv) + [MoveRow(rows[|rows| - 1], ids, mv)]
  }

  /** The IDs among `ids` that name a row in state `st`. */
  function Named(rows: seq<Row>, ids: seq<string>, st: Status): set<string> {
    set r | r in rows && r.state == st && r.id in ids :: r.id
  }

  predicate Refused(s: Inbox, ids: seq<string>, mv: Move) {
    mv.Release? && Count(s.rows, InState(Unread)) + |Named(s.rows, ids, Held)| > UNREAD_LIMIT
  }

  function MoveTx(s: Inbox, ids: seq<string>, mv: Move): Inbox {
    if Refused(s, ids, mv) then s
    else
      var rows := MoveRows(s.rows, ids, mv);
      var acked := mv.Ack? && Named(s.rows, ids, Unread) != {};
      var overtaken := acked && s.wake.Some? && s.wake.value.submitted && !s.wake.value.needsManual;
      Inbox(rows,
            if overtaken || Count(rows, InState(Unread)) == 0 then None else s.wake,
            if acked then s.ackRevision + 1 else s.ackRevision)
  }

  // ---------------------------------------------------------------- expiry and retention

  /** A held message older than five minutes. */
  predicate Aged(r: Row, now: real) { r.state == Held && r.received < now - HELD_SECONDS }

  function AgeRow(r: Row, now: real): Row { if Aged(r, now) then r.(state := Expired) else r }

  function AgeRows(rows: seq<Row>, now: real): (aged: seq<Row>)
    ensures |aged| == |rows|
    ensures forall i :: 0 <= i < |rows| ==> aged[i] == AgeRow(rows[i], now)
  {
    if rows == [] then [] else AgeRows(rows[..|rows| - 1], now) + [AgeRow(rows[|rows| - 1], now)]
  }

  predicate Stale(r: Row, now: real) { r.state.Terminal() && r.received < now - HISTORY_SECONDS }

  /** `DELETE ... WHERE state NOT IN ('unread','held') AND received<?`. */
  function DropStale(rows: seq<Row>, now: real): seq<Row> {
    if rows == [] then []
    else
      var n := |rows| - 1;
      if Stale(rows[n], now) then DropStale(rows[..n], now) else DropStale(rows[..n], now) + [rows[n]]
  }

  /** `DELETE` of the terminal rows beyond the newest `keep`, newest being last in arrival order. */
  function KeepNewest(rows: seq<Row>, keep: nat): seq<Row> {
    if rows == [] then []
    else
      var n := |rows| - 1;
      if !rows[n].state.Terminal() then KeepNewest(rows[..n], keep) + [rows[n]]
      else if keep == 0 then KeepNewest(rows[..n], 0)
      else KeepNewest(rows[..n], keep - 1) + [rows[n]]
  }

  function ExpireTx(s: Inbox, now: real): Inbox {
    var aged := AgeRows(s.rows, now);
    Inbox(KeepNewest(DropStale(aged, now), HISTORY_LIMIT),
          if Count(aged, InState(Unread)) == 0 then None else s.wake,
          s.ackRevision)
  }

  // ---------------------------------------------------------------- the wake latch

  function BeginWakeTx(s: Inbox, id: string): Inbox {
    if Count(s.rows, InState(Unread)) == 0 || s.wake.Some? then s
    else s.(wake := Some(Wake(id, Attempted, false, true, s.ackRevision)))
  }

  function FinishWakeTx(s: Inbox, id: string, outcome: WakeState): Inbox {
    if s.wake.None? || s.wake.value.id != id then s
    else if outcome.Rejected? then s.(wake := None)
    else
      var w := s.wake.value.(state := outcome,
                             submitted := outcome.Submitted? || outcome.Recorded?,
                             needsManual := outcome.Uncertain? || outcome.Attempted?);
      if Count(s.rows, InState(Unread)) == 0 || (w.submitted && w.ackRevision != s.ackRevision)
      then s.(wake := None) else s.(wake := Some(w))
  }

  // ---------------------------------------------------------------- operations and runs

  datatype Op =
    | Accept(m: Message, peer: string, queue: Status, now: real, id: string)
    | Transition(ids: seq<string>, mv: Move)
    | Expire(now: real)
    | BeginWake(id: string)
    | FinishWake(id: string, outcome: WakeState)

  /** What the outside supplies: a clock that is not behind any stored stamp, and unused UUIDs. */
  ghost predicate Admits(s: Inbox, op: Op) {
    match op
    case Accept(m, peer, queue, now, id) =>
      && (queue.Unread? || queue.Held?)
      && (forall r :: r in s.rows ==> r.received <= now && r.id != id)
    case Expire(now) => forall r :: r in s.rows ==> r.received <= now
    case _ => true
  }

  function Perform(s: Inbox, op: Op): Inbox
    requires op.Accept? ==> op.queue.Unread? || op.queue.Held?
  {
    match op
    case Accept(m, peer, queue, now, id) => AcceptTx(s, m, peer, queue, now, id).0
    case Transition(ids, mv) => MoveTx(s, ids, mv)
    case Expire(now) => ExpireTx(s, now)
    case BeginWake(id) => BeginWakeTx(s, id)
    case FinishWake(id, outcome) => FinishWakeTx(s, id, outcome)
  }

  /** Every operation of the run was enabled when its turn came. */
  ghost predicate AdmitsAll(s: Inbox, ops: seq<Op>)
    decreases |ops|
  {
    ops == [] || (Admits(s, ops[0]) && AdmitsAll(Perform(s, ops[0]), ops[1..]))
  }

  ghost function PerformAll(s: Inbox, ops: seq<Op>): Inbox
    requires AdmitsAll(s, ops)
    decreases |ops|
  {
    if ops == [] then s else PerformAll(Perform(s, ops[0]), ops[1..])
  }
}
