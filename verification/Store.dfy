/**
 The store's transactions as the code performs them: row scans, per-ID updates and metadata
 writes, each proved to have exactly the effect its `Tx` function states.
 */
module Store {
  import opened Base
  import opened Inbox
  import opened InboxSafety

  // ---------------------------------------------------------------- queries

  predicate HasState(rows: seq<Row>, id: string, st: Status) {
    exists r :: r in rows && r.id == id && r.state == st
  }

  /** `SELECT ... WHERE state=? ORDER BY rowid`. */
  function Select(rows: seq<Row>, st: Status): seq<Row> {
    if rows == [] then []
    else
      var n := |rows| - 1;
      if rows[n].state == st then Select(rows[..n], st) + [rows[n]] else Select(rows[..n], st)
  }

  /** `... LIMIT n`. */
  function Limit(rows: seq<Row>, n: nat): seq<Row> { if |rows| <= n then rows else rows[..n] }

  lemma {:induction false} SelectExact(rows: seq<Row>, st: Status)
    ensures |Select(rows, st)| == Count(rows, InState(st))
    ensures forall r :: r in Select(rows, st) <==> r in rows && r.state == st
  {
    if rows != [] {
      var n := |rows| - 1;
      SelectExact(rows[..n], st);
      assert rows == rows[..n] + [rows[n]];
    }
  }

  lemma {:induction false} SelectUnique(rows: seq<Row>, st: Status)
    requires UniqueIds(rows)
    ensures UniqueIds(Select(rows, st))
  {
    if rows != [] {
      var n := |rows| - 1;
      SelectUnique(rows[..n], st);
      SelectExact(rows[..n], st);
      forall r | r in Select(rows[..n], st) ensures r.id != rows[n].id {
        var i :| 0 <= i < n && rows[..n][i] == r;
        assert rows[i].id != rows[n].id;
      }
    }
  }

  /** The IDs a transition reports as changed: each named row once, in the order first named. */
  function Changed(rows: seq<Row>, ids: seq<string>, st: Status): seq<string> {
    if ids == [] then []
    else
      var n := |ids| - 1;
      if ids[n] !in ids[..n] && HasState(rows, ids[n], st)
      then Changed(rows, ids[..n], st) + [ids[n]] else Changed(rows, ids[..n], st)
  }

  lemma ChangedStep(rows: seq<Row>, ids: seq<string>, k: nat, st: Status)
    requires k < |ids|
    ensures Changed(rows, ids[..k + 1], st) == Changed(rows, ids[..k], st)
         + if ids[k] !in ids[..k] && HasState(rows, ids[k], st) then [ids[k]] else []
  {
    assert ids[..k + 1][..k] == ids[..k];
  }

  /** The report is complete, truthful and free of repetitions. */
  lemma {:induction false} ChangedExact(rows: seq<Row>, ids: seq<string>, st: Status)
    ensures forall id :: id in Changed(rows, ids, st) <==> id in Named(rows, ids, st)
    ensures forall id :: id in Changed(rows, ids, st) ==> id in ids
    ensures forall i, j :: 0 <= i < j < |Changed(rows, ids, st)| ==>
              Changed(rows, ids, st)[i] != Changed(rows, ids, st)[j]
  {
    if ids != [] {
      var n := |ids| - 1;
      ChangedExact(rows, ids[..n], st);
      assert ids == ids[..n] + [ids[n]];
    }
  }

  lemma NamedStep(rows: seq<Row>, ids: seq<string>, k: nat, st: Status)
    requires k < |ids|
    ensures |Named(rows, ids[..k + 1], st)|
         == |Named(rows, ids[..k], st)| + if ids[k] !in ids[..k] && HasState(rows, ids[k], st) then 1 else 0
  {
    var here := if HasState(rows, ids[k], st) then {ids[k]} else {};
    assert ids[..k + 1] == ids[..k] + [ids[k]];
    assert Named(rows, ids[..k + 1], st) == Named(rows, ids[..k], st) + here;
    if ids[k] in ids[..k] {
      assert Named(rows, ids[..k + 1], st) == Named(rows, ids[..k], st);
    } else {
      assert ids[k] !in Named(rows, ids[..k], st);
    }
  }

  lemma MoveTwice(r: Row, ids: seq<string>, id: string, mv: Move)
    ensures MoveRow(MoveRow(r, ids, mv), [id], mv) == MoveRow(r, ids + [id], mv)
  {
  }

  /** Updating one more ID extends the move by that ID. */
  lemma MoveStep(rows: seq<Row>, ids: seq<string>, k: nat, mv: Move)
    requires k < |ids|
    ensures MoveRows(MoveRows(rows, ids[..k], mv), [ids[k]], mv) == MoveRows(rows, ids[..k + 1], mv)
  {
    assert ids[..k + 1] == ids[..k] + [ids[k]];
    forall i | 0 <= i < |rows|
      ensures MoveRow(MoveRow(rows[i], ids[..k], mv), [ids[k]], mv) == MoveRow(rows[i], ids[..k + 1], mv)
    {
      MoveTwice(rows[i], ids[..k], ids[k], mv);
    }
  }

  /** An update affects a row exactly when its ID was not named before and names a row to move. */
  lemma MoveAffects(rows: seq<Row>, ids: seq<string>, id: string, mv: Move)
    ensures HasState(MoveRows(rows, ids, mv), id, mv.Before()) <==> id !in ids && HasState(rows, id, mv.Before())
  {
    var done := MoveRows(rows, ids, mv);
    if HasState(done, id, mv.Before()) {
      var i :| 0 <= i < |done| && done[i].id == id && done[i].state == mv.Before();
      assert rows[i] in rows;
    }
    if id !in ids && HasState(rows, id, mv.Before()) {
      var i :| 0 <= i < |rows| && rows[i].id == id && rows[i].state == mv.Before();
      assert done[i] in done;
    }
  }

  lemma UpdateStart(table: seq<Row>, mv: Move, ids: seq<string>)
    ensures MoveRows(table, ids[..0], mv) == table
    ensures Changed(table, ids[..0], mv.Before()) == []
  {
  }

  lemma UpdateStep(table: seq<Row>, ids: seq<string>, k: nat, mv: Move)
    requires k < |ids|
    ensures var rows := MoveRows(table, ids[..k], mv);
      && MoveRows(rows, [ids[k]], mv) == MoveRows(table, ids[..k + 1], mv)
      && Changed(table, ids[..k + 1], mv.Before())
      == Changed(table, ids[..k], mv.Before()) + if HasState(rows, ids[k], mv.Before()) then [ids[k]] else []
  {
    MoveStep(table, ids, k, mv);
    MoveAffects(table, ids[..k], ids[k], mv);
    ChangedStep(table, ids, k, mv.Before());
  }

  /** The rows a maintenance pass reports as expired, in rowid order. */
  function SelectAged(rows: seq<Row>, now: real): seq<Row> {
    if rows == [] then []
    else
      var n := |rows| - 1;
      if Aged(rows[n], now) then SelectAged(rows[..n], now) + [rows[n]] else SelectAged(rows[..n], now)
  }

  lemma {:induction false} SelectAgedFromHeld(rows: seq<Row>, now: real)
    ensures SelectAged(Select(rows, Held), now) == SelectAged(rows, now)
  {
    if rows != [] {
      var n := |rows| - 1;
      SelectAgedFromHeld(rows[..n], now);
      var held := Select(rows[..n], Held);
      assert (held + [rows[n]])[..|held|] == held;
    }
  }

  lemma {:induction false} SelectAgedExact(rows: seq<Row>, now: real)
    ensures forall r :: r in SelectAged(rows, now) <==> r in rows && Aged(r, now)
  {
    if rows != [] {
      var n := |rows| - 1;
      SelectAgedExact(rows[..n], now);
      assert rows == rows[..n] + [rows[n]];
    }
  }

  /** Moving the IDs of the aged rows ages exactly the aged rows. */
  lemma MoveAged(rows: seq<Row>, ids: seq<string>, now: real)
    requires UniqueIds(rows)
    requires forall r :: r in rows && Aged(r, now) ==> r.id in ids
    requires forall id :: id in ids ==> exists r :: r in rows && Aged(r, now) && r.id == id
    ensures MoveRows(rows, ids, Move.AgeOut) == AgeRows(rows, now)
  {
    forall i | 0 <= i < |rows|
      ensures MoveRow(rows[i], ids, Move.AgeOut) == AgeRow(rows[i], now)
    {
      assert rows[i] in rows;
      if rows[i].id in ids {
        var r :| r in rows && Aged(r, now) && r.id == rows[i].id;
        var j :| 0 <= j < |rows| && rows[j] == r;
        assert i < j || j < i || i == j;
      }
    }
  }

  lemma MoveAgedIds(rows: seq<Row>, aged: seq<Row>, ids: seq<string>, now: real)
    requires UniqueIds(rows) && aged == SelectAged(rows, now)
    requires |ids| == |aged| && forall i :: 0 <= i < |ids| ==> ids[i] == aged[i].id
    ensures MoveRows(rows, ids, Move.AgeOut) == AgeRows(rows, now)
  {
    SelectAgedExact(rows, now);
    forall r | r in rows && Aged(r, now) ensures r.id in ids {
      var i :| 0 <= i < |aged| && aged[i] == r;
      assert ids[i] in ids;
    }
    forall id | id in ids ensures exists r :: r in rows && Aged(r, now) && r.id == id {
      var i :| 0 <= i < |ids| && ids[i] == id;
      assert aged[i] in aged;
    }
    MoveAged(rows, ids, now);
  }

  // ---------------------------------------------------------------- the store

  class Store {
    var rows: seq<Row>
    var wake: Option<Wake>
    var ackRevision: nat

    ghost function State(): Inbox
      reads this
    {
      Inbox(rows, wake, ackRevision)
    }

    constructor ()
      ensures State() == EMPTY && Valid(State())
    {
      rows, wake, ackRevision := [], None, 0;
      new;
      assert AdmitsAll(EMPTY, []);
      PerformAllKeepsValid(EMPTY, []);
    }

    /** The peer's rows of the last ten seconds: how many, and whether one has this body. */
    method Recent(peer: string, body: string, now: real) returns (n: nat, duplicate: bool)
      ensures n == Count(rows, Since(peer, now - WINDOW))
      ensures duplicate == RecentBody(rows, peer, body, now)
    {
      n, duplicate := 0, false;
      var i := 0;
      while i < |rows|
        invariant 0 <= i <= |rows|
        invariant n == Count(rows[..i], Since(peer, now - WINDOW))
        invariant duplicate == RecentBody(rows[..i], peer, body, now)
      {
        assert rows[..i + 1] == rows[..i] + [rows[i]];
        CountAppend(rows[..i], rows[i], Since(peer, now - WINDOW));
        if Sat(Since(peer, now - WINDOW), rows[i]) {
          n := n + 1;
          if rows[i].msg.body == body {
            duplicate := true;
          }
        }
        i := i + 1;
      }
      assert rows[..i] == rows;
    }

    method Accept(m: Message, peer: string, queue: Status, now: real, id: string) returns (verdict: Verdict)
      requires queue.Unread? || queue.Held?
      modifies this`rows
      ensures State() == AcceptTx(old(State()), m, peer, queue, now, id).0
      ensures verdict == AcceptTx(old(State()), m, peer, queue, now, id).1
    {
      if Known(rows, peer, m.wireId) {
        return Dropped(Duplicate);
      }
      var n, duplicate := Recent(peer, m.body, now);
      if duplicate {
        return Dropped(Duplicate);
      }
      if n >= RATE_LIMIT {
        return Dropped(RateLimit);
      }
      n := Count(rows, InState(queue));
      if queue.Unread? && n >= UNREAD_LIMIT {
        return Dropped(FullQueue);
      }
      var evicted := None;
      if queue.Held? && n >= HELD_LIMIT {
        var k := OldestHeld(rows);
        evicted := Some(rows[k]);
        rows := rows[k := rows[k].(state := Expired)];
      }
      var row := Row(id, peer, now, queue, m);
      rows := rows + [row];
      verdict := Stored(row, evicted);
    }

    /** The capacity count of a release: named rows still to be moved, each ID once. */
    method Releasing(ids: seq<string>, before: Status) returns (releasing: nat)
      ensures releasing == |Named(rows, ids, before)|
    {
      releasing := 0;
      var seen: set<string>, k := {}, 0;
      assert Named(rows, [], before) == {};
      while k < |ids|
        invariant 0 <= k <= |ids|
        invariant forall id :: id in seen <==> id in ids[..k]
        invariant releasing == |Named(rows, ids[..k], before)|
      {
        NamedStep(rows, ids, k, before);
        if ids[k] !in seen {
          seen := seen + {ids[k]};
          if HasState(rows, ids[k], before) {
            releasing := releasing + 1;
          }
        }
        k := k + 1;
      }
      assert ids[..k] == ids;
    }

    /** The update loop of a transaction: one conditional `UPDATE` per listed ID. */
    static method MoveEach(table: seq<Row>, ids: seq<string>, mv: Move) returns (rows: seq<Row>, changed: seq<string>)
      ensures rows == MoveRows(table, ids, mv)
      ensures changed == Changed(table, ids, mv.Before())
    {
      rows, changed := table, [];
      var k := 0;
      UpdateStart(table, mv, ids);
      while k < |ids|
        invariant 0 <= k <= |ids|
        invariant rows == MoveRows(table, ids[..k], mv)
        invariant changed == Changed(table, ids[..k], mv.Before())
      {
        UpdateStep(table, ids, k, mv);
        changed := changed + if HasState(rows, ids[k], mv.Before()) then [ids[k]] else [];
        rows := MoveRows(rows, [ids[k]], mv);
        k := k + 1;
      }
      assert ids[..k] == ids;
    }

    method Transition(ids: seq<string>, mv: Move) returns (ok: bool, changed: seq<string>)
      modifies this
      ensures ok == !Refused(old(State()), ids, mv)
      ensures State() == MoveTx(old(State()), ids, mv)
      ensures changed == if ok then Changed(old(rows), ids, mv.Before()) else []
    {
      if mv.Release? {
        var releasing := Releasing(ids, mv.Before());
        if Count(rows, InState(Unread)) + releasing > UNREAD_LIMIT {
          return false, [];
        }
      }
      AnyChanged(rows, ids, mv.Before());
      rows, changed := MoveEach(rows, ids, mv);
      if |changed| > 0 && mv.Ack? {
        ackRevision := ackRevision + 1;
        if wake.Some? && wake.value.submitted && !wake.value.needsManual {
          wake := None;
        }
      }
      if Count(rows, InState(Unread)) == 0 {
        wake := None;
      }
      ok := true;
    }

    /** The held rows past their time, found in one hundred-row scan. */
    method FindAged(now: real) returns (aged: seq<Row>, ids: seq<string>)
      requires Count(rows, InState(Held)) <= HELD_LIMIT
      ensures aged == SelectAged(rows, now)
      ensures |ids| == |aged| && forall i :: 0 <= i < |ids| ==> ids[i] == aged[i].id
    {
      SelectExact(rows, Held);
      var items := Limit(Select(rows, Held), 100);
      aged, ids := [], [];
      var k := 0;
      while k < |items|
        invariant 0 <= k <= |items|
        invariant aged == SelectAged(items[..k], now)
        invariant |ids| == |aged| && forall i :: 0 <= i < |ids| ==> ids[i] == aged[i].id
      {
        assert items[..k + 1][..k] == items[..k];
        assert items[k] in items;
        if items[k].received < now - HELD_SECONDS {
          aged := aged + [items[k]];
          ids := ids + [items[k].id];
        }
        k := k + 1;
      }
      assert items[..k] == items;
      SelectAgedFromHeld(rows, now);
    }

    method Expire(now: real) returns (aged: seq<Row>)
      requires UniqueIds(rows) && Count(rows, InState(Held)) <= HELD_LIMIT
      modifies this
      ensures State() == ExpireTx(old(State()), now)
      ensures aged == SelectAged(old(rows), now)
    {
      var ids;
      aged, ids := FindAged(now);
      MoveAgedIds(rows, aged, ids, now);
      var ok, changed := Transition(ids, Move.AgeOut);
      rows := DropStale(rows, now);
      rows := KeepNewest(rows, HISTORY_LIMIT);
    }

    method BeginWake(id: string) returns (started: Option<Wake>)
      modifies this`wake
      ensures State() == BeginWakeTx(old(State()), id)
      ensures started.Some? <==> State() != old(State())
      ensures started.Some? ==> started == wake
    {
      if Count(rows, InState(Unread)) == 0 || wake.Some? {
        return None;
      }
      wake := Some(Wake(id, Attempted, false, true, ackRevision));
      started := wake;
    }

    method FinishWake(id: string, outcome: WakeState)
      modifies this`wake
      ensures State() == FinishWakeTx(old(State()), id, outcome)
    {
      if wake.None? || wake.value.id != id {
        return;
      }
      if outcome.Rejected? {
        wake := None;
        return;
      }
      var w := wake.value.(state := outcome,
                           submitted := outcome.Submitted? || outcome.Recorded?,
                           needsManual := outcome.Uncertain? || outcome.Attempted?);
      wake := Some(w);
      if Count(rows, InState(Unread)) == 0 || (w.submitted && w.ackRevision != ackRevision) {
        wake := None;
      }
    }
  }

  lemma AnyChanged(rows: seq<Row>, ids: seq<string>, st: Status)
    ensures |Changed(rows, ids, st)| > 0 <==> Named(rows, ids, st) != {}
  {
    ChangedExact(rows, ids, st);
    if |Changed(rows, ids, st)| > 0 {
      assert Changed(rows, ids, st)[0] in Named(rows, ids, st);
    }
    if Named(rows, ids, st) != {} {
      var id :| id in Named(rows, ids, st);
      assert id in Changed(rows, ids, st);
    }
  }
}
