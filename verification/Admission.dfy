/**
 The worker's inbound policy, and the pass that re-admits held messages after the policy changes.
 */
module Admission {
  import opened Base
  import opened Inbox
  import opened InboxSafety
  import opened Store

  datatype Inbound = Parity | AcceptAll | HoldAll | RefuseAll

  datatype Decision = ToUnread | ToHeld | ToRefuse

  datatype Policy = Policy(inbound: Inbound, permission: string)

  function Admit(p: Policy, mode: Option<string>): Decision {
    match p.inbound
    case AcceptAll => ToUnread
    case HoldAll => ToHeld
    case RefuseAll => ToRefuse
    case Parity =>
      if mode == Some(p.permission) || (mode.None? && (p.permission == "" || p.permission == "prompting"))
      then ToUnread else ToHeld
  }

  /** What a message may be said to declare: an absent mode passes for the empty one and for prompting. */
  function Declared(mode: Option<string>): set<string> {
    if mode.Some? then {mode.value} else {"", "prompting"}
  }

  /**
   Only the refusing policy refuses; under parity a message is unread if and only if it declares
   the session's own permission, and the other policies never look at the mode.
   */
  lemma AdmitExactly(p: Policy, mode: Option<string>)
    ensures Admit(p, mode).ToRefuse? <==> p.inbound.RefuseAll?
    ensures Admit(p, mode).ToUnread? <==> p.inbound.AcceptAll? || (p.inbound.Parity? && p.permission in Declared(mode))
  {
  }

  predicate Admissible(p: Policy, r: Row) { r.state == Held && Admit(p, r.msg.mode).ToUnread? }

  /** What the pass may do to one row: release an admissible one, decline a refused one, or nothing. */
  predicate Readmitted(p: Policy, before: Row, after: Row) {
    || after == before
    || (Admissible(p, before) && after == before.(state := Unread))
    || (before.state == Held && Admit(p, before.msg.mode).ToRefuse? && after == before.(state := Declined))
  }

  ghost predicate AllReadmitted(p: Policy, before: seq<Row>, after: seq<Row>) {
    |before| == |after| && forall i :: 0 <= i < |before| ==> Readmitted(p, before[i], after[i])
  }

  /** Moving one held row: it leaves the held state, every other row stays as it was. */
  lemma MoveOne(rows: seq<Row>, r: Row, mv: Move)
    requires UniqueIds(rows) && r in rows && r.state == Held && !mv.Ack?
    ensures forall x :: x in MoveRows(rows, [r.id], mv) && x.state == Held ==> x in rows && x != r
    ensures forall x :: x in rows && x != r ==> x in MoveRows(rows, [r.id], mv)
  {
    var moved := MoveRows(rows, [r.id], mv);
    var k :| 0 <= k < |rows| && rows[k] == r;
    forall x | x in moved && x.state == Held ensures x in rows && x != r {
      var i :| 0 <= i < |moved| && moved[i] == x;
      assert moved[i] == MoveRow(rows[i], [r.id], mv);
    }
    forall x | x in rows && x != r ensures x in moved {
      var i :| 0 <= i < |rows| && rows[i] == x;
      assert i < k || k < i;
      assert moved[i] == x;
    }
  }

  lemma ReadmitStep(p: Policy, start: seq<Row>, rows: seq<Row>, r: Row, mv: Move)
    requires AllReadmitted(p, start, rows) && UniqueIds(rows) && r in rows && r.state == Held
    requires (mv.Release? && Admissible(p, r)) || (mv.Decline? && Admit(p, r.msg.mode).ToRefuse?)
    ensures AllReadmitted(p, start, MoveRows(rows, [r.id], mv))
  {
    var k :| 0 <= k < |rows| && rows[k] == r;
    var moved := MoveRows(rows, [r.id], mv);
    forall i | 0 <= i < |start| ensures Readmitted(p, start[i], moved[i]) {
      assert Readmitted(p, start[i], rows[i]);
      assert moved[i] == MoveRow(rows[i], [r.id], mv);
      assert i < k || i == k || k < i;
    }
  }

  lemma ReleaseFits(s: Inbox, id: string)
    requires Count(s.rows, InState(Unread)) < UNREAD_LIMIT
    ensures !Refused(s, [id], Release)
  {
    assert Named(s.rows, [id], Held) <= {id};
    if Named(s.rows, [id], Held) != {} {
      assert Named(s.rows, [id], Held) == {id};
    }
  }

  /** The hundred-row scan sees every held row, once. */
  lemma HeldScan(s: Inbox)
    requires Valid(s)
    ensures var items := Limit(Select(s.rows, Held), 100);
      && UniqueIds(items)
      && (forall r :: r in s.rows && r.state == Held ==> r in items)
      && (forall i :: 0 <= i < |items| ==> items[i] in s.rows && items[i].state == Held)
  {
    SelectExact(s.rows, Held);
    ValidIds(s);
    SelectUnique(s.rows, Held);
    assert forall i :: 0 <= i < |Select(s.rows, Held)| ==> Select(s.rows, Held)[i] in Select(s.rows, Held);
  }

  /** The first `k` items are settled, the others untouched, and nothing outside the scan is held. */
  ghost predicate Passed(p: Policy, items: seq<Row>, k: nat, rows: seq<Row>)
    requires k <= |items|
  {
    && UniqueIds(items)
    && (forall r :: r in rows && r.state == Held ==> r in items)
    && (forall i :: 0 <= i < |items| ==> items[i].state == Held)
    && (forall i :: k <= i < |items| ==> items[i] in rows)
    && (forall i :: 0 <= i < k && items[i] in rows ==> Admit(p, items[i].msg.mode).ToHeld?)
  }

  lemma PassedStep(p: Policy, items: seq<Row>, k: nat, before: seq<Row>, after: seq<Row>)
    requires k < |items| && Passed(p, items, k, before)
    requires items[k] in after ==> Admit(p, items[k].msg.mode).ToHeld?
    requires forall r :: r in after && r.state == Held ==> r in before
    requires forall r :: r in before && r != items[k] ==> r in after
    ensures Passed(p, items, k + 1, after)
  {
    forall i | k < i < |items| ensures items[i] in after {
      assert items[i] in before && items[k].id != items[i].id;
    }
  }

  /** One turn of the pass: `full` says it must stop because there is no room for `m`. */
  method ReadmitOne(store: Store, p: Policy, m: Row, ghost start: seq<Row>) returns (full: bool)
    requires Valid(store.State()) && m in store.rows && m.state == Held
    requires AllReadmitted(p, start, store.rows)
    modifies store
    ensures Valid(store.State()) && store.ackRevision == old(store.ackRevision)
    ensures AllReadmitted(p, start, store.rows)
    ensures full ==> store.rows == old(store.rows) && Count(store.rows, InState(Unread)) == UNREAD_LIMIT
    ensures !full && m in store.rows ==> Admit(p, m.msg.mode).ToHeld?
    ensures forall r :: r in store.rows && r.state == Held ==> r in old(store.rows)
    ensures forall r :: r in old(store.rows) && r != m ==> r in store.rows
  {
    full := false;
    var decision := Admit(p, m.msg.mode);
    if decision.ToHeld? {
      return;
    }
    if decision.ToUnread? && Count(store.rows, InState(Unread)) >= UNREAD_LIMIT {
      return true;
    }
    var mv := if decision.ToUnread? then Release else Decline;
    ValidIds(store.State());
    if mv.Release? {
      ReleaseFits(store.State(), m.id);
    }
    MoveOne(store.rows, m, mv);
    ReadmitStep(p, start, store.rows, m, mv);
    MoveKeepsValid(store.State(), [m.id], mv);
    var ok, changed := store.Transition([m.id], mv);
  }

  /**
   The re-admission pass of `configure`.  It changes rows only as the policy says, and when it
   ends either the unread queue is full or no held message is still admissible or refused.
   */
  method Readmit(store: Store, p: Policy)
    requires Valid(store.State())
    modifies store
    ensures Valid(store.State()) && store.ackRevision == old(store.ackRevision)
    ensures AllReadmitted(p, old(store.rows), store.rows)
    ensures Count(store.rows, InState(Unread)) == UNREAD_LIMIT
         || forall r :: r in store.rows && r.state == Held ==> Admit(p, r.msg.mode).ToHeld?
  {
    var items := Limit(Select(store.rows, Held), 100);
    HeldScan(store.State());
    var k, full := 0, false;
    while k < |items| && !full
      invariant 0 <= k <= |items|
      invariant Valid(store.State()) && store.ackRevision == old(store.ackRevision)
      invariant AllReadmitted(p, old(store.rows), store.rows)
      invariant if full then Count(store.rows, InState(Unread)) == UNREAD_LIMIT else Passed(p, items, k, store.rows)
      decreases |items| - k
    {
      ghost var before := store.rows;
      full := ReadmitOne(store, p, items[k], old(store.rows));
      if !full {
        PassedStep(p, items, k, before, store.rows);
      }
      k := k + 1;
    }
  }
}
