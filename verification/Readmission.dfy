/**
 The re-admission pass of `configure` as it runs in the worker: its scan, each count and each
 transition is a transaction of its own, and other goroutines accept, acknowledge, release, decline
 and expire messages between any two of them.
 */
module Readmission {
  import opened Base
  import opened Inbox
  import opened InboxSafety
  import opened Store
  import opened Admission

  datatype Phase =
    | Deciding             // about to look at item `k`
    | Counted              // item `k` is admissible and there was room for it
    | Ended(unread: nat)   // the pass stopped early, with this many unread messages

  /** `items` is what the scan found; items before `k` are dealt with. */
  datatype Pass = Pass(inbox: Inbox, items: seq<Row>, k: nat, phase: Phase)

  datatype Event = Other(op: Op) | Decide | Act

  /** The pass right after its scan. */
  function Begun(s: Inbox): Pass { Pass(s, Limit(Select(s.rows, Held), 100), 0, Deciding) }

  /** Message IDs are fresh: nothing accepted meanwhile has the ID of a row already scanned. */
  ghost predicate Enabled(y: Pass, e: Event) {
    match e
    case Other(op) =>
      Admits(y.inbox, op) && (op.Accept? ==> forall i :: 0 <= i < |y.items| ==> y.items[i].id != op.id)
    case Decide => y.phase.Deciding? && y.k < |y.items|
    case Act => y.phase.Counted? && y.k < |y.items|
  }

  ghost function Apply(p: Policy, y: Pass, e: Event): Pass
    requires Enabled(y, e)
  {
    match e
    case Other(op) => y.(inbox := Perform(y.inbox, op))
    case Decide =>
      var m := y.items[y.k];
      (match Admit(p, m.msg.mode)
       case ToHeld => y.(k := y.k + 1)
       case ToRefuse => y.(inbox := MoveTx(y.inbox, [m.id], Decline), k := y.k + 1)
       case ToUnread =>
         var n := Count(y.inbox.rows, InState(Unread));
         y.(phase := if n >= UNREAD_LIMIT then Ended(n) else Counted))
    case Act =>
      var id := y.items[y.k].id;
      if Refused(y.inbox, [id], Release) then y.(phase := Ended(Count(y.inbox.rows, InState(Unread))))
      else y.(inbox := MoveTx(y.inbox, [id], Release), k := y.k + 1, phase := Deciding)
  }

  ghost predicate Runs(p: Policy, y: Pass, es: seq<Event>)
    decreases |es|
  {
    es == [] || (Enabled(y, es[0]) && Runs(p, Apply(p, y, es[0]), es[1..]))
  }

  ghost function Run(p: Policy, y: Pass, es: seq<Event>): Pass
    requires Runs(p, y, es)
    decreases |es|
  {
    if es == [] then y else Run(p, Apply(p, y, es[0]), es[1..])
  }

  // ---------------------------------------------------------------- the invariant

  /** No row with this ID is held. */
  ghost predicate NotHeld(rows: seq<Row>, id: string) {
    forall r :: r in rows && r.id == id ==> r.state != Held
  }

  ghost predicate Settled(p: Policy, rows: seq<Row>, m: Row) {
    Admit(p, m.msg.mode).ToHeld? || NotHeld(rows, m.id)
  }

  ghost predicate Sound(p: Policy, y: Pass) {
    && Valid(y.inbox) && y.k <= |y.items|
    && (y.phase.Ended? ==> y.phase.unread == UNREAD_LIMIT)
    && (y.phase.Counted? ==> y.k < |y.items| && Admit(p, y.items[y.k].msg.mode).ToUnread?)
    && (forall i :: 0 <= i < y.k ==> Settled(p, y.inbox.rows, y.items[i]))
  }

  /** A row that has left the held state never returns to it. */
  lemma NotHeldStays(s: Inbox, op: Op, id: string)
    requires Admits(s, op) && NotHeld(s.rows, id) && (op.Accept? ==> op.id != id)
    ensures NotHeld(Perform(s, op).rows, id)
  {
    forall r | r in Perform(s, op).rows && r.id == id ensures r.state != Held {
      RowOrigin(s, op, r);
      assert r.(state := r.state) == r;
    }
  }

  lemma SettledStays(p: Policy, y: Pass, op: Op)
    requires Sound(p, y) && Enabled(y, Other(op))
    ensures forall i :: 0 <= i < y.k ==> Settled(p, Perform(y.inbox, op).rows, y.items[i])
  {
    forall i | 0 <= i < y.k ensures Settled(p, Perform(y.inbox, op).rows, y.items[i]) {
      assert Settled(p, y.inbox.rows, y.items[i]);
      if NotHeld(y.inbox.rows, y.items[i].id) {
        NotHeldStays(y.inbox, op, y.items[i].id);
      }
    }
  }

  /** Only a full queue refuses a release of one message. */
  lemma RefusedIsFull(s: Inbox, id: string)
    requires Valid(s) && Refused(s, [id], Release)
    ensures Count(s.rows, InState(Unread)) == UNREAD_LIMIT
  {
    if Count(s.rows, InState(Unread)) < UNREAD_LIMIT {
      ReleaseFits(s, id);
    }
  }

  lemma ActStep(p: Policy, y: Pass, mv: Move)
    requires Sound(p, y) && y.k < |y.items| && !mv.Ack? && !Refused(y.inbox, [y.items[y.k].id], mv)
    ensures Sound(p, Pass(MoveTx(y.inbox, [y.items[y.k].id], mv), y.items, y.k + 1, Deciding))
  {
    var op := Transition([y.items[y.k].id], mv);
    PerformKeepsValid(y.inbox, op);
    SettledStays(p, y, op);
  }

  lemma StepKeepsSound(p: Policy, y: Pass, e: Event)
    requires Sound(p, y) && Enabled(y, e)
    ensures Sound(p, Apply(p, y, e)) && Apply(p, y, e).items == y.items
  {
    match e
    case Other(op) =>
      PerformKeepsValid(y.inbox, op);
      SettledStays(p, y, op);
    case Decide =>
      if Admit(p, y.items[y.k].msg.mode).ToRefuse? {
        ActStep(p, y, Decline);
      }
    case Act =>
      var id := y.items[y.k].id;
      if Refused(y.inbox, [id], Release) {
        RefusedIsFull(y.inbox, id);
      } else {
        ActStep(p, y, Release);
      }
  }

  lemma {:induction false} RunKeepsSound(p: Policy, y: Pass, es: seq<Event>)
    requires Sound(p, y) && Runs(p, y, es)
    ensures Sound(p, Run(p, y, es)) && Run(p, y, es).items == y.items
    decreases |es|
  {
    if es != [] {
      StepKeepsSound(p, y, es[0]);
      RunKeepsSound(p, Apply(p, y, es[0]), es[1..]);
    }
  }

  /**
   However other transactions interleave with the pass: it stops early only when the unread queue is
   full at that moment, and when it completes, every message that was held when it began is one that
   the policy keeps held, or is no longer held.
   */
  lemma PassSettles(p: Policy, s: Inbox, es: seq<Event>)
    requires Valid(s) && Runs(p, Begun(s), es)
    ensures var z := Run(p, Begun(s), es);
      && Valid(z.inbox)
      && (z.phase.Ended? ==> z.phase.unread == UNREAD_LIMIT)
      && (z.k == |z.items| ==> forall r :: r in s.rows && r.state == Held ==> Settled(p, z.inbox.rows, r))
  {
    HeldScan(s);
    RunKeepsSound(p, Begun(s), es);
  }

  /**
   The pass acts only as the policy decides: a step of it changes no row but the one at hand, releasing
   it if it is held and admissible, declining it if it is held and refused.
   */
  lemma ActsAsDecided(p: Policy, y: Pass, e: Event, i: nat)
    requires Sound(p, y) && Enabled(y, e) && !e.Other? && i < |y.inbox.rows|
    ensures |Apply(p, y, e).inbox.rows| == |y.inbox.rows| && Apply(p, y, e).inbox.ackRevision == y.inbox.ackRevision
    ensures var r, t, m := y.inbox.rows[i], Apply(p, y, e).inbox.rows[i], y.items[y.k];
      t == r || (r.id == m.id && r.state == Held
                 && t == r.(state := if Admit(p, m.msg.mode).ToUnread? then Unread else Declined)
                 && !Admit(p, m.msg.mode).ToHeld?)
  {
  }
}
