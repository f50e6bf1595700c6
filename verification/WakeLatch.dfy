/**
 The notification protocol: one worker goroutine runs
 `BeginWake -> Notice -> FinishWake` (or reconciles a pending wake with Codex history) while
 other goroutines accept, acknowledge and expire messages between any two of its transactions,
 and the process may crash between any two of them.  A crash loses the worker's memory and
 keeps the store.
 */
module WakeLatch {
  import opened Base
  import opened Inbox
  import opened InboxSafety

  /** What the worker goroutine remembers between two transactions. */
  datatype Phase =
    | Idle
    | Began(wake: Wake)        // BeginWake committed this record; the notice is not out yet
    | Sent(wake: Wake)         // the notice has been submitted; its outcome is not stored yet
    | Reconciling(id: string)  // looking for a pending notice in Codex history

  datatype System = System(inbox: Inbox, phase: Phase)

  const START := System(EMPTY, Idle)

  datatype Event =
    | Other(op: Op)               // accept, acknowledge, release, decline or expire
    | Attempt(id: string)         // BeginWake
    | Notice                      // submit the notice to the app-server
    | Finish(outcome: WakeState)  // FinishWake with what the submission returned
    | Look                        // a pending wake was read
    | Found(found: bool)          // history answered
    | Crash

  ghost predicate Enabled(y: System, e: Event) {
    match e
    case Other(op) => (op.Accept? || op.Transition? || op.Expire?) && Admits(y.inbox, op)
    case Attempt(id) => y.phase.Idle?
    case Notice => y.phase.Began?
    case Finish(outcome) => y.phase.Sent? && (outcome.Submitted? || outcome.Rejected? || outcome.Uncertain?)
    case Look => y.phase.Idle? && y.inbox.wake.Some? && !y.inbox.wake.value.state.Recorded?
    case Found(found) => y.phase.Reconciling?
    case Crash => true
  }

  ghost function Apply(y: System, e: Event): System
    requires Enabled(y, e)
  {
    match e
    case Other(op) => y.(inbox := Perform(y.inbox, op))
    case Attempt(id) =>
      var inbox := BeginWakeTx(y.inbox, id);
      if inbox == y.inbox then y else System(inbox, Began(inbox.wake.value))
    case Notice => y.(phase := Sent(y.phase.wake))
    case Finish(outcome) => System(FinishWakeTx(y.inbox, y.phase.wake.id, outcome), Idle)
    case Look => y.(phase := Reconciling(y.inbox.wake.value.id))
    case Found(found) =>
      System(if found then FinishWakeTx(y.inbox, y.phase.id, Recorded) else y.inbox, Idle)
    case Crash => y.(phase := Idle)
  }

  ghost predicate Runs(y: System, es: seq<Event>)
    decreases |es|
  {
    es == [] || (Enabled(y, es[0]) && Runs(Apply(y, es[0]), es[1..]))
  }

  ghost function Run(y: System, es: seq<Event>): System
    requires Runs(y, es)
    decreases |es|
  {
    if es == [] then y else Run(Apply(y, es[0]), es[1..])
  }

  lemma {:induction false} RunSplit(y: System, es: seq<Event>, k: nat)
    requires Runs(y, es) && k <= |es|
    ensures Runs(y, es[..k]) && Runs(Run(y, es[..k]), es[k..])
    ensures Run(y, es) == Run(Run(y, es[..k]), es[k..])
    decreases |es|
  {
    if k == 0 {
      assert es[k..] == es;
    } else {
      RunSplit(Apply(y, es[0]), es[1..], k - 1);
      assert es[..k][1..] == es[1..][..k - 1];
      assert es[1..][k - 1..] == es[k..];
    }
  }

  // ---------------------------------------------------------------- the invariant

  /** Attempt `w` still holds the latch, or an acknowledgement has been committed since it began. */
  predicate Covered(s: Inbox, w: Wake) {
    || s.ackRevision > w.ackRevision
    || (s.wake.Some? && s.wake.value.id == w.id && s.wake.value.ackRevision == w.ackRevision)
  }

  ghost predicate Sound(y: System) {
    && Valid(y.inbox)
    && (y.phase.Began? || y.phase.Sent? ==>
          && Covered(y.inbox, y.phase.wake) && y.phase.wake.ackRevision <= y.inbox.ackRevision
          && (y.inbox.wake.Some? ==> y.inbox.wake.value == y.phase.wake))
  }

  lemma OtherKeepsCover(s: Inbox, op: Op, w: Wake)
    requires Valid(s) && Admits(s, op) && (op.Accept? || op.Transition? || op.Expire?)
    ensures s.ackRevision <= Perform(s, op).ackRevision
    ensures Covered(s, w) ==> Covered(Perform(s, op), w)
  {
    match op
    case Accept(m, peer, queue, now, id) =>
    case Transition(ids, mv) =>
      ValidIds(s);
      MoveCounts(s.rows, ids, mv, Unread);
    case Expire(now) => AgeCounts(s.rows, now);
  }

  lemma StepKeepsSound(y: System, e: Event)
    requires Sound(y) && Enabled(y, e)
    ensures Sound(Apply(y, e))
    ensures y.inbox.ackRevision <= Apply(y, e).inbox.ackRevision
  {
    match e
    case Other(op) =>
      PerformKeepsValid(y.inbox, op);
      OtherKeepsCover(y.inbox, op, if y.phase.Began? || y.phase.Sent? then y.phase.wake else Wake("", Attempted, false, true, 0));
    case _ =>
  }

  lemma {:induction false} RunKeepsSound(y: System, es: seq<Event>)
    requires Sound(y) && Runs(y, es)
    ensures Sound(Run(y, es))
    ensures y.inbox.ackRevision <= Run(y, es).inbox.ackRevision
    decreases |es|
  {
    if es != [] {
      StepKeepsSound(y, es[0]);
      RunKeepsSound(Apply(y, es[0]), es[1..]);
    }
  }

  lemma StartSound()
    ensures Sound(START)
  {
    PerformAllKeepsValid(EMPTY, []);
  }

  // ---------------------------------------------------------------- no blind replay

  /** Once `w` has been sent, a new attempt means an acknowledgement since `w` began. */
  ghost predicate Guarded(y: System, w: Wake) {
    && Sound(y)
    && Covered(y.inbox, w)
    && (y.phase.Began? ==> y.phase.wake.ackRevision > w.ackRevision)
  }

  lemma StepKeepsGuarded(y: System, e: Event, w: Wake)
    requires Guarded(y, w) && Enabled(y, e) && e != Finish(Rejected)
    ensures Guarded(Apply(y, e), w)
  {
    StepKeepsSound(y, e);
    if e.Other? {
      OtherKeepsCover(y.inbox, e.op, w);
    }
  }

  lemma {:induction false} RunKeepsGuarded(y: System, es: seq<Event>, w: Wake)
    requires Guarded(y, w) && Runs(y, es) && Finish(Rejected) !in es
    ensures Guarded(Run(y, es), w)
    decreases |es|
  {
    if es != [] {
      StepKeepsGuarded(y, es[0], w);
      RunKeepsGuarded(Apply(y, es[0]), es[1..], w);
    }
  }

  /**
   In every run from an empty database, two notice submissions with no definitive rejection
   between them belong to attempts separated by an acknowledgement: the acknowledgement
   revision recorded by the second attempt is strictly larger than the first one's.
   */
  lemma NoBlindReplay(es: seq<Event>, i: nat, j: nat)
    requires Runs(START, es) && i < j < |es|
    requires es[i] == Notice && es[j] == Notice && Finish(Rejected) !in es[i..j]
    ensures Runs(START, es[..i]) && Run(START, es[..i]).phase.Began?
    ensures Runs(START, es[..j]) && Run(START, es[..j]).phase.Began?
    ensures Run(START, es[..i]).phase.wake.ackRevision < Run(START, es[..j]).phase.wake.ackRevision
  {
    RunSplit(START, es, i);
    RunSplit(START, es, j);
    RunSplit(START, es[..j], i);
    assert es[..j][..i] == es[..i] && es[..j][i..] == es[i..j];
    var y := Run(START, es[..i]);
    StartSound();
    RunKeepsSound(START, es[..i]);
    assert es[i..][0] == Notice && es[j..][0] == Notice && es[i..j][0] == Notice;
    StepKeepsSound(y, Notice);
    RunKeepsGuarded(Apply(y, Notice), es[i..j][1..], y.phase.wake);
  }

  // ---------------------------------------------------------------- an unknown outcome stays latched

  /** The event tells the worker what became of a submission. */
  predicate Learns(e: Event) {
    (e.Finish? && !e.outcome.Uncertain?) || e == Found(true)
  }

  /** The unread queue has a message after every event of the run. */
  ghost predicate NeverDrained(y: System, es: seq<Event>)
    requires Runs(y, es)
    decreases |es|
  {
    es != [] ==>
      && Count(Apply(y, es[0]).inbox.rows, InState(Unread)) > 0
      && NeverDrained(Apply(y, es[0]), es[1..])
  }

  /** The pending wake is `id`, its outcome unknown, and no other attempt is under way. */
  ghost predicate Stuck(y: System, id: string) {
    && Sound(y)
    && y.inbox.wake.Some? && y.inbox.wake.value.id == id && !y.inbox.wake.value.submitted
    && (y.phase.Began? ==> y.phase.wake.id == id)
  }

  lemma StuckStep(y: System, e: Event, id: string)
    requires Stuck(y, id) && Enabled(y, e) && !Learns(e)
    requires Count(Apply(y, e).inbox.rows, InState(Unread)) > 0
    ensures Stuck(Apply(y, e), id)
  {
    StepKeepsSound(y, e);
    if e.Other? && e.op.Expire? {
      AgeCounts(y.inbox.rows, e.op.now);
    }
  }

  /**
   An attempt whose outcome is never learnt stays latched, through crashes and partial
   acknowledgements, for as long as the unread queue is never empty, and no other notice goes out.
   */
  lemma {:induction false} UnknownStaysLatched(y: System, es: seq<Event>, id: string)
    requires Stuck(y, id) && Runs(y, es) && NeverDrained(y, es)
    requires forall e :: e in es ==> !Learns(e)
    ensures Stuck(Run(y, es), id)
    decreases |es|
  {
    if es != [] {
      assert es == [es[0]] + es[1..];
      StuckStep(y, es[0], id);
      UnknownStaysLatched(Apply(y, es[0]), es[1..], id);
    }
  }

  lemma EffectiveAttempt(y: System, id: string)
    requires Sound(y) && Enabled(y, Attempt(id)) && Apply(y, Attempt(id)) != y
    ensures Stuck(Apply(y, Attempt(id)), id)
  {
    StepKeepsSound(y, Attempt(id));
  }

  /** In a run from an empty database, event `i` is an attempt that was recorded. */
  ghost predicate AttemptAt(es: seq<Event>, i: nat, id: string) {
    && i < |es| && es[i] == Attempt(id) && Runs(START, es[..i]) && Enabled(Run(START, es[..i]), es[i])
    && Apply(Run(START, es[..i]), es[i]) != Run(START, es[..i])
  }

  /**
   So for every attempt that any run from an empty database records: if its outcome is not learnt
   afterwards and the unread queue is never empty, it is the pending wake at the end.
   */
  lemma AttemptStaysLatched(es: seq<Event>, i: nat, id: string)
    requires Runs(START, es) && AttemptAt(es, i, id)
    requires var y := Apply(Run(START, es[..i]), es[i]); Runs(y, es[i + 1..]) && NeverDrained(y, es[i + 1..])
    requires forall e :: e in es[i + 1..] ==> !Learns(e)
    ensures var wake := Run(START, es).inbox.wake; wake.Some? && wake.value.id == id && wake.value.needsManual
  {
    var y := Run(START, es[..i]);
    StartSound();
    RunKeepsSound(START, es[..i]);
    EffectiveAttempt(y, id);
    RunSplit(START, es, i);
    assert es[i..][0] == es[i] && es[i..][1..] == es[i + 1..];
    UnknownStaysLatched(Apply(y, es[i]), es[i + 1..], id);
  }

  /** Why one event may clear the latch held by `w`. */
  ghost predicate Releases(y: System, e: Event, w: Wake)
    requires Enabled(y, e)
  {
    || Count(Apply(y, e).inbox.rows, InState(Unread)) == 0
    || (e == Finish(Rejected) && y.phase.wake.id == w.id)
    || (w.submitted && Apply(y, e).inbox.ackRevision > y.inbox.ackRevision)
    || (((e == Finish(Submitted) && y.phase.wake.id == w.id) || (e == Found(true) && y.phase.id == w.id))
        && w.ackRevision != y.inbox.ackRevision)
  }

  /**
   The latch opens for exactly four reasons: the queue drained, the attempt was rejected, an
   acknowledgement overtook a successful notice, or success was learnt after an acknowledgement.
   */
  lemma LatchOpensExactly(y: System, e: Event)
    requires Sound(y) && Enabled(y, e) && y.inbox.wake.Some?
    ensures Apply(y, e).inbox.wake.None? <==> Releases(y, e, y.inbox.wake.value)
  {
    StepKeepsSound(y, e);
    if e.Other? && e.op.Expire? {
      AgeCounts(y.inbox.rows, e.op.now);
      ExpireUnread(y.inbox, e.op.now);
    }
  }

  // ---------------------------------------------------------------- what an outcome is good for

  /** The acknowledgement names an unread message. */
  ghost predicate Acknowledges(s: Inbox, ids: seq<string>) {
    exists r :: r in s.rows && r.state == Unread && r.id in ids
  }

  lemma AckNames(s: Inbox, ids: seq<string>)
    requires Acknowledges(s, ids)
    ensures Named(s.rows, ids, Unread) != {}
  {
    var r :| r in s.rows && r.state == Unread && r.id in ids;
    assert r.id in Named(s.rows, ids, Unread);
  }

  /** The event tells the worker that the pending attempt succeeded. */
  ghost predicate Succeeds(y: System, e: Event) {
    && y.inbox.wake.Some?
    && ((e == Finish(Submitted) && y.phase.Sent?)
        || (e == Found(true) && y.phase.Reconciling? && y.phase.id == y.inbox.wake.value.id))
  }

  /**
   A success holds the latch until an acknowledgement: with the revision of the attempt still current
   the wake stays pending, to be looked for in history until it is found there, and the first acknowledgement of an unread message clears it, even one that
   leaves other messages unread.
   */
  lemma SuccessYieldsToAck(y: System, e: Event, ids: seq<string>)
    requires Sound(y) && Enabled(y, e) && Succeeds(y, e) && Acknowledges(y.inbox, ids)
    ensures var z := Apply(y, e);
      && (z.inbox.wake.Some? <==> y.inbox.wake.value.ackRevision == y.inbox.ackRevision)
      && (z.inbox.wake.Some? ==> (Enabled(z, Look) <==> e == Finish(Submitted)))
      && Apply(z, Other(Transition(ids, Ack))).inbox.wake.None?
  {
    StepKeepsSound(y, e);
    AckNames(y.inbox, ids);
    assert Count(y.inbox.rows, InState(Unread)) > 0;
  }

  /** An outcome left uncertain holds the latch through acknowledgements while anything is unread. */
  lemma UncertainOutlastsAck(y: System, ids: seq<string>)
    requires Sound(y) && y.phase.Sent? && y.inbox.wake.Some?
    ensures var z := Apply(Apply(y, Finish(Uncertain)), Other(Transition(ids, Ack)));
      if Count(z.inbox.rows, InState(Unread)) > 0
      then z.inbox.wake.Some? && z.inbox.wake.value.id == y.inbox.wake.value.id else z.inbox.wake.None?
  {
    StepKeepsSound(y, Finish(Uncertain));
  }

  lemma ExpireUnread(s: Inbox, now: real)
    ensures Count(ExpireTx(s, now).rows, InState(Unread)) == Count(s.rows, InState(Unread))
  {
    var aged := AgeRows(s.rows, now);
    var recent := DropStale(aged, now);
    calc {
      Count(KeepNewest(recent, HISTORY_LIMIT), InState(Unread));
      { KeepNewestThins(recent, HISTORY_LIMIT); }
      Count(recent, InState(Unread));
      { DropStaleThins(aged, now); }
      Count(aged, InState(Unread));
      { AgeCounts(s.rows, now); }
      Count(s.rows, InState(Unread));
    }
  }

  // ---------------------------------------------------------------- when a notice can repeat without an ack

  /** A run that submits one more notice, with no rejection and no acknowledgement on the way. */
  ghost predicate Resubmits(y: System, es: seq<Event>) {
    && Runs(y, es) && |es| > 0 && es[|es| - 1] == Notice
    && Finish(Rejected) !in es
    && Run(y, es).inbox.ackRevision == y.inbox.ackRevision
  }

  /** A string longer than every ID and peer in the table. */
  function Longer(rows: seq<Row>): (s: string)
    ensures forall r :: r in rows ==> |r.id| < |s| && |r.peer| < |s|
  {
    if rows == [] then ""
    else
      var n := |rows| - 1;
      assert rows == rows[..n] + [rows[n]];
      Longer(rows[..n]) + rows[n].id + rows[n].peer + "+"
  }

  function Latest(rows: seq<Row>): (t: real)
    ensures forall r :: r in rows ==> r.received <= t
  {
    if rows == [] then 0.0
    else
      var n := |rows| - 1;
      assert rows == rows[..n] + [rows[n]];
      var t := Latest(rows[..n]);
      if t < rows[n].received then rows[n].received else t
  }

  /** A peer with no rows yet is never turned away while the unread queue is empty. */
  lemma NewPeerAccepted(s: Inbox, m: Message, peer: string, now: real, id: string)
    requires Count(s.rows, InState(Unread)) == 0
    requires forall r :: r in s.rows ==> r.peer != peer
    ensures AcceptTx(s, m, peer, Unread, now, id).0 == s.(rows := s.rows + [Row(id, peer, now, Unread, m)])
    ensures Count(s.rows + [Row(id, peer, now, Unread, m)], InState(Unread)) == 1
  {
    CountPositive(s.rows, Since(peer, now - WINDOW));
    CountAppend(s.rows, Row(id, peer, now, Unread, m), InState(Unread));
  }

  /** From any inbox some message can be accepted as the only unread one. */
  lemma SomeArrival(s: Inbox) returns (op: Op)
    requires Count(s.rows, InState(Unread)) == 0
    ensures op.Accept? && Admits(s, op)
    ensures var t := Perform(s, op);
      Count(t.rows, InState(Unread)) > 0 && t.wake == s.wake && t.ackRevision == s.ackRevision
  {
    var name, now := Longer(s.rows), Latest(s.rows);
    assert forall r :: r in s.rows ==> |r.id| < |name| && |r.peer| < |name|;
    op := Accept(Message("w", "b", "f", None, 0), name, Unread, now, name);
    NewPeerAccepted(s, op.m, name, now, name);
  }

  /** Nothing latches the queue any more, or only a success the acknowledgement has overtaken. */
  lemma Resubmission(y: System) returns (es: seq<Event>)
    requires Sound(y) && y.phase.Sent? && Count(y.inbox.rows, InState(Unread)) > 0
    requires y.inbox.ackRevision > y.phase.wake.ackRevision
    ensures Resubmits(y, es)
  {
    es := [Finish(Submitted), Attempt("next"), Notice];
    var y1 := Apply(y, es[0]);
    var y2 := Apply(y1, es[1]);
    assert y2.phase.Began?;
    assert es[1..] == [Attempt("next"), Notice] && es[1..][1..] == [Notice] && es[1..][1..][1..] == [];
  }

  lemma ResubmissionAfterDrain(y: System) returns (es: seq<Event>)
    requires Sound(y) && y.phase.Sent? && Count(y.inbox.rows, InState(Unread)) == 0
    requires y.inbox.ackRevision > y.phase.wake.ackRevision
    ensures Resubmits(y, es)
  {
    var op := SomeArrival(y.inbox);
    StepKeepsSound(y, Other(op));
    var rest := Resubmission(Apply(y, Other(op)));
    es := [Other(op)] + rest;
    assert es[1..] == rest;
  }

  /**
   The acknowledgement need not fall between the two submissions.  From the moment a notice is
   out, another one can follow with neither a rejection nor an acknowledgement in between if and
   only if an acknowledgement had already been committed between the attempt and its submission.
   */
  lemma RepeatExactly(y: System)
    requires Sound(y) && y.phase.Sent?
    ensures (exists es :: Resubmits(y, es)) <==> y.inbox.ackRevision > y.phase.wake.ackRevision
  {
    if y.inbox.ackRevision > y.phase.wake.ackRevision {
      var es;
      if Count(y.inbox.rows, InState(Unread)) > 0 {
        es := Resubmission(y);
      } else {
        es := ResubmissionAfterDrain(y);
      }
      assert Resubmits(y, es);
    }
    forall es | Resubmits(y, es) ensures y.inbox.ackRevision > y.phase.wake.ackRevision {
      var k := |es| - 1;
      RunSplit(y, es, k);
      RunKeepsGuarded(y, es[..k], y.phase.wake);
      assert es[k..] == [Notice] && es[k..][1..] == [];
    }
  }

  lemma RunCons(y: System, e: Event, es: seq<Event>)
    requires Enabled(y, e) && Runs(Apply(y, e), es)
    ensures Runs(y, [e] + es) && Run(y, [e] + es) == Run(Apply(y, e), es)
  {
    assert ([e] + es)[1..] == es;
  }

  lemma AckOnly(row: Row, wake: Option<Wake>)
    requires row.state == Unread
    ensures MoveTx(Inbox([row], wake, 0), [row.id], Ack).ackRevision == 1
  {
    assert row in [row];
    assert row.id in Named([row], [row.id], Unread);
  }

  /**
   Such a state is reachable: a message arrives, an attempt begins, the message is acknowledged,
   and only then the notice goes out.
   */
  lemma OvertakenBeforeSubmission() returns (es: seq<Event>)
    ensures Runs(START, es) && Run(START, es).phase.Sent?
    ensures Run(START, es).inbox.ackRevision > Run(START, es).phase.wake.ackRevision
  {
    var m := Message("w", "b", "f", None, 0);
    var row := Row("i", "p", 0.0, Unread, m);
    var arrive, ack := Other(Accept(m, "p", Unread, 0.0, "i")), Other(Transition(["i"], Ack));
    NewPeerAccepted(EMPTY, m, "p", 0.0, "i");
    assert [] + [row] == [row];
    var y1 := Apply(START, arrive);
    var y2 := Apply(y1, Attempt("x"));
    AckOnly(row, y2.inbox.wake);
    var y3 := Apply(y2, ack);
    var y4 := Apply(y3, Notice);
    RunCons(y3, Notice, []);
    RunCons(y2, ack, [Notice]);
    RunCons(y1, Attempt("x"), [ack] + ([Notice] + []));
    RunCons(START, arrive, [Attempt("x")] + ([ack] + ([Notice] + [])));
    es := [arrive] + ([Attempt("x")] + ([ack] + ([Notice] + [])));
  }
}
