/**
 Launching and shutting down against one app-server socket directory.  Any number of processes
 race for the directory's lock file; the saved configuration of a thread names its client owner
 by PID and start time; `ps` may fail at any time, so a probe answers alive, gone or unknown;
 and any process may exit at any step, which releases the lock it holds.
 */
module Launch {
  import opened Base

  /** The owner fields of a thread's config.json: no owner, or the client process, and the socket. */
  datatype Saved = Saved(owner: Option<Proc>, socket: string)

  // ---------------------------------------------------------------- the three-valued probe

  datatype Liveness = Alive | Gone | Unknown

  /** `ps` gave a start time or failed; `kill(pid, 0)` said ESRCH or not. */
  datatype Observation = Observation(ps: Option<string>, esrch: bool)

  /** The comparison shutdown makes with each recorded owner. */
  function Compare(p: Proc, seen: Observation): Liveness {
    match seen.ps
    case None => if seen.esrch then Gone else Unknown
    case Some(start) => if start == p.start then Alive else Gone
  }

  /** `checkHost`: an owner recorded without a start time can never be ruled out. */
  function CheckHost(p: Proc, seen: Observation): Liveness {
    if p.start == "" then Unknown else Compare(p, seen)
  }

  /** The operating system does not lie, but it need not answer. */
  ghost predicate Observed(alive: set<Proc>, p: Proc, seen: Observation) {
    && (seen.ps.Some? ==> Proc(p.pid, seen.ps.value) in alive)
    && (seen.esrch ==> forall q :: q in alive ==> q.pid != p.pid)
  }

  /** A definite answer is right, a reused PID included. */
  lemma ProbeIsSound(alive: set<Proc>, p: Proc, seen: Observation)
    requires UniquePids(alive) && Observed(alive, p, seen)
    ensures CheckHost(p, seen).Alive? ==> p in alive
    ensures CheckHost(p, seen).Gone? ==> p !in alive
    ensures Compare(p, seen).Alive? ==> p in alive
    ensures Compare(p, seen).Gone? ==> p !in alive
  {
  }

  /** And whenever `ps` answers about an owner with a start time, the answer is definite. */
  lemma ProbeIsExact(alive: set<Proc>, p: Proc, seen: Observation)
    requires UniquePids(alive) && Observed(alive, p, seen) && seen.ps.Some?
    ensures Compare(p, seen).Alive? <==> p in alive
    ensures Compare(p, seen).Gone? <==> p !in alive
    ensures CheckHost(p, seen) == if p.start == "" then Unknown else Compare(p, seen)
  {
  }

  // ---------------------------------------------------------------- the system

  datatype Phase =
    // launch; a thread of `None` is a new conversation
    | Waiting(resume: Option<string>, socket: string)
    | Locked(resume: Option<string>, socket: string)
    | Looked(thread: string, socket: string, owner: Option<Proc>)
    | Cleared(thread: string, socket: string)
    | Registered(thread: string, socket: string)
    | Client(thread: string, socket: string)
    // shutdown
    | StopWaiting(socket: string)
    | Scanning(socket: string, todo: set<string>)
    | Examining(socket: string, todo: set<string>, thread: string, suspect: Proc)
    | Ready(socket: string)
    | Signalled
  {
    predicate Launching() { Locked? || Looked? || Cleared? || Registered? }
    predicate Critical() { Launching() || Scanning? || Examining? || Ready? || Signalled? }
    /** This process is the thread's client, or is about to become it. */
    predicate Claims(t: string) { (Registered? || Client?) && thread == t }
  }

  /** `moved` records the threads given another socket since the lock was last taken. */
  datatype System = System(phases: map<Proc, Phase>, alive: set<Proc>, ever: set<Proc>,
                           lock: Option<Proc>, saved: map<string, Saved>, moved: set<string>)

  function OwnerOf(saved: map<string, Saved>, t: string): Option<Proc> {
    if t in saved then saved[t].owner else None
  }

  datatype Event =
    | Begin(p: Proc, first: Phase)      // a launch or shutdown command starts
    | Other(p: Proc)                    // some unrelated process starts
    | Lock(p: Proc)
    | Look(p: Proc)                     // refuseLiveOwner reads the saved configuration
    | Probe(p: Proc, seen: Observation) // checkHost on the owner that was read
    | NewThread(p: Proc, t: string)     // the server created a conversation
    | Register(p: Proc)                 // Enable commits config.json with this process as owner
    | Exec(p: Proc)                     // become the Codex client; the lock closes on exec
    | Pick(p: Proc, t: string)          // the owner scan reads one thread's configuration
    | Verify(p: Proc, seen: Observation)
    | Finish(p: Proc)                   // the scan is over
    | Signal(p: Proc)                   // SIGTERM to the app-server
    | Move(t: string, socket: string)   // `start` or `configure` commits another socket, without the lock
    | Exit(p: Proc)                     // refusal, error, timeout, crash or normal end

  ghost predicate Enabled(y: System, e: Event) {
    match e
    case Begin(p, first) =>
      && p !in y.ever && (forall q :: q in y.alive ==> q.pid != p.pid)
      && (first.Waiting? || first.StopWaiting?)
    case Other(p) => p !in y.ever && (forall q :: q in y.alive ==> q.pid != p.pid)
    case Lock(p) => p in y.phases && (y.phases[p].Waiting? || y.phases[p].StopWaiting?) && y.lock.None?
    case Look(p) => p in y.phases && y.phases[p].Locked? && y.phases[p].resume.Some?
    case Probe(p, seen) =>
      && p in y.phases && y.phases[p].Looked?
      && (y.phases[p].owner.Some? ==> Observed(y.alive, y.phases[p].owner.value, seen))
    case NewThread(p, t) => p in y.phases && y.phases[p].Locked? && y.phases[p].resume.None? && t !in y.saved
    case Register(p) => p in y.phases && y.phases[p].Cleared?
    case Exec(p) => p in y.phases && y.phases[p].Registered?
    case Pick(p, t) => p in y.phases && y.phases[p].Scanning? && t in y.phases[p].todo && t in y.saved
    case Verify(p, seen) => p in y.phases && y.phases[p].Examining? && Observed(y.alive, y.phases[p].suspect, seen)
    case Finish(p) => p in y.phases && y.phases[p].Scanning? && y.phases[p].todo == {}
    case Signal(p) => p in y.phases && y.phases[p].Ready?
    case Move(t, socket) => true // checkHost has passed, but the owner may have exited since
    case Exit(p) => p in y.alive
  }

  function Leave(y: System, p: Proc): System {
    y.(phases := y.phases - {p}, alive := y.alive - {p}, lock := if y.lock == Some(p) then None else y.lock)
  }

  ghost function Apply(y: System, e: Event): System
    requires Enabled(y, e)
  {
    match e
    case Begin(p, first) => y.(phases := y.phases[p := first], alive := y.alive + {p}, ever := y.ever + {p})
    case Other(p) => y.(alive := y.alive + {p}, ever := y.ever + {p})
    case Lock(p) =>
      var next := if y.phases[p].Waiting? then Locked(y.phases[p].resume, y.phases[p].socket)
                  else Scanning(y.phases[p].socket, y.saved.Keys);
      y.(phases := y.phases[p := next], lock := Some(p), moved := {})
    case Look(p) =>
      var ph := y.phases[p];
      y.(phases := y.phases[p := Looked(ph.resume.value, ph.socket, OwnerOf(y.saved, ph.resume.value))])
    case Probe(p, seen) =>
      var ph := y.phases[p];
      if ph.owner.None? || CheckHost(ph.owner.value, seen).Gone?
      then y.(phases := y.phases[p := Cleared(ph.thread, ph.socket)]) else Leave(y, p)
    case NewThread(p, t) => y.(phases := y.phases[p := Cleared(t, y.phases[p].socket)])
    case Register(p) =>
      var ph := y.phases[p];
      y.(phases := y.phases[p := Registered(ph.thread, ph.socket)],
         saved := y.saved[ph.thread := Saved(Some(p), ph.socket)])
    case Exec(p) => y.(phases := y.phases[p := Client(y.phases[p].thread, y.phases[p].socket)], lock := None)
    case Pick(p, t) =>
      var ph := y.phases[p];
      var next := if y.saved[t].socket == ph.socket && y.saved[t].owner.Some?
                  then Examining(ph.socket, ph.todo - {t}, t, y.saved[t].owner.value)
                  else Scanning(ph.socket, ph.todo - {t});
      y.(phases := y.phases[p := next])
    case Verify(p, seen) =>
      var ph := y.phases[p];
      if Compare(ph.suspect, seen).Gone?
      then y.(phases := y.phases[p := Scanning(ph.socket, ph.todo)]) else Leave(y, p)
    case Finish(p) => y.(phases := y.phases[p := Ready(y.phases[p].socket)])
    case Signal(p) => y.(phases := y.phases[p := Signalled])
    case Move(t, socket) => y.(saved := y.saved[t := Saved(OwnerOf(y.saved, t), socket)], moved := y.moved + {t})
    case Exit(p) => Leave(y, p)
  }

  ghost predicate Runs(y: System, es: seq<Event>)
    decreases |es|
  {
    es == [] || (Enabled(y, es[0]) && Runs(Apply(y, es[0]), es[1..]))
  }

  ghost function Run(y: System, es: seq<Event>): System
    requires Runs(y, es)
    decreases |es|
  {
    if es == [] then y else Run(Apply(y, es[0]), es[1..])
  }

  // ---------------------------------------------------------------- the invariant

  /** The thread has no recorded owner that could still be running. */
  predicate Departed(saved: map<string, Saved>, alive: set<Proc>, t: string) {
    OwnerOf(saved, t).None? || OwnerOf(saved, t).value !in alive
  }

  predicate DepartedFor(saved: map<string, Saved>, alive: set<Proc>, t: string, socket: string) {
    t in saved && saved[t].socket == socket ==> Departed(saved, alive, t)
  }

  /** What a process in each phase may rely on. */
  ghost predicate PhaseOk(lock: Option<Proc>, saved: map<string, Saved>, alive: set<Proc>, moved: set<string>, p: Proc, ph: Phase) {
    && (ph.Critical() <==> lock == Some(p))
    && match ph
       case Looked(t, socket, owner) => owner == OwnerOf(saved, t)
       case Cleared(t, socket) => Departed(saved, alive, t)
       case Registered(t, socket) => OwnerOf(saved, t) == Some(p)
       case Client(t, socket) => OwnerOf(saved, t) == Some(p)
       case Scanning(socket, todo) => forall t :: t !in todo && t !in moved ==> DepartedFor(saved, alive, t, socket)
       case Examining(socket, todo, u, suspect) =>
         && OwnerOf(saved, u) == Some(suspect)
         && forall t :: t !in todo && t != u && t !in moved ==> DepartedFor(saved, alive, t, socket)
       case Ready(socket) => forall t :: t !in moved ==> DepartedFor(saved, alive, t, socket)
       case _ => true
  }

  ghost predicate PhasesOk(y: System) {
    forall p :: p in y.phases ==> PhaseOk(y.lock, y.saved, y.alive, y.moved, p, y.phases[p])
  }

  ghost predicate Sound(y: System) {
    && y.phases.Keys <= y.alive <= y.ever
    && UniquePids(y.alive)
    && (forall t :: t in y.saved && y.saved[t].owner.Some? ==> y.saved[t].owner.value in y.ever)
    && (y.lock.Some? ==> y.lock.value in y.phases)
    && PhasesOk(y)
  }

  lemma LeaveKeepsSound(y: System, p: Proc)
    requires Sound(y) && p in y.alive
    ensures Sound(Leave(y, p))
  {
    var z := Leave(y, p);
    forall q | q in z.phases ensures PhaseOk(z.lock, z.saved, z.alive, z.moved, q, z.phases[q]) {
      assert PhaseOk(y.lock, y.saved, y.alive, y.moved, q, y.phases[q]);
      forall t, socket | DepartedFor(y.saved, y.alive, t, socket) ensures DepartedFor(z.saved, z.alive, t, socket) {
      }
    }
  }

  /** A step of `p` that neither writes a configuration nor changes who is alive. */
  lemma AdvanceKeepsSound(y: System, p: Proc, next: Phase, lock: Option<Proc>, moved: set<string>)
    requires Sound(y) && p in y.phases
    requires lock == y.lock || (y.lock.None? && lock == Some(p)) || (y.lock == Some(p) && lock.None?)
    requires moved == y.moved || y.lock.None?
    requires PhaseOk(lock, y.saved, y.alive, moved, p, next)
    ensures Sound(y.(phases := y.phases[p := next], lock := lock, moved := moved))
  {
    var z := y.(phases := y.phases[p := next], lock := lock, moved := moved);
    forall q | q in z.phases ensures PhaseOk(z.lock, z.saved, z.alive, z.moved, q, z.phases[q]) {
      if q != p {
        assert PhaseOk(y.lock, y.saved, y.alive, y.moved, q, y.phases[q]);
      }
    }
  }

  /** A newly started process owns nothing yet. */
  lemma StartKeepsSound(y: System, p: Proc)
    requires Sound(y) && p !in y.ever && (forall q :: q in y.alive ==> q.pid != p.pid)
    ensures Sound(y.(alive := y.alive + {p}, ever := y.ever + {p}))
  {
    var z := y.(alive := y.alive + {p}, ever := y.ever + {p});
    forall t | Departed(y.saved, y.alive, t) ensures Departed(z.saved, z.alive, t) {
    }
    forall q | q in z.phases ensures PhaseOk(z.lock, z.saved, z.alive, z.moved, q, z.phases[q]) {
      assert PhaseOk(y.lock, y.saved, y.alive, y.moved, q, y.phases[q]);
      forall t, socket | DepartedFor(y.saved, y.alive, t, socket) ensures DepartedFor(z.saved, z.alive, t, socket) {
      }
    }
  }

  lemma BeginKeepsSound(y: System, p: Proc, first: Phase)
    requires Sound(y) && p in y.alive && p !in y.phases && (first.Waiting? || first.StopWaiting?)
    ensures Sound(y.(phases := y.phases[p := first]))
  {
    var z := y.(phases := y.phases[p := first]);
    forall q | q in z.phases ensures PhaseOk(z.lock, z.saved, z.alive, z.moved, q, z.phases[q]) {
      if q != p {
        assert PhaseOk(y.lock, y.saved, y.alive, y.moved, q, y.phases[q]);
      }
    }
  }

  /** Registration is the only write, and it happens while every other process is outside the lock. */
  lemma RegisterKeepsSound(y: System, p: Proc)
    requires Sound(y) && p in y.phases && y.phases[p].Cleared?
    ensures Sound(Apply(y, Register(p)))
  {
    var z := Apply(y, Register(p));
    assert PhaseOk(y.lock, y.saved, y.alive, y.moved, p, y.phases[p]);
    forall q | q in z.phases ensures PhaseOk(z.lock, z.saved, z.alive, z.moved, q, z.phases[q]) {
      if q != p {
        assert PhaseOk(y.lock, y.saved, y.alive, y.moved, q, y.phases[q]);
      }
    }
  }

  /** Changing a thread's socket leaves every owner recorded; only a scan may now be out of date. */
  lemma MoveKeepsSound(y: System, t: string, socket: string)
    requires Sound(y)
    ensures Sound(Apply(y, Move(t, socket)))
  {
    var z := Apply(y, Move(t, socket));
    assert forall u :: OwnerOf(z.saved, u) == OwnerOf(y.saved, u);
    forall q | q in z.phases ensures PhaseOk(z.lock, z.saved, z.alive, z.moved, q, z.phases[q]) {
      assert PhaseOk(y.lock, y.saved, y.alive, y.moved, q, y.phases[q]);
      forall u, s | u != t && DepartedFor(y.saved, y.alive, u, s) ensures DepartedFor(z.saved, z.alive, u, s) {
      }
    }
  }

  lemma ProbeKeepsSound(y: System, p: Proc, seen: Observation)
    requires Sound(y) && Enabled(y, Probe(p, seen))
    ensures Sound(Apply(y, Probe(p, seen)))
  {
    var ph := y.phases[p];
    assert PhaseOk(y.lock, y.saved, y.alive, y.moved, p, ph);
    if ph.owner.None? || CheckHost(ph.owner.value, seen).Gone? {
      if ph.owner.Some? {
        ProbeIsSound(y.alive, ph.owner.value, seen);
      }
      AdvanceKeepsSound(y, p, Cleared(ph.thread, ph.socket), y.lock, y.moved);
    } else {
      LeaveKeepsSound(y, p);
    }
  }

  lemma VerifyKeepsSound(y: System, p: Proc, seen: Observation)
    requires Sound(y) && Enabled(y, Verify(p, seen))
    ensures Sound(Apply(y, Verify(p, seen)))
  {
    var ph := y.phases[p];
    assert PhaseOk(y.lock, y.saved, y.alive, y.moved, p, ph);
    if Compare(ph.suspect, seen).Gone? {
      ProbeIsSound(y.alive, ph.suspect, seen);
      AdvanceKeepsSound(y, p, Scanning(ph.socket, ph.todo), y.lock, y.moved);
    } else {
      LeaveKeepsSound(y, p);
    }
  }

  lemma AdvanceStep(y: System, e: Event)
    requires Sound(y) && Enabled(y, e)
    requires e.Lock? || e.Look? || e.NewThread? || e.Exec? || e.Pick? || e.Finish? || e.Signal?
    ensures Sound(Apply(y, e))
  {
    var p := e.p;
    assert PhaseOk(y.lock, y.saved, y.alive, y.moved, p, y.phases[p]);
    AdvanceKeepsSound(y, p, Apply(y, e).phases[p], Apply(y, e).lock, Apply(y, e).moved);
  }

  lemma StepKeepsSound(y: System, e: Event)
    requires Sound(y) && Enabled(y, e)
    ensures Sound(Apply(y, e))
  {
    match e
    case Begin(p, first) =>
      StartKeepsSound(y, p);
      BeginKeepsSound(y.(alive := y.alive + {p}, ever := y.ever + {p}), p, first);
    case Other(p) => StartKeepsSound(y, p);
    case Register(p) => RegisterKeepsSound(y, p);
    case Move(t, socket) => MoveKeepsSound(y, t, socket);
    case Exit(p) => LeaveKeepsSound(y, p);
    case Probe(p, seen) => ProbeKeepsSound(y, p, seen);
    case Verify(p, seen) => VerifyKeepsSound(y, p, seen);
    case _ => AdvanceStep(y, e);
  }

  lemma {:induction false} RunKeepsSound(y: System, es: seq<Event>)
    requires Sound(y) && Runs(y, es)
    ensures Sound(Run(y, es))
    decreases |es|
  {
    if es != [] {
      StepKeepsSound(y, es[0]);
      RunKeepsSound(Apply(y, es[0]), es[1..]);
    }
  }

  // ---------------------------------------------------------------- the theorems

  /** No launch or shutdown is running; saved owners may be alive, gone, or reused PIDs. */
  ghost predicate Initial(y: System) {
    && y.phases == map[] && y.lock.None?
    && y.alive <= y.ever && UniquePids(y.alive)
    && (forall t :: t in y.saved && y.saved[t].owner.Some? ==> y.saved[t].owner.value in y.ever)
  }

  /** In every run, no thread ever has two live launcher-owned clients. */
  lemma OneClientPerThread(y: System, es: seq<Event>, t: string, p: Proc, q: Proc)
    requires Initial(y) && Runs(y, es)
    requires p in Run(y, es).phases && Run(y, es).phases[p].Claims(t)
    requires q in Run(y, es).phases && Run(y, es).phases[q].Claims(t)
    ensures p == q
  {
    RunKeepsSound(y, es);
    var z := Run(y, es);
    assert PhaseOk(z.lock, z.saved, z.alive, z.moved, p, z.phases[p]);
    assert PhaseOk(z.lock, z.saved, z.alive, z.moved, q, z.phases[q]);
  }

  /** A client that owned the thread before the run, and is still alive, is never joined by another. */
  lemma {:induction false} LiveOwnerKeepsThread(y: System, es: seq<Event>, t: string, o: Proc)
    requires Sound(y) && Runs(y, es) && OwnerOf(y.saved, t) == Some(o)
    requires o in Run(y, es).alive
    ensures OwnerOf(Run(y, es).saved, t) == Some(o)
    decreases |es|
  {
    if es != [] {
      StepKeepsSound(y, es[0]);
      AliveBefore(Apply(y, es[0]), es[1..], o);
      if es[0].Register? {
        var p := es[0].p;
        assert PhaseOk(y.lock, y.saved, y.alive, y.moved, p, y.phases[p]);
      }
      LiveOwnerKeepsThread(Apply(y, es[0]), es[1..], t, o);
    }
  }

  /** A process that has ever existed and is alive now has been alive all along. */
  lemma {:induction false} AliveBefore(y: System, es: seq<Event>, o: Proc)
    requires Sound(y) && Runs(y, es) && o in y.ever && o in Run(y, es).alive
    ensures o in y.alive
    decreases |es|
  {
    if es != [] {
      StepKeepsSound(y, es[0]);
      AliveBefore(Apply(y, es[0]), es[1..], o);
    }
  }

  // ---------------------------------------------------------------- what a shutdown can miss

  /** A live owner is recorded for the thread under this socket. */
  predicate LiveOn(y: System, t: string, socket: string) {
    t in y.saved && y.saved[t].socket == socket && y.saved[t].owner.Some? && y.saved[t].owner.value in y.alive
  }

  /** A shutdown holds the lock. */
  predicate Stopping(y: System) {
    y.lock.Some? && y.lock.value in y.phases &&
    (y.phases[y.lock.value].Scanning? || y.phases[y.lock.value].Examining? || y.phases[y.lock.value].Ready?)
  }

  /** A step that leaves a shutdown in possession of the lock found it there, and wrote nothing itself. */
  lemma StopStep(y: System, e: Event)
    requires Sound(y) && Enabled(y, e) && Stopping(Apply(y, e)) && !e.Lock?
    ensures Stopping(y) && (!e.Move? ==> Apply(y, e).saved == y.saved && Apply(y, e).moved == y.moved)
  {
    if !e.Begin? && !e.Other? && !e.Move? && e.p in y.phases {
      assert PhaseOk(y.lock, y.saved, y.alive, y.moved, e.p, y.phases[e.p]);
    }
    if y.lock.Some? {
      assert PhaseOk(y.lock, y.saved, y.alive, y.moved, y.lock.value, y.phases[y.lock.value]);
    }
  }

  /** In particular it leaves the record of any thread but the one moved. */
  lemma RecordStays(y: System, e: Event, t: string)
    requires Sound(y) && Enabled(y, e) && Stopping(Apply(y, e)) && !e.Lock? && !(e.Move? && e.t == t)
    ensures Stopping(y) && (t in Apply(y, e).moved <==> t in y.moved)
    ensures t in y.saved ==> t in Apply(y, e).saved && Apply(y, e).saved[t] == y.saved[t]
  {
    StopStep(y, e);
  }

  lemma {:induction false} RunTo(y: System, es: seq<Event>, i: nat)
    requires Runs(y, es) && i < |es|
    ensures Runs(y, es[..i]) && Enabled(Run(y, es[..i]), es[i])
    ensures Runs(y, es[..i + 1]) && Run(y, es[..i + 1]) == Apply(Run(y, es[..i]), es[i])
    decreases |es|
  {
    if i == 0 {
      assert es[..1][1..] == [];
    } else {
      RunTo(Apply(y, es[0]), es[1..], i - 1);
      assert es[..i][1..] == es[1..][..i - 1] && es[..i + 1][1..] == es[1..][..i];
    }
  }

  /** The last event of a run, and the state before it. */
  lemma RunLast(y: System, es: seq<Event>)
    requires Sound(y) && Runs(y, es) && es != []
    ensures var n := |es| - 1;
      Runs(y, es[..n]) && Sound(Run(y, es[..n])) && Enabled(Run(y, es[..n]), es[n])
      && Run(y, es) == Apply(Run(y, es[..n]), es[n])
  {
    var n := |es| - 1;
    RunTo(y, es, n);
    assert es[..n + 1] == es;
    RunKeepsSound(y, es[..n]);
  }

  /** Event `i` moves a thread, and neither the lock nor that thread's socket changes hands after it. */
  predicate LastMoveAt(es: seq<Event>, i: nat) {
    && i < |es| && es[i].Move?
    && forall k :: i < k < |es| ==> !es[k].Lock? && !(es[k].Move? && es[k].t == es[i].t)
  }

  lemma LastMoveLonger(es: seq<Event>, i: nat)
    requires es != [] && LastMoveAt(es[..|es| - 1], i)
    requires var e := es[|es| - 1]; !e.Lock? && !(e.Move? && e.t == es[i].t)
    ensures LastMoveAt(es, i)
  {
    var front := es[..|es| - 1];
    forall k | i < k < |es| ensures !es[k].Lock? && !(es[k].Move? && es[k].t == es[i].t) {
      if k < |front| {
        assert front[k] == es[k];
      }
    }
  }

  lemma LastMoveShorter(es: seq<Event>, i: nat)
    requires LastMoveAt(es, i) && i < |es| - 1
    ensures LastMoveAt(es[..|es| - 1], i)
    ensures var e := es[|es| - 1]; !e.Lock? && !(e.Move? && e.t == es[i].t)
  {
  }

  /** Behind a thread moved since the lock was taken there is a last move, which is what is recorded. */
  lemma {:induction false} LastMove(y: System, es: seq<Event>, t: string) returns (i: nat)
    requires Sound(y) && y.lock.None? && Runs(y, es) && Stopping(Run(y, es)) && t in Run(y, es).moved
    ensures LastMoveAt(es, i) && es[i].t == t && Runs(y, es[..i])
    ensures t in Run(y, es).saved && Run(y, es).saved[t] == Saved(OwnerOf(Run(y, es[..i]).saved, t), es[i].socket)
    decreases |es|
  {
    var n := |es| - 1;
    RunLast(y, es);
    if es[n].Move? && es[n].t == t {
      i := n;
    } else {
      RecordStays(Run(y, es[..n]), es[n], t);
      i := LastMove(y, es[..n], t);
      LastMoveLonger(es, i);
      assert es[..n][..i] == es[..i];
    }
  }

  /** What the last move of a thread recorded stays recorded while the shutdown has the lock. */
  lemma {:induction false} MoveLasts(y: System, es: seq<Event>, i: nat)
    requires Sound(y) && Runs(y, es) && Stopping(Run(y, es)) && LastMoveAt(es, i)
    ensures Runs(y, es[..i])
    ensures var t := es[i].t;
      t in Run(y, es).saved && Run(y, es).saved[t] == Saved(OwnerOf(Run(y, es[..i]).saved, t), es[i].socket)
    decreases |es|
  {
    var n := |es| - 1;
    RunLast(y, es);
    if i < n {
      LastMoveShorter(es, i);
      RecordStays(Run(y, es[..n]), es[n], es[i].t);
      MoveLasts(y, es[..n], i);
      assert es[..n][..i] == es[..i];
    }
  }

  /**
   Event `i` gave a thread this socket after the lock was last taken, nothing moved it again, and
   the owner it had then is still alive.
   */
  ghost predicate Slipped(y: System, es: seq<Event>, i: nat, socket: string)
    requires Runs(y, es)
  {
    && LastMoveAt(es, i) && es[i].socket == socket && Runs(y, es[..i])
    && var o := OwnerOf(Run(y, es[..i]).saved, es[i].t); o.Some? && o.value in Run(y, es).alive
  }

  lemma SlippedIsLive(y: System, es: seq<Event>, i: nat, socket: string)
    requires Sound(y) && Runs(y, es) && Stopping(Run(y, es)) && Slipped(y, es, i, socket)
    ensures LiveOn(Run(y, es), es[i].t, socket)
  {
    MoveLasts(y, es, i);
  }

  lemma LiveHasNotDeparted(y: System, t: string, socket: string)
    requires LiveOn(y, t, socket)
    ensures !DepartedFor(y.saved, y.alive, t, socket)
  {
  }

  lemma LiveHasSlipped(y: System, es: seq<Event>, p: Proc, t: string) returns (i: nat)
    requires Sound(y) && y.lock.None? && Runs(y, es) && Enabled(Run(y, es), Signal(p))
    requires LiveOn(Run(y, es), t, Run(y, es).phases[p].socket)
    ensures Slipped(y, es, i, Run(y, es).phases[p].socket)
  {
    RunKeepsSound(y, es);
    LiveIsMoved(y, es, p, t);
    i := LastMove(y, es, t);
  }

  /** Whenever SIGTERM is sent, no launch is in its critical section. */
  lemma NoLaunchAtSignal(y: System, es: seq<Event>, p: Proc)
    requires Initial(y) && Runs(y, es) && Enabled(Run(y, es), Signal(p))
    ensures forall q :: q in Run(y, es).phases ==> !Run(y, es).phases[q].Launching()
  {
    RunKeepsSound(y, es);
    var z := Run(y, es);
    assert PhaseOk(z.lock, z.saved, z.alive, z.moved, p, z.phases[p]);
    forall q | q in z.phases ensures !z.phases[q].Launching() {
      assert PhaseOk(z.lock, z.saved, z.alive, z.moved, q, z.phases[q]);
    }
  }

  /**
   When SIGTERM is sent for a socket, a thread recorded for it has a live owner if and only if a
   thread was moved to that socket after the shutdown took the lock and its owner has not exited.
   Without such a move the shutdown is safe.
   */
  lemma SignalIsSafe(y: System, es: seq<Event>, p: Proc)
    requires Initial(y) && Runs(y, es) && Enabled(Run(y, es), Signal(p))
    ensures var socket := Run(y, es).phases[p].socket;
      (exists t :: LiveOn(Run(y, es), t, socket)) <==> (exists i: nat :: Slipped(y, es, i, socket))
  {
    RunKeepsSound(y, es);
    var z := Run(y, es);
    var socket := z.phases[p].socket;
    assert PhaseOk(z.lock, z.saved, z.alive, z.moved, p, z.phases[p]);
    if t :| LiveOn(z, t, socket) {
      var i := LiveHasSlipped(y, es, p, t);
    }
    if i: nat :| Slipped(y, es, i, socket) {
      SlippedIsLive(y, es, i, socket);
    }
  }

  lemma RunCons(y: System, e: Event, es: seq<Event>)
    requires Enabled(y, e) && Runs(Apply(y, e), es)
    ensures Runs(y, [e] + es) && Run(y, [e] + es) == Run(Apply(y, e), es)
  {
    assert ([e] + es)[1..] == es;
  }

  /**
   Such a run: the scan of a shutdown for socket B passes over a thread recorded for A, the thread is
   moved to B while its owner runs, and the shutdown goes on to its signal.
   */
  lemma MovedDuringShutdown() returns (y: System, es: seq<Event>, p: Proc)
    ensures Initial(y) && Runs(y, es) && Enabled(Run(y, es), Signal(p))
    ensures LiveOn(Run(y, es), "t", Run(y, es).phases[p].socket)
  {
    var o := Proc(1, "x");
    p := Proc(2, "y");
    y := System(map[], {o}, {o}, None, map["t" := Saved(Some(o), "A")], {});
    var y1 := Apply(y, Begin(p, StopWaiting("B")));
    var y2 := Apply(y1, Lock(p));
    var y3 := Apply(y2, Pick(p, "t"));
    var y4 := Apply(y3, Move("t", "B"));
    assert y3.phases[p] == Scanning("B", {"t"} - {"t"});
    var e5 := Finish(p);
    RunCons(y4, e5, []);
    RunCons(y3, Move("t", "B"), [e5] + []);
    RunCons(y2, Pick(p, "t"), [Move("t", "B")] + ([e5] + []));
    RunCons(y1, Lock(p), [Pick(p, "t")] + ([Move("t", "B")] + ([e5] + [])));
    RunCons(y, Begin(p, StopWaiting("B")), [Lock(p)] + ([Pick(p, "t")] + ([Move("t", "B")] + ([e5] + []))));
    es := [Begin(p, StopWaiting("B"))] + ([Lock(p)] + ([Pick(p, "t")] + ([Move("t", "B")] + ([e5] + []))));
  }

  // ---------------------------------------------------------------- what a launch records

  /** A launch in any phase, for this socket and, if it resumes one, this thread. */
  predicate LaunchOn(ph: Phase, resume: Option<string>, socket: string) {
    match ph
    case Waiting(r, s) => r == resume && s == socket
    case Locked(r, s) => r == resume && s == socket
    case Looked(t, s, _) => resume == Some(t) && s == socket
    case Cleared(t, s) => (resume.Some? ==> t == resume.value) && s == socket
    case Registered(t, s) => (resume.Some? ==> t == resume.value) && s == socket
    case Client(t, s) => (resume.Some? ==> t == resume.value) && s == socket
    case _ => false
  }

  /** A launch keeps its socket to the end of its life. */
  lemma {:induction false} LaunchKeepsSocket(y: System, es: seq<Event>, p: Proc, resume: Option<string>, socket: string)
    requires Sound(y) && Runs(y, es) && p in y.phases && LaunchOn(y.phases[p], resume, socket) && p in Run(y, es).alive
    ensures p in Run(y, es).phases && LaunchOn(Run(y, es).phases[p], resume, socket)
    decreases |es|
  {
    if es != [] {
      StepKeepsSound(y, es[0]);
      AliveBefore(Apply(y, es[0]), es[1..], p);
      LaunchStep(y, es[0], p, resume, socket);
      LaunchKeepsSocket(Apply(y, es[0]), es[1..], p, resume, socket);
    }
  }

  lemma LaunchStep(y: System, e: Event, p: Proc, resume: Option<string>, socket: string)
    requires Sound(y) && Enabled(y, e) && p in y.phases && LaunchOn(y.phases[p], resume, socket) && p in Apply(y, e).alive
    ensures p in Apply(y, e).phases && LaunchOn(Apply(y, e).phases[p], resume, socket)
  {
  }

  /** A thread recorded for a live owner changes only by being moved. */
  lemma OwnedStep(y: System, e: Event, t: string, o: Proc)
    requires Sound(y) && Enabled(y, e) && OwnerOf(y.saved, t) == Some(o) && o in y.alive && !(e.Move? && e.t == t)
    ensures t in Apply(y, e).saved && Apply(y, e).saved[t] == y.saved[t]
  {
    if e.Register? {
      assert PhaseOk(y.lock, y.saved, y.alive, y.moved, e.p, y.phases[e.p]);
    }
  }

  lemma {:induction false} RecordLasts(y: System, es: seq<Event>, t: string, o: Proc)
    requires Sound(y) && Runs(y, es) && OwnerOf(y.saved, t) == Some(o) && o in Run(y, es).alive
    requires forall e :: e in es ==> !(e.Move? && e.t == t)
    ensures t in Run(y, es).saved && Run(y, es).saved[t] == y.saved[t]
    decreases |es|
  {
    if es != [] {
      assert es[0] in es && forall e :: e in es[1..] ==> e in es;
      StepKeepsSound(y, es[0]);
      AliveBefore(Apply(y, es[0]), es[1..], o);
      AliveStep(y, es[0], o);
      OwnedStep(y, es[0], t, o);
      RecordLasts(Apply(y, es[0]), es[1..], t, o);
    }
  }

  lemma AliveStep(y: System, e: Event, o: Proc)
    requires Sound(y) && Enabled(y, e) && o in y.ever && o in Apply(y, e).alive
    ensures o in y.alive
  {
  }

  lemma {:induction false} RunBetween(y: System, es: seq<Event>, i: nat)
    requires Runs(y, es) && i <= |es|
    ensures Runs(y, es[..i]) && Runs(Run(y, es[..i]), es[i..]) && Run(y, es) == Run(Run(y, es[..i]), es[i..])
    decreases |es|
  {
    if i == 0 {
      assert es[..0] == [] && es[0..] == es;
    } else {
      RunBetween(Apply(y, es[0]), es[1..], i - 1);
      assert es[..i][1..] == es[1..][..i - 1] && es[i..] == es[1..][i - 1..];
    }
  }

  /** Event `i` registers a launch that began with event 0, on this socket. */
  ghost predicate Registers(y: System, es: seq<Event>, p: Proc, resume: Option<string>, socket: string, i: nat) {
    && Sound(y) && Runs(y, es) && 0 < i < |es|
    && es[0] == Begin(p, Waiting(resume, socket)) && es[i] == Register(p) && Runs(y, es[..i])
  }

  /** Nobody moves the thread after event `i`. */
  predicate Unmoved(es: seq<Event>, i: nat, t: string)
    requires i < |es|
  {
    forall e :: e in es[i + 1..] ==> !(e.Move? && e.t == t)
  }

  /** The state in which the launch registers: it holds the lock, with its own socket and thread. */
  lemma RegistersFrom(y: System, es: seq<Event>, p: Proc, resume: Option<string>, socket: string, i: nat)
    requires Registers(y, es, p, resume, socket, i)
    ensures var z := Run(y, es[..i]);
      && Sound(z) && Enabled(z, Register(p)) && p in z.alive && z.lock == Some(p) && LaunchOn(z.phases[p], resume, socket)
      && Runs(Apply(z, Register(p)), es[i + 1..]) && Run(y, es) == Run(Apply(z, Register(p)), es[i + 1..])
  {
    RunBetween(y, es, i);
    RunKeepsSound(y, es[..i]);
    var z := Run(y, es[..i]);
    assert es[i..][0] == es[i] && es[i..][1..] == es[i + 1..];
    assert PhaseOk(z.lock, z.saved, z.alive, z.moved, p, z.phases[p]);
    assert es[..i][0] == es[0] && es[..i][1..] == es[1..i];
    StepKeepsSound(y, es[0]);
    LaunchKeepsSocket(Apply(y, es[0]), es[1..i], p, resume, socket);
  }

  /**
   A launch on a socket records its process and that socket for its thread, the one it resumes if any,
   and so it stays as long as the process lives and nobody moves the thread.
   */
  lemma LaunchIsRecorded(y: System, es: seq<Event>, p: Proc, resume: Option<string>, socket: string, i: nat)
    requires Registers(y, es, p, resume, socket, i) && p in Run(y, es).alive
    ensures p in Run(y, es[..i]).phases && Run(y, es[..i]).phases[p].Cleared?
    ensures var t := Run(y, es[..i]).phases[p].thread;
      (resume.Some? ==> t == resume.value)
      && (Unmoved(es, i, t) ==> t in Run(y, es).saved && Run(y, es).saved[t] == Saved(Some(p), socket))
  {
    RegistersFrom(y, es, p, resume, socket, i);
    var z := Run(y, es[..i]);
    var t := z.phases[p].thread;
    StepKeepsSound(z, es[i]);
    if Unmoved(es, i, t) {
      RecordLasts(Apply(z, es[i]), es[i + 1..], t, p);
    }
  }

  /** Moves noted while `p` had the lock are forgotten once anyone else takes it. */
  lemma {:induction false} MovesForgotten(y: System, es: seq<Event>, t: string, p: Proc)
    requires Runs(y, es) && (t in y.moved ==> y.lock.None? || y.lock == Some(p))
    requires forall e :: e in es ==> !(e.Move? && e.t == t)
    ensures t in Run(y, es).moved ==> Run(y, es).lock.None? || Run(y, es).lock == Some(p)
    decreases |es|
  {
    if es != [] {
      assert es[0] in es && forall e :: e in es[1..] ==> e in es;
      MovesForgotten(Apply(y, es[0]), es[1..], t, p);
    }
  }

  /** So when SIGTERM is sent for a socket, no process launched on it still runs, unless its thread was moved. */
  lemma NoClientAtSignal(y: System, es: seq<Event>, p: Proc, resume: Option<string>, socket: string, i: nat, q: Proc)
    requires Registers(y, es, p, resume, socket, i)
    requires Enabled(Run(y, es), Signal(q)) && Run(y, es).phases[q].socket == socket
    ensures p in Run(y, es[..i]).phases && Run(y, es[..i]).phases[p].Cleared?
    ensures Unmoved(es, i, Run(y, es[..i]).phases[p].thread) ==> p !in Run(y, es).alive
  {
    RegistersFrom(y, es, p, resume, socket, i);
    var z := Run(y, es[..i]);
    var t := z.phases[p].thread;
    if Unmoved(es, i, t) && p in Run(y, es).alive {
      LaunchIsRecorded(y, es, p, resume, socket, i);
      MovesForgotten(Apply(z, es[i]), es[i + 1..], t, p);
      LiveIsMoved(y, es, q, t);
      StepKeepsSound(z, es[i]);
      LaunchKeepsSocket(Apply(z, es[i]), es[i + 1..], p, resume, socket);
    }
  }

  /** A live owner recorded for the socket at the signal is one whose thread was moved. */
  lemma LiveIsMoved(y: System, es: seq<Event>, q: Proc, t: string)
    requires Sound(y) && Runs(y, es) && Enabled(Run(y, es), Signal(q)) && LiveOn(Run(y, es), t, Run(y, es).phases[q].socket)
    ensures t in Run(y, es).moved && Run(y, es).lock == Some(q)
  {
    RunKeepsSound(y, es);
    var z := Run(y, es);
    assert PhaseOk(z.lock, z.saved, z.alive, z.moved, q, z.phases[q]);
    LiveHasNotDeparted(z, t, z.phases[q].socket);
  }

  /** A shutdown in any phase before its signal, for this socket. */
  predicate StopOn(ph: Phase, socket: string) {
    ph.Signalled? || ((ph.StopWaiting? || ph.Scanning? || ph.Examining? || ph.Ready?) && ph.socket == socket)
  }

  lemma StopOnStep(y: System, e: Event, p: Proc, socket: string)
    requires Sound(y) && Enabled(y, e) && p in y.phases && StopOn(y.phases[p], socket) && p in Apply(y, e).alive
    ensures p in Apply(y, e).phases && StopOn(Apply(y, e).phases[p], socket)
  {
  }

  /** A shutdown signals the socket it was started for. */
  lemma {:induction false} StopKeepsSocket(y: System, es: seq<Event>, p: Proc, socket: string)
    requires Sound(y) && Runs(y, es) && p in y.phases && StopOn(y.phases[p], socket) && p in Run(y, es).alive
    ensures p in Run(y, es).phases && StopOn(Run(y, es).phases[p], socket)
    decreases |es|
  {
    if es != [] {
      StepKeepsSound(y, es[0]);
      AliveBefore(Apply(y, es[0]), es[1..], p);
      StopOnStep(y, es[0], p, socket);
      StopKeepsSocket(Apply(y, es[0]), es[1..], p, socket);
    }
  }

  /**
   A resuming launch goes on from its check exactly when no owner is recorded or the owner is known to
   be gone; any other answer ends it.
   */
  lemma LaunchGoesOn(y: System, p: Proc, seen: Observation)
    requires Sound(y) && Enabled(y, Probe(p, seen))
    ensures var ph, owner := y.phases[p], OwnerOf(y.saved, y.phases[p].thread);
      if owner.None? || (owner.value.start != "" && (if seen.ps.Some? then seen.ps.value != owner.value.start else seen.esrch))
      then Apply(y, Probe(p, seen)) == y.(phases := y.phases[p := Cleared(ph.thread, ph.socket)])
      else p !in Apply(y, Probe(p, seen)).alive
  {
    assert PhaseOk(y.lock, y.saved, y.alive, y.moved, p, y.phases[p]);
  }
}
