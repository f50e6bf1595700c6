/**
 Peer names in the shared registry.  Every worker publishes one entry under its PID; starts and
 renames check the listing and publish under one lock file, while maintenance republishes without
 it, publication can fail before or after the file is replaced, and workers and their client
 owners may exit at any step.  Liveness probes are taken to be exact here and each worker keeps
 one owner.  Names stand for normalised names.
 */
module Names {
  import opened Base

  datatype Entry = Entry(proc: Proc, name: string, host: Option<Proc>)

  datatype Phase =
    | Starting
    | Running
    | Checking(name: string, todo: set<int>, start: bool)
    | Checked(name: string, start: bool)
    | Renamed(prior: string)   // the worker's configuration has the new name; the registry not yet
    | RollingBack            // publication failed; the old configuration is back
  {
    predicate Critical() { Checking? || Checked? || Renamed? || RollingBack? }
  }

  /** `tracked`: the worker still recognises its registry file, so it can replace and remove it. */
  datatype Worker = Worker(name: string, host: Option<Proc>, tracked: bool, phase: Phase)

  datatype System = System(workers: map<Proc, Worker>, registry: map<int, Entry>, lock: Option<Proc>,
                           alive: set<Proc>, ever: set<Proc>)

  /** `Discover` lists an entry whose worker is alive and whose owner, if it has one, is alive. */
  predicate Listed(alive: set<Proc>, e: Entry) {
    e.proc in alive && (e.host.Some? ==> e.host.value in alive)
  }

  /** What came of replacing the registry file. */
  datatype Outcome = Written | WrittenUntracked | NotWritten

  datatype Event =
    | Spawn(p: Proc, name: string, host: Option<Proc>)
    | SpawnOther(p: Proc)
    | Lock(p: Proc, name: string)
    | Examine(p: Proc, key: int)
    | Pass(p: Proc)
    | Publish(p: Proc, outcome: Outcome)
    | Adopt(p: Proc)
    | Republish(p: Proc, outcome: Outcome)
    | Abandon(p: Proc)   // a rename fails after its check, before anything is written
    | Rollback(p: Proc, outcome: Outcome)
    | Maintain(p: Proc, outcome: Outcome)
    | Exit(p: Proc, clean: bool)

  ghost predicate Enabled(y: System, e: Event) {
    match e
    case Spawn(p, name, host) =>
      && p !in y.ever && (forall q :: q in y.alive ==> q.pid != p.pid)
      && (host.Some? ==> host.value in y.alive)
    case SpawnOther(p) => p !in y.ever && (forall q :: q in y.alive ==> q.pid != p.pid)
    case Lock(p, name) =>
      && p in y.workers && y.lock.None?
      && (y.workers[p].phase.Running? || (y.workers[p].phase.Starting? && name == y.workers[p].name))
    case Examine(p, key) => p in y.workers && y.workers[p].phase.Checking? && key in y.workers[p].phase.todo
    case Pass(p) => p in y.workers && y.workers[p].phase.Checking? && y.workers[p].phase.todo == {}
    case Publish(p, outcome) =>
      && p in y.workers && y.workers[p].phase.Checked? && y.workers[p].phase.start
      && !outcome.NotWritten? && p.pid !in y.registry
    case Adopt(p) => p in y.workers && y.workers[p].phase.Checked? && !y.workers[p].phase.start
    case Republish(p, outcome) =>
      p in y.workers && y.workers[p].phase.Renamed? && (outcome.NotWritten? || y.workers[p].tracked)
    case Abandon(p) =>
      p in y.workers && (y.workers[p].phase.Checking? || y.workers[p].phase.Checked?) && !y.workers[p].phase.start
    case Rollback(p, outcome) =>
      p in y.workers && y.workers[p].phase.RollingBack? && (outcome.NotWritten? || y.workers[p].tracked)
    case Maintain(p, outcome) =>
      p in y.workers && y.workers[p].phase.Running? && (outcome.NotWritten? || y.workers[p].tracked)
    case Exit(p, clean) => p in y.alive
  }

  function Leave(y: System, p: Proc, clean: bool): System {
    System(y.workers - {p},
           if clean && p in y.workers && y.workers[p].tracked then y.registry - {p.pid} else y.registry,
           if y.lock == Some(p) then None else y.lock, y.alive - {p}, y.ever)
  }

  /** The registry after `p` publishes the name of its current configuration. */
  function Advertised(y: System, p: Proc): map<int, Entry>
    requires p in y.workers
  {
    if y.workers[p].tracked then y.registry[p.pid := Entry(p, y.workers[p].name, y.workers[p].host)] else y.registry
  }

  /** `p` publishes its current name with this outcome and goes on running. */
  function Written(y: System, p: Proc, outcome: Outcome): System
    requires p in y.workers
  {
    var w := y.workers[p];
    y.(workers := y.workers[p := w.(phase := Running, tracked := w.tracked && !outcome.WrittenUntracked?)],
       registry := if outcome.NotWritten? then y.registry else Advertised(y, p))
  }

  ghost function Apply(y: System, e: Event): System
    requires Enabled(y, e)
  {
    match e
    case Spawn(p, name, host) =>
      y.(workers := y.workers[p := Worker(name, host, false, Starting)], alive := y.alive + {p}, ever := y.ever + {p})
    case SpawnOther(p) => y.(alive := y.alive + {p}, ever := y.ever + {p})
    case Lock(p, name) =>
      var w := y.workers[p];
      y.(workers := y.workers[p := w.(phase := Checking(name, y.registry.Keys - {p.pid}, w.phase.Starting?))],
         lock := Some(p))
    case Examine(p, key) =>
      var w := y.workers[p];
      if key in y.registry && Listed(y.alive, y.registry[key]) && y.registry[key].name == w.phase.name then
        // The name is taken: a start gives up, a rename keeps the old name.
        if w.phase.start then Leave(y, p, true)
        else y.(workers := y.workers[p := w.(phase := Running)], lock := None)
      else y.(workers := y.workers[p := w.(phase := w.phase.(todo := w.phase.todo - {key}))])
    case Pass(p) =>
      var w := y.workers[p];
      y.(workers := y.workers[p := w.(phase := Checked(w.phase.name, w.phase.start))])
    case Publish(p, outcome) =>
      var w := y.workers[p];
      y.(workers := y.workers[p := w.(tracked := outcome.Written?, phase := Running)],
         registry := y.registry[p.pid := Entry(p, w.name, w.host)], lock := None)
    case Adopt(p) =>
      var w := y.workers[p];
      y.(workers := y.workers[p := w.(name := w.phase.name, phase := Renamed(w.name))])
    case Republish(p, outcome) =>
      var w := y.workers[p];
      if outcome.Written? then
        y.(workers := y.workers[p := w.(phase := Running)], registry := Advertised(y, p), lock := None)
      else
        y.(workers := y.workers[p := w.(name := w.phase.prior, phase := RollingBack,
                                        tracked := w.tracked && outcome.NotWritten?)],
           registry := if outcome.NotWritten? then y.registry else Advertised(y, p))
    case Abandon(p) => y.(workers := y.workers[p := y.workers[p].(phase := Running)], lock := None)
    case Rollback(p, outcome) => Written(y, p, outcome).(lock := None)
    case Maintain(p, outcome) => Written(y, p, outcome)
    case Exit(p, clean) => Leave(y, p, clean)
  }

  ghost predicate Runs(y: System, es: seq<Event>)
    decreases |es|
  {
    es == [] || (Enabled(y, es[0]) && Runs(Apply(y, es[0]), es[1..]))
  }

  ghost function Run(y: System, es: seq<Event>): System
    requires Runs(y, es)
    decreases |es|
  {
    if es == [] then y else Run(Apply(y, es[0]), es[1..])
  }

  // ---------------------------------------------------------------- the invariant

  /** No listed entry other than `own` and those in `todo` carries `name`. */
  ghost predicate Free(registry: map<int, Entry>, alive: set<Proc>, name: string, own: int, todo: set<int>) {
    forall k :: k in registry && k != own && k !in todo && Listed(alive, registry[k]) ==> registry[k].name != name
  }

  ghost predicate WorkerOk(registry: map<int, Entry>, lock: Option<Proc>, alive: set<Proc>, p: Proc, w: Worker) {
    && (w.phase.Critical() <==> lock == Some(p))
    && (w.phase.Starting? || (w.phase.Checking? && w.phase.start) || (w.phase.Checked? && w.phase.start) ==> !w.tracked)
    && (w.phase.Checking? && w.phase.start ==> w.phase.name == w.name)
    && (w.phase.Checked? && w.phase.start ==> w.phase.name == w.name)
    && (w.tracked ==>
          && p.pid in registry
          && registry[p.pid] == Entry(p, if w.phase.Renamed? then w.phase.prior else w.name, w.host))
    && (match w.phase
        case Checking(name, todo, start) => Free(registry, alive, name, p.pid, todo)
        case Checked(name, start) => Free(registry, alive, name, p.pid, {})
        case Renamed(prior) => Free(registry, alive, w.name, p.pid, {})
        case _ => true)
  }

  /** No two listed entries carry the same name. */
  ghost predicate Distinct(registry: map<int, Entry>, alive: set<Proc>) {
    forall j, k :: j in registry && k in registry && j != k && Listed(alive, registry[j]) && Listed(alive, registry[k])
      ==> registry[j].name != registry[k].name
  }

  ghost predicate Sound(y: System) {
    && y.workers.Keys <= y.alive <= y.ever
    && UniquePids(y.alive)
    && (forall k :: k in y.registry ==>
          && y.registry[k].proc.pid == k && y.registry[k].proc in y.ever
          && (y.registry[k].host.Some? ==> y.registry[k].host.value in y.ever))
    && (forall p :: p in y.workers && y.workers[p].host.Some? ==> y.workers[p].host.value in y.ever)
    && (y.lock.Some? ==> y.lock.value in y.workers)
    && Distinct(y.registry, y.alive)
    && (forall p :: p in y.workers ==> WorkerOk(y.registry, y.lock, y.alive, p, y.workers[p]))
  }

  /** A step of `p` that changes only its own worker record and, perhaps, the lock. */
  lemma QuietStep(y: System, p: Proc, w: Worker, lock: Option<Proc>)
    requires Sound(y) && p in y.workers && w.host == y.workers[p].host
    requires lock == y.lock || (y.lock.None? && lock == Some(p)) || (y.lock == Some(p) && lock.None?)
    requires WorkerOk(y.registry, lock, y.alive, p, w)
    ensures Sound(y.(workers := y.workers[p := w], lock := lock))
  {
    var z := y.(workers := y.workers[p := w], lock := lock);
    forall q | q in z.workers ensures WorkerOk(z.registry, z.lock, z.alive, q, z.workers[q]) {
      if q != p {
        assert WorkerOk(y.registry, y.lock, y.alive, q, y.workers[q]);
      }
    }
  }

  /** `p` puts its own entry in place under a name nobody else is listed with. */
  lemma PublishStep(y: System, p: Proc, w: Worker, lock: Option<Proc>, name: string)
    requires Sound(y) && p in y.workers && w.host == y.workers[p].host
    requires y.lock == Some(p) && (lock == y.lock || lock.None?)
    requires p.pid in y.registry ==> y.registry[p.pid].proc == p
    requires Free(y.registry, y.alive, name, p.pid, {})
    requires WorkerOk(y.registry[p.pid := Entry(p, name, w.host)], lock, y.alive, p, w)
    ensures Sound(y.(workers := y.workers[p := w], lock := lock, registry := y.registry[p.pid := Entry(p, name, w.host)]))
  {
    var z := y.(workers := y.workers[p := w], lock := lock, registry := y.registry[p.pid := Entry(p, name, w.host)]);
    forall q | q in z.workers ensures WorkerOk(z.registry, z.lock, z.alive, q, z.workers[q]) {
      if q != p {
        assert WorkerOk(y.registry, y.lock, y.alive, q, y.workers[q]);
        assert q.pid != p.pid;
      }
    }
  }

  /** Fewer live processes and fewer entries list fewer names. */
  lemma LeaveStep(y: System, p: Proc, clean: bool)
    requires Sound(y) && p in y.alive
    ensures Sound(Leave(y, p, clean))
  {
    var z := Leave(y, p, clean);
    forall q | q in z.workers ensures WorkerOk(z.registry, z.lock, z.alive, q, z.workers[q]) {
      assert WorkerOk(y.registry, y.lock, y.alive, q, y.workers[q]);
      assert q.pid != p.pid;
    }
  }

  /** A newly started process is listed nowhere. */
  lemma SpawnStep(y: System, p: Proc)
    requires Sound(y) && p !in y.ever && (forall q :: q in y.alive ==> q.pid != p.pid)
    ensures Sound(y.(alive := y.alive + {p}, ever := y.ever + {p}))
  {
    var z := y.(alive := y.alive + {p}, ever := y.ever + {p});
    forall k | k in y.registry ensures Listed(z.alive, y.registry[k]) == Listed(y.alive, y.registry[k]) {
    }
    forall q | q in z.workers ensures WorkerOk(z.registry, z.lock, z.alive, q, z.workers[q]) {
      assert WorkerOk(y.registry, y.lock, y.alive, q, y.workers[q]);
    }
  }

  lemma EnrolStep(y: System, p: Proc, name: string, host: Option<Proc>)
    requires Sound(y) && p in y.alive && p !in y.workers && (host.Some? ==> host.value in y.alive)
    ensures Sound(y.(workers := y.workers[p := Worker(name, host, false, Starting)]))
  {
    var z := y.(workers := y.workers[p := Worker(name, host, false, Starting)]);
    forall q | q in z.workers ensures WorkerOk(z.registry, z.lock, z.alive, q, z.workers[q]) {
      if q != p {
        assert WorkerOk(y.registry, y.lock, y.alive, q, y.workers[q]);
      }
    }
  }

  lemma CheckStep(y: System, e: Event)
    requires Sound(y) && Enabled(y, e) && (e.Lock? || e.Examine? || e.Pass? || e.Adopt? || e.Abandon?)
    ensures Sound(Apply(y, e))
  {
    var p := e.p;
    var z := Apply(y, e);
    assert WorkerOk(y.registry, y.lock, y.alive, p, y.workers[p]);
    if p in z.workers {
      QuietStep(y, p, z.workers[p], z.lock);
    } else {
      LeaveStep(y, p, true);
    }
  }

  lemma WriteStep(y: System, e: Event)
    requires Sound(y) && Enabled(y, e) && (e.Publish? || e.Republish?)
    ensures Sound(Apply(y, e))
  {
    var p := e.p;
    var w, z := y.workers[p], Apply(y, e);
    assert WorkerOk(y.registry, y.lock, y.alive, p, w);
    if e.Republish? && e.outcome.NotWritten? {
      QuietStep(y, p, z.workers[p], z.lock);
    } else {
      PublishStep(y, p, z.workers[p], z.lock, w.name);
    }
  }

  /** Republishing outside a rename puts back what is already there. */
  lemma SameStep(y: System, e: Event)
    requires Sound(y) && Enabled(y, e) && (e.Rollback? || e.Maintain?)
    ensures Sound(Apply(y, e))
  {
    var p := e.p;
    assert WorkerOk(y.registry, y.lock, y.alive, p, y.workers[p]);
    assert Advertised(y, p) == y.registry;
    QuietStep(y, p, Apply(y, e).workers[p], Apply(y, e).lock);
  }

  lemma StepKeepsSound(y: System, e: Event)
    requires Sound(y) && Enabled(y, e)
    ensures Sound(Apply(y, e))
  {
    match e
    case Spawn(p, name, host) =>
      SpawnStep(y, p);
      EnrolStep(y.(alive := y.alive + {p}, ever := y.ever + {p}), p, name, host);
    case SpawnOther(p) => SpawnStep(y, p);
    case Exit(p, clean) => LeaveStep(y, p, clean);
    case Publish(p, outcome) => WriteStep(y, e);
    case Republish(p, outcome) => WriteStep(y, e);
    case Rollback(p, outcome) => SameStep(y, e);
    case Maintain(p, outcome) => SameStep(y, e);
    case _ => CheckStep(y, e);
  }

  lemma {:induction false} RunKeepsSound(y: System, es: seq<Event>)
    requires Sound(y) && Runs(y, es)
    ensures Sound(Run(y, es))
    decreases |es|
  {
    if es != [] {
      StepKeepsSound(y, es[0]);
      RunKeepsSound(Apply(y, es[0]), es[1..]);
    }
  }

  /** An empty registry, nobody at work; unrelated processes and client owners may be running. */
  ghost predicate Initial(y: System) {
    y.workers == map[] && y.registry == map[] && y.lock.None? && y.alive <= y.ever && UniquePids(y.alive)
  }

  /** In every run, the listing never shows two workers under one name. */
  lemma NamesStayUnique(y: System, es: seq<Event>, j: int, k: int)
    requires Initial(y) && Runs(y, es)
    requires var z := Run(y, es);
      j in z.registry && k in z.registry && Listed(z.alive, z.registry[j]) && Listed(z.alive, z.registry[k])
    requires Run(y, es).registry[j].name == Run(y, es).registry[k].name
    ensures j == k
  {
    RunKeepsSound(y, es);
  }
}
