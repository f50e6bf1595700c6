/**
 That the name protocol does not stand in its own way: a name nobody is listed with can be taken.
 */
module Renames {
  import opened Base
  import opened Names

  lemma SomeKey(keys: set<int>)
    ensures keys == {} || exists k :: k in keys
  {
    if !exists k :: k in keys {
      assert keys == {};
    }
  }

  lemma RunCons(y: System, e: Event, es: seq<Event>)
    requires Enabled(y, e) && Runs(Apply(y, e), es)
    ensures Runs(y, [e] + es) && Run(y, [e] + es) == Run(Apply(y, e), es)
  {
    assert ([e] + es)[1..] == es;
  }

  /** The check of a name that no listed entry carries finds nothing. */
  lemma {:induction false} ScanPasses(y: System, p: Proc, name: string, todo: set<int>, start: bool) returns (es: seq<Event>)
    requires p in y.workers && y.workers[p].phase == Checking(name, todo, start)
    requires forall k :: k in y.registry && k in todo && Listed(y.alive, y.registry[k]) ==> y.registry[k].name != name
    ensures Runs(y, es)
    ensures Run(y, es) == y.(workers := y.workers[p := y.workers[p].(phase := Checked(name, start))])
    decreases todo
  {
    SomeKey(todo);
    if todo == {} {
      RunCons(y, Pass(p), []);
      es := [Pass(p)] + [];
    } else {
      var key :| key in todo;
      var z := Apply(y, Examine(p, key));
      var rest := ScanPasses(z, p, name, todo - {key}, start);
      RunCons(y, Examine(p, key), rest);
      es := [Examine(p, key)] + rest;
      assert z.workers[p := z.workers[p].(phase := Checked(name, start))] == y.workers[p := y.workers[p].(phase := Checked(name, start))];
    }
  }

  /** A running worker can rename itself to any name that no other listed entry carries. */
  lemma FreeNameIsTaken(y: System, p: Proc, name: string) returns (es: seq<Event>)
    requires p in y.workers && y.workers[p].phase.Running? && y.workers[p].tracked && y.lock.None?
    requires forall k :: k in y.registry && k != p.pid && Listed(y.alive, y.registry[k]) ==> y.registry[k].name != name
    ensures Runs(y, es)
    ensures var z := Run(y, es);
      && p in z.workers && z.workers[p] == y.workers[p].(name := name)
      && z.registry == y.registry[p.pid := Entry(p, name, y.workers[p].host)] && z.lock.None?
  {
    var a := Apply(y, Lock(p, name));
    var scan := ScanPasses(a, p, name, y.registry.Keys - {p.pid}, false);
    var b := Run(a, scan);
    var c := Apply(b, Adopt(p));
    RunCons(c, Republish(p, Outcome.Written), []);
    RunCons(b, Adopt(p), [Republish(p, Outcome.Written)] + []);
    RunAppend(a, scan, [Adopt(p)] + ([Republish(p, Outcome.Written)] + []));
    RunCons(y, Lock(p, name), scan + ([Adopt(p)] + ([Republish(p, Outcome.Written)] + [])));
    es := [Lock(p, name)] + (scan + ([Adopt(p)] + ([Republish(p, Outcome.Written)] + [])));
  }

  lemma {:induction false} RunAppend(y: System, es: seq<Event>, more: seq<Event>)
    requires Runs(y, es) && Runs(Run(y, es), more)
    ensures Runs(y, es + more) && Run(y, es + more) == Run(Run(y, es), more)
    decreases |es|
  {
    if es == [] {
      assert es + more == more;
    } else {
      RunAppend(Apply(y, es[0]), es[1..], more);
      RunCons(y, es[0], es[1..] + more);
      assert es + more == [es[0]] + (es[1..] + more);
    }
  }
}
