/**
 The MCP server loop's bookkeeping of concurrent tool calls.  One loop reads requests; each admitted
 call runs in its own goroutine; every access to the tables is under one mutex, and the steps below
 are those critical sections and the operations on the limit channel between them.
 */
module Mcp {
  import opened Base

  const LIMIT := 16

  /** A handler goroutine: still to finish, or finished and about to give its slot back. */
  datatype Handler = Running(key: string) | Draining

  /**
   Calls are numbered in the order received, so that two calls reusing one ID stay apart.
   `reserved` is the call whose key the loop has entered while it tries for a slot.  `answers`
   counts the responses written to each call, and `silenced` records the calls for which a
   cancellation arrived while they were in flight.
   */
  datatype Server = Server(inflight: set<string>, cancelled: set<string>, slots: nat, reserved: Option<string>,
                           handlers: map<nat, Handler>, calls: nat, answers: map<nat, nat>, silenced: set<nat>)

  const IDLE := Server({}, {}, 0, None, map[], 0, map[], {})

  datatype Event =
    | Receive(key: string)   // a tools/call: refuse a key in flight, else enter it
    | Admit                  // take a slot, or refuse
    | Cancel(key: string)    // notifications/cancelled
    | Finish(call: nat)      // the handler's last critical section
    | Free(call: nat)        // and the release of its slot

  ghost predicate Enabled(s: Server, e: Event) {
    match e
    case Receive(key) => s.reserved.None?
    case Admit => s.reserved.Some?
    case Cancel(key) => s.reserved.None?
    case Finish(call) => call in s.handlers && s.handlers[call].Running?
    case Free(call) => call in s.handlers && s.handlers[call].Draining?
  }

  /** The calls in flight under a key. */
  function Holders(handlers: map<nat, Handler>, key: string): set<nat> {
    set c | c in handlers && handlers[c] == Running(key)
  }

  ghost function Apply(s: Server, e: Event): Server
    requires Enabled(s, e)
  {
    match e
    case Receive(key) =>
      if key in s.inflight
      then s.(calls := s.calls + 1, answers := s.answers[s.calls := 1])
      else s.(inflight := s.inflight + {key}, reserved := Some(key))
    case Admit =>
      var key := s.reserved.value;
      if s.slots == LIMIT
      then s.(inflight := s.inflight - {key}, reserved := None, calls := s.calls + 1, answers := s.answers[s.calls := 1])
      else s.(slots := s.slots + 1, reserved := None, calls := s.calls + 1, answers := s.answers[s.calls := 0],
              handlers := s.handlers[s.calls := Running(key)])
    case Cancel(key) =>
      if key in s.inflight
      then s.(cancelled := s.cancelled + {key}, silenced := s.silenced + Holders(s.handlers, key)) else s
    case Finish(call) =>
      var key := s.handlers[call].key;
      s.(handlers := s.handlers[call := Draining], inflight := s.inflight - {key}, cancelled := s.cancelled - {key},
         answers := if key in s.cancelled || call !in s.answers then s.answers
                    else s.answers[call := s.answers[call] + 1])
    case Free(call) => s.(handlers := s.handlers - {call}, slots := if s.slots == 0 then 0 else s.slots - 1)
  }

  ghost predicate Runs(s: Server, es: seq<Event>)
    decreases |es|
  {
    es == [] || (Enabled(s, es[0]) && Runs(Apply(s, es[0]), es[1..]))
  }

  ghost function Run(s: Server, es: seq<Event>): Server
    requires Runs(s, es)
    decreases |es|
  {
    if es == [] then s else Run(Apply(s, es[0]), es[1..])
  }

  // ---------------------------------------------------------------- the invariant

  ghost predicate HandlerOk(s: Server, c: nat)
    requires c in s.handlers
  {
    && c < s.calls && c in s.answers
    && (s.handlers[c].Running? ==>
          && s.handlers[c].key in s.inflight && s.reserved != Some(s.handlers[c].key)
          && s.answers[c] == 0 && (c in s.silenced <==> s.handlers[c].key in s.cancelled))
  }

  /** A settled call has one response, or none if it was cancelled in flight. */
  ghost predicate CallOk(s: Server, c: nat) {
    && c in s.answers
    && (c !in s.handlers || s.handlers[c].Draining? ==> s.answers[c] == if c in s.silenced then 0 else 1)
  }

  ghost predicate Sound(s: Server) {
    && s.cancelled <= s.inflight
    && s.slots == |s.handlers| && s.slots <= LIMIT
    && (s.reserved.Some? ==> s.reserved.value in s.inflight && s.reserved.value !in s.cancelled)
    && (forall k :: k in s.inflight ==>
          s.reserved == Some(k) || exists c :: c in s.handlers && s.handlers[c] == Running(k))
    && (forall c, d :: c in s.handlers && d in s.handlers && s.handlers[c].Running? && s.handlers[c] == s.handlers[d] ==> c == d)
    && (forall c :: c in s.handlers ==> HandlerOk(s, c))
    && (forall c: nat :: c < s.calls ==> CallOk(s, c))
    && (forall c :: c in s.silenced ==> c < s.calls)
  }

  lemma ReceiveStep(s: Server, key: string)
    requires Sound(s) && s.reserved.None?
    ensures Sound(Apply(s, Receive(key)))
  {
    var t := Apply(s, Receive(key));
    forall c | c in t.handlers ensures HandlerOk(t, c) {
      assert HandlerOk(s, c);
    }
    forall c: nat | c < t.calls ensures CallOk(t, c) {
      assert c < s.calls ==> CallOk(s, c);
    }
  }

  /** Entries other than a new call's are as they were. */
  lemma AdmitEntries(s: Server)
    requires Sound(s) && s.reserved.Some?
    ensures var t := Apply(s, Admit);
      && (forall c :: c in t.handlers ==> HandlerOk(t, c)) && (forall c: nat :: c < t.calls ==> CallOk(t, c))
  {
    var t := Apply(s, Admit);
    forall c | c in t.handlers ensures HandlerOk(t, c) {
      assert c in s.handlers ==> HandlerOk(s, c);
    }
    forall c: nat | c < t.calls ensures CallOk(t, c) {
      assert c < s.calls ==> CallOk(s, c);
    }
  }

  lemma AdmitInflight(s: Server, k: string)
    requires Sound(s) && s.reserved.Some? && k in Apply(s, Admit).inflight
    ensures exists c :: c in Apply(s, Admit).handlers && Apply(s, Admit).handlers[c] == Running(k)
  {
    var t := Apply(s, Admit);
    if s.reserved == Some(k) {
      assert t.handlers[s.calls] == Running(k);
    } else {
      var c :| c in s.handlers && s.handlers[c] == Running(k);
      assert t.handlers[c] == Running(k);
    }
  }

  lemma AdmitStep(s: Server)
    requires Sound(s) && s.reserved.Some?
    ensures Sound(Apply(s, Admit))
  {
    var t := Apply(s, Admit);
    AdmitEntries(s);
    forall k | k in t.inflight ensures exists c :: c in t.handlers && t.handlers[c] == Running(k) {
      AdmitInflight(s, k);
    }
  }

  lemma CancelStep(s: Server, key: string)
    requires Sound(s) && s.reserved.None?
    ensures Sound(Apply(s, Cancel(key)))
  {
    var t := Apply(s, Cancel(key));
    forall c | c in t.handlers ensures HandlerOk(t, c) {
      assert HandlerOk(s, c);
    }
    forall c: nat | c < t.calls ensures CallOk(t, c) {
      assert CallOk(s, c);
    }
  }

  lemma FinishInflight(s: Server, call: nat, k: string)
    requires Sound(s) && Enabled(s, Finish(call)) && k in Apply(s, Finish(call)).inflight && s.reserved != Some(k)
    ensures exists c :: c in Apply(s, Finish(call)).handlers && Apply(s, Finish(call)).handlers[c] == Running(k)
  {
    var c :| c in s.handlers && s.handlers[c] == Running(k);
    assert Apply(s, Finish(call)).handlers[c] == Running(k);
  }

  lemma FinishStep(s: Server, call: nat)
    requires Sound(s) && Enabled(s, Finish(call))
    ensures Sound(Apply(s, Finish(call)))
  {
    var t := Apply(s, Finish(call));
    assert HandlerOk(s, call);
    forall c | c in t.handlers ensures HandlerOk(t, c) {
      assert HandlerOk(s, c);
    }
    forall c: nat | c < t.calls ensures CallOk(t, c) {
      assert CallOk(s, c);
    }
    forall k | k in t.inflight ensures s.reserved == Some(k) || exists c :: c in t.handlers && t.handlers[c] == Running(k) {
      if s.reserved != Some(k) {
        FinishInflight(s, call, k);
      }
    }
    assert t.handlers.Keys == s.handlers.Keys;
  }

  lemma FreeStep(s: Server, call: nat)
    requires Sound(s) && Enabled(s, Free(call))
    ensures Sound(Apply(s, Free(call)))
  {
    var t := Apply(s, Free(call));
    forall c | c in t.handlers ensures HandlerOk(t, c) {
      assert HandlerOk(s, c);
    }
    forall c: nat | c < t.calls ensures CallOk(t, c) {
      assert CallOk(s, c);
    }
    forall k | k in t.inflight ensures s.reserved == Some(k) || exists c :: c in t.handlers && t.handlers[c] == Running(k) {
      if s.reserved != Some(k) {
        var c :| c in s.handlers && s.handlers[c] == Running(k);
        assert t.handlers[c] == Running(k);
      }
    }
    assert t.handlers.Keys == s.handlers.Keys - {call};
  }

  lemma StepKeepsSound(s: Server, e: Event)
    requires Sound(s) && Enabled(s, e)
    ensures Sound(Apply(s, e))
  {
    match e
    case Receive(key) => ReceiveStep(s, key);
    case Admit => AdmitStep(s);
    case Cancel(key) => CancelStep(s, key);
    case Finish(call) => FinishStep(s, call);
    case Free(call) => FreeStep(s, call);
  }

  lemma {:induction false} RunKeepsSound(s: Server, es: seq<Event>)
    requires Sound(s) && Runs(s, es)
    ensures Sound(Run(s, es))
    decreases |es|
  {
    if es != [] {
      StepKeepsSound(s, es[0]);
      RunKeepsSound(Apply(s, es[0]), es[1..]);
    }
  }

  // ---------------------------------------------------------------- the theorems

  /**
   In every run: at most sixteen handlers, every cancellation mark belongs to a call in flight,
   and each call has at most one response, exactly one once it is settled unless it was cancelled
   while in flight.
   */
  lemma OneResponsePerCall(es: seq<Event>, c: nat)
    requires Runs(IDLE, es) && c < Run(IDLE, es).calls
    ensures var s := Run(IDLE, es);
      && |s.handlers| <= LIMIT && s.cancelled <= s.inflight
      && c in s.answers && s.answers[c] <= 1
      && (c !in s.handlers || s.handlers[c].Draining? ==> s.answers[c] == if c in s.silenced then 0 else 1)
  {
    RunKeepsSound(IDLE, es);
    var s := Run(IDLE, es);
    assert CallOk(s, c);
    assert c in s.handlers ==> HandlerOk(s, c);
  }

  /** The call is over, or is the one in flight under the key. */
  predicate Holds(s: Server, c: nat, key: string) {
    c in s.handlers ==> s.handlers[c].Draining? || s.handlers[c] == Running(key)
  }

  lemma HoldsStep(s: Server, e: Event, c: nat, key: string)
    requires Sound(s) && Enabled(s, e) && c < s.calls && c !in s.silenced && Holds(s, c, key) && e != Cancel(key)
    ensures var t := Apply(s, e); c < t.calls && c !in t.silenced && Holds(t, c, key)
  {
  }

  /** Among all cancellations, only one for a call's own key can silence it. */
  lemma {:induction false} OnlyOwnCancel(s: Server, es: seq<Event>, c: nat, key: string)
    requires Sound(s) && Runs(s, es) && c < s.calls && c !in s.silenced && Holds(s, c, key)
    requires Cancel(key) !in es
    ensures c !in Run(s, es).silenced && c < Run(s, es).calls
    decreases |es|
  {
    if es != [] {
      assert es[0] in es && forall e :: e in es[1..] ==> e in es;
      StepKeepsSound(s, es[0]);
      HoldsStep(s, es[0], c, key);
      OnlyOwnCancel(Apply(s, es[0]), es[1..], c, key);
    }
  }

  /**
   An admitted call is answered: once settled it has its one response, whatever was cancelled
   before it, its own ID included, and whatever other calls are cancelled meanwhile.
   */
  lemma AdmittedAnswered(s: Server, es: seq<Event>)
    requires Sound(s) && s.reserved.Some? && s.slots < LIMIT
    requires Runs(Apply(s, Admit), es) && Cancel(s.reserved.value) !in es
    ensures s.calls in Apply(s, Admit).handlers && Apply(s, Admit).handlers[s.calls] == Running(s.reserved.value)
    ensures var t := Run(Apply(s, Admit), es);
      s.calls !in t.handlers || t.handlers[s.calls].Draining? ==> s.calls in t.answers && t.answers[s.calls] == 1
  {
    var a := Apply(s, Admit);
    StepKeepsSound(s, Admit);
    OnlyOwnCancel(a, es, s.calls, s.reserved.value);
    RunKeepsSound(a, es);
    assert CallOk(Run(a, es), s.calls);
  }

  /**
   A call is taken up exactly when its key is not in flight and fewer than sixteen handlers hold a slot;
   a call that is not has its refusal as its one response at once.
   */
  lemma TakenUpExactly(s: Server, key: string)
    requires Sound(s) && s.reserved.None?
    ensures var t := Apply(s, Receive(key));
      && (t.reserved == Some(key) <==> key !in s.inflight)
      && (t.reserved.None? ==> t.answers == s.answers[s.calls := 1] && t.handlers == s.handlers && t.calls == s.calls + 1)
      && (t.reserved.Some? ==>
            var u := Apply(t, Admit);
            && u.calls == s.calls + 1 && u.reserved.None?
            && (if |s.handlers| < 16 then u.handlers == s.handlers[s.calls := Running(key)] && u.answers == s.answers[s.calls := 0]
                else u.handlers == s.handlers && u.answers == s.answers[s.calls := 1] && u.inflight == s.inflight))
  {
    ReceiveStep(s, key);
  }

  lemma {:induction false} RunTo(s: Server, es: seq<Event>, i: nat)
    requires Runs(s, es) && i < |es|
    ensures Runs(s, es[..i]) && Enabled(Run(s, es[..i]), es[i])
    ensures Runs(s, es[..i + 1]) && Run(s, es[..i + 1]) == Apply(Run(s, es[..i]), es[i])
    decreases |es|
  {
    if i == 0 {
      assert es[..1][1..] == [];
    } else {
      RunTo(Apply(s, es[0]), es[1..], i - 1);
      assert es[..i][1..] == es[1..][..i - 1] && es[..i + 1][1..] == es[1..][..i];
    }
  }

  /** Event `i` of the run is a cancellation that finds call `c` in flight under its key. */
  ghost predicate Caught(s: Server, es: seq<Event>, i: nat, c: nat)
    requires i < |es| && Runs(s, es[..i])
  {
    es[i].Cancel? && c in Holders(Run(s, es[..i]).handlers, es[i].key)
  }

  lemma SilencedNext(s: Server, es: seq<Event>, c: nat, n: nat)
    requires Sound(s) && Runs(s, es) && n < |es|
    ensures Runs(s, es[..n]) && Runs(s, es[..n + 1])
    ensures c in Run(s, es[..n + 1]).silenced <==> c in Run(s, es[..n]).silenced || Caught(s, es, n, c)
  {
    RunTo(s, es, n);
    RunKeepsSound(s, es[..n]);
  }

  /** A flag that starts down and is raised exactly by its causes is up if and only if a cause came. */
  lemma {:induction false} Raised(flag: nat -> bool, cause: nat -> bool, n: nat)
    requires !flag(0) && forall i: nat :: i < n ==> (flag(i + 1) <==> flag(i) || cause(i))
    ensures flag(n) <==> exists i: nat :: i < n && cause(i)
  {
    if n > 0 {
      Raised(flag, cause, n - 1);
    }
  }

  lemma Prefixes(s: Server, es: seq<Event>)
    requires Runs(s, es)
    ensures forall i: nat :: i <= |es| ==> Runs(s, es[..i])
  {
    forall i: nat | i <= |es| ensures Runs(s, es[..i]) {
      if i < |es| {
        RunTo(s, es, i);
      } else {
        assert es[..i] == es;
      }
    }
  }

  /** In every run a call is silenced if and only if some cancellation of its key found it in flight. */
  lemma SilencedExactly(es: seq<Event>, c: nat)
    requires Runs(IDLE, es)
    ensures forall i: nat :: i <= |es| ==> Runs(IDLE, es[..i])
    ensures c in Run(IDLE, es).silenced <==> exists i: nat :: i < |es| && Caught(IDLE, es, i, c)
  {
    Prefixes(IDLE, es);
    var silenced := (n: nat) => n <= |es| && Runs(IDLE, es[..n]) && c in Run(IDLE, es[..n]).silenced;
    var caught := (n: nat) => n < |es| && Runs(IDLE, es[..n]) && Caught(IDLE, es, n, c);
    assert es[..0] == [];
    forall n: nat | n < |es| ensures silenced(n + 1) <==> silenced(n) || caught(n) {
      SilencedNext(IDLE, es, c, n);
    }
    Raised(silenced, caught, |es|);
    assert es[..|es|] == es;
    assert forall i: nat :: i < |es| ==> (caught(i) <==> Caught(IDLE, es, i, c));
  }

  // ---------------------------------------------------------------- the critical sections

  datatype Response = NoResponse | Duplicate | TooMany | Result

  class Loop {
    var inflight: set<string>
    var cancelled: set<string>
    var slots: nat
    var reserved: Option<string>
    var handlers: map<nat, Handler>
    var calls: nat
    ghost var answers: map<nat, nat>
    ghost var silenced: set<nat>

    ghost function State(): Server
      reads this
    {
      Server(inflight, cancelled, slots, reserved, handlers, calls, answers, silenced)
    }

    constructor ()
      ensures State() == IDLE
    {
      inflight, cancelled, slots, reserved := {}, {}, 0, None;
      handlers, calls, answers, silenced := map[], 0, map[], {};
    }

    method Receive(key: string) returns (out: Response)
      requires reserved.None?
      modifies this
      ensures State() == Apply(old(State()), Event.Receive(key))
      ensures out == if key in old(inflight) then Duplicate else NoResponse
    {
      if key in inflight {
        answers := answers[calls := 1];
        calls := calls + 1;
        return Duplicate;
      }
      inflight := inflight + {key};
      reserved := Some(key);
      out := NoResponse;
    }

    method Admit() returns (out: Response)
      requires reserved.Some?
      modifies this
      ensures State() == Apply(old(State()), Event.Admit)
      ensures out == if old(slots) == LIMIT then TooMany else NoResponse
    {
      var key := reserved.value;
      reserved := None;
      if slots == LIMIT {
        inflight := inflight - {key};
        answers := answers[calls := 1];
        calls := calls + 1;
        return TooMany;
      }
      slots := slots + 1;
      handlers := handlers[calls := Running(key)];
      answers := answers[calls := 0];
      calls := calls + 1;
      out := NoResponse;
    }

    method Cancel(key: string)
      requires reserved.None?
      modifies this
      ensures State() == Apply(old(State()), Event.Cancel(key))
    {
      if key in inflight {
        cancelled := cancelled + {key};
        silenced := silenced + Holders(handlers, key);
      }
    }

    method Finish(call: nat) returns (out: Response)
      requires Sound(State()) && call in handlers && handlers[call].Running?
      modifies this
      ensures State() == Apply(old(State()), Event.Finish(call))
      ensures out == if call in silenced then NoResponse else Result
    {
      assert HandlerOk(State(), call);
      var key := handlers[call].key;
      out := NoResponse;
      if key !in cancelled {
        answers := answers[call := answers[call] + 1];
        out := Result;
      }
      cancelled := cancelled - {key};
      inflight := inflight - {key};
      handlers := handlers[call := Draining];
    }

    method Free(call: nat)
      requires Sound(State()) && call in handlers && handlers[call].Draining?
      modifies this
      ensures State() == Apply(old(State()), Event.Free(call))
    {
      assert |handlers.Keys| > 0 by {
        assert call in handlers.Keys;
      }
      handlers := handlers - {call};
      slots := slots - 1;
    }
  }
}
