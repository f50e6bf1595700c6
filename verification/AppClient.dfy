/**
 The multiplexed app-server connection: calls, the read loop, failure, closing and context expiry
 interleave at the granularity of the mutex.  Each call owns one reply channel of capacity one.
 */
module AppClient {
  import opened Base

  /** What a channel can carry: the server's answer to one request ID, or the loss of the connection. */
  datatype Reply = Answer(id: int, body: string) | Lost

  /**
   `boxes` holds every value ever sent on each call's channel; `hand` is the reply the read loop
   has taken off the table and not yet sent; `left` are the calls that have returned.
   */
  datatype Client = Client(next: int, pending: set<int>, closed: bool, boxes: map<int, seq<Reply>>,
                           hand: Option<Reply>, left: set<int>,
                           watch: (string, string), recorded: bool, completed: set<(string, string)>)

  const FRESH := Client(0, {}, false, map[], None, {}, ("", ""), false, {})

  datatype Event =
    | Call                               // allocate an ID and a channel
    | Take(answer: Reply)                // the read loop removes the addressed call from the table
    | Put                                // and then sends outside the mutex
    | Fail                               // connection lost, write error or Close
    | Return(id: int)                    // reply received, context expired or write failed
    | Watch(target: (string, string))    // follow one notice
    | Completed(item: (string, string))  // a function output was recorded for (thread, name)

  predicate Enabled(c: Client, e: Event) {
    match e
    case Take(answer) => c.hand.None? && answer.Answer?
    case Put => c.hand.Some?
    case Return(id) => id in c.boxes
    case _ => true
  }

  /** The values sent on a channel by then. */
  function Sends(boxes: map<int, seq<Reply>>, id: int): nat { if id in boxes then |boxes[id]| else 0 }

  function Apply(c: Client, e: Event): Client
    requires Enabled(c, e)
  {
    match e
    case Call =>
      if c.closed then c
      else c.(next := c.next + 1, pending := c.pending + {c.next + 1}, boxes := c.boxes[c.next + 1 := []])
    case Take(answer) =>
      if answer.id in c.pending then c.(pending := c.pending - {answer.id}, hand := Some(answer)) else c
    case Put =>
      match c.hand.value {
        case Answer(id, body) =>
          c.(hand := None, boxes := if id in c.boxes then c.boxes[id := c.boxes[id] + [c.hand.value]] else c.boxes)
        case Lost => c.(hand := None)
      }
    case Fail =>
      if c.closed then c
      else c.(closed := true, pending := {}, boxes := AllLost(c.pending, c.boxes))
    case Return(id) => c.(pending := c.pending - {id}, left := c.left + {id})
    case Watch(target) => if c.watch == target then c else c.(watch := target, recorded := false)
    case Completed(item) =>
      c.(completed := c.completed + {item}, recorded := c.recorded || item == c.watch)
  }

  ghost predicate Runs(c: Client, es: seq<Event>)
    decreases |es|
  {
    es == [] || (Enabled(c, es[0]) && Runs(Apply(c, es[0]), es[1..]))
  }

  ghost function Run(c: Client, es: seq<Event>): Client
    requires Runs(c, es)
    decreases |es|
  {
    if es == [] then c else Run(Apply(c, es[0]), es[1..])
  }

  // ---------------------------------------------------------------- the invariant

  predicate InHand(c: Client, id: int) { c.hand.Some? && c.hand.value.Answer? && c.hand.value.id == id }

  /** One call's channel: at most one value is ever due on it, and it is that call's own. */
  ghost predicate BoxOk(c: Client, id: int)
    requires id in c.boxes
  {
    && |c.boxes[id]| + (if id in c.pending then 1 else 0) + (if InHand(c, id) then 1 else 0) <= 1
    && (forall i :: 0 <= i < |c.boxes[id]| ==> c.boxes[id][i] == Lost || (c.boxes[id][i].Answer? && c.boxes[id][i].id == id))
    && (id in c.pending || InHand(c, id) || |c.boxes[id]| == 1 || id in c.left)
    && id <= c.next
  }

  ghost predicate Sound(c: Client) {
    && c.pending <= c.boxes.Keys
    && (c.hand.Some? ==> c.hand.value.Answer? && c.hand.value.id in c.boxes)
    && (c.closed ==> c.pending == {})
    && (c.recorded ==> c.watch in c.completed)
    && (forall id :: id in c.boxes ==> BoxOk(c, id))
  }

  lemma StepKeepsSound(c: Client, e: Event)
    requires Sound(c) && Enabled(c, e)
    ensures Sound(Apply(c, e))
  {
    var d := Apply(c, e);
    forall id | id in d.boxes ensures BoxOk(d, id) {
      if id in c.boxes {
        assert BoxOk(c, id);
      }
    }
  }

  lemma {:induction false} RunKeepsSound(c: Client, es: seq<Event>)
    requires Sound(c) && Runs(c, es)
    ensures Sound(Run(c, es))
    ensures c.closed ==> Run(c, es).closed && Run(c, es).pending == {} && Run(c, es).next == c.next
    decreases |es|
  {
    if es != [] {
      StepKeepsSound(c, es[0]);
      RunKeepsSound(Apply(c, es[0]), es[1..]);
    }
  }

  // ---------------------------------------------------------------- the theorems

  /** The event sends on the channel of call `id`. */
  predicate SendsTo(c: Client, e: Event, id: int) {
    (e.Put? && InHand(c, id)) || (e.Fail? && !c.closed && id in c.pending)
  }

  /**
   In every interleaving a send finds its channel empty, so it never blocks, even inside the mutex;
   and no channel ever carries a second value or another call's answer.
   */
  lemma SendNeverBlocks(es: seq<Event>, e: Event, id: int)
    requires Runs(FRESH, es) && Enabled(Run(FRESH, es), e) && SendsTo(Run(FRESH, es), e, id)
    ensures Sends(Run(FRESH, es).boxes, id) == 0
    ensures Sends(Apply(Run(FRESH, es), e).boxes, id) == 1
    ensures var sent := Apply(Run(FRESH, es), e).boxes[id][0];
      if e.Put? then Some(sent) == Run(FRESH, es).hand && sent.Answer? && sent.id == id else sent == Lost
  {
    RunKeepsSound(FRESH, es);
    var c := Run(FRESH, es);
    assert BoxOk(c, id);
    StepKeepsSound(c, e);
    assert BoxOk(Apply(c, e), id);
  }

  /** Until the connection closes every call gets an ID never used before and waits for its answer. */
  lemma CallIsPending(es: seq<Event>)
    requires Runs(FRESH, es) && !Run(FRESH, es).closed
    ensures var c, d := Run(FRESH, es), Apply(Run(FRESH, es), Call);
      d.next !in c.boxes && d.next in d.pending && d.pending == c.pending + {d.next} && Sends(d.boxes, d.next) == 0
  {
    RunKeepsSound(FRESH, es);
    var c := Run(FRESH, es);
    forall id | id in c.boxes ensures id <= c.next {
      assert BoxOk(c, id);
    }
  }

  /** Losing the connection closes it and tells every waiting call, and nobody else. */
  lemma FailTellsWaiters(es: seq<Event>, id: int)
    requires Runs(FRESH, es) && !Run(FRESH, es).closed && id in Run(FRESH, es).boxes
    ensures var c, d := Run(FRESH, es), Apply(Run(FRESH, es), Fail);
      d.closed && d.pending == {} && id in d.boxes && d.boxes[id] == if id in c.pending then [Lost] else c.boxes[id]
  {
    RunKeepsSound(FRESH, es);
    assert BoxOk(Run(FRESH, es), id);
  }

  /** An answer to a waiting call is what that call receives. */
  lemma AnswerArrives(es: seq<Event>, answer: Reply)
    requires Runs(FRESH, es) && answer.Answer? && Run(FRESH, es).hand.None? && answer.id in Run(FRESH, es).pending
    ensures var c := Apply(Run(FRESH, es), Take(answer));
      && Enabled(c, Put) && answer.id !in c.pending
      && answer.id in Apply(c, Put).boxes && Apply(c, Put).boxes[answer.id] == [answer]
  {
    RunKeepsSound(FRESH, es);
    assert BoxOk(Run(FRESH, es), answer.id);
  }

  lemma {:induction false} SentFrom(c: Client, es: seq<Event>, id: int, v: Reply)
    requires Sound(c) && Runs(c, es) && id in Run(c, es).boxes && v in Run(c, es).boxes[id]
    ensures (id in c.boxes && v in c.boxes[id]) || c.hand == Some(v) || (v.Answer? && Take(v) in es) || (v == Lost && Fail in es)
    decreases |es|
  {
    if es != [] {
      StepKeepsSound(c, es[0]);
      SentFrom(Apply(c, es[0]), es[1..], id, v);
      assert es == [es[0]] + es[1..];
    }
  }

  /** Whatever a call received came over the connection under its ID, or is the loss of the connection. */
  lemma ReceivedIsReal(es: seq<Event>, id: int, v: Reply)
    requires Runs(FRESH, es) && id in Run(FRESH, es).boxes && v in Run(FRESH, es).boxes[id]
    ensures (v.Answer? && v.id == id && Take(v) in es) || (v == Lost && Fail in es)
  {
    SentFrom(FRESH, es, id, v);
    RunKeepsSound(FRESH, es);
    assert BoxOk(Run(FRESH, es), id);
  }

  /** A call still waiting is never forgotten: it is in the table, about to be answered, or answered. */
  lemma WaiterIsServed(es: seq<Event>, id: int)
    requires Runs(FRESH, es) && id in Run(FRESH, es).boxes && id !in Run(FRESH, es).left
    ensures var c := Run(FRESH, es); id in c.pending || InHand(c, id) || Sends(c.boxes, id) == 1
    ensures var c := Run(FRESH, es); c.closed && c.hand.None? ==> Sends(c.boxes, id) == 1
  {
    RunKeepsSound(FRESH, es);
    assert BoxOk(Run(FRESH, es), id);
  }

  /** Once closed, the table is empty for good and no further call is admitted. */
  lemma ClosedStaysEmpty(es: seq<Event>, more: seq<Event>)
    requires Runs(FRESH, es) && Run(FRESH, es).closed && Runs(Run(FRESH, es), more)
    ensures Run(FRESH, es).pending == {} && Run(Run(FRESH, es), more).pending == {}
    ensures Run(Run(FRESH, es), more).next == Run(FRESH, es).next
  {
    RunKeepsSound(FRESH, es);
    RunKeepsSound(Run(FRESH, es), more);
  }

  /** The recorded flag always speaks of the notice being watched now. */
  lemma RecordedIsCurrent(es: seq<Event>)
    requires Runs(FRESH, es) && Run(FRESH, es).recorded
    ensures Run(FRESH, es).watch in Run(FRESH, es).completed
  {
    RunKeepsSound(FRESH, es);
  }

  /** The watched pair at the end of the run was watched throughout it, or since event `i` of it. */
  ghost predicate WatchedSince(c: Client, es: seq<Event>)
    requires Runs(c, es)
    decreases |es|
  {
    es == [] || (c.watch == Run(c, es).watch && WatchedSince(Apply(c, es[0]), es[1..]))
  }

  /** The watched item was completed while it was being watched without a break until the end. */
  ghost predicate SeenDone(c: Client, es: seq<Event>)
    requires Runs(c, es)
    decreases |es|
  {
    es != [] && ((es[0] == Completed(Run(c, es).watch) && WatchedSince(c, es)) || SeenDone(Apply(c, es[0]), es[1..]))
  }

  /** The flag is set if and only if that happened, or it was set before and the watch never changed. */
  lemma {:induction false} RecordedFrom(c: Client, es: seq<Event>)
    requires Runs(c, es)
    ensures Run(c, es).recorded <==> (c.recorded && c.watch == Run(c, es).watch && WatchedSince(c, es)) || SeenDone(c, es)
    decreases |es|
  {
    if es != [] {
      RecordedFrom(Apply(c, es[0]), es[1..]);
      assert Run(c, es) == Run(Apply(c, es[0]), es[1..]);
    }
  }

  lemma RecordedExactly(es: seq<Event>)
    requires Runs(FRESH, es)
    ensures Run(FRESH, es).recorded <==> SeenDone(FRESH, es)
  {
    RecordedFrom(FRESH, es);
  }

  // ---------------------------------------------------------------- the critical sections

  /** The channels after every waiting call has been told that the connection is gone. */
  function AllLost(pending: set<int>, boxes: map<int, seq<Reply>>): map<int, seq<Reply>> {
    map id | id in boxes :: if id in pending then boxes[id] + [Lost] else boxes[id]
  }

  lemma SomeWaiter(table: set<int>)
    ensures table == {} || exists id :: id in table
  {
    if !exists id :: id in table {
      assert table == {};
    }
  }

  /** One send per waiting call, in whatever order the table yields them. */
  method Broadcast(pending: set<int>, boxes: map<int, seq<Reply>>) returns (sent: map<int, seq<Reply>>)
    requires pending <= boxes.Keys
    ensures sent == AllLost(pending, boxes)
  {
    var table := pending;
    sent := boxes;
    while table != {}
      invariant table <= pending && sent == AllLost(pending - table, boxes)
      decreases table
    {
      SomeWaiter(table);
      var id :| id in table;
      sent := sent[id := sent[id] + [Lost]];
      table := table - {id};
    }
    assert pending - table == pending;
  }

  class Connection {
    var next: int
    var pending: set<int>
    var closed: bool
    var boxes: map<int, seq<Reply>>
    var hand: Option<Reply>
    var left: set<int>
    var watch: (string, string)
    var recorded: bool
    ghost var completed: set<(string, string)>

    ghost function State(): Client
      reads this
    {
      Client(next, pending, closed, boxes, hand, left, watch, recorded, completed)
    }

    constructor ()
      ensures State() == FRESH
    {
      next, pending, closed, boxes := 0, {}, false, map[];
      hand, left, watch, recorded, completed := None, {}, ("", ""), false, {};
    }

    method Call() returns (id: Option<int>)
      modifies this
      ensures State() == Apply(old(State()), Event.Call)
      ensures id == if old(closed) then None else Some(next)
    {
      if closed {
        return None;
      }
      next := next + 1;
      boxes := boxes[next := []];
      pending := pending + {next};
      id := Some(next);
    }

    method Take(id: int, body: string)
      requires hand.None?
      modifies this
      ensures State() == Apply(old(State()), Event.Take(Answer(id, body)))
    {
      if id in pending {
        pending := pending - {id};
        hand := Some(Answer(id, body));
      }
    }

    method Put()
      requires Sound(State()) && hand.Some?
      modifies this
      ensures State() == Apply(old(State()), Event.Put)
    {
      var id := hand.value.id;
      boxes := boxes[id := boxes[id] + [hand.value]];
      hand := None;
    }

    method Fail()
      requires Sound(State())
      modifies this
      ensures State() == Apply(old(State()), Event.Fail)
    {
      if closed {
        return;
      }
      closed := true;
      boxes := Broadcast(pending, boxes);
      pending := {};
    }

    method Return(id: int)
      requires id in boxes
      modifies this
      ensures State() == Apply(old(State()), Event.Return(id))
    {
      pending := pending - {id};
      left := left + {id};
    }

    method Watch(target: (string, string))
      modifies this
      ensures State() == Apply(old(State()), Event.Watch(target))
    {
      if watch != target {
        watch := target;
        recorded := false;
      }
    }

    method Completed(item: (string, string))
      modifies this
      ensures State() == Apply(old(State()), Event.Completed(item))
    {
      completed := completed + {item};
      if item == watch {
        recorded := true;
      }
    }
  }
}
