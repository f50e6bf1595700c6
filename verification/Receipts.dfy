/**
 Receipts end to end: any number of peers running this code exchange messages and status frames
 over a channel that loses, duplicates and reorders them.  Message IDs are fresh and return
 addresses honest.  A sender's "accepted" then means that the addressed peer committed the
 message as unread, its "read" that the addressed peer moved it from unread to read, and likewise
 for "held", "declined" and "expired".
 */
module Receipts {
  import opened Base
  import opened Inbox
  import opened Outbound
  import opened InboxSafety

  datatype StatusRequest = StatusRequest(to: string, wireId: string, receipt: Receipt)

  /** Something an inbox did to message `wireId` of `sender`, under the name of the receipt for it. */
  datatype Deed = Deed(sender: string, wireId: string, receipt: Receipt)

  /** One peer; `deeds` records everything its inbox has ever done. */
  datatype Node = Node(inbox: Inbox, out: map<string, Out>, queue: seq<StatusRequest>, deeds: set<Deed>)

  datatype Frame =
    | User(from: string, to: string, m: Message)
    | Status(from: string, to: string, wireId: string, receipt: Receipt)

  /** `wire` holds every frame ever sent; delivery does not remove one, and none need be delivered. */
  datatype World = World(nodes: map<string, Node>, wire: set<Frame>, used: set<string>)

  // ---------------------------------------------------------------- what the inbox did

  function Did(r: Row, receipt: Receipt): Deed { Deed(r.peer, r.msg.wireId, receipt) }

  /** The row is in the table in state `st`, and no row with its ID was there before. */
  predicate Inserted(s: Inbox, r: Row, st: Status) { r.state == st && forall x :: x in s.rows ==> x.id != r.id }

  /** The row is in the table in state `after`, and was there in state `before`. */
  predicate Turned(s: Inbox, r: Row, before: Status, after: Status) {
    r.state == after && r.(state := before) in s.rows
  }

  /** The held row is expired, or gone as expired history. */
  predicate TimedOut(r: Row, t: Inbox) { r.state == Held && forall x :: x in t.rows && x.id == r.id ==> x.state == Expired }

  /** What a transaction did to single messages, read off the table before and after it. */
  function Deeds(s: Inbox, t: Inbox): set<Deed> {
    (set r | r in t.rows && Inserted(s, r, Unread) :: Did(r, GotAccepted))
    + (set r | r in t.rows && Inserted(s, r, Held) :: Did(r, GotHeld))
    + (set r | r in t.rows && Turned(s, r, Unread, Read) :: Did(r, GotRead))
    + (set r | r in t.rows && Turned(s, r, Held, Declined) :: Did(r, GotDeclined))
    + (set r | r in s.rows && TimedOut(r, t) :: Did(r, GotExpired))
  }

  /** The node after a committed inbox transaction, with what it asks the status sender to report. */
  function Commit(n: Node, inbox: Inbox, report: seq<StatusRequest>): Node {
    n.(inbox := inbox, queue := n.queue + report, deeds := n.deeds + Deeds(n.inbox, inbox))
  }

  function Report(r: Row, receipt: Receipt): StatusRequest {
    StatusRequest(r.msg.from, r.msg.wireId, receipt)
  }

  function ReceiptOf(mv: Move): Receipt {
    match mv
    case Ack => GotRead
    case Release => GotReleased
    case Decline => GotDeclined
    case AgeOut => GotExpired
  }

  function ReportMoved(rows: seq<Row>, ids: seq<string>, mv: Move): seq<StatusRequest> {
    if rows == [] then []
    else
      var n := |rows| - 1;
      var rest := ReportMoved(rows[..n], ids, mv);
      if rows[n].state == mv.Before() && rows[n].id in ids then
        rest + [Report(rows[n], ReceiptOf(mv))]
      else rest
  }

  function ReportAged(rows: seq<Row>, now: real): seq<StatusRequest> {
    if rows == [] then []
    else
      var n := |rows| - 1;
      var rest := ReportAged(rows[..n], now);
      if Aged(rows[n], now) then rest + [Report(rows[n], GotExpired)] else rest
  }

  // ---------------------------------------------------------------- events

  /** `Announce` is every other status: refusals, relay loops, and what `configure` reports unchecked. */
  datatype Event =
    | Send(p: string, q: string, m: Message, now: real)
    | Written(p: string, id: string, ok: bool)
    | Arrive(f: Frame, queue: Status, now: real, id: string)
    | Announce(q: string, r: StatusRequest)
    | Control(q: string, ids: seq<string>, mv: Move)
    | Maintain(q: string, now: real)
    | Emit(q: string, i: nat)
    | Deliver(f: Frame)
    | Restart(q: string)

  /** The receipts that only ever follow a committed transaction. */
  predicate Certain(receipt: Receipt) {
    receipt.GotAccepted? || receipt.GotHeld? || receipt.GotRead? || receipt.GotDeclined? || receipt.GotExpired?
  }

  ghost predicate Enabled(w: World, e: Event) {
    match e
    case Send(p, q, m, now) => p in w.nodes && q in w.nodes && m.wireId !in w.used && m.from == p
    case Written(p, id, ok) => p in w.nodes && id in w.nodes[p].out
    case Arrive(f, queue, now, id) =>
      f in w.wire && f.User? && f.to in w.nodes && Admits(w.nodes[f.to].inbox, Accept(f.m, f.from, queue, now, id))
    case Announce(q, r) => q in w.nodes && !Certain(r.receipt)
    case Control(q, ids, mv) => q in w.nodes && !mv.AgeOut?
    case Maintain(q, now) => q in w.nodes
    case Emit(q, i) => q in w.nodes && i < |w.nodes[q].queue|
    case Deliver(f) => f in w.wire && f.Status? && f.to in w.nodes
    case Restart(q) => q in w.nodes
  }

  /** The statuses for an arriving message, as its verdict calls for. */
  function ArrivalReport(m: Message, queue: Status, verdict: Verdict): seq<StatusRequest> {
    match verdict
    case Dropped(_) => [StatusRequest(m.from, m.wireId, GotDropped)]
    case Stored(row, None) => [Report(row, if queue.Held? then GotHeld else GotAccepted)]
    case Stored(row, Some(r)) => [Report(r, GotDropped), Report(row, if queue.Held? then GotHeld else GotAccepted)]
  }

  /** `receive` for a user frame that is not refused: accept it, then report what became of it. */
  ghost function Received(n: Node, f: Frame, queue: Status, now: real, id: string): Node
    requires f.User? && (queue.Unread? || queue.Held?)
  {
    var (inbox, verdict) := AcceptTx(n.inbox, f.m, f.from, queue, now, id);
    Commit(n, inbox, ArrivalReport(f.m, queue, verdict))
  }

  ghost function Apply(w: World, e: Event): World
    requires Enabled(w, e)
  {
    match e
    case Send(p, q, m, now) =>
      var n := w.nodes[p];
      World(w.nodes[p := n.(out := n.out[m.wireId := Out(now, q, Sending)])],
            w.wire + {User(p, q, m)}, w.used + {m.wireId})
    case Written(p, id, ok) =>
      var n := w.nodes[p];
      w.(nodes := w.nodes[p := n.(out := n.out[id := After(n.out[id], Wrote(ok))])])
    case Arrive(f, queue, now, id) =>
      w.(nodes := w.nodes[f.to := Received(w.nodes[f.to], f, queue, now, id)])
    case Announce(q, r) =>
      w.(nodes := w.nodes[q := w.nodes[q].(queue := w.nodes[q].queue + [r])])
    case Control(q, ids, mv) =>
      var n := w.nodes[q];
      var report := if Refused(n.inbox, ids, mv) then [] else ReportMoved(n.inbox.rows, ids, mv);
      w.(nodes := w.nodes[q := Commit(n, MoveTx(n.inbox, ids, mv), report)])
    case Maintain(q, now) =>
      var n := w.nodes[q];
      var kept := n.(out := Pruned(n.out, now));
      w.(nodes := w.nodes[q := Commit(kept, ExpireTx(n.inbox, now), ReportAged(n.inbox.rows, now))])
    case Emit(q, i) =>
      var n := w.nodes[q];
      var r := n.queue[i];
      w.(nodes := w.nodes[q := n.(queue := n.queue[..i] + n.queue[i + 1..])],
         wire := w.wire + {Status(q, r.to, r.wireId, r.receipt)})
    case Deliver(f) =>
      var n := w.nodes[f.to];
      if f.wireId in n.out
      then w.(nodes := w.nodes[f.to := n.(out := n.out[f.wireId := After(n.out[f.wireId], Heard(f.receipt, f.from))])])
      else w
    case Restart(q) =>
      w.(nodes := w.nodes[q := w.nodes[q].(queue := [])])
  }

  ghost predicate Runs(w: World, es: seq<Event>)
    decreases |es|
  {
    es == [] || (Enabled(w, es[0]) && Runs(Apply(w, es[0]), es[1..]))
  }

  ghost function Run(w: World, es: seq<Event>): World
    requires Runs(w, es)
    decreases |es|
  {
    if es == [] then w else Run(Apply(w, es[0]), es[1..])
  }

  // ---------------------------------------------------------------- truthfulness

  /** What a receipt of `n` about message `wireId` of `sender` asserts about `n`. */
  predicate Vouches(n: Node, sender: string, wireId: string, receipt: Receipt) {
    Certain(receipt) ==> Deed(sender, wireId, receipt) in n.deeds
  }

  ghost predicate HonestNode(n: Node) {
    && Valid(n.inbox)
    && (forall r :: r in n.inbox.rows ==> r.msg.from == r.peer)
    && (forall i :: 0 <= i < |n.queue| ==> Vouches(n, n.queue[i].to, n.queue[i].wireId, n.queue[i].receipt))
  }

  ghost predicate HonestFrame(nodes: map<string, Node>, f: Frame) {
    match f
    case User(from, to, m) => m.from == from
    case Status(from, to, wireId, receipt) => from in nodes && Vouches(nodes[from], to, wireId, receipt)
  }

  ghost predicate HonestOut(nodes: map<string, Node>, p: string, id: string, o: Out) {
    && o.target in nodes
    && (o.state.Receipted? ==> Vouches(nodes[o.target], p, id, o.state.receipt))
  }

  ghost predicate Truthful(w: World) {
    && (forall q :: q in w.nodes ==> HonestNode(w.nodes[q]))
    && (forall f :: f in w.wire ==> HonestFrame(w.nodes, f))
    && (forall p, id :: p in w.nodes && id in w.nodes[p].out ==> HonestOut(w.nodes, p, id, w.nodes[p].out[id]))
  }

  /** The histories only grow, so what was once vouched for stays vouched for. */
  ghost predicate Grows(nodes: map<string, Node>, later: map<string, Node>) {
    && later.Keys == nodes.Keys
    && forall q :: q in nodes ==> nodes[q].deeds <= later[q].deeds
  }

  /** Changing one node, but no outbound row of it, keeps the world truthful if the node stays honest. */
  lemma NodeStep(w: World, q: string, n: Node)
    requires Truthful(w) && q in w.nodes && w.nodes[q].deeds <= n.deeds && HonestNode(n)
    requires forall id :: id in n.out ==> id in w.nodes[q].out && n.out[id] == w.nodes[q].out[id]
    ensures Truthful(w.(nodes := w.nodes[q := n]))
  {
    var v := w.(nodes := w.nodes[q := n]);
    assert Grows(w.nodes, v.nodes);
    forall f | f in v.wire ensures HonestFrame(v.nodes, f) {
      assert HonestFrame(w.nodes, f);
    }
    forall p, id | p in v.nodes && id in v.nodes[p].out ensures HonestOut(v.nodes, p, id, v.nodes[p].out[id]) {
      assert id in w.nodes[p].out;
      assert HonestOut(w.nodes, p, id, w.nodes[p].out[id]);
    }
  }

  /** Changing one outbound row keeps the world truthful if the new row is. */
  lemma OutStep(w: World, p: string, id: string, o: Out)
    requires Truthful(w) && p in w.nodes && HonestOut(w.nodes, p, id, o)
    ensures Truthful(w.(nodes := w.nodes[p := w.nodes[p].(out := w.nodes[p].out[id := o])]))
  {
    var v := w.(nodes := w.nodes[p := w.nodes[p].(out := w.nodes[p].out[id := o])]);
    forall q | q in v.nodes ensures HonestNode(v.nodes[q]) {
      assert HonestNode(w.nodes[q]);
    }
    forall f | f in v.wire ensures HonestFrame(v.nodes, f) {
      assert HonestFrame(w.nodes, f);
    }
    forall a, b | a in v.nodes && b in v.nodes[a].out ensures HonestOut(v.nodes, a, b, v.nodes[a].out[b]) {
      assert (a, b) != (p, id) ==> HonestOut(w.nodes, a, b, w.nodes[a].out[b]);
    }
  }

  // ---------------------------------------------------------------- each report is earned

  lemma QueueMore(n: Node, report: seq<StatusRequest>)
    requires HonestNode(n)
    requires forall i :: 0 <= i < |report| ==> Vouches(n, report[i].to, report[i].wireId, report[i].receipt)
    ensures HonestNode(n.(queue := n.queue + report))
  {
  }

  /** Committing a transaction whose reports are earned leaves the node honest. */
  lemma CommitStep(n: Node, inbox: Inbox, report: seq<StatusRequest>)
    requires HonestNode(n) && Valid(inbox)
    requires forall r :: r in inbox.rows ==> r.msg.from == r.peer
    requires forall i :: 0 <= i < |report| ==>
      Vouches(Commit(n, inbox, report), report[i].to, report[i].wireId, report[i].receipt)
    ensures HonestNode(Commit(n, inbox, report))
  {
    var m := Commit(n, inbox, report);
    forall i | 0 <= i < |m.queue| ensures Vouches(m, m.queue[i].to, m.queue[i].wireId, m.queue[i].receipt) {
      if i < |n.queue| {
        assert m.queue[i] == n.queue[i];
      } else {
        assert m.queue[i] == report[i - |n.queue|];
      }
    }
  }

  /** Each status of a transition speaks of a row that moved. */
  lemma {:induction false} MovedReports(rows: seq<Row>, ids: seq<string>, mv: Move, i: nat) returns (k: nat)
    requires i < |ReportMoved(rows, ids, mv)|
    ensures k < |rows| && rows[k].state == mv.Before() && rows[k].id in ids
    ensures ReportMoved(rows, ids, mv)[i] == Report(rows[k], ReceiptOf(mv))
  {
    var n := |rows| - 1;
    if i < |ReportMoved(rows[..n], ids, mv)| {
      k := MovedReports(rows[..n], ids, mv, i);
    } else {
      k := n;
    }
  }

  lemma MovedDeed(s: Inbox, ids: seq<string>, mv: Move, k: nat)
    requires !Refused(s, ids, mv) && !mv.AgeOut? && Certain(ReceiptOf(mv))
    requires k < |s.rows| && s.rows[k].state == mv.Before() && s.rows[k].id in ids
    ensures Did(s.rows[k], ReceiptOf(mv)) in Deeds(s, MoveTx(s, ids, mv))
  {
    var r := MoveTx(s, ids, mv).rows[k];
    assert r in MoveTx(s, ids, mv).rows && r == s.rows[k].(state := mv.After()) && r.(state := mv.Before()) == s.rows[k];
    assert Turned(s, r, mv.Before(), mv.After());
  }

  lemma ControlStep(n: Node, ids: seq<string>, mv: Move)
    requires HonestNode(n) && !mv.AgeOut?
    ensures var report := if Refused(n.inbox, ids, mv) then [] else ReportMoved(n.inbox.rows, ids, mv);
      HonestNode(Commit(n, MoveTx(n.inbox, ids, mv), report))
  {
    var inbox := MoveTx(n.inbox, ids, mv);
    var report := if Refused(n.inbox, ids, mv) then [] else ReportMoved(n.inbox.rows, ids, mv);
    MoveKeepsValid(n.inbox, ids, mv);
    forall i | 0 <= i < |report|
      ensures Vouches(Commit(n, inbox, report), report[i].to, report[i].wireId, report[i].receipt)
    {
      var k := MovedReports(n.inbox.rows, ids, mv, i);
      assert n.inbox.rows[k] in n.inbox.rows;
      if Certain(ReceiptOf(mv)) {
        MovedDeed(n.inbox, ids, mv, k);
      }
    }
    CommitStep(n, inbox, report);
  }

  lemma StoredDeed(s: Inbox, m: Message, peer: string, queue: Status, now: real, id: string)
    requires Admits(s, Accept(m, peer, queue, now, id)) && AcceptTx(s, m, peer, queue, now, id).1.Stored?
    ensures Deed(peer, m.wireId, if queue.Held? then GotHeld else GotAccepted) in Deeds(s, AcceptTx(s, m, peer, queue, now, id).0)
  {
    var (t, verdict) := AcceptTx(s, m, peer, queue, now, id);
    assert t.rows[|s.rows|] == verdict.row;
    assert verdict.row in t.rows && Inserted(s, verdict.row, queue);
  }

  lemma ArrivalEarned(s: Inbox, m: Message, peer: string, queue: Status, now: real, id: string, i: nat)
    requires Admits(s, Accept(m, peer, queue, now, id)) && m.from == peer
    requires i < |ArrivalReport(m, queue, AcceptTx(s, m, peer, queue, now, id).1)|
    ensures var r := ArrivalReport(m, queue, AcceptTx(s, m, peer, queue, now, id).1)[i];
      Certain(r.receipt) ==> Deed(r.to, r.wireId, r.receipt) in Deeds(s, AcceptTx(s, m, peer, queue, now, id).0)
  {
    if AcceptTx(s, m, peer, queue, now, id).1.Stored? {
      StoredDeed(s, m, peer, queue, now, id);
    }
  }

  lemma ArriveStep(n: Node, f: Frame, queue: Status, now: real, id: string)
    requires HonestNode(n) && f.User? && f.m.from == f.from
    requires Admits(n.inbox, Accept(f.m, f.from, queue, now, id))
    ensures HonestNode(Received(n, f, queue, now, id))
    ensures n.deeds <= Received(n, f, queue, now, id).deeds
  {
    var (inbox, verdict) := AcceptTx(n.inbox, f.m, f.from, queue, now, id);
    var report := ArrivalReport(f.m, queue, verdict);
    AcceptKeepsValid(n.inbox, f.m, f.from, queue, now, id);
    forall i | 0 <= i < |report|
      ensures Vouches(Commit(n, inbox, report), report[i].to, report[i].wireId, report[i].receipt)
    {
      ArrivalEarned(n.inbox, f.m, f.from, queue, now, id, i);
    }
    CommitStep(n, inbox, report);
  }

  lemma {:induction false} AgedReports(rows: seq<Row>, now: real, i: nat) returns (k: nat)
    requires i < |ReportAged(rows, now)|
    ensures k < |rows| && Aged(rows[k], now) && ReportAged(rows, now)[i] == Report(rows[k], GotExpired)
  {
    var n := |rows| - 1;
    if i < |ReportAged(rows[..n], now)| {
      k := AgedReports(rows[..n], now, i);
    } else {
      k := n;
    }
  }

  lemma AgedDeed(s: Inbox, now: real, k: nat)
    requires Valid(s) && k < |s.rows| && Aged(s.rows[k], now)
    ensures Did(s.rows[k], GotExpired) in Deeds(s, ExpireTx(s, now))
  {
    var r := s.rows[k];
    ValidIds(s);
    forall x | x in ExpireTx(s, now).rows && x.id == r.id ensures x.state == Expired {
      var j := ExpireFrom(s, now, x);
      assert j < k || j == k || k < j;
    }
    assert r in s.rows && TimedOut(r, ExpireTx(s, now));
  }

  lemma ExpireRowsHonest(s: Inbox, now: real)
    requires forall r :: r in s.rows ==> r.msg.from == r.peer
    ensures forall r :: r in ExpireTx(s, now).rows ==> r.msg.from == r.peer
  {
    forall r | r in ExpireTx(s, now).rows ensures r.msg.from == r.peer {
      var k := ExpireFrom(s, now, r);
      assert s.rows[k] in s.rows;
    }
  }

  lemma MaintainStep(n: Node, now: real)
    requires HonestNode(n)
    ensures HonestNode(Commit(n, ExpireTx(n.inbox, now), ReportAged(n.inbox.rows, now)))
  {
    var inbox, report := ExpireTx(n.inbox, now), ReportAged(n.inbox.rows, now);
    ExpireKeepsValid(n.inbox, now);
    ExpireRowsHonest(n.inbox, now);
    forall i | 0 <= i < |report|
      ensures Vouches(Commit(n, inbox, report), report[i].to, report[i].wireId, report[i].receipt)
    {
      var k := AgedReports(n.inbox.rows, now, i);
      assert n.inbox.rows[k] in n.inbox.rows;
      AgedDeed(n.inbox, now, k);
    }
    CommitStep(n, inbox, report);
  }

  lemma EmitStep(n: Node, i: nat)
    requires HonestNode(n) && i < |n.queue|
    ensures HonestNode(n.(queue := n.queue[..i] + n.queue[i + 1..]))
  {
    var m := n.(queue := n.queue[..i] + n.queue[i + 1..]);
    forall j | 0 <= j < |m.queue| ensures Vouches(m, m.queue[j].to, m.queue[j].wireId, m.queue[j].receipt) {
      assert m.queue[j] == n.queue[if j < i then j else j + 1];
    }
  }

  lemma EmitWorld(w: World, q: string, i: nat)
    requires Truthful(w) && q in w.nodes && i < |w.nodes[q].queue|
    ensures Truthful(Apply(w, Emit(q, i)))
  {
    var n := w.nodes[q];
    assert HonestNode(n);
    EmitStep(n, i);
    NodeStep(w, q, Apply(w, Emit(q, i)).nodes[q]);
  }

  lemma SendStep(w: World, p: string, q: string, m: Message, now: real)
    requires Truthful(w) && Enabled(w, Send(p, q, m, now))
    ensures Truthful(Apply(w, Send(p, q, m, now)))
  {
    OutStep(w, p, m.wireId, Out(now, q, Sending));
  }

  lemma StepKeepsTruth(w: World, e: Event)
    requires Truthful(w) && Enabled(w, e)
    ensures Truthful(Apply(w, e))
  {
    match e
    case Send(p, q, m, now) =>
      SendStep(w, p, q, m, now);
    case Written(p, id, ok) =>
      assert HonestOut(w.nodes, p, id, w.nodes[p].out[id]);
      OutStep(w, p, id, After(w.nodes[p].out[id], Wrote(ok)));
    case Arrive(f, queue, now, id) =>
      assert HonestFrame(w.nodes, f);
      ArriveStep(w.nodes[f.to], f, queue, now, id);
      NodeStep(w, f.to, Received(w.nodes[f.to], f, queue, now, id));
    case Announce(q, r) =>
      QueueMore(w.nodes[q], [r]);
      NodeStep(w, q, w.nodes[q].(queue := w.nodes[q].queue + [r]));
    case Control(q, ids, mv) =>
      ControlStep(w.nodes[q], ids, mv);
      NodeStep(w, q, Apply(w, e).nodes[q]);
    case Maintain(q, now) =>
      MaintainStep(w.nodes[q].(out := Pruned(w.nodes[q].out, now)), now);
      NodeStep(w, q, Apply(w, e).nodes[q]);
    case Emit(q, i) =>
      EmitWorld(w, q, i);
    case Deliver(f) =>
      var n := w.nodes[f.to];
      assert HonestFrame(w.nodes, f);
      if f.wireId in n.out {
        assert HonestOut(w.nodes, f.to, f.wireId, n.out[f.wireId]);
        OutStep(w, f.to, f.wireId, After(n.out[f.wireId], Heard(f.receipt, f.from)));
      }
    case Restart(q) =>
      NodeStep(w, q, w.nodes[q].(queue := []));
  }

  /** Empty inboxes, empty tables, and nothing on the wire. */
  ghost predicate Initial(w: World) {
    && w.wire == {}
    && forall q :: q in w.nodes ==> w.nodes[q] == Node(EMPTY, map[], [], {})
  }

  lemma InitialTruth(w: World)
    requires Initial(w)
    ensures Truthful(w)
  {
    PerformAllKeepsValid(EMPTY, []);
  }

  lemma {:induction false} RunKeepsTruth(w: World, es: seq<Event>)
    requires Truthful(w) && Runs(w, es)
    ensures Truthful(Run(w, es))
    decreases |es|
  {
    if es != [] {
      StepKeepsTruth(w, es[0]);
      RunKeepsTruth(Apply(w, es[0]), es[1..]);
    }
  }

  /** In every run, what the sender's table says of a message is true of the peer it was sent to. */
  lemma ReceiptsAreTrue(w: World, es: seq<Event>, p: string, id: string)
    requires Initial(w) && Runs(w, es)
    requires p in Run(w, es).nodes && id in Run(w, es).nodes[p].out
    ensures var v := Run(w, es);
      var o := v.nodes[p].out[id];
      && o.target in v.nodes
      && (o.state.Receipted? && Certain(o.state.receipt) ==> Deed(p, id, o.state.receipt) in v.nodes[o.target].deeds)
  {
    InitialTruth(w);
    RunKeepsTruth(w, es);
    var v := Run(w, es);
    assert HonestOut(v.nodes, p, id, v.nodes[p].out[id]);
  }

  // ---------------------------------------------------------------- nothing goes unreported

  /**
   An arriving message queues exactly its own receipt: the one for its queue if it is stored, after the
   receipt of the row that made room for it, and otherwise that it was dropped.
   */
  lemma ArrivalIsReported(n: Node, f: Frame, queue: Status, now: real, id: string)
    requires f.User? && (queue.Unread? || queue.Held?)
    ensures var verdict := AcceptTx(n.inbox, f.m, f.from, queue, now, id).1;
      var sent := Received(n, f, queue, now, id).queue;
      && |sent| > |n.queue| && sent[..|n.queue|] == n.queue
      && sent[|sent| - 1] == StatusRequest(f.m.from, f.m.wireId,
           if verdict.Dropped? then GotDropped else if queue == Held then GotHeld else GotAccepted)
      && (if verdict.Stored? && verdict.evicted.Some?
          then |sent| == |n.queue| + 2 && sent[|n.queue|] ==
                 StatusRequest(verdict.evicted.value.msg.from, verdict.evicted.value.msg.wireId, GotDropped)
          else |sent| == |n.queue| + 1)
  {
  }

  /** The positions of the rows a transition moves. */
  ghost function MovedAt(rows: seq<Row>, ids: seq<string>, mv: Move): set<nat> {
    set i: nat | i < |rows| && rows[i].state == mv.Before() && rows[i].id in ids
  }

  lemma {:induction false} MovesCounted(rows: seq<Row>, ids: seq<string>, mv: Move)
    ensures |ReportMoved(rows, ids, mv)| == |MovedAt(rows, ids, mv)|
  {
    if rows != [] {
      var n := |rows| - 1;
      MovesCounted(rows[..n], ids, mv);
      var here := if rows[n].state == mv.Before() && rows[n].id in ids then {n} else {};
      assert MovedAt(rows, ids, mv) == MovedAt(rows[..n], ids, mv) + here && n !in MovedAt(rows[..n], ids, mv);
    }
  }

  /** Every row that a transition moves has its own status, and there are no others. */
  lemma {:induction false} MoveIsReported(rows: seq<Row>, ids: seq<string>, mv: Move, k: nat) returns (i: nat)
    requires k < |rows| && rows[k].state == mv.Before() && rows[k].id in ids
    ensures |ReportMoved(rows, ids, mv)| == |MovedAt(rows, ids, mv)|
    ensures i < |ReportMoved(rows, ids, mv)|
    ensures ReportMoved(rows, ids, mv)[i] == StatusRequest(rows[k].msg.from, rows[k].msg.wireId,
              match mv case Ack => GotRead case Release => GotReleased case Decline => GotDeclined case AgeOut => GotExpired)
  {
    MovesCounted(rows, ids, mv);
    var n := |rows| - 1;
    if k < n {
      i := MoveIsReported(rows[..n], ids, mv, k);
    } else {
      i := |ReportMoved(rows[..n], ids, mv)|;
    }
  }

  /** A message sent is on the wire, and in the sender's table as being sent to its target. */
  lemma SendIsRecorded(w: World, p: string, q: string, m: Message, now: real)
    requires Enabled(w, Send(p, q, m, now))
    ensures var v := Apply(w, Send(p, q, m, now));
      && User(p, q, m) in v.wire && p in v.nodes
      && m.wireId in v.nodes[p].out && v.nodes[p].out[m.wireId] == Out(now, q, Sending)
  {
  }

  /** A queued receipt, emitted and delivered, is heard by the message it speaks of, as from its sender. */
  lemma ReceiptIsHeard(w: World, q: string, i: nat)
    requires q in w.nodes && i < |w.nodes[q].queue|
    requires var r := w.nodes[q].queue[i]; r.to in w.nodes && r.wireId in w.nodes[r.to].out
    ensures var r := w.nodes[q].queue[i];
      var v, f := Apply(w, Emit(q, i)), Status(q, r.to, r.wireId, r.receipt);
      && Enabled(v, Deliver(f)) && r.wireId in v.nodes[r.to].out
      && Apply(v, Deliver(f)).nodes[r.to].out[r.wireId] == After(w.nodes[r.to].out[r.wireId], Heard(r.receipt, q))
  {
  }

  /** The positions of the rows past their time. */
  ghost function AgedAt(rows: seq<Row>, now: real): set<nat> {
    set i: nat | i < |rows| && rows[i].state == Held && rows[i].received < now - 300.0
  }

  lemma {:induction false} AgesCounted(rows: seq<Row>, now: real)
    ensures |ReportAged(rows, now)| == |AgedAt(rows, now)|
  {
    if rows != [] {
      var n := |rows| - 1;
      AgesCounted(rows[..n], now);
      var here := if Aged(rows[n], now) then {n} else {};
      assert AgedAt(rows, now) == AgedAt(rows[..n], now) + here && n !in AgedAt(rows[..n], now);
    }
  }

  /** Every held row over 300 s has its own "expired" status at maintenance, and there are no others. */
  lemma {:induction false} AgeIsReported(rows: seq<Row>, now: real, k: nat) returns (i: nat)
    requires k in AgedAt(rows, now)
    ensures |ReportAged(rows, now)| == |AgedAt(rows, now)| && i < |ReportAged(rows, now)|
    ensures ReportAged(rows, now)[i] == StatusRequest(rows[k].msg.from, rows[k].msg.wireId, GotExpired)
  {
    AgesCounted(rows, now);
    var n := |rows| - 1;
    if k < n {
      i := AgeIsReported(rows[..n], now, k);
    } else {
      i := |ReportAged(rows[..n], now)|;
    }
  }
}
