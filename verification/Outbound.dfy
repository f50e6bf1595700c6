/**
 The sender's record of each outgoing message and how local write results and recipient receipts,
 arriving in any order, change it.  A peer is identified by its kernel-verified "pid:start".
 */
module Outbound {
  import opened Base

  datatype Receipt = GotHeld | GotDeclined | GotExpired | GotReleased | GotRefused | GotDropped | GotAccepted | GotRead

  datatype OutState = Sending | SentUnconfirmed | Failed | Receipted(receipt: Receipt)

  datatype Out = Out(created: real, target: string, state: OutState)

  /** One thing that happens to a row: the local socket write ends, or a receipt arrives from a peer. */
  datatype Touch = Wrote(ok: bool) | Heard(receipt: Receipt, from: string)

  predicate Confirmable(st: OutState) {
    st.Sending? || st.SentUnconfirmed? || st == Receipted(GotHeld) || st == Receipted(GotReleased)
  }

  function After(o: Out, t: Touch): Out {
    match t
    case Wrote(ok) =>
      if o.state.Sending? || o.state.SentUnconfirmed?
      then o.(state := if ok then SentUnconfirmed else Failed) else o
    case Heard(receipt, from) =>
      if o.target != from || o.state == Receipted(GotRead) || (receipt.GotAccepted? && !Confirmable(o.state))
      then o else o.(state := Receipted(receipt))
  }

  function AfterAll(o: Out, ts: seq<Touch>): Out
    decreases |ts|
  {
    if ts == [] then o else AfterAll(After(o, ts[0]), ts[1..])
  }

  /** "read" is final, and it is reached exactly when the addressed peer reported it. */
  lemma {:induction false} EndsReadExactly(o: Out, ts: seq<Touch>)
    ensures AfterAll(o, ts).target == o.target && AfterAll(o, ts).created == o.created
    ensures AfterAll(o, ts).state == Receipted(GotRead)
       <==> o.state == Receipted(GotRead) || Heard(GotRead, o.target) in ts
    decreases |ts|
  {
    if ts != [] {
      EndsReadExactly(After(o, ts[0]), ts[1..]);
      assert ts == [ts[0]] + ts[1..];
    }
  }

  /** No local write result ever replaces what the recipient said. */
  lemma {:induction false} ReceiptSticks(o: Out, ts: seq<Touch>)
    requires o.state.Receipted?
    ensures AfterAll(o, ts).state.Receipted?
    ensures (forall t :: t in ts ==> t.Wrote?) ==> AfterAll(o, ts) == o
    decreases |ts|
  {
    if ts != [] {
      ReceiptSticks(After(o, ts[0]), ts[1..]);
      assert ts == [ts[0]] + ts[1..];
    }
  }

  function Relevant(ts: seq<Touch>, target: string): seq<Touch> {
    if ts == [] then []
    else (if ts[0].Heard? && ts[0].from != target then [] else [ts[0]]) + Relevant(ts[1..], target)
  }

  /** Receipts from any other process, a reused PID included, might as well not have arrived. */
  lemma {:induction false} StrangersIgnored(o: Out, ts: seq<Touch>)
    ensures AfterAll(o, ts) == AfterAll(o, Relevant(ts, o.target))
    decreases |ts|
  {
    if ts != [] {
      var rest := Relevant(ts[1..], o.target);
      if ts[0].Heard? && ts[0].from != o.target {
        StrangersIgnored(o, ts[1..]);
        assert [] + rest == rest;
      } else {
        StrangersIgnored(After(o, ts[0]), ts[1..]);
        assert ([ts[0]] + rest)[1..] == rest;
      }
    }
  }

  /** However the write result, the acceptance and the acknowledgement overtake each other, "read" wins. */
  lemma AnyOrderEndsRead(o: Out, ts: seq<Touch>)
    requires multiset(ts) == multiset{Wrote(true), Heard(GotAccepted, o.target), Heard(GotRead, o.target)}
    ensures AfterAll(o, ts).state == Receipted(GotRead)
  {
    assert Heard(GotRead, o.target) in multiset(ts);
    EndsReadExactly(o, ts);
  }

  // ---------------------------------------------------------------- what a history leaves

  /** The peer the message was sent to has reported nothing. */
  predicate Unheard(ts: seq<Touch>, target: string) {
    forall i :: 0 <= i < |ts| ==> !(ts[i].Heard? && ts[i].from == target)
  }

  lemma TailTouches(ts: seq<Touch>)
    requires ts != []
    ensures forall t :: t in ts <==> t == ts[0] || t in ts[1..]
  {
    assert ts == [ts[0]] + ts[1..];
  }

  /** A message whose write failed stays failed until its peer reports. */
  lemma {:induction false} FailedStays(o: Out, ts: seq<Touch>)
    requires o.state == Failed && Unheard(ts, o.target)
    ensures AfterAll(o, ts) == o
    decreases |ts|
  {
    if ts != [] {
      FailedStays(After(o, ts[0]), ts[1..]);
    }
  }

  /**
   Without a report of the peer, a message is failed if and only if some write failed, sent and
   unconfirmed if and only if it was written and no write failed, and otherwise still being sent.
   */
  lemma {:induction false} WritesDecide(o: Out, ts: seq<Touch>)
    requires (o.state == Sending || o.state == SentUnconfirmed) && Unheard(ts, o.target)
    ensures AfterAll(o, ts).state == Failed <==> Wrote(false) in ts
    ensures AfterAll(o, ts).state == SentUnconfirmed <==>
      Wrote(false) !in ts && (o.state == SentUnconfirmed || Wrote(true) in ts)
    ensures AfterAll(o, ts).state == Sending <==> o.state == Sending && Wrote(false) !in ts && Wrote(true) !in ts
    decreases |ts|
  {
    if ts != [] {
      TailTouches(ts);
      if ts[0] == Wrote(false) {
        FailedStays(After(o, ts[0]), ts[1..]);
      } else {
        WritesDecide(After(o, ts[0]), ts[1..]);
      }
    }
  }

  /** Every report of the peer in the history is an acceptance. */
  predicate OnlyAccepted(ts: seq<Touch>, target: string) {
    forall i :: 0 <= i < |ts| && ts[i].Heard? && ts[i].from == target ==> ts[i].receipt == GotAccepted
  }

  /** Acceptances confirm a message on its way or held and released; they change no other report. */
  lemma {:induction false} LateAcceptance(o: Out, ts: seq<Touch>)
    requires o.state.Receipted? && OnlyAccepted(ts, o.target)
    ensures AfterAll(o, ts).state ==
      if Heard(GotAccepted, o.target) in ts && (o.state.receipt == GotHeld || o.state.receipt == GotReleased)
      then Receipted(GotAccepted) else o.state
    decreases |ts|
  {
    if ts != [] {
      TailTouches(ts);
      LateAcceptance(After(o, ts[0]), ts[1..]);
    }
  }

  /** An acceptance does not revive a message whose write failed. */
  lemma {:induction false} FailedForGood(o: Out, ts: seq<Touch>)
    requires o.state == Failed && OnlyAccepted(ts, o.target)
    ensures AfterAll(o, ts) == o
    decreases |ts|
  {
    if ts != [] {
      FailedForGood(After(o, ts[0]), ts[1..]);
    }
  }

  /** With no other report, a message is accepted if and only if an acceptance came before any write failed. */
  lemma {:induction false} AcceptedExactly(o: Out, ts: seq<Touch>)
    requires (o.state == Sending || o.state == SentUnconfirmed) && OnlyAccepted(ts, o.target)
    ensures AfterAll(o, ts).state == Receipted(GotAccepted) <==>
      exists j :: 0 <= j < |ts| && ts[j] == Heard(GotAccepted, o.target) && Wrote(false) !in ts[..j]
    decreases |ts|
  {
    if ts != [] {
      if ts[0] == Heard(GotAccepted, o.target) {
        LateAcceptance(After(o, ts[0]), ts[1..]);
        assert ts[..0] == [];
      } else if ts[0] == Wrote(false) {
        FailedForGood(After(o, ts[0]), ts[1..]);
        assert forall j :: 0 < j <= |ts| ==> ts[..j][0] == Wrote(false);
      } else {
        AcceptedExactly(After(o, ts[0]), ts[1..]);
        AcceptedLater(o.target, ts);
      }
    }
  }

  lemma AcceptedLater(target: string, ts: seq<Touch>)
    requires ts != [] && ts[0] != Heard(GotAccepted, target) && ts[0] != Wrote(false)
    ensures (exists j :: 0 <= j < |ts| && ts[j] == Heard(GotAccepted, target) && Wrote(false) !in ts[..j])
       <==> (exists j :: 0 <= j < |ts[1..]| && ts[1..][j] == Heard(GotAccepted, target) && Wrote(false) !in ts[1..][..j])
  {
    if j :| 0 <= j < |ts| && ts[j] == Heard(GotAccepted, target) && Wrote(false) !in ts[..j] {
      assert ts[1..][j - 1] == ts[j] && ts[..j] == [ts[0]] + ts[1..][..j - 1];
    }
    if j :| 0 <= j < |ts[1..]| && ts[1..][j] == Heard(GotAccepted, target) && Wrote(false) !in ts[1..][..j] {
      assert ts[j + 1] == ts[1..][j] && ts[..j + 1] == [ts[0]] + ts[1..][..j];
    }
  }

  lemma {:induction false} AfterBoth(o: Out, a: seq<Touch>, b: seq<Touch>)
    ensures AfterAll(o, a + b) == AfterAll(AfterAll(o, a), b)
    decreases |a|
  {
    if a == [] {
      assert a + b == b;
    } else {
      AfterBoth(After(o, a[0]), a[1..], b);
      assert (a + b)[1..] == a[1..] + b;
    }
  }

  /**
   Otherwise the last report that is not an acceptance stands, whatever came before it: "read" aside,
   which is final, the row ends in it, or in "accepted" if that followed "held" or "released".
   */
  lemma LastReportStands(o: Out, ts: seq<Touch>, j: nat)
    requires j < |ts| && ts[j].Heard? && ts[j].from == o.target && ts[j].receipt != GotAccepted
    requires OnlyAccepted(ts[j + 1..], o.target)
    requires o.state != Receipted(GotRead) && Heard(GotRead, o.target) !in ts
    ensures AfterAll(o, ts).state ==
      if Heard(GotAccepted, o.target) in ts[j + 1..] && (ts[j].receipt == GotHeld || ts[j].receipt == GotReleased)
      then Receipted(GotAccepted) else Receipted(ts[j].receipt)
  {
    var before := AfterAll(o, ts[..j]);
    EndsReadExactly(o, ts[..j]);
    assert ts == ts[..j] + ([ts[j]] + ts[j + 1..]);
    AfterBoth(o, ts[..j], [ts[j]] + ts[j + 1..]);
    assert ([ts[j]] + ts[j + 1..])[1..] == ts[j + 1..];
    LateAcceptance(After(before, ts[j]), ts[j + 1..]);
  }

  lemma TouchIdempotent(o: Out, t: Touch)
    ensures After(After(o, t), t) == After(o, t)
  {
  }

  // ---------------------------------------------------------------- the table

  const RECEIPT_IDS := 101

  /** The IDs one status frame may speak for: non-strings were dropped to `None`, the rest is cut at 101. */
  function Heeded(ids: seq<Option<string>>): seq<Option<string>> {
    if |ids| > RECEIPT_IDS then ids[..RECEIPT_IDS] else ids
  }

  const RETENTION := 604800.0

  /** Retention: rows older than seven days go, the others stay as they are. */
  function Pruned(rows: map<string, Out>, now: real): map<string, Out> {
    map k | k in rows && rows[k].created >= now - RETENTION :: rows[k]
  }

  /** The bound is seven days, and everything younger stays as it is. */
  lemma PrunedExactly(rows: map<string, Out>, now: real, id: string)
    ensures id in Pruned(rows, now) <==> id in rows && now - rows[id].created <= 604800.0
    ensures id in Pruned(rows, now) ==> Pruned(rows, now)[id] == rows[id]
  {
  }

  class Outbox {
    var rows: map<string, Out>

    constructor ()
      ensures rows == map[]
    {
      rows := map[];
    }

    method Outgoing(id: string, target: string, now: real) returns (ok: bool)
      modifies this
      ensures ok == (id !in old(rows))
      ensures rows == if ok then old(rows)[id := Out(now, target, Sending)] else old(rows)
    {
      ok := id !in rows;
      if ok {
        rows := rows[id := Out(now, target, Sending)];
      }
    }

    method Sent(id: string, ok: bool)
      modifies this
      ensures rows.Keys == old(rows).Keys
      ensures forall k :: k in rows ==> rows[k] == if k == id then After(old(rows)[k], Wrote(ok)) else old(rows)[k]
    {
      if id in rows && (rows[id].state.Sending? || rows[id].state.SentUnconfirmed?) {
        rows := rows[id := rows[id].(state := if ok then SentUnconfirmed else Failed)];
      }
    }

    /** A status frame: every row it speaks for hears the receipt once, every other row is untouched. */
    method Correlate(ids: seq<Option<string>>, receipt: Receipt, from: string)
      modifies this
      ensures rows.Keys == old(rows).Keys
      ensures forall k :: k in rows ==>
        rows[k] == if Some(k) in (if |ids| > 101 then ids[..101] else ids) then After(old(rows)[k], Heard(receipt, from)) else old(rows)[k]
    {
      var heeded := Heeded(ids);
      var i := 0;
      while i < |heeded|
        invariant 0 <= i <= |heeded|
        invariant rows.Keys == old(rows).Keys
        invariant forall k :: k in rows ==>
          rows[k] == if Some(k) in heeded[..i] then After(old(rows)[k], Heard(receipt, from)) else old(rows)[k]
      {
        assert heeded[..i + 1] == heeded[..i] + [heeded[i]];
        if heeded[i].Some? && heeded[i].value in rows {
          var id := heeded[i].value;
          var o := rows[id];
          TouchIdempotent(old(rows)[id], Heard(receipt, from));
          if o.target == from && o.state != Receipted(GotRead) && (receipt.GotAccepted? ==> Confirmable(o.state)) {
            rows := rows[id := o.(state := Receipted(receipt))];
          }
        }
        i := i + 1;
      }
    }

    method Prune(now: real)
      modifies this
      ensures rows == Pruned(old(rows), now)
    {
      rows := map k | k in rows && !(rows[k].created < now - RETENTION) :: rows[k];
    }
  }
}
