/**
 Reporting dropped messages: drops are batched per return address and reason, and every half second
 each batch becomes one status request that names its last message and lists the others.
 */
module Drops {
  import opened Base
  import Outbound

  const MAX_BATCHES := 128
  const MAX_BATCH := 100
  const NUL := '\0'

  datatype Drop = Drop(from: string, reason: string, wireId: string)

  /** `last` supplies the return address and orig_msg_id; `ids` becomes dropped_msg_ids. */
  datatype Request = Request(last: Drop, reason: string, ids: seq<string>)

  function Key(from: string, reason: string): string { from + [NUL] + reason }

  /** `SplitN(key, "\x00", 2)[1]`: what follows the first NUL. */
  function AfterNul(key: string): string {
    if key == "" then "" else if key[0] == NUL then key[1..] else AfterNul(key[1..])
  }

  lemma {:induction false} AfterNulLength(key: string)
    ensures |AfterNul(key)| <= |key|
    ensures NUL in key ==> |AfterNul(key)| < |key|
  {
    if key != "" {
      AfterNulLength(key[1..]);
      assert key == [key[0]] + key[1..];
    }
  }

  /** The reason is recovered from the key exactly when the address has no NUL of its own. */
  lemma {:induction false} ReasonRecovered(from: string, reason: string)
    ensures AfterNul(Key(from, reason)) == reason <==> NUL !in from
  {
    if from == "" {
      assert Key(from, reason)[1..] == reason;
    } else {
      assert Key(from, reason)[1..] == Key(from[1..], reason);
      assert from == [from[0]] + from[1..];
      if from[0] == NUL {
        assert |Key(from[1..], reason)| > |reason|;
      } else {
        ReasonRecovered(from[1..], reason);
      }
    }
  }

  /** Two NUL-free addresses share a batch only if they are the same address, for the same reason. */
  lemma KeyInjective(a: Drop, b: Drop)
    requires NUL !in a.from && NUL !in b.from && Key(a.from, a.reason) == Key(b.from, b.reason)
    ensures a.from == b.from && a.reason == b.reason
  {
    ReasonRecovered(a.from, a.reason);
    ReasonRecovered(b.from, b.reason);
    var n := |a.from|;
    assert |Key(a.from, a.reason)| == n + 1 + |a.reason|;
    assert a.from == Key(a.from, a.reason)[..n] && b.from == Key(b.from, b.reason)[..n];
  }

  function WireIds(batch: seq<Drop>): (ids: seq<string>)
    ensures |ids| == |batch| && forall i :: 0 <= i < |batch| ==> ids[i] == batch[i].wireId
  {
    if batch == [] then [] else [batch[0].wireId] + WireIds(batch[1..])
  }

  ghost predicate Valid(drops: map<string, seq<Drop>>) {
    && |drops| <= MAX_BATCHES
    && forall k :: k in drops ==>
         && 0 < |drops[k]| <= MAX_BATCH
         && forall i :: 0 <= i < |drops[k]| ==> Key(drops[k][i].from, drops[k][i].reason) == k
  }

  /** The request carries the whole batch once, in order, under the batch's address and reason. */
  ghost predicate Carries(r: Request, key: string, batch: seq<Drop>) {
    && batch != []
    && r.last == batch[|batch| - 1] && r.ids + [r.last.wireId] == WireIds(batch)
    && r.reason == AfterNul(key)
  }

  /** One status request of a batch. */
  method Summarise(key: string, batch: seq<Drop>) returns (r: Request)
    requires batch != []
    ensures Carries(r, key, batch)
  {
    var ids: seq<string>, i := [], 0;
    while i < |batch| - 1
      invariant 0 <= i <= |batch| - 1
      invariant |ids| == i && forall j :: 0 <= j < i ==> ids[j] == batch[j].wireId
    {
      ids := ids + [batch[i].wireId];
      i := i + 1;
    }
    r := Request(batch[|batch| - 1], AfterNul(key), ids);
    assert ids + [r.last.wireId] == WireIds(batch);
  }

  /** `order` lists every key once, and request `i` carries the batch of key `i`. */
  ghost predicate Reports(drops: map<string, seq<Drop>>, order: seq<string>, out: seq<Request>) {
    && |out| == |order|
    && (forall i :: 0 <= i < |order| ==> order[i] in drops && Carries(out[i], order[i], drops[order[i]]))
    && (forall k :: k in drops ==> k in order)
    && (forall i, j :: 0 <= i < j < |order| ==> order[i] != order[j])
  }

  /** Turn the batches, in whatever order the map yields them, into status requests. */
  method Summaries(drops: map<string, seq<Drop>>) returns (order: seq<string>, out: seq<Request>)
    requires Valid(drops)
    ensures Reports(drops, order, out)
  {
    order, out := [], [];
    var left := drops.Keys;
    while left != {}
      invariant left <= drops.Keys && |out| == |order|
      invariant forall k :: k in order <==> k in drops && k !in left
      invariant forall i :: 0 <= i < |order| ==> order[i] in drops && Carries(out[i], order[i], drops[order[i]])
      invariant forall i, j :: 0 <= i < j < |order| ==> order[i] != order[j]
      decreases left
    {
      var key :| key in left;
      var r := Summarise(key, drops[key]);
      assert forall i :: 0 <= i < |order| ==> order[i] in order;
      order, out := order + [key], out + [r];
      left := left - {key};
    }
  }

  lemma CarriedWhole(r: Request, key: string, batch: seq<Drop>, i: nat)
    requires Carries(r, key, batch) && i < |batch|
    requires forall j :: 0 <= j < |batch| ==> Key(batch[j].from, batch[j].reason) == key && NUL !in batch[j].from
    ensures |r.ids| + 1 == |batch| && (r.ids + [r.last.wireId])[i] == batch[i].wireId
    ensures r.last.from == batch[i].from && r.reason == batch[i].reason
  {
    KeyInjective(batch[i], batch[|batch| - 1]);
    ReasonRecovered(batch[i].from, batch[i].reason);
    assert |r.ids + [r.last.wireId]| == |batch|;
  }

  /**
   Conservation.  A retained drop with a NUL-free address is in exactly one request, once, at the
   place it had in its batch, and that request has its address and its reason.
   */
  lemma ReportedOnce(drops: map<string, seq<Drop>>, order: seq<string>, out: seq<Request>, k: string, i: nat)
    returns (n: nat)
    requires Valid(drops) && Reports(drops, order, out) && k in drops && i < |drops[k]|
    requires forall j :: 0 <= j < |drops[k]| ==> NUL !in drops[k][j].from
    ensures n < |order| == |out| && forall m :: 0 <= m < |order| && order[m] == k ==> m == n
    ensures |out[n].ids| + 1 == |drops[k]| && (out[n].ids + [out[n].last.wireId])[i] == drops[k][i].wireId
    ensures out[n].last.from == drops[k][i].from && out[n].reason == drops[k][i].reason
  {
    n :| 0 <= n < |order| && order[n] == k;
    CarriedWhole(out[n], k, drops[k], i);
  }

  function Somes(ids: seq<string>): (s: seq<Option<string>>)
    ensures |s| == |ids| && forall i :: 0 <= i < |ids| ==> s[i] == Some(ids[i])
  {
    if ids == [] then [] else [Some(ids[0])] + Somes(ids[1..])
  }

  /** No request is long enough for the receiver to cut an ID off. */
  lemma NothingTruncated(drops: map<string, seq<Drop>>, order: seq<string>, out: seq<Request>, n: nat)
    requires Valid(drops) && Reports(drops, order, out) && n < |out|
    ensures Outbound.Heeded([Some(out[n].last.wireId)] + Somes(out[n].ids)) == [Some(out[n].last.wireId)] + Somes(out[n].ids)
  {
    assert |out[n].ids + [out[n].last.wireId]| == |drops[order[n]]|;
  }

  class DropBox {
    var drops: map<string, seq<Drop>>

    constructor ()
      ensures drops == map[] && Valid(drops)
    {
      drops := map[];
    }

    /** Keep the drop for reporting unless its batch, or the set of batches, is full. */
    method Add(d: Drop)
      requires Valid(drops)
      modifies this
      ensures Valid(drops)
      ensures var k := Key(d.from, d.reason);
        drops == if k in old(drops)
                 then if |old(drops)[k]| < 100 then old(drops)[k := old(drops)[k] + [d]] else old(drops)
                 else if |old(drops)| < 128 then old(drops)[k := [d]] else old(drops)
    {
      var key := Key(d.from, d.reason);
      if key !in drops {
        if |drops| >= MAX_BATCHES {
          return;
        }
        drops := drops[key := [d]];
      } else if |drops[key]| < MAX_BATCH {
        drops := drops[key := drops[key] + [d]];
      }
    }

    /** Take every batch, leaving none behind. */
    method Flush() returns (order: seq<string>, out: seq<Request>)
      requires Valid(drops)
      modifies this
      ensures drops == map[] && Valid(drops)
      ensures Reports(old(drops), order, out)
    {
      var batches := drops;
      drops := map[];
      order, out := Summaries(batches);
    }
  }
}
