/** Raw transactions inside one WebSocket batch (src/api/ws.rs, process_ws_batch): each may be put into
    the transaction queue at any moment while its request runs. The response array is always in
    request order; the queue need not be. */
module BatchOrder {
  import opened Primitives
  import WsBatch
  import WsConnection

  /** `raw[i]` says that request `i` is a raw transaction. `enqueued` lists requests in queue order. */
  datatype Batch = Batch(window: WsBatch.Window<()>, enqueued: seq<nat>)

  datatype Event = Enqueues(i: nat) | Completes(i: nat)

  function Start(raw: seq<bool>, permits: nat): Batch {
    Batch(WsBatch.Start(|raw|, permits), [])
  }

  /** A running raw transaction is enqueued at most once; one that is refused just completes. */
  function Step(raw: seq<bool>, b: Batch, e: Event): Option<Batch> {
    if e.i !in b.window.running || e.i >= |raw| then None
    else
      match e
      case Enqueues(i) => if raw[i] && i !in b.enqueued then Some(b.(enqueued := b.enqueued + [i])) else None
      case Completes(i) => Some(b.(window := WsBatch.Complete(b.window, WsBatch.Units(|raw|), i)))
  }

  ghost predicate IsRun(raw: seq<bool>, permits: nat, events: seq<Event>, states: seq<Batch>) {
    && |states| == |events| + 1
    && states[0] == Start(raw, permits)
    && forall k :: 0 <= k < |events| ==> Step(raw, states[k], events[k]) == Some(states[k + 1])
  }

  predicate Increasing(order: seq<nat>) {
    forall j, k :: 0 <= j < k < |order| ==> order[j] < order[k]
  }

  ghost predicate AlwaysInRequestOrder(raw: seq<bool>, permits: nat) {
    forall events: seq<Event>, states: seq<Batch>, k: nat :: IsRun(raw, permits, events, states) && k < |states| ==>
      Increasing(states[k].enqueued)
  }

  predicate AtMostOneRaw(raw: seq<bool>) {
    forall i, j :: 0 <= i < |raw| && 0 <= j < |raw| && raw[i] && raw[j] ==> i == j
  }

  ghost predicate Inv(raw: seq<bool>, permits: nat, b: Batch) {
    && WsBatch.Inv(b.window, WsBatch.Units(|raw|), permits)
    && (forall k :: 0 <= k < |b.enqueued| ==>
          b.enqueued[k] < b.window.next && b.enqueued[k] < |raw| && raw[b.enqueued[k]])
    && (forall j, k :: 0 <= j < k < |b.enqueued| ==> b.enqueued[j] != b.enqueued[k])
  }

  lemma {:induction false} RunInv(raw: seq<bool>, permits: nat, events: seq<Event>, states: seq<Batch>, k: nat)
    requires permits > 0 && IsRun(raw, permits, events, states) && k < |states|
    ensures Inv(raw, permits, states[k])
  {
    if k == 0 {
      WsBatch.StartInv(WsBatch.Units(|raw|), permits);
    } else {
      RunInv(raw, permits, events, states, k - 1);
      var e := events[k - 1];
      assert Step(raw, states[k - 1], e) == Some(states[k]);
      if e.Completes? {
        WsBatch.CompleteInv(states[k - 1].window, WsBatch.Units(|raw|), permits, e.i);
      }
    }
  }

  // ----- one permit, or one raw transaction: request order -----

  /** With one permit the request running is the last one started. */
  ghost predicate OneAtATime(b: Batch) {
    && (forall i :: i in b.window.running ==> i + 1 == b.window.next)
    && Increasing(b.enqueued)
  }

  lemma {:induction false} OnePermitKeepsOrder(raw: seq<bool>, events: seq<Event>, states: seq<Batch>, k: nat)
    requires IsRun(raw, 1, events, states) && k < |states|
    ensures OneAtATime(states[k])
  {
    if k == 0 {
      WsBatch.UptoIsInitial(Min(|raw|, 1));
    } else {
      OnePermitKeepsOrder(raw, events, states, k - 1);
      RunInv(raw, 1, events, states, k - 1);
      var b, e := states[k - 1], events[k - 1];
      assert Step(raw, b, e) == Some(states[k]);
      if e.Enqueues? {
        forall m | 0 <= m < |b.enqueued| ensures b.enqueued[m] < e.i {
          assert b.enqueued[m] in b.enqueued;
        }
      } else {
        assert forall i :: i in b.window.running ==> i == e.i;
      }
    }
  }

  lemma DisorderNeedsTwoRaw(raw: seq<bool>, permits: nat, b: Batch)
    requires Inv(raw, permits, b) && !Increasing(b.enqueued)
    ensures !AtMostOneRaw(raw)
  {
    var j, k :| 0 <= j < k < |b.enqueued| && b.enqueued[j] >= b.enqueued[k];
    assert raw[b.enqueued[j]] && raw[b.enqueued[k]] && b.enqueued[j] != b.enqueued[k];
  }

  // ----- two permits and two raw transactions: a run in the opposite order -----

  /** The first `n` requests other than `i`, in order. */
  function Skip(i: nat, n: nat): nat {
    if n < i then n else n + 1
  }

  ghost predicate DoneBut(w: WsBatch.Window<()>, i: nat, n: nat) {
    |w.responses| == n && forall k :: 0 <= k < n ==> w.responses[k].0 == Skip(i, k)
  }

  lemma NotYetDone(w: WsBatch.Window<()>, i: nat, n: nat, r: nat)
    requires DoneBut(w, i, n) && (r == i || r >= Skip(i, n))
    ensures !WsBatch.Answered(w.responses, r)
  {
  }

  lemma RunningWhenNotDone(raw: seq<bool>, permits: nat, w: WsBatch.Window<()>, i: nat, n: nat, r: nat)
    requires permits >= 2 && WsBatch.Inv(w, WsBatch.Units(|raw|), permits) && DoneBut(w, i, n)
    requires n + 2 <= |raw| && r <= n + 1 && (r == i || r >= Skip(i, n))
    ensures r in w.running
  {
    assert w.next >= n + 2;
    NotYetDone(w, i, n, r);
  }

  lemma RunExtends(raw: seq<bool>, permits: nat, events: seq<Event>, states: seq<Batch>, e: Event, b: Batch)
    requires IsRun(raw, permits, events, states) && Step(raw, states[|events|], e) == Some(b)
    ensures IsRun(raw, permits, events + [e], states + [b])
  {
  }

  /** The first `n` requests other than `i` complete while `i` is held up. */
  lemma {:induction false} HoldUp(raw: seq<bool>, permits: nat, i: nat, n: nat)
    returns (events: seq<Event>, states: seq<Batch>)
    requires permits >= 2 && n + 1 <= |raw|
    ensures IsRun(raw, permits, events, states) && |events| == n
    ensures DoneBut(states[n].window, i, n) && states[n].enqueued == []
    decreases n
  {
    if n == 0 {
      events, states := [], [Start(raw, permits)];
    } else {
      events, states := HoldUp(raw, permits, i, n - 1);
      RunInv(raw, permits, events, states, n - 1);
      var b, r := states[n - 1], Skip(i, n - 1);
      RunningWhenNotDone(raw, permits, b.window, i, n - 1, r);
      var b' := Step(raw, b, Completes(r)).value;
      RunExtends(raw, permits, events, states, Completes(r), b');
      events, states := events + [Completes(r)], states + [b'];
    }
  }

  /** A later raw transaction can overtake an earlier one that is held up. */
  lemma Overtakes(raw: seq<bool>, permits: nat, i: nat, j: nat) returns (events: seq<Event>, states: seq<Batch>)
    requires permits >= 2 && i < j < |raw| && raw[i] && raw[j]
    ensures IsRun(raw, permits, events, states) && states[|events|].enqueued == [j, i]
  {
    var n := j - 1;
    events, states := HoldUp(raw, permits, i, n);
    RunInv(raw, permits, events, states, n);
    var b := states[n];
    RunningWhenNotDone(raw, permits, b.window, i, n, i);
    RunningWhenNotDone(raw, permits, b.window, i, n, j);
    assert b.enqueued + [j] == [j] && [j] + [i] == [j, i];
    var b1 := b.(enqueued := [j]);
    RunExtends(raw, permits, events, states, Enqueues(j), b1);
    var b2 := b.(enqueued := [j, i]);
    RunExtends(raw, permits, events + [Enqueues(j)], states + [b1], Enqueues(i), b2);
    events, states := events + [Enqueues(j)] + [Enqueues(i)], states + [b1] + [b2];
  }

  /** Raw transactions of a batch enter the queue in request order, whatever the interleaving, exactly
      when the batch holds one permit or at most one of them; otherwise some run of the batch queues
      them in another order than its response array lists their hashes. */
  lemma QueueOrderIsRequestOrder(raw: seq<bool>, permits: nat)
    requires permits > 0
    ensures AlwaysInRequestOrder(raw, permits) <==> permits == 1 || AtMostOneRaw(raw)
  {
    if permits == 1 || AtMostOneRaw(raw) {
      forall events: seq<Event>, states: seq<Batch>, k: nat | IsRun(raw, permits, events, states) && k < |states|
        ensures Increasing(states[k].enqueued)
      {
        RunInv(raw, permits, events, states, k);
        if permits == 1 {
          OnePermitKeepsOrder(raw, events, states, k);
        } else if !Increasing(states[k].enqueued) {
          DisorderNeedsTwoRaw(raw, permits, states[k]);
        }
      }
    } else {
      var i, j :| 0 <= i < |raw| && 0 <= j < |raw| && raw[i] && raw[j] && i != j;
      var events, states := Overtakes(raw, permits, Min(i, j), Max(i, j));
      var order := states[|events|].enqueued;
      assert order[0] > order[1];
      assert !Increasing(order);
    }
  }

  /** With the permits a batch reserves: request order is certain exactly when at most one of its
      requests is a raw transaction. */
  lemma ServedBatchOrder(raw: seq<bool>)
    requires raw != []
    ensures AlwaysInRequestOrder(raw, WsConnection.Reservation(|raw|)) <==> AtMostOneRaw(raw)
  {
    QueueOrderIsRequestOrder(raw, WsConnection.Reservation(|raw|));
  }
}
