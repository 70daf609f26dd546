/** One WebSocket batch (src/api/ws.rs, process_ws_batch): a window of running requests that is
    refilled on every completion, and responses sorted back into request order. */
module WsBatch {
  import opened Primitives

  /** `next` requests have been started; `running` are started and not complete; `responses` are
      the tagged responses in completion order. */
  datatype Window<V> = Window(next: nat, running: set<nat>, responses: seq<(nat, V)>)

  // ----- the window as a transition system; the completion order is free -----

  function Upto(n: nat): set<nat> {
    if n == 0 then {} else Upto(n - 1) + {n - 1}
  }

  lemma {:induction false} UptoIsInitial(n: nat)
    ensures |Upto(n)| == n
    ensures forall i: nat :: i in Upto(n) <==> i < n
  {
    if n > 0 {
      UptoIsInitial(n - 1);
    }
  }

  function Start<V>(n: nat, permits: nat): Window<V> {
    var first := Min(n, permits);
    Window(first, Upto(first), [])
  }

  /** Request `i` completes with `answers[i]`; the next request, if any, takes its place. */
  function Complete<V>(w: Window<V>, answers: seq<V>, i: nat): Window<V>
    requires i < |answers|
  {
    var rest := w.(running := w.running - {i}, responses := w.responses + [(i, answers[i])]);
    if w.next < |answers| then rest.(running := rest.running + {w.next}, next := w.next + 1)
    else rest
  }

  /** Answers whose content does not matter. */
  function Units(n: nat): (u: seq<()>)
    ensures |u| == n
  {
    seq(n, _ => ())
  }

  /** The windows passed through when requests complete in the order `order`. */
  ghost predicate IsRun<V>(answers: seq<V>, permits: nat, order: seq<nat>, windows: seq<Window<V>>) {
    && |windows| == |order| + 1
    && windows[0] == Start(|answers|, permits)
    && forall k :: 0 <= k < |order| ==>
      order[k] in windows[k].running && order[k] < |answers|
      && windows[k + 1] == Complete(windows[k], answers, order[k])
  }

  predicate Tagged<V(==)>(r: (nat, V), answers: seq<V>) {
    r.0 < |answers| && r.1 == answers[r.0]
  }

  predicate Answered<V>(responses: seq<(nat, V)>, i: nat) {
    exists k :: 0 <= k < |responses| && responses[k].0 == i
  }

  predicate DistinctIndices<V>(responses: seq<(nat, V)>) {
    forall j, k :: 0 <= j < k < |responses| ==> responses[j].0 != responses[k].0
  }

  /** A request has been started iff it is running or answered, never both; the window is full
      while work is left; every response is the answer of the request it is tagged with. */
  ghost predicate Inv<V>(w: Window<V>, answers: seq<V>, permits: nat) {
    && w.next <= |answers|
    && (forall i: nat :: i in w.running ==> i < w.next && !Answered(w.responses, i))
    && (forall i: nat :: i < w.next ==> i in w.running || Answered(w.responses, i))
    && (forall k :: 0 <= k < |w.responses| ==> w.responses[k].0 < w.next && Tagged(w.responses[k], answers))
    && DistinctIndices(w.responses)
    && |w.running| == Min(permits, |answers| - |w.responses|)
    && w.next == |w.running| + |w.responses|
  }

  lemma StartInv<V>(answers: seq<V>, permits: nat)
    ensures Inv(Start(|answers|, permits), answers, permits)
  {
    UptoIsInitial(Min(|answers|, permits));
  }

  lemma AnsweredAppend<V>(responses: seq<(nat, V)>, r: (nat, V), i: nat)
    ensures Answered(responses + [r], i) <==> Answered(responses, i) || i == r.0
  {
    var all := responses + [r];
    assert all[|responses|] == r;
    if Answered(responses, i) {
      var k :| 0 <= k < |responses| && responses[k].0 == i;
      assert all[k].0 == i;
    }
  }

  lemma CompleteInv<V>(w: Window<V>, answers: seq<V>, permits: nat, i: nat)
    requires permits > 0
    requires Inv(w, answers, permits) && i in w.running && i < |answers|
    ensures Inv(Complete(w, answers, i), answers, permits)
  {
    var w' := Complete(w, answers, i);
    forall j: nat ensures Answered(w'.responses, j) <==> Answered(w.responses, j) || j == i {
      AnsweredAppend(w.responses, (i, answers[i]), j);
    }
    forall k | 0 <= k < |w.responses| ensures w.responses[k].0 != i {
      assert Answered(w.responses, w.responses[k].0);
    }
    assert |w.running - {i}| == |w.running| - 1;
    assert w.next !in w.running;
    if w.next < |answers| {
      assert |w'.running| == |w.running|;
      assert !Answered(w.responses, w.next);
    } else {
      assert w'.running == w.running - {i};
    }
  }

  /** Every window of every run satisfies the invariant: in particular the number running is
      min(permits, requests - completed) at every step, whatever order requests complete in. */
  lemma {:induction false} WindowIsWorkConserving<V>(answers: seq<V>, permits: nat, order: seq<nat>,
                                                     windows: seq<Window<V>>, k: nat)
    requires permits > 0 && IsRun(answers, permits, order, windows) && k < |windows|
    ensures Inv(windows[k], answers, permits)
    ensures |windows[k].responses| == k
    ensures |windows[k].running| == Min(permits, |answers| - k)
  {
    if k == 0 {
      StartInv(answers, permits);
    } else {
      WindowIsWorkConserving(answers, permits, order, windows, k - 1);
      CompleteInv(windows[k - 1], answers, permits, order[k - 1]);
    }
  }

  /** A run never gets stuck early and never completes a request twice: it can be extended exactly
      while requests are left, and its completion order has no repetition. */
  lemma RunProgress<V>(answers: seq<V>, permits: nat, order: seq<nat>, windows: seq<Window<V>>)
    requires permits > 0 && IsRun(answers, permits, order, windows)
    ensures |order| <= |answers|
    ensures windows[|order|].running == {} <==> |order| == |answers|
    ensures forall j, k :: 0 <= j < k < |order| ==> order[j] != order[k]
  {
    var w := windows[|order|];
    WindowIsWorkConserving(answers, permits, order, windows, |order|);
    forall k | 0 <= k <= |order| ensures CompletionOrder(windows[k].responses) == order[..k] {
      CompletionOrderIs(answers, permits, order, windows, k);
    }
    assert order[..|order|] == order;
    assert DistinctIndices(w.responses);
    forall j, k | 0 <= j < k < |order| ensures order[j] != order[k] {
      assert w.responses[j].0 == CompletionOrder(w.responses)[j];
      assert w.responses[k].0 == CompletionOrder(w.responses)[k];
    }
  }

  function CompletionOrder<V>(responses: seq<(nat, V)>): seq<nat> {
    seq(|responses|, k requires 0 <= k < |responses| => responses[k].0)
  }

  lemma {:induction false} CompletionOrderIs<V>(answers: seq<V>, permits: nat, order: seq<nat>,
                                                windows: seq<Window<V>>, k: nat)
    requires IsRun(answers, permits, order, windows) && k <= |order|
    ensures CompletionOrder(windows[k].responses) == order[..k]
  {
    if k > 0 {
      CompletionOrderIs(answers, permits, order, windows, k - 1);
      assert order[..k] == order[..k - 1] + [order[k - 1]];
    }
  }

  // ----- sorting by index -----

  function Insert<V>(r: (nat, V), rs: seq<(nat, V)>): (out: seq<(nat, V)>)
    ensures |out| == |rs| + 1
  {
    if rs == [] || r.0 <= rs[0].0 then [r] + rs else [rs[0]] + Insert(r, rs[1..])
  }

  /** The library's unstable sort: any order of equal indices would do, and there are none. */
  function SortByIndex<V>(rs: seq<(nat, V)>): (out: seq<(nat, V)>)
    ensures |out| == |rs|
  {
    if rs == [] then [] else Insert(rs[0], SortByIndex(rs[1..]))
  }

  predicate Increasing<V>(rs: seq<(nat, V)>) {
    forall j, k :: 0 <= j < k < |rs| ==> rs[j].0 < rs[k].0
  }

  predicate AllIn<V(==)>(rs: seq<(nat, V)>, pool: seq<(nat, V)>) {
    forall k :: 0 <= k < |rs| ==> rs[k] in pool
  }

  lemma {:induction false} InsertSorts<V>(r: (nat, V), rs: seq<(nat, V)>, pool: seq<(nat, V)>)
    requires Increasing(rs) && !Answered(rs, r.0)
    requires r in pool && AllIn(rs, pool)
    ensures Increasing(Insert(r, rs)) && AllIn(Insert(r, rs), pool)
    ensures forall k :: 0 <= k < |rs| + 1 ==> Insert(r, rs)[k].0 == r.0 || Answered(rs, Insert(r, rs)[k].0)
  {
    if rs != [] && r.0 > rs[0].0 {
      var rest := rs[1..];
      assert forall k :: 0 <= k < |rest| ==> rest[k] == rs[k + 1];
      InsertSorts(r, rest, pool);
      var tail := Insert(r, rest);
      forall k | 0 <= k < |tail|
        ensures rs[0].0 < tail[k].0 && (tail[k].0 == r.0 || Answered(rs, tail[k].0))
      {
        assert tail[k].0 == r.0 || Answered(rest, tail[k].0);
      }
    } else if rs != [] {
      assert rs[0].0 != r.0;
    }
  }

  lemma {:induction false} SortByIndexSorts<V>(rs: seq<(nat, V)>, pool: seq<(nat, V)>)
    requires DistinctIndices(rs) && AllIn(rs, pool)
    ensures Increasing(SortByIndex(rs)) && AllIn(SortByIndex(rs), pool)
    ensures forall k :: 0 <= k < |rs| ==> Answered(rs, SortByIndex(rs)[k].0)
  {
    if rs != [] {
      var rest := rs[1..];
      assert forall k :: 0 <= k < |rest| ==> rest[k] == rs[k + 1];
      SortByIndexSorts(rest, pool);
      var sorted := SortByIndex(rest);
      forall k | 0 <= k < |sorted| ensures sorted[k].0 != rs[0].0 {
        assert Answered(rest, sorted[k].0);
      }
      InsertSorts(rs[0], sorted, pool);
      AnsweredHere(rs, sorted);
    }
  }

  lemma AnsweredHere<V>(rs: seq<(nat, V)>, sorted: seq<(nat, V)>)
    requires rs != [] && |sorted| == |rs| - 1
    requires forall k :: 0 <= k < |sorted| ==> Answered(rs[1..], sorted[k].0)
    requires forall k :: 0 <= k < |rs| ==>
      Insert(rs[0], sorted)[k].0 == rs[0].0 || Answered(sorted, Insert(rs[0], sorted)[k].0)
    ensures forall k :: 0 <= k < |rs| ==> Answered(rs, Insert(rs[0], sorted)[k].0)
  {
    forall i: nat | Answered(rs[1..], i) ensures Answered(rs, i) {
      var k :| 0 <= k < |rs[1..]| && rs[1..][k].0 == i;
      assert rs[k + 1].0 == i;
    }
  }

  lemma {:induction false} IncreasingIsAtLeast<V>(rs: seq<(nat, V)>, k: nat)
    requires Increasing(rs) && k < |rs|
    ensures rs[k].0 >= k
  {
    if k > 0 {
      IncreasingIsAtLeast(rs, k - 1);
    }
  }

  lemma {:induction false} IncreasingIsAtMost<V>(rs: seq<(nat, V)>, k: nat, bound: nat)
    requires Increasing(rs) && k < |rs|
    requires forall j :: 0 <= j < |rs| ==> rs[j].0 < bound
    ensures rs[k].0 + (|rs| - k) <= bound
    decreases |rs| - k
  {
    if k + 1 < |rs| {
      IncreasingIsAtMost(rs, k + 1, bound);
    }
  }

  /** As many increasing indices as there are requests are exactly 0, 1, 2, ...: sorting a finished
      window puts every response at the place of its request, with none missing and none twice. */
  lemma SortingRestoresRequestOrder<V>(w: Window<V>, answers: seq<V>, permits: nat)
    requires permits > 0 && Inv(w, answers, permits) && w.running == {}
    ensures var sorted := SortByIndex(w.responses);
      |sorted| == |answers| && forall k :: 0 <= k < |answers| ==> sorted[k] == (k, answers[k])
  {
    SortByIndexSorts(w.responses, w.responses);
    var sorted := SortByIndex(w.responses);
    forall k | 0 <= k < |sorted| ensures Tagged(sorted[k], answers) {
      assert sorted[k] in w.responses;
    }
    forall k | 0 <= k < |answers| ensures sorted[k] == (k, answers[k]) {
      IncreasingIsAtLeast(sorted, k);
      IncreasingIsAtMost(sorted, k, |answers|);
      assert Tagged(sorted[k], answers);
    }
  }

  // ----- the loop -----

  /** Started requests: as many as there are permits, in request order. */
  method Prime(n: nat, permits: nat) returns (next: nat, running: set<nat>)
    ensures next == Min(n, permits) && running == Upto(next)
  {
    next, running := 0, {};
    while next < n && next < permits
      invariant next <= Min(n, permits)
      invariant running == Upto(next)
    {
      running := running + {next};
      next := next + 1;
    }
  }

  lemma RunStarts<V>(answers: seq<V>, permits: nat, w: Window<V>)
    requires w == Start(|answers|, permits)
    ensures IsRun(answers, permits, [], [w])
  {
  }

  lemma RunExtends<V>(answers: seq<V>, permits: nat, order: seq<nat>, windows: seq<Window<V>>, i: nat)
    requires permits > 0 && IsRun(answers, permits, order, windows)
    requires i in windows[|order|].running
    ensures i < |answers| && |order| < |answers|
    ensures IsRun(answers, permits, order + [i], windows + [Complete(windows[|order|], answers, i)])
  {
    WindowIsWorkConserving(answers, permits, order, windows, |order|);
    assert |windows[|order|].running| > 0;
  }

  /** What a run that has emptied its window sends. */
  lemma RunEnds<V>(answers: seq<V>, permits: nat, order: seq<nat>, windows: seq<Window<V>>)
    requires permits > 0 && IsRun(answers, permits, order, windows)
    requires windows[|order|].running == {}
    ensures |order| == |answers|
    ensures Values(SortByIndex(windows[|order|].responses)) == answers
  {
    WindowIsWorkConserving(answers, permits, order, windows, |order|);
    RunProgress(answers, permits, order, windows);
    SortingRestoresRequestOrder(windows[|order|], answers, permits);
  }

  function Values<V>(responses: seq<(nat, V)>): seq<V> {
    seq(|responses|, i requires 0 <= i < |responses| => responses[i].1)
  }

  /** `answers[i]` is the value request `i` eventually yields. Which running request completes next
      is an arbitrary choice, so what is ensured holds for every completion order. */
  method ProcessWsBatch<V(0)>(answers: seq<V>, permits: nat)
    returns (sent: seq<V>, ghost order: seq<nat>, ghost windows: seq<Window<V>>)
    requires permits > 0
    ensures sent == answers
    ensures IsRun(answers, permits, order, windows)
    ensures |order| == |answers|
  {
    var next: nat, running: set<nat> := Prime(|answers|, permits);
    var responses: seq<(nat, V)> := [];
    ghost var w := Window(next, running, responses);
    order, windows := [], [w];
    RunStarts(answers, permits, w);
    while running != {}
      invariant w == Window(next, running, responses)
      invariant IsRun(answers, permits, order, windows) && windows[|order|] == w
      invariant |order| <= |answers|
      decreases |answers| - |order|
    {
      var index: nat :| index in running;
      RunExtends(answers, permits, order, windows, index);
      running := running - {index};
      responses := responses + [(index, answers[index])];
      if next < |answers| {
        running := running + {next};
        next := next + 1;
      }
      w := Complete(w, answers, index);
      order, windows := order + [index], windows + [w];
    }

    RunEnds(answers, permits, order, windows);
    responses := SortByIndex(responses);
    sent := Values(responses);
  }
}
