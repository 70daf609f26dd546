/** Streaming performance metrics (src/tools/tx_perf/metrics.rs): a fixed-size heap of the slowest
    transactions, the sliding window it is compared with, the purge of old samples, and the
    capacity statistics. */
module Metrics {
  import opened Primitives

  datatype SlowItem = SlowItem(latencyMicros: u64, id: Option<string>, hash: Option<string>)

  function Latencies(items: seq<SlowItem>): (ls: seq<nat>)
    ensures |ls| == |items|
  {
    seq(|items|, i requires 0 <= i < |items| => items[i].latencyMicros)
  }

  // ----- sorting latencies, largest first -----

  function Insert(x: nat, sorted: seq<nat>): (r: seq<nat>)
    ensures |r| == |sorted| + 1
  {
    if sorted == [] || x >= sorted[0] then [x] + sorted else [sorted[0]] + Insert(x, sorted[1..])
  }

  function SortDescending(xs: seq<nat>): (r: seq<nat>)
    ensures |r| == |xs|
  {
    if xs == [] then [] else Insert(xs[0], SortDescending(xs[1..]))
  }

  function Take(xs: seq<nat>, n: nat): seq<nat> {
    if |xs| <= n then xs else xs[..n]
  }

  predicate Descending(xs: seq<nat>) {
    forall j, k :: 0 <= j < k < |xs| ==> xs[j] >= xs[k]
  }

  lemma {:induction false} InsertDescending(x: nat, sorted: seq<nat>)
    requires Descending(sorted)
    ensures Descending(Insert(x, sorted))
    ensures forall k :: 0 <= k < |sorted| + 1 ==> Insert(x, sorted)[k] == x || Insert(x, sorted)[k] in sorted
  {
    if sorted != [] && x < sorted[0] {
      InsertDescending(x, sorted[1..]);
    }
  }

  lemma {:induction false} SortDescendingSorts(xs: seq<nat>)
    ensures Descending(SortDescending(xs))
  {
    if xs != [] {
      SortDescendingSorts(xs[1..]);
      InsertDescending(xs[0], SortDescending(xs[1..]));
    }
  }

  /** Insertion order does not matter, so sorting does not depend on the order of the input. */
  lemma {:induction false} InsertCommutes(x: nat, y: nat, sorted: seq<nat>)
    ensures Insert(x, Insert(y, sorted)) == Insert(y, Insert(x, sorted))
  {
    if sorted == [] {
    } else if x < sorted[0] && y < sorted[0] {
      InsertCommutes(x, y, sorted[1..]);
      InsertBehind(x, sorted[0], Insert(y, sorted[1..]));
      InsertBehind(y, sorted[0], Insert(x, sorted[1..]));
      assert sorted == [sorted[0]] + sorted[1..];
    } else if x >= sorted[0] && y >= sorted[0] {
      InsertFront(x, sorted);
      InsertFront(y, sorted);
      if x < y {
        InsertBehind(x, y, sorted);
      } else if y < x {
        InsertBehind(y, x, sorted);
      }
    } else if x >= sorted[0] {
      InsertBehind(y, x, sorted);
    } else {
      InsertBehind(x, y, sorted);
    }
  }

  lemma InsertBehind(x: nat, head: nat, tail: seq<nat>)
    requires x < head
    ensures Insert(x, [head] + tail) == [head] + Insert(x, tail)
  {
    assert ([head] + tail)[1..] == tail;
  }

  lemma InsertFront(x: nat, sorted: seq<nat>)
    requires sorted == [] || x >= sorted[0]
    ensures Insert(x, sorted) == [x] + sorted
  {
  }

  lemma {:induction false} SortWithout(xs: seq<nat>, i: nat)
    requires i < |xs|
    ensures SortDescending(xs) == Insert(xs[i], SortDescending(xs[..i] + xs[i + 1..]))
  {
    if i == 0 {
      assert xs[..0] + xs[1..] == xs[1..];
    } else {
      var rest := xs[1..];
      SortWithout(rest, i - 1);
      var without := rest[..i - 1] + rest[i..];
      assert xs[..i] + xs[i + 1..] == [xs[0]] + without;
      assert ([xs[0]] + without)[1..] == without;
      InsertCommutes(xs[0], xs[i], SortDescending(without));
    }
  }

  lemma SortAppend(xs: seq<nat>, x: nat)
    ensures SortDescending(xs + [x]) == Insert(x, SortDescending(xs))
  {
    var all := xs + [x];
    SortWithout(all, |xs|);
    assert all[..|xs|] + all[|xs| + 1..] == xs;
  }

  lemma {:induction false} InsertSmallest(x: nat, sorted: seq<nat>)
    requires forall k :: 0 <= k < |sorted| ==> x <= sorted[k]
    requires Descending(sorted)
    ensures Insert(x, sorted) == sorted + [x]
  {
    if sorted != [] {
      if x >= sorted[0] {
        assert forall k :: 0 <= k < |sorted| ==> sorted[k] == x;
        assert [x] + sorted == sorted + [x];
      } else {
        InsertSmallest(x, sorted[1..]);
        assert sorted == [sorted[0]] + sorted[1..];
      }
    }
  }

  /** The first n of an insertion are the first n of inserting into the first n. */
  lemma {:induction false} TakeInsert(x: nat, sorted: seq<nat>, n: nat)
    ensures Take(Insert(x, sorted), n) == Take(Insert(x, Take(sorted, n)), n)
  {
    if n == 0 {
      assert Take(Insert(x, sorted), 0) == [];
    } else if sorted == [] || x >= sorted[0] {
      var t := Take(sorted, n);
      assert Insert(x, sorted) == [x] + sorted;
      assert Insert(x, t) == [x] + t;
      assert Take([x] + sorted, n) == [x] + Take(sorted, n - 1);
      assert Take([x] + t, n) == [x] + Take(t, n - 1);
      assert Take(t, n - 1) == Take(sorted, n - 1);
    } else {
      var head, tail := sorted[0], sorted[1..];
      TakeInsert(x, tail, n - 1);
      assert sorted == [head] + tail;
      var t := Take(sorted, n);
      assert t == [head] + Take(tail, n - 1);
      InsertBehind(x, head, tail);
      InsertBehind(x, head, Take(tail, n - 1));
      assert Take([head] + Insert(x, tail), n) == [head] + Take(Insert(x, tail), n - 1);
      assert Take([head] + Insert(x, Take(tail, n - 1)), n) == [head] + Take(Insert(x, Take(tail, n - 1)), n - 1);
    }
  }

  // ----- the heap's step on latencies -----

  lemma {:induction false} SortKeepsMembers(xs: seq<nat>, x: nat)
    ensures x in SortDescending(xs) ==> x in xs
  {
    if xs != [] {
      SortKeepsMembers(xs[1..], x);
      SortDescendingSorts(xs[1..]);
      InsertDescending(xs[0], SortDescending(xs[1..]));
    }
  }

  /** Replacing a smallest element of a full heap by a larger one inserts and drops the last. */
  lemma ReplaceSmallest(xs: seq<nat>, i: nat, x: nat)
    requires i < |xs| && (forall k :: 0 <= k < |xs| ==> xs[i] <= xs[k])
    ensures SortDescending(xs) == SortDescending(xs[..i] + xs[i + 1..]) + [xs[i]]
    ensures SortDescending(xs[i := x]) == Insert(x, SortDescending(xs[..i] + xs[i + 1..]))
  {
    var rest := xs[..i] + xs[i + 1..];
    SortWithout(xs, i);
    SortDescendingSorts(rest);
    forall k | 0 <= k < |rest| ensures xs[i] <= SortDescending(rest)[k] {
      SortKeepsMembers(rest, SortDescending(rest)[k]);
    }
    InsertSmallest(xs[i], SortDescending(rest));
    SortWithout(xs[i := x], i);
    assert xs[i := x][..i] + xs[i := x][i + 1..] == rest;
  }

  lemma {:induction false} InsertBeforeLast(x: nat, sorted: seq<nat>, last: nat)
    requires x > last
    ensures Insert(x, sorted + [last]) == Insert(x, sorted) + [last]
  {
    if sorted == [] {
      assert sorted + [last] == [last];
    } else {
      assert (sorted + [last])[1..] == sorted[1..] + [last];
      if x < sorted[0] {
        InsertBeforeLast(x, sorted[1..], last);
      }
    }
  }

  lemma {:induction false} InsertAtEnd(x: nat, sorted: seq<nat>)
    requires sorted != [] && x <= sorted[|sorted| - 1] && Descending(sorted)
    ensures Take(Insert(x, sorted), |sorted|) == sorted
  {
    assert forall k :: 0 <= k < |sorted| ==> x <= sorted[k];
    InsertSmallest(x, sorted);
  }

  /** A full heap that keeps its content or replaces a smallest element holds the first cap of one
      more insertion, whichever of several smallest elements it picks. */
  lemma HeapStep(xs: seq<nat>, i: nat, x: nat)
    requires i < |xs| && (forall k :: 0 <= k < |xs| ==> xs[i] <= xs[k])
    ensures SortDescending(if x > xs[i] then xs[i := x] else xs)
      == Take(Insert(x, SortDescending(xs)), |xs|)
  {
    ReplaceSmallest(xs, i, x);
    var s := SortDescending(xs[..i] + xs[i + 1..]);
    if x > xs[i] {
      InsertBeforeLast(x, s, xs[i]);
      assert (Insert(x, s) + [xs[i]])[..|xs|] == Insert(x, s);
    } else {
      SortDescendingSorts(xs);
      InsertAtEnd(x, SortDescending(xs));
    }
  }

  // ----- sorting items -----

  /** Stable ascending sort by latency, as the library's `sort` on items ordered by latency. */
  function InsertAscending(x: SlowItem, items: seq<SlowItem>): (r: seq<SlowItem>)
    ensures |r| == |items| + 1
  {
    if items == [] || x.latencyMicros <= items[0].latencyMicros then [x] + items
    else [items[0]] + InsertAscending(x, items[1..])
  }

  function SortAscending(items: seq<SlowItem>): (r: seq<SlowItem>)
    ensures |r| == |items|
  {
    if items == [] then [] else InsertAscending(items[0], SortAscending(items[1..]))
  }

  function Reverse(items: seq<SlowItem>): (r: seq<SlowItem>)
    ensures |r| == |items|
  {
    if items == [] then [] else Reverse(items[1..]) + [items[0]]
  }

  /** Stable descending sort by latency, as `sort_by_key(Reverse(latency))`. */
  function InsertDescendingItem(x: SlowItem, items: seq<SlowItem>): (r: seq<SlowItem>)
    ensures |r| == |items| + 1
  {
    if items == [] || x.latencyMicros >= items[0].latencyMicros then [x] + items
    else [items[0]] + InsertDescendingItem(x, items[1..])
  }

  function SortItemsDescending(items: seq<SlowItem>): (r: seq<SlowItem>)
    ensures |r| == |items|
  {
    if items == [] then [] else InsertDescendingItem(items[0], SortItemsDescending(items[1..]))
  }

  /** The slowest part of a window summary. */
  function WindowSlowest(samples: seq<SlowItem>, top: nat): seq<SlowItem> {
    var sorted := SortItemsDescending(samples);
    if |sorted| > top then sorted[..top] else sorted
  }

  lemma LatenciesCons(x: SlowItem, items: seq<SlowItem>)
    ensures Latencies([x] + items) == [x.latencyMicros] + Latencies(items)
  {
  }

  lemma LatenciesTail(items: seq<SlowItem>)
    requires items != []
    ensures Latencies(items)[1..] == Latencies(items[1..])
  {
  }

  lemma {:induction false} InsertDescendingItemLatencies(x: SlowItem, items: seq<SlowItem>)
    ensures Latencies(InsertDescendingItem(x, items)) == Insert(x.latencyMicros, Latencies(items))
  {
    if items == [] || x.latencyMicros >= items[0].latencyMicros {
      LatenciesCons(x, items);
    } else {
      InsertDescendingItemLatencies(x, items[1..]);
      LatenciesCons(items[0], InsertDescendingItem(x, items[1..]));
      LatenciesTail(items);
    }
  }

  lemma {:induction false} SortItemsDescendingLatencies(items: seq<SlowItem>)
    ensures Latencies(SortItemsDescending(items)) == SortDescending(Latencies(items))
  {
    if items != [] {
      SortItemsDescendingLatencies(items[1..]);
      InsertDescendingItemLatencies(items[0], SortItemsDescending(items[1..]));
      LatenciesTail(items);
    }
  }

  predicate Ascending(items: seq<SlowItem>) {
    forall j, k :: 0 <= j < k < |items| ==> items[j].latencyMicros <= items[k].latencyMicros
  }

  lemma {:induction false} SortsPermute(items: seq<SlowItem>)
    ensures multiset(SortAscending(items)) == multiset(SortItemsDescending(items)) == multiset(items)
  {
    if items != [] {
      assert items == [items[0]] + items[1..];
      SortsPermute(items[1..]);
      InsertsPermute(items[0], SortAscending(items[1..]));
      InsertsPermute(items[0], SortItemsDescending(items[1..]));
    }
  }

  lemma {:induction false} InsertsPermute(x: SlowItem, items: seq<SlowItem>)
    ensures multiset(InsertAscending(x, items)) == multiset(items) + multiset{x}
    ensures multiset(InsertDescendingItem(x, items)) == multiset(items) + multiset{x}
  {
    if items != [] {
      assert items == [items[0]] + items[1..];
      InsertsPermute(x, items[1..]);
    }
  }

  lemma {:induction false} ReversePermutes(items: seq<SlowItem>)
    ensures multiset(Reverse(items)) == multiset(items)
  {
    if items != [] {
      assert items == [items[0]] + items[1..];
      ReversePermutes(items[1..]);
    }
  }

  lemma {:induction false} SortAscendingSorts(items: seq<SlowItem>)
    ensures Ascending(SortAscending(items))
  {
    if items != [] {
      SortAscendingSorts(items[1..]);
      InsertAscendingSorts(items[0], SortAscending(items[1..]));
    }
  }

  lemma {:induction false} InsertAscendingSorts(x: SlowItem, items: seq<SlowItem>)
    requires Ascending(items)
    ensures Ascending(InsertAscending(x, items))
  {
    if items != [] && x.latencyMicros > items[0].latencyMicros {
      InsertAscendingSorts(x, items[1..]);
      var r := InsertAscending(x, items[1..]);
      forall k | 0 <= k < |r| ensures items[0].latencyMicros <= r[k].latencyMicros {
        InsertsPermute(x, items[1..]);
        assert r[k] in multiset(r);
        assert r[k] == x || r[k] in items[1..];
      }
    }
  }

  // ----- ties -----

  /** Insertion behind the items of equal latency. */
  function InsertLate(x: SlowItem, items: seq<SlowItem>): (r: seq<SlowItem>)
    ensures |r| == |items| + 1
  {
    if items == [] || x.latencyMicros > items[0].latencyMicros then [x] + items
    else [items[0]] + InsertLate(x, items[1..])
  }

  lemma {:induction false} InsertLateAppend(x: SlowItem, items: seq<SlowItem>, last: SlowItem)
    ensures x.latencyMicros > last.latencyMicros ==> InsertLate(x, items + [last]) == InsertLate(x, items) + [last]
    ensures (forall k :: 0 <= k < |items| ==> x.latencyMicros <= items[k].latencyMicros) ==>
      InsertLate(x, items) == items + [x]
  {
    if items == [] {
      assert items + [last] == [last];
    } else {
      assert items == [items[0]] + items[1..];
      assert (items + [last])[1..] == items[1..] + [last];
      InsertLateAppend(x, items[1..], last);
    }
  }

  lemma {:induction false} InsertLateCommutes(y: SlowItem, x: SlowItem, items: seq<SlowItem>)
    ensures InsertDescendingItem(y, InsertLate(x, items)) == InsertLate(x, InsertDescendingItem(y, items))
  {
    if items != [] {
      var head, tail := items[0], items[1..];
      InsertLateCommutes(y, x, tail);
      assert items == [head] + tail;
      assert ([head] + InsertLate(x, tail))[1..] == InsertLate(x, tail);
      assert ([head] + InsertDescendingItem(y, tail))[1..] == InsertDescendingItem(y, tail);
      assert ([x] + items)[1..] == items && ([y] + items)[1..] == items;
    }
  }

  lemma {:induction false} SortItemsAppend(items: seq<SlowItem>, x: SlowItem)
    ensures SortItemsDescending(items + [x]) == InsertLate(x, SortItemsDescending(items))
  {
    if items == [] {
      assert items + [x] == [x];
    } else {
      assert (items + [x])[1..] == items[1..] + [x];
      SortItemsAppend(items[1..], x);
      InsertLateCommutes(items[0], x, SortItemsDescending(items[1..]));
    }
  }

  lemma {:induction false} ReverseAt(items: seq<SlowItem>, k: nat)
    requires k < |items|
    ensures Reverse(items)[k] == items[|items| - 1 - k]
  {
    if k < |items| - 1 {
      ReverseAt(items[1..], k);
    }
  }

  lemma {:induction false} ReverseInsertAscending(x: SlowItem, items: seq<SlowItem>)
    requires Ascending(items)
    ensures Reverse(InsertAscending(x, items)) == InsertLate(x, Reverse(items))
  {
    if items == [] || x.latencyMicros <= items[0].latencyMicros {
      forall k | 0 <= k < |items| ensures x.latencyMicros <= Reverse(items)[k].latencyMicros {
        ReverseAt(items, k);
      }
      InsertLateAppend(x, Reverse(items), x);
      assert ([x] + items)[1..] == items;
    } else {
      var head, tail := items[0], items[1..];
      ReverseInsertAscending(x, tail);
      InsertLateAppend(x, Reverse(tail), head);
      assert ([head] + InsertAscending(x, tail))[1..] == InsertAscending(x, tail);
    }
  }

  /** Reversing the ascending sort is the descending sort of the reversed list. */
  lemma {:induction false} ReversedSort(items: seq<SlowItem>)
    ensures Reverse(SortAscending(items)) == SortItemsDescending(Reverse(items))
  {
    if items != [] {
      ReversedSort(items[1..]);
      SortAscendingSorts(items[1..]);
      ReverseInsertAscending(items[0], SortAscending(items[1..]));
      SortItemsAppend(Reverse(items[1..]), items[0]);
    }
  }

  lemma {:induction false} ReverseLatencies(items: seq<SlowItem>)
    ensures SortDescending(Latencies(Reverse(items))) == SortDescending(Latencies(items))
  {
    if items != [] {
      ReverseLatencies(items[1..]);
      var front := Latencies(Reverse(items[1..]));
      assert Latencies(Reverse(items)) == front + [items[0].latencyMicros];
      SortAppend(front, items[0].latencyMicros);
      LatenciesTail(items);
    }
  }

  function OfLatency(items: seq<SlowItem>, latency: nat): seq<SlowItem> {
    if items == [] then []
    else if items[0].latencyMicros == latency then [items[0]] + OfLatency(items[1..], latency)
    else OfLatency(items[1..], latency)
  }

  lemma OfLatencyCons(x: SlowItem, items: seq<SlowItem>, latency: nat)
    ensures OfLatency([x] + items, latency)
      == if x.latencyMicros == latency then [x] + OfLatency(items, latency) else OfLatency(items, latency)
  {
    assert ([x] + items)[1..] == items;
  }

  lemma {:induction false} OfLatencyInsert(x: SlowItem, items: seq<SlowItem>, latency: nat)
    ensures OfLatency(InsertDescendingItem(x, items), latency) == OfLatency([x] + items, latency)
  {
    if items != [] && x.latencyMicros < items[0].latencyMicros {
      var head, tail := items[0], items[1..];
      OfLatencyInsert(x, tail, latency);
      OfLatencyCons(head, InsertDescendingItem(x, tail), latency);
      OfLatencyCons(x, tail, latency);
      OfLatencyCons(x, items, latency);
    }
  }

  lemma {:induction false} SortIsStable(items: seq<SlowItem>, latency: nat)
    ensures OfLatency(SortItemsDescending(items), latency) == OfLatency(items, latency)
  {
    if items != [] {
      SortIsStable(items[1..], latency);
      OfLatencyInsert(items[0], SortItemsDescending(items[1..]), latency);
      OfLatencyCons(items[0], SortItemsDescending(items[1..]), latency);
    }
  }

  lemma {:induction false} OfLatencyAppend(items: seq<SlowItem>, x: SlowItem, latency: nat)
    ensures OfLatency(items + [x], latency)
      == if x.latencyMicros == latency then OfLatency(items, latency) + [x] else OfLatency(items, latency)
  {
    if items == [] {
      assert items + [x] == [x];
    } else {
      assert (items + [x])[1..] == items[1..] + [x];
      OfLatencyAppend(items[1..], x, latency);
    }
  }

  lemma {:induction false} OfLatencyReverse(items: seq<SlowItem>, latency: nat)
    ensures OfLatency(Reverse(items), latency) == Reverse(OfLatency(items, latency))
  {
    if items != [] {
      OfLatencyReverse(items[1..], latency);
      OfLatencyAppend(Reverse(items[1..]), items[0], latency);
      var rest := OfLatency(items[1..], latency);
      if items[0].latencyMicros == latency {
        assert OfLatency(items, latency)[1..] == rest;
      }
    }
  }

  /** The window's sort keeps items of one latency in sample order; the heap's ascending sort and
      reversal lists those it holds in the opposite order. */
  lemma TiesAreReportedDifferently(items: seq<SlowItem>, latency: nat)
    ensures OfLatency(SortItemsDescending(items), latency) == OfLatency(items, latency)
    ensures OfLatency(Reverse(SortAscending(items)), latency) == Reverse(OfLatency(items, latency))
  {
    SortIsStable(items, latency);
    ReversedSort(items);
    SortIsStable(Reverse(items), latency);
    OfLatencyReverse(items, latency);
  }

  // ----- the fixed-size heap -----

  function TopLatencies(samples: seq<SlowItem>, cap: nat): seq<nat> {
    Take(SortDescending(Latencies(samples)), cap)
  }

  /** The heap holds items pushed so far, none more often than pushed, with the cap largest
      latencies. */
  ghost predicate KeepsTop(heap: seq<SlowItem>, pushed: seq<SlowItem>, cap: nat) {
    && |heap| <= cap
    && SortDescending(Latencies(heap)) == TopLatencies(pushed, cap)
    && multiset(heap) <= multiset(pushed)
  }

  lemma SortPushed(items: seq<SlowItem>, item: SlowItem, cap: nat)
    ensures SortDescending(Latencies(items + [item])) == Insert(item.latencyMicros, SortDescending(Latencies(items)))
    ensures TopLatencies(items + [item], cap) == Take(Insert(item.latencyMicros, TopLatencies(items, cap)), cap)
  {
    assert Latencies(items + [item]) == Latencies(items) + [item.latencyMicros];
    SortAppend(Latencies(items), item.latencyMicros);
    TakeInsert(item.latencyMicros, SortDescending(Latencies(items)), cap);
  }

  lemma SortWithoutItem(heap: seq<SlowItem>, i: nat)
    requires i < |heap|
    ensures SortDescending(Latencies(heap))
      == Insert(heap[i].latencyMicros, SortDescending(Latencies(heap[..i] + heap[i + 1..])))
  {
    SortWithout(Latencies(heap), i);
    assert Latencies(heap)[..i] + Latencies(heap)[i + 1..] == Latencies(heap[..i] + heap[i + 1..]);
  }

  lemma MultisetWithout(heap: seq<SlowItem>, i: nat)
    requires i < |heap|
    ensures multiset(heap) == multiset(heap[..i] + heap[i + 1..]) + multiset{heap[i]}
  {
    assert heap == heap[..i] + [heap[i]] + heap[i + 1..];
  }

  lemma PushGrows(heap: seq<SlowItem>, pushed: seq<SlowItem>, cap: nat, i: nat, item: SlowItem)
    requires i < |heap| <= cap && heap[i] == item
    requires KeepsTop(heap[..i] + heap[i + 1..], pushed, cap)
    ensures KeepsTop(heap, pushed + [item], cap)
  {
    SortWithoutItem(heap, i);
    SortPushed(pushed, item, cap);
    MultisetWithout(heap, i);
  }

  lemma PushReplaces(heap: seq<SlowItem>, pushed: seq<SlowItem>, cap: nat, i: nat, item: SlowItem)
    requires KeepsTop(heap, pushed, cap) && |heap| == cap && i < cap
    requires forall k :: 0 <= k < cap ==> heap[i].latencyMicros <= heap[k].latencyMicros
    ensures KeepsTop(if item.latencyMicros > heap[i].latencyMicros then heap[i := item] else heap, pushed + [item], cap)
  {
    SortPushed(pushed, item, cap);
    HeapStep(Latencies(heap), i, item.latencyMicros);
    assert Latencies(heap[i := item]) == Latencies(heap)[i := item.latencyMicros];
  }

  /** No element is smaller: the library's peek may show it. */
  ghost predicate IsSmallest(s: SlowItem, heap: multiset<SlowItem>) {
    s in heap && forall x :: x in heap ==> s.latencyMicros <= x.latencyMicros
  }

  /** What one push makes of the heap's content: a full heap replaces some smallest element by a
      larger item, and drops an item that is not larger. */
  ghost predicate Pushes(before: multiset<SlowItem>, item: SlowItem, cap: nat, after: multiset<SlowItem>) {
    if cap == 0 then after == before
    else if |before| < cap then after == before + multiset{item}
    else
      exists s ::
        && IsSmallest(s, before)
        && after == if item.latencyMicros > s.latencyMicros then before - multiset{s} + multiset{item} else before
  }

  /** The heap's contents while the samples are pushed; its layout is left open at every step. */
  ghost predicate IsHeapRun(samples: seq<SlowItem>, cap: nat, heaps: seq<multiset<SlowItem>>) {
    && 1 <= |heaps| <= |samples| + 1
    && heaps[0] == multiset{}
    && forall k :: 0 <= k < |heaps| - 1 ==> Pushes(heaps[k], samples[k], cap, heaps[k + 1])
  }

  /** The heap may hold this content after these pushes. */
  ghost predicate HeapOf(heap: multiset<SlowItem>, pushed: seq<SlowItem>, cap: nat) {
    exists heaps :: IsHeapRun(pushed, cap, heaps) && |heaps| == |pushed| + 1 && heaps[|pushed|] == heap
  }

  lemma PushContinues(before: multiset<SlowItem>, pushed: seq<SlowItem>, item: SlowItem, cap: nat,
                      after: multiset<SlowItem>)
    requires HeapOf(before, pushed, cap) && Pushes(before, item, cap, after)
    ensures HeapOf(after, pushed + [item], cap)
  {
    var heaps :| IsHeapRun(pushed, cap, heaps) && |heaps| == |pushed| + 1 && heaps[|pushed|] == before;
    assert IsHeapRun(pushed + [item], cap, heaps + [after]);
  }

  lemma Without(heap: seq<SlowItem>, item: SlowItem) returns (i: nat)
    requires item in multiset(heap)
    ensures i < |heap| && heap[i] == item
    ensures multiset(heap[..i] + heap[i + 1..]) == multiset(heap) - multiset{item}
  {
    i :| 0 <= i < |heap| && heap[i] == item;
    MultisetWithout(heap, i);
  }

  /** In every layout the heap keeps the cap largest latencies. */
  lemma {:induction false} RunKeepsTop(samples: seq<SlowItem>, cap: nat, heaps: seq<multiset<SlowItem>>,
                                       n: nat, heap: seq<SlowItem>)
    requires IsHeapRun(samples, cap, heaps) && n < |heaps| && multiset(heap) == heaps[n]
    ensures KeepsTop(heap, samples[..n], cap)
    decreases n, 0
  {
    if n == 0 {
      assert |heap| == |multiset(heap)| == 0;
    } else {
      var item := samples[n - 1];
      assert samples[..n] == samples[..n - 1] + [item];
      assert Pushes(heaps[n - 1], item, cap, heaps[n]);
      if cap == 0 {
        RunKeepsTop(samples, cap, heaps, n - 1, heap);
        SortPushed(samples[..n - 1], item, cap);
      } else if |heaps[n - 1]| < cap {
        var i := Without(heap, item);
        var was := heap[..i] + heap[i + 1..];
        RunKeepsTop(samples, cap, heaps, n - 1, was);
        PushGrows(heap, samples[..n - 1], cap, i, item);
      } else {
        FullHeapKeepsTop(samples, cap, heaps, n, heap);
      }
    }
  }

  lemma {:induction false} FullHeapKeepsTop(samples: seq<SlowItem>, cap: nat, heaps: seq<multiset<SlowItem>>,
                                            n: nat, heap: seq<SlowItem>)
    requires IsHeapRun(samples, cap, heaps) && 0 < n < |heaps| && multiset(heap) == heaps[n]
    requires 0 < cap <= |heaps[n - 1]|
    ensures KeepsTop(heap, samples[..n - 1] + [samples[n - 1]], cap)
    decreases n - 1, 1
  {
    var i, was := FullHeapStep(heaps[n - 1], samples[n - 1], cap, heap);
    RunKeepsTop(samples, cap, heaps, n - 1, was);
    PushReplaces(was, samples[..n - 1], cap, i, samples[n - 1]);
  }

  /** A full heap before the push that made `heap` of it. */
  lemma FullHeapStep(before: multiset<SlowItem>, item: SlowItem, cap: nat, heap: seq<SlowItem>)
    returns (i: nat, was: seq<SlowItem>)
    requires 0 < cap <= |before| && Pushes(before, item, cap, multiset(heap))
    ensures multiset(was) == before && |was| == |before| && i < |was|
    ensures forall k :: 0 <= k < |was| ==> was[i].latencyMicros <= was[k].latencyMicros
    ensures heap == if item.latencyMicros > was[i].latencyMicros then was[i := item] else was
  {
    var s :| IsSmallest(s, before) && multiset(heap)
      == if item.latencyMicros > s.latencyMicros then before - multiset{s} + multiset{item} else before;
    if item.latencyMicros > s.latencyMicros {
      i, was := Undone(heap, item, s, before);
    } else {
      was := heap;
      i := Without(heap, s);
    }
    SmallestAt(was, s, i);
  }

  lemma HeapKeepsTop(heap: seq<SlowItem>, pushed: seq<SlowItem>, cap: nat)
    requires HeapOf(multiset(heap), pushed, cap)
    ensures KeepsTop(heap, pushed, cap)
  {
    var heaps :| IsHeapRun(pushed, cap, heaps) && |heaps| == |pushed| + 1 && heaps[|pushed|] == multiset(heap);
    RunKeepsTop(pushed, cap, heaps, |pushed|, heap);
    assert pushed[..|pushed|] == pushed;
  }

  lemma PutAt(heap: seq<SlowItem>, i: nat, s: SlowItem) returns (was: seq<SlowItem>)
    requires i < |heap|
    ensures |was| == |heap| && was[i] == s && was[i := heap[i]] == heap
    ensures multiset(was) == multiset(heap[..i] + heap[i + 1..]) + multiset{s}
  {
    was := heap[..i] + [s] + heap[i + 1..];
    MultisetWithout(was, i);
    assert was[..i] == heap[..i] && was[i + 1..] == heap[i + 1..];
  }

  lemma TakenBack(before: multiset<SlowItem>, s: SlowItem, item: SlowItem)
    requires s in before
    ensures (before - multiset{s} + multiset{item}) - multiset{item} + multiset{s} == before
  {
  }

  lemma Undone(heap: seq<SlowItem>, item: SlowItem, s: SlowItem, before: multiset<SlowItem>)
    returns (i: nat, was: seq<SlowItem>)
    requires s in before && multiset(heap) == before - multiset{s} + multiset{item}
    ensures i < |heap| == |was| && was[i] == s && was[i := item] == heap && multiset(was) == before
  {
    i := Without(heap, item);
    was := PutAt(heap, i, s);
    TakenBack(before, s, item);
  }

  lemma SmallestAt(heap: seq<SlowItem>, s: SlowItem, i: nat)
    requires i < |heap| && heap[i] == s && IsSmallest(s, multiset(heap))
    ensures |multiset(heap)| == |heap|
    ensures forall k :: 0 <= k < |heap| ==> heap[i].latencyMicros <= heap[k].latencyMicros
  {
    assert forall k :: 0 <= k < |heap| ==> heap[k] in multiset(heap);
  }

  /** `heap` in whatever order the library keeps it. `pushed` records every item ever pushed. */
  class FixedMinHeap {
    const cap: nat
    var heap: seq<SlowItem>
    ghost var pushed: seq<SlowItem>

    ghost predicate Valid()
      reads this
    {
      HeapOf(multiset(heap), pushed, cap)
    }

    constructor (cap: nat)
      ensures Valid() && this.cap == cap && pushed == []
    {
      this.cap := cap;
      heap := [];
      pushed := [];
      new;
      assert IsHeapRun(pushed, cap, [multiset{}]);
    }

    /** The library's peek: some element no other is smaller than. */
    method Smallest() returns (i: nat)
      requires heap != []
      ensures i < |heap| && forall k :: 0 <= k < |heap| ==> heap[i].latencyMicros <= heap[k].latencyMicros
    {
      i := 0;
      for j := 1 to |heap|
        invariant i < |heap|
        invariant forall k :: 0 <= k < j ==> heap[i].latencyMicros <= heap[k].latencyMicros
      {
        if heap[j].latencyMicros < heap[i].latencyMicros {
          i := j;
        }
      }
    }

    method Push(item: SlowItem)
      requires Valid()
      modifies this
      ensures Valid() && pushed == old(pushed) + [item]
      ensures Pushes(old(multiset(heap)), item, cap, multiset(heap))
      ensures KeepsTop(heap, pushed, cap)
    {
      pushed := pushed + [item];
      ghost var before := multiset(heap);
      if cap == 0 {
        PushContinues(before, old(pushed), item, cap, before);
        HeapKeepsTop(heap, pushed, cap);
        return;
      }
      if |heap| < cap {
        heap := heap + [item];
      } else {
        var i := Smallest();
        assert IsSmallest(heap[i], before);
        if item.latencyMicros > heap[i].latencyMicros {
          heap := heap[i := item];
        }
      }
      PushContinues(before, old(pushed), item, cap, multiset(heap));
      HeapKeepsTop(heap, pushed, cap);
    }

    /** Sort ascending, then reverse. */
    method ToSortedDesc() returns (v: seq<SlowItem>)
      requires Valid()
      ensures Reports(v, pushed, cap)
      ensures TopList(v, pushed, cap)
    {
      v := SortAscending(heap);
      v := Reverse(v);
      ReportIsTopList(heap, pushed, cap);
    }
  }

  // ----- the stream and the window agree -----

  /** `v` lists samples, none more often than it occurs, with the `cap` largest latencies in
      descending order. */
  predicate TopList(v: seq<SlowItem>, samples: seq<SlowItem>, cap: nat) {
    Latencies(v) == TopLatencies(samples, cap) && multiset(v) <= multiset(samples)
  }

  /** The window's sort-and-truncate is a top list too. */
  lemma WindowIsTopList(samples: seq<SlowItem>, top: nat)
    ensures TopList(WindowSlowest(samples, top), samples, top)
  {
    SortItemsDescendingLatencies(samples);
    SortsPermute(samples);
    var sorted := SortItemsDescending(samples);
    if |sorted| > top {
      assert Latencies(sorted[..top]) == Latencies(sorted)[..top];
      assert sorted == sorted[..top] + sorted[top..];
    }
  }

  /** The stream may report this list for these samples. */
  ghost predicate Reports(v: seq<SlowItem>, samples: seq<SlowItem>, cap: nat) {
    exists heap :: HeapOf(multiset(heap), samples, cap) && v == Reverse(SortAscending(heap))
  }

  lemma ReportIsTopList(heap: seq<SlowItem>, samples: seq<SlowItem>, cap: nat)
    requires HeapOf(multiset(heap), samples, cap)
    ensures TopList(Reverse(SortAscending(heap)), samples, cap)
    ensures multiset(Reverse(SortAscending(heap))) == multiset(heap)
  {
    HeapKeepsTop(heap, samples, cap);
    SortsPermute(heap);
    ReversePermutes(SortAscending(heap));
    ReversedSort(heap);
    SortItemsDescendingLatencies(Reverse(heap));
    ReverseLatencies(heap);
  }

  /** What the stream reports after any pushes and the window summary of the same samples show the
      same latencies in the same order. */
  lemma StreamAgreesWithWindow(v: seq<SlowItem>, samples: seq<SlowItem>, cap: nat)
    requires TopList(v, samples, cap)
    ensures Latencies(v) == Latencies(WindowSlowest(samples, cap))
  {
    WindowIsTopList(samples, cap);
  }

  // ----- which samples the heap keeps -----

  function AtLeast(ls: seq<nat>, l: nat): nat {
    if ls == [] then 0 else AtLeast(ls[1..], l) + if ls[0] >= l then 1 else 0
  }

  lemma {:induction false} AtLeastConcat(a: seq<nat>, b: seq<nat>, l: nat)
    ensures AtLeast(a + b, l) == AtLeast(a, l) + AtLeast(b, l)
  {
    if a == [] {
      assert a + b == b;
    } else {
      assert (a + b)[1..] == a[1..] + b;
      AtLeastConcat(a[1..], b, l);
    }
  }

  lemma {:induction false} AtLeastBound(ls: seq<nat>, l: nat)
    ensures AtLeast(ls, l) <= |ls|
  {
    if ls != [] {
      AtLeastBound(ls[1..], l);
    }
  }

  lemma {:induction false} AtLeastInsert(x: nat, ls: seq<nat>, l: nat)
    ensures AtLeast(Insert(x, ls), l) == AtLeast(ls, l) + if x >= l then 1 else 0
  {
    if ls != [] && x < ls[0] {
      AtLeastInsert(x, ls[1..], l);
    }
  }

  lemma {:induction false} AtLeastSorted(ls: seq<nat>, l: nat)
    ensures AtLeast(SortDescending(ls), l) == AtLeast(ls, l)
  {
    if ls != [] {
      AtLeastSorted(ls[1..], l);
      AtLeastInsert(ls[0], SortDescending(ls[1..]), l);
    }
  }

  lemma {:induction false} AtLeastDescending(ls: seq<nat>, l: nat, n: nat)
    requires Descending(ls)
    ensures AtLeast(ls, l) >= n <==> |ls| >= n && forall k :: 0 <= k < n ==> ls[k] >= l
  {
    if ls != [] && n > 0 {
      AtLeastDescending(ls[1..], l, if ls[0] >= l then n - 1 else 1);
      assert forall k :: 1 <= k < |ls| ==> ls[k] == ls[1..][k - 1];
    }
  }

  /** `cap` samples are as slow as `l` exactly when all of a full top are. */
  lemma TopAtLeast(samples: seq<SlowItem>, cap: nat, l: nat)
    ensures AtLeast(Latencies(samples), l) >= cap <==>
      |TopLatencies(samples, cap)| == cap && forall k :: 0 <= k < cap ==> TopLatencies(samples, cap)[k] >= l
  {
    var sorted := SortDescending(Latencies(samples));
    SortDescendingSorts(Latencies(samples));
    AtLeastSorted(Latencies(samples), l);
    AtLeastDescending(sorted, l, cap);
  }

  /** Fewer than `cap` samples as slow as this one came before it. */
  predicate Admitted(samples: seq<SlowItem>, i: nat, cap: nat)
    requires i < |samples|
  {
    AtLeast(Latencies(samples[..i]), samples[i].latencyMicros) < cap
  }

  lemma {:induction false} SortMembers(xs: seq<nat>, x: nat)
    ensures x in SortDescending(xs) <==> x in xs
  {
    if xs != [] {
      SortMembers(xs[1..], x);
      InsertMembers(xs[0], SortDescending(xs[1..]), x);
    }
  }

  lemma {:induction false} InsertMembers(y: nat, sorted: seq<nat>, x: nat)
    ensures x in Insert(y, sorted) <==> x == y || x in sorted
  {
    if sorted != [] && y < sorted[0] {
      InsertMembers(y, sorted[1..], x);
    }
  }

  lemma {:induction false} Layout(heap: multiset<SlowItem>) returns (s: seq<SlowItem>)
    ensures multiset(s) == heap
    decreases |heap|
  {
    if heap == multiset{} {
      s := [];
    } else {
      var x :| x in heap;
      s := Layout(heap - multiset{x});
      s := s + [x];
    }
  }

  /** The heap's latencies are the top ones. */
  lemma HeapLatencies(samples: seq<SlowItem>, cap: nat, heaps: seq<multiset<SlowItem>>, n: nat)
    requires IsHeapRun(samples, cap, heaps) && n < |heaps|
    ensures |heaps[n]| == |TopLatencies(samples[..n], cap)|
    ensures forall x :: x in heaps[n] ==> x.latencyMicros in TopLatencies(samples[..n], cap)
    ensures forall l :: l in TopLatencies(samples[..n], cap) ==> exists x :: x in heaps[n] && x.latencyMicros == l
  {
    var layout := Layout(heaps[n]);
    var ls, top := Latencies(layout), TopLatencies(samples[..n], cap);
    RunKeepsTop(samples, cap, heaps, n, layout);
    assert |heaps[n]| == |multiset(layout)| == |layout|;
    forall x | x in heaps[n] ensures x.latencyMicros in top {
      assert x in multiset(layout);
      var i :| 0 <= i < |layout| && layout[i] == x;
      assert ls[i] in ls;
      SortMembers(ls, ls[i]);
    }
    forall l | l in top ensures exists x :: x in heaps[n] && x.latencyMicros == l {
      SortMembers(ls, l);
      var i :| 0 <= i < |ls| && ls[i] == l;
      assert layout[i] in multiset(layout);
    }
  }

  /** A push takes an item in exactly when fewer than `cap` earlier ones were as slow. */
  lemma PushAdmits(samples: seq<SlowItem>, cap: nat, heaps: seq<multiset<SlowItem>>, n: nat, l: nat)
    requires IsHeapRun(samples, cap, heaps) && n < |heaps|
    ensures AtLeast(Latencies(samples[..n]), l) < cap
      <==> |heaps[n]| < cap || exists x :: x in heaps[n] && x.latencyMicros < l
  {
    var top := TopLatencies(samples[..n], cap);
    HeapLatencies(samples, cap, heaps, n);
    TopAtLeast(samples[..n], cap, l);
    if |top| == cap {
      if x :| x in heaps[n] && x.latencyMicros < l {
        assert x.latencyMicros in top;
      } else {
        assert forall k :: 0 <= k < cap ==> top[k] in top;
      }
    }
  }

  lemma PushOnlyAdds(before: multiset<SlowItem>, item: SlowItem, cap: nat, after: multiset<SlowItem>, x: SlowItem)
    requires Pushes(before, item, cap, after) && x in after && x !in before
    ensures x == item && cap > 0
    ensures |before| < cap || exists y :: y in before && y.latencyMicros < x.latencyMicros
  {
  }

  /** Whatever the heap keeps was admitted. */
  lemma {:induction false} KeptWasAdmitted(samples: seq<SlowItem>, cap: nat, heaps: seq<multiset<SlowItem>>,
                                           n: nat, x: SlowItem)
    returns (j: nat)
    requires IsHeapRun(samples, cap, heaps) && n < |heaps| && x in heaps[n]
    ensures j < n && samples[j] == x && Admitted(samples, j, cap)
  {
    assert n > 0;
    if x in heaps[n - 1] {
      j := KeptWasAdmitted(samples, cap, heaps, n - 1, x);
    } else {
      j := n - 1;
      PushOnlyAdds(heaps[n - 1], samples[n - 1], cap, heaps[n], x);
      PushAdmits(samples, cap, heaps, n - 1, x.latencyMicros);
    }
  }

  lemma {:induction false} SomeSmallest(heap: multiset<SlowItem>) returns (s: SlowItem)
    requires heap != multiset{}
    ensures IsSmallest(s, heap)
    decreases |heap|
  {
    var x :| x in heap;
    var rest := heap - multiset{x};
    s := x;
    if rest != multiset{} {
      var t := SomeSmallest(rest);
      if t.latencyMicros < x.latencyMicros {
        s := t;
      }
    }
    forall y | y in heap ensures s.latencyMicros <= y.latencyMicros {
      assert y == x || y in rest;
    }
  }

  lemma SomePush(before: multiset<SlowItem>, item: SlowItem, cap: nat) returns (after: multiset<SlowItem>)
    ensures Pushes(before, item, cap, after)
    ensures 0 < cap && (|before| < cap || exists x :: x in before && x.latencyMicros < item.latencyMicros) ==>
      item in after
  {
    if cap == 0 {
      after := before;
    } else if |before| < cap {
      after := before + multiset{item};
    } else {
      var s := SomeSmallest(before);
      after := if item.latencyMicros > s.latencyMicros then before - multiset{s} + multiset{item} else before;
    }
  }

  lemma {:induction false} SomeRun(samples: seq<SlowItem>, cap: nat, n: nat) returns (heaps: seq<multiset<SlowItem>>)
    requires n <= |samples|
    ensures IsHeapRun(samples, cap, heaps) && |heaps| == n + 1
  {
    heaps := [multiset{}];
    if n > 0 {
      heaps := SomeRun(samples, cap, n - 1);
      var after := SomePush(heaps[n - 1], samples[n - 1], cap);
      heaps := heaps + [after];
    }
  }

  lemma RunExtends(samples: seq<SlowItem>, cap: nat, heaps: seq<multiset<SlowItem>>, after: multiset<SlowItem>)
    requires IsHeapRun(samples, cap, heaps) && |heaps| <= |samples|
    requires Pushes(heaps[|heaps| - 1], samples[|heaps| - 1], cap, after)
    ensures IsHeapRun(samples, cap, heaps + [after])
  {
  }

  /** While a latency stays in the top, the heap can keep any one admitted item that has it. */
  lemma {:induction false} AdmittedCanStay(samples: seq<SlowItem>, cap: nat, j: nat, n: nat)
    returns (heaps: seq<multiset<SlowItem>>)
    requires j < n <= |samples| && Admitted(samples, j, cap)
    requires samples[j].latencyMicros in TopLatencies(samples, cap)
    ensures IsHeapRun(samples, cap, heaps) && |heaps| == n + 1 && samples[j] in heaps[n]
    decreases n
  {
    var after;
    if n == j + 1 {
      heaps := SomeRun(samples, cap, j);
      PushAdmits(samples, cap, heaps, j, samples[j].latencyMicros);
      after := SomePush(heaps[j], samples[j], cap);
    } else {
      heaps := AdmittedCanStay(samples, cap, j, n - 1);
      after := PushAround(samples, cap, heaps, samples[j]);
    }
    RunExtends(samples, cap, heaps, after);
    heaps := heaps + [after];
  }

  ghost predicate HasOtherSmallest(heap: multiset<SlowItem>, x: SlowItem) {
    exists y :: y in heap - multiset{x} && IsSmallest(y, heap)
  }

  /** A push that spares `x`. */
  lemma PushAround(samples: seq<SlowItem>, cap: nat, heaps: seq<multiset<SlowItem>>, x: SlowItem)
    returns (after: multiset<SlowItem>)
    requires IsHeapRun(samples, cap, heaps) && |heaps| <= |samples|
    requires x in heaps[|heaps| - 1] && x.latencyMicros in TopLatencies(samples, cap)
    ensures Pushes(heaps[|heaps| - 1], samples[|heaps| - 1], cap, after) && x in after
  {
    var n := |heaps| - 1;
    if cap > 0 && HasOtherSmallest(heaps[n], x) {
      after := PushOver(heaps[n], samples[n], cap, x);
    } else {
      after := SomePush(heaps[n], samples[n], cap);
      if x !in after {
        OnlyVictim(samples, cap, heaps, x, after);
      }
    }
  }

  lemma PushOver(before: multiset<SlowItem>, item: SlowItem, cap: nat, x: SlowItem) returns (after: multiset<SlowItem>)
    requires cap > 0 && x in before && HasOtherSmallest(before, x)
    ensures Pushes(before, item, cap, after) && x in after
  {
    var y :| y in before - multiset{x} && IsSmallest(y, before);
    after := if |before| < cap then before + multiset{item}
             else if item.latencyMicros > y.latencyMicros then before - multiset{y} + multiset{item} else before;
  }

  /** If `x` has to go, everything the heap holds is slower, and so is the top from then on. */
  lemma OnlyVictim(samples: seq<SlowItem>, cap: nat, heaps: seq<multiset<SlowItem>>, x: SlowItem,
                   after: multiset<SlowItem>)
    requires IsHeapRun(samples, cap, heaps) && |heaps| <= |samples|
    requires Pushes(heaps[|heaps| - 1], samples[|heaps| - 1], cap, after)
    requires x in heaps[|heaps| - 1] && x !in after
    requires cap > 0 ==> !HasOtherSmallest(heaps[|heaps| - 1], x)
    ensures x.latencyMicros !in TopLatencies(samples, cap)
  {
    var n := |heaps| - 1;
    HeapIsBounded(samples, cap, heaps, n);
    OthersAreLarger(heaps[n], samples[n], cap, x, after);
    SlowHeapStays(samples, cap, heaps + [after], n + 1, x.latencyMicros + 1);
  }

  lemma HeapIsBounded(samples: seq<SlowItem>, cap: nat, heaps: seq<multiset<SlowItem>>, n: nat)
    requires IsHeapRun(samples, cap, heaps) && n < |heaps|
    ensures |heaps[n]| <= cap
  {
    HeapLatencies(samples, cap, heaps, n);
  }

  lemma SlowHeapStays(samples: seq<SlowItem>, cap: nat, heaps: seq<multiset<SlowItem>>, n: nat, l: nat)
    requires IsHeapRun(samples, cap, heaps) && n < |heaps|
    requires |heaps[n]| == cap && forall y :: y in heaps[n] ==> y.latencyMicros >= l
    ensures forall t :: t in TopLatencies(samples, cap) ==> t >= l
  {
    PushAdmits(samples, cap, heaps, n, l);
    SlowTopStays(samples, n, cap, l);
  }

  lemma OthersAreLarger(before: multiset<SlowItem>, item: SlowItem, cap: nat, x: SlowItem, after: multiset<SlowItem>)
    requires x in before && |before| <= cap && Pushes(before, item, cap, after) && x !in after
    requires !HasOtherSmallest(before, x)
    ensures |after| == cap && forall y :: y in after ==> y.latencyMicros > x.latencyMicros
  {
    var s :| IsSmallest(s, before) && after
      == if item.latencyMicros > s.latencyMicros then before - multiset{s} + multiset{item} else before;
    assert s in before - multiset{x} || s == x;
    forall y | y in after ensures y.latencyMicros > x.latencyMicros {
      if y != item {
        assert y in before - multiset{x} && y in before;
        assert !IsSmallest(y, before);
      }
    }
  }

  /** Once `cap` samples are as slow as `l`, nothing faster is in the top. */
  lemma SlowTopStays(samples: seq<SlowItem>, n: nat, cap: nat, l: nat)
    requires n <= |samples| && AtLeast(Latencies(samples[..n]), l) >= cap
    ensures forall t :: t in TopLatencies(samples, cap) ==> t >= l
  {
    AtLeastConcat(Latencies(samples[..n]), Latencies(samples[n..]), l);
    assert Latencies(samples[..n]) + Latencies(samples[n..]) == Latencies(samples);
    TopAtLeast(samples, cap, l);
  }

  // ----- when the stream and the window list the same items -----

  lemma {:induction false} ReverseConcat(items: seq<SlowItem>, x: SlowItem)
    ensures Reverse(items + [x]) == [x] + Reverse(items)
  {
    if items == [] {
      assert items + [x] == [x];
    } else {
      assert (items + [x])[1..] == items[1..] + [x];
      ReverseConcat(items[1..], x);
    }
  }

  lemma {:induction false} ReverseTwice(items: seq<SlowItem>)
    ensures Reverse(Reverse(items)) == items
  {
    if items != [] {
      ReverseTwice(items[1..]);
      ReverseConcat(Reverse(items[1..]), items[0]);
    }
  }

  lemma {:induction false} SortOfSorted(items: seq<SlowItem>)
    requires Descending(Latencies(items))
    ensures SortItemsDescending(items) == items
  {
    if items != [] {
      LatenciesTail(items);
      assert forall k :: 0 <= k < |items| - 1 ==> Latencies(items)[1..][k] == Latencies(items)[k + 1];
      SortOfSorted(items[1..]);
      assert items[1..] != [] ==> Latencies(items)[0] >= Latencies(items)[1];
    }
  }

  /** Any descending order of the heap's content is reported in some layout. */
  lemma AnyOrderIsReported(v: seq<SlowItem>, samples: seq<SlowItem>, cap: nat)
    requires HeapOf(multiset(v), samples, cap) && Descending(Latencies(v))
    ensures Reports(v, samples, cap)
  {
    var layout := Reverse(v);
    ReversePermutes(v);
    ReversedSort(layout);
    ReverseTwice(v);
    SortOfSorted(v);
    assert v == Reverse(SortAscending(layout));
  }

  lemma Swapped(items: seq<SlowItem>, p: nat, q: nat) returns (v: seq<SlowItem>)
    requires p < |items| && q < |items| && items[p].latencyMicros == items[q].latencyMicros
    ensures |v| == |items| && v[p] == items[q]
    ensures Latencies(v) == Latencies(items) && multiset(v) == multiset(items)
  {
    v := items[p := items[q]][q := items[p]];
  }

  /** An admitted sample can be reported at any place of its latency. */
  lemma AdmittedCanBeReportedAt(samples: seq<SlowItem>, cap: nat, j: nat, p: nat) returns (v: seq<SlowItem>)
    requires j < |samples| && Admitted(samples, j, cap)
    requires p < |TopLatencies(samples, cap)| && TopLatencies(samples, cap)[p] == samples[j].latencyMicros
    ensures Reports(v, samples, cap) && p < |v| && v[p] == samples[j]
  {
    var x, n := samples[j], |samples|;
    var heaps := AdmittedCanStay(samples, cap, j, n);
    var layout := Layout(heaps[n]);
    HeapKeepsTop(layout, samples, cap);
    SortsPermute(layout);
    SortItemsDescendingLatencies(layout);
    SortDescendingSorts(Latencies(layout));
    var sorted := SortItemsDescending(layout);
    assert x in multiset(sorted);
    var q :| 0 <= q < |sorted| && sorted[q] == x;
    assert Latencies(sorted)[p] == Latencies(sorted)[q];
    v := Swapped(sorted, p, q);
    AnyOrderIsReported(v, samples, cap);
  }

  lemma {:induction false} InsertLateAt(x: SlowItem, items: seq<SlowItem>) returns (at: nat)
    ensures at <= |items| && InsertLate(x, items) == items[..at] + [x] + items[at..]
    ensures at < |items| ==> items[at].latencyMicros < x.latencyMicros
  {
    at := 0;
    if items != [] && x.latencyMicros <= items[0].latencyMicros {
      at := InsertLateAt(x, items[1..]);
      at := at + 1;
      assert items[..at] == [items[0]] + items[1..][..at - 1];
      assert items[at..] == items[1..][at - 1..];
    }
  }

  lemma PlaceIsAdmission(samples: seq<SlowItem>, l: nat, cap: nat, at: nat)
    requires at < cap && at <= |samples|
    requires at < |samples| ==> SortItemsDescending(samples)[at].latencyMicros < l
    ensures AtLeast(Latencies(samples), l) < cap
  {
    TopAtLeast(samples, cap, l);
    if at < |samples| {
      SortItemsDescendingLatencies(samples);
      assert Latencies(SortItemsDescending(samples))[at] == TopLatencies(samples, cap)[at];
    }
  }

  /** The window shows admitted samples only. */
  lemma {:induction false} WindowShowsAdmitted(samples: seq<SlowItem>, cap: nat, k: nat) returns (j: nat)
    requires k < cap && k < |samples|
    ensures j < |samples| && samples[j] == SortItemsDescending(samples)[k] && Admitted(samples, j, cap)
  {
    var n := |samples| - 1;
    var rest, x := samples[..n], samples[n];
    assert samples == rest + [x];
    SortItemsAppend(rest, x);
    var sorted := SortItemsDescending(rest);
    var at := InsertLateAt(x, sorted);
    if k == at {
      j := n;
      PlaceIsAdmission(rest, x.latencyMicros, cap, at);
    } else {
      j := WindowShowsAdmitted(rest, cap, if k < at then k else k - 1);
      assert samples[..j] == rest[..j];
    }
  }

  /** No reported latency is shared by two different admitted samples. */
  predicate NoAdmittedTie(samples: seq<SlowItem>, cap: nat) {
    forall i, j ::
      (0 <= i < |samples| && 0 <= j < |samples|
       && Admitted(samples, i, cap) && Admitted(samples, j, cap)
       && samples[i].latencyMicros == samples[j].latencyMicros
       && samples[i].latencyMicros in TopLatencies(samples, cap)) ==>
        samples[i] == samples[j]
  }

  /** The stream shows admitted samples only. */
  lemma StreamShowsAdmitted(v: seq<SlowItem>, samples: seq<SlowItem>, cap: nat, k: nat) returns (j: nat)
    requires Reports(v, samples, cap) && k < |v|
    ensures j < |samples| && samples[j] == v[k] && Admitted(samples, j, cap)
  {
    var heap :| HeapOf(multiset(heap), samples, cap) && v == Reverse(SortAscending(heap));
    var heaps :| IsHeapRun(samples, cap, heaps) && |heaps| == |samples| + 1 && heaps[|samples|] == multiset(heap);
    ReportIsTopList(heap, samples, cap);
    assert v[k] in multiset(v);
    j := KeptWasAdmitted(samples, cap, heaps, |samples|, v[k]);
  }

  lemma AgreesWithoutTie(v: seq<SlowItem>, samples: seq<SlowItem>, cap: nat)
    requires Reports(v, samples, cap) && NoAdmittedTie(samples, cap)
    ensures v == WindowSlowest(samples, cap)
  {
    var w, top := WindowSlowest(samples, cap), TopLatencies(samples, cap);
    assert Latencies(v) == Latencies(w) == top by {
      var heap :| HeapOf(multiset(heap), samples, cap) && v == Reverse(SortAscending(heap));
      ReportIsTopList(heap, samples, cap);
      WindowIsTopList(samples, cap);
    }
    assert |v| == |Latencies(v)| == |w|;
    forall k | 0 <= k < |v| ensures v[k] == w[k] {
      var i := StreamShowsAdmitted(v, samples, cap, k);
      var j := WindowShowsAdmitted(samples, cap, k);
      assert samples[i].latencyMicros == top[k] == samples[j].latencyMicros by {
        assert Latencies(v)[k] == Latencies(w)[k];
      }
    }
  }

  /** The stream is sure to list the window's items exactly when no reported latency is shared by two
      different samples each of which came after fewer than `cap` samples as slow: a tie below
      the cut does no harm, nor does one at the cut that comes late. */
  lemma ItemsAgreeIffNoAdmittedTie(samples: seq<SlowItem>, cap: nat)
    ensures (forall v :: Reports(v, samples, cap) ==> v == WindowSlowest(samples, cap)) <==> NoAdmittedTie(samples, cap)
  {
    if NoAdmittedTie(samples, cap) {
      forall v | Reports(v, samples, cap) ensures v == WindowSlowest(samples, cap) {
        AgreesWithoutTie(v, samples, cap);
      }
    } else {
      var i, j :| 0 <= i < |samples| && 0 <= j < |samples|
        && Admitted(samples, i, cap) && Admitted(samples, j, cap)
        && samples[i].latencyMicros == samples[j].latencyMicros
        && samples[i].latencyMicros in TopLatencies(samples, cap) && samples[i] != samples[j];
      var p :| 0 <= p < |TopLatencies(samples, cap)| && TopLatencies(samples, cap)[p] == samples[i].latencyMicros;
      var v1 := AdmittedCanBeReportedAt(samples, cap, i, p);
      var v2 := AdmittedCanBeReportedAt(samples, cap, j, p);
    }
  }

  /** A top of one always agrees: only the first of the slowest samples is admitted. */
  lemma TopOneAgrees(v: seq<SlowItem>, samples: seq<SlowItem>)
    requires Reports(v, samples, 1)
    ensures v == WindowSlowest(samples, 1)
  {
    forall i, j | 0 <= i < j < |samples| && samples[i].latencyMicros == samples[j].latencyMicros
      ensures !Admitted(samples, j, 1)
    {
      var before := Latencies(samples[..j]);
      AtLeastConcat(before[..i], before[i..], samples[j].latencyMicros);
      assert before == before[..i] + before[i..];
    }
    AgreesWithoutTie(v, samples, 1);
  }

  lemma {:induction false} FittingHeap(samples: seq<SlowItem>, cap: nat)
    requires |samples| <= cap
    ensures HeapOf(multiset(samples), samples, cap)
  {
    if samples == [] {
      assert IsHeapRun(samples, cap, [multiset{}]);
    } else {
      var n := |samples| - 1;
      FittingHeap(samples[..n], cap);
      assert samples == samples[..n] + [samples[n]];
      PushContinues(multiset(samples[..n]), samples[..n], samples[n], cap, multiset(samples));
    }
  }

  /** Tied items that all fit, not all the same: the window keeps their order and the stream may
      report the opposite, or any other. */
  lemma TiedItemsThatFit(samples: seq<SlowItem>, v: seq<SlowItem>, cap: nat)
    requires |samples| <= cap
    requires forall i, j :: 0 <= i < j < |samples| ==> samples[i].latencyMicros == samples[j].latencyMicros
    requires multiset(v) == multiset(samples)
    ensures Reports(v, samples, cap) && WindowSlowest(samples, cap) == samples
  {
    FittingHeap(samples, cap);
    SortOfSorted(samples);
    forall k | 0 <= k < |v| ensures v[k] in samples {
      assert v[k] in multiset(v);
    }
    AnyOrderIsReported(v, samples, cap);
  }

  // ----- purging the window -----

  datatype Timed<T> = Timed(at: nat, sample: T)

  predicate Expired(at: nat, now: nat, window: nat) {
    now - at > window
  }

  function Unexpired<T>(samples: seq<Timed<T>>, now: nat, window: nat): seq<Timed<T>> {
    if samples == [] then []
    else (if Expired(samples[0].at, now, window) then [] else [samples[0]]) + Unexpired(samples[1..], now, window)
  }

  predicate ExpiredComeFirst<T>(samples: seq<Timed<T>>, now: nat, window: nat) {
    forall j, k :: 0 <= j < k < |samples| && Expired(samples[k].at, now, window) ==> Expired(samples[j].at, now, window)
  }

  /** `after` is what popping expired samples off the front leaves. */
  ghost predicate Purged<T>(samples: seq<Timed<T>>, after: seq<Timed<T>>, now: nat, window: nat) {
    |after| <= |samples| && PurgedAt(samples, after, |samples| - |after|, now, window)
  }

  ghost predicate PurgedAt<T>(samples: seq<Timed<T>>, after: seq<Timed<T>>, n: nat, now: nat, window: nat)
    requires n <= |samples|
  {
    && after == samples[n..]
    && (forall k :: 0 <= k < n ==> samples[k].at + window < now)
    && (n < |samples| ==> samples[n].at + window >= now)
  }

  method PurgeFront<T>(samples: seq<Timed<T>>, now: nat, window: nat) returns (after: seq<Timed<T>>)
    ensures Purged(samples, after, now, window)
  {
    after := samples;
    ghost var n := 0;
    while after != [] && Expired(after[0].at, now, window)
      invariant 0 <= n <= |samples| && after == samples[n..]
      invariant forall k :: 0 <= k < n ==> Expired(samples[k].at, now, window)
      decreases |after|
    {
      after := after[1..];
      n := n + 1;
    }
    assert PurgedAt(samples, after, n, now, window);
  }

  /** Popping from the front removes exactly the expired samples iff they all come first: always so
      when samples arrive in time order, and a late sample keeps older ones behind it alive. */
  lemma PurgeIsExact<T>(samples: seq<Timed<T>>, after: seq<Timed<T>>, now: nat, window: nat)
    requires Purged(samples, after, now, window)
    ensures after == Unexpired(samples, now, window) <==> ExpiredComeFirst(samples, now, window)
    ensures (forall j, k :: 0 <= j < k < |samples| ==> samples[j].at <= samples[k].at) ==>
      after == Unexpired(samples, now, window)
  {
    var n := |samples| - |after|;
    UnexpiredSkips(samples, n, now, window);
    UnexpiredIsAll(after, now, window);
    AliveBehind(samples, n, now, window);
    assert forall k :: 0 <= k < |after| ==> after[k] == samples[n + k];
    assert forall k :: n <= k < |samples| ==> samples[k] == after[k - n];
  }

  /** After the first live sample nothing is expired iff the expired ones come first. */
  lemma AliveBehind<T>(samples: seq<Timed<T>>, n: nat, now: nat, window: nat)
    requires n <= |samples|
    requires forall k :: 0 <= k < n ==> Expired(samples[k].at, now, window)
    requires n < |samples| ==> !Expired(samples[n].at, now, window)
    ensures ExpiredComeFirst(samples, now, window)
      <==> forall k :: n <= k < |samples| ==> !Expired(samples[k].at, now, window)
  {
  }

  lemma {:induction false} UnexpiredSkips<T>(samples: seq<Timed<T>>, n: nat, now: nat, window: nat)
    requires n <= |samples| && forall k :: 0 <= k < n ==> Expired(samples[k].at, now, window)
    ensures Unexpired(samples, now, window) == Unexpired(samples[n..], now, window)
  {
    if n > 0 {
      UnexpiredSkips(samples[1..], n - 1, now, window);
      assert samples[1..][n - 1..] == samples[n..];
    }
  }

  lemma {:induction false} UnexpiredIsAll<T>(samples: seq<Timed<T>>, now: nat, window: nat)
    ensures |Unexpired(samples, now, window)| <= |samples|
    ensures Unexpired(samples, now, window) == samples
      <==> forall k :: 0 <= k < |samples| ==> !Expired(samples[k].at, now, window)
  {
    if samples != [] {
      UnexpiredIsAll(samples[1..], now, window);
      assert samples == [samples[0]] + samples[1..];
      assert forall k :: 1 <= k < |samples| ==> samples[k] == samples[1..][k - 1];
      if Expired(samples[0].at, now, window) {
        assert |Unexpired(samples, now, window)| < |samples|;
      } else {
        assert Unexpired(samples, now, window)[1..] == Unexpired(samples[1..], now, window);
      }
    }
  }

  class SlidingWindowMetrics {
    const window: nat
    var rpcSamples: seq<Timed<SlowItem>>
    var miningSamples: seq<Timed<u64>>
    var errorSamples: seq<Timed<string>>
    var capacitySamples: seq<Timed<u64>>

    constructor (window: nat)
      ensures this.window == window
      ensures rpcSamples == [] && miningSamples == [] && errorSamples == [] && capacitySamples == []
    {
      this.window := window;
      rpcSamples, miningSamples, errorSamples, capacitySamples := [], [], [], [];
    }

    method PurgeExpired(now: nat)
      modifies this
      ensures Purged(old(rpcSamples), rpcSamples, now, window)
      ensures Purged(old(miningSamples), miningSamples, now, window)
      ensures Purged(old(errorSamples), errorSamples, now, window)
      ensures Purged(old(capacitySamples), capacitySamples, now, window)
    {
      var rpc := PurgeFront(rpcSamples, now, window);
      var mining := PurgeFront(miningSamples, now, window);
      var errors := PurgeFront(errorSamples, now, window);
      var capacity := PurgeFront(capacitySamples, now, window);
      rpcSamples, miningSamples, errorSamples, capacitySamples := rpc, mining, errors, capacity;
    }
  }

  // ----- capacity statistics -----

  const U128_MAX: nat := 0xFFFF_FFFF_FFFF_FFFF_FFFF_FFFF_FFFF_FFFF

  function Sum(xs: seq<u64>): nat {
    if xs == [] then 0 else Sum(xs[..|xs| - 1]) + xs[|xs| - 1]
  }

  lemma {:induction false} SumBound(xs: seq<u64>)
    ensures Sum(xs) <= |xs| * U64_MAX
  {
    if xs != [] {
      SumBound(xs[..|xs| - 1]);
    }
  }

  lemma ProductFits(n: nat)
    requires n <= U64_MAX
    ensures n * U64_MAX <= U128_MAX
  {
    assert n * U64_MAX <= U64_MAX * U64_MAX;
  }

  class CapacityStats {
    var capacityMin: Option<u64>
    var capacitySum: nat
    var capacityCount: u64
    ghost var recorded: seq<u64>

    /** Sum and count saturate at the ends of their types. */
    ghost predicate Valid()
      reads this
    {
      && capacityCount == Min(|recorded|, U64_MAX)
      && capacitySum == Min(Sum(recorded), U128_MAX)
      && (capacityMin.None? <==> recorded == [])
      && (capacityMin.Some? ==> capacityMin.value in recorded)
      && (capacityMin.Some? ==> forall i :: 0 <= i < |recorded| ==> capacityMin.value <= recorded[i])
    }

    constructor ()
      ensures Valid() && recorded == []
    {
      capacityMin, capacitySum, capacityCount, recorded := None, 0, 0, [];
    }

    method RecordCapacity(capacity: u64)
      requires Valid()
      modifies this
      ensures Valid() && recorded == old(recorded) + [capacity]
    {
      recorded := recorded + [capacity];
      assert recorded[..|recorded| - 1] == old(recorded);
      if capacityMin.Some? {
        if capacity < capacityMin.value {
          capacityMin := Some(capacity);
        }
      } else {
        capacityMin := Some(capacity);
      }
      capacitySum := if capacitySum + capacity <= U128_MAX then capacitySum + capacity else U128_MAX;
      capacityCount := if capacityCount < U64_MAX then capacityCount + 1 else U64_MAX;
    }

    /** Up to 2^64 - 1 records the floor of the true mean, never below the minimum; beyond that the
        divisor stays put and the cast to 64 bits may wrap. */
    method CapacityAvg() returns (avg: Option<u64>)
      requires Valid()
      ensures avg.None? <==> recorded == []
      ensures avg.Some? ==>
        avg.value == (Min(Sum(recorded), U128_MAX) / Min(|recorded|, U64_MAX)) % 0x1_0000_0000_0000_0000
      ensures avg.Some? && |recorded| <= U64_MAX ==>
        avg.value == Sum(recorded) / |recorded| && capacityMin.value <= avg.value
    {
      if capacityCount == 0 {
        return None;
      }
      ghost var n := |recorded|;
      if n <= U64_MAX {
        MeanIsExact(recorded, capacityMin.value);
      }
      avg := Some((capacitySum / capacityCount) % 0x1_0000_0000_0000_0000);
    }
  }

  /** While the count has not saturated, the sum has not either, and the mean fits 64 bits. */
  lemma MeanIsExact(xs: seq<u64>, m: nat)
    requires 0 < |xs| <= U64_MAX
    requires forall i :: 0 <= i < |xs| ==> m <= xs[i]
    ensures Sum(xs) <= U128_MAX
    ensures m <= Sum(xs) / |xs| <= U64_MAX
  {
    SumBound(xs);
    ProductFits(|xs|);
    MeanAtLeastMin(xs, m);
    MeanBounds(Sum(xs), |xs|, m);
  }

  lemma {:induction false} MeanAtLeastMin(xs: seq<u64>, m: nat)
    requires forall i :: 0 <= i < |xs| ==> m <= xs[i]
    ensures Sum(xs) >= |xs| * m
  {
    if xs != [] {
      var n := |xs| - 1;
      MeanAtLeastMin(xs[..n], m);
      assert (n + 1) * m == n * m + m;
    }
  }

  lemma MeanBounds(sum: nat, n: nat, m: nat)
    requires n > 0 && n * m <= sum <= n * U64_MAX
    ensures m <= sum / n <= U64_MAX
  {
    var q := sum / n;
    assert sum == q * n + sum % n;
    assert (q + 1) * n == q * n + n;
    CancelMul(m, q + 1, n);
    CancelMul(q, U64_MAX + 1, n);
  }

  lemma CancelMul(a: nat, b: nat, n: nat)
    requires a * n < b * n
    ensures a < b
  {
  }
}
