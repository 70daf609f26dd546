/** The base-fee cache (src/services/gas_price.rs, get_effective_base_fee). The lock is not held
    after the cache is read, so concurrent calls interleave between reading the cache, testing what
    was read, the network reply and writing the cache. Time is in milliseconds on a clock that never runs backwards. */
module FeeCache {
  import opened Primitives
  import FeeFloor

  const IGRA_BLOCK_TIME: nat := 1000

  datatype CachedFee = CachedFee(fee: nat, fetchedAt: nat)

  /** The cached fee a call at `now` may return without a fetch. */
  function Fresh(cache: Option<CachedFee>, now: nat): Option<nat> {
    if cache.Some? && now - cache.value.fetchedAt < IGRA_BLOCK_TIME then Some(cache.value.fee) else None
  }

  // ----- all interleavings of any number of callers -----

  datatype Caller =
    | Idle
    | Looking(seen: Option<CachedFee>, readAt: nat)
    | Fetching
    | Storing(network: nat)

  /** A write to the cache, with the network fee it came from. */
  datatype Store = Store(fee: nat, at: nat, network: nat)

  /** A successful call of `caller`, answered from what it read from, or wrote to, the cache. */
  datatype Answer = Answer(caller: nat, fee: nat, readAt: nat, at: nat)

  datatype Service = Service(
    now: nat,
    cache: Option<CachedFee>,
    callers: seq<Caller>,
    stores: seq<Store>,
    answers: seq<Answer>,
    replies: set<nat>,
    lastReply: Option<nat>)

  datatype Event =
    | Tick(elapsed: nat)
    | Call(i: nat)
    | Check(i: nat)
    | Reply(i: nat, network: nat)
    | ReplyFails(i: nat)
    | Write(i: nat)

  function Start(callers: nat): Service {
    Service(0, None, seq(callers, _ => Idle), [], [], {}, None)
  }

  function SetCaller(s: Service, i: nat, c: Caller): Service
    requires i < |s.callers|
  {
    s.(callers := s.callers[i := c])
  }

  function Step(floor: nat, s: Service, e: Event): Option<Service> {
    match e
    case Tick(elapsed) => Some(s.(now := s.now + elapsed))
    case Call(i) =>
      if i >= |s.callers| || s.callers[i] != Idle then None
      else Some(SetCaller(s, i, Looking(s.cache, s.now)))
    case Check(i) =>
      if i >= |s.callers| || !s.callers[i].Looking? then None
      else
        var (seen, readAt) := (s.callers[i].seen, s.callers[i].readAt);
        if Fresh(seen, s.now).Some? then
          var answer := Answer(i, Fresh(seen, s.now).value, readAt, s.now);
          Some(SetCaller(s, i, Idle).(answers := s.answers + [answer]))
        else Some(SetCaller(s, i, Fetching))
    case Reply(i, network) =>
      if i >= |s.callers| || s.callers[i] != Fetching then None
      else Some(SetCaller(s, i, Storing(network)).(replies := s.replies + {network}, lastReply := Some(network)))
    case ReplyFails(i) =>
      if i >= |s.callers| || s.callers[i] != Fetching then None
      else Some(SetCaller(s, i, Idle))
    case Write(i) =>
      if i >= |s.callers| || !s.callers[i].Storing? then None
      else
        var network := s.callers[i].network;
        var fee := Max(network, floor);
        Some(SetCaller(s, i, Idle).(
          cache := Some(CachedFee(fee, s.now)),
          stores := s.stores + [Store(fee, s.now, network)],
          answers := s.answers + [Answer(i, fee, s.now, s.now)]))
  }

  /** Which events can happen in a state, by what the caller is doing. */
  lemma EventsPossible(floor: nat, s: Service, e: Event)
    ensures Step(floor, s, e).Some? <==>
      (e.Tick? ||
       (&& e.i < |s.callers|
        && var c := s.callers[e.i];
          && (e.Call? <==> c.Idle?)
          && (e.Check? <==> c.Looking?)
          && (e.Reply? || e.ReplyFails? <==> c.Fetching?)
          && (e.Write? <==> c.Storing?)))
    ensures e.ReplyFails? && Step(floor, s, e).Some? ==>
      Step(floor, s, e).value == s.(callers := s.callers[e.i := Idle])
    ensures e.Tick? ==> Step(floor, s, e).value == s.(now := s.now + e.elapsed)
  {
  }

  ghost predicate IsRun(floor: nat, callers: nat, events: seq<Event>, states: seq<Service>) {
    && |states| == |events| + 1
    && states[0] == Start(callers)
    && forall k :: 0 <= k < |events| ==> Step(floor, states[k], events[k]) == Some(states[k + 1])
  }

  /** The last write before `readAt` put this into the cache. */
  ghost predicate ReadFrom(stores: seq<Store>, j: nat, fee: nat, at: nat, readAt: nat)
    requires j < |stores|
  {
    && stores[j].fee == fee
    && stores[j].at == at <= readAt
    && forall k :: j < k < |stores| ==> readAt <= stores[k].at
  }

  /** Some write accounts for the answer: same fee, less than one block time earlier, and the last one
      when the call read the cache. */
  ghost predicate Accounted(stores: seq<Store>, a: Answer) {
    exists j :: 0 <= j < |stores| && Accounts(stores, j, a)
  }

  ghost predicate Accounts(stores: seq<Store>, j: nat, a: Answer)
    requires j < |stores|
  {
    ReadFrom(stores, j, a.fee, stores[j].at, a.readAt) && a.readAt <= a.at < stores[j].at + IGRA_BLOCK_TIME
  }

  /** What a caller has read is what some write stored. */
  ghost predicate Seen(stores: seq<Store>, now: nat, c: Caller) {
    c.Looking? && c.seen.Some? ==>
      && c.readAt <= now
      && exists j :: 0 <= j < |stores| && ReadFrom(stores, j, c.seen.value.fee, c.seen.value.fetchedAt, c.readAt)
  }

  ghost predicate Inv(floor: nat, s: Service) {
    && (s.cache.None? <==> s.stores == [])
    && (s.cache.Some? ==>
          var last := s.stores[|s.stores| - 1];
          s.cache.value == CachedFee(last.fee, last.at))
    && (forall j :: 0 <= j < |s.stores| ==>
          && s.stores[j].at <= s.now
          && s.stores[j].network in s.replies
          && s.stores[j].fee == Max(s.stores[j].network, floor))
    && (forall i :: 0 <= i < |s.callers| && s.callers[i].Storing? ==> s.callers[i].network in s.replies)
    && (forall i :: 0 <= i < |s.callers| ==> Seen(s.stores, s.now, s.callers[i]))
    && (forall k :: 0 <= k < |s.answers| ==> s.answers[k].at <= s.now && Accounted(s.stores, s.answers[k]))
  }

  lemma ReadFromAfterStore(stores: seq<Store>, st: Store, j: nat, fee: nat, at: nat, readAt: nat)
    requires j < |stores| && ReadFrom(stores, j, fee, at, readAt) && readAt <= st.at
    ensures ReadFrom(stores + [st], j, fee, at, readAt)
  {
    assert forall k :: j < k < |stores| ==> (stores + [st])[k] == stores[k];
  }

  lemma AccountedAfterStore(stores: seq<Store>, st: Store, a: Answer)
    requires Accounted(stores, a) && a.at <= st.at
    ensures Accounted(stores + [st], a)
  {
    var j :| 0 <= j < |stores| && Accounts(stores, j, a);
    ReadFromAfterStore(stores, st, j, a.fee, stores[j].at, a.readAt);
    assert Accounts(stores + [st], j, a);
  }

  lemma SeenAfterStore(stores: seq<Store>, st: Store, now: nat, c: Caller)
    requires Seen(stores, now, c) && now <= st.at
    ensures Seen(stores + [st], now, c)
  {
    if c.Looking? && c.seen.Some? {
      var j :| 0 <= j < |stores| && ReadFrom(stores, j, c.seen.value.fee, c.seen.value.fetchedAt, c.readAt);
      ReadFromAfterStore(stores, st, j, c.seen.value.fee, c.seen.value.fetchedAt, c.readAt);
    }
  }

  lemma WriteInv(floor: nat, s: Service, i: nat)
    requires Inv(floor, s) && Step(floor, s, Write(i)).Some?
    ensures Inv(floor, Step(floor, s, Write(i)).value)
  {
    var s' := Step(floor, s, Write(i)).value;
    var st := s'.stores[|s.stores|];
    forall k | 0 <= k < |s'.answers| ensures s'.answers[k].at <= s'.now && Accounted(s'.stores, s'.answers[k]) {
      if k < |s.answers| {
        AccountedAfterStore(s.stores, st, s.answers[k]);
      } else {
        assert Accounts(s'.stores, |s.stores|, s'.answers[k]);
      }
    }
    forall k | 0 <= k < |s'.callers| ensures Seen(s'.stores, s'.now, s'.callers[k]) {
      if k != i {
        SeenAfterStore(s.stores, st, s.now, s.callers[k]);
      }
    }
  }

  lemma CallInv(floor: nat, s: Service, i: nat)
    requires Inv(floor, s) && Step(floor, s, Call(i)).Some?
    ensures Inv(floor, Step(floor, s, Call(i)).value)
  {
    var s' := Step(floor, s, Call(i)).value;
    if s.cache.Some? {
      assert ReadFrom(s.stores, |s.stores| - 1, s.cache.value.fee, s.cache.value.fetchedAt, s.now);
    }
    assert Seen(s'.stores, s'.now, s'.callers[i]);
  }

  lemma CheckInv(floor: nat, s: Service, i: nat)
    requires Inv(floor, s) && Step(floor, s, Check(i)).Some?
    ensures Inv(floor, Step(floor, s, Check(i)).value)
  {
    var s' := Step(floor, s, Check(i)).value;
    var c := s.callers[i];
    if Fresh(c.seen, s.now).Some? {
      assert Seen(s.stores, s.now, c);
      var j :| 0 <= j < |s.stores| && ReadFrom(s.stores, j, c.seen.value.fee, c.seen.value.fetchedAt, c.readAt);
      assert Accounts(s.stores, j, s'.answers[|s.answers|]);
    }
  }

  lemma StepInv(floor: nat, s: Service, e: Event)
    requires Inv(floor, s) && Step(floor, s, e).Some?
    ensures Inv(floor, Step(floor, s, e).value)
  {
    match e
    case Tick(elapsed) =>
    case Call(i) => CallInv(floor, s, i);
    case Check(i) => CheckInv(floor, s, i);
    case Reply(i, network) =>
    case ReplyFails(i) =>
    case Write(i) => WriteInv(floor, s, i);
  }

  lemma {:induction false} RunInv(floor: nat, callers: nat, events: seq<Event>, states: seq<Service>, k: nat)
    requires IsRun(floor, callers, events, states) && k < |states|
    ensures Inv(floor, states[k])
  {
    if k > 0 {
      RunInv(floor, callers, events, states, k - 1);
      StepInv(floor, states[k - 1], events[k - 1]);
    }
  }

  /** Soundness over every interleaving: each successful answer is the floored value of a network
      reply, written to the cache less than a block time before the answer, by the last write when
      the call read the cache; so no answer is below the floor. */
  lemma AnswersAreFreshAndFloored(floor: nat, callers: nat, events: seq<Event>, states: seq<Service>, k: nat, a: Answer)
    requires IsRun(floor, callers, events, states) && k < |states| && a in states[k].answers
    ensures exists j :: 0 <= j < |states[k].stores| && Accounts(states[k].stores, j, a)
    ensures exists network :: network in states[k].replies && a.fee == Max(network, floor)
    ensures a.fee >= floor
  {
    RunInv(floor, callers, events, states, k);
    var s := states[k];
    assert Accounted(s.stores, a);
    var j :| 0 <= j < |s.stores| && Accounts(s.stores, j, a);
    assert s.stores[j].network in s.replies;
  }

  /** Event `m` answers caller `i`. */
  predicate Answers(states: seq<Service>, m: nat, i: nat)
    requires m + 1 < |states|
  {
    var before, after := states[m].answers, states[m + 1].answers;
    |before| < |after| && after[|before|].caller == i
  }

  /** Caller `i` has been neither answered nor failed between events `k` and `m`. */
  predicate Waits(events: seq<Event>, states: seq<Service>, i: nat, k: nat, m: nat)
    requires m <= |events| && |states| == |events| + 1
  {
    forall j :: k < j < m ==> !Answers(states, j, i) && events[j] != ReplyFails(i)
  }

  predicate RepliedBetween(events: seq<Event>, i: nat, network: nat, k: nat, m: nat)
    requires m <= |events|
  {
    exists r :: k < r < m && events[r] == Reply(i, network)
  }

  /** At event `k` caller `i` finds that what it read is stale. */
  predicate FindsStale(events: seq<Event>, states: seq<Service>, i: nat, k: nat)
    requires k < |events| && |states| == |events| + 1
  {
    && events[k] == Check(i)
    && i < |states[k].callers| && states[k].callers[i].Looking?
    && Fresh(states[k].callers[i].seen, states[k].now).None?
  }

  lemma {:induction false} StaleCallStaysOpen(floor: nat, callers: nat, events: seq<Event>, states: seq<Service>,
                                              i: nat, k: nat, m: nat)
    requires IsRun(floor, callers, events, states) && k < m <= |events|
    requires FindsStale(events, states, i, k)
    requires Waits(events, states, i, k, m)
    ensures i < |states[m].callers|
    ensures states[m].callers[i] == Fetching
      || (states[m].callers[i].Storing? && RepliedBetween(events, i, states[m].callers[i].network, k, m))
  {
    var s, e := states[m - 1], events[m - 1];
    assert Step(floor, s, e) == Some(states[m]);
    if m > k + 1 {
      StaleCallStaysOpen(floor, callers, events, states, i, k, m - 1);
      assert !Answers(states, m - 1, i) && e != ReplyFails(i);
      if e.Reply? && e.i == i {
        assert RepliedBetween(events, i, e.network, k, m);
      } else if s.callers[i].Storing? {
        var r :| k < r < m - 1 && events[r] == Reply(i, s.callers[i].network);
        assert RepliedBetween(events, i, s.callers[i].network, k, m);
      }
    }
  }

  /** No stale fee over any run: a call that found the cache stale is next answered by its own
      write, with the floored fee of its own reply, unless its fetch fails first. */
  lemma StaleCacheFailsClosed(floor: nat, callers: nat, events: seq<Event>, states: seq<Service>,
                              i: nat, k: nat, m: nat)
    requires IsRun(floor, callers, events, states) && k < m < |events|
    requires FindsStale(events, states, i, k)
    requires Waits(events, states, i, k, m) && Answers(states, m, i)
    ensures events[m] == Write(i)
    ensures exists network: nat ::
      && RepliedBetween(events, i, network, k, m)
      && var now := states[m].now;
        states[m + 1].answers == states[m].answers + [Answer(i, Max(network, floor), now, now)]
  {
    StaleCallStaysOpen(floor, callers, events, states, i, k, m);
    assert Step(floor, states[m], events[m]) == Some(states[m + 1]);
  }

  /** Between `k` and `m` caller `i` does not get to its check. */
  predicate NotChecked(events: seq<Event>, i: nat, k: nat, m: nat)
    requires m <= |events|
  {
    forall j :: k < j < m ==> events[j] != Check(i)
  }

  lemma {:induction false} StillLooking(floor: nat, callers: nat, events: seq<Event>, states: seq<Service>,
                                        i: nat, k: nat, m: nat)
    requires IsRun(floor, callers, events, states) && k < m <= |events|
    requires events[k] == Call(i) && NotChecked(events, i, k, m)
    ensures i < |states[m].callers| && states[m].callers[i] == Looking(states[k].cache, states[k].now)
    ensures states[k].now <= states[m].now
  {
    assert Step(floor, states[m - 1], events[m - 1]) == Some(states[m]);
    if m > k + 1 {
      StillLooking(floor, callers, events, states, i, k, m - 1);
    }
  }

  /** Over every run, a call is answered without a fetch exactly when something had been written to the
      cache when the call read it, and the last write then is less than a second old when the call
      checks; the answer is the fee of that write. Otherwise the call goes to fetch. */
  lemma YoungCacheIsUsed(floor: nat, callers: nat, events: seq<Event>, states: seq<Service>, i: nat, k: nat, m: nat)
    requires IsRun(floor, callers, events, states) && k < m < |events|
    requires events[k] == Call(i) && events[m] == Check(i) && NotChecked(events, i, k, m)
    ensures var written, now := states[k].stores, states[m].now;
      if written != [] && now < written[|written| - 1].at + 1000 then
        && states[m + 1].answers
           == states[m].answers + [Answer(i, written[|written| - 1].fee, states[k].now, now)]
        && states[m + 1].callers == states[m].callers[i := Idle]
      else
        && states[m + 1].answers == states[m].answers
        && states[m + 1].callers == states[m].callers[i := Fetching]
  {
    RunInv(floor, callers, events, states, k);
    StillLooking(floor, callers, events, states, i, k, m);
    assert Step(floor, states[m], events[m]) == Some(states[m + 1]);
  }

  // ----- which reply the cache holds -----

  /** With no write pending, the cache holds the latest reply the network gave. */
  predicate CachesLatestReply(floor: nat, s: Service) {
    s.cache.Some? && (forall i :: 0 <= i < |s.callers| ==> !s.callers[i].Storing?) ==>
      s.lastReply.Some? && s.cache.value.fee == Max(s.lastReply.value, floor)
  }

  ghost predicate AlwaysCachesLatestReply(floor: nat, callers: nat) {
    forall events, states, k: nat :: IsRun(floor, callers, events, states) && k < |states| ==>
      CachesLatestReply(floor, states[k])
  }

  /** At most one call is under way. */
  predicate OneAtATime(s: Service) {
    forall i, j ::
      0 <= i < |s.callers| && 0 <= j < |s.callers| && s.callers[i] != Idle && s.callers[j] != Idle ==>
        i == j
  }

  ghost predicate SequentialInv(floor: nat, s: Service) {
    && (forall i :: 0 <= i < |s.callers| && s.callers[i].Storing? ==> s.lastReply == Some(s.callers[i].network))
    && CachesLatestReply(floor, s)
  }

  lemma SequentialStep(floor: nat, s: Service, e: Event)
    requires Step(floor, s, e).Some? && SequentialInv(floor, s)
    requires OneAtATime(s) && OneAtATime(Step(floor, s, e).value)
    ensures SequentialInv(floor, Step(floor, s, e).value)
  {
    var s' := Step(floor, s, e).value;
    match e
    case Tick(_) =>
      assert s'.callers == s.callers;
    case Call(i) =>
      assert s'.callers[i].Looking?;
      assert forall j :: 0 <= j < |s.callers| && j != i ==> s'.callers[j] == s.callers[j];
    case Check(i) =>
      assert s.callers[i] != Idle;
    case Reply(i, network) =>
      assert s'.callers[i].Storing?;
      assert forall j :: 0 <= j < |s.callers| && j != i ==> s'.callers[j] == s.callers[j];
    case ReplyFails(i) =>
      assert s.callers[i] != Idle;
    case Write(i) =>
      assert s.callers[i] != Idle;
  }

  /** Over any run of any number of callers: as long as no two calls have overlapped, the cache holds
      the latest reply. */
  lemma {:induction false} SequentialCallsCacheLatest(floor: nat, callers: nat, events: seq<Event>,
                                                      states: seq<Service>, k: nat)
    requires IsRun(floor, callers, events, states) && k < |states|
    requires forall m :: 0 <= m <= k ==> OneAtATime(states[m])
    ensures SequentialInv(floor, states[k]) && CachesLatestReply(floor, states[k])
  {
    if k > 0 {
      SequentialCallsCacheLatest(floor, callers, events, states, k - 1);
      assert Step(floor, states[k - 1], events[k - 1]) == Some(states[k]);
      SequentialStep(floor, states[k - 1], events[k - 1]);
    }
  }

  lemma {:induction false} CallersStay(floor: nat, callers: nat, events: seq<Event>, states: seq<Service>, k: nat)
    requires IsRun(floor, callers, events, states) && k < |states|
    ensures |states[k].callers| == callers
  {
    if k > 0 {
      CallersStay(floor, callers, events, states, k - 1);
      assert Step(floor, states[k - 1], events[k - 1]) == Some(states[k]);
    }
  }

  lemma RunExtends(floor: nat, callers: nat, events: seq<Event>, states: seq<Service>, e: Event, s: Service)
    requires IsRun(floor, callers, events, states) && Step(floor, states[|events|], e) == Some(s)
    ensures IsRun(floor, callers, events + [e], states + [s])
  {
  }

  /** A call that finds the cache empty and goes to fetch. */
  lemma CallFetches(floor: nat, callers: nat, events: seq<Event>, states: seq<Service>, i: nat)
    returns (events': seq<Event>, states': seq<Service>)
    requires IsRun(floor, callers, events, states)
    requires var s := states[|events|]; i < |s.callers| && s.callers[i] == Idle && s.cache.None?
    ensures IsRun(floor, callers, events', states')
    ensures states'[|events'|] == SetCaller(states[|events|], i, Fetching)
  {
    var s := states[|events|];
    var s1, s2 := SetCaller(s, i, Looking(None, s.now)), SetCaller(s, i, Fetching);
    RunExtends(floor, callers, events, states, Call(i), s1);
    assert s1.callers[i := Fetching] == s2.callers;
    RunExtends(floor, callers, events + [Call(i)], states + [s1], Check(i), s2);
    events', states' := events + [Call(i)] + [Check(i)], states + [s1] + [s2];
  }

  /** Two callers whose replies are written in the opposite order. */
  lemma OlderReplyOverwrites(floor: nat, callers: nat)
    requires callers >= 2
    ensures !AlwaysCachesLatestReply(floor, callers)
  {
    var events, states := [], [Start(callers)];
    events, states := CallFetches(floor, callers, events, states, 0);
    events, states := CallFetches(floor, callers, events, states, 1);
    var s2 := states[|events|];
    var s3 := Step(floor, s2, Reply(0, floor + 1)).value;
    RunExtends(floor, callers, events, states, Reply(0, floor + 1), s3);
    var s4 := Step(floor, s3, Reply(1, floor + 2)).value;
    RunExtends(floor, callers, events + [Reply(0, floor + 1)], states + [s3], Reply(1, floor + 2), s4);
    events, states := events + [Reply(0, floor + 1)] + [Reply(1, floor + 2)], states + [s3] + [s4];
    var s5 := Step(floor, s4, Write(1)).value;
    RunExtends(floor, callers, events, states, Write(1), s5);
    var s6 := Step(floor, s5, Write(0)).value;
    RunExtends(floor, callers, events + [Write(1)], states + [s5], Write(0), s6);
    events, states := events + [Write(1)] + [Write(0)], states + [s5] + [s6];
    assert forall i :: 0 <= i < callers ==> s6.callers[i] == Idle;
    assert !CachesLatestReply(floor, states[|events|]);
  }

  /** The cache tracks the latest network reply over all runs exactly when no two callers exist: a
      second one can write an older reply last. */
  lemma LatestReplyNeedsSequentialCalls(floor: nat, callers: nat)
    ensures AlwaysCachesLatestReply(floor, callers) <==> callers <= 1
  {
    if callers <= 1 {
      forall events, states, k: nat | IsRun(floor, callers, events, states) && k < |states|
        ensures CachesLatestReply(floor, states[k])
      {
        forall m | 0 <= m <= k ensures OneAtATime(states[m]) {
          CallersStay(floor, callers, events, states, m);
        }
        SequentialCallsCacheLatest(floor, callers, events, states, k);
      }
    } else {
      OlderReplyOverwrites(floor, callers);
    }
  }

  // ----- one call at a time, on the service object -----

  /** What a call at `now` returns and leaves in the cache, if it is not disturbed: `reply` is what
      the network would answer and `stored` the time of the write. */
  datatype Outcome = Outcome(cache: Option<CachedFee>, answer: Option<nat>, fetched: bool)

  function CallOutcome(floor: nat, cache: Option<CachedFee>, now: nat, reply: Option<nat>, stored: nat): Outcome {
    if Fresh(cache, now).Some? then Outcome(cache, Fresh(cache, now), false)
    else if reply.None? then Outcome(cache, None, true)
    else
      var fee := Max(reply.value, floor);
      Outcome(Some(CachedFee(fee, stored)), Some(fee), true)
  }

  /** The undisturbed call is a special case of the interleaved steps: call and check, and if what was
      read is stale, reply, wait and write, or a failed reply. */
  lemma UndisturbedCall(floor: nat, s: Service, i: nat, reply: Option<nat>, wait: nat)
    requires i < |s.callers| && s.callers[i] == Idle
    ensures var o := CallOutcome(floor, s.cache, s.now, reply, s.now + wait);
      var called := Step(floor, s, Call(i));
      && called.Some?
      && var checked := Step(floor, called.value, Check(i));
        && checked.Some?
        && (o.fetched <==> checked.value.callers[i] == Fetching)
        && (!o.fetched ==>
              o.answer.Some? && checked.value == s.(answers := s.answers + [Answer(i, o.answer.value, s.now, s.now)]))
        && (o.fetched && reply.None? ==>
              o.answer.None? && Step(floor, checked.value, ReplyFails(i)) == Some(s.(cache := o.cache)))
        && (o.fetched && reply.Some? ==>
              var replied := Step(floor, checked.value, Reply(i, reply.value));
              && replied.Some?
              && var written := Step(floor, Step(floor, replied.value, Tick(wait)).value, Write(i));
                && written.Some?
                && o.answer.Some?
                && written.value.cache == o.cache
                && written.value.answers
                  == s.answers + [Answer(i, o.answer.value, s.now + wait, s.now + wait)]
                && written.value.callers == s.callers)
  {
    var called := Step(floor, s, Call(i)).value;
    var checked := Step(floor, called, Check(i)).value;
    assert s.callers[i := Looking(s.cache, s.now)][i := Idle] == s.callers;
    if Fresh(s.cache, s.now).None? {
      assert checked.callers == s.callers[i := Fetching];
      assert s.callers[i := Fetching][i := Idle] == s.callers;
      if reply.Some? {
        var replied := Step(floor, checked, Reply(i, reply.value)).value;
        assert replied.callers == s.callers[i := Storing(reply.value)];
        assert s.callers[i := Storing(reply.value)][i := Idle] == s.callers;
      }
    }
  }

  class GasPriceService {
    const gwei: u64
    var cache: Option<CachedFee>

    constructor (gwei: u64)
      ensures this.gwei == gwei && cache == None
    {
      this.gwei := gwei;
      cache := None;
    }

    method GetEffectiveBaseFee(now: nat, reply: Option<nat>, stored: nat) returns (r: Option<nat>, fetched: bool)
      requires now <= stored
      modifies this
      ensures CallOutcome(gwei * FeeFloor.GWEI_TO_WEI, old(cache), now, reply, stored) == Outcome(cache, r, fetched)
    {
      if cache.Some? {
        if now - cache.value.fetchedAt < IGRA_BLOCK_TIME {
          return Some(cache.value.fee), false;
        }
      }
      if reply.None? {
        return None, true;
      }
      FeeFloor.FloorNeverOverflows(gwei);
      var floor := FeeFloor.MinFloorWei(gwei);
      if floor.None? {
        return None, true;
      }
      var fee := if reply.value >= floor.value then reply.value else floor.value;
      cache := Some(CachedFee(fee, stored));
      return Some(fee), true;
    }
  }
}
