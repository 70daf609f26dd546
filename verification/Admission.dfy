/** The fee service and the queue together (src/services/transaction.rs, validate_accept_request, with
    src/services/gas_price.rs): requests enter the queue with the base fees that interleaved calls
    of the cache have answered. */
module Admission {
  import opened Primitives
  import opened Json
  import opened AcceptPath
  import TransactionQueue
  import FeeCache

  datatype System = System(fees: FeeCache.Service, pipe: TransactionQueue.Pipeline)

  /** A request that got past the format checks names the fee service's answer to it, if there was one. */
  datatype Event =
    | Fees(fee: FeeCache.Event)
    | Submit(req: AcceptPath.Request, generated: string, answer: Option<nat>)
    | Worker(work: TransactionQueue.Event)

  function Start(callers: nat): System {
    System(FeeCache.Start(callers), TransactionQueue.Start())
  }

  /** A step of the cache, of the queue or of the worker. A request that was answered a fee comes in with
      that fee, whenever it was answered; one that was answered none comes in without. */
  ghost predicate Moves(server: TransactionQueue.Server, s: System, e: Event, s': System) {
    match e
    case Fees(fee) => FeeCache.Step(server.minFee, s.fees, fee) == Some(s'.fees) && s'.pipe == s.pipe
    case Submit(req, generated, None) =>
      s'.fees == s.fees && s'.pipe == TransactionQueue.Serve(server, s.pipe, req, generated, None).0
    case Submit(req, generated, Some(n)) =>
      && n < |s.fees.answers|
      && s'.fees == s.fees
      && s'.pipe == TransactionQueue.Serve(server, s.pipe, req, generated, Some(s.fees.answers[n].fee)).0
    case Worker(work) =>
      && !work.ClientRequest?
      && s'.fees == s.fees
      && TransactionQueue.Step(server, s.pipe, work).Some?
      && s'.pipe == TransactionQueue.Step(server, s.pipe, work).value.0
  }

  ghost predicate IsRun(server: TransactionQueue.Server, callers: nat, events: seq<Event>, states: seq<System>) {
    && |states| == |events| + 1
    && states[0] == Start(callers)
    && forall k :: 0 <= k < |events| ==> Moves(server, states[k], events[k], states[k + 1])
  }

  /** The entry's own fees reach the fee of this answer. */
  predicate Reaches(server: TransactionQueue.Server, tx: TransactionQueue.Queued, a: FeeCache.Answer) {
    WellFormed(server.decode, tx.bytes) && OwnFeesMeet(server.decode(tx.bytes).value, a.fee)
  }

  ghost predicate Priced(server: TransactionQueue.Server, fees: FeeCache.Service, tx: TransactionQueue.Queued) {
    exists n :: 0 <= n < |fees.answers| && Reaches(server, tx, fees.answers[n])
  }

  ghost predicate Inv(server: TransactionQueue.Server, s: System) {
    && FeeCache.Inv(server.minFee, s.fees)
    && TransactionQueue.Inv(server, s.pipe)
    && forall i :: 0 <= i < |s.pipe.accepted| ==> Priced(server, s.fees, s.pipe.accepted[i])
  }

  lemma AnswerReachesFloor(floor: nat, fees: FeeCache.Service, n: nat)
    requires FeeCache.Inv(floor, fees) && n < |fees.answers|
    ensures fees.answers[n].fee >= floor
  {
    assert FeeCache.Accounted(fees.stores, fees.answers[n]);
  }

  /** The queue's step takes any base fee at or above the floor; the fee service answers no other. */
  lemma RequestIsQueueStep(server: TransactionQueue.Server, s: System, req: AcceptPath.Request, generated: string,
                           answer: Option<nat>, s': System)
    requires Inv(server, s) && Moves(server, s, Submit(req, generated, answer), s')
    ensures var fee := if answer.Some? then Some(s.fees.answers[answer.value].fee) else None;
      var moved := TransactionQueue.Step(server, s.pipe, TransactionQueue.ClientRequest(req, generated, fee));
      moved.Some? && moved.value.0 == s'.pipe
  {
    if answer.Some? {
      AnswerReachesFloor(server.minFee, s.fees, answer.value);
    }
  }

  lemma FeesInv(server: TransactionQueue.Server, s: System, e: FeeCache.Event, s': System)
    requires Inv(server, s) && Moves(server, s, Fees(e), s')
    ensures Inv(server, s')
  {
    FeeCache.StepInv(server.minFee, s.fees, e);
    AnswersGrow(server.minFee, s.fees, e);
    forall i | 0 <= i < |s'.pipe.accepted| ensures Priced(server, s'.fees, s'.pipe.accepted[i]) {
      PricedStays(server, s.fees, s'.fees, s.pipe.accepted[i]);
    }
  }

  lemma PricedStays(server: TransactionQueue.Server, before: FeeCache.Service, after: FeeCache.Service,
                    tx: TransactionQueue.Queued)
    requires Priced(server, before, tx) && before.answers <= after.answers
    ensures Priced(server, after, tx)
  {
    var n :| 0 <= n < |before.answers| && Reaches(server, tx, before.answers[n]);
    assert Reaches(server, tx, after.answers[n]);
  }

  lemma AnswersGrow(floor: nat, fees: FeeCache.Service, e: FeeCache.Event)
    requires FeeCache.Step(floor, fees, e).Some?
    ensures fees.answers <= FeeCache.Step(floor, fees, e).value.answers
  {
  }

  /** Whatever a request adds to the queue reaches the fee it was answered. */
  lemma NewEntryIsPriced(server: TransactionQueue.Server, s: System, req: AcceptPath.Request, generated: string,
                         answer: Option<nat>, s': System)
    requires Moves(server, s, Submit(req, generated, answer), s')
    ensures s'.pipe == s.pipe
      || exists tx :: Priced(server, s.fees, tx) && s'.pipe.accepted == s.pipe.accepted + [tx]
  {
    if s'.pipe != s.pipe {
      var fee := if answer.Some? then Some(s.fees.answers[answer.value].fee) else None;
      var idValue := TransactionQueue.IdValue(req, generated);
      var bytes := ValidateAcceptRequest(server.decode, server.show, req, idValue, fee).0.bytes;
      AcceptanceIsExact(server.decode, server.show, req, idValue, fee, bytes);
      var tx := TransactionQueue.Queued(bytes, idValue);
      assert Reaches(server, tx, s.fees.answers[answer.value]);
      assert s'.pipe.accepted == s.pipe.accepted + [tx];
    }
  }

  lemma RequestInv(server: TransactionQueue.Server, s: System, req: AcceptPath.Request, generated: string,
                   answer: Option<nat>, s': System)
    requires Inv(server, s) && Moves(server, s, Submit(req, generated, answer), s')
    ensures Inv(server, s')
  {
    var fee := if answer.Some? then Some(s.fees.answers[answer.value].fee) else None;
    RequestIsQueueStep(server, s, req, generated, answer, s');
    TransactionQueue.StepInv(server, s.pipe, TransactionQueue.ClientRequest(req, generated, fee));
    NewEntryIsPriced(server, s, req, generated, answer, s');
  }

  lemma WorkerInv(server: TransactionQueue.Server, s: System, work: TransactionQueue.Event, s': System)
    requires Inv(server, s) && Moves(server, s, Worker(work), s')
    ensures Inv(server, s')
  {
    TransactionQueue.StepInv(server, s.pipe, work);
    assert s'.pipe.accepted == s.pipe.accepted;
  }

  lemma {:induction false} RunInv(server: TransactionQueue.Server, callers: nat, events: seq<Event>,
                                  states: seq<System>, k: nat)
    requires IsRun(server, callers, events, states) && k < |states|
    ensures Inv(server, states[k])
  {
    if k > 0 {
      RunInv(server, callers, events, states, k - 1);
      var s, s' := states[k - 1], states[k];
      assert Moves(server, s, events[k - 1], s');
      match events[k - 1]
      case Fees(fee) => FeesInv(server, s, fee, s');
      case Submit(req, generated, answer) => RequestInv(server, s, req, generated, answer, s');
      case Worker(work) => WorkerInv(server, s, work, s');
    }
  }

  /** Over every interleaving of cache, clients and worker: each entry ever accepted is well formed, and
      its own fees reach max(reply, floor) for a reply the network gave, which was in the cache,
      written less than a block time before, when the fee service answered. */
  lemma AcceptedFeesAreCurrent(server: TransactionQueue.Server, callers: nat, events: seq<Event>,
                               states: seq<System>, k: nat, i: nat)
    returns (n: nat, j: nat)
    requires IsRun(server, callers, events, states) && k < |states| && i < |states[k].pipe.accepted|
    ensures var fees, tx := states[k].fees, states[k].pipe.accepted[i];
      && n < |fees.answers| && j < |fees.stores|
      && FeeCache.Accounts(fees.stores, j, fees.answers[n])
      && fees.stores[j].network in fees.replies
      && WellFormed(server.decode, tx.bytes)
      && OwnFeesMeet(server.decode(tx.bytes).value, Max(fees.stores[j].network, server.minFee))
  {
    RunInv(server, callers, events, states, k);
    var fees, tx := states[k].fees, states[k].pipe.accepted[i];
    assert Priced(server, fees, tx);
    n :| 0 <= n < |fees.answers| && Reaches(server, tx, fees.answers[n]);
    assert FeeCache.Accounted(fees.stores, fees.answers[n]);
    j :| 0 <= j < |fees.stores| && FeeCache.Accounts(fees.stores, j, fees.answers[n]);
  }
}
