/** From the client's hash to the chain: what the accept path answered, the worker processed and
    the submission flow handed to signing are one and the same transaction. */
module EndToEnd {
  import opened Primitives
  import opened TransactionQueue
  import Payload
  import Submission
  import WalletCodec
  import Kaspa
  import Retry
  import Mining

  lemma AcceptedOnlyGrows(server: Server, s: Pipeline, e: Event)
    requires Step(server, s, e).Some?
    ensures s.accepted <= Step(server, s, e).value.0.accepted
  {
    match e
    case ClientRequest(req, generated, baseFee) => HashMeansEnqueued(server, s, req, generated, baseFee);
    case _ =>
  }

  lemma {:induction false} AcceptedIsPrefix(server: Server, events: seq<Event>, states: seq<Pipeline>, j: nat, k: nat)
    requires IsRun(server, events, states) && j <= k < |states|
    ensures states[j].accepted <= states[k].accepted
  {
    if j < k {
      AcceptedIsPrefix(server, events, states, j, k - 1);
      AcceptedOnlyGrows(server, states[k - 1], events[k - 1]);
    }
  }

  /** A hash answered at event `j` belongs to the entry accepted there; when the worker has finished
      that many entries, the one at that position has the answered hash. */
  lemma AnsweredHashIsHandled(server: Server, events: seq<Event>, states: seq<Pipeline>, j: nat, k: nat, hash: string)
    requires IsRun(server, events, states) && j < |events| && j < k < |states|
    requires Step(server, states[j], events[j]).value.1 == TransactionHash(hash)
    requires |states[j].accepted| < |states[k].handled|
    ensures server.hash(states[k].handled[|states[j].accepted|].0.bytes) == hash
    ensures states[k].handled[|states[j].accepted|].0.bytes != []
  {
    var e := events[j];
    var position := |states[j].accepted|;
    HashMeansEnqueued(server, states[j], e.req, e.generated, e.baseFee);
    AcceptedIsPrefix(server, events, states, j + 1, k);
    QueueProtocol(server, events, states, k);
    WorkerSeesOnlyValid(server, events, states, k);
    TransactionsAt(states[k].handled, position);
    assert states[j + 1].accepted[position] == states[k].accepted[position];
    assert Transactions(states[k].handled)[position] == states[k].accepted[position];
  }

  // ----- the worker's call to the wallet -----

  /** Everything outside the provider that one call meets: the configured wallet caller (absent on a
      read-only server), the compressor, the daemon's answer to each creation attempt for a payload,
      the jitter drawn, and the mining clock. */
  datatype World = World(
    wallet: Option<Submission.Caller>,
    retry: Retry.RetryConfig,
    compress: Payload.Compressor,
    lower: string -> string,
    create: seq<byte> -> nat -> Result<seq<WalletCodec.WalletSignable>, Retry.WalletError>,
    draw: nat -> Retry.Percent,
    timedOut: bool)

  datatype CallError =
    | SerializationFailed(payload: Payload.SerializationError)
    | WalletUnavailable
    | CreationFailed(wallet: Retry.WalletError)
    | FlowFailed(flow: Submission.FlowError)

  /** What passed from the provider to the daemon and back on the way to a broadcast. */
  datatype Delivery = Delivery(
    payload: seq<byte>,
    attempt: nat,
    list: seq<WalletCodec.WalletSignable>,
    st: Kaspa.Signable,
    slot: Mining.Slot,
    handed: seq<WalletCodec.WalletSignable>)

  /** The list the daemon created for the payload, on the first attempt it did not run out of UTXOs. */
  ghost predicate Created(w: World, payload: seq<byte>, attempt: nat, list: seq<WalletCodec.WalletSignable>) {
    && 1 <= attempt <= w.retry.maxAttempts
    && w.create(payload)(attempt) == Ok(list)
    && forall k: nat :: 1 <= k < attempt ==> Retry.Retryable(w.lower, w.create(payload)(k))
  }

  /** The message for `bytes` was submitted, the list created for it was mined and handed to signing,
      and the signed list was broadcast under some ids. */
  ghost predicate Delivers(w: World, bytes: seq<byte>, d: Delivery) {
    && w.wallet.Some? && !w.timedOut
    && Payload.Parse(d.payload) == Some(Payload.Wrap(w.compress, bytes))
    && Created(w, d.payload, d.attempt, d.list)
    && Submission.HandsOver(w.wallet.value, d.list, d.st, d.slot, d.handed)
    && Submission.Broadcasts(w.wallet.value.daemon, d.handed)
  }

  ghost predicate Succeeds(w: World, bytes: seq<byte>) {
    exists d :: Delivers(w, bytes, d)
  }

  lemma OnlySerializableIsSubmitted(compress: Payload.Compressor, bytes: seq<byte>, payload: seq<byte>)
    requires Payload.Parse(payload) == Some(Payload.Wrap(compress, bytes))
    ensures bytes != [] && compress(bytes) != Some([])
  {
    assert Payload.Wrap(compress, bytes).l2Data != [];
  }

  lemma CreatedOnce(w: World, payload: seq<byte>, n1: nat, list1: seq<WalletCodec.WalletSignable>,
                    n2: nat, list2: seq<WalletCodec.WalletSignable>)
    requires Created(w, payload, n1, list1) && Created(w, payload, n2, list2)
    ensures n1 == n2 && list1 == list2
  {
    assert !Retry.Retryable(w.lower, w.create(payload)(n1)) && !Retry.Retryable(w.lower, w.create(payload)(n2));
  }

  /** A world delivers at most one thing for given bytes. */
  lemma DeliveryIsUnique(w: World, bytes: seq<byte>, a: Delivery, b: Delivery)
    ensures Delivers(w, bytes, a) && Delivers(w, bytes, b) ==> a == b
  {
    if Delivers(w, bytes, a) && Delivers(w, bytes, b) {
      Payload.ParseIsInjective(a.payload, b.payload);
      CreatedOnce(w, a.payload, a.attempt, a.list, b.attempt, b.list);
      Submission.HandedOverOnce(w.wallet.value, a.list, a.st, a.slot, a.handed, b.st, b.slot, b.handed);
    }
  }

  /** What an unsuccessful creation rules out. */
  lemma NotCreated(w: World, payload: seq<byte>, calls: nat, attempt: nat, list: seq<WalletCodec.WalletSignable>)
    requires forall k: nat :: 1 <= k < calls ==> Retry.Retryable(w.lower, w.create(payload)(k))
    requires calls >= 1 ==> w.create(payload)(calls).Err?
    requires calls < w.retry.maxAttempts ==> calls >= 1 && !Retry.Retryable(w.lower, w.create(payload)(calls))
    ensures !Created(w, payload, attempt, list)
  {
  }

  /** Compress, serialize, create with retries, mine, sign and broadcast. */
  method ProcessWalletCall(w: World, hash: seq<byte> -> string, bytes: seq<byte>)
    returns (r: Result<string, CallError>, ghost d: Delivery)
    ensures r.Ok? ==> r.value == hash(bytes) && Delivers(w, bytes, d)
    ensures r.Err? ==> !Succeeds(w, bytes)
    ensures (r.Err? && r.error.SerializationFailed?) <==> bytes == [] || w.compress(bytes) == Some([])
    ensures (r.Err? && r.error.WalletUnavailable?) <==>
      bytes != [] && w.compress(bytes) != Some([]) && w.wallet.None?
  {
    ghost var tx0 := Kaspa.Transaction(0, [], [], 0, WalletCodec.Native(), 0, []);
    ghost var st0 := Kaspa.Signable(tx0, WalletCodec.NullHash(), [], None, None);
    d := Delivery([], 0, [], st0, Mining.Slot(0, 0), []);
    var serialized := Payload.WalletPayload(w.compress, bytes);
    if serialized.Err? {
      forall any | Delivers(w, bytes, any) ensures false {
        OnlySerializableIsSubmitted(w.compress, bytes, any.payload);
      }
      return Err(SerializationFailed(serialized.error)), d;
    }
    if w.wallet.None? {
      return Err(WalletUnavailable), d;
    }
    var payload := serialized.value;
    var created, calls, sleeps :=
      Retry.CreateWithRetry(w.retry, w.lower, w.create(payload), w.draw);
    if created.Err? {
      forall any | Delivers(w, bytes, any) ensures false {
        Payload.ParseIsInjective(payload, any.payload);
        NotCreated(w, payload, calls, any.attempt, any.list);
      }
      return Err(CreationFailed(created.error)), d;
    }
    var n := |created.value|;
    var list := new WalletCodec.WalletSignable[n](i requires 0 <= i < n => created.value[i]);
    assert list[..] == created.value;
    var sent, handed, st, slot := Submission.CompleteTransactionFlow(w.wallet.value, list, w.timedOut);
    Submission.FlowSuccessIsExact(w.wallet.value, created.value, w.timedOut, sent, handed, st, slot);
    if sent.Err? {
      forall any | Delivers(w, bytes, any) ensures false {
        Payload.ParseIsInjective(payload, any.payload);
        CreatedOnce(w, payload, calls, created.value, any.attempt, any.list);
      }
      return Err(FlowFailed(sent.error)), d;
    }
    d := Delivery(payload, calls, created.value, st.value, slot, handed.value);
    return Ok(hash(bytes)), d;
  }

  /** One turn of the worker: take the oldest entry, process it, count the verdict. */
  method WorkerTurn(server: Server, p: TransactionProcessor, w: World) returns (ghost ok: bool)
    requires p.open && p.inHand.None? && p.queue != []
    modifies p
    ensures ok <==> Succeeds(w, old(p.queue[0].bytes))
    ensures var taken := Step(server, old(p.Snapshot()), WorkerTakes).value.0;
      Step(server, taken, WorkerFinishes(ok)) == Some((p.Snapshot(), NoAnswer))
  {
    var r, d := ProcessWalletCall(w, server.hash, p.queue[0].bytes);
    ok := r.Ok?;
    p.HandleNext(server, r.Ok?);
  }

  // ----- runs of the server whose worker makes that call -----

  /** `worlds[k]` is what the call finished at event `k` met; its success is the worker's verdict. */
  ghost predicate WorkerRun(server: Server, events: seq<Event>, states: seq<Pipeline>, worlds: seq<World>) {
    && IsRun(server, events, states)
    && |worlds| == |events|
    && forall k :: 0 <= k < |events| && events[k].WorkerFinishes? ==>
      states[k].inHand.Some? && (events[k].ok <==> Succeeds(worlds[k], states[k].inHand.value.bytes))
  }

  /** Each handled entry was finished, with its verdict, at some earlier event. */
  lemma {:induction false} FinishedAt(server: Server, events: seq<Event>, states: seq<Pipeline>, k: nat, m: nat)
    returns (j: nat)
    requires IsRun(server, events, states) && k < |states| && m < |states[k].handled|
    ensures j < k && events[j] == WorkerFinishes(states[k].handled[m].1)
    ensures states[j].inHand == Some(states[k].handled[m].0) && |states[j].handled| == m
  {
    var e := events[k - 1];
    assert states[k] == Step(server, states[k - 1], e).value.0;
    if m < |states[k - 1].handled| {
      j := FinishedAt(server, events, states, k - 1, m);
      HandledOnlyGrows(server, states[k - 1], e);
    } else {
      j := k - 1;
      HandledOnlyGrows(server, states[k - 1], e);
    }
  }

  lemma HandledOnlyGrows(server: Server, s: Pipeline, e: Event)
    requires Step(server, s, e).Some?
    ensures var s' := Step(server, s, e).value.0;
      if e.WorkerFinishes? then s.inHand.Some? && s'.handled == s.handled + [(s.inHand.value, e.ok)]
      else s'.handled == s.handled
  {
    if e.ClientRequest? {
      HashMeansEnqueued(server, s, e.req, e.generated, e.baseFee);
    }
  }

  /** Over every run, a handled entry was counted as a success exactly when its bytes, in the one
      message made of them, went through the daemon, the miner and signing to a broadcast. */
  lemma CountedSuccessIsBroadcast(server: Server, events: seq<Event>, states: seq<Pipeline>, worlds: seq<World>,
                                  k: nat, m: nat)
    returns (j: nat)
    requires WorkerRun(server, events, states, worlds) && k < |states| && m < |states[k].handled|
    ensures j < k && events[j].WorkerFinishes?
    ensures states[j].inHand == Some(states[k].handled[m].0) && |states[j].handled| == m
    ensures states[k].handled[m].1 <==> exists d :: Delivers(worlds[j], states[k].handled[m].0.bytes, d)
  {
    j := FinishedAt(server, events, states, k, m);
  }

  lemma FinishedAfterAccepted(server: Server, events: seq<Event>, states: seq<Pipeline>, j: nat, e: nat)
    requires IsRun(server, events, states) && j < |states| && e < |states|
    requires states[e].inHand.Some? && |states[e].handled| == |states[j].accepted|
    ensures j < e
  {
    if e <= j {
      AcceptedIsPrefix(server, events, states, e, j);
      InHandIsNotHandled(server, events, states, e);
    }
  }

  lemma InHandIsNotHandled(server: Server, events: seq<Event>, states: seq<Pipeline>, e: nat)
    requires IsRun(server, events, states) && e < |states| && states[e].inHand.Some?
    ensures |states[e].handled| < |states[e].accepted|
  {
    QueueProtocol(server, events, states, e);
    HandledCounts(states[e].handled);
  }

  // ----- what a reader of the chain recovers -----

  /** What a reader of the chain recovers from the last transaction of `out`. */
  function Recovered(inflate: seq<byte> -> seq<byte>, lib: Kaspa.Library, out: seq<WalletCodec.WalletSignable>)
    : Option<seq<byte>>
  {
    var payload := Submission.LastPayload(lib, out);
    if payload.None? || Payload.Parse(payload.value).None? then None
    else Some(Payload.Unwrap(inflate, Payload.Parse(payload.value).value))
  }

  /** The daemon puts the payload it was given on the last transaction it creates. The flow does not
      check this (`Submission.MessageIsTheDaemons`). */
  ghost predicate HonestDaemon(w: World) {
    w.wallet.Some? ==>
      forall payload, attempt: nat, list ::
        w.create(payload)(attempt) == Ok(list) && Submission.LastPayload(w.wallet.value.lib, list).Some? ==>
          Submission.LastPayload(w.wallet.value.lib, list).value == payload
  }

  /** Every delivery of an honest daemon reads back as the transaction the worker was given. */
  lemma DeliveredIsRecovered(inflate: seq<byte> -> seq<byte>, w: World, bytes: seq<byte>, d: Delivery)
    requires Delivers(w, bytes, d) && HonestDaemon(w) && Payload.Inflates(inflate, w.compress)
    ensures Recovered(inflate, w.wallet.value.lib, d.handed) == Some(bytes)
  {
    var c := w.wallet.value;
    Submission.MessageIsTheDaemons(c, d.list, d.st, d.slot, d.handed, d.payload);
    Submission.RelayedTransactionSurvives(c, d.list, d.st, d.slot, d.handed, inflate, w.compress, bytes, d.payload);
  }

  /** End to end, over every run of server, worker and honest daemons: when a client was answered a
      hash and the worker counted the entry behind it as a success, a list was signed and broadcast
      for it from which a reader of the chain recovers bytes with exactly that hash. */
  lemma AnsweredHashIsOnChain(server: Server, events: seq<Event>, states: seq<Pipeline>, worlds: seq<World>,
                              j: nat, k: nat, hash: string, inflate: seq<byte> -> seq<byte>)
    returns (e: nat, d: Delivery)
    requires WorkerRun(server, events, states, worlds) && j < |events| && j < k < |states|
    requires Step(server, states[j], events[j]).value.1 == TransactionHash(hash)
    requires |states[j].accepted| < |states[k].handled| && states[k].handled[|states[j].accepted|].1
    requires forall i :: 0 <= i < |worlds| ==> HonestDaemon(worlds[i]) && Payload.Inflates(inflate, worlds[i].compress)
    ensures j < e < k && Delivers(worlds[e], states[k].handled[|states[j].accepted|].0.bytes, d)
    ensures Recovered(inflate, worlds[e].wallet.value.lib, d.handed).Some?
    ensures server.hash(Recovered(inflate, worlds[e].wallet.value.lib, d.handed).value) == hash
  {
    AnsweredHashIsHandled(server, events, states, j, k, hash);
    var position := |states[j].accepted|;
    var bytes := states[k].handled[position].0.bytes;
    e := CountedSuccessIsBroadcast(server, events, states, worlds, k, position);
    FinishedAfterAccepted(server, events, states, j, e);
    d :| Delivers(worlds[e], bytes, d);
    DeliveredIsRecovered(inflate, worlds[e], bytes, d);
  }
}
