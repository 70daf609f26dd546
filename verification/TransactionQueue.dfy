/** From request to worker: routing and authorization (src/api/routing.rs), the accept path, the
    bounded queue and the single background worker (src/services/transaction.rs), over every
    interleaving of clients and worker. */
module TransactionQueue {
  import opened Primitives
  import opened Json
  import opened AcceptPath

  const TRANSACTION_QUEUE_CAPACITY: nat := 1024
  const SEND_RAW := "eth_sendRawTransaction"

  /** `minFee` is the configured floor of the fee service. */
  datatype Server = Server(
    readOnly: bool,
    whitelistOn: bool,
    allowed: set<string>,
    minFee: nat,
    decode: Decoder,
    show: Json -> string,
    hash: seq<byte> -> string)

  datatype Queued = Queued(bytes: seq<byte>, id: Json)

  /** The channel is open while the worker lives. `accepted`, `handled` and `lost` record the
      entries ever enqueued, finished by the worker, and dropped with a dead worker. */
  datatype Pipeline = Pipeline(
    open: bool,
    queue: seq<Queued>,
    inHand: Option<Queued>,
    processedCount: u16,
    errorCount: u16,
    accepted: seq<Queued>,
    handled: seq<(Queued, bool)>,
    lost: seq<Queued>)

  datatype Answer =
    | NoAnswer
    | MethodNotAllowed
    | ReadOnlyMode
    | ForwardedToEl
    | AcceptFailed(why: Rejection, id: Json)
    | QueueFull
    | WorkerGone
    | TransactionHash(hash: string)

  datatype Event =
    | ClientRequest(req: Request, generated: string, baseFee: Option<nat>)
    | WorkerTakes
    | WorkerFinishes(ok: bool)
    | WorkerDies

  predicate StartsWith(s: string, prefix: string) {
    prefix <= s
  }

  predicate IsWriteMethod(name: string) {
    name == SEND_RAW || name == "eth_sendTransaction" || StartsWith(name, "personal_") || StartsWith(name, "admin_")
  }

  function Authorize(server: Server, name: string): Option<Answer> {
    if server.whitelistOn && name !in server.allowed then Some(MethodNotAllowed)
    else if server.readOnly && IsWriteMethod(name) then Some(ReadOnlyMode)
    else None
  }

  function IdValue(req: Request, generated: string): Json {
    if req.id.Null? then Str(generated) else req.id
  }

  /** Saturating u16 increment. */
  function Increment(n: u16): u16 {
    if n == U16_MAX then n else n + 1
  }

  function Start(): Pipeline {
    Pipeline(true, [], None, 0, 0, [], [], [])
  }

  /** try_send: full and closed channels are refused at once. */
  function TrySend(s: Pipeline, tx: Queued): Pipeline {
    if s.open && |s.queue| < TRANSACTION_QUEUE_CAPACITY
    then s.(queue := s.queue + [tx], accepted := s.accepted + [tx])
    else s
  }

  function Serve(server: Server, s: Pipeline, req: Request, generated: string, baseFee: Option<nat>)
    : (Pipeline, Answer)
  {
    var refusal := Authorize(server, req.methodName);
    if refusal.Some? then (s, refusal.value)
    else if req.methodName != SEND_RAW then (s, ForwardedToEl)
    else
      var idValue := IdValue(req, generated);
      match ValidateAcceptRequest(server.decode, server.show, req, idValue, baseFee).0
      case Rejected(why, id) => (s, AcceptFailed(why, id))
      case Validated(bytes) =>
        if !s.open then (s, WorkerGone)
        else if |s.queue| >= TRANSACTION_QUEUE_CAPACITY then (s, QueueFull)
        else (TrySend(s, Queued(bytes, idValue)), TransactionHash(server.hash(bytes)))
  }

  /** One event; None when it cannot happen. A base fee is never below the floor. */
  function Step(server: Server, s: Pipeline, e: Event): Option<(Pipeline, Answer)> {
    match e
    case ClientRequest(req, generated, baseFee) =>
      if baseFee.Some? && baseFee.value < server.minFee then None
      else Some(Serve(server, s, req, generated, baseFee))
    case WorkerTakes =>
      if !s.open || s.inHand.Some? || s.queue == [] then None
      else Some((s.(inHand := Some(s.queue[0]), queue := s.queue[1..]), NoAnswer))
    case WorkerFinishes(ok) =>
      if !s.open || s.inHand.None? then None
      else
        var done := s.(inHand := None, handled := s.handled + [(s.inHand.value, ok)]);
        Some((if ok then done.(processedCount := Increment(s.processedCount))
              else done.(errorCount := Increment(s.errorCount)), NoAnswer))
    case WorkerDies =>
      if !s.open then None
      else Some((s.(open := false, inHand := None, queue := [], lost := InHand(s) + s.queue), NoAnswer))
  }

  function InHand(s: Pipeline): seq<Queued> {
    if s.inHand.Some? then [s.inHand.value] else []
  }

  function Transactions(handled: seq<(Queued, bool)>): seq<Queued> {
    if handled == [] then [] else Transactions(handled[..|handled| - 1]) + [handled[|handled| - 1].0]
  }

  /** How many handled entries ended with verdict `ok`. */
  function CountVerdict(handled: seq<(Queued, bool)>, ok: bool): nat {
    if handled == [] then 0
    else CountVerdict(handled[..|handled| - 1], ok) + if handled[|handled| - 1].1 == ok then 1 else 0
  }

  /** Well-formed bytes whose own fees reach the configured floor. */
  predicate MayBeQueued(server: Server, tx: Queued) {
    && WellFormed(server.decode, tx.bytes)
    && OwnFeesMeet(server.decode(tx.bytes).value, server.minFee)
    && !tx.id.Null?
  }

  ghost predicate Inv(server: Server, s: Pipeline) {
    && |s.queue| <= TRANSACTION_QUEUE_CAPACITY
    && s.accepted == Transactions(s.handled) + InHand(s) + s.queue + s.lost
    && (s.open ==> s.lost == [])
    && (!s.open ==> s.queue == [] && s.inHand.None?)
    && s.processedCount == Min(CountVerdict(s.handled, true), U16_MAX)
    && s.errorCount == Min(CountVerdict(s.handled, false), U16_MAX)
    && (server.readOnly ==> s.accepted == [])
    && (forall i :: 0 <= i < |s.accepted| ==> MayBeQueued(server, s.accepted[i]))
  }

  /** A hash is answered exactly when one entry, with those bytes, is enqueued; every other answer
      leaves the pipeline as it was. */
  lemma HashMeansEnqueued(server: Server, s: Pipeline, req: Request, generated: string, baseFee: Option<nat>)
    ensures var (s', answer) := Serve(server, s, req, generated, baseFee);
      && (answer.TransactionHash? <==> s' != s)
      && (answer.TransactionHash? ==>
            && |s'.accepted| == |s.accepted| + 1
            && var tx := s'.accepted[|s.accepted|];
              && s' == s.(queue := s.queue + [tx], accepted := s.accepted + [tx])
              && answer.hash == server.hash(tx.bytes)
              && tx.id == (if req.id.Null? then Str(generated) else req.id)
              && Names(RawTransaction(req.params), tx.bytes))
  {
    var reply := ValidateFormat(server.decode, server.show, req);
    if reply.Validated? {
      FormatIsWellFormedness(server.decode, server.show, req, reply.bytes);
    }
  }

  lemma ServeQueuesOnlyValid(server: Server, s: Pipeline, req: Request, generated: string, baseFee: Option<nat>)
    requires baseFee.Some? ==> baseFee.value >= server.minFee
    ensures var (s', answer) := Serve(server, s, req, generated, baseFee);
      s' != s ==>
        && !server.readOnly
        && s.open && |s.queue| < TRANSACTION_QUEUE_CAPACITY
        && exists tx :: MayBeQueued(server, tx) && s' == TrySend(s, tx)
  {
    var (s', answer) := Serve(server, s, req, generated, baseFee);
    if s' != s {
      var idValue := IdValue(req, generated);
      var bytes := ValidateAcceptRequest(server.decode, server.show, req, idValue, baseFee).0.bytes;
      AcceptanceIsExact(server.decode, server.show, req, idValue, baseFee, bytes);
      assert MayBeQueued(server, Queued(bytes, idValue));
    }
  }

  lemma TrySendInv(server: Server, s: Pipeline, tx: Queued)
    requires Inv(server, s) && MayBeQueued(server, tx) && !server.readOnly
    ensures Inv(server, TrySend(s, tx))
  {
    var s' := TrySend(s, tx);
    if s' != s {
      assert s'.accepted == Transactions(s.handled) + InHand(s) + (s.queue + [tx]) + [];
    }
  }

  lemma HandledAppend(handled: seq<(Queued, bool)>, tx: Queued, ok: bool)
    ensures Transactions(handled + [(tx, ok)]) == Transactions(handled) + [tx]
    ensures CountVerdict(handled + [(tx, ok)], ok) == CountVerdict(handled, ok) + 1
    ensures CountVerdict(handled + [(tx, ok)], !ok) == CountVerdict(handled, !ok)
  {
    assert (handled + [(tx, ok)])[..|handled|] == handled;
  }

  lemma TakeInv(server: Server, s: Pipeline)
    requires Inv(server, s) && Step(server, s, WorkerTakes).Some?
    ensures Inv(server, Step(server, s, WorkerTakes).value.0)
  {
    assert s.queue == [s.queue[0]] + s.queue[1..];
    assert InHand(s) == [];
    assert s.accepted == Transactions(s.handled) + [s.queue[0]] + s.queue[1..] + s.lost;
  }

  lemma FinishInv(server: Server, s: Pipeline, ok: bool)
    requires Inv(server, s) && Step(server, s, WorkerFinishes(ok)).Some?
    ensures Inv(server, Step(server, s, WorkerFinishes(ok)).value.0)
  {
    var s' := Step(server, s, WorkerFinishes(ok)).value.0;
    HandledAppend(s.handled, s.inHand.value, ok);
    assert s'.accepted == Transactions(s'.handled) + [] + s.queue + s.lost;
  }

  lemma DieInv(server: Server, s: Pipeline)
    requires Inv(server, s) && Step(server, s, WorkerDies).Some?
    ensures Inv(server, Step(server, s, WorkerDies).value.0)
  {
    assert s.accepted == Transactions(s.handled) + [] + [] + (InHand(s) + s.queue);
  }

  lemma StepInv(server: Server, s: Pipeline, e: Event)
    requires Inv(server, s) && Step(server, s, e).Some?
    ensures Inv(server, Step(server, s, e).value.0)
  {
    match e
    case ClientRequest(req, generated, baseFee) =>
      ServeQueuesOnlyValid(server, s, req, generated, baseFee);
      var s' := Serve(server, s, req, generated, baseFee).0;
      if s' != s {
        var tx :| MayBeQueued(server, tx) && s' == TrySend(s, tx);
        TrySendInv(server, s, tx);
      }
    case WorkerTakes => TakeInv(server, s);
    case WorkerFinishes(ok) => FinishInv(server, s, ok);
    case WorkerDies => DieInv(server, s);
  }

  ghost predicate IsRun(server: Server, events: seq<Event>, states: seq<Pipeline>) {
    && |states| == |events| + 1
    && states[0] == Start()
    && forall k :: 0 <= k < |events| ==>
      Step(server, states[k], events[k]).Some? && states[k + 1] == Step(server, states[k], events[k]).value.0
  }

  lemma {:induction false} RunInv(server: Server, events: seq<Event>, states: seq<Pipeline>, k: nat)
    requires IsRun(server, events, states) && k < |states|
    ensures Inv(server, states[k])
  {
    if k > 0 {
      RunInv(server, events, states, k - 1);
      StepInv(server, states[k - 1], events[k - 1]);
    }
  }

  /** The queue protocol, over every run: the bound, first-in-first-out handling, conservation of
      accepted entries (an entry is lost only with the worker), and the saturating counters. */
  lemma QueueProtocol(server: Server, events: seq<Event>, states: seq<Pipeline>, k: nat)
    requires IsRun(server, events, states) && k < |states|
    ensures var s := states[k];
      && |s.queue| <= 1024
      && Transactions(s.handled) <= s.accepted
      && s.accepted == Transactions(s.handled) + InHand(s) + s.queue + s.lost
      && (s.open ==> |s.accepted| == |s.queue| + |InHand(s)| + |s.handled|)
      && s.processedCount == Min(CountVerdict(s.handled, true), U16_MAX)
      && s.errorCount == Min(CountVerdict(s.handled, false), U16_MAX)
      && CountVerdict(s.handled, true) + CountVerdict(s.handled, false) == |s.handled|
  {
    RunInv(server, events, states, k);
    HandledCounts(states[k].handled);
  }

  lemma {:induction false} HandledCounts(handled: seq<(Queued, bool)>)
    ensures |Transactions(handled)| == |handled|
    ensures CountVerdict(handled, true) + CountVerdict(handled, false) == |handled|
  {
    if handled != [] {
      HandledCounts(handled[..|handled| - 1]);
    }
  }

  /** Whatever clients send, the worker of a read-only server never sees a transaction, and the
      worker of any server sees only well-formed ones whose own fees reach the configured floor. */
  lemma WorkerSeesOnlyValid(server: Server, events: seq<Event>, states: seq<Pipeline>, k: nat)
    requires IsRun(server, events, states) && k < |states|
    ensures server.readOnly ==> states[k].accepted == [] && states[k].handled == [] && states[k].inHand.None?
    ensures forall i :: 0 <= i < |states[k].handled| ==> MayBeQueued(server, states[k].handled[i].0)
  {
    RunInv(server, events, states, k);
    var s := states[k];
    HandledCounts(s.handled);
    forall i | 0 <= i < |s.handled| ensures MayBeQueued(server, s.handled[i].0) {
      TransactionsAt(s.handled, i);
      assert s.accepted[i] == Transactions(s.handled)[i];
    }
  }

  lemma {:induction false} TransactionsAt(handled: seq<(Queued, bool)>, i: nat)
    requires i < |handled|
    ensures |Transactions(handled)| == |handled| && Transactions(handled)[i] == handled[i].0
  {
    HandledCounts(handled);
    HandledCounts(handled[..|handled| - 1]);
    if i < |handled| - 1 {
      TransactionsAt(handled[..|handled| - 1], i);
    }
  }

  ghost predicate WorkerDiedBefore(events: seq<Event>, k: nat)
    requires k <= |events|
  {
    exists j :: 0 <= j < k && events[j].WorkerDies?
  }

  lemma {:induction false} OpenUntilDeath(server: Server, events: seq<Event>, states: seq<Pipeline>, k: nat)
    requires IsRun(server, events, states) && k < |states|
    ensures states[k].open <==> !WorkerDiedBefore(events, k)
  {
    if k > 0 {
      OpenUntilDeath(server, events, states, k - 1);
      var e := events[k - 1];
      assert Step(server, states[k - 1], e).Some? && states[k] == Step(server, states[k - 1], e).value.0;
      assert states[k].open <==> states[k - 1].open && !e.WorkerDies?;
    }
  }

  /** A request this server takes, as far as the request and the base fee go. */
  ghost predicate Acceptable(server: Server, req: Request, baseFee: Option<nat>) {
    && req.methodName == SEND_RAW
    && !(server.whitelistOn && SEND_RAW !in server.allowed)
    && !server.readOnly
    && baseFee.Some?
    && exists bytes ::
      && Names(RawTransaction(req.params), bytes) && WellFormed(server.decode, bytes)
      && IsDynamic(server.decode(bytes).value) == DynamicByte(bytes[0])
      && OwnFeesMeet(server.decode(bytes).value, baseFee.value)
  }

  lemma AcceptableIsValidated(server: Server, req: Request, generated: string, baseFee: Option<nat>)
    ensures Acceptable(server, req, baseFee) <==>
      && req.methodName == SEND_RAW && Authorize(server, SEND_RAW).None?
      && ValidateAcceptRequest(server.decode, server.show, req, IdValue(req, generated), baseFee).0.Validated?
  {
    var idValue := IdValue(req, generated);
    var reply := ValidateAcceptRequest(server.decode, server.show, req, idValue, baseFee).0;
    if reply.Validated? {
      AcceptanceIsExact(server.decode, server.show, req, idValue, baseFee, reply.bytes);
    }
    if Acceptable(server, req, baseFee) {
      var bytes :| Names(RawTransaction(req.params), bytes) && WellFormed(server.decode, bytes)
        && IsDynamic(server.decode(bytes).value) == DynamicByte(bytes[0])
        && OwnFeesMeet(server.decode(bytes).value, baseFee.value);
      AcceptanceIsExact(server.decode, server.show, req, idValue, baseFee, bytes);
    }
  }

  /** On every run an acceptable request gets a hash, unless the worker has died, or lives and is 1024
      entries behind what was accepted, not counting the one it is working on. Nothing else is
      answered in these three ways. */
  lemma RefusalIsExact(server: Server, events: seq<Event>, states: seq<Pipeline>, k: nat,
                       req: Request, generated: string, baseFee: Option<nat>)
    requires IsRun(server, events, states) && k < |states|
    ensures var s := states[k];
      var answer := Serve(server, s, req, generated, baseFee).1;
      var acceptable := Acceptable(server, req, baseFee);
      var backlog := |s.accepted| - |s.handled| - |InHand(s)|;
      && (answer == WorkerGone <==> acceptable && WorkerDiedBefore(events, k))
      && (answer == QueueFull <==>
            acceptable && !WorkerDiedBefore(events, k) && backlog == 1024)
      && (answer.TransactionHash? <==>
            acceptable && !WorkerDiedBefore(events, k) && backlog < 1024)
  {
    QueueProtocol(server, events, states, k);
    OpenUntilDeath(server, events, states, k);
    AcceptableIsValidated(server, req, generated, baseFee);
  }

  /** The verdicts of the worker's finishes so far, oldest first. */
  function Verdicts(events: seq<Event>, k: nat): seq<bool>
    requires k <= |events|
  {
    if k == 0 then []
    else Verdicts(events, k - 1) + if events[k - 1].WorkerFinishes? then [events[k - 1].ok] else []
  }

  function Takes(events: seq<Event>, k: nat): nat
    requires k <= |events|
  {
    if k == 0 then 0 else Takes(events, k - 1) + if events[k - 1].WorkerTakes? then 1 else 0
  }

  /** The events so far at which a hash was answered. */
  function Hashed(server: Server, events: seq<Event>, states: seq<Pipeline>, k: nat): seq<nat>
    requires k <= |events| && |states| == |events| + 1
  {
    if k == 0 then []
    else
      var moved := Step(server, states[k - 1], events[k - 1]);
      Hashed(server, events, states, k - 1)
      + if moved.Some? && moved.value.1.TransactionHash? then [k - 1] else []
  }

  /** The entry is what the request at this event asked to relay. */
  predicate EntryOf(tx: Queued, e: Event) {
    && e.ClientRequest?
    && Names(RawTransaction(e.req.params), tx.bytes)
    && tx.id == if e.req.id.Null? then Str(e.generated) else e.req.id
  }

  ghost predicate AcceptedAsHashed(server: Server, events: seq<Event>, states: seq<Pipeline>, k: nat)
    requires k <= |events| && |states| == |events| + 1
  {
    var s, hashed := states[k], Hashed(server, events, states, k);
    && |s.accepted| == |hashed|
    && forall n :: 0 <= n < |hashed| ==> hashed[n] < k && EntryOf(s.accepted[n], events[hashed[n]])
  }

  ghost predicate HandledAsFinished(events: seq<Event>, states: seq<Pipeline>, k: nat)
    requires k <= |events| && |states| == |events| + 1
  {
    var s, verdicts := states[k], Verdicts(events, k);
    && |s.handled| == |verdicts|
    && (forall n :: 0 <= n < |s.handled| ==> s.handled[n].1 == verdicts[n])
    && (if WorkerDiedBefore(events, k) then s.queue == [] && s.inHand == None
        else |s.handled| + |InHand(s)| == Takes(events, k))
  }

  lemma RequestIsRecorded(server: Server, events: seq<Event>, states: seq<Pipeline>, k: nat)
    requires IsRun(server, events, states) && k < |events| && AcceptedAsHashed(server, events, states, k)
    ensures AcceptedAsHashed(server, events, states, k + 1)
  {
    var s, e := states[k], events[k];
    if e.ClientRequest? {
      HashMeansEnqueued(server, s, e.req, e.generated, e.baseFee);
    } else {
      assert states[k + 1].accepted == s.accepted;
    }
  }

  lemma {:induction false} WorkIsRecorded(server: Server, events: seq<Event>, states: seq<Pipeline>, k: nat)
    requires IsRun(server, events, states) && k < |events| && HandledAsFinished(events, states, k)
    ensures HandledAsFinished(events, states, k + 1)
  {
    var s, e, s' := states[k], events[k], states[k + 1];
    OpenUntilDeath(server, events, states, k);
    assert WorkerDiedBefore(events, k + 1) <==> WorkerDiedBefore(events, k) || e.WorkerDies?;
    RunInv(server, events, states, k);
    if e.ClientRequest? {
      HashMeansEnqueued(server, s, e.req, e.generated, e.baseFee);
      ServeNeedsLife(server, s, e.req, e.generated, e.baseFee);
      assert s'.handled == s.handled && s'.inHand == s.inHand;
    }
  }

  lemma ServeNeedsLife(server: Server, s: Pipeline, req: Request, generated: string, baseFee: Option<nat>)
    ensures !s.open ==> Serve(server, s, req, generated, baseFee).0 == s
  {
  }

  /** Over every run, what happened is what the events say: one entry was accepted for each hash answered,
      in that order; one was handled, with its verdict, at each finish; and while the worker lives it has
      in hand what it took and has not finished. A dead worker leaves nothing queued or in hand. */
  lemma {:induction false} RunIsRecorded(server: Server, events: seq<Event>, states: seq<Pipeline>, k: nat)
    requires IsRun(server, events, states) && k < |states|
    ensures AcceptedAsHashed(server, events, states, k) && HandledAsFinished(events, states, k)
  {
    if k > 0 {
      RunIsRecorded(server, events, states, k - 1);
      RequestIsRecorded(server, events, states, k - 1);
      WorkIsRecorded(server, events, states, k - 1);
    }
  }

  /** When the worker can move: it takes when it lives, is idle and something is queued; it finishes when
      it lives and has something in hand; it can die while it lives. */
  lemma WorkerCanMove(server: Server, events: seq<Event>, states: seq<Pipeline>, k: nat, ok: bool)
    requires IsRun(server, events, states) && k < |states|
    ensures var s, alive := states[k], !WorkerDiedBefore(events, k);
      && (Step(server, s, WorkerTakes).Some? <==> alive && s.inHand == None && s.queue != [])
      && (Step(server, s, WorkerFinishes(ok)).Some? <==> alive && s.inHand != None)
      && (Step(server, s, WorkerDies).Some? <==> alive)
  {
    OpenUntilDeath(server, events, states, k);
  }

  predicate BeginsWith(text: string, start: string) {
    |start| <= |text| && forall i :: 0 <= i < |start| ==> text[i] == start[i]
  }

  /** Who is turned away before any processing: with the whitelist on, every method not on it; else, on
      a read-only server, the two sending methods and the personal and admin namespaces. Every other
      method but the raw transaction is forwarded. */
  lemma RoutingIsExact(server: Server, s: Pipeline, req: Request, generated: string, baseFee: Option<nat>)
    ensures var (s', answer) := Serve(server, s, req, generated, baseFee);
      var m := req.methodName;
      var refused := server.whitelistOn && m !in server.allowed;
      var writes := m in {"eth_sendRawTransaction", "eth_sendTransaction"}
        || BeginsWith(m, "personal_") || BeginsWith(m, "admin_");
      && (answer == MethodNotAllowed <==> refused)
      && (answer == ReadOnlyMode <==> !refused && server.readOnly && writes)
      && (answer == ForwardedToEl <==> !refused && !(server.readOnly && writes) && m != "eth_sendRawTransaction")
      && (!answer.TransactionHash? ==> s' == s)
  {
  }

  /** The method is the raw transaction and the server processes it. */
  predicate Processes(server: Server, req: Request) {
    && req.methodName == "eth_sendRawTransaction"
    && !(server.whitelistOn && req.methodName !in server.allowed)
    && !server.readOnly
  }

  ghost predicate NamesWellFormed(server: Server, req: Request) {
    exists bytes :: Names(RawTransaction(req.params), bytes) && WellFormed(server.decode, bytes)
  }

  lemma RejectionIsTheValidators(server: Server, s: Pipeline, req: Request, generated: string, baseFee: Option<nat>,
                                 why: Rejection, id: Json)
    ensures Serve(server, s, req, generated, baseFee).1 == AcceptFailed(why, id) <==>
      && Processes(server, req)
      && ValidateAcceptRequest(server.decode, server.show, req, IdValue(req, generated), baseFee).0 == Rejected(why, id)
  {
  }

  /** Which rejection a client of a server that processes raw transactions is answered: a text without
      "0x", a character that is no hex digit, bytes that are no well-formed transaction, an unknown base
      fee, or the fee error the transaction deserves; and nothing else is answered as a rejection. */
  lemma RejectionIsExact(server: Server, s: Pipeline, req: Request, generated: string, baseFee: Option<nat>,
                         why: Rejection)
    ensures var raw := RawTransaction(req.params);
      (exists id :: Serve(server, s, req, generated, baseFee).1 == AcceptFailed(why, id)) <==>
        && Processes(server, req)
        && match why
           case MissingHexPrefix => !("0x" <= raw)
           case InvalidHex => "0x" <= raw && !HexText(raw)
           case MalformedTransaction => HexText(raw) && !NamesWellFormed(server, req)
           case BaseFeeUnavailable => NamesWellFormed(server, req) && baseFee.None?
           case FeeRejected(error) =>
             && baseFee.Some?
             && exists bytes :: Names(raw, bytes) && WellFormed(server.decode, bytes)
                  && Deserves(error, server.decode(bytes).value, bytes[0], baseFee.value)
  {
    var idValue := IdValue(req, generated);
    var reply := ValidateAcceptRequest(server.decode, server.show, req, idValue, baseFee).0;
    if reply.Rejected? {
      RejectionIsTheValidators(server, s, req, generated, baseFee, reply.why, reply.id);
    }
    FormatErrorIsExact(server.decode, server.show, req);
    MalformedNeverFetches(server.decode, server.show, req, idValue, baseFee, baseFee);
    FailClosedIsExact(server.decode, server.show, req, idValue, baseFee);
    if why.FeeRejected? {
      FeeErrorIsExact(server.decode, server.show, req, idValue, baseFee, why.error);
    }
  }

  // ----- the channel and the worker, in place -----

  class TransactionProcessor {
    var open: bool
    var queue: seq<Queued>
    var inHand: Option<Queued>
    var processedCount: u16
    var errorCount: u16
    ghost var accepted: seq<Queued>
    ghost var handled: seq<(Queued, bool)>
    ghost var lost: seq<Queued>

    ghost function Snapshot(): Pipeline
      reads this
    {
      Pipeline(open, queue, inHand, processedCount, errorCount, accepted, handled, lost)
    }

    constructor ()
      ensures Snapshot() == Start()
    {
      open, queue, inHand, processedCount, errorCount := true, [], None, 0, 0;
      accepted, handled, lost := [], [], [];
    }

    method ProcessTransaction(server: Server, req: Request, generated: string, baseFee: Option<nat>)
      returns (answer: Answer)
      requires req.methodName == SEND_RAW && Authorize(server, SEND_RAW).None?
      modifies this
      ensures Serve(server, old(Snapshot()), req, generated, baseFee) == (Snapshot(), answer)
    {
      var idValue := if req.id.Null? then Str(generated) else req.id;
      var (reply, fetched) := ValidateAcceptRequest(server.decode, server.show, req, idValue, baseFee);
      if reply.Rejected? {
        return AcceptFailed(reply.why, reply.id);
      }
      if !open {
        return WorkerGone;
      }
      if |queue| >= TRANSACTION_QUEUE_CAPACITY {
        return QueueFull;
      }
      queue := queue + [Queued(reply.bytes, idValue)];
      accepted := accepted + [Queued(reply.bytes, idValue)];
      answer := TransactionHash(server.hash(reply.bytes));
    }

    /** The worker's turn: receive the oldest entry and process it to the verdict `ok`. */
    method HandleNext(server: Server, ok: bool)
      requires open && inHand.None? && queue != []
      modifies this
      ensures var taken := Step(server, old(Snapshot()), WorkerTakes).value.0;
        Step(server, taken, WorkerFinishes(ok)) == Some((Snapshot(), NoAnswer))
    {
      inHand := Some(queue[0]);
      queue := queue[1..];
      handled := handled + [(inHand.value, ok)];
      if ok {
        processedCount := if processedCount == U16_MAX then U16_MAX else processedCount + 1;
      } else {
        errorCount := if errorCount == U16_MAX then U16_MAX else errorCount + 1;
      }
      inHand := None;
    }
  }
}
