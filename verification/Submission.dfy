/** The submission flow (src/clients/wallet_caller.rs, complete_transaction_flow): staging check,
    decode, lane gate, mining, lane gate, re-encode, sign, broadcast. The wallet daemon is an
    arbitrary source of messages. */
module Submission {
  import opened Primitives
  import opened Kaspa
  import opened WalletCodec
  import Lane
  import Mining
  import Payload
  import Bytes

  datatype FlowError =
    | NoTransactionIds
    | StagingPayload(index: nat, length: nat)
    | DecodingFailed(codec: CodecError)
    | LaneEnforcementFailed(lane: Lane.LaneError)
    | MiningTimeout
    | NonceExhausted
    | EncodingFailed(codec: CodecError)
    | SigningFailed
    | BroadcastFailed

  /** The two remaining calls to the daemon, as functions of what they are sent. */
  datatype Daemon = Daemon(
    sign: seq<WalletSignable> -> Option<seq<WalletSignable>>,
    broadcast: seq<WalletSignable> -> Option<seq<string>>)

  datatype Caller = Caller(
    lib: Library,
    enforcement: Option<Lane.LaneEnforcement>,
    minerPrefix: seq<byte>,
    daemon: Daemon)

  // ----- specification -----

  function Gate(c: Caller, st: Signable, stage: Lane.Stage): Result<(), Lane.LaneError> {
    match c.enforcement
    case None => Ok(())
    case Some(e) => Lane.ValidateLaneTransaction(st, e.lane, e.txIdPrefix, stage)
  }

  /** No entry but the last carries a payload. */
  ghost predicate StagingClean(list: seq<WalletSignable>) {
    forall i :: 0 <= i < |list| - 1 ==> CarriesNoPayload(list[i])
  }

  /** Without enforcement the gate is open; with it, it asks for the lane's three invariants and, before
      broadcast, for the prefix. */
  lemma GateIsExact(c: Caller, st: Signable, stage: Lane.Stage)
    ensures Gate(c, st, stage).Ok? <==>
      c.enforcement.Some? ==>
        && st.tx.version >= 1
        && st.tx.subnetworkId == c.enforcement.value.lane
        && |st.tx.payload| >= 5
        && (stage == Lane.PreBroadcast ==> c.enforcement.value.txIdPrefix <= st.id)
    ensures Gate(c, st, stage).Err? ==>
      var e := c.enforcement.value;
      Gate(c, st, stage) == Lane.ValidateLaneTransaction(st, e.lane, e.txIdPrefix, stage)
  {
  }

  /** The daemon's list gets as far as the miner, with `st` decoded from its last entry. */
  ghost predicate ReachesMiner(c: Caller, list: seq<WalletSignable>, st: Signable) {
    && list != []
    && StagingClean(list)
    && ProtoToSignableTransaction(c.lib, list[|list| - 1]) == Ok(st)
    && Gate(c, st, Lane.PreMining).Ok?
  }

  /** The error of the first check before mining that fails. */
  ghost predicate StopsEarly(c: Caller, list: seq<WalletSignable>, e: FlowError) {
    if list == [] then e == NoTransactionIds
    else if !StagingClean(list) then
      && e.StagingPayload?
      && e.index < |list| - 1
      && e.length == ProtoPayloadLen(list[e.index]) > 0
      && forall j :: 0 <= j < e.index ==> CarriesNoPayload(list[j])
    else
      match ProtoToSignableTransaction(c.lib, list[|list| - 1])
      case Err(codec) => e == DecodingFailed(codec)
      case Ok(st) =>
        Gate(c, st, Lane.PreMining).Err? && e == LaneEnforcementFailed(Gate(c, st, Lane.PreMining).error)
  }

  function MinedSignable(lib: Library, st: Signable, slot: Mining.Slot): Signable {
    st.(tx := Mining.Candidate(st.tx, slot), id := lib.idOf(Mining.Candidate(st.tx, slot)))
  }

  /** `out` is the list the flow hands to signing when mining `list` succeeds at `slot`. */
  ghost predicate HandsOver(c: Caller, list: seq<WalletSignable>, st: Signable, slot: Mining.Slot,
                            out: seq<WalletSignable>) {
    && ReachesMiner(c, list, st)
    && Mining.FirstHit(c.lib.idOf, c.minerPrefix, st.tx, slot)
    && Gate(c, MinedSignable(c.lib, st, slot), Lane.PreBroadcast).Ok?
    && WithMinedTransaction(list[|list| - 1], MinedSignable(c.lib, st, slot)).Ok?
    && out == list[|list| - 1 := WithMinedTransaction(list[|list| - 1], MinedSignable(c.lib, st, slot)).value]
  }

  function Reply(d: Daemon, handed: seq<WalletSignable>): Result<string, FlowError> {
    match d.sign(handed)
    case None => Err(SigningFailed)
    case Some(signed) =>
      match d.broadcast(signed)
      case None => Err(BroadcastFailed)
      case Some(ids) => if ids == [] then Err(NoTransactionIds) else Ok(ids[|ids| - 1])
  }

  /** What may be answered once a list is handed over: the daemon's refusal to sign or to broadcast, a
      broadcast without ids, or the id of the last transaction broadcast, which is the mined one. */
  ghost predicate DaemonAnswers(d: Daemon, handed: seq<WalletSignable>, r: Result<string, FlowError>) {
    match r
    case Ok(id) =>
      exists signed, earlier: seq<string> ::
        d.sign(handed) == Some(signed) && d.broadcast(signed) == Some(earlier + [id])
    case Err(e) =>
      || (e == SigningFailed && d.sign(handed) == None)
      || (e == BroadcastFailed && exists signed :: d.sign(handed) == Some(signed) && d.broadcast(signed) == None)
      || (e == NoTransactionIds && exists signed :: d.sign(handed) == Some(signed) && d.broadcast(signed) == Some([]))
  }

  /** The daemon's behaviour leaves exactly one answer. */
  lemma DaemonAnswersOnce(d: Daemon, handed: seq<WalletSignable>, r: Result<string, FlowError>)
    ensures DaemonAnswers(d, handed, r) <==> r == Reply(d, handed)
  {
    var signed := d.sign(handed);
    if signed.Some? {
      var ids := d.broadcast(signed.value);
      if ids.Some? && ids.value != [] {
        var n := |ids.value| - 1;
        assert ids.value == ids.value[..n] + [ids.value[n]];
        forall earlier: seq<string>, id | ids.value == earlier + [id] ensures id == ids.value[n] {
          assert (earlier + [id])[|earlier|] == id;
        }
      }
    }
  }

  // ----- the flow -----

  method CheckStaging(list: array<WalletSignable>) returns (r: Result<(), FlowError>)
    requires list.Length > 0
    ensures r.Ok? <==> StagingClean(list[..])
    ensures r.Err? ==>
      && r.error.StagingPayload?
      && r.error.index < list.Length - 1
      && r.error.length == ProtoPayloadLen(list[r.error.index]) > 0
      && forall j :: 0 <= j < r.error.index ==> CarriesNoPayload(list[j])
  {
    for i := 0 to list.Length - 1
      invariant forall j :: 0 <= j < i ==> CarriesNoPayload(list[j])
    {
      var n := ProtoPayloadLen(list[i]);
      PayloadLenDetectsPayloads(list[i]);
      if n > 0 {
        assert !CarriesNoPayload(list[..][i]);
        return Err(StagingPayload(i, n));
      }
    }
    return Ok(());
  }

  /** Everything before mining: the first failing check decides the error. */
  method PrepareForMining(c: Caller, list: array<WalletSignable>) returns (r: Result<Signable, FlowError>)
    ensures r.Ok? ==> ReachesMiner(c, list[..], r.value)
    ensures r.Err? ==> StopsEarly(c, list[..], r.error)
  {
    if list.Length == 0 {
      return Err(NoTransactionIds);
    }
    var staging := CheckStaging(list);
    if staging.Err? {
      return Err(staging.error);
    }
    var decoded := ProtoToSignableTransaction(c.lib, list[list.Length - 1]);
    if decoded.Err? {
      return Err(DecodingFailed(decoded.error));
    }
    var gate := Gate(c, decoded.value, Lane.PreMining);
    if gate.Err? {
      return Err(LaneEnforcementFailed(gate.error));
    }
    return Ok(decoded.value);
  }

  /** How the flow ends on the daemon's `list`. `st` is what reached the miner, if anything did;
      `handed` is what the signing request carried, if one was made. */
  ghost predicate FlowEnds(c: Caller, list: seq<WalletSignable>, timedOut: bool, r: Result<string, FlowError>,
                           handed: Option<seq<WalletSignable>>, st: Option<Signable>, slot: Mining.Slot) {
    match (handed, st)
    case (None, None) => r.Err? && StopsEarly(c, list, r.error)
    case (Some(out), None) => false
    case (Some(out), Some(s)) =>
      !timedOut && HandsOver(c, list, s, slot, out) && DaemonAnswers(c.daemon, out, r)
    case (None, Some(s)) =>
      && ReachesMiner(c, list, s)
      && r.Err?
      && match r.error
         case MiningTimeout => timedOut
         case NonceExhausted => !timedOut && Mining.NoHitBefore(c.lib.idOf, c.minerPrefix, s.tx, Mining.SEARCH_END)
         case LaneEnforcementFailed(e) =>
           && !timedOut && Mining.FirstHit(c.lib.idOf, c.minerPrefix, s.tx, slot)
           && Gate(c, MinedSignable(c.lib, s, slot), Lane.PreBroadcast) == Err(e)
         case _ => false
  }

  /** `timedOut` is the clock's verdict on the mining task. */
  method CompleteTransactionFlow(c: Caller, list: array<WalletSignable>, timedOut: bool)
    returns (r: Result<string, FlowError>, handed: Option<seq<WalletSignable>>,
             ghost st: Option<Signable>, ghost slot: Mining.Slot)
    modifies list
    ensures FlowEnds(c, old(list[..]), timedOut, r, handed, st, slot)
    ensures list[..] == if handed.Some? then handed.value else old(list[..])
  {
    handed, st, slot := None, None, Mining.Slot(0, 0);
    var prepared := PrepareForMining(c, list);
    if prepared.Err? {
      return Err(prepared.error), None, None, slot;
    }
    st := Some(prepared.value);
    if timedOut {
      return Err(MiningTimeout), None, st, slot;
    }

    var work := new SignableTransaction(prepared.value);
    ghost var finalizations;
    var result;
    result, slot, finalizations := Mining.MineBlocking(c.lib.idOf, work, c.minerPrefix);
    if result.NonceExhaustion? {
      return Err(NonceExhausted), None, st, slot;
    }
    var mined := work.Snapshot();
    assert mined == MinedSignable(c.lib, prepared.value, slot);

    var gate := Gate(c, mined, Lane.PreBroadcast);
    if gate.Err? {
      return Err(LaneEnforcementFailed(gate.error)), None, st, slot;
    }
    var last := list.Length - 1;
    ReencodingSucceeds(c.lib, list[last], prepared.value, slot);
    var updated := UpdateProtoWithMinedTransaction(list, last, mined);
    assert updated.Ok?;  // so the caller's encoding-failed branch is dead
    handed := Some(list[..]);
    r := Reply(c.daemon, list[..]);
    DaemonAnswersOnce(c.daemon, list[..], r);
  }

  // ----- the flow as a function of the daemon and the clock -----

  predicate Broadcasts(d: Daemon, handed: seq<WalletSignable>) {
    var signed := d.sign(handed);
    && signed.Some?
    && d.broadcast(signed.value).Some?
    && d.broadcast(signed.value).value != []
  }

  /** One list, at most, is handed over for what the daemon created. */
  lemma HandedOverOnce(c: Caller, list: seq<WalletSignable>,
                       st1: Signable, slot1: Mining.Slot, out1: seq<WalletSignable>,
                       st2: Signable, slot2: Mining.Slot, out2: seq<WalletSignable>)
    ensures HandsOver(c, list, st1, slot1, out1) && HandsOver(c, list, st2, slot2, out2) ==>
      st1 == st2 && slot1 == slot2 && out1 == out2
  {
    if HandsOver(c, list, st1, slot1, out1) && HandsOver(c, list, st2, slot2, out2) {
      Mining.FirstHitIsUnique(c.lib.idOf, c.minerPrefix, st1.tx, slot1, slot2);
    }
  }

  /** The flow succeeds exactly when mining beats the clock and a list that is handed over comes back
      signed and is broadcast under some id. */
  lemma FlowSuccessIsExact(c: Caller, list: seq<WalletSignable>, timedOut: bool, r: Result<string, FlowError>,
                           handed: Option<seq<WalletSignable>>, st: Option<Signable>, slot: Mining.Slot)
    requires FlowEnds(c, list, timedOut, r, handed, st, slot)
    ensures r.Ok? <==> !timedOut && exists s, at, out :: HandsOver(c, list, s, at, out) && Broadcasts(c.daemon, out)
    ensures r.Ok? ==>
      && handed.Some? && st.Some?
      && HandsOver(c, list, st.value, slot, handed.value) && Broadcasts(c.daemon, handed.value)
  {
    if s, at, out :| HandsOver(c, list, s, at, out) && Broadcasts(c.daemon, out) {
      if handed.Some? {
        HandedOverOnce(c, list, s, at, out, st.value, slot, handed.value);
      } else if st.Some? && r.error.NonceExhausted? {
        Mining.HitIsBeforeTheEnd(c.lib.idOf, c.minerPrefix, s.tx, at);
      } else if st.Some? && r.error.LaneEnforcementFailed? {
        Mining.FirstHitIsUnique(c.lib.idOf, c.minerPrefix, s.tx, at, slot);
      }
    }
  }

  // ----- what is true of everything handed to signing -----

  lemma DecodedFrom(lib: Library, w: WalletSignable, st: Signable)
    requires ProtoToSignableTransaction(lib, w) == Ok(st)
    ensures Carried(lib, st)
    ensures w.transaction.Some?
  {
    match w.transaction
    case Some(SignedTransaction(Some(Partially(p)))) => DecodedIsCarried(lib, p);
    case _ =>
  }

  lemma MinedIsCarried(lib: Library, st: Signable, slot: Mining.Slot)
    requires Carried(lib, st)
    ensures Carried(lib, MinedSignable(lib, st, slot))
  {
  }

  /** Encoding the mined transaction never fails: the flow has no EncodingFailed outcome. */
  lemma ReencodingSucceeds(lib: Library, w: WalletSignable, st: Signable, slot: Mining.Slot)
    requires ProtoToSignableTransaction(lib, w) == Ok(st)
    ensures WithMinedTransaction(w, MinedSignable(lib, st, slot)).Ok?
  {
    DecodedFrom(lib, w, st);
    MinedIsCarried(lib, st, slot);
    KaspaRoundTrip(lib, MinedSignable(lib, st, slot));
  }

  /** What the daemon is asked to sign decodes to exactly the mined transaction. */
  lemma HandedDecodesToMined(c: Caller, list: seq<WalletSignable>, st: Signable, slot: Mining.Slot,
                             out: seq<WalletSignable>)
    requires HandsOver(c, list, st, slot, out)
    ensures ProtoToSignableTransaction(c.lib, out[|out| - 1]) == Ok(MinedSignable(c.lib, st, slot))
    ensures ProtoPayloadLen(out[|out| - 1]) == |Mining.Candidate(st.tx, slot).payload|
  {
    var w := list[|list| - 1];
    DecodedFrom(c.lib, w, st);
    MinedIsCarried(c.lib, st, slot);
    KaspaRoundTrip(c.lib, MinedSignable(c.lib, st, slot));
  }

  /** The four KIP-21 invariants of a list about to be signed, read off the list itself: earlier
      entries carry no payload, and the last one decodes to a lane transaction whose recomputed id
      has the prefix. */
  ghost predicate SafeToSign(lib: Library, e: Lane.LaneEnforcement, out: seq<WalletSignable>) {
    && out != []
    && StagingClean(out)
    && var decoded := ProtoToSignableTransaction(lib, out[|out| - 1]);
      && decoded.Ok?
      && Lane.OnLane(decoded.value.tx, e.lane)
      && e.txIdPrefix <= lib.idOf(decoded.value.tx)
      && ProtoPayloadLen(out[|out| - 1]) >= Lane.MIN_LANE_PAYLOAD_LEN
  }

  /** Broadcast safety, for every daemon response, id function and miner prefix. */
  lemma BroadcastSafety(c: Caller, list: seq<WalletSignable>, st: Signable, slot: Mining.Slot, out: seq<WalletSignable>)
    requires HandsOver(c, list, st, slot, out) && c.enforcement.Some?
    ensures SafeToSign(c.lib, c.enforcement.value, out)
  {
    HandedDecodesToMined(c, list, st, slot, out);
    assert forall i :: 0 <= i < |out| - 1 ==> out[i] == list[i];
  }

  function DaemonMessage(w: WalletSignable): Option<ProtoSignable> {
    match w.transaction
    case Some(SignedTransaction(Some(Partially(p)))) => Some(p)
    case _ => None
  }

  /** Frame: the list handed to signing is the daemon's but for its last message, and that message is
      the daemon's in normal form with payload tail, output values and id replaced; at most three
      units of value are missing. Even without lane enforcement the id has the miner's prefix. */
  lemma HandedFrame(c: Caller, list: seq<WalletSignable>, st: Signable, slot: Mining.Slot, out: seq<WalletSignable>)
    requires HandsOver(c, list, st, slot, out)
    ensures |out| == |list| && out[..|out| - 1] == list[..|list| - 1]
    ensures out[|out| - 1].rest == list[|list| - 1].rest
    ensures var before, mined := DaemonMessage(list[|list| - 1]), Mining.Candidate(st.tx, slot);
      && before.Some? && before.value.tx.Some?
      && before.value.tx.value.version <= U16_MAX
      && |before.value.tx.value.outputs| == |mined.outputs|
      && DaemonMessage(out[|out| - 1]) == Some(WireForm(c.lib, before.value, mined))
      && SameButPayloadAndValues(st.tx, mined)
      && Mining.Message(mined.payload) == Mining.Message(st.tx.payload)
      && Mining.Total(st.tx.outputs) - 3 <= Mining.Total(mined.outputs) <= Mining.Total(st.tx.outputs)
    ensures c.minerPrefix <= c.lib.idOf(Mining.Candidate(st.tx, slot))
  {
    Mining.MiningFrame(st.tx, slot);
    Mining.MiningConservesValue(st.tx, slot);
    match list[|list| - 1].transaction
    case Some(SignedTransaction(Some(Partially(p)))) =>
      EditedWireForm(c.lib, p, Mining.Candidate(st.tx, slot));
    case _ =>
  }

  /** When the gate and the miner are configured with the same prefix (as the server does), the
      gate before broadcast never rejects: a list that reaches the miner and is mined is signed. */
  lemma SecondGateNeverRejects(c: Caller, list: seq<WalletSignable>, st: Signable, slot: Mining.Slot)
    requires ReachesMiner(c, list, st)
    requires Mining.FirstHit(c.lib.idOf, c.minerPrefix, st.tx, slot)
    requires c.enforcement.Some? ==> c.enforcement.value.txIdPrefix <= c.minerPrefix
    ensures Gate(c, MinedSignable(c.lib, st, slot), Lane.PreBroadcast).Ok?
  {
    if c.enforcement.Some? {
      var mined := MinedSignable(c.lib, st, slot);
      var stats := Mining.MiningStats(slot.nonce, mined.id);
      assert Mining.MinesAt(c.lib.idOf, c.minerPrefix, st, Mining.Mined(stats), mined, slot, Mining.Index(slot) + 1);
      assert Mining.MinesTo(c.lib.idOf, c.minerPrefix, st, Mining.Mined(stats), mined);
      Lane.GateSubsumption(c.lib.idOf, st, Mining.Mined(stats), mined, c.enforcement.value, c.minerPrefix);
    }
  }

  // ----- end to end: the L2 message -----

  function LastPayload(lib: Library, list: seq<WalletSignable>): Option<seq<byte>> {
    if list == [] then None
    else
      match ProtoToSignableTransaction(lib, list[|list| - 1])
      case Err(_) => None
      case Ok(st) => Some(st.tx.payload)
  }

  /** If the daemon put the submitted payload on its last transaction, the broadcast payload reads
      as the same message; only the nonce differs, and it is the reported one, big-endian. */
  lemma MessageSurvives(c: Caller, list: seq<WalletSignable>, st: Signable, slot: Mining.Slot, out: seq<WalletSignable>,
                        message: Payload.IgraPayload, submitted: seq<byte>)
    requires HandsOver(c, list, st, slot, out)
    requires Payload.Parse(submitted) == Some(message)
    requires LastPayload(c.lib, list) == Some(submitted)
    ensures LastPayload(c.lib, out).Some?
    ensures var broadcast := LastPayload(c.lib, out).value;
      && |broadcast| == |submitted|
      && broadcast[..|broadcast| - 4] == submitted[..|submitted| - 4]
      && Payload.Parse(broadcast)
        == Some(message.(nonce := Bytes.BigEndian(slot.nonce, Payload.NONCE_SIZE)))
      && Bytes.FromBigEndian(Payload.Parse(broadcast).value.nonce) == slot.nonce
  {
    var nonce := Bytes.BigEndian(slot.nonce, Payload.NONCE_SIZE);
    HandedDecodesToMined(c, list, st, slot, out);
    NonceReadsBack(slot.nonce);
    Payload.NonceOverwrite(submitted, nonce);
    MinedPayload(c.lib, st, slot);
  }

  lemma MinedPayload(lib: Library, st: Signable, slot: Mining.Slot)
    requires |st.tx.payload| >= Payload.NONCE_SIZE
    ensures MinedSignable(lib, st, slot).tx.payload
      == st.tx.payload[..|st.tx.payload| - Payload.NONCE_SIZE] + Bytes.BigEndian(slot.nonce, Payload.NONCE_SIZE)
  {
  }

  lemma NonceReadsBack(nonce: u32)
    ensures Bytes.FromBigEndian(Bytes.BigEndian(nonce, Payload.NONCE_SIZE)) == nonce
  {
    Bytes.Widths();
    Bytes.BigEndianRoundTrip(nonce, Payload.NONCE_SIZE);
  }

  /** A relayed Ethereum transaction is recovered, byte for byte, from what is broadcast. */
  lemma RelayedTransactionSurvives(c: Caller, list: seq<WalletSignable>, st: Signable, slot: Mining.Slot,
                                   out: seq<WalletSignable>,
                                   inflate: seq<byte> -> seq<byte>, compress: Payload.Compressor,
                                   txBytes: seq<byte>, submitted: seq<byte>)
    requires Payload.Inflates(inflate, compress)
    requires Payload.Parse(submitted) == Some(Payload.Wrap(compress, txBytes))
    ensures HandsOver(c, list, st, slot, out) && LastPayload(c.lib, list) == Some(submitted) ==>
      && LastPayload(c.lib, out).Some?
      && Payload.Parse(LastPayload(c.lib, out).value).Some?
      && Payload.Unwrap(inflate, Payload.Parse(LastPayload(c.lib, out).value).value) == txBytes
  {
    if HandsOver(c, list, st, slot, out) && LastPayload(c.lib, list) == Some(submitted) {
      MessageSurvives(c, list, st, slot, out, Payload.Wrap(compress, txBytes), submitted);
      Payload.WrapLosesNothing(inflate, compress, txBytes);
    }
  }

  /** The address and amount of an Entry request are recovered from what is broadcast. */
  lemma EntryRequestSurvives(c: Caller, list: seq<WalletSignable>, st: Signable, slot: Mining.Slot,
                             out: seq<WalletSignable>,
                             address: seq<byte>, amount: u64, message: Payload.IgraPayload, submitted: seq<byte>)
    requires HandsOver(c, list, st, slot, out)
    requires |message.l2Data| == Payload.L2_DATA_SIZE
    requires Payload.EntryAddress(message.l2Data) == address && Payload.EntryAmount(message.l2Data) == amount
    requires Payload.Parse(submitted) == Some(message)
    requires LastPayload(c.lib, list) == Some(submitted)
    ensures LastPayload(c.lib, out).Some? && Payload.Parse(LastPayload(c.lib, out).value).Some?
    ensures var read := Payload.Parse(LastPayload(c.lib, out).value).value;
      && |read.l2Data| == Payload.L2_DATA_SIZE
      && read.txTypeId == message.txTypeId
      && Payload.EntryAddress(read.l2Data) == address && Payload.EntryAmount(read.l2Data) == amount
  {
    MessageSurvives(c, list, st, slot, out, message, submitted);
  }

  /** The flow never compares the daemon's payload with the submitted one: the broadcast carries
      the submitted message (everything before the nonce) exactly when the daemon's last
      transaction already did. */
  lemma MessageIsTheDaemons(c: Caller, list: seq<WalletSignable>, st: Signable, slot: Mining.Slot,
                            out: seq<WalletSignable>,
                            submitted: seq<byte>)
    requires HandsOver(c, list, st, slot, out)
    ensures LastPayload(c.lib, out).Some? && LastPayload(c.lib, list).Some?
    ensures Mining.Message(LastPayload(c.lib, out).value) == Mining.Message(submitted)
      <==> Mining.Message(LastPayload(c.lib, list).value) == Mining.Message(submitted)
  {
    HandedDecodesToMined(c, list, st, slot, out);
    Mining.MiningFrame(st.tx, slot);
  }

  // ----- a daemon that answers with another message -----

  function LaneTransaction(lane: SubnetworkId, payload: seq<byte>): Transaction {
    Transaction(TX_VERSION_TOCCATA, [], [], 0, lane, 0, payload)
  }

  /** A one-entry list with this payload on the lane. */
  function Response(lane: SubnetworkId, payload: seq<byte>): WalletSignable {
    var tx := ProtoTransaction(TX_VERSION_TOCCATA, [], [], 0, lane, 0, payload, NullHash());
    WalletSignable(Some(SignedTransaction(Some(Partially(ProtoSignable(Some(tx), [], None, None))))), [])
  }

  lemma ResponseDecodes(lib: Library, lane: SubnetworkId, payload: seq<byte>)
    ensures var tx := LaneTransaction(lane, payload);
      ProtoToSignableTransaction(lib, Response(lane, payload)) == Ok(Signable(tx, lib.idOf(tx), [], None, None))
  {
  }

  lemma ResponseReachesMiner(c: Caller, e: Lane.LaneEnforcement, payload: seq<byte>)
    requires c.enforcement == Some(e) && |payload| >= Lane.MIN_LANE_PAYLOAD_LEN
    ensures var tx := LaneTransaction(e.lane, payload);
      ReachesMiner(c, [Response(e.lane, payload)], Signable(tx, c.lib.idOf(tx), [], None, None))
  {
    ResponseDecodes(c.lib, e.lane, payload);
  }

  /** The flow never looks at what was submitted. For every caller whose gate and miner agree, a
      one-entry response on the lane with any other message is handed to signing exactly when mining
      it finds the prefix, and what is handed over carries that other message. */
  lemma ForeignPayloadIsSigned(c: Caller, e: Lane.LaneEnforcement, foreign: seq<byte>, submitted: seq<byte>)
    requires c.enforcement == Some(e) && c.minerPrefix == e.txIdPrefix
    requires |foreign| >= Lane.MIN_LANE_PAYLOAD_LEN && Mining.Message(foreign) != Mining.Message(submitted)
    ensures (exists st, slot, out :: HandsOver(c, [Response(e.lane, foreign)], st, slot, out)) <==>
      !Mining.NoHitBefore(c.lib.idOf, c.minerPrefix, LaneTransaction(e.lane, foreign), Mining.SEARCH_END)
    ensures forall st, slot, out :: HandsOver(c, [Response(e.lane, foreign)], st, slot, out) ==>
      LastPayload(c.lib, out).Some? && Mining.Message(LastPayload(c.lib, out).value) != Mining.Message(submitted)
  {
    var list := [Response(e.lane, foreign)];
    ResponseReachesMiner(c, e, foreign);
    ResponseDecodes(c.lib, e.lane, foreign);
    forall st, slot, out | HandsOver(c, list, st, slot, out)
      ensures !Mining.NoHitBefore(c.lib.idOf, c.minerPrefix, LaneTransaction(e.lane, foreign), Mining.SEARCH_END)
      ensures LastPayload(c.lib, out).Some?
      ensures Mining.Message(LastPayload(c.lib, out).value) != Mining.Message(submitted)
    {
      Mining.HitIsBeforeTheEnd(c.lib.idOf, c.minerPrefix, st.tx, slot);
      MessageIsTheDaemons(c, list, st, slot, out, submitted);
    }
    if !Mining.NoHitBefore(c.lib.idOf, c.minerPrefix, LaneTransaction(e.lane, foreign), Mining.SEARCH_END) {
      var st, slot, out := MatchIsHandedOver(c, e, foreign);
    }
  }

  lemma MatchIsHandedOver(c: Caller, e: Lane.LaneEnforcement, payload: seq<byte>)
    returns (st: Signable, slot: Mining.Slot, out: seq<WalletSignable>)
    requires c.enforcement == Some(e) && c.minerPrefix == e.txIdPrefix
    requires |payload| >= Lane.MIN_LANE_PAYLOAD_LEN
    requires !Mining.NoHitBefore(c.lib.idOf, c.minerPrefix, LaneTransaction(e.lane, payload), Mining.SEARCH_END)
    ensures HandsOver(c, [Response(e.lane, payload)], st, slot, out)
  {
    var list, tx := [Response(e.lane, payload)], LaneTransaction(e.lane, payload);
    st := Signable(tx, c.lib.idOf(tx), [], None, None);
    ResponseReachesMiner(c, e, payload);
    ResponseDecodes(c.lib, e.lane, payload);
    var hit :| Mining.Before(hit, Mining.SEARCH_END) && Mining.Hit(c.lib.idOf, c.minerPrefix, tx, hit);
    slot := Mining.FirstHitExists(c.lib.idOf, c.minerPrefix, tx, hit);
    SecondGateNeverRejects(c, list, st, slot);
    ReencodingSucceeds(c.lib, list[0], st, slot);
    out := list[0 := WithMinedTransaction(list[0], MinedSignable(c.lib, st, slot)).value];
  }
}
