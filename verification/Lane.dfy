/** The KIP-21 lane gate (src/services/lane.rs): four invariants checked before mining and,
    with the id prefix added, again before broadcast. */
module Lane {
  import opened Primitives
  import opened Kaspa
  import Mining

  const MIN_LANE_PAYLOAD_LEN := Mining.NONCE_LEN + 1

  datatype Stage = PreMining | PreBroadcast

  datatype Invariant = Version | Subnetwork | Payload | Prefix

  /** The error a client sees: the stage and the failing invariant class, nothing else. */
  datatype LaneError = LaneError(stage: Stage, failing: Invariant)

  datatype LaneEnforcement = LaneEnforcement(lane: SubnetworkId, txIdPrefix: seq<byte>)

  function NewLaneEnforcement(lane: SubnetworkId, txIdPrefix: seq<byte>): Result<LaneEnforcement, string> {
    if txIdPrefix == [] then Err("tx_id_prefix must be non-empty")
    else Ok(LaneEnforcement(lane, txIdPrefix))
  }

  function ValidateLaneTransaction(st: Signable, lane: SubnetworkId, prefix: seq<byte>, stage: Stage)
    : Result<(), LaneError>
  {
    if st.tx.version < TX_VERSION_TOCCATA then Err(LaneError(stage, Version))
    else if st.tx.subnetworkId != lane then Err(LaneError(stage, Subnetwork))
    else if |st.tx.payload| < MIN_LANE_PAYLOAD_LEN then Err(LaneError(stage, Payload))
    else if stage == PreBroadcast && !(prefix <= st.id) then Err(LaneError(stage, Prefix))
    else Ok(())
  }

  /** The constructor accepts exactly the prefixes some transaction id can fail to have, so the
      prefix invariant is never vacuous. */
  lemma PrefixIsNeverVacuous(lane: SubnetworkId, prefix: seq<byte>)
    ensures NewLaneEnforcement(lane, prefix).Ok? <==> exists st :: !Holds(Prefix, st, lane, prefix)
    ensures NewLaneEnforcement(lane, prefix).Ok? ==>
      NewLaneEnforcement(lane, prefix).value == LaneEnforcement(lane, prefix)
  {
    if prefix != [] {
      var id := Adversary([], prefix);
      var tx := Transaction(TX_VERSION_TOCCATA, [], [], 0, lane, 0, []);
      assert !Holds(Prefix, Signable(tx, id, [], None, None), lane, prefix);
    }
  }

  /** The three invariants that do not depend on the id. */
  predicate OnLane(tx: Transaction, lane: SubnetworkId) {
    tx.version >= TX_VERSION_TOCCATA && tx.subnetworkId == lane && |tx.payload| >= MIN_LANE_PAYLOAD_LEN
  }

  predicate Holds(i: Invariant, st: Signable, lane: SubnetworkId, prefix: seq<byte>) {
    match i
    case Version => st.tx.version >= TX_VERSION_TOCCATA
    case Subnetwork => st.tx.subnetworkId == lane
    case Payload => Mining.Message(st.tx.payload) != []
    case Prefix => prefix <= st.id
  }

  /** The order in which the invariants are checked. */
  function Rank(i: Invariant): nat {
    match i
    case Version => 1
    case Subnetwork => 2
    case Payload => 3
    case Prefix => 4
  }

  predicate CheckedAt(i: Invariant, stage: Stage) {
    i.Prefix? ==> stage == PreBroadcast
  }

  /** The gate passes exactly when every invariant of its stage holds, and otherwise names its stage
      and the first one that fails. The payload invariant is that mining leaves some message. */
  lemma GateNamesFirstFailure(st: Signable, lane: SubnetworkId, prefix: seq<byte>, stage: Stage)
    ensures match ValidateLaneTransaction(st, lane, prefix, stage)
      case Ok(_) => forall i :: CheckedAt(i, stage) ==> Holds(i, st, lane, prefix)
      case Err(e) =>
        && e.stage == stage && CheckedAt(e.failing, stage) && !Holds(e.failing, st, lane, prefix)
        && forall i :: Rank(i) < Rank(e.failing) ==> Holds(i, st, lane, prefix)
  {
    PayloadBoundIsExact(st.tx.payload);
  }

  /** A lane transaction keeps at least one byte of L2 message under mining, and no shorter
      payload does: the payload invariant is the exact bound. */
  lemma PayloadBoundIsExact(payload: seq<byte>)
    ensures Mining.Message(payload) != [] <==> |payload| >= MIN_LANE_PAYLOAD_LEN
  {
  }

  /** Mining commutes with the gate: for a mined transaction the second gate asks only for the
      prefix more than the first gate asked of the original. */
  lemma MiningCommutesWithGate(idOf: Transaction -> Hash, before: Signable,
                               slot: Mining.Slot, stats: Mining.MiningStats,
                               after: Signable, lane: SubnetworkId, prefix: seq<byte>)
    requires slot.round < Mining.ROUNDS && Mining.MinedAt(idOf, before, slot, stats, after)
    ensures ValidateLaneTransaction(after, lane, prefix, PreBroadcast).Ok?
      <==> ValidateLaneTransaction(before, lane, prefix, PreMining).Ok? && prefix <= idOf(after.tx)
  {
    Mining.MiningFrame(before.tx, slot);
  }

  /** Gate subsumption: when the gate's prefix begins the miner's, a transaction that passed the
      first gate and was mined passes the second, for every id function. */
  lemma GateSubsumption(idOf: Transaction -> Hash, before: Signable, result: Mining.MiningResult,
                        after: Signable, e: LaneEnforcement, minerPrefix: seq<byte>)
    requires ValidateLaneTransaction(before, e.lane, e.txIdPrefix, PreMining).Ok?
    requires Mining.MinesTo(idOf, minerPrefix, before, result, after) && result.Mined?
    requires e.txIdPrefix <= minerPrefix
    ensures ValidateLaneTransaction(after, e.lane, e.txIdPrefix, PreBroadcast).Ok?
    ensures after.id == idOf(after.tx)
  {
    var slot, n :| Mining.MinesAt(idOf, minerPrefix, before, result, after, slot, n);
    MiningCommutesWithGate(idOf, before, slot, result.stats, after, e.lane, e.txIdPrefix);
  }

  lemma ShorterPrefix(a: seq<byte>, b: seq<byte>, whole: seq<byte>)
    requires b <= whole
    ensures a <= whole && |a| <= |b| ==> a <= b
  {
  }

  /** An id that begins with the miner's prefix and not with the gate's. */
  function Adversary(minerPrefix: seq<byte>, gatePrefix: seq<byte>): (id: Hash)
    requires |minerPrefix| <= HASH_SIZE && !(gatePrefix <= minerPrefix)
    ensures minerPrefix <= id && !(gatePrefix <= id)
  {
    var n := |minerPrefix|;
    var filler: byte := if n < |gatePrefix| && gatePrefix[n] == 0 then 1 else 0;
    var id := minerPrefix + seq(HASH_SIZE - n, _ => filler);
    assert id[..n] == minerPrefix;
    if n < |gatePrefix| && n < HASH_SIZE then
      assert id[n] != gatePrefix[n];
      id
    else
      ShorterPrefix(gatePrefix, minerPrefix, id);
      id
  }

  /** The prefix relation is needed: the second gate is redundant for every id function and every
      transaction that passes the first exactly when the gate's prefix begins the miner's. */
  lemma GateSubsumptionIsExact(e: LaneEnforcement, minerPrefix: seq<byte>)
    requires |minerPrefix| <= HASH_SIZE
    ensures e.txIdPrefix <= minerPrefix <==>
      forall idOf: Transaction -> Hash, before: Signable, result: Mining.MiningResult, after: Signable ::
        && ValidateLaneTransaction(before, e.lane, e.txIdPrefix, PreMining).Ok?
        && Mining.MinesTo(idOf, minerPrefix, before, result, after) && result.Mined?
        ==> ValidateLaneTransaction(after, e.lane, e.txIdPrefix, PreBroadcast).Ok?
  {
    if e.txIdPrefix <= minerPrefix {
      forall idOf: Transaction -> Hash, before: Signable, result: Mining.MiningResult, after: Signable |
        && ValidateLaneTransaction(before, e.lane, e.txIdPrefix, PreMining).Ok?
        && Mining.MinesTo(idOf, minerPrefix, before, result, after) && result.Mined?
        ensures ValidateLaneTransaction(after, e.lane, e.txIdPrefix, PreBroadcast).Ok?
      {
        GateSubsumption(idOf, before, result, after, e, minerPrefix);
      }
    } else {
      var bad := Adversary(minerPrefix, e.txIdPrefix);
      var idOf: Transaction -> Hash := (t: Transaction) => bad;
      var tx := Transaction(TX_VERSION_TOCCATA, [], [], 0, e.lane, 0, [0, 0, 0, 0, 0]);
      var before := Signable(tx, bad, [], None, None);
      var after := before.(tx := Mining.Candidate(tx, Mining.Slot(0, 0)), id := bad);
      var stats := Mining.MiningStats(0, bad);
      assert Mining.FirstHit(idOf, minerPrefix, tx, Mining.Slot(0, 0));
      assert Mining.MinesAt(idOf, minerPrefix, before, Mining.Mined(stats), after, Mining.Slot(0, 0), 1);
      assert Mining.MinesTo(idOf, minerPrefix, before, Mining.Mined(stats), after);
      assert !ValidateLaneTransaction(after, e.lane, e.txIdPrefix, PreBroadcast).Ok?;
    }
  }
}
