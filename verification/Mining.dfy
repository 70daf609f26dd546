/** The nonce miner (src/services/mining.rs): a search over 2^32 nonces in each of four
    rounds, where running out of nonces lowers one output value by one. A position of the search is
    a round and a nonce. */
module Mining {
  import opened Primitives
  import opened Kaspa
  import Bytes

  const NONCE_LEN := 4
  const NONCES: nat := 0x1_0000_0000
  const MAX_NONCE_EXHAUSTION_ATTEMPTS: nat := 3
  const ROUNDS: nat := MAX_NONCE_EXHAUSTION_ATTEMPTS + 1

  datatype MiningStats = MiningStats(noncesTried: u32, finalTransactionId: Hash)

  datatype MiningResult = Mined(stats: MiningStats) | NonceExhaustion(noncesTried: u32)

  // ----- specification -----

  /** The payload without the four bytes mining overwrites. */
  function Message(payload: seq<byte>): seq<byte> {
    if |payload| >= NONCE_LEN then payload[..|payload| - NONCE_LEN] else []
  }

  function WithNonce(payload: seq<byte>, nonce: nat): seq<byte> {
    Message(payload) + Bytes.BigEndian(nonce, NONCE_LEN)
  }

  /** The output the fallback of round `round` selects, if it can still be lowered. */
  predicate Lowers(outputs: seq<Output>, round: nat) {
    |outputs| > 0 && outputs[round % |outputs|].value > 0
  }

  function LowerOne(outputs: seq<Output>, round: nat): (r: seq<Output>)
    ensures |r| == |outputs|
  {
    if Lowers(outputs, round) then
      var i := round % |outputs|;
      outputs[i := outputs[i].(value := outputs[i].value - 1)]
    else outputs
  }

  /** The outputs after `rounds` exhausted rounds. */
  function Fallback(outputs: seq<Output>, rounds: nat): (r: seq<Output>)
    ensures |r| == |outputs|
  {
    if rounds == 0 then outputs
    else LowerOne(Fallback(outputs, rounds - 1), rounds - 1)
  }

  /** The transaction finalized for one nonce in one round. */
  function Variant(tx: Transaction, round: nat, nonce: nat): Transaction {
    tx.(payload := WithNonce(tx.payload, nonce), outputs := Fallback(tx.outputs, round))
  }

  datatype Slot = Slot(round: nat, nonce: u32)

  predicate Before(a: Slot, b: Slot) {
    a.round < b.round || (a.round == b.round && a.nonce < b.nonce)
  }

  /** How many positions come before this one. */
  function Index(slot: Slot): nat {
    slot.round * NONCES + slot.nonce
  }

  /** The positions just past the first round and past the last. */
  const FIRST_ROUND_END := Slot(1, 0)
  const SEARCH_END := Slot(ROUNDS, 0)

  function Candidate(tx: Transaction, slot: Slot): Transaction {
    Variant(tx, slot.round, slot.nonce)
  }

  predicate CheckPrefix(id: Hash, prefix: seq<byte>) {
    prefix <= id
  }

  predicate Hit(idOf: Transaction -> Hash, prefix: seq<byte>, tx: Transaction, slot: Slot) {
    prefix <= idOf(Candidate(tx, slot))
  }

  ghost predicate NoHitBefore(idOf: Transaction -> Hash, prefix: seq<byte>, tx: Transaction, bound: Slot) {
    forall slot :: Before(slot, bound) ==> !Hit(idOf, prefix, tx, slot)
  }

  ghost predicate FirstHit(idOf: Transaction -> Hash, prefix: seq<byte>, tx: Transaction, slot: Slot) {
    slot.round < ROUNDS && Hit(idOf, prefix, tx, slot) && NoHitBefore(idOf, prefix, tx, slot)
  }

  ghost predicate MinedAt(idOf: Transaction -> Hash, before: Signable, slot: Slot,
                          stats: MiningStats, after: Signable) {
    && after == before.(tx := Candidate(before.tx, slot), id := idOf(Candidate(before.tx, slot)))
    && stats == MiningStats(slot.nonce, after.id)
  }

  /** `result` and `after` are what mining `before` yields after computing `finalizations` ids, with
      `slot` the winning position if there is one. */
  ghost predicate MinesAt(idOf: Transaction -> Hash, prefix: seq<byte>, before: Signable, result: MiningResult,
                          after: Signable, slot: Slot, finalizations: nat) {
    match result
    case Mined(stats) =>
      && FirstHit(idOf, prefix, before.tx, slot)
      && MinedAt(idOf, before, slot, stats, after)
      && finalizations == Index(slot) + 1
    case NonceExhaustion(tried) =>
      && tried == U32_MAX
      && NoHitBefore(idOf, prefix, before.tx, SEARCH_END)
      && finalizations == Index(SEARCH_END)
  }

  ghost predicate MinesTo(idOf: Transaction -> Hash, prefix: seq<byte>, before: Signable,
                          result: MiningResult, after: Signable) {
    exists slot, finalizations :: MinesAt(idOf, prefix, before, result, after, slot, finalizations)
  }

  // ----- the loop -----

  /** Overwrite the last four payload bytes and recompute the id. */
  method FinalizeWithNonce(idOf: Transaction -> Hash, st: SignableTransaction, nonce: u32)
    requires |st.tx.payload| >= NONCE_LEN
    modifies st
    ensures st.tx == old(st.tx).(payload := WithNonce(old(st.tx.payload), nonce))
    ensures st.id == idOf(st.tx)
  {
    var tail := |st.tx.payload| - NONCE_LEN;
    st.tx := st.tx.(payload := st.tx.payload[..tail] + Bytes.BigEndian(nonce, NONCE_LEN));
    st.Finalize(idOf);
  }

  /** The fallback between two rounds. */
  method LowerSelectedOutput(st: SignableTransaction, exhausted: nat)
    modifies st`tx
    ensures st.tx == old(st.tx).(outputs := LowerOne(old(st.tx.outputs), exhausted))
  {
    if |st.tx.outputs| > 0 {
      var i := exhausted % |st.tx.outputs|;
      var value := st.tx.outputs[i].value;
      if value > 0 {
        st.tx := st.tx.(outputs := st.tx.outputs[i := st.tx.outputs[i].(value := value - 1)]);
      }
    }
  }

  method ReserveNonce(st: SignableTransaction, nonce: u32)
    modifies st`tx
    ensures st.tx == old(st.tx).(payload := WithNonce(old(st.tx.payload), nonce))
  {
    var original := st.tx.payload;
    var baseLength := if |original| >= NONCE_LEN then |original| - NONCE_LEN else 0;
    st.tx := st.tx.(payload := original[..baseLength] + Bytes.BigEndian(nonce, NONCE_LEN));
  }

  lemma WithNonceKeepsMessage(payload: seq<byte>, nonce: nat)
    ensures Message(WithNonce(payload, nonce)) == Message(payload)
    ensures |WithNonce(payload, nonce)| >= NONCE_LEN
  {
  }

  /** The loop invariant: `tx` is some candidate of the current round, and no position before `at`
      matches. */
  ghost predicate Searching(idOf: Transaction -> Hash, prefix: seq<byte>, tx0: Transaction, tx: Transaction, at: Slot) {
    && at.round <= MAX_NONCE_EXHAUSTION_ATTEMPTS
    && (exists last: u32 :: tx == Candidate(tx0, Slot(at.round, last)))
    && NoHitBefore(idOf, prefix, tx0, at)
  }

  lemma SearchStarts(idOf: Transaction -> Hash, prefix: seq<byte>, tx0: Transaction)
    ensures Searching(idOf, prefix, tx0, tx0.(payload := WithNonce(tx0.payload, 0)), Slot(0, 0))
  {
    assert tx0.(payload := WithNonce(tx0.payload, 0)) == Candidate(tx0, Slot(0, 0));
  }

  /** Writing a nonce over the last one gives the candidate of that nonce. */
  lemma SearchFinalizes(idOf: Transaction -> Hash, prefix: seq<byte>, tx0: Transaction, tx: Transaction, at: Slot)
    requires Searching(idOf, prefix, tx0, tx, at)
    ensures |tx.payload| >= NONCE_LEN
    ensures tx.(payload := WithNonce(tx.payload, at.nonce)) == Candidate(tx0, at)
  {
    var last: u32 :| tx == Candidate(tx0, Slot(at.round, last));
    WithNonceKeepsMessage(tx0.payload, last);
  }

  lemma SearchNextNonce(idOf: Transaction -> Hash, prefix: seq<byte>, tx0: Transaction, at: Slot)
    requires NoHitBefore(idOf, prefix, tx0, at) && at.round <= MAX_NONCE_EXHAUSTION_ATTEMPTS
    requires at.nonce < U32_MAX
    requires !Hit(idOf, prefix, tx0, at)
    ensures Searching(idOf, prefix, tx0, Candidate(tx0, at), Slot(at.round, at.nonce + 1))
  {
    forall slot | Before(slot, Slot(at.round, at.nonce + 1)) ensures !Hit(idOf, prefix, tx0, slot) {
      assert Before(slot, at) || slot == at;
    }
  }

  lemma RoundEnds(idOf: Transaction -> Hash, prefix: seq<byte>, tx0: Transaction, at: Slot)
    requires NoHitBefore(idOf, prefix, tx0, at) && at.nonce == U32_MAX
    requires !Hit(idOf, prefix, tx0, at)
    ensures NoHitBefore(idOf, prefix, tx0, Slot(at.round + 1, 0))
  {
    forall slot | Before(slot, Slot(at.round + 1, 0)) ensures !Hit(idOf, prefix, tx0, slot) {
      assert Before(slot, at) || slot == at;
    }
  }

  lemma SearchNextRound(idOf: Transaction -> Hash, prefix: seq<byte>, tx0: Transaction, at: Slot)
    requires NoHitBefore(idOf, prefix, tx0, Slot(at.round + 1, 0))
    requires at.round < MAX_NONCE_EXHAUSTION_ATTEMPTS
    ensures var last := Candidate(tx0, at);
      Searching(idOf, prefix, tx0, last.(outputs := LowerOne(last.outputs, at.round)), Slot(at.round + 1, 0))
  {
    var last := Candidate(tx0, at);
    assert last.(outputs := LowerOne(last.outputs, at.round)) == Candidate(tx0, Slot(at.round + 1, at.nonce));
  }

  lemma SearchSucceeds(idOf: Transaction -> Hash, prefix: seq<byte>, before: Signable, after: Signable, at: Slot)
    requires NoHitBefore(idOf, prefix, before.tx, at) && at.round < ROUNDS
    requires Hit(idOf, prefix, before.tx, at)
    requires after == before.(tx := Candidate(before.tx, at), id := idOf(Candidate(before.tx, at)))
    ensures MinesAt(idOf, prefix, before, Mined(MiningStats(at.nonce, after.id)), after, at, Index(at) + 1)
    ensures forall round: nat, nonce: u32 :: prefix <= idOf(Variant(before.tx, round, nonce)) ==>
      !Before(Slot(round, nonce), at)
  {
    forall round: nat, nonce: u32 | Before(Slot(round, nonce), at)
      ensures !(prefix <= idOf(Variant(before.tx, round, nonce)))
    {
      assert !Hit(idOf, prefix, before.tx, Slot(round, nonce));
    }
  }

  lemma SearchFails(idOf: Transaction -> Hash, prefix: seq<byte>, before: Signable, after: Signable, at: Slot)
    requires NoHitBefore(idOf, prefix, before.tx, SEARCH_END)
    requires at == Slot(MAX_NONCE_EXHAUSTION_ATTEMPTS, U32_MAX)
    ensures MinesAt(idOf, prefix, before, NonceExhaustion(U32_MAX), after, at, Index(at) + 1)
    ensures forall round: nat, nonce: u32 :: round < 4 ==> !(prefix <= idOf(Variant(before.tx, round, nonce)))
  {
    forall round: nat, nonce: u32 | round < 4 ensures !(prefix <= idOf(Variant(before.tx, round, nonce))) {
      assert !Hit(idOf, prefix, before.tx, Slot(round, nonce));
    }
  }

  /** Finalizes the transaction of one position. */
  method TryNonce(idOf: Transaction -> Hash, st: SignableTransaction, prefix: seq<byte>, nonce: u32,
                  ghost tx0: Transaction, ghost at: Slot)
    returns (matches: bool)
    requires Searching(idOf, prefix, tx0, st.tx, at) && nonce == at.nonce
    modifies st
    ensures st.tx == Candidate(tx0, at) && st.id == idOf(st.tx)
    ensures matches <==> Hit(idOf, prefix, tx0, at)
  {
    SearchFinalizes(idOf, prefix, tx0, st.tx, at);
    FinalizeWithNonce(idOf, st, nonce);
    matches := CheckPrefix(st.id, prefix);
  }

  /** Mines in place. `finalizations` counts the ids computed, `slot` is the last position tried. */
  method MineBlocking(idOf: Transaction -> Hash, st: SignableTransaction, prefix: seq<byte>)
    returns (result: MiningResult, ghost slot: Slot, ghost finalizations: nat)
    modifies st
    ensures MinesAt(idOf, prefix, old(st.Snapshot()), result, st.Snapshot(), slot, finalizations)
    ensures result.Mined? ==> prefix <= st.id == idOf(st.tx)
    ensures forall round: nat, nonce: u32 :: round < 4 && prefix <= idOf(Variant(old(st.tx), round, nonce)) ==>
      result.Mined? && !Before(Slot(round, nonce), slot)
  {
    ghost var before, tx0 := st.Snapshot(), st.tx;
    var nonce: u32 := 0;
    ReserveNonce(st, nonce);
    var exhausted: nat := 0;
    slot, finalizations := Slot(0, 0), 0;
    SearchStarts(idOf, prefix, tx0);

    while true
      invariant Searching(idOf, prefix, tx0, st.tx, slot)
      invariant slot == Slot(exhausted, nonce) && finalizations == Index(slot)
      decreases MAX_NONCE_EXHAUSTION_ATTEMPTS - exhausted, U32_MAX - nonce
    {
      var matches := TryNonce(idOf, st, prefix, nonce, tx0, slot);
      finalizations := finalizations + 1;

      if matches {
        SearchSucceeds(idOf, prefix, before, st.Snapshot(), slot);
        return Mined(MiningStats(nonce, st.id)), slot, finalizations;
      }

      if nonce < U32_MAX {
        SearchNextNonce(idOf, prefix, tx0, slot);
        slot := Slot(slot.round, slot.nonce + 1);
        nonce := nonce + 1;
      } else {
        RoundEnds(idOf, prefix, tx0, slot);
        if exhausted >= MAX_NONCE_EXHAUSTION_ATTEMPTS {
          SearchFails(idOf, prefix, before, st.Snapshot(), slot);
          return NonceExhaustion(U32_MAX), slot, finalizations;
        }
        LowerSelectedOutput(st, exhausted);
        SearchNextRound(idOf, prefix, tx0, slot);
        slot := Slot(slot.round + 1, 0);
        nonce := 0;
        exhausted := exhausted + 1;
      }
    }
  }

  // ----- completeness and what the statistics mean -----

  /** Two outcomes of mining the same transaction are equal: the search is deterministic. */
  lemma MiningIsDeterministic(idOf: Transaction -> Hash, prefix: seq<byte>, before: Signable,
                              r1: MiningResult, a1: Signable, r2: MiningResult, a2: Signable)
    requires MinesTo(idOf, prefix, before, r1, a1) && MinesTo(idOf, prefix, before, r2, a2)
    ensures r1 == r2
    ensures r1.Mined? ==> a1 == a2
  {
    var s1, n1 :| MinesAt(idOf, prefix, before, r1, a1, s1, n1);
    var s2, n2 :| MinesAt(idOf, prefix, before, r2, a2, s2, n2);
    if r1.Mined? {
      HitIsBeforeTheEnd(idOf, prefix, before.tx, s1);
    }
    if r2.Mined? {
      HitIsBeforeTheEnd(idOf, prefix, before.tx, s2);
    }
    if r1.Mined? && r2.Mined? {
      FirstHitIsUnique(idOf, prefix, before.tx, s1, s2);
    }
  }

  lemma HitIsBeforeTheEnd(idOf: Transaction -> Hash, prefix: seq<byte>, tx: Transaction, slot: Slot)
    requires FirstHit(idOf, prefix, tx, slot)
    ensures !NoHitBefore(idOf, prefix, tx, SEARCH_END)
  {
    assert Before(slot, SEARCH_END);
  }

  lemma FirstHitIsUnique(idOf: Transaction -> Hash, prefix: seq<byte>, tx: Transaction, a: Slot, b: Slot)
    requires FirstHit(idOf, prefix, tx, a) && FirstHit(idOf, prefix, tx, b)
    ensures a == b
  {
    assert !Before(a, b) && !Before(b, a);
  }

  /** Where anything matches, something matches first. */
  lemma {:induction false} FirstHitExists(idOf: Transaction -> Hash, prefix: seq<byte>, tx: Transaction, slot: Slot)
    returns (first: Slot)
    requires slot.round < ROUNDS && Hit(idOf, prefix, tx, slot)
    ensures FirstHit(idOf, prefix, tx, first)
    decreases slot.round, slot.nonce
  {
    if NoHitBefore(idOf, prefix, tx, slot) {
      first := slot;
    } else {
      var earlier :| Before(earlier, slot) && Hit(idOf, prefix, tx, earlier);
      first := FirstHitExists(idOf, prefix, tx, earlier);
    }
  }

  /** Mining fails exactly when no nonce of any of the four output variants has the prefix. */
  lemma ExhaustionIsExact(idOf: Transaction -> Hash, prefix: seq<byte>, before: Signable,
                          result: MiningResult, after: Signable)
    requires MinesTo(idOf, prefix, before, result, after)
    ensures result.NonceExhaustion? <==>
      forall round: nat, nonce: u32 :: round < 4 ==> !(prefix <= idOf(Variant(before.tx, round, nonce)))
    ensures result.Mined? ==> prefix <= after.id == idOf(after.tx)
  {
    var slot, n :| MinesAt(idOf, prefix, before, result, after, slot, n);
    if result.Mined? {
      assert prefix <= idOf(Variant(before.tx, slot.round, slot.nonce));
    } else {
      forall round: nat, nonce: u32 | round < 4
        ensures !(prefix <= idOf(Variant(before.tx, round, nonce)))
      {
        assert !Hit(idOf, prefix, before.tx, Slot(round, nonce));
      }
    }
  }

  /** The winner is the earliest in (round, nonce) order: no earlier round has any match, and its
      own round has none at a smaller nonce. */
  lemma FirstInRoundNonceOrder(idOf: Transaction -> Hash, prefix: seq<byte>, tx: Transaction, slot: Slot,
                               round: nat, nonce: u32)
    requires FirstHit(idOf, prefix, tx, slot)
    requires round < slot.round || (round == slot.round && nonce < slot.nonce)
    ensures !(prefix <= idOf(Variant(tx, round, nonce)))
  {
    assert !Hit(idOf, prefix, tx, Slot(round, nonce));
  }

  /** Rounds given up before the search ended. */
  function ExhaustedRounds(result: MiningResult, slot: Slot): nat {
    if result.Mined? then slot.round else MAX_NONCE_EXHAUSTION_ATTEMPTS
  }

  function ReportedNonces(result: MiningResult): u32 {
    if result.Mined? then result.stats.noncesTried else result.noncesTried
  }

  /** The reported number of nonces tried, on success and in the error, falls short of the ids the
      search computed by one plus 2^32 for every round given up; so it is never that number. */
  lemma ReportedNoncesUndercount(idOf: Transaction -> Hash, prefix: seq<byte>, before: Signable,
                                 result: MiningResult, after: Signable, slot: Slot, finalizations: nat)
    requires MinesAt(idOf, prefix, before, result, after, slot, finalizations)
    ensures finalizations == ReportedNonces(result) + 1 + ExhaustedRounds(result, slot) * NONCES
    ensures ReportedNonces(result) < finalizations <= ROUNDS * NONCES
    ensures ReportedNonces(result) + 1 == finalizations <==> ExhaustedRounds(result, slot) == 0
  {
  }

  // ----- the fallback conserves everything but a few units of value -----

  function Total(outputs: seq<Output>): nat {
    if outputs == [] then 0 else outputs[0].value + Total(outputs[1..])
  }

  lemma {:induction false} TotalOfUpdate(outputs: seq<Output>, i: nat, o: Output)
    requires i < |outputs|
    ensures Total(outputs[i := o]) == Total(outputs) - outputs[i].value + o.value
  {
    var updated := outputs[i := o];
    if i == 0 {
      assert updated[1..] == outputs[1..];
    } else {
      TotalOfUpdate(outputs[1..], i - 1, o);
      assert updated[1..] == outputs[1..][i - 1 := o];
    }
  }

  /** How many of the first `rounds` fallbacks found a positive value at the output they select. */
  function LoweringRounds(outputs: seq<Output>, rounds: nat): (n: nat)
    ensures n <= rounds
  {
    if rounds == 0 then 0
    else LoweringRounds(outputs, rounds - 1)
         + if Lowers(Fallback(outputs, rounds - 1), rounds - 1) then 1 else 0
  }

  /** The total drops by exactly the number of lowering rounds. */
  lemma {:induction false} FallbackConservesTotal(outputs: seq<Output>, rounds: nat)
    ensures Total(Fallback(outputs, rounds)) == Total(outputs) - LoweringRounds(outputs, rounds)
  {
    if rounds > 0 {
      FallbackConservesTotal(outputs, rounds - 1);
      var before := Fallback(outputs, rounds - 1);
      if Lowers(before, rounds - 1) {
        var i := (rounds - 1) % |before|;
        TotalOfUpdate(before, i, before[i].(value := before[i].value - 1));
      }
    }
  }

  /** How many of rounds 0..rounds select output `i` of `n`. */
  function Visits(i: nat, n: nat, rounds: nat): nat
    requires n > 0
  {
    if rounds == 0 then 0
    else Visits(i, n, rounds - 1) + if (rounds - 1) % n == i then 1 else 0
  }

  /** Closed form: each output loses one unit per visit and stops at zero; scripts never change. */
  lemma {:induction false} FallbackClosedForm(outputs: seq<Output>, rounds: nat, i: nat)
    requires i < |outputs|
    ensures Fallback(outputs, rounds)[i].value == Max(0, outputs[i].value - Visits(i, |outputs|, rounds))
    ensures Fallback(outputs, rounds)[i].scriptPublicKey == outputs[i].scriptPublicKey
    ensures Fallback(outputs, rounds)[i].value <= outputs[i].value
  {
    if rounds > 0 {
      FallbackClosedForm(outputs, rounds - 1, i);
    }
  }

  /** A whole run of the miner takes at most three units from the outputs. */
  lemma MiningConservesValue(tx: Transaction, slot: Slot)
    requires slot.round < ROUNDS
    ensures Total(Candidate(tx, slot).outputs)
      == Total(tx.outputs) - LoweringRounds(tx.outputs, slot.round)
    ensures Total(tx.outputs) - 3 <= Total(Candidate(tx, slot).outputs) <= Total(tx.outputs)
  {
    FallbackConservesTotal(tx.outputs, slot.round);
  }

  /** Mining touches the last four payload bytes and output values only. */
  lemma MiningFrame(tx: Transaction, slot: Slot)
    requires slot.round < ROUNDS
    ensures var mined := Candidate(tx, slot);
      && mined == tx.(payload := mined.payload, outputs := mined.outputs)
      && |mined.outputs| == |tx.outputs|
      && Message(mined.payload) == Message(tx.payload)
      && |mined.payload| == Max(|tx.payload|, NONCE_LEN)
      && mined.payload[|mined.payload| - NONCE_LEN..] == Bytes.BigEndian(slot.nonce, NONCE_LEN)
      && (forall i :: 0 <= i < |tx.outputs| ==>
            mined.outputs[i] == tx.outputs[i].(value := mined.outputs[i].value))
  {
    forall i | 0 <= i < |tx.outputs|
      ensures Candidate(tx, slot).outputs[i] == tx.outputs[i].(value := Candidate(tx, slot).outputs[i].value)
    {
      FallbackClosedForm(tx.outputs, slot.round, i);
    }
  }

  /** The nonce's four bytes, most significant first, behind the untouched message. */
  lemma NonceTail(payload: seq<byte>, nonce: u32)
    ensures WithNonce(payload, nonce) == (if |payload| >= 4 then payload[..|payload| - 4] else [])
      + [nonce / 256 / 256 / 256 % 256, nonce / 256 / 256 % 256, nonce / 256 % 256, nonce % 256]
  {
    assert Bytes.BigEndian(nonce, 1) == [nonce % 256];
    var n1, n2, n3 := nonce / 256, nonce / 256 / 256, nonce / 256 / 256 / 256;
    assert Bytes.BigEndian(n3, 0) == [];
    assert Bytes.BigEndian(n3, 1) == [n3 % 256];
    assert Bytes.BigEndian(n2, 2) == Bytes.BigEndian(n3, 1) + [n2 % 256];
    assert Bytes.BigEndian(n1, 3) == Bytes.BigEndian(n2, 2) + [n1 % 256];
    assert Bytes.BigEndian(nonce, 4) == Bytes.BigEndian(n1, 3) + [nonce % 256];
  }

  /** A fallback that lowers nothing buys nothing: its round repeats the ids of the round before. */
  lemma FallbackVariance(tx: Transaction, round: nat, nonce: u32)
    ensures Variant(tx, round + 1, nonce) == Variant(tx, round, nonce)
      <==> !Lowers(Fallback(tx.outputs, round), round)
  {
    var outputs := Fallback(tx.outputs, round);
    if Lowers(outputs, round) {
      var i := round % |outputs|;
      assert LowerOne(outputs, round)[i].value != outputs[i].value;
    }
  }

  /** No fallback finds a value to lower: no outputs, or zeros at the selected ones. */
  predicate NothingLowers(outputs: seq<Output>) {
    forall round: nat :: round < MAX_NONCE_EXHAUSTION_ATTEMPTS ==> !Lowers(outputs, round)
  }

  lemma {:induction false} NothingToLower(outputs: seq<Output>, rounds: nat)
    requires forall round: nat :: round < rounds ==> !Lowers(outputs, round)
    ensures Fallback(outputs, rounds) == outputs
  {
    if rounds > 0 {
      NothingToLower(outputs, rounds - 1);
    }
  }

  lemma RetriesRepeat(idOf: Transaction -> Hash, prefix: seq<byte>, tx: Transaction)
    requires NothingLowers(tx.outputs)
    ensures NoHitBefore(idOf, prefix, tx, SEARCH_END) <==> NoHitBefore(idOf, prefix, tx, FIRST_ROUND_END)
  {
    if NoHitBefore(idOf, prefix, tx, FIRST_ROUND_END) {
      forall slot | Before(slot, SEARCH_END) ensures !Hit(idOf, prefix, tx, slot) {
        NothingToLower(tx.outputs, slot.round);
        assert !Hit(idOf, prefix, tx, Slot(0, slot.nonce));
      }
    }
  }

  lemma {:induction false} FirstLoweringRound(outputs: seq<Output>, bound: nat) returns (round: nat)
    requires exists r: nat :: r < bound && Lowers(outputs, r)
    ensures round < bound && Lowers(outputs, round)
    ensures forall r: nat :: r < round ==> !Lowers(outputs, r)
  {
    if exists r: nat :: r < bound - 1 && Lowers(outputs, r) {
      round := FirstLoweringRound(outputs, bound - 1);
    } else {
      round := bound - 1;
    }
  }

  /** An id function that only the lowered transaction satisfies. */
  lemma LoweringHelpsSomeIdFunction(tx: Transaction, round: nat) returns (idOf: Transaction -> Hash, prefix: seq<byte>)
    requires round < MAX_NONCE_EXHAUSTION_ATTEMPTS && Lowers(tx.outputs, round)
    requires forall r: nat :: r < round ==> !Lowers(tx.outputs, r)
    ensures NoHitBefore(idOf, prefix, tx, FIRST_ROUND_END) && !NoHitBefore(idOf, prefix, tx, SEARCH_END)
  {
    NothingToLower(tx.outputs, round);
    var winner := Candidate(tx, Slot(round + 1, 0));
    var i := round % |tx.outputs|;
    assert winner.outputs[i].value != tx.outputs[i].value;
    var good: Hash := [1] + Zeros(HASH_SIZE - 1);
    var bad: Hash := Zeros(HASH_SIZE);
    idOf := (t: Transaction) => if t == winner then good else bad;
    prefix := [1];
    assert Hit(idOf, prefix, tx, Slot(round + 1, 0));
    forall slot | Before(slot, FIRST_ROUND_END) ensures !Hit(idOf, prefix, tx, slot) {
      assert Candidate(tx, slot).outputs == tx.outputs;
      assert bad[0] != prefix[0];
    }
  }

  /** The retries are useless exactly when no fallback can lower a value: then, and only then, the
      search over all four rounds succeeds iff its first round does, whatever the id function and
      prefix. */
  lemma RetriesNeedAValue(tx: Transaction)
    ensures NothingLowers(tx.outputs) <==>
      forall idOf: Transaction -> Hash, prefix ::
        NoHitBefore(idOf, prefix, tx, SEARCH_END) <==> NoHitBefore(idOf, prefix, tx, FIRST_ROUND_END)
  {
    if NothingLowers(tx.outputs) {
      forall idOf: Transaction -> Hash, prefix
        ensures NoHitBefore(idOf, prefix, tx, SEARCH_END) <==> NoHitBefore(idOf, prefix, tx, FIRST_ROUND_END)
      {
        RetriesRepeat(idOf, prefix, tx);
      }
    } else {
      var round := FirstLoweringRound(tx.outputs, MAX_NONCE_EXHAUSTION_ATTEMPTS);
      var idOf, prefix := LoweringHelpsSomeIdFunction(tx, round);
    }
  }
}
