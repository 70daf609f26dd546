/** The Kaspa transaction as the provider handles it, with the transaction-id hash and the
    version rule for input mass commitments left as arbitrary functions. */
module Kaspa {
  import opened Primitives

  const HASH_SIZE := 32
  const SUBNETWORK_ID_SIZE := 20
  const TX_VERSION_TOCCATA := 1

  type Hash = h: seq<byte> | |h| == 32 witness seq(32, _ => 0)
  type SubnetworkId = id: seq<byte> | |id| == 20 witness seq(20, _ => 0)

  datatype ScriptPublicKey = ScriptPublicKey(version: u16, script: seq<byte>)

  datatype Outpoint = Outpoint(transactionId: Hash, index: u32)

  /** Version 0 inputs commit to a signature-operation count, Toccata ones to a compute budget. */
  datatype InputMass = SigOpCount(count: u8) | ComputeBudget(budget: u16)

  datatype Input = Input(outpoint: Outpoint, signatureScript: seq<byte>, sequence: u64, mass: InputMass)

  datatype Output = Output(value: u64, scriptPublicKey: ScriptPublicKey)

  datatype Transaction = Transaction(
    version: u16,
    inputs: seq<Input>,
    outputs: seq<Output>,
    lockTime: u64,
    subnetworkId: SubnetworkId,
    gas: u64,
    payload: seq<byte>)

  datatype UtxoEntry = UtxoEntry(
    amount: u64,
    scriptPublicKey: ScriptPublicKey,
    blockDaaScore: u64,
    isCoinbase: bool,
    covenantId: Option<Hash>)

  datatype NonContextualMasses = NonContextualMasses(computeMass: u64, transientMass: u64)

  /** What the provider takes from the Kaspa library: the id hash, and which versions carry a
      compute budget. Nothing is assumed about either. */
  datatype Library = Library(idOf: Transaction -> Hash, expectsComputeBudget: u16 -> bool)

  /** A transaction with its cached id and the data the wallet attached to it. */
  datatype Signable = Signable(
    tx: Transaction,
    id: Hash,
    entries: seq<Option<UtxoEntry>>,
    calculatedFee: Option<u64>,
    masses: Option<NonContextualMasses>)

  /** The mutable transaction mining works on. The id is a cache: editing the content leaves it
      stale until Finalize recomputes it. */
  class SignableTransaction {
    var tx: Transaction
    var id: Hash
    const entries: seq<Option<UtxoEntry>>
    const calculatedFee: Option<u64>
    const masses: Option<NonContextualMasses>

    constructor (st: Signable)
      ensures Snapshot() == st
    {
      tx, id := st.tx, st.id;
      entries, calculatedFee, masses := st.entries, st.calculatedFee, st.masses;
    }

    function Snapshot(): Signable
      reads this
    {
      Signable(tx, id, entries, calculatedFee, masses)
    }

    method Finalize(idOf: Transaction -> Hash)
      modifies `id
      ensures id == idOf(tx)
    {
      id := idOf(tx);
    }
  }
}
