/** The IGRA payload carried by a Kaspa transaction: its byte layout
    (src/services/transaction.rs), the choice between plain and compressed L2 data, and the
    fixed L2 data of Entry transactions (src/services/entry_transaction.rs). */
module Payload {
  import opened Primitives
  import Bytes

  const VERSION: u8 := 0x9
  const NONCE_SIZE := 4
  const L2_DATA_SIZE := 28
  const ETHEREUM_ADDRESS_SIZE := 20
  const AMOUNT_SIZE := 8

  datatype TxTypeId = L2Start | Entry | UnzippedPayload | ZippedPayload

  datatype IgraPayload = IgraPayload(version: u8, txTypeId: TxTypeId, l2Data: seq<byte>, nonce: seq<byte>)

  datatype SerializationError = EmptyL2Data | VersionTooLarge(version: u8)

  function TypeNibble(t: TxTypeId): byte {
    match t
    case L2Start => 0
    case Entry => 2
    case UnzippedPayload => 4
    case ZippedPayload => 5
  }

  function TypeOfNibble(n: byte): Option<TxTypeId> {
    if n == 0 then Some(L2Start)
    else if n == 2 then Some(Entry)
    else if n == 4 then Some(UnzippedPayload)
    else if n == 5 then Some(ZippedPayload)
    else None
  }

  /** How a reader of the chain takes a payload apart; written without reference to the writer. */
  function Parse(bytes: seq<byte>): Option<IgraPayload> {
    if |bytes| < 1 + 1 + NONCE_SIZE || TypeOfNibble(bytes[0] % 16).None? then None
    else
      Some(IgraPayload(
        bytes[0] / 16,
        TypeOfNibble(bytes[0] % 16).value,
        bytes[1..|bytes| - NONCE_SIZE],
        bytes[|bytes| - NONCE_SIZE..]))
  }

  predicate Serializable(p: IgraPayload) {
    p.l2Data != [] && p.version <= 0x0F && |p.nonce| == NONCE_SIZE
  }

  /** `version << 4 | type` needs no bit operations: both halves are nibbles. */
  method SerializePayload(p: IgraPayload) returns (r: Result<seq<byte>, SerializationError>)
    requires |p.nonce| == NONCE_SIZE
    ensures r.Ok? <==> Serializable(p)
    ensures r.Ok? ==> Parse(r.value) == Some(p)
    ensures r.Ok? ==>
      r.value[0] % 16
        == match p.txTypeId case L2Start => 0 case Entry => 2 case UnzippedPayload => 4 case ZippedPayload => 5
    ensures r.Err? ==> r.error == if p.l2Data == [] then EmptyL2Data else VersionTooLarge(p.version)
  {
    if p.l2Data == [] {
      return Err(EmptyL2Data);
    }
    if p.version > 0x0F {
      return Err(VersionTooLarge(p.version));
    }
    var header: byte := p.version * 16 + TypeNibble(p.txTypeId);
    var buffer: seq<byte> := [];
    buffer := buffer + [header];
    buffer := buffer + p.l2Data;
    buffer := buffer + p.nonce;
    assert buffer[1..|buffer| - NONCE_SIZE] == p.l2Data;
    assert buffer[|buffer| - NONCE_SIZE..] == p.nonce;
    return Ok(buffer);
  }

  /** A payload text is read one way only, so the writer's bytes are determined by its message. */
  lemma ParseIsInjective(a: seq<byte>, b: seq<byte>)
    requires Parse(a).Some? && Parse(a) == Parse(b)
    ensures a == b
  {
    var n := |a| - NONCE_SIZE;
    assert |b| == |a|;
    assert a == [a[0]] + a[1..n] + a[n..];
    assert b == [b[0]] + b[1..n] + b[n..];
    assert TypeNibble(TypeOfNibble(a[0] % 16).value) == a[0] % 16;
    assert TypeNibble(TypeOfNibble(b[0] % 16).value) == b[0] % 16;
  }

  /** Overwriting the last four bytes changes the parsed nonce and nothing else. */
  lemma NonceOverwrite(bytes: seq<byte>, nonce: seq<byte>)
    requires Parse(bytes).Some? && |nonce| == NONCE_SIZE
    ensures Parse(bytes[..|bytes| - NONCE_SIZE] + nonce) == Some(Parse(bytes).value.(nonce := nonce))
  {
    var n := |bytes| - NONCE_SIZE;
    var after := bytes[..n] + nonce;
    assert after[1..n] == bytes[1..n];
    assert after[n..] == nonce;
  }

  // ----- wrapping a relayed transaction -----

  type Compressor = seq<byte> -> Option<seq<byte>>

  /** Compressed when that is strictly shorter, plain otherwise and when compression fails. */
  function Wrap(compress: Compressor, txBytes: seq<byte>): IgraPayload {
    var zipped := compress(txBytes);
    if zipped.Some? && |zipped.value| < |txBytes|
    then IgraPayload(VERSION, ZippedPayload, zipped.value, [0, 0, 0, 1])
    else IgraPayload(VERSION, UnzippedPayload, txBytes, [0, 0, 0, 1])
  }

  /** The relayed transaction a reader recovers from a message. */
  function Unwrap(inflate: seq<byte> -> seq<byte>, p: IgraPayload): seq<byte> {
    if p.txTypeId.ZippedPayload? then inflate(p.l2Data) else p.l2Data
  }

  ghost predicate Inflates(inflate: seq<byte> -> seq<byte>, compress: Compressor) {
    forall bytes: seq<byte> :: compress(bytes).Some? ==> inflate(compress(bytes).value) == bytes
  }

  /** Whatever the compressor does, the wrapped data is the shorter of the transaction and what the
      compressor made of it, marked as zipped only when that saves something, and the reader gets the
      transaction back; wrapping fails to serialize only when the compressor
      returns nothing at all for a non-empty transaction, or the transaction is empty. */
  lemma WrapLosesNothing(inflate: seq<byte> -> seq<byte>, compress: Compressor, txBytes: seq<byte>)
    requires Inflates(inflate, compress)
    ensures Unwrap(inflate, Wrap(compress, txBytes)) == txBytes
    ensures |Wrap(compress, txBytes).l2Data| <= |txBytes|
    ensures compress(txBytes).Some? ==> |Wrap(compress, txBytes).l2Data| <= |compress(txBytes).value|
    ensures Wrap(compress, txBytes).txTypeId
      == if |Wrap(compress, txBytes).l2Data| < |txBytes| then ZippedPayload else UnzippedPayload
    ensures Wrap(compress, txBytes).version == 9 && Wrap(compress, txBytes).nonce == [0, 0, 0, 1]
    ensures Serializable(Wrap(compress, txBytes))
      <==> txBytes != [] && compress(txBytes) != Some([])
  {
    assert compress(txBytes).Some? ==> inflate(compress(txBytes).value) == txBytes;
  }

  /** The payload handed to the wallet for a relayed transaction. */
  method WalletPayload(compress: Compressor, txBytes: seq<byte>) returns (r: Result<seq<byte>, SerializationError>)
    ensures r.Ok? <==> txBytes != [] && compress(txBytes) != Some([])
    ensures r.Ok? ==> Parse(r.value) == Some(Wrap(compress, txBytes))
  {
    r := SerializePayload(Wrap(compress, txBytes));
  }

  // ----- Entry transactions -----

  /** Address bytes, then the amount in little-endian. */
  method NewL2Data(address: seq<byte>, amount: u64) returns (data: array<byte>)
    requires |address| == ETHEREUM_ADDRESS_SIZE
    ensures fresh(data) && data.Length == L2_DATA_SIZE
    ensures data[..ETHEREUM_ADDRESS_SIZE] == address
    ensures Bytes.FromLittleEndian(data[ETHEREUM_ADDRESS_SIZE..]) == amount
  {
    data := new byte[L2_DATA_SIZE](_ => 0);
    forall i | 0 <= i < ETHEREUM_ADDRESS_SIZE {
      data[i] := address[i];
    }
    var le := Bytes.LittleEndian(amount, AMOUNT_SIZE);
    forall i | 0 <= i < AMOUNT_SIZE {
      data[ETHEREUM_ADDRESS_SIZE + i] := le[i];
    }
    assert data[ETHEREUM_ADDRESS_SIZE..] == le;
    assert data[..ETHEREUM_ADDRESS_SIZE] == address;
    Bytes.Widths();
    Bytes.LittleEndianRoundTrip(amount, AMOUNT_SIZE);
  }

  /** What a reader takes an Entry message to mean. */
  function EntryAddress(l2Data: seq<byte>): seq<byte>
    requires |l2Data| == L2_DATA_SIZE
  {
    l2Data[..ETHEREUM_ADDRESS_SIZE]
  }

  function EntryAmount(l2Data: seq<byte>): nat
    requires |l2Data| == L2_DATA_SIZE
  {
    Bytes.FromLittleEndian(l2Data[ETHEREUM_ADDRESS_SIZE..])
  }

  method CreateEntryPayload(address: seq<byte>, amount: u64) returns (p: IgraPayload)
    requires |address| == ETHEREUM_ADDRESS_SIZE
    ensures Serializable(p) && p.version == 9 && p.txTypeId == Entry && p.nonce == [0, 0, 0, 0]
    ensures |p.l2Data| == L2_DATA_SIZE
    ensures EntryAddress(p.l2Data) == address && EntryAmount(p.l2Data) == amount
  {
    var data := NewL2Data(address, amount);
    p := IgraPayload(VERSION, Entry, data[..], [0, 0, 0, 0]);
    assert p.l2Data[..ETHEREUM_ADDRESS_SIZE] == data[..ETHEREUM_ADDRESS_SIZE];
    assert p.l2Data[ETHEREUM_ADDRESS_SIZE..] == data[ETHEREUM_ADDRESS_SIZE..];
  }

  /** An Entry message determines address and amount: no two requests share one. */
  lemma EntryDataIsInjective(a: seq<byte>, b: seq<byte>)
    requires |a| == |b| == L2_DATA_SIZE
    requires EntryAddress(a) == EntryAddress(b) && EntryAmount(a) == EntryAmount(b)
    ensures a == b
  {
    var la, lb := a[ETHEREUM_ADDRESS_SIZE..], b[ETHEREUM_ADDRESS_SIZE..];
    FromLittleEndianInjective(la, lb);
    assert a == a[..ETHEREUM_ADDRESS_SIZE] + la;
    assert b == b[..ETHEREUM_ADDRESS_SIZE] + lb;
  }

  lemma {:induction false} FromLittleEndianInjective(a: seq<byte>, b: seq<byte>)
    requires |a| == |b| && Bytes.FromLittleEndian(a) == Bytes.FromLittleEndian(b)
    ensures a == b
  {
    if a != [] {
      assert a[0] == b[0];
      FromLittleEndianInjective(a[1..], b[1..]);
      assert a == [a[0]] + a[1..] && b == [b[0]] + b[1..];
    }
  }
}
