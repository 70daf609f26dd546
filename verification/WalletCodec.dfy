/** The wallet-daemon codec (src/types/wallet.rs): protobuf messages to Kaspa transactions and
    back, with the version deciding which input mass field is carried. */
module WalletCodec {
  import opened Primitives
  import opened Kaspa
  import Hex

  // ----- the daemon's messages -----

  datatype ProtoOutpoint = ProtoOutpoint(transactionId: seq<byte>, index: u32)

  datatype ProtoInput = ProtoInput(
    previousOutpoint: Option<ProtoOutpoint>,
    signatureScript: seq<byte>,
    sequence: u64,
    sigOpCount: u32,
    computeBudget: u32)

  datatype ProtoScript = ProtoScript(version: u32, scriptHex: string)

  datatype ProtoOutput = ProtoOutput(value: u64, scriptPublicKey: Option<ProtoScript>)

  datatype ProtoTransaction = ProtoTransaction(
    version: u32,
    inputs: seq<ProtoInput>,
    outputs: seq<ProtoOutput>,
    lockTime: u64,
    subnetworkId: seq<byte>,
    gas: u64,
    payload: seq<byte>,
    id: seq<byte>)

  datatype ProtoEntry = ProtoEntry(
    amount: u64,
    scriptPublicKey: Option<ProtoScript>,
    blockDaaScore: u64,
    isCoinbase: bool)

  datatype OptionalEntry = OptionalEntry(entry: Option<ProtoEntry>)

  datatype ProtoSignable = ProtoSignable(
    tx: Option<ProtoTransaction>,
    entries: seq<OptionalEntry>,
    calculatedFee: Option<u64>,
    masses: Option<NonContextualMasses>)

  datatype Signed = Partially(signable: ProtoSignable) | Fully(tx: Option<ProtoTransaction>)

  datatype SignedTransaction = SignedTransaction(signed: Option<Signed>)

  /** `rest` stands for the message fields the provider passes through unread. */
  datatype WalletSignable = WalletSignable(transaction: Option<SignedTransaction>, rest: seq<byte>)

  datatype CodecError =
    | MissingTransaction
    | FullySigned
    | MissingVariant
    | InvalidVersion
    | ComputeBudgetTooLarge
    | SigOpCountTooLarge
    | InvalidScriptVersion
    | InvalidScriptHex
    | InvalidSubnetworkLength
    | CovenantIdSet
    | MalformedTransactionId   // the hash constructor does not return

  const DEFAULT_SCRIPT := ScriptPublicKey(0, [])

  function NullHash(): Hash {
    Zeros(HASH_SIZE)
  }

  function Native(): SubnetworkId {
    Zeros(SUBNETWORK_ID_SIZE)
  }

  // ----- proto -> kaspa -----

  function ScriptToKaspa(script: Option<ProtoScript>): Result<ScriptPublicKey, CodecError> {
    match script
    case None => Ok(DEFAULT_SCRIPT)
    case Some(s) =>
      if s.version > U16_MAX then Err(InvalidScriptVersion)
      else
        match Hex.Decode(s.scriptHex)
        case Err(_) => Err(InvalidScriptHex)
        case Ok(bytes) => Ok(ScriptPublicKey(s.version, bytes))
  }

  function OutpointToKaspa(outpoint: Option<ProtoOutpoint>): Result<Outpoint, CodecError> {
    match outpoint
    case None => Ok(Outpoint(NullHash(), 0))
    case Some(o) =>
      if |o.transactionId| != HASH_SIZE then Err(MalformedTransactionId)
      else Ok(Outpoint(o.transactionId, o.index))
  }

  function InputToKaspa(budgeted: bool, input: ProtoInput): Result<Input, CodecError> {
    match OutpointToKaspa(input.previousOutpoint)
    case Err(e) => Err(e)
    case Ok(outpoint) =>
      if budgeted then
        if input.computeBudget > U16_MAX then Err(ComputeBudgetTooLarge)
        else Ok(Input(outpoint, input.signatureScript, input.sequence, ComputeBudget(input.computeBudget)))
      else
        if input.sigOpCount > U8_MAX then Err(SigOpCountTooLarge)
        else Ok(Input(outpoint, input.signatureScript, input.sequence, SigOpCount(input.sigOpCount)))
  }

  function InputDecoder(budgeted: bool): ProtoInput -> Result<Input, CodecError> {
    (i: ProtoInput) => InputToKaspa(budgeted, i)
  }

  function OutputToKaspa(output: ProtoOutput): Result<Output, CodecError> {
    match ScriptToKaspa(output.scriptPublicKey)
    case Err(e) => Err(e)
    case Ok(script) => Ok(Output(output.value, script))
  }

  function InputsToKaspa(budgeted: bool, inputs: seq<ProtoInput>): Result<seq<Input>, CodecError> {
    Collect(InputDecoder(budgeted), inputs)
  }

  function OutputsToKaspa(outputs: seq<ProtoOutput>): Result<seq<Output>, CodecError> {
    Collect(OutputToKaspa, outputs)
  }

  function TransactionToKaspa(lib: Library, p: ProtoTransaction): Result<Transaction, CodecError> {
    if p.version > U16_MAX then Err(InvalidVersion)
    else
      match InputsToKaspa(lib.expectsComputeBudget(p.version), p.inputs)
      case Err(e) => Err(e)
      case Ok(inputs) =>
        match OutputsToKaspa(p.outputs)
        case Err(e) => Err(e)
        case Ok(outputs) =>
          if |p.subnetworkId| == SUBNETWORK_ID_SIZE then
            Ok(Transaction(p.version, inputs, outputs, p.lockTime, p.subnetworkId, p.gas, p.payload))
          else if |p.subnetworkId| == 0 then
            Ok(Transaction(p.version, inputs, outputs, p.lockTime, Native(), p.gas, p.payload))
          else Err(InvalidSubnetworkLength)
  }

  function EntryToKaspa(e: ProtoEntry): Result<Option<UtxoEntry>, CodecError> {
    match ScriptToKaspa(e.scriptPublicKey)
    case Err(err) => Err(err)
    case Ok(script) => Ok(Some(UtxoEntry(e.amount, script, e.blockDaaScore, e.isCoinbase, None)))
  }

  function EntriesToKaspa(entries: seq<ProtoEntry>): Result<seq<Option<UtxoEntry>>, CodecError> {
    Collect(EntryToKaspa, entries)
  }

  /** The entries that are present, in order. */
  function Present(entries: seq<OptionalEntry>): seq<ProtoEntry> {
    if entries == [] then []
    else (if entries[0].entry.Some? then [entries[0].entry.value] else []) + Present(entries[1..])
  }

  function SignableToKaspa(lib: Library, p: ProtoSignable): Result<Signable, CodecError> {
    match p.tx
    case None => Err(MissingTransaction)
    case Some(ptx) =>
      match TransactionToKaspa(lib, ptx)
      case Err(e) => Err(e)
      case Ok(tx) =>
        match EntriesToKaspa(Present(p.entries))
        case Err(e) => Err(e)
        case Ok(entries) => Ok(Signable(tx, lib.idOf(tx), entries, p.calculatedFee, p.masses))
  }

  function ProtoToSignableTransaction(lib: Library, w: WalletSignable): Result<Signable, CodecError> {
    match w.transaction
    case None => Err(MissingTransaction)
    case Some(SignedTransaction(None)) => Err(MissingVariant)
    case Some(SignedTransaction(Some(Fully(_)))) => Err(FullySigned)
    case Some(SignedTransaction(Some(Partially(p)))) => SignableToKaspa(lib, p)
  }

  // ----- kaspa -> proto -----

  function ScriptToProto(script: ScriptPublicKey): ProtoScript {
    ProtoScript(script.version, Hex.Encode(script.script))
  }

  function InputToProto(input: Input): ProtoInput {
    ProtoInput(
      Some(ProtoOutpoint(input.outpoint.transactionId, input.outpoint.index)),
      input.signatureScript,
      input.sequence,
      if input.mass.SigOpCount? then input.mass.count else 0,
      if input.mass.ComputeBudget? then input.mass.budget else 0)
  }

  function OutputToProto(output: Output): ProtoOutput {
    ProtoOutput(output.value, Some(ScriptToProto(output.scriptPublicKey)))
  }

  function TransactionToProto(tx: Transaction, id: Hash): ProtoTransaction {
    ProtoTransaction(
      tx.version,
      MapSeq(InputToProto, tx.inputs),
      MapSeq(OutputToProto, tx.outputs),
      tx.lockTime, tx.subnetworkId, tx.gas, tx.payload, id)
  }

  function EntryToProto(entry: Option<UtxoEntry>): Result<OptionalEntry, CodecError> {
    match entry
    case None => Ok(OptionalEntry(None))
    case Some(e) =>
      if e.covenantId.Some? then Err(CovenantIdSet)
      else Ok(OptionalEntry(Some(ProtoEntry(
        e.amount, Some(ScriptToProto(e.scriptPublicKey)), e.blockDaaScore, e.isCoinbase))))
  }

  function EntriesToProto(entries: seq<Option<UtxoEntry>>): Result<seq<OptionalEntry>, CodecError> {
    Collect(EntryToProto, entries)
  }

  function SignableToProto(st: Signable): Result<ProtoSignable, CodecError> {
    match EntriesToProto(st.entries)
    case Err(e) => Err(e)
    case Ok(entries) =>
      Ok(ProtoSignable(Some(TransactionToProto(st.tx, st.id)), entries, st.calculatedFee, st.masses))
  }

  function WithMinedTransaction(w: WalletSignable, mined: Signable): Result<WalletSignable, CodecError> {
    match w.transaction
    case None => Err(MissingTransaction)
    case Some(_) =>
      match SignableToProto(mined)
      case Err(e) => Err(e)
      case Ok(p) => Ok(w.(transaction := Some(SignedTransaction(Some(Partially(p))))))
  }

  /** Overwrites entry `i` of the list in place; on failure the list is untouched. */
  method UpdateProtoWithMinedTransaction(list: array<WalletSignable>, i: nat, mined: Signable)
    returns (r: Result<(), CodecError>)
    requires i < list.Length
    modifies list
    ensures match WithMinedTransaction(old(list[i]), mined)
      case Ok(w) => r == Ok(()) && list[..] == old(list[..])[i := w]
      case Err(e) => r == Err(e) && list[..] == old(list[..])
  {
    match WithMinedTransaction(list[i], mined)
    case Err(e) => r := Err(e);
    case Ok(w) =>
      list[i] := w;
      r := Ok(());
  }

  function ProtoPayloadLen(w: WalletSignable): nat {
    match w.transaction
    case Some(SignedTransaction(Some(Partially(p)))) => if p.tx.Some? then |p.tx.value.payload| else 0
    case Some(SignedTransaction(Some(Fully(tx)))) => if tx.Some? then |tx.value.payload| else 0
    case _ => 0
  }

  /** Whichever way the message is signed, a transaction inside it has an empty payload. */
  ghost predicate CarriesNoPayload(w: WalletSignable) {
    forall signed, tx ::
      w.transaction == Some(SignedTransaction(Some(signed))) && Inside(signed, tx) ==> tx.payload == []
  }

  predicate Inside(signed: Signed, tx: ProtoTransaction) {
    match signed
    case Partially(p) => p.tx == Some(tx)
    case Fully(t) => t == Some(tx)
  }

  /** The length is zero exactly for messages that carry no payload. */
  lemma PayloadLenDetectsPayloads(w: WalletSignable)
    ensures ProtoPayloadLen(w) == 0 <==> CarriesNoPayload(w)
    ensures forall signed, tx :: w.transaction == Some(SignedTransaction(Some(signed))) && Inside(signed, tx) ==>
      ProtoPayloadLen(w) == |tx.payload|
  {
    match w.transaction
    case Some(SignedTransaction(Some(signed))) =>
      var tx := if signed.Partially? then signed.signable.tx else signed.tx;
      if tx.Some? {
        assert Inside(signed, tx.value);
      }
    case _ =>
  }

  // ----- round trip from the Kaspa side -----

  predicate MassMatchesVersion(lib: Library, tx: Transaction) {
    forall i :: 0 <= i < |tx.inputs| ==>
      tx.inputs[i].mass.ComputeBudget? == lib.expectsComputeBudget(tx.version)
  }

  /** What the wire format can carry. */
  predicate Carried(lib: Library, st: Signable) {
    && MassMatchesVersion(lib, st.tx)
    && st.id == lib.idOf(st.tx)
    && forall i :: 0 <= i < |st.entries| ==> st.entries[i].Some? && st.entries[i].value.covenantId.None?
  }

  lemma ScriptRoundTrip(script: ScriptPublicKey)
    ensures ScriptToKaspa(Some(ScriptToProto(script))) == Ok(script)
  {
    Hex.DecodeEncode(script.script);
  }

  lemma InputRoundTrip(budgeted: bool, input: Input)
    ensures InputToKaspa(budgeted, InputToProto(input)) == Ok(input)
      <==> input.mass.ComputeBudget? == budgeted
    ensures InputToKaspa(budgeted, InputToProto(input)).Ok?
  {
  }

  lemma OutputRoundTrip(output: Output)
    ensures OutputToKaspa(OutputToProto(output)) == Ok(output)
  {
    ScriptRoundTrip(output.scriptPublicKey);
  }

  /** A transaction survives the wire exactly when every input carries the mass its version wants. */
  lemma TransactionRoundTrip(lib: Library, tx: Transaction, id: Hash)
    ensures TransactionToKaspa(lib, TransactionToProto(tx, id)) == Ok(tx) <==> MassMatchesVersion(lib, tx)
    ensures TransactionToKaspa(lib, TransactionToProto(tx, id)).Ok?
  {
    var p := TransactionToProto(tx, id);
    var budgeted := lib.expectsComputeBudget(p.version);
    var decode := InputDecoder(budgeted);
    var inputs := Collect(decode, p.inputs);
    forall i | 0 <= i < |tx.inputs|
      ensures decode(p.inputs[i]).Ok?
      ensures decode(p.inputs[i]) == Ok(tx.inputs[i]) <==> tx.inputs[i].mass.ComputeBudget? == budgeted
    {
      InputRoundTrip(budgeted, tx.inputs[i]);
    }
    forall i | 0 <= i < |tx.outputs| ensures OutputToKaspa(p.outputs[i]) == Ok(tx.outputs[i]) {
      OutputRoundTrip(tx.outputs[i]);
    }
    CollectUndoes(OutputToKaspa, tx.outputs, p.outputs);
    if MassMatchesVersion(lib, tx) {
      CollectUndoes(decode, tx.inputs, p.inputs);
    } else {
      var i :| 0 <= i < |tx.inputs| && tx.inputs[i].mass.ComputeBudget? != budgeted;
      assert inputs.value[i] != tx.inputs[i];
    }
  }

  lemma EntryRoundTrip(e: UtxoEntry)
    requires e.covenantId.None?
    ensures EntryToProto(Some(e)).Ok? && EntryToProto(Some(e)).value.entry.Some?
    ensures EntryToKaspa(EntryToProto(Some(e)).value.entry.value) == Ok(Some(e))
  {
    ScriptRoundTrip(e.scriptPublicKey);
  }

  lemma {:induction false} PresentShape(entries: seq<OptionalEntry>)
    ensures |Present(entries)| <= |entries|
    ensures |Present(entries)| == |entries| <==> forall i :: 0 <= i < |entries| ==> entries[i].entry.Some?
    ensures |Present(entries)| == |entries| ==>
      forall i :: 0 <= i < |entries| ==> Present(entries)[i] == entries[i].entry.value
  {
    if entries != [] {
      PresentShape(entries[1..]);
      assert forall i :: 1 <= i < |entries| ==> entries[i] == entries[1..][i - 1];
    }
  }

  lemma EncodableEntries(entries: seq<Option<UtxoEntry>>)
    ensures Collect(EntryToProto, entries).Ok? <==>
      forall i :: 0 <= i < |entries| && entries[i].Some? ==> entries[i].value.covenantId.None?
  {
    assert forall i :: 0 <= i < |entries| ==>
      (EntryToProto(entries[i]).Ok? <==> (entries[i].Some? ==> entries[i].value.covenantId.None?));
  }

  lemma PresentEntriesRoundTrip(entries: seq<Option<UtxoEntry>>, out: seq<OptionalEntry>)
    requires Collect(EntryToProto, entries) == Ok(out)
    requires forall i :: 0 <= i < |entries| ==> entries[i].Some?
    ensures Collect(EntryToKaspa, Present(out)) == Ok(entries)
  {
    PresentShape(out);
    forall i | 0 <= i < |entries|
      ensures out[i].entry.Some? && EntryToKaspa(out[i].entry.value) == Ok(entries[i])
    {
      assert EntryToProto(entries[i]) == Ok(out[i]);
      EntryRoundTrip(entries[i].value);
    }
    CollectUndoes(EntryToKaspa, entries, Present(out));
  }

  lemma EntriesRoundTrip(entries: seq<Option<UtxoEntry>>)
    requires Collect(EntryToProto, entries).Ok?
    ensures Collect(EntryToKaspa, Present(Collect(EntryToProto, entries).value)) == Ok(entries)
      <==> forall i :: 0 <= i < |entries| ==> entries[i].Some?
  {
    var out := Collect(EntryToProto, entries).value;
    if forall i :: 0 <= i < |entries| ==> entries[i].Some? {
      PresentEntriesRoundTrip(entries, out);
    } else {
      var i :| 0 <= i < |entries| && entries[i].None?;
      assert EntryToProto(entries[i]) == Ok(out[i]);
      PresentShape(out);
    }
  }

  /** kaspa -> proto -> kaspa is the identity exactly on what the wire carries: every entry present
      and without covenant id, every input's mass field matching the version, the id up to date. */
  lemma KaspaRoundTrip(lib: Library, st: Signable)
    ensures (SignableToProto(st).Ok? && SignableToKaspa(lib, SignableToProto(st).value) == Ok(st))
      <==> Carried(lib, st)
  {
    EncodableEntries(st.entries);
    if Collect(EntryToProto, st.entries).Ok? {
      EntriesRoundTrip(st.entries);
      TransactionRoundTrip(lib, st.tx, st.id);
    }
  }

  // ----- round trip from the daemon's side -----

  /** Every decoded transaction is one the wire carries. */
  lemma DecodedIsCarried(lib: Library, p: ProtoSignable)
    requires SignableToKaspa(lib, p).Ok?
    ensures Carried(lib, SignableToKaspa(lib, p).value)
    ensures SignableToProto(SignableToKaspa(lib, p).value).Ok?
    ensures SignableToKaspa(lib, SignableToProto(SignableToKaspa(lib, p).value).value) == SignableToKaspa(lib, p)
  {
    var st := SignableToKaspa(lib, p).value;
    var ptx := p.tx.value;
    var budgeted := lib.expectsComputeBudget(ptx.version);
    var decode := InputDecoder(budgeted);
    assert Collect(decode, ptx.inputs) == Ok(st.tx.inputs);
    forall i | 0 <= i < |st.tx.inputs| ensures st.tx.inputs[i].mass.ComputeBudget? == budgeted {
      assert decode(ptx.inputs[i]) == Ok(st.tx.inputs[i]);
    }
    var entries := Present(p.entries);
    forall i | 0 <= i < |st.entries|
      ensures st.entries[i].Some? && st.entries[i].value.covenantId.None?
    {
      assert EntryToKaspa(entries[i]) == Ok(st.entries[i]);
    }
    KaspaRoundTrip(lib, st);
  }

  /** Normal form of a message, written directly on the message: defaults filled in, scripts in
      lower-case hex, the mass field the version does not use zeroed, empty entries dropped. */
  function NormalScript(s: Option<ProtoScript>): ProtoScript {
    if s.None? then ProtoScript(0, "") else s.value.(scriptHex := Hex.Lower(s.value.scriptHex))
  }

  function NormalInput(budgeted: bool, i: ProtoInput): ProtoInput {
    var outpoint := if i.previousOutpoint.Some? then i.previousOutpoint.value else ProtoOutpoint(NullHash(), 0);
    i.(previousOutpoint := Some(outpoint),
       sigOpCount := if budgeted then 0 else i.sigOpCount,
       computeBudget := if budgeted then i.computeBudget else 0)
  }

  function InputNormalizer(budgeted: bool): ProtoInput -> ProtoInput {
    (i: ProtoInput) => NormalInput(budgeted, i)
  }

  function NormalOutput(o: ProtoOutput): ProtoOutput {
    o.(scriptPublicKey := Some(NormalScript(o.scriptPublicKey)))
  }

  function NormalEntry(e: ProtoEntry): OptionalEntry {
    OptionalEntry(Some(e.(scriptPublicKey := Some(NormalScript(e.scriptPublicKey)))))
  }

  function NormalTransaction(lib: Library, p: ProtoTransaction, id: Hash): ProtoTransaction
    requires p.version <= U16_MAX
  {
    p.(inputs := MapSeq(InputNormalizer(lib.expectsComputeBudget(p.version)), p.inputs),
       outputs := MapSeq(NormalOutput, p.outputs),
       subnetworkId := if p.subnetworkId == [] then Native() else p.subnetworkId,
       id := id)
  }

  lemma NormalScriptIsReencoding(s: Option<ProtoScript>)
    requires ScriptToKaspa(s).Ok?
    ensures ScriptToProto(ScriptToKaspa(s).value) == NormalScript(s)
  {
    if s.Some? {
      Hex.EncodeDecode(s.value.scriptHex);
    }
  }

  lemma NormalInputIsReencoding(budgeted: bool, i: ProtoInput)
    requires InputToKaspa(budgeted, i).Ok?
    ensures InputToProto(InputToKaspa(budgeted, i).value) == NormalInput(budgeted, i)
  {
  }

  lemma NormalTransactionIsReencoding(lib: Library, p: ProtoTransaction, id: Hash)
    requires TransactionToKaspa(lib, p).Ok?
    ensures TransactionToProto(TransactionToKaspa(lib, p).value, id) == NormalTransaction(lib, p, id)
  {
    var tx := TransactionToKaspa(lib, p).value;
    var budgeted := lib.expectsComputeBudget(p.version);
    var decode := InputDecoder(budgeted);
    assert Collect(decode, p.inputs) == Ok(tx.inputs);
    forall i | 0 <= i < |p.inputs| ensures InputToProto(tx.inputs[i]) == NormalInput(budgeted, p.inputs[i]) {
      assert decode(p.inputs[i]) == Ok(tx.inputs[i]);
      NormalInputIsReencoding(budgeted, p.inputs[i]);
    }
    forall i | 0 <= i < |p.outputs| ensures OutputToProto(tx.outputs[i]) == NormalOutput(p.outputs[i]) {
      assert OutputToKaspa(p.outputs[i]) == Ok(tx.outputs[i]);
      NormalScriptIsReencoding(p.outputs[i].scriptPublicKey);
    }
    var q, n := TransactionToProto(tx, id), NormalTransaction(lib, p, id);
    assert q.inputs == n.inputs;
    assert q.outputs == n.outputs;
  }

  /** proto -> kaspa -> proto never fails on what decoded, and yields the normal form. */
  lemma DaemonRoundTrip(lib: Library, p: ProtoSignable)
    requires SignableToKaspa(lib, p).Ok?
    ensures var st := SignableToKaspa(lib, p).value;
      SignableToProto(st) == Ok(p.(
        tx := Some(NormalTransaction(lib, p.tx.value, lib.idOf(st.tx))),
        entries := MapSeq(NormalEntry, Present(p.entries))))
  {
    var st := SignableToKaspa(lib, p).value;
    DecodedIsCarried(lib, p);
    NormalTransactionIsReencoding(lib, p.tx.value, st.id);
    var out := SignableToProto(st).value;
    var present := Present(p.entries);
    assert Collect(EntryToKaspa, present) == Ok(st.entries);
    forall i | 0 <= i < |present| ensures out.entries[i] == NormalEntry(present[i]) {
      assert EntryToKaspa(present[i]) == Ok(st.entries[i]);
      assert EntryToProto(st.entries[i]) == Ok(out.entries[i]);
      NormalScriptIsReencoding(present[i].scriptPublicKey);
    }
    assert out.entries == MapSeq(NormalEntry, present);
  }

  /** A message with its payload and output values replaced by those of `tx`. */
  function Edited(p: ProtoTransaction, tx: Transaction): ProtoTransaction
    requires |p.outputs| == |tx.outputs|
  {
    p.(payload := tx.payload,
       outputs := seq(|p.outputs|, i requires 0 <= i < |p.outputs| => p.outputs[i].(value := tx.outputs[i].value)))
  }

  /** The same transaction but for its payload and output values. */
  predicate SameButPayloadAndValues(a: Transaction, b: Transaction) {
    && b == a.(payload := b.payload, outputs := b.outputs)
    && |b.outputs| == |a.outputs|
    && forall i :: 0 <= i < |a.outputs| ==> b.outputs[i] == a.outputs[i].(value := b.outputs[i].value)
  }

  lemma EditedDecodes(lib: Library, p: ProtoTransaction, edit: Transaction)
    requires TransactionToKaspa(lib, p).Ok? && SameButPayloadAndValues(TransactionToKaspa(lib, p).value, edit)
    ensures |p.outputs| == |edit.outputs| && TransactionToKaspa(lib, Edited(p, edit)) == Ok(edit)
  {
    var tx := TransactionToKaspa(lib, p).value;
    var q := Edited(p, edit);
    forall i | 0 <= i < |q.outputs| ensures OutputToKaspa(q.outputs[i]) == Ok(edit.outputs[i]) {
      assert OutputToKaspa(p.outputs[i]) == Ok(tx.outputs[i]);
    }
    CollectUndoes(OutputToKaspa, edit.outputs, q.outputs);
  }

  /** What the wire carries for an edited transaction: the daemon's own message in normal form, with
      payload and output values replaced and the id recomputed. */
  function WireForm(lib: Library, p: ProtoSignable, edit: Transaction): ProtoSignable
    requires p.tx.Some? && |p.tx.value.outputs| == |edit.outputs| && p.tx.value.version <= U16_MAX
  {
    p.(tx := Some(NormalTransaction(lib, Edited(p.tx.value, edit), lib.idOf(edit))),
       entries := MapSeq(NormalEntry, Present(p.entries)))
  }

  lemma EditedWireForm(lib: Library, p: ProtoSignable, edit: Transaction)
    requires SignableToKaspa(lib, p).Ok? && SameButPayloadAndValues(SignableToKaspa(lib, p).value.tx, edit)
    ensures |p.tx.value.outputs| == |edit.outputs|
    ensures SignableToProto(SignableToKaspa(lib, p).value.(tx := edit, id := lib.idOf(edit)))
      == Ok(WireForm(lib, p, edit))
  {
    EditedDecodes(lib, p.tx.value, edit);
    DaemonRoundTrip(lib, p.(tx := Some(Edited(p.tx.value, edit))));
  }

  /** Re-encoding is a projection: decoding its result and encoding again changes nothing. */
  lemma ReencodingIsIdempotent(lib: Library, p: ProtoSignable)
    requires SignableToKaspa(lib, p).Ok?
    ensures var q := SignableToProto(SignableToKaspa(lib, p).value);
      q.Ok? && SignableToKaspa(lib, q.value).Ok? && SignableToProto(SignableToKaspa(lib, q.value).value) == q
  {
    DecodedIsCarried(lib, p);
  }

  // ----- what decodes -----

  predicate ScriptDecodes(s: Option<ProtoScript>) {
    s.Some? ==>
      && s.value.version <= U16_MAX
      && |s.value.scriptHex| % 2 == 0
      && forall i :: 0 <= i < |s.value.scriptHex| ==> Hex.IsHexDigit(s.value.scriptHex[i])
  }

  predicate InputDecodes(budgeted: bool, i: ProtoInput) {
    && (i.previousOutpoint.Some? ==> |i.previousOutpoint.value.transactionId| == HASH_SIZE)
    && (if budgeted then i.computeBudget <= U16_MAX else i.sigOpCount <= U8_MAX)
  }

  lemma ScriptAcceptance(s: Option<ProtoScript>)
    ensures ScriptToKaspa(s).Ok? <==> ScriptDecodes(s)
  {
    if s.Some? {
      Hex.DecodeAccepts(s.value.scriptHex);
    }
  }

  /** The messages that decode; the mass field the version does not use is never looked at. */
  lemma DecodingAcceptance(lib: Library, p: ProtoTransaction)
    ensures TransactionToKaspa(lib, p).Ok? <==>
      && p.version <= U16_MAX
      && (forall i :: 0 <= i < |p.inputs| ==> InputDecodes(lib.expectsComputeBudget(p.version), p.inputs[i]))
      && (forall i :: 0 <= i < |p.outputs| ==> ScriptDecodes(p.outputs[i].scriptPublicKey))
      && (|p.subnetworkId| == 0 || |p.subnetworkId| == SUBNETWORK_ID_SIZE)
  {
    if p.version <= U16_MAX {
      var budgeted := lib.expectsComputeBudget(p.version);
      var decode := InputDecoder(budgeted);
      assert forall i :: 0 <= i < |p.inputs| ==>
        (decode(p.inputs[i]).Ok? <==> InputDecodes(budgeted, p.inputs[i]));
      forall i | 0 <= i < |p.outputs|
        ensures OutputToKaspa(p.outputs[i]).Ok? <==> ScriptDecodes(p.outputs[i].scriptPublicKey)
      {
        ScriptAcceptance(p.outputs[i].scriptPublicKey);
      }
      assert Collect(decode, p.inputs).Ok? <==>
        forall i :: 0 <= i < |p.inputs| ==> InputDecodes(budgeted, p.inputs[i]);
      assert Collect(OutputToKaspa, p.outputs).Ok? <==>
        forall i :: 0 <= i < |p.outputs| ==> ScriptDecodes(p.outputs[i].scriptPublicKey);
    }
  }

  // ----- which error is answered -----

  predicate ScriptFault(s: Option<ProtoScript>, e: CodecError) {
    !ScriptDecodes(s) && e == if s.value.version > U16_MAX then InvalidScriptVersion else InvalidScriptHex
  }

  predicate InputFault(budgeted: bool, i: ProtoInput, e: CodecError) {
    && !InputDecodes(budgeted, i)
    && e ==
       if i.previousOutpoint.Some? && |i.previousOutpoint.value.transactionId| != 32 then MalformedTransactionId
       else if budgeted then ComputeBudgetTooLarge
       else SigOpCountTooLarge
  }

  predicate InputsFault(budgeted: bool, inputs: seq<ProtoInput>, e: CodecError) {
    exists i :: 0 <= i < |inputs| && InputFault(budgeted, inputs[i], e)
      && forall j :: 0 <= j < i ==> InputDecodes(budgeted, inputs[j])
  }

  predicate OutputsFault(outputs: seq<ProtoOutput>, e: CodecError) {
    exists i :: 0 <= i < |outputs| && ScriptFault(outputs[i].scriptPublicKey, e)
      && forall j :: 0 <= j < i ==> ScriptDecodes(outputs[j].scriptPublicKey)
  }

  predicate EntriesFault(entries: seq<ProtoEntry>, e: CodecError) {
    exists i :: 0 <= i < |entries| && ScriptFault(entries[i].scriptPublicKey, e)
      && forall j :: 0 <= j < i ==> ScriptDecodes(entries[j].scriptPublicKey)
  }

  lemma InputError(budgeted: bool, i: ProtoInput, e: CodecError)
    ensures InputToKaspa(budgeted, i) == Err(e) <==> InputFault(budgeted, i, e)
    ensures InputToKaspa(budgeted, i).Ok? <==> InputDecodes(budgeted, i)
  {
  }

  lemma ScriptError(s: Option<ProtoScript>, e: CodecError)
    ensures ScriptToKaspa(s) == Err(e) <==> ScriptFault(s, e)
    ensures ScriptToKaspa(s).Ok? <==> ScriptDecodes(s)
  {
    ScriptAcceptance(s);
  }

  lemma InputsError(budgeted: bool, inputs: seq<ProtoInput>, e: CodecError)
    ensures InputsToKaspa(budgeted, inputs) == Err(e) <==> InputsFault(budgeted, inputs, e)
  {
    var decode := InputDecoder(budgeted);
    forall i | 0 <= i < |inputs|
      ensures decode(inputs[i]) == Err(e) <==> InputFault(budgeted, inputs[i], e)
      ensures decode(inputs[i]).Ok? <==> InputDecodes(budgeted, inputs[i])
    {
      InputError(budgeted, inputs[i], e);
    }
    if InputsToKaspa(budgeted, inputs).Err? {
      var i := FirstFailure(decode, inputs);
      CollectError(decode, inputs, i);
    }
    if InputsFault(budgeted, inputs, e) {
      var i :| 0 <= i < |inputs| && InputFault(budgeted, inputs[i], e)
        && forall j :: 0 <= j < i ==> InputDecodes(budgeted, inputs[j]);
      CollectError(decode, inputs, i);
    }
  }

  lemma OutputsError(outputs: seq<ProtoOutput>, e: CodecError)
    ensures OutputsToKaspa(outputs) == Err(e) <==> OutputsFault(outputs, e)
  {
    forall i | 0 <= i < |outputs|
      ensures OutputToKaspa(outputs[i]) == Err(e) <==> ScriptFault(outputs[i].scriptPublicKey, e)
      ensures OutputToKaspa(outputs[i]).Ok? <==> ScriptDecodes(outputs[i].scriptPublicKey)
    {
      ScriptError(outputs[i].scriptPublicKey, e);
    }
    if OutputsToKaspa(outputs).Err? {
      var i := FirstFailure(OutputToKaspa, outputs);
      CollectError(OutputToKaspa, outputs, i);
    }
    if OutputsFault(outputs, e) {
      var i :| 0 <= i < |outputs| && ScriptFault(outputs[i].scriptPublicKey, e)
        && forall j :: 0 <= j < i ==> ScriptDecodes(outputs[j].scriptPublicKey);
      CollectError(OutputToKaspa, outputs, i);
    }
  }

  lemma EntriesError(entries: seq<ProtoEntry>, e: CodecError)
    ensures EntriesToKaspa(entries) == Err(e) <==> EntriesFault(entries, e)
  {
    forall i | 0 <= i < |entries|
      ensures EntryToKaspa(entries[i]) == Err(e) <==> ScriptFault(entries[i].scriptPublicKey, e)
      ensures EntryToKaspa(entries[i]).Ok? <==> ScriptDecodes(entries[i].scriptPublicKey)
    {
      ScriptError(entries[i].scriptPublicKey, e);
    }
    if EntriesToKaspa(entries).Err? {
      var i := FirstFailure(EntryToKaspa, entries);
      CollectError(EntryToKaspa, entries, i);
    }
    if EntriesFault(entries, e) {
      var i :| 0 <= i < |entries| && ScriptFault(entries[i].scriptPublicKey, e)
        && forall j :: 0 <= j < i ==> ScriptDecodes(entries[j].scriptPublicKey);
      CollectError(EntryToKaspa, entries, i);
    }
  }

  /** The first of these that fails: the version, an input, an output, the subnetwork's length. */
  predicate TransactionFault(lib: Library, p: ProtoTransaction, e: CodecError) {
    var budgeted := lib.expectsComputeBudget(if p.version > U16_MAX then 0 else p.version);
    if p.version > U16_MAX then e == InvalidVersion
    else if exists i :: 0 <= i < |p.inputs| && !InputDecodes(budgeted, p.inputs[i]) then
      InputsFault(budgeted, p.inputs, e)
    else if exists i :: 0 <= i < |p.outputs| && !ScriptDecodes(p.outputs[i].scriptPublicKey) then
      OutputsFault(p.outputs, e)
    else |p.subnetworkId| != 0 && |p.subnetworkId| != 20 && e == InvalidSubnetworkLength
  }

  lemma TransactionError(lib: Library, p: ProtoTransaction, e: CodecError)
    ensures TransactionToKaspa(lib, p) == Err(e) <==> TransactionFault(lib, p, e)
  {
    DecodingAcceptance(lib, p);
    if p.version <= U16_MAX {
      var budgeted := lib.expectsComputeBudget(p.version);
      InputsError(budgeted, p.inputs, e);
      OutputsError(p.outputs, e);
      forall i | 0 <= i < |p.inputs|
        ensures InputDecoder(budgeted)(p.inputs[i]).Ok? <==> InputDecodes(budgeted, p.inputs[i])
      {
        InputError(budgeted, p.inputs[i], e);
      }
      forall i | 0 <= i < |p.outputs|
        ensures OutputToKaspa(p.outputs[i]).Ok? <==> ScriptDecodes(p.outputs[i].scriptPublicKey)
      {
        ScriptError(p.outputs[i].scriptPublicKey, e);
      }
    }
  }

  /** Which decoding error a message gets: what it lacks, or the first fault of its transaction, or, when
      that decodes, of its present entries. */
  lemma DecodingErrorIsExact(lib: Library, w: WalletSignable, e: CodecError)
    ensures ProtoToSignableTransaction(lib, w) == Err(e) <==>
      match w.transaction
      case None => e == MissingTransaction
      case Some(SignedTransaction(None)) => e == MissingVariant
      case Some(SignedTransaction(Some(Fully(_)))) => e == FullySigned
      case Some(SignedTransaction(Some(Partially(p)))) =>
        if p.tx.None? then e == MissingTransaction
        else
          || TransactionFault(lib, p.tx.value, e)
          || (TransactionToKaspa(lib, p.tx.value).Ok? && EntriesFault(Present(p.entries), e))
  {
    match w.transaction
    case Some(SignedTransaction(Some(Partially(p)))) =>
      if p.tx.Some? {
        TransactionError(lib, p.tx.value, e);
        EntriesError(Present(p.entries), e);
      }
    case _ =>
  }

  /** Encoding fails exactly on a covenant id, and the list entry must hold some transaction. */
  lemma EncodingErrorIsExact(w: WalletSignable, mined: Signable, e: CodecError)
    ensures WithMinedTransaction(w, mined) == Err(e) <==>
      if w.transaction.None? then e == MissingTransaction
      else
        e == CovenantIdSet
        && exists i :: 0 <= i < |mined.entries| && mined.entries[i].Some? && mined.entries[i].value.covenantId.Some?
  {
    EncodableEntries(mined.entries);
    if Collect(EntryToProto, mined.entries).Err? {
      var i := FirstFailure(EntryToProto, mined.entries);
      CollectError(EntryToProto, mined.entries, i);
    }
  }

  /** The present entries, in order and none skipped: of a list they are those of its parts, of one entry
      that entry or nothing. */
  lemma {:induction false} PresentIsExact(a: seq<OptionalEntry>, b: seq<OptionalEntry>, x: OptionalEntry)
    ensures Present(a + b) == Present(a) + Present(b)
    ensures Present([x]) == if x.entry.Some? then [x.entry.value] else []
  {
    assert [x][1..] == [];
    if a == [] {
      assert a + b == b;
    } else {
      assert (a + b)[1..] == a[1..] + b;
      PresentIsExact(a[1..], b, x);
    }
  }

  // ----- decoding keeps every field in its place -----

  predicate SameScript(p: Option<ProtoScript>, k: ScriptPublicKey) {
    if p.None? then k == DEFAULT_SCRIPT
    else k.version == p.value.version && Hex.Encode(k.script) == Hex.Lower(p.value.scriptHex)
  }

  predicate SameInput(budgeted: bool, p: ProtoInput, k: Input) {
    && (if p.previousOutpoint.None? then k.outpoint == Outpoint(NullHash(), 0)
        else k.outpoint.transactionId == p.previousOutpoint.value.transactionId
             && k.outpoint.index == p.previousOutpoint.value.index)
    && k.signatureScript == p.signatureScript
    && k.sequence == p.sequence
    && k.mass == if budgeted then ComputeBudget(p.computeBudget % 0x1_0000) else SigOpCount(p.sigOpCount % 0x100)
  }

  predicate SameOutput(p: ProtoOutput, k: Output) {
    k.value == p.value && SameScript(p.scriptPublicKey, k.scriptPublicKey)
  }

  predicate SameEntry(p: ProtoEntry, k: UtxoEntry) {
    && k.amount == p.amount
    && k.blockDaaScore == p.blockDaaScore
    && k.isCoinbase == p.isCoinbase
    && k.covenantId.None?
    && SameScript(p.scriptPublicKey, k.scriptPublicKey)
  }

  lemma ScriptFields(s: Option<ProtoScript>)
    requires ScriptToKaspa(s).Ok?
    ensures SameScript(s, ScriptToKaspa(s).value)
  {
    if s.Some? {
      Hex.EncodeDecode(s.value.scriptHex);
    }
  }

  /** Field by field and in order, with absent parts defaulted. */
  predicate SameTransaction(budgeted: bool, p: ProtoTransaction, k: Transaction) {
    && k.version == p.version && k.lockTime == p.lockTime && k.gas == p.gas && k.payload == p.payload
    && k.subnetworkId == (if p.subnetworkId == [] then Native() else p.subnetworkId)
    && |k.inputs| == |p.inputs| && |k.outputs| == |p.outputs|
    && (forall i :: 0 <= i < |p.inputs| ==> SameInput(budgeted, p.inputs[i], k.inputs[i]))
    && (forall i :: 0 <= i < |p.outputs| ==> SameOutput(p.outputs[i], k.outputs[i]))
  }

  lemma TransactionFields(lib: Library, p: ProtoTransaction)
    requires TransactionToKaspa(lib, p).Ok?
    ensures SameTransaction(lib.expectsComputeBudget(p.version), p, TransactionToKaspa(lib, p).value)
  {
    var tx := TransactionToKaspa(lib, p).value;
    var decode := InputDecoder(lib.expectsComputeBudget(p.version));
    assert Collect(decode, p.inputs) == Ok(tx.inputs);
    forall i | 0 <= i < |p.inputs|
      ensures SameInput(lib.expectsComputeBudget(p.version), p.inputs[i], tx.inputs[i])
    {
      assert decode(p.inputs[i]) == Ok(tx.inputs[i]);
    }
    forall i | 0 <= i < |p.outputs| ensures SameOutput(p.outputs[i], tx.outputs[i]) {
      assert OutputToKaspa(p.outputs[i]) == Ok(tx.outputs[i]);
      ScriptFields(p.outputs[i].scriptPublicKey);
    }
  }

  lemma EntryFields(present: seq<ProtoEntry>, entries: seq<Option<UtxoEntry>>)
    requires Collect(EntryToKaspa, present) == Ok(entries)
    ensures |entries| == |present|
    ensures forall i :: 0 <= i < |present| ==> entries[i].Some? && SameEntry(present[i], entries[i].value)
  {
    forall i | 0 <= i < |present| ensures entries[i].Some? && SameEntry(present[i], entries[i].value) {
      assert EntryToKaspa(present[i]) == Ok(entries[i]);
      ScriptFields(present[i].scriptPublicKey);
    }
  }

  /** What a decoded transaction and its entries are; absent entries are skipped and the id is
      computed from the decoded content. */
  lemma DecodedFields(lib: Library, p: ProtoSignable)
    requires SignableToKaspa(lib, p).Ok?
    ensures var st := SignableToKaspa(lib, p).value;
      var present := Present(p.entries);
      && SameTransaction(lib.expectsComputeBudget(p.tx.value.version), p.tx.value, st.tx)
      && |st.entries| == |present|
      && (forall i :: 0 <= i < |present| ==> st.entries[i].Some? && SameEntry(present[i], st.entries[i].value))
      && st.calculatedFee == p.calculatedFee && st.masses == p.masses
      && st.id == lib.idOf(st.tx)
  {
    TransactionFields(lib, p.tx.value);
    EntryFields(Present(p.entries), SignableToKaspa(lib, p).value.entries);
  }
}
