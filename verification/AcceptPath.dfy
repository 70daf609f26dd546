/** The synchronous accept path of eth_sendRawTransaction (src/services/transaction.rs): format,
    size and envelope checks first, then the base fee, then the fee rules. The envelope decoder is
    arbitrary. Fees follow EIP-1559, envelopes EIP-2718. */
module AcceptPath {
  import opened Primitives
  import opened Json
  import Hex

  const MAX_TRANSACTION_SIZE := 128 * 1024

  const LEGACY: byte := 0
  const EIP2930: byte := 1
  const EIP1559: byte := 2
  const BLOB: byte := 3
  const EIP7702: byte := 4

  datatype Envelope =
    | Legacy(gasPrice: nat)
    | AccessList(gasPrice: nat)
    | DynamicFee(maxFee: nat, tip: nat)
    | Blob
    | SetCode(maxFee: nat, tip: nat)

  type Decoder = seq<byte> -> Option<Envelope>

  datatype Request = Request(id: Json, methodName: string, params: Json)

  datatype TransactionError =
    | InvalidTransactionFormat
    | TipAboveMaxFee(maxFee: nat, tip: nat, required: nat)
    | InsufficientGasFee(required: nat, provided: nat)

  datatype Rejection =
    | MissingHexPrefix
    | InvalidHex
    | MalformedTransaction
    | BaseFeeUnavailable
    | FeeRejected(error: TransactionError)

  datatype Reply = Rejected(why: Rejection, id: Json) | Validated(bytes: seq<byte>)

  /** JSON-RPC error code of each rejection. */
  function ErrorCode(why: Rejection): int {
    match why
    case MissingHexPrefix => -32001
    case InvalidHex => -32001
    case MalformedTransaction => -32602
    case BaseFeeUnavailable => -32000
    case FeeRejected(_) => -32602
  }

  // ----- format -----

  function RawTransaction(params: Json): string {
    if params.Arr? && |params.items| > 0 && params.items[0].Str? then params.items[0].s else ""
  }

  /** The text after "0x", padded to an even number of digits. */
  function PaddedDigits(raw: string): string
    requires "0x" <= raw
  {
    if |raw| % 2 != 0 then "0" + raw[2..] else raw[2..]
  }

  function DetectTransactionType(data: seq<byte>): Option<byte> {
    if data == [] then None
    else if data[0] < 0x80 then Some(data[0])
    else Some(LEGACY)
  }

  function ParseRlpTransaction(decode: Decoder, data: seq<byte>): Option<(Envelope, byte)> {
    if |data| > MAX_TRANSACTION_SIZE then None
    else
      match DetectTransactionType(data)
      case None => None
      case Some(t) =>
        if t == BLOB || t > EIP7702 then None
        else
          match decode(data)
          case None => None
          case Some(tx) => Some((tx, t))
  }

  // ----- fees -----

  function ValidateLegacyOrEip2930(tx: Envelope, minFee: nat): Result<(), TransactionError> {
    match tx
    case Legacy(p) => if p < minFee then Err(InsufficientGasFee(minFee, p)) else Ok(())
    case AccessList(p) => if p < minFee then Err(InsufficientGasFee(minFee, p)) else Ok(())
    case _ => Err(InvalidTransactionFormat)
  }

  function ValidateEip1559(tx: Envelope, minFee: nat): Result<(), TransactionError> {
    if !tx.DynamicFee? && !tx.SetCode? then Err(InvalidTransactionFormat)
    else if tx.tip > tx.maxFee then Err(TipAboveMaxFee(tx.maxFee, tx.tip, minFee))
    else if tx.maxFee < minFee then Err(InsufficientGasFee(minFee, tx.maxFee))
    else if tx.tip < minFee then Err(InsufficientGasFee(minFee, tx.tip))
    else Ok(())
  }

  function ValidateGasFeeWithType(tx: Envelope, minFee: nat, t: byte): Result<(), TransactionError> {
    if t == LEGACY || t == EIP2930 then ValidateLegacyOrEip2930(tx, minFee)
    else if t == EIP1559 || t == EIP7702 then ValidateEip1559(tx, minFee)
    else Err(InvalidTransactionFormat)
  }

  /** With no base fee only the envelope is checked. */
  function ValidateComprehensive(decode: Decoder, data: seq<byte>, baseFee: Option<nat>): Result<(), TransactionError> {
    match ParseRlpTransaction(decode, data)
    case None => Err(InvalidTransactionFormat)
    case Some((tx, t)) =>
      if baseFee.None? then Ok(()) else ValidateGasFeeWithType(tx, baseFee.value, t)
  }

  // ----- the accept path -----

  /** How the library prints a JSON value; all that matters is that a string is quoted. */
  ghost predicate Quotes(show: Json -> string) {
    forall s: string :: show(Str(s)) != s
  }

  function RequestIdText(show: Json -> string, id: Json): string {
    if id.Null? then "null" else show(id)
  }

  /** Format and size checks without a base fee; no I/O. */
  function ValidateFormat(decode: Decoder, show: Json -> string, req: Request): Reply {
    var raw := RawTransaction(req.params);
    if !("0x" <= raw) then Rejected(MissingHexPrefix, req.id)
    else
      match Hex.Decode(PaddedDigits(raw))
      case Err(_) => Rejected(InvalidHex, Str(RequestIdText(show, req.id)))
      case Ok(bytes) =>
        match ValidateComprehensive(decode, bytes, None)
        case Err(_) => Rejected(MalformedTransaction, req.id)
        case Ok(_) => Validated(bytes)
  }

  /** `baseFee` is what the fee service would answer, None for a failed fetch; the second result
      says whether it was asked. `idValue` is the request id, or a fresh one when that is null. */
  function ValidateAcceptRequest(decode: Decoder, show: Json -> string, req: Request, idValue: Json,
                                 baseFee: Option<nat>): (Reply, bool) {
    match ValidateFormat(decode, show, req)
    case Rejected(why, id) => (Rejected(why, id), false)
    case Validated(bytes) =>
      match baseFee
      case None => (Rejected(BaseFeeUnavailable, idValue), true)
      case Some(fee) =>
        match ValidateComprehensive(decode, bytes, Some(fee))
        case Err(e) => (Rejected(FeeRejected(e), idValue), true)
        case Ok(_) => (Validated(bytes), true)
  }

  // ----- what acceptance means -----

  /** The transaction type the first byte announces: a legacy transaction starts with an RLP list. */
  function Announced(first: byte): byte {
    if first < 0x80 then first else LEGACY
  }

  function Variant(tx: Envelope): byte {
    match tx
    case Legacy(_) => LEGACY
    case AccessList(_) => EIP2930
    case DynamicFee(_, _) => EIP1559
    case Blob => BLOB
    case SetCode(_, _) => EIP7702
  }

  /** The two fee families the type byte can announce. */
  predicate DynamicByte(first: byte) {
    first in {2, 4}
  }

  predicate SupportedByte(first: byte) {
    first in {0, 1, 2, 4} || first >= 0x80
  }

  predicate IsDynamic(tx: Envelope) {
    tx.DynamicFee? || tx.SetCode?
  }

  /** The transaction's own fee fields meet the base fee, whatever its type byte says. */
  predicate OwnFeesMeet(tx: Envelope, fee: nat) {
    match tx
    case Legacy(p) => fee <= p
    case AccessList(p) => fee <= p
    case DynamicFee(m, tip) => fee <= tip <= m
    case SetCode(m, tip) => fee <= tip <= m
    case Blob => false
  }

  /** Non-empty bytes of at most 128 KiB with a supported first byte that decode. */
  predicate WellFormed(decode: Decoder, bytes: seq<byte>) {
    0 < |bytes| <= 131072 && SupportedByte(bytes[0]) && decode(bytes).Some?
  }

  /** The text names these bytes: "0x" and hex digits of either case, with a leading zero understood
      when their number is odd. */
  predicate Names(raw: string, bytes: seq<byte>) {
    && "0x" <= raw
    && (forall i :: 2 <= i < |raw| ==> Hex.IsHexDigit(raw[i]))
    && Hex.Encode(bytes) in {Hex.Lower(raw[2..]), "0" + Hex.Lower(raw[2..])}
  }

  /** The raw transaction of a request is its first parameter, if that is a text. */
  lemma RawTransactionIsFirst(params: Json, text: string)
    requires text != ""
    ensures RawTransaction(params) == text <==> exists others :: params == Arr([Str(text)] + others)
  {
    if RawTransaction(params) == text {
      assert params.items == [Str(text)] + params.items[1..];
    }
  }

  lemma EncodedParity(raw: string, bytes: seq<byte>)
    requires "0x" <= raw
    ensures Hex.Encode(bytes) in {Hex.Lower(raw[2..]), "0" + Hex.Lower(raw[2..])}
      <==> Hex.Encode(bytes) == Hex.Lower(PaddedDigits(raw))
  {
    Hex.TwiceIsEven(|bytes|);
    assert Hex.LowerChar('0') == '0';
    assert Hex.Lower("0" + raw[2..]) == "0" + Hex.Lower(raw[2..]);
  }

  lemma PaddedDigitsDecode(raw: string)
    requires "0x" <= raw
    ensures Hex.Decode(PaddedDigits(raw)).Ok? <==> forall i :: 2 <= i < |raw| ==> Hex.IsHexDigit(raw[i])
  {
    var digits := PaddedDigits(raw);
    Hex.DecodeAccepts(digits);
    var shift := if |raw| % 2 != 0 then 1 else 2;
    assert forall i :: 2 <= i < |raw| ==> digits[i - shift] == raw[i];
    if forall i :: 2 <= i < |raw| ==> Hex.IsHexDigit(raw[i]) {
      forall j | 0 <= j < |digits| ensures Hex.IsHexDigit(digits[j]) {
        if shift == 2 || j > 0 {
          assert digits[j] == raw[j + shift];
        }
      }
    } else {
      var i :| 2 <= i < |raw| && !Hex.IsHexDigit(raw[i]);
      assert !Hex.IsHexDigit(digits[i - shift]);
    }
  }

  /** At most one byte string is named by a text, and the decoder finds it. */
  lemma NamedBytes(raw: string, bytes: seq<byte>)
    ensures Names(raw, bytes) <==> "0x" <= raw && Hex.Decode(PaddedDigits(raw)) == Ok(bytes)
  {
    if "0x" <= raw {
      EncodedParity(raw, bytes);
      PaddedDigitsDecode(raw);
      var decoded := Hex.Decode(PaddedDigits(raw));
      if decoded.Ok? {
        Hex.EncodeDecode(PaddedDigits(raw));
        Hex.DecodeEncode(bytes);
        Hex.DecodeEncode(decoded.value);
      }
    }
  }

  lemma FormatIsWellFormedness(decode: Decoder, show: Json -> string, req: Request, bytes: seq<byte>)
    ensures ValidateFormat(decode, show, req) == Validated(bytes)
      <==> Names(RawTransaction(req.params), bytes) && WellFormed(decode, bytes)
  {
    NamedBytes(RawTransaction(req.params), bytes);
  }

  predicate HexText(raw: string) {
    "0x" <= raw && forall i :: 2 <= i < |raw| ==> Hex.IsHexDigit(raw[i])
  }

  /** Which format error is answered: no "0x", then a character that is not a hex digit, then bytes
      that are not a well-formed transaction. */
  lemma FormatErrorIsExact(decode: Decoder, show: Json -> string, req: Request)
    ensures var raw := RawTransaction(req.params);
      match ValidateFormat(decode, show, req)
      case Validated(bytes) => HexText(raw) && Names(raw, bytes)
      case Rejected(why, id) =>
        && (why == MissingHexPrefix <==> !("0x" <= raw))
        && (why == InvalidHex <==> "0x" <= raw && !HexText(raw))
        && (why == MalformedTransaction <==>
              HexText(raw) && forall bytes :: Names(raw, bytes) ==> !WellFormed(decode, bytes))
  {
    var raw := RawTransaction(req.params);
    if "0x" <= raw {
      PaddedDigitsDecode(raw);
    }
    forall bytes
      ensures ValidateFormat(decode, show, req) == Validated(bytes) <==> Names(raw, bytes) && WellFormed(decode, bytes)
    {
      FormatIsWellFormedness(decode, show, req, bytes);
    }
  }

  /** What each fee error says of a transaction and the first byte it came with: the wrong fee
      family goes first, then a tip above the cap, then the first of its fees that misses the
      minimum. */
  predicate Deserves(error: TransactionError, tx: Envelope, first: byte, minFee: nat) {
    var inFamily := !tx.Blob? && IsDynamic(tx) == DynamicByte(first);
    match error
    case InvalidTransactionFormat => !inFamily
    case TipAboveMaxFee(maxFee, tip, required) =>
      inFamily && IsDynamic(tx) && maxFee == tx.maxFee < tip == tx.tip && required == minFee
    case InsufficientGasFee(required, provided) =>
      && inFamily && required == minFee > provided
      && if IsDynamic(tx)
         then tx.tip <= tx.maxFee && provided == (if tx.maxFee < minFee then tx.maxFee else tx.tip)
         else provided == tx.gasPrice
  }

  lemma DeservedIsAnswered(tx: Envelope, first: byte, minFee: nat, error: TransactionError)
    requires SupportedByte(first)
    ensures ValidateGasFeeWithType(tx, minFee, Announced(first)) == Err(error) <==> Deserves(error, tx, first, minFee)
  {
  }

  lemma FeeErrorOfBytes(decode: Decoder, show: Json -> string, req: Request, idValue: Json, minFee: nat,
                        error: TransactionError, bytes: seq<byte>)
    requires Names(RawTransaction(req.params), bytes) && WellFormed(decode, bytes)
    ensures ValidateAcceptRequest(decode, show, req, idValue, Some(minFee)).0 == Rejected(FeeRejected(error), idValue)
      <==> Deserves(error, decode(bytes).value, bytes[0], minFee)
  {
    FormatIsWellFormedness(decode, show, req, bytes);
    DeservedIsAnswered(decode(bytes).value, bytes[0], minFee, error);
  }

  lemma NamedBytesAreUnique(raw: string, a: seq<byte>, b: seq<byte>)
    requires Names(raw, a) && Names(raw, b)
    ensures a == b
  {
    NamedBytes(raw, a);
    NamedBytes(raw, b);
  }

  /** A request is answered with a fee error exactly when it is well formed, a base fee is known, and
      the transaction deserves that error. */
  lemma FeeErrorIsExact(decode: Decoder, show: Json -> string, req: Request, idValue: Json,
                        baseFee: Option<nat>, error: TransactionError)
    ensures ValidateAcceptRequest(decode, show, req, idValue, baseFee).0 == Rejected(FeeRejected(error), idValue) <==>
      && baseFee.Some?
      && exists bytes :: Names(RawTransaction(req.params), bytes) && WellFormed(decode, bytes)
           && Deserves(error, decode(bytes).value, bytes[0], baseFee.value)
  {
    var raw := RawTransaction(req.params);
    if baseFee.Some? && exists bytes :: Names(raw, bytes) && WellFormed(decode, bytes) {
      var bytes :| Names(raw, bytes) && WellFormed(decode, bytes);
      FeeErrorOfBytes(decode, show, req, idValue, baseFee.value, error, bytes);
      forall other | Names(raw, other) ensures other == bytes {
        NamedBytesAreUnique(raw, other, bytes);
      }
    } else {
      MalformedNeverFetches(decode, show, req, idValue, baseFee, baseFee);
    }
  }

  /** Malformed input gets the same error whatever the fee service would answer, and the fee service
      is asked exactly for well-formed input. */
  lemma MalformedNeverFetches(decode: Decoder, show: Json -> string, req: Request, idValue: Json,
                              fee: Option<nat>, other: Option<nat>)
    ensures ValidateAcceptRequest(decode, show, req, idValue, fee).1 <==>
      exists bytes :: Names(RawTransaction(req.params), bytes) && WellFormed(decode, bytes)
    ensures !ValidateAcceptRequest(decode, show, req, idValue, fee).1 ==>
      && ValidateAcceptRequest(decode, show, req, idValue, fee)
         == ValidateAcceptRequest(decode, show, req, idValue, other)
      && ErrorCode(ValidateAcceptRequest(decode, show, req, idValue, fee).0.why) in {-32001, -32602}
  {
    var reply := ValidateFormat(decode, show, req);
    if reply.Validated? {
      FormatIsWellFormedness(decode, show, req, reply.bytes);
    }
    if bytes :| Names(RawTransaction(req.params), bytes) && WellFormed(decode, bytes) {
      FormatIsWellFormedness(decode, show, req, bytes);
    }
  }

  /** Acceptance, exactly: well-formed bytes, an available base fee, an envelope of the fee family
      the first byte announces, and the envelope's own fees at or above the base fee. */
  lemma AcceptanceIsExact(decode: Decoder, show: Json -> string, req: Request, idValue: Json,
                          baseFee: Option<nat>, bytes: seq<byte>)
    ensures ValidateAcceptRequest(decode, show, req, idValue, baseFee).0 == Validated(bytes) <==>
      && Names(RawTransaction(req.params), bytes)
      && WellFormed(decode, bytes)
      && baseFee.Some?
      && IsDynamic(decode(bytes).value) == DynamicByte(bytes[0])
      && OwnFeesMeet(decode(bytes).value, baseFee.value)
  {
    FormatIsWellFormedness(decode, show, req, bytes);
  }

  /** Fail-closed: the retryable code -32000 is answered exactly when well-formed input meets a failed
      base-fee fetch, and such input is never accepted without a fee. */
  lemma FailClosedIsExact(decode: Decoder, show: Json -> string, req: Request, idValue: Json, baseFee: Option<nat>)
    ensures var reply := ValidateAcceptRequest(decode, show, req, idValue, baseFee).0;
      var wellFormed := exists bytes :: Names(RawTransaction(req.params), bytes) && WellFormed(decode, bytes);
      && ((reply.Rejected? && ErrorCode(reply.why) == -32000) <==> (wellFormed && baseFee.None?))
      && (reply.Validated? ==> wellFormed && baseFee.Some?)
  {
    MalformedNeverFetches(decode, show, req, idValue, baseFee, baseFee);
  }

  /** Two types of one fee family. */
  predicate Siblings(a: byte, b: byte) {
    (a, b) in {(LEGACY, EIP2930), (EIP2930, LEGACY), (EIP1559, EIP7702), (EIP7702, EIP1559)}
  }

  /** The usual request for these bytes names them. */
  lemma EncodedTextNames(bytes: seq<byte>)
    ensures Names("0x" + Hex.Encode(bytes), bytes)
  {
    var raw := "0x" + Hex.Encode(bytes);
    Hex.TwiceIsEven(|bytes| + 1);
    assert raw[2..] == Hex.Encode(bytes);
    Hex.DecodeEncode(bytes);
    NamedBytes(raw, bytes);
  }

  /** The JSON-RPC code of a rejection: -32001 exactly for a text that is not "0x" and hex digits, -32000
      exactly for well-formed input without a base fee, and -32602 for the rest. */
  lemma ErrorCodeIsExact(decode: Decoder, show: Json -> string, req: Request, idValue: Json, baseFee: Option<nat>)
    ensures var reply := ValidateAcceptRequest(decode, show, req, idValue, baseFee).0;
      var raw := RawTransaction(req.params);
      var wellFormed := exists bytes :: Names(raw, bytes) && WellFormed(decode, bytes);
      reply.Rejected? ==>
        ErrorCode(reply.why) == if !HexText(raw) then -32001 else if wellFormed && baseFee.None? then -32000 else -32602
  {
    FormatErrorIsExact(decode, show, req);
    MalformedNeverFetches(decode, show, req, idValue, baseFee, baseFee);
  }

  /** Type byte and decoded variant may disagree inside a fee family, and only there. Whatever the
      decoder: bytes it decodes to another variant than the first byte announces are accepted, in the
      usual request for them, exactly when both are of one family and the variant's own fees meet
      the base fee. */
  lemma TypeByteMayDisagree(decode: Decoder, show: Json -> string, id: Json, idValue: Json, fee: nat, bytes: seq<byte>)
    requires WellFormed(decode, bytes) && Announced(bytes[0]) != Variant(decode(bytes).value)
    ensures var req := Request(id, "eth_sendRawTransaction", Arr([Str("0x" + Hex.Encode(bytes))]));
      ValidateAcceptRequest(decode, show, req, idValue, Some(fee)).0 == Validated(bytes) <==>
        && Siblings(Announced(bytes[0]), Variant(decode(bytes).value))
        && OwnFeesMeet(decode(bytes).value, fee)
  {
    EncodedTextNames(bytes);
    var req := Request(id, "eth_sendRawTransaction", Arr([Str("0x" + Hex.Encode(bytes))]));
    AcceptanceIsExact(decode, show, req, idValue, Some(fee), bytes);
  }

  /** Such bytes need no odd decoder: one that reads a single byte string, starting as a legacy
      transaction does, as an access-list transaction is enough. */
  lemma LegacyByteMayCarryAccessList(show: Json -> string, id: Json, fee: nat, bytes: seq<byte>)
    requires 0 < |bytes| <= MAX_TRANSACTION_SIZE && bytes[0] >= 0x80
    ensures var decode: Decoder := b => if b == bytes then Some(AccessList(fee)) else None;
      var req := Request(id, "eth_sendRawTransaction", Arr([Str("0x" + Hex.Encode(bytes))]));
      ValidateAcceptRequest(decode, show, req, id, Some(fee)).0 == Validated(bytes)
  {
    var decode: Decoder := b => if b == bytes then Some(AccessList(fee)) else None;
    TypeByteMayDisagree(decode, show, id, id, fee, bytes);
  }

  /** JSON-RPC 2.0 (section 5) asks for the request's id on every reply. An error reply carries it
      exactly when the hex text decoded and, past the format checks, the id is not null: the
      hex-decoding error sends the printed id as a string, and a null id is replaced by a generated
      one. */
  lemma ReplyIdIsExact(decode: Decoder, show: Json -> string, req: Request, generated: string, baseFee: Option<nat>)
    requires Quotes(show)
    ensures var idValue := if req.id.Null? then Str(generated) else req.id;
      var (reply, fetched) := ValidateAcceptRequest(decode, show, req, idValue, baseFee);
      && (reply.Rejected? ==>
            (reply.id == req.id <==> reply.why != InvalidHex && (fetched ==> !req.id.Null?)))
      && (reply.Rejected? && reply.why == InvalidHex ==>
            reply.id == Str(if req.id.Null? then "null" else show(req.id)))
      && (reply.Rejected? && fetched ==> reply.id == idValue)
  {
    if req.id.Str? {
      assert show(Str(req.id.s)) != req.id.s;
    }
  }
}
