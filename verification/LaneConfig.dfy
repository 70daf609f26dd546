/** The lane configuration (src/config/lane.rs): the parser of the 4-byte lane namespace and the
    resolution of the enforcement mode. */
module LaneConfig {
  import opened Primitives
  import opened Kaspa
  import Hex

  const NAMESPACE_LEN := 4
  const NAMESPACE_HEX_LEN := 8

  datatype LaneConfig = LaneConfig(laneId: Option<string>, enforcementDisabled: bool)

  datatype LaneMode = Enforced(id: SubnetworkId) | Disabled

  datatype LaneConfigError =
    | HexPrefix | WrongLength | UpperCase | NotHex | Native | Builtin | ReservedShape | Required

  const PADDING_LEN := SUBNETWORK_ID_SIZE - NAMESPACE_LEN

  function ParseNamespace(isBuiltin: SubnetworkId -> bool, s: string): Result<SubnetworkId, LaneConfigError> {
    if "0x" <= s || "0X" <= s then Err(HexPrefix)
    else if |s| != NAMESPACE_HEX_LEN then Err(WrongLength)
    else if exists i :: 0 <= i < |s| && 'A' <= s[i] <= 'Z' then Err(UpperCase)
    else
      Hex.DecodeAccepts(s);
      match Hex.Decode(s)
      case Err(_) => Err(NotHex)
      case Ok(namespace) =>
        var id: SubnetworkId := namespace + Zeros(PADDING_LEN);
        if forall i :: 0 <= i < SUBNETWORK_ID_SIZE ==> id[i] == 0 then Err(Native)
        else if isBuiltin(id) then Err(Builtin)
        else if forall i :: 1 <= i < NAMESPACE_LEN ==> id[i] == 0 then Err(ReservedShape)
        else Ok(id)
  }

  function Parsed(isBuiltin: SubnetworkId -> bool, c: LaneConfig): Result<Option<SubnetworkId>, LaneConfigError> {
    if c.laneId.None? || c.laneId.value == "" then Ok(None)
    else
      match ParseNamespace(isBuiltin, c.laneId.value)
      case Err(e) => Err(e)
      case Ok(id) => Ok(Some(id))
  }

  function Resolve(isBuiltin: SubnetworkId -> bool, c: LaneConfig): Result<LaneMode, LaneConfigError> {
    match Parsed(isBuiltin, c)
    case Err(e) => Err(e)
    case Ok(Some(id)) => Ok(Enforced(id))
    case Ok(None) => if c.enforcementDisabled then Ok(Disabled) else Err(Required)
  }

  // ----- what the parser accepts -----

  /** `[x, 0 x 19]`: one byte, then zeros. */
  predicate SystemShape(id: SubnetworkId) {
    forall i :: 1 <= i < SUBNETWORK_ID_SIZE ==> id[i] == 0
  }

  /** The built-in subnetworks are of the reserved system shape. */
  ghost predicate BuiltinsAreSystem(isBuiltin: SubnetworkId -> bool) {
    forall id: SubnetworkId :: isBuiltin(id) ==> SystemShape(id)
  }

  lemma LowerHexIsHex(s: string)
    requires |s| == NAMESPACE_HEX_LEN
    ensures Hex.LowerHex(s) <==> Hex.Decode(s).Ok? && forall i :: 0 <= i < |s| ==> !('A' <= s[i] <= 'Z')
    ensures Hex.Decode(s).Ok? ==> |Hex.Decode(s).value| == NAMESPACE_LEN
  {
    Hex.DecodeAccepts(s);
    if Hex.LowerHex(s) {
      forall i | 0 <= i < |s| ensures Hex.IsHexDigit(s[i]) {
        assert Hex.IsLowerHexDigit(s[i]);
      }
    }
    if Hex.Decode(s).Ok? && (forall i :: 0 <= i < |s| ==> !('A' <= s[i] <= 'Z')) {
      forall i | 0 <= i < |s| ensures Hex.IsLowerHexDigit(s[i]) {
        assert Hex.IsHexDigit(s[i]);
      }
    }
  }

  /** A namespace byte other than the first is nonzero, read off the text: some character after
      the second is not '0'. */
  predicate NamesALane(s: string) {
    exists i :: 2 <= i < |s| && s[i] != '0'
  }

  lemma CharacterToByte(bytes: seq<byte>, s: string, i: nat)
    requires |s| == 2 * |bytes| && s == Hex.Encode(bytes)
    requires i < |s| && s[i] != '0'
    ensures i / 2 < |bytes| && bytes[i / 2] != 0
  {
    var k := i / 2;
    EncodedPair(bytes, k);
    assert i == 2 * k || i == 2 * k + 1;
  }

  lemma ByteToCharacter(bytes: seq<byte>, s: string, k: nat)
    requires |s| == 2 * |bytes| && s == Hex.Encode(bytes)
    requires k < |bytes| && bytes[k] != 0
    ensures s[2 * k] != '0' || s[2 * k + 1] != '0'
  {
    EncodedPair(bytes, k);
  }

  predicate HasTailByte(bytes: seq<byte>) {
    exists i :: 1 <= i < |bytes| && bytes[i] != 0
  }

  lemma TailBytesAreTailCharacters(bytes: seq<byte>, s: string)
    requires |s| == 2 * |bytes| && s == Hex.Encode(bytes)
    ensures NamesALane(s) <==> HasTailByte(bytes)
  {
    if NamesALane(s) {
      var i :| 2 <= i < |s| && s[i] != '0';
      CharacterToByte(bytes, s, i);
    }
    if HasTailByte(bytes) {
      var k :| 1 <= k < |bytes| && bytes[k] != 0;
      ByteToCharacter(bytes, s, k);
    }
  }

  lemma TextOfNamespace(s: string)
    requires Hex.LowerHex(s) && Hex.Decode(s).Ok?
    ensures Hex.Encode(Hex.Decode(s).value) == s
  {
    Hex.EncodeDecode(s);
    LowerIsIdentity(s);
  }

  lemma {:induction false} EncodedPair(bytes: seq<byte>, i: nat)
    requires i < |bytes|
    ensures Hex.Encode(bytes)[2 * i] == Hex.Digit(bytes[i] / 16)
    ensures Hex.Encode(bytes)[2 * i + 1] == Hex.Digit(bytes[i] % 16)
    ensures bytes[i] == 0 <==> Hex.Encode(bytes)[2 * i] == '0' && Hex.Encode(bytes)[2 * i + 1] == '0'
  {
    if i == 0 {
      Hex.DigitRoundTrip(bytes[0] / 16);
      Hex.DigitRoundTrip(bytes[0] % 16);
    } else {
      EncodedPair(bytes[1..], i - 1);
    }
  }

  lemma LowerIsIdentity(s: string)
    requires Hex.LowerHex(s)
    ensures Hex.Lower(s) == s
  {
    forall i | 0 <= i < |s| ensures Hex.LowerChar(s[i]) == s[i] {
      assert Hex.IsLowerHexDigit(s[i]);
    }
  }

  /** The accepted texts are exactly the eight lower-case hex digits that name a lane. */
  lemma AcceptedNamespaces(isBuiltin: SubnetworkId -> bool, s: string)
    requires BuiltinsAreSystem(isBuiltin)
    ensures ParseNamespace(isBuiltin, s).Ok?
      <==> |s| == NAMESPACE_HEX_LEN && Hex.LowerHex(s) && NamesALane(s)
  {
    if |s| == NAMESPACE_HEX_LEN {
      LowerHexIsHex(s);
      if Hex.LowerHex(s) {
        assert Hex.IsLowerHexDigit(s[1]);
        var bytes := Hex.Decode(s).value;
        TextOfNamespace(s);
        TailBytesAreTailCharacters(bytes, s);
        PaddedNamespace(bytes);
      }
    }
  }

  lemma PaddedNamespace(bytes: seq<byte>)
    requires |bytes| == NAMESPACE_LEN
    ensures var id: SubnetworkId := bytes + Zeros(PADDING_LEN);
      && (SystemShape(id) <==> forall i :: 1 <= i < NAMESPACE_LEN ==> id[i] == 0)
      && (forall i :: 1 <= i < NAMESPACE_LEN ==> id[i] == bytes[i])
      && ((forall i :: 0 <= i < SUBNETWORK_ID_SIZE ==> id[i] == 0) ==> SystemShape(id))
  {
  }

  predicate HasUpperCase(s: string) {
    exists i :: 0 <= i < |s| && s[i] in "ABCDEFGHIJKLMNOPQRSTUVWXYZ"
  }

  predicate AllZeros(s: string) {
    forall i :: 0 <= i < |s| ==> s[i] == '0'
  }

  /** The lane a text of eight lower-case hex digits spells. */
  function Spelled(s: string): SubnetworkId
    requires |s| == NAMESPACE_HEX_LEN && Hex.LowerHex(s)
  {
    LowerHexIsHex(s);
    Hex.Decode(s).value + Zeros(PADDING_LEN)
  }

  lemma AllZerosIsNative(s: string)
    requires |s| == NAMESPACE_HEX_LEN && Hex.LowerHex(s)
    ensures AllZeros(s) <==> Spelled(s) == Zeros(SUBNETWORK_ID_SIZE)
  {
    LowerHexIsHex(s);
    TextOfNamespace(s);
    var bytes := Hex.Decode(s).value;
    PaddedNamespace(bytes);
    if AllZeros(s) {
      forall k | 0 <= k < |bytes| ensures bytes[k] == 0 {
        EncodedPair(bytes, k);
      }
    } else {
      var i :| 0 <= i < |s| && s[i] != '0';
      CharacterToByte(bytes, s, i);
      assert Spelled(s)[i / 2] == bytes[i / 2] != 0;
    }
  }

  /** Which error is answered: the first of these that applies. A "0x" in front, a length other than
      eight, an upper-case letter, a character that is no hex digit, eight zeros, a built-in
      subnetwork, or zeros after the second digit. */
  lemma NamespaceErrorIsExact(isBuiltin: SubnetworkId -> bool, s: string)
    ensures var r := ParseNamespace(isBuiltin, s);
      var prefixed := |s| >= 2 && s[0] == '0' && s[1] in "xX";
      if prefixed then r == Err(HexPrefix)
      else if |s| != 8 then r == Err(WrongLength)
      else if HasUpperCase(s) then r == Err(UpperCase)
      else if !Hex.LowerHex(s) then r == Err(NotHex)
      else if AllZeros(s) then r == Err(Native)
      else if isBuiltin(Spelled(s)) then r == Err(Builtin)
      else if !NamesALane(s) then r == Err(ReservedShape)
      else r == Ok(Spelled(s))
  {
    assert forall c: char :: c in "ABCDEFGHIJKLMNOPQRSTUVWXYZ" <==> 'A' <= c <= 'Z';
    if |s| == NAMESPACE_HEX_LEN {
      LowerHexIsHex(s);
      if Hex.LowerHex(s) {
        AllZerosIsNative(s);
        TextOfNamespace(s);
        TailBytesAreTailCharacters(Hex.Decode(s).value, s);
        PaddedNamespace(Hex.Decode(s).value);
      }
    }
  }

  /** The result is the namespace followed by zeros, and printing its first four bytes gives the
      text back; so two texts never name the same lane. */
  lemma NamespaceRoundTrip(isBuiltin: SubnetworkId -> bool, s: string)
    requires ParseNamespace(isBuiltin, s).Ok?
    ensures var id := ParseNamespace(isBuiltin, s).value;
      id[NAMESPACE_LEN..] == Zeros(PADDING_LEN) && Hex.Encode(id[..NAMESPACE_LEN]) == s
  {
    LowerHexIsHex(s);
    TextOfNamespace(s);
    var namespace := Hex.Decode(s).value;
    assert (namespace + Zeros(PADDING_LEN))[..NAMESPACE_LEN] == namespace;
    assert (namespace + Zeros(PADDING_LEN))[NAMESPACE_LEN..] == Zeros(PADDING_LEN);
  }

  lemma NamespaceIsInjective(isBuiltin: SubnetworkId -> bool, s: string, t: string)
    requires ParseNamespace(isBuiltin, s).Ok?
    requires ParseNamespace(isBuiltin, t) == ParseNamespace(isBuiltin, s)
    ensures s == t
  {
    NamespaceRoundTrip(isBuiltin, s);
    NamespaceRoundTrip(isBuiltin, t);
  }

  /** Enforcement is off exactly for an absent (or empty) lane id with the explicit opt-out; a
      valid lane id is enforced whatever the opt-out says, and a bad one is never ignored. */
  lemma EnforcementCannotBeLostByAccident(isBuiltin: SubnetworkId -> bool, c: LaneConfig)
    requires BuiltinsAreSystem(isBuiltin)
    ensures Resolve(isBuiltin, c) == Ok(Disabled)
      <==> (c.laneId.None? || c.laneId == Some("")) && c.enforcementDisabled
    ensures (Resolve(isBuiltin, c).Ok? && Resolve(isBuiltin, c).value.Enforced?)
      <==>
      && c.laneId.Some? && |c.laneId.value| == NAMESPACE_HEX_LEN
      && Hex.LowerHex(c.laneId.value) && NamesALane(c.laneId.value)
    ensures c.laneId.Some? && c.laneId.value != "" ==>
      Resolve(isBuiltin, c) == Resolve(isBuiltin, c.(enforcementDisabled := !c.enforcementDisabled))
    ensures c.laneId.Some? && c.laneId.value != "" ==>
      match ParseNamespace(isBuiltin, c.laneId.value)
      case Ok(id) => Resolve(isBuiltin, c) == Ok(Enforced(id))
      case Err(e) => Resolve(isBuiltin, c) == Err(e)
    ensures Resolve(isBuiltin, c) == Err(Required)
      <==> (c.laneId.None? || c.laneId == Some("")) && !c.enforcementDisabled
  {
    if c.laneId.Some? {
      AcceptedNamespaces(isBuiltin, c.laneId.value);
    }
  }
}
