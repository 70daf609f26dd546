/** Flooring of fee-oracle responses (src/services/gas_price.rs): hex quantities below the protocol
    minimum are raised in place; everything else in the response stays. */
module FeeFloor {
  import opened Primitives
  import opened Json
  import Bytes
  import Hex
  import AcceptPath

  const U256_LIMIT: nat := 0x1_0000000000000000_0000000000000000_0000000000000000_0000000000000000
  const GWEI_TO_WEI: nat := 1_000_000_000

  type Parser = string -> Option<nat>

  // ----- hex quantities -----

  /** `format!("{:x}")`: lower case, no leading zeros. */
  function PrintHex(n: nat): (s: string)
    ensures s != ""
  {
    if n < 16 then [Hex.Digit(n)] else PrintHex(n / 16) + [Hex.Digit(n % 16)]
  }

  function ParseDigits(s: string): Option<nat> {
    if s == "" then Some(0)
    else
      var last := Hex.DigitValue(s[|s| - 1]);
      match ParseDigits(s[..|s| - 1])
      case None => None
      case Some(high) => if last.None? then None else Some(16 * high + last.value)
  }

  /** Hex digits of either case naming a 256-bit value. */
  function ParseU256(s: string): Option<nat> {
    var n := ParseDigits(s);
    if n.Some? && n.value < U256_LIMIT then n else None
  }

  /** All the flooring needs of the library's parser. */
  ghost predicate ReadsPrinted(parse: Parser) {
    forall n: nat :: n < U256_LIMIT ==> parse(PrintHex(n)) == Some(n)
  }

  lemma {:induction false} PrintParse(n: nat)
    ensures ParseDigits(PrintHex(n)) == Some(n)
  {
    if n < 16 {
      Hex.DigitRoundTrip(n);
      assert ParseDigits("") == Some(0);
      assert PrintHex(n)[..0] == "";
    } else {
      PrintParse(n / 16);
      Hex.DigitRoundTrip(n % 16);
      assert PrintHex(n)[..|PrintHex(n)| - 1] == PrintHex(n / 16);
    }
  }

  lemma ParseU256ReadsPrinted()
    ensures ReadsPrinted(ParseU256)
  {
    forall n: nat | n < U256_LIMIT ensures ParseU256(PrintHex(n)) == Some(n) {
      PrintParse(n);
    }
  }

  lemma {:induction false} PrintHexDigits(n: nat)
    ensures forall i :: 0 <= i < |PrintHex(n)| ==> Hex.IsLowerHexDigit(PrintHex(n)[i])
  {
    if n < 16 {
      Hex.DigitRoundTrip(n);
    } else {
      PrintHexDigits(n / 16);
      Hex.DigitRoundTrip(n % 16);
    }
  }

  /** `trim_start_matches`: strips the pattern as often as it occurs. */
  function TrimStart(s: string, pattern: string): string
    requires pattern != ""
    decreases |s|
  {
    if pattern <= s then TrimStart(s[|pattern|..], pattern) else s
  }

  function Trimmed(s: string): string {
    TrimStart(TrimStart(s, "0x"), "0X")
  }

  lemma PrefixIsNotLowerHex(s: string, prefix: string)
    requires |prefix| == 2 && prefix <= s && !Hex.IsLowerHexDigit(prefix[1])
    ensures !Hex.LowerHex(s)
  {
    assert s[1] == prefix[1];
  }

  lemma TrimmedPrinted(n: nat, prefix: string)
    requires prefix in {"0x", "0X"}
    ensures Trimmed(prefix + PrintHex(n)) == PrintHex(n)
  {
    var p := PrintHex(n);
    PrintHexDigits(n);
    assert Hex.LowerHex(p);
    assert !Hex.IsLowerHexDigit('x') && !Hex.IsLowerHexDigit('X');
    if "0x" <= p {
      PrefixIsNotLowerHex(p, "0x");
    }
    if "0X" <= p {
      PrefixIsNotLowerHex(p, "0X");
    }
    assert Repeated("0x", 0) == "" && Repeated("0X", 0) == "";
    assert Repeated("0x", 1) == "0x" && Repeated("0X", 1) == "0X";
    if prefix == "0x" {
      assert PrefixedText(prefix + p, 1, 0, p);
    } else {
      assert PrefixedText(prefix + p, 0, 1, p);
    }
    TrimmedIsExact(prefix + p, p);
  }

  /** The quantity a JSON value stands for, if it is a string holding one. */
  function Quantity(parse: Parser, v: Json): Option<nat> {
    if !v.Str? || Trimmed(v.s) == "" then None else parse(Trimmed(v.s))
  }

  /** The value after flooring one entry. */
  function FloorQuantity(parse: Parser, floor: nat, v: Json): Json {
    var q := Quantity(parse, v);
    if q.Some? && q.value < floor then Str("0x" + PrintHex(floor)) else v
  }

  /** Flooring yields the larger of the old quantity and the floor, changes nothing that is not a
      quantity below the floor, and is idempotent. */
  lemma FloorQuantityIsMax(parse: Parser, floor: nat, v: Json)
    requires ReadsPrinted(parse) && floor < U256_LIMIT
    ensures var after := FloorQuantity(parse, floor, v);
      && Quantity(parse, after)
        == (if Quantity(parse, v).Some? then Some(Max(Quantity(parse, v).value, floor)) else None)
      && (after == v <==> Quantity(parse, v).None? || Quantity(parse, v).value >= floor)
      && FloorQuantity(parse, floor, after) == after
  {
    TrimmedPrinted(floor, "0x");
  }

  // ----- which texts are quantities -----

  function Repeated(pattern: string, n: nat): string {
    if n == 0 then "" else pattern + Repeated(pattern, n - 1)
  }

  lemma {:induction false} TrimStartIsExact(s: string, pattern: string) returns (n: nat)
    requires pattern != ""
    ensures s == Repeated(pattern, n) + TrimStart(s, pattern) && !(pattern <= TrimStart(s, pattern))
    ensures pattern <= s <==> n > 0
    decreases |s|
  {
    n := 0;
    if pattern <= s {
      n := TrimStartIsExact(s[|pattern|..], pattern);
      n := n + 1;
      assert s == pattern + s[|pattern|..];
    }
  }

  lemma {:induction false} TrimStartOfRepeated(pattern: string, n: nat, rest: string)
    requires pattern != "" && !(pattern <= rest)
    ensures TrimStart(Repeated(pattern, n) + rest, pattern) == rest
  {
    if n == 0 {
      assert Repeated(pattern, 0) + rest == rest;
    } else {
      var s := Repeated(pattern, n) + rest;
      assert s == pattern + (Repeated(pattern, n - 1) + rest);
      assert s[|pattern|..] == Repeated(pattern, n - 1) + rest;
      TrimStartOfRepeated(pattern, n - 1, rest);
    }
  }

  /** The text the parser is given: any number of "0x", then any number of "0X", are dropped. */
  predicate PrefixedText(s: string, m: nat, n: nat, digits: string) {
    && s == Repeated("0x", m) + Repeated("0X", n) + digits
    && !("0X" <= digits) && (n == 0 ==> !("0x" <= digits))
  }

  lemma TrimmedIsExact(s: string, digits: string)
    ensures Trimmed(s) == digits <==> exists m, n :: PrefixedText(s, m, n, digits)
  {
    var rest := TrimStart(s, "0x");
    var m0 := TrimStartIsExact(s, "0x");
    var n0 := TrimStartIsExact(rest, "0X");
    assert s == Repeated("0x", m0) + Repeated("0X", n0) + Trimmed(s);
    assert n0 == 0 ==> Trimmed(s) == rest;
    assert PrefixedText(s, m0, n0, Trimmed(s));
    forall m, n | PrefixedText(s, m, n, digits) ensures Trimmed(s) == digits {
      var tail := Repeated("0X", n) + digits;
      assert s == Repeated("0x", m) + tail;
      if n > 0 {
        assert tail[1] == 'X';
      } else {
        assert tail == digits;
      }
      TrimStartOfRepeated("0x", m, tail);
      TrimStartOfRepeated("0X", n, digits);
    }
  }

  /** Exactly the strings whose text past those prefixes is not empty and parses are quantities. */
  lemma QuantityIsExact(parse: Parser, v: Json, q: nat)
    ensures Quantity(parse, v) == Some(q) <==>
      v.Str? && exists m, n, digits :: PrefixedText(v.s, m, n, digits) && digits != "" && parse(digits) == Some(q)
  {
    if v.Str? {
      TrimmedIsExact(v.s, Trimmed(v.s));
      forall m, n, digits | PrefixedText(v.s, m, n, digits) ensures Trimmed(v.s) == digits {
        TrimmedIsExact(v.s, digits);
      }
    }
  }

  /** Every number the library prints is a quantity behind either prefix, zero included, and flooring
      an entry that holds it gives the printed larger of the two, or leaves it alone. */
  lemma PrintedIsFloored(parse: Parser, floor: nat, n: nat, prefix: string)
    requires ReadsPrinted(parse) && n < U256_LIMIT && prefix in {"0x", "0X"}
    ensures Quantity(parse, Str(prefix + PrintHex(n))) == Some(n)
    ensures FloorQuantity(parse, floor, Str(prefix + PrintHex(n)))
      == Str(if n < floor then "0x" + PrintHex(floor) else prefix + PrintHex(n))
  {
    TrimmedPrinted(n, prefix);
  }

  /** Printed numbers have no leading zero, so one text per number is written. */
  lemma {:induction false} PrintedIsShortest(n: nat)
    ensures PrintHex(n)[0] == '0' <==> n == 0
    ensures n == 0 ==> PrintHex(n) == "0"
  {
    if n < 16 {
      Hex.DigitRoundTrip(n);
    } else {
      PrintedIsShortest(n / 16);
    }
  }

  lemma OneMoreDigit(s: string, d: nat)
    requires ParseDigits(s).Some? && d < 16
    ensures ParseDigits(s + [Hex.Digit(d)]) == Some(16 * ParseDigits(s).value + d)
  {
    Hex.DigitRoundTrip(d);
    assert (s + [Hex.Digit(d)])[..|s|] == s;
  }

  lemma OneMoreByte(s: string, b: byte)
    requires ParseDigits(s).Some?
    ensures ParseDigits(s + [Hex.Digit(b / 16), Hex.Digit(b % 16)]) == Some(256 * ParseDigits(s).value + b)
  {
    TwoMoreDigits(s, b / 16, b % 16);
    Nibbles(ParseDigits(s).value, b);
  }

  lemma TwoMoreDigits(s: string, hi: nat, lo: nat)
    requires ParseDigits(s).Some? && hi < 16 && lo < 16
    ensures ParseDigits(s + [Hex.Digit(hi), Hex.Digit(lo)]) == Some(16 * (16 * ParseDigits(s).value + hi) + lo)
  {
    OneMoreDigit(s, hi);
    OneMoreDigit(s + [Hex.Digit(hi)], lo);
    assert s + [Hex.Digit(hi)] + [Hex.Digit(lo)] == s + [Hex.Digit(hi), Hex.Digit(lo)];
  }

  lemma Nibbles(n: nat, b: byte)
    ensures 16 * (16 * n + b / 16) + b % 16 == 256 * n + b
  {
  }

  lemma DigitsAreBigEndianStep(high: seq<byte>, last: byte)
    requires ParseDigits(Hex.Encode(high)) == Some(Bytes.FromBigEndian(high))
    ensures ParseDigits(Hex.Encode(high + [last])) == Some(Bytes.FromBigEndian(high + [last]))
  {
    EncodeAppend(high, last);
    OneMoreByte(Hex.Encode(high), last);
    Bytes.FromBigEndianStep(high, last);
  }

  /** What digits mean: the big-endian number of the bytes they spell. */
  lemma {:induction false} DigitsAreBigEndian(bytes: seq<byte>)
    ensures ParseDigits(Hex.Encode(bytes)) == Some(Bytes.FromBigEndian(bytes))
  {
    if bytes != [] {
      var n := |bytes| - 1;
      DigitsAreBigEndian(bytes[..n]);
      DigitsAreBigEndianStep(bytes[..n], bytes[n]);
      assert bytes == bytes[..n] + [bytes[n]];
    }
  }

  lemma {:induction false} EncodeAppend(bytes: seq<byte>, b: byte)
    ensures Hex.Encode(bytes + [b]) == Hex.Encode(bytes) + [Hex.Digit(b / 16), Hex.Digit(b % 16)]
  {
    if bytes == [] {
      assert bytes + [b] == [b] + [];
      Hex.EncodeStep(b, []);
    } else {
      assert bytes + [b] == [bytes[0]] + (bytes[1..] + [b]);
      Hex.EncodeStep(bytes[0], bytes[1..] + [b]);
      EncodeAppend(bytes[1..], b);
    }
  }

  /** The parser given reads exactly the spelled numbers of at most 256 bits. */
  lemma ParseU256OfBytes(bytes: seq<byte>)
    ensures ParseU256(Hex.Encode(bytes))
      == if Bytes.FromBigEndian(bytes) < U256_LIMIT then Some(Bytes.FromBigEndian(bytes)) else None
  {
    DigitsAreBigEndian(bytes);
  }

  /** With the parser given, leading zeros and upper case make no difference. */
  lemma {:induction false} ZerosAndCaseDoNotMatter(s: string)
    ensures ParseDigits("0" + s) == ParseDigits(s)
    ensures ParseDigits(Hex.Lower(s)) == ParseDigits(s)
  {
    if s == "" {
      assert "0" + s == "0" && "0"[..0] == "";
      assert Hex.Lower(s) == "";
    } else {
      var n := |s| - 1;
      ZerosAndCaseDoNotMatter(s[..n]);
      assert ("0" + s)[..n + 1] == "0" + s[..n];
      assert Hex.Lower(s)[..n] == Hex.Lower(s[..n]);
      assert Hex.DigitValue(Hex.LowerChar(s[n])) == Hex.DigitValue(s[n]);
    }
  }

  // ----- the floor -----

  /** U256::checked_mul. */
  function CheckedMul(a: nat, b: nat): Option<nat> {
    if a * b < U256_LIMIT then Some(a * b) else None
  }

  function MinFloorWei(gwei: u64): Option<nat> {
    CheckedMul(gwei, GWEI_TO_WEI)
  }

  /** The overflow branch is dead: every configured floor fits, so flooring is never skipped. */
  lemma FloorNeverOverflows(gwei: u64)
    ensures MinFloorWei(gwei) == Some(gwei * 1_000_000_000) && gwei * GWEI_TO_WEI < U256_LIMIT
  {
    assert gwei * GWEI_TO_WEI <= 0xFFFF_FFFF_FFFF_FFFF * GWEI_TO_WEI;
  }

  // ----- whole responses, as functions -----

  function FloorRow(parse: Parser, floor: nat, row: Json): Json {
    if row.Arr? then Arr(MapSeq(Floorer(parse, floor), row.items)) else row
  }

  function Floorer(parse: Parser, floor: nat): Json -> Json {
    (v: Json) => FloorQuantity(parse, floor, v)
  }

  function RowFloorer(parse: Parser, floor: nat): Json -> Json {
    (row: Json) => FloorRow(parse, floor, row)
  }

  /** Replaces the field's value by `f` of it, if the value is an object with that field. */
  function UpdateField(v: Json, name: string, f: Json -> Json): Json {
    if v.Obj? && name in v.fields then Obj(v.fields[name := f(v.fields[name])]) else v
  }

  function FloorRewards(parse: Parser, floor: nat): Json -> Json {
    (rewards: Json) => if rewards.Arr? then Arr(MapSeq(RowFloorer(parse, floor), rewards.items)) else rewards
  }

  function FloorResult(parse: Parser, floor: nat): Json -> Json {
    (result: Json) => UpdateField(result, "reward", FloorRewards(parse, floor))
  }

  function FlooredFeeHistory(parse: Parser, floor: nat, response: Json): Json {
    UpdateField(response, "result", FloorResult(parse, floor))
  }

  function FlooredGasPrice(parse: Parser, floor: nat, response: Json): Json {
    UpdateField(response, "result", Floorer(parse, floor))
  }

  // ----- the response object, rewritten in place -----

  class Response {
    var value: Json

    constructor (v: Json)
      ensures value == v
    {
      value := v;
    }

    method FloorGasPriceValue(parse: Parser, gwei: u64)
      modifies this
      ensures value == FlooredGasPrice(parse, gwei * GWEI_TO_WEI, old(value))
    {
      FloorNeverOverflows(gwei);
      var minFloor := MinFloorWei(gwei);
      if minFloor.None? {
        return;
      }
      if value.Obj? && "result" in value.fields {
        value := Obj(value.fields["result" := FloorQuantity(parse, minFloor.value, value.fields["result"])]);
      }
    }

    method FloorFeeHistoryValue(parse: Parser, gwei: u64)
      modifies this
      ensures value == FlooredFeeHistory(parse, gwei * GWEI_TO_WEI, old(value))
    {
      FloorNeverOverflows(gwei);
      var minFloor := MinFloorWei(gwei);
      if minFloor.None? {
        return;
      }
      var floor := minFloor.value;
      if !value.Obj? || "result" !in value.fields {
        return;
      }
      var result := value.fields["result"];
      if !result.Obj? || "reward" !in result.fields || !result.fields["reward"].Arr? {
        assert FloorResult(parse, floor)(result) == result;
        assert value.fields == value.fields["result" := result];
        return;
      }
      var rewards := result.fields["reward"].items;
      ghost var rewards0 := rewards;
      for i := 0 to |rewards|
        invariant |rewards| == |rewards0|
        invariant forall k :: 0 <= k < i ==> rewards[k] == FloorRow(parse, floor, rewards0[k])
        invariant forall k :: i <= k < |rewards| ==> rewards[k] == rewards0[k]
      {
        if rewards[i].Arr? {
          var percentiles := rewards[i].items;
          for j := 0 to |percentiles|
            invariant |percentiles| == |rewards0[i].items|
            invariant forall k :: 0 <= k < j ==> percentiles[k] == FloorQuantity(parse, floor, rewards0[i].items[k])
            invariant forall k :: j <= k < |percentiles| ==> percentiles[k] == rewards0[i].items[k]
          {
            percentiles := percentiles[j := FloorQuantity(parse, floor, percentiles[j])];
          }
          assert percentiles == MapSeq(Floorer(parse, floor), rewards0[i].items);
          rewards := rewards[i := Arr(percentiles)];
        }
      }
      assert rewards == MapSeq(RowFloorer(parse, floor), rewards0);
      value := Obj(value.fields["result" := Obj(result.fields["reward" := Arr(rewards)])]);
      assert FloorRewards(parse, floor)(Arr(rewards0)) == Arr(rewards);
      assert FloorResult(parse, floor)(result) == Obj(result.fields["reward" := Arr(rewards)]);
    }
  }

  // ----- what flooring does, path by path -----

  predicate IsRewardPath(path: seq<Key>) {
    && |path| == 4
    && path[0] == Field("result") && path[1] == Field("reward")
    && path[2].Index? && path[3].Index?
  }

  function FloorAt(parse: Parser, floor: nat, v: Option<Json>): Option<Json> {
    match v
    case None => None
    case Some(x) => Some(FloorQuantity(parse, floor, x))
  }

  lemma AtUpdatedField(v: Json, name: string, f: Json -> Json, path: seq<Key>)
    requires path != []
    ensures At(UpdateField(v, name, f), path) ==
      if path[0] == Field(name) && v.Obj? && name in v.fields then At(f(v.fields[name]), path[1..]) else At(v, path)
  {
  }

  lemma AtMapped(items: seq<Json>, f: Json -> Json, path: seq<Key>)
    requires path != []
    ensures At(Arr(MapSeq(f, items)), path) ==
      if path[0].Index? && path[0].i < |items| then At(f(items[path[0].i]), path[1..]) else None
    ensures At(Arr(items), path) ==
      if path[0].Index? && path[0].i < |items| then At(items[path[0].i], path[1..]) else None
  {
  }

  /** Two values agree except at depth-d entries: same leaves and same gaps elsewhere. */
  predicate SameOrContainers(before: Option<Json>, after: Option<Json>) {
    before == after || (before.Some? && after.Some? && before.value.Arr? && after.value.Arr?)
                    || (before.Some? && after.Some? && before.value.Obj? && after.value.Obj?)
  }

  lemma FloorRowAt(parse: Parser, floor: nat, row: Json, path: seq<Key>)
    requires path != [] && path[0].Index?
    ensures |path| == 1 ==> At(FloorRow(parse, floor, row), path) == FloorAt(parse, floor, At(row, path))
    ensures |path| > 1 ==> At(FloorRow(parse, floor, row), path) == At(row, path)
  {
    if row.Arr? {
      AtMapped(row.items, Floorer(parse, floor), path);
      if path[0].i < |row.items| {
        var x := row.items[path[0].i];
        FloorQuantityIsLeafwise(parse, floor, x, path[1..]);
      }
    }
  }

  /** Flooring one entry changes strings only, so nothing below it. */
  lemma FloorQuantityIsLeafwise(parse: Parser, floor: nat, x: Json, path: seq<Key>)
    ensures path != [] ==> At(FloorQuantity(parse, floor, x), path) == At(x, path)
    ensures path == [] ==> At(FloorQuantity(parse, floor, x), path) == Some(FloorQuantity(parse, floor, x))
  {
  }

  lemma FloorRewardsAt(parse: Parser, floor: nat, rewards: Json, path: seq<Key>)
    ensures var after := FloorRewards(parse, floor)(rewards);
      if |path| == 2 && path[0].Index? && path[1].Index?
      then At(after, path) == FloorAt(parse, floor, At(rewards, path))
      else SameOrContainers(At(rewards, path), At(after, path))
  {
    if rewards.Arr? && path != [] {
      AtMapped(rewards.items, RowFloorer(parse, floor), path);
      if path[0].Index? && path[0].i < |rewards.items| {
        var row, rest := rewards.items[path[0].i], path[1..];
        assert At(FloorRewards(parse, floor)(rewards), path) == At(FloorRow(parse, floor, row), rest);
        if rest != [] {
          if rest[0].Index? {
            FloorRowAt(parse, floor, row, rest);
          } else if row.Arr? {
            AtMapped(row.items, Floorer(parse, floor), rest);
          }
        }
      }
    }
  }

  /** Flooring a fee history: at every path result.reward[i][j] the entry is floored, and at every
      other path whatever was there (a leaf, a gap, or some container) is still there. */
  lemma FeeHistoryByPath(parse: Parser, floor: nat, response: Json, path: seq<Key>)
    ensures var after := FlooredFeeHistory(parse, floor, response);
      if IsRewardPath(path)
      then At(after, path) == FloorAt(parse, floor, At(response, path))
      else SameOrContainers(At(response, path), At(after, path))
  {
    if path != [] {
      AtUpdatedField(response, "result", FloorResult(parse, floor), path);
      if path[0] == Field("result") && response.Obj? && "result" in response.fields {
        var result, rest := response.fields["result"], path[1..];
        if rest != [] {
          AtUpdatedField(result, "reward", FloorRewards(parse, floor), rest);
          if rest[0] == Field("reward") && result.Obj? && "reward" in result.fields {
            FloorRewardsAt(parse, floor, result.fields["reward"], rest[1..]);
            assert IsRewardPath(path) <==> |rest[1..]| == 2 && rest[1..][0].Index? && rest[1..][1].Index?;
          }
        }
      }
    }
  }

  /** Same for a single quantity: only result itself is floored. */
  lemma GasPriceByPath(parse: Parser, floor: nat, response: Json, path: seq<Key>)
    ensures var after := FlooredGasPrice(parse, floor, response);
      if path == [Field("result")]
      then At(after, path) == FloorAt(parse, floor, At(response, path))
      else SameOrContainers(At(response, path), At(after, path))
  {
    if path != [] {
      AtUpdatedField(response, "result", Floorer(parse, floor), path);
      if path[0] == Field("result") && response.Obj? && "result" in response.fields {
        FloorQuantityIsLeafwise(parse, floor, response.fields["result"], path[1..]);
        assert path[1..] == [] ==> path == [Field("result")];
      }
    }
  }

  // ----- oracle and validator -----

  /** A wallet that takes its tip from the floored oracle and sets max fee >= tip passes the
      validator exactly when the network base fee is no higher than the advertised tip; below the
      floor that is always so. */
  lemma OracleAgreesWithValidator(parse: Parser, gwei: u64, advertised: Json, networkFee: nat, tip: nat, maxFee: nat)
    requires ReadsPrinted(parse)
    requires Quantity(parse, FloorQuantity(parse, gwei * GWEI_TO_WEI, advertised)) == Some(tip)
    requires maxFee >= tip
    ensures var floor := gwei * GWEI_TO_WEI;
      var verdict := AcceptPath.ValidateEip1559(AcceptPath.DynamicFee(maxFee, tip), Max(networkFee, floor));
      (verdict.Ok? <==> networkFee <= tip) && (networkFee <= floor ==> verdict.Ok?)
  {
    FloorNeverOverflows(gwei);
    FloorQuantityIsMax(parse, gwei * GWEI_TO_WEI, advertised);
  }
}
