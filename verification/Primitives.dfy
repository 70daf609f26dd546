/** Value types shared by every module: optional and fallible results, and Rust's
    fixed-width integers as subset types of the unbounded integers. */
module Primitives {

  datatype Option<+T> = None | Some(value: T)

  datatype Result<+T, +E> = Ok(value: T) | Err(error: E)

  const U8_MAX: nat := 0xFF
  const U16_MAX: nat := 0xFFFF
  const U32_MAX: nat := 0xFFFF_FFFF
  const U64_MAX: nat := 0xFFFF_FFFF_FFFF_FFFF

  type byte = n: nat | n <= 0xFF
  type u8 = byte
  type u16 = n: nat | n <= 0xFFFF
  type u32 = n: nat | n <= 0xFFFF_FFFF
  type u64 = n: nat | n <= 0xFFFF_FFFF_FFFF_FFFF

  function Min(a: int, b: int): int {
    if a <= b then a else b
  }

  function Max(a: int, b: int): int {
    if a <= b then b else a
  }

  function Zeros(n: nat): (z: seq<byte>)
    ensures |z| == n && forall i :: 0 <= i < n ==> z[i] == 0
  {
    seq(n, _ => 0)
  }

  /** Apply a fallible conversion to every element; the first failure wins. */
  function Collect<A, B, E>(convert: A -> Result<B, E>, xs: seq<A>): (r: Result<seq<B>, E>)
    ensures r.Ok? <==> forall i :: 0 <= i < |xs| ==> convert(xs[i]).Ok?
    ensures r.Ok? ==> |r.value| == |xs|
    ensures r.Ok? ==> forall i :: 0 <= i < |xs| ==> convert(xs[i]) == Ok(r.value[i])
  {
    if xs == [] then Ok([])
    else
      match convert(xs[0])
      case Err(e) => assert !convert(xs[0]).Ok?; Err(e)
      case Ok(y) =>
        match Collect(convert, xs[1..])
        case Err(e) =>
          assert exists i :: 0 <= i < |xs[1..]| && !convert(xs[1..][i]).Ok?;
          assert forall i :: 0 <= i < |xs[1..]| ==> xs[1..][i] == xs[i + 1];
          Err(e)
        case Ok(ys) => Ok([y] + ys)
  }

  function MapSeq<A, B>(f: A -> B, xs: seq<A>): (ys: seq<B>)
    ensures |ys| == |xs|
    ensures forall i :: 0 <= i < |xs| ==> ys[i] == f(xs[i])
  {
    seq(|xs|, i requires 0 <= i < |xs| => f(xs[i]))
  }

  /** The image of one conversion under another that undoes it, element by element. */
  lemma CollectUndoes<A, B, E>(convert: B -> Result<A, E>, xs: seq<A>, ys: seq<B>)
    requires |xs| == |ys|
    requires forall i :: 0 <= i < |xs| ==> convert(ys[i]) == Ok(xs[i])
    ensures Collect(convert, ys) == Ok(xs)
  {
    var r := Collect(convert, ys);
    assert r.Ok?;
    assert r.value == xs;
  }

  /** The error collected is that of the first element that fails. */
  lemma {:induction false} CollectError<A, B, E>(convert: A -> Result<B, E>, xs: seq<A>, i: nat)
    requires i < |xs| && convert(xs[i]).Err?
    requires forall j :: 0 <= j < i ==> convert(xs[j]).Ok?
    ensures Collect(convert, xs) == Err(convert(xs[i]).error)
  {
    if i > 0 {
      assert forall j :: 0 <= j < i - 1 ==> xs[1..][j] == xs[j + 1];
      CollectError(convert, xs[1..], i - 1);
    }
  }

  lemma {:induction false} FirstFailure<A, B, E>(convert: A -> Result<B, E>, xs: seq<A>) returns (i: nat)
    requires Collect(convert, xs).Err?
    ensures i < |xs| && convert(xs[i]).Err? && forall j :: 0 <= j < i ==> convert(xs[j]).Ok?
  {
    i := 0;
    if convert(xs[0]).Ok? {
      i := FirstFailure(convert, xs[1..]);
      i := i + 1;
      assert forall j :: 1 <= j < i ==> xs[j] == xs[1..][j - 1];
    }
  }
}
