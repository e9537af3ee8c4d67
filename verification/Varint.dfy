/** Base 128 varints: the encoder and size function generated into `any.pb.go`, and the two
    decoders in use, which differ in how they treat a tenth byte that does not fit 64 bits. */
module Varint {
  import opened Bytes
  import opened Gas

  datatype WireError =
    | Overflow | Truncated | EndGroup | IllegalTag | WrongWireType | UnexpectedEndGroup | IllegalWireType

  datatype Result<+T> = Ok(value: T) | Err(error: WireError)

  /** Least significant group first; every byte but the last has its high bit set. */
  function Encode(v: nat): (b: bytes)
    ensures |b| >= 1
  {
    if v < 128 then [v] else [v % 128 + 128] + Encode(v / 128)
  }

  /** The groups of a varint at the start of `d`, read as an unbounded number, and how many bytes
      they take; `k` bytes have been read before.  An eleventh byte is an overflow. */
  function Groups(d: bytes, k: nat): (r: Result<(nat, nat)>)
    ensures r.Ok? ==> 1 <= r.value.1 <= |d| && r.value.1 + k <= 10
    decreases |d|
  {
    if k >= 10 then Err(Overflow)
    else if d == [] then Err(Truncated)
    else if d[0] < 128 then Ok((d[0], 1))
    else match Groups(d[1..], k + 1)
      case Err(e) => Err(e)
      case Ok((v, n)) => Ok((d[0] - 128 + 128 * v, n + 1))
  }

  /** The decoder loop of the generated code: bits shifted out of 64 are lost. */
  function Decode(d: bytes): (r: Result<(uint64, nat)>)
    ensures r.Ok? ==> 1 <= r.value.1 <= |d|
  {
    match Groups(d, 0)
    case Err(e) => Err(e)
    case Ok((v, n)) => Ok((v % TWO64, n))
  }

  /** `protowire.ConsumeVarint`: a value that does not fit 64 bits is an error. */
  function Consume(d: bytes): (r: Option<(uint64, nat)>)
    ensures r.Some? ==> 1 <= r.value.1 <= |d|
  {
    match Groups(d, 0)
    case Err(_) => None
    case Ok((v, n)) => if v < TWO64 then Some((v, n)) else None
  }

  /** 128 to the power of `n`. */
  function Pow128(n: nat): (p: nat)
    ensures p >= 1
  {
    if n == 0 then 1 else 128 * Pow128(n - 1)
  }

  /** Number of bits needed for `x`. */
  function BitLen(x: nat): nat {
    if x == 0 then 0 else 1 + BitLen(x / 2)
  }

  /** `sovAny`: the size of a varint from the bit length of `x | 1`. */
  function Sov(x: nat): nat {
    (BitLen(x - x % 2 + 1) + 6) / 7
  }

  lemma BitLenShift7(x: nat)
    requires x >= 128
    ensures BitLen(x) == 7 + BitLen(x / 128)
  {
    assert BitLen(x) == 1 + BitLen(x / 2) == 2 + BitLen(x / 2 / 2) == 3 + BitLen(x / 2 / 2 / 2);
    var y := x / 8;
    assert x / 2 / 2 / 2 == y;
    assert BitLen(y) == 1 + BitLen(y / 2) == 2 + BitLen(y / 2 / 2) == 3 + BitLen(y / 2 / 2 / 2) ==
      4 + BitLen(y / 2 / 2 / 2 / 2);
    assert y / 2 / 2 / 2 / 2 == x / 128;
  }

  /** The size computed from the bit length is the number of bytes the encoder writes. */
  lemma {:induction false} SovIsLength(v: nat)
    ensures Sov(v) == |Encode(v)|
    decreases v
  {
    hide BitLen;
    var odd := v - v % 2 + 1;
    if v < 128 {
      SmallBitLen(odd);
    } else {
      BitLenShift7(odd);
      SovIsLength(v / 128);
      var w := v / 128;
      assert odd / 128 == w;
      if w % 2 == 0 {
        LowBitIrrelevant(w);
      } else {
        assert w - w % 2 + 1 == w;
      }
    }
  }

  lemma BitLenBelow16(x: nat)
    requires x < 16
    ensures BitLen(x) <= 4
  {
    assert BitLen(x) <= 1 + BitLen(x / 2) <= 2 + BitLen(x / 2 / 2) <= 3 + BitLen(x / 2 / 2 / 2) <=
           4 + BitLen(x / 2 / 2 / 2 / 2);
  }

  lemma SmallBitLen(x: nat)
    requires 1 <= x < 128
    ensures 1 <= BitLen(x) <= 7
  {
    assert BitLen(x) <= 1 + BitLen(x / 2) <= 2 + BitLen(x / 2 / 2) <= 3 + BitLen(x / 2 / 2 / 2);
    BitLenBelow16(x / 2 / 2 / 2);
  }

  lemma LowBitIrrelevant(w: nat)
    requires w % 2 == 0 && w > 0
    ensures BitLen(w + 1) == BitLen(w)
  {
    assert (w + 1) / 2 == w / 2;
  }

  lemma Pow128Step(n: nat)
    requires n >= 1
    ensures Pow128(n) == 128 * Pow128(n - 1) && Pow128(0) == 1
  {
  }

  lemma {:induction false} GroupsOfEncoded(v: nat, rest: bytes, k: nat)
    requires k < 10 && v < Pow128(10 - k)
    ensures Groups(Encode(v) + rest, k) == Ok((v, |Encode(v)|))
    decreases v
  {
    hide Pow128;
    var d := Encode(v) + rest;
    assert Pow128(10 - k) == 128 * Pow128(9 - k) && Pow128(0) == 1 by { Pow128Step(10 - k); }
    if v >= 128 {
      assert k < 9;
      GroupsOfEncoded(v / 128, rest, k + 1);
      assert d[1..] == Encode(v / 128) + rest;
    }
  }

  lemma Pow128Ten()
    ensures Pow128(10) > TWO64
  {
    assert Pow128(5) == 128 * (128 * (128 * (128 * (128 * Pow128(0)))));
    assert Pow128(10) == 128 * (128 * (128 * (128 * (128 * Pow128(5)))));
  }

  /** Both decoders invert the encoder on every 64-bit value, whatever follows it. */
  lemma VarintRoundTrip(v: uint64, rest: bytes)
    ensures Decode(Encode(v) + rest) == Ok((v, |Encode(v)|))
    ensures Consume(Encode(v) + rest) == Some((v, |Encode(v)|))
  {
    Pow128Ten();
    GroupsOfEncoded(v, rest, 0);
  }

  /** The loop of the generated decoders, with its index and shift. */
  method DecodeLoop(d: bytes, start: nat) returns (r: Result<(uint64, nat)>)
    requires start <= |d|
    ensures r == (match Decode(d[start..]) case Err(e) => Err(e) case Ok((v, n)) => Ok((v, start + n)))
  {
    var wire: nat := 0;            // groups read so far, before truncation to 64 bits
    var iNdEx: nat, shift: nat, scale: nat := start, 0, 1;
    ghost var whole := Groups(d[start..], 0);
    ghost var k: nat := 0;
    while true
      invariant k <= 10 && shift == 7 * k && iNdEx == start + k <= |d|
      invariant Joined(whole, Groups(d[iNdEx..], k), wire, scale, k)
      decreases 10 - k
    {
      if shift >= 64 { return Err(Overflow); }
      if iNdEx >= |d| { return Err(Truncated); }
      var b := d[iNdEx];
      assert d[iNdEx..][0] == b && d[iNdEx..][1..] == d[iNdEx + 1..];
      iNdEx := iNdEx + 1;
      if b < 128 {
        wire := wire + b * scale;
        return Ok((wire % TWO64, iNdEx));
      }
      AddGroup(whole, Groups(d[iNdEx..], k + 1), wire, scale, k, b - 128);
      wire := wire + (b - 128) * scale;
      k, shift, scale := k + 1, shift + 7, scale * 128;
    }
  }

  /** `left`, read after `k` bytes worth `wire`, completes to `whole`. */
  predicate Joined(whole: Result<(nat, nat)>, left: Result<(nat, nat)>, wire: nat, scale: nat, k: nat) {
    match left
    case Err(e) => whole == Err(e)
    case Ok((v, n)) => whole == Ok((wire + v * scale, k + n))
  }

  lemma AddGroup(whole: Result<(nat, nat)>, left: Result<(nat, nat)>, wire: nat, scale: nat, k: nat, g: nat)
    requires Joined(whole, match left case Err(e) => Err(e) case Ok((v, n)) => Ok((g + 128 * v, n + 1)), wire, scale, k)
    ensures Joined(whole, left, wire + g * scale, scale * 128, k + 1)
  {
    if left.Ok? {
      var v := left.value.0;
      assert (g + 128 * v) * scale == g * scale + v * (scale * 128);
    }
  }
}
