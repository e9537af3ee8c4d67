/** 18-digit fixed-point decimals (`types/decimal.go`): a decimal is the integer number of its
    smallest units, 10^18 of which make one. */
module Decimal {
  import opened Bytes

  const P: int := 1_000_000_000_000_000_000
  const HALF: int := 500_000_000_000_000_000

  /** 2^316: results of more than 256 + 60 bits panic. */
  const DEC_BOUND: int := 0x10000000000000000000000000000000000000000000000000000000000000000000000000000000

  function Abs(x: int): (r: nat)
    ensures r == x || r == -x
  {
    if x < 0 then -x else x
  }

  predicate InRange(x: int) {
    Abs(x) < DEC_BOUND
  }

  function Checked(x: int): Option<int> {
    if InRange(x) then Some(x) else None
  }

  /** `big.Int.Quo`: division truncated toward zero. */
  function Quo(a: int, b: int): (q: int)
    requires b != 0
  {
    if (a < 0) == (b < 0) then Abs(a) / Abs(b) else -(Abs(a) / Abs(b))
  }

  // ---- Chopping ----

  function ChopTruncate(d: int): int {
    Quo(d, P)
  }

  /** Banker's rounding of a non-negative number. */
  function ChopRoundNat(d: nat): nat {
    var quo, rem := d / P, d % P;
    if rem < HALF then quo
    else if rem > HALF then quo + 1
    else if quo % 2 == 0 then quo else quo + 1
  }

  function ChopRound(d: int): int {
    if d < 0 then 0 - ChopRoundNat(-d) else ChopRoundNat(d)
  }

  function ChopRoundUp(d: int): int {
    if d < 0 then -(-d / P) else if d % P == 0 then d / P else d / P + 1
  }

  /** `r` is a nearest multiple of P to `d`, and the even one when two are equally near. */
  predicate NearestEven(d: int, r: int) {
    && -P <= 2 * (d - r * P) <= P
    && (2 * (d - r * P) == P || 2 * (d - r * P) == -P ==> r % 2 == 0)
  }

  lemma NearestEvenUnique(d: int, r: int, s: int)
    requires NearestEven(d, r) && NearestEven(d, s)
    ensures r == s
  {
    assert -P <= (s - r) * P <= P;
  }

  /** Rounding is to the nearest, ties to even, over all integers; it is odd and monotone. */
  lemma RoundIsNearestEven(d: int)
    ensures NearestEven(d, ChopRound(d))
    ensures ChopRound(-d) == -ChopRound(d)
  {
  }

  lemma RoundMonotone(a: int, b: int)
    requires a <= b
    ensures ChopRound(a) <= ChopRound(b)
  {
    RoundIsNearestEven(a);
    RoundIsNearestEven(b);
    assert ChopRound(b) < ChopRound(a) ==> ChopRound(a) == ChopRound(b) + 1;
  }

  /** A big integer, updated in place by the chop functions. */
  class BigInt {
    var v: int

    constructor (v: int)
      ensures this.v == v
    {
      this.v := v;
    }
  }

  /** `chopPrecisionAndRound`: the argument itself becomes the rounded value. */
  method ChopPrecisionAndRound(d: BigInt)
    modifies d
    ensures d.v == ChopRound(old(d.v))
    decreases if d.v < 0 then 1 else 0
  {
    if d.v < 0 {
      d.v := -d.v;
      ChopPrecisionAndRound(d);
      d.v := -d.v;
      return;
    }
    var rem := d.v % P;
    d.v := d.v / P;
    if rem == 0 {
      return;
    }
    if rem < HALF {
      return;
    } else if rem > HALF {
      d.v := d.v + 1;
    } else if d.v % 2 != 0 {
      d.v := d.v + 1;
    }
  }

  /** `chopPrecisionAndRoundUp`. */
  method ChopPrecisionAndRoundUp(d: BigInt)
    modifies d
    ensures d.v == ChopRoundUp(old(d.v))
  {
    if d.v < 0 {
      d.v := -d.v;
      d.v := Quo(d.v, P);
      d.v := -d.v;
      return;
    }
    var rem := d.v % P;
    d.v := d.v / P;
    if rem != 0 {
      d.v := d.v + 1;
    }
  }

  // ---- Arithmetic; None is the overflow panic ----

  function Mul(d: int, d2: int): Option<int> {
    Checked(ChopRound(d * d2))
  }

  /** The quotient with twice the precision, before chopping. */
  function WideQuo(d: int, d2: int): int
    requires d2 != 0
  {
    Quo(d * P * P, d2)
  }

  function RawQuo(d: int, d2: int): int
    requires d2 != 0
  {
    ChopRound(WideQuo(d, d2))
  }

  function RawQuoTruncate(d: int, d2: int): int
    requires d2 != 0
  {
    ChopTruncate(WideQuo(d, d2))
  }

  function RawQuoRoundUp(d: int, d2: int): int
    requires d2 != 0
  {
    ChopRoundUp(WideQuo(d, d2))
  }

  // ---- Division lemmas on naturals ----

  lemma MulLe(x: int, y: int, b: nat)
    requires x <= y
    ensures x * b <= y * b
  {
  }

  lemma DivUnique(a: nat, b: nat, q: nat)
    requires b > 0 && q * b <= a < (q + 1) * b
    ensures a / b == q
  {
    var d := a / b;
    assert a == d * b + a % b;
    if d < q {
      MulLe(d + 1, q, b);
    } else if q < d {
      MulLe(q + 1, d, b);
    }
  }

  /** Scaling up by p, dividing, and scaling down loses nothing: what is gained in between is the
      scaled remainder, which stays below p. */
  lemma DivDiv(a: nat, b: nat, p: nat)
    requires b > 0 && p > 0
    ensures a * p / b == (a / b) * p + (a % b) * p / b
    ensures (a % b) * p / b < p
    ensures (a * p / b) / p == a / b && (a * p / b) % p == (a % b) * p / b
  {
    var q, r := a / b, a % b;
    var t := r * p / b;
    ScaledRemainder(r, b, p);
    assert r * p == t * b + r * p % b;
    ScaledParts(a, b, p, q, r, t, r * p % b);
    DivUnique(a * p, b, q * p + t);
    Unscale(q, t, p);
  }

  lemma ScaledRemainder(r: nat, b: nat, p: nat)
    requires r < b && p > 0
    ensures 0 <= r * p / b < p
  {
    var t := r * p / b;
    assert r * p == t * b + r * p % b;
    if t >= p {
      MulLe(p, t, b);
      MulLe(r + 1, b, p);
    }
  }

  lemma Unscale(q: nat, t: nat, p: nat)
    requires t < p
    ensures (q * p + t) / p == q && (q * p + t) % p == t
  {
    DivUnique(q * p + t, p, q);
  }

  lemma ScaledParts(a: nat, b: nat, p: nat, q: nat, r: nat, t: nat, u: nat)
    requires a == q * b + r && r * p == t * b + u && 0 <= u < b
    ensures (q * p + t) * b <= a * p < (q * p + t + 1) * b
  {
    calc {
      a * p;
      (q * b + r) * p;
      (q * b) * p + r * p;
      (q * p) * b + (t * b + u);
      (q * p + t) * b + u;
    }
  }

  lemma Signs(d: int, d2: int)
    requires d2 != 0
    ensures Abs(d * P) == Abs(d) * P && Abs(d * P * P) == Abs(d) * P * P
    ensures Abs(WideQuo(d, d2)) == Abs(d) * P * P / Abs(d2)
    ensures d >= 0 && d2 > 0 ==> WideQuo(d, d2) == d * P * P / d2
  {
  }

  /** `QuoTruncate` is one truncated division of d * 10^18 by d2, for all signs. */
  lemma RawQuoTruncateExact(d: int, d2: int)
    requires d2 != 0
    ensures RawQuoTruncate(d, d2) == Quo(d * P, d2)
  {
    Signs(d, d2);
    DivDiv(Abs(d) * P, Abs(d2), P);
  }

  /** On non-negative operands the three quotients are ordered and within one smallest unit. */
  lemma RawQuotientsOrdered(d: int, d2: int)
    requires d >= 0 && d2 > 0
    ensures RawQuoTruncate(d, d2) <= RawQuo(d, d2) <= RawQuoRoundUp(d, d2) <= RawQuoTruncate(d, d2) + 1
  {
    hide WideQuo;
    Signs(d, d2);
    ChopsOrdered(WideQuo(d, d2));
  }

  lemma ChopsOrdered(w: int)
    requires w >= 0
    ensures ChopTruncate(w) <= ChopRound(w) <= ChopRoundUp(w) <= ChopTruncate(w) + 1
  {
  }

  /** The rounded quotient is within 1/2 + 10^-18 smallest units of the true quotient d * P / d2. */
  lemma NatQuoError(d: int, d2: int)
    requires d >= 0 && d2 > 0
    ensures Abs(2 * P * (RawQuo(d, d2) * d2 - d * P)) <= (P + 2) * d2
  {
    hide WideQuo;
    var n, w, q := d * P * P, WideQuo(d, d2), RawQuo(d, d2);
    Signs(d, d2);
    assert n == w * d2 + n % d2;
    RoundIsNearestEven(w);
    ErrorAlgebra(d, d2, q, w, w - q * P, n % d2, P);
  }

  lemma ErrorAlgebra(d: int, d2: int, q: int, w: int, e: int, r: int, p: int)
    requires p > 0 && d2 > 0 && 0 <= r < d2 && d * p * p == w * d2 + r && e == w - q * p && -p <= 2 * e <= p
    ensures Abs(2 * p * (q * d2 - d * p)) <= (p + 2) * d2
  {
    var x := q * d2 - d * p;
    assert p * x == -(e * d2) - r by {
      assert p * x == (q * p) * d2 - d * p * p;
      assert (q * p) * d2 == (w - e) * d2 == w * d2 - e * d2;
    }
    MulLe(2 * e, p, d2);
    MulLe(-p, 2 * e, d2);
    assert 2 * p * x == 2 * (p * x);
    assert (2 * e) * d2 == 2 * (e * d2);
    assert (p + 2) * d2 == p * d2 + 2 * d2;
    assert (-p) * d2 == -(p * d2);
  }

  /** The true quotient of naturals rounded up. */
  function CeilingNat(n: nat, d: nat): nat
    requires d > 0
  {
    if n % d == 0 then n / d else n / d + 1
  }

  /** `QuoRoundUp` is the exact ceiling unless a non-zero remainder of d * 10^18 by d2 is so small
      that it vanishes in the doubled precision. */
  lemma NatRoundUpExactIff(d: int, d2: int)
    requires d >= 0 && d2 > 0
    ensures RawQuoRoundUp(d, d2) == CeilingNat(d * P, d2) <==> (d * P) % d2 == 0 || ((d * P) % d2) * P >= d2
  {
    hide WideQuo;
    var a := d * P;
    Signs(d, d2);
    DivDiv(a, d2, P);
    SmallQuotient((a % d2) * P, d2);
  }

  lemma SmallQuotient(n: nat, d: nat)
    requires d > 0
    ensures n / d == 0 <==> n < d
  {
    if n < d { DivUnique(n, d, 0); }
  }

  // ---- All signs ----

  /** The true quotient rounded up. */
  function Ceiling(n: int, d: int): int
    requires d != 0
  {
    if (n < 0) == (d < 0) then CeilingNat(Abs(n), Abs(d)) else -(Abs(n) / Abs(d))
  }

  /** The ceiling is the one integer that is not below the quotient and less than 1 above it. */
  lemma {:induction false} CeilingMeaning(n: int, d: int, c: int)
    requires d != 0
    ensures c == Ceiling(n, d) <==> if d > 0 then (c - 1) * d < n <= c * d else c * d <= n < (c - 1) * d
  {
    if d > 0 {
      CeilingPositive(n, d, c);
    } else {
      SameCeiling(n, d);
      CeilingPositive(-n, -d, c);
      assert c * -d == -(c * d) && (c - 1) * -d == -((c - 1) * d);
    }
  }

  lemma SameCeiling(n: int, d: int)
    requires d < 0
    ensures Ceiling(n, d) == Ceiling(-n, -d)
  {
    if n == 0 { DivUnique(0, -d, 0); }
  }

  lemma CeilingPositive(n: int, d: int, c: int)
    requires d > 0
    ensures c == Ceiling(n, d) <==> (c - 1) * d < n <= c * d
  {
    hide Ceiling;
    var e := Ceiling(n, d);
    CeilingBounds(n, d);
    if c < e {
      MulLe(c, e - 1, d);
    } else if e < c {
      MulLe(e, c - 1, d);
    }
  }

  lemma CeilingBounds(n: int, d: int)
    requires d > 0
    ensures (Ceiling(n, d) - 1) * d < n <= Ceiling(n, d) * d
  {
    var q := Abs(n) / d;
    assert Abs(n) == q * d + Abs(n) % d;
    if n < 0 {
      assert (-q - 1) * d == -(q * d) - d && (-q) * d == -(q * d);
    } else {
      assert (q + 1) * d == q * d + d && (q - 1) * d == q * d - d;
    }
  }

  /** The sign of a quotient is that of the operands, and its size that of their sizes. */
  lemma {:induction false} QuotientSigns(d: int, d2: int)
    requires d2 != 0
    ensures var w := WideQuo(Abs(d), Abs(d2));
            && w >= 0
            && WideQuo(d, d2) == (if (d < 0) == (d2 < 0) then w else -w)
            && RawQuo(d, d2) == (if (d < 0) == (d2 < 0) then RawQuo(Abs(d), Abs(d2)) else -RawQuo(Abs(d), Abs(d2)))
  {
    hide ChopRound;
    Signs(d, d2);
    Signs(Abs(d), Abs(d2));
    RoundIsNearestEven(WideQuo(Abs(d), Abs(d2)));
  }

  lemma {:induction false} RawQuoError(d: int, d2: int)
    requires d2 != 0
    ensures Abs(2 * P * (RawQuo(d, d2) * d2 - d * P)) <= (P + 2) * Abs(d2)
  {
    hide RawQuo, WideQuo;
    QuotientSigns(d, d2);
    NatQuoError(Abs(d), Abs(d2));
    ErrorSigns(d, d2, RawQuo(Abs(d), Abs(d2)), P);
  }

  lemma ErrorSigns(d: int, d2: int, q: int, p: int)
    ensures var s := if (d < 0) == (d2 < 0) then q else -q;
            Abs(2 * p * (s * d2 - d * p)) == Abs(2 * p * (q * Abs(d2) - Abs(d) * p))
  {
    var s, x := if (d < 0) == (d2 < 0) then q else -q, q * Abs(d2) - Abs(d) * p;
    assert s * d2 - d * p == if d < 0 then -x else x;
    assert 2 * p * -x == -(2 * p * x);
  }

  /** `QuoRoundUp` is the exact ceiling for operands of opposite signs, and otherwise unless a
      non-zero remainder of d * 10^18 by d2 is so small that it vanishes in the doubled precision. */
  lemma {:induction false} RawQuoRoundUpExactIff(d: int, d2: int)
    requires d2 != 0
    ensures RawQuoRoundUp(d, d2) == Ceiling(d * P, d2) <==> Survives(d, d2)
  {
    hide WideQuo, CeilingNat, ChopTruncate;
    QuotientSigns(d, d2);
    Signs(d, d2);
    var w := WideQuo(Abs(d), Abs(d2));
    if (d < 0) == (d2 < 0) {
      NatRoundUpExactIff(Abs(d), Abs(d2));
    } else {
      RawQuoTruncateExact(Abs(d), Abs(d2));
      ChopsOfNat(w);
    }
  }

  lemma ChopsOfNat(w: int)
    requires w >= 0
    ensures ChopRoundUp(-w) == -ChopTruncate(w)
  {
  }

  /** The remainder of the scaled dividend leaves a trace, or does not matter. */
  predicate Survives(d: int, d2: int)
    requires d2 != 0
  {
    var rem := Abs(d) * P % Abs(d2);
    (d < 0) != (d2 < 0) || rem == 0 || rem * P >= Abs(d2)
  }

  /** The smallest decimal divided by 10^18 + 10^-18 rounds up to 0, not to 1 unit. */
  lemma RawQuoRoundUpCounterexample()
    ensures RawQuoRoundUp(1, P * P + 1) == 0 && Ceiling(1 * P, P * P + 1) == 1
  {
    DivUnique(1 * P * P, P * P + 1, 0);
    DivUnique(1 * P, P * P + 1, 0);
  }

  // ---- The checked quotients ----

  /** `Quo`: a zero divisor and a result of more than 316 bits panic. */
  function DecQuo(d: int, d2: int): Option<int> {
    if d2 == 0 then None else Checked(RawQuo(d, d2))
  }

  function DecQuoTruncate(d: int, d2: int): Option<int> {
    if d2 == 0 then None else Checked(RawQuoTruncate(d, d2))
  }

  function DecQuoRoundUp(d: int, d2: int): Option<int> {
    if d2 == 0 then None else Checked(RawQuoRoundUp(d, d2))
  }

  /** `QuoTruncate` is one truncated division of d * 10^18 by d2, for all signs, and panics exactly
      on a zero divisor or if that quotient is out of range. */
  lemma {:induction false} QuoTruncateExact(d: int, d2: int)
    ensures DecQuoTruncate(d, d2) == if d2 == 0 then None else Checked(Quo(d * P, d2))
  {
    hide RawQuoTruncate, Quo;
    if d2 != 0 {
      RawQuoTruncateExact(d, d2);
    }
  }

  /** On non-negative operands the three quotients are ordered and within one smallest unit, and
      where a greater one does not panic a smaller one does not either. */
  lemma {:induction false} QuotientsOrdered(d: int, d2: int)
    requires d >= 0 && d2 > 0
    ensures (DecQuoRoundUp(d, d2).Some? ==> DecQuo(d, d2).Some?)
      && (DecQuo(d, d2).Some? ==> DecQuoTruncate(d, d2).Some?)
    ensures DecQuo(d, d2).Some? ==> DecQuoTruncate(d, d2).value <= DecQuo(d, d2).value
    ensures DecQuoRoundUp(d, d2).Some? ==>
              DecQuo(d, d2).value <= DecQuoRoundUp(d, d2).value <= DecQuoTruncate(d, d2).value + 1
  {
    hide RawQuo, RawQuoTruncate, RawQuoRoundUp, Quo;
    RawQuotientsOrdered(d, d2);
    RawQuoTruncateExact(d, d2);
    QuoOfNats(d * P, d2);
  }

  lemma QuoOfNats(a: nat, b: nat)
    requires b > 0
    ensures Quo(a, b) >= 0
  {
    var q := a / b;
    assert a == q * b + a % b;
    if q < 0 {
      MulLe(q, -1, b);
    }
    assert Abs(a) == a && Abs(b) == b;
  }

  /** A quotient that does not panic is within 1/2 + 10^-18 smallest units of the true d * P / d2. */
  lemma {:induction false} QuoError(d: int, d2: int)
    ensures DecQuo(d, d2).Some? ==> Abs(2 * P * (DecQuo(d, d2).value * d2 - d * P)) <= (P + 2) * Abs(d2)
  {
    hide RawQuo;
    if d2 != 0 {
      RawQuoError(d, d2);
    }
  }

  /** A rounded-up quotient that does not panic is the exact ceiling for operands of opposite signs,
      and otherwise unless a non-zero remainder vanishes in the doubled precision. */
  lemma {:induction false} QuoRoundUpExactIff(d: int, d2: int)
    ensures DecQuoRoundUp(d, d2).Some? ==>
              (DecQuoRoundUp(d, d2).value == Ceiling(d * P, d2) <==> Survives(d, d2))
  {
    hide RawQuoRoundUp, Ceiling, Survives;
    if d2 != 0 {
      RawQuoRoundUpExactIff(d, d2);
    }
  }

  /** In particular it is the ceiling, or panics as that is out of range, for divisors up to 1. */
  lemma {:induction false} QuoRoundUpExactForSmallDivisors(d: int, d2: int)
    requires 0 < Abs(d2) <= P
    ensures DecQuoRoundUp(d, d2) == Checked(Ceiling(d * P, d2))
  {
    hide RawQuoRoundUp, Ceiling;
    RawQuoRoundUpExactIff(d, d2);
    var rem := Abs(d) * P % Abs(d2);
    if rem > 0 { assert rem * P >= P; }
  }

  /** The smallest decimal divided by 10^18 + 10^-18 rounds up to 0, not to 1 unit. */
  lemma {:induction false} QuoRoundUpCounterexample()
    ensures DecQuoRoundUp(1, P * P + 1) == Some(0) && Ceiling(1 * P, P * P + 1) == 1
  {
    hide RawQuoRoundUp, Ceiling;
    RawQuoRoundUpCounterexample();
  }
}
