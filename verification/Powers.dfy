/** Repeated squaring: `Dec.Power` and `RelativePow`. */
module Powers {
  import opened Bytes
  import opened Gas
  import opened Decimal

  function Pow(a: int, n: nat): int {
    if n == 0 then 1 else a * Pow(a, n - 1)
  }

  lemma {:induction false} PowAdd(a: int, m: nat, n: nat)
    ensures Pow(a, m + n) == Pow(a, m) * Pow(a, n)
    decreases m
  {
    if m > 0 {
      PowAdd(a, m - 1, n);
      assert Pow(a, m + n) == a * Pow(a, (m - 1) + n);
      assert a * (Pow(a, m - 1) * Pow(a, n)) == (a * Pow(a, m - 1)) * Pow(a, n);
    }
  }

  lemma {:induction false} PowSquare(a: int, n: nat)
    ensures Pow(a * a, n) == Pow(a, 2 * n)
    decreases n
  {
    if n > 0 {
      PowSquare(a, n - 1);
      PowAdd(a, 2, 2 * (n - 1));
      assert Pow(a, 2) == a * Pow(a, 1) == a * (a * Pow(a, 0));
      assert 2 + 2 * (n - 1) == 2 * n;
    }
  }

  /** One halving step: an odd exponent moves one factor into the accumulator. */
  lemma HalvingStep(t: int, c: int, i: nat)
    requires i >= 1
    ensures var t' := if i % 2 != 0 then t * c else t;
            t' * Pow(c * c, i / 2) == t * Pow(c, i)
  {
    PowSquare(c, i / 2);
    if i % 2 != 0 {
      assert i == 1 + 2 * (i / 2);
      assert Pow(c, i) == c * Pow(c, 2 * (i / 2));
      assert (t * c) * Pow(c, 2 * (i / 2)) == t * (c * Pow(c, 2 * (i / 2)));
    }
  }

  lemma {:induction false} PowMagnitude(c: int, i: nat)
    requires c != 0
    ensures Pow(c, i) != 0
    ensures i >= 1 ==> Abs(Pow(c, i)) >= Abs(c)
    ensures i >= 2 ==> Abs(Pow(c, i)) >= Abs(c * c)
    decreases i
  {
    if i > 0 {
      PowMagnitude(c, i - 1);
      AbsMul(c, Pow(c, i - 1));
      MulLe(1, Abs(Pow(c, i - 1)), Abs(c));
      if i >= 2 {
        MulLe(Abs(c), Abs(Pow(c, i - 1)), Abs(c));
        AbsMul(c, c);
      }
      NonZeroMul(c, Pow(c, i - 1));
    }
  }

  lemma AbsMul(a: int, b: int)
    ensures Abs(a * b) == Abs(a) * Abs(b)
  {
    if a < 0 { assert a * b == -((-a) * b); }
    if b < 0 { assert a * b == -(a * (-b)); assert (-a) * b == -((-a) * (-b)); }
  }

  lemma NonZeroMul(a: int, b: int)
    requires a != 0 && b != 0
    ensures a * b != 0
  {
    AbsMul(a, b);
    MulLe(1, Abs(b), Abs(a));
  }

  // ---- Dec.Power ----

  /** On whole numbers multiplication is exact. */
  lemma MulWhole(a: int, b: int)
    ensures ChopRound((a * P) * (b * P)) == a * b * P
  {
    assert (a * P) * (b * P) == (a * b * P) * P;
    RoundIsNearestEven((a * b * P) * P);
    NearestEvenUnique((a * b * P) * P, ChopRound((a * b * P) * P), a * b * P);
  }

  /** The loop of `Power` from base `d`, accumulator `tmp` and exponent `i`; `None` where a product
      overflows. */
  function PowerFrom(d: int, tmp: int, i: nat): Option<int>
    requires i >= 1
    decreases i
  {
    if i == 1 then Mul(d, tmp)
    else
      var tmp' := if i % 2 != 0 then Mul(tmp, d) else Some(tmp);
      if tmp'.None? then None
      else match Mul(d, d)
        case None => None
        case Some(d') => PowerFrom(d', tmp'.value, i / 2)
  }

  function PowerOf(d: int, power: uint64): Option<int> {
    if power == 0 then Some(P) else PowerFrom(d, P, power)
  }

  /** `Power`, by halving the exponent. */
  method Power(d0: int, power: uint64) returns (r: Option<int>)
    ensures r == PowerOf(d0, power)
  {
    if power == 0 {
      return Some(P);
    }
    var tmp, d, i := P, d0, power;
    while i > 1
      invariant i >= 1 && PowerOf(d0, power) == PowerFrom(d, tmp, i)
      decreases i
    {
      if i % 2 != 0 {
        var m := Mul(tmp, d);
        if m.None? { return None; }
        tmp := m.value;
      }
      i := i / 2;
      var m := Mul(d, d);
      if m.None? { return None; }
      d := m.value;
    }
    r := Mul(d, tmp);
  }

  /** For whole numbers `Power` is exact exponentiation, and it overflows exactly when the result
      itself does. */
  lemma {:induction false} PowerWhole(a: int, power: uint64)
    ensures PowerOf(a * P, power) == Checked(Pow(a, power) * P)
  {
    if power > 0 {
      PowerFromWhole(a, 1, power);
    }
  }

  lemma {:induction false} PowerFromWhole(c: int, t: int, i: nat)
    requires i >= 1 && (t == 0 ==> c == 0)
    ensures PowerFrom(c * P, t * P, i) == Checked(t * Pow(c, i) * P)
    decreases i
  {
    MulWhole(c, t);
    MulWhole(t, c);
    MulWhole(c, c);
    if i == 1 {
      assert Pow(c, 1) == c * Pow(c, 0) == c;
      assert c * t == t * c;
    } else {
      HalvingStep(t, c, i);
      PartsBounded(t, c, i);
      var t' := if i % 2 != 0 then t * c else t;
      assert InRange(t * Pow(c, i) * P) ==> InRange(t * c * P) && InRange(c * c * P);
      PowerFromWhole(c * c, t', i / 2);
    }
  }

  /** No intermediate product exceeds the final one. */
  lemma PartsBounded(t: int, c: int, i: nat)
    requires i > 1 && (t == 0 ==> c == 0)
    ensures Abs(t * c * P) <= Abs(t * Pow(c, i) * P)
    ensures Abs(c * c * P) <= Abs(t * Pow(c, i) * P)
    ensures t * c == 0 ==> c * c == 0
  {
    if c != 0 {
      PowMagnitude(c, i);
      var w := Pow(c, i);
      AbsMul(t, c);
      AbsMul(t, w);
      MulLe(Abs(c), Abs(w), Abs(t));
      MulLe(1, Abs(t), Abs(w));
      AbsMul(t * c, P);
      AbsMul(t * w, P);
      AbsMul(c * c, P);
      MulLe(Abs(t * c), Abs(t * w), P);
      MulLe(Abs(c * c), Abs(t * w), P);
      NonZeroMul(t, c);
    } else {
      assert Pow(c, i) == c * Pow(c, i - 1) == 0;
    }
  }

  // ---- RelativePow ----

  const UINT_BOUND: int := 0x1_0000_0000_0000_0000_0000_0000_0000_0000_0000_0000_0000_0000_0000_0000_0000_0000

  type Uint = x: int | 0 <= x < 0x1_0000_0000_0000_0000_0000_0000_0000_0000_0000_0000_0000_0000_0000_0000_0000_0000

  /** `x.Mul(y).Add(half).Quo(b)`, `None` where the product or the sum overflows or `b` is 0. */
  function ScaledMul(x: Uint, y: Uint, b: Uint): Option<Uint> {
    if x * y >= UINT_BOUND || x * y + b / 2 >= UINT_BOUND || b == 0 then None
    else
      SmallerQuotient(x * y + b / 2, b);
      Some((x * y + b / 2) / b)
  }

  lemma SmallerQuotient(n: nat, b: nat)
    requires b > 0
    ensures 0 <= n / b <= n
  {
    assert n == (n / b) * b + n % b;
    MulLe(1, b, n / b);
  }

  /** Where the scale divides the product, rounding is exact. */
  lemma ScaledMulExact(x: Uint, y: Uint, q: nat, b: Uint)
    requires b > 0 && x * y == q * b
    ensures ScaledMul(x, y, b) == if q * b + b / 2 < UINT_BOUND then Some(q) else None
  {
    assert (q + 1) * b == q * b + b;
    DivUnique(q * b + b / 2, b, q);
  }

  /** The loop of `RelativePow`. */
  function RelativeFrom(x: Uint, z: Uint, n: nat, b: Uint): Option<Uint>
    decreases n
  {
    if n == 0 then Some(z)
    else match ScaledMul(x, x, b)
      case None => None
      case Some(x') =>
        var z' := if n % 2 == 1 then ScaledMul(z, x', b) else Some(z);
        if z'.None? then None else RelativeFrom(x', z'.value, n / 2, b)
  }

  function RelativePowOf(x: Uint, n: Uint, b: Uint): Option<Uint> {
    if x == 0 then Some(if n == 0 then b else 0)
    else RelativeFrom(x, if n % 2 == 0 then b else x, n / 2, b)
  }

  /** `x.Mul(y).Add(halfOfB).Quo(b)` with the panics of its steps. */
  method RoundedProduct(x: Uint, y: Uint, b: Uint) returns (r: Option<Uint>)
    ensures r == ScaledMul(x, y, b)
  {
    var product := x * y;
    if product >= UINT_BOUND { return None; }
    var rounded := product + b / 2;
    if rounded >= UINT_BOUND { return None; }
    if b == 0 { return None; }
    SmallerQuotient(rounded, b);
    r := Some(rounded / b);
  }

  method RelativePow(x0: Uint, n0: Uint, b: Uint) returns (r: Option<Uint>)
    ensures r == RelativePowOf(x0, n0, b)
  {
    hide ScaledMul;
    if x0 == 0 {
      if n0 == 0 { return Some(b); }
      return Some(0);
    }
    var x: Uint, z: Uint := x0, x0;
    if n0 % 2 == 0 { z := b; }
    var n := n0 / 2;
    while n > 0
      invariant n >= 0 && RelativePowOf(x0, n0, b) == RelativeFrom(x, z, n, b)
      decreases n
    {
      var xSquared := RoundedProduct(x, x, b);
      if xSquared.None? { return None; }
      x := xSquared.value;
      if n % 2 == 1 {
        var zx := RoundedProduct(z, x, b);
        if zx.None? { return None; }
        z := zx.value;
      }
      n := n / 2;
    }
    r := Some(z);
  }

  /** Whether the rounded product of total * b by b fits 256 bits. */
  predicate Fits(total: int, b: int) {
    total * b * b + b / 2 < UINT_BOUND
  }

  /** `RelativePow(k * b, n, b)` is exactly k^n * b, with 0^0 = b; it panics exactly when n is at
      least 2, k is not 0 and the last rounded product does not fit 256 bits. */
  lemma {:induction false} RelativePowWhole(k: nat, n: Uint, b: Uint)
    requires b > 0 && k * b < UINT_BOUND
    ensures RelativePowOf(k * b, n, b) ==
            if k > 0 && n >= 2 && !Fits(Pow(k, n), b) then None else Some(Pow(k, n) * b)
  {
    if k == 0 {
      assert n > 0 ==> Pow(0, n) == 0 * Pow(0, n - 1);
    } else {
      MulLe(1, k, b);
      var t := if n % 2 == 0 then 1 else k;
      if n >= 2 {
        RelativeFromWhole(k, t, n / 2, b);
      }
      if n >= 1 {
        HalvingStep(1, k, n);
        assert n == 1 ==> Pow(k, 1) == k * Pow(k, 0);
      }
    }
  }

  lemma Regroup(j: int, k: int, b: int)
    ensures (j * b) * (k * b) == (j * k * b) * b
  {
  }

  lemma FitsMeaning(m: int, b: int)
    ensures Fits(m, b) <==> (m * b) * b + b / 2 < UINT_BOUND
  {
  }

  lemma PowOne(c: int)
    ensures Pow(c, 1) == c
  {
    assert Pow(c, 1) == c * Pow(c, 0);
  }

  lemma {:induction false} RelativeFromWhole(c: nat, t: nat, n: nat, b: Uint)
    requires b > 0 && c >= 1 && t >= 1 && n >= 1 && c * b < UINT_BOUND && t * b < UINT_BOUND
    ensures RelativeFrom(c * b, t * b, n, b) ==
            if Fits(t * Pow(c * c, n), b) then Some(t * Pow(c * c, n) * b) else None
    decreases n
  {
    hide Fits, ScaledMul, Pow;
    var s := c * c;
    assert s >= 1;
    Regroup(c, c, b);
    ScaledMulExact(c * b, c * b, s * b, b);
    FitsMeaning(s, b);
    FactorsBounded(t, s, n, b);
    if Fits(s, b) {
      FitsRange(s, b);
      Regroup(t, s, b);
      ScaledMulExact(t * b, s * b, t * s * b, b);
      FitsMeaning(t * s, b);
      HalvingStep(t, s, n);
      if n == 1 {
        PowOne(s);
      } else if n % 2 == 0 {
        RelativeFromWhole(s, t, n / 2, b);
      } else if Fits(t * s, b) {
        FitsRange(t * s, b);
        assert t * s >= 1;
        RelativeFromWhole(s, t * s, n / 2, b);
      }
    }
  }

  lemma FitsRange(m: nat, b: nat)
    requires b > 0
    ensures Fits(m, b) ==> m * b < UINT_BOUND
  {
    MulLe(1, b, m * b);
  }

  /** The partial products fit whenever the last one does. */
  lemma FactorsBounded(t: nat, s: nat, n: nat, b: nat)
    requires t >= 1 && s >= 1 && n >= 1
    ensures Fits(t * Pow(s, n), b) ==> Fits(s, b) && Fits(t * s, b)
  {
    PowMagnitude(s, n);
    PositivePow(s, n);
    var w := Pow(s, n);
    MulLe(s, w, t);
    MulLe(1, t, s);
    MulLe(t * s, t * w, b);
    MulLe(s, t * w, b);
    MulLe(t * s * b, t * w * b, b);
    MulLe(s * b, t * w * b, b);
  }

  lemma {:induction false} PositivePow(s: nat, n: nat)
    requires s >= 1
    ensures Pow(s, n) >= 1
    decreases n
  {
    if n > 0 {
      PositivePow(s, n - 1);
      MulLe(1, s, Pow(s, n - 1));
    }
  }
}
