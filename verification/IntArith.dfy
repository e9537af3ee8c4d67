/** The bit-length guards of checked integers and decimals (`types/int.go`, `types/decimal.go`). */
module IntArith {
  import opened Bytes
  import opened Varint
  import opened Decimal
  import opened Coins
  import Powers

  const MAX_BIT_LEN: nat := 256
  const MAX_DEC_BIT_LEN: nat := 316

  function Pow2(n: nat): (p: nat)
    ensures p >= 1
  {
    if n == 0 then 1 else 2 * Pow2(n - 1)
  }

  lemma {:induction false} Pow2Add(m: nat, n: nat)
    ensures Pow2(m + n) == Pow2(m) * Pow2(n)
    decreases m
  {
    if m > 0 {
      Pow2Add(m - 1, n);
      assert 2 * (Pow2(m - 1) * Pow2(n)) == (2 * Pow2(m - 1)) * Pow2(n);
    }
  }

  lemma Pow2Small()
    ensures Pow2(4) == 16 && Pow2(60) == 0x1000_0000_0000_0000
  {
    hide Pow2;
    assert Pow2(4) == 16 by { Pow2Four(); }
    Pow2Add(4, 4);
    Pow2Add(8, 4);
    Pow2Add(12, 12);
    Pow2Add(24, 24);
    Pow2Add(48, 12);
  }

  lemma Pow2Four()
    ensures Pow2(4) == 16
  {
    assert Pow2(4) == 2 * (2 * (2 * (2 * Pow2(0))));
  }

  /** The bounds used elsewhere are these powers of two. */
  lemma {:induction false} BoundsArePowers()
    ensures Pow2(256) == INT_BOUND && Pow2(316) == DEC_BOUND
  {
    hide Pow2;
    Pow2Small();
    Pow2Add(60, 4);
    Pow2Add(64, 64);
    Pow2Add(128, 128);
    Pow2Add(256, 60);
  }

  lemma {:induction false} BitLenBounds(x: nat)
    requires x > 0
    ensures BitLen(x) >= 1 && Pow2(BitLen(x) - 1) <= x < Pow2(BitLen(x))
  {
    if x > 1 {
      BitLenBounds(x / 2);
      assert BitLen(x) == 1 + BitLen(x / 2);
    } else {
      assert BitLen(1) == 1 + BitLen(0);
      assert Pow2(1) == 2 * Pow2(0);
    }
  }

  lemma {:induction false} Pow2Monotone(m: nat, n: nat)
    requires m <= n
    ensures Pow2(m) <= Pow2(n)
    decreases n
  {
    if m < n {
      Pow2Monotone(m, n - 1);
    }
  }

  /** A bit-length test is a test of magnitude. */
  lemma {:induction false} BitLenFits(x: nat, n: nat)
    ensures BitLen(x) <= n <==> x < Pow2(n)
  {
    hide Pow2, BitLen;
    if x == 0 {
      assert BitLen(0) == 0 by { NoBits(); }
    } else {
      BitLenBounds(x);
      if BitLen(x) <= n {
        Pow2Monotone(BitLen(x), n);
      } else {
        Pow2Monotone(n, BitLen(x) - 1);
      }
    }
  }

  lemma NoBits()
    ensures BitLen(0) == 0
  {
  }

  /** The test at the end of every checked operation. */
  function Guarded(x: int, bits: nat): Option<int> {
    if BitLen(Abs(x)) > bits then None else Some(x)
  }

  /** The tests of `Int` and `Dec` are the bounds 2^256 and 2^316. */
  lemma {:induction false} GuardsAreBounds(x: int)
    ensures Guarded(x, MAX_BIT_LEN) == if -INT_BOUND < x < INT_BOUND then Some(x) else None
    ensures Guarded(x, MAX_DEC_BIT_LEN) == Checked(x)
  {
    hide BitLen, Pow2;
    BoundsArePowers();
    BitLenFits(Abs(x), 256);
    BitLenFits(Abs(x), 316);
  }

  /** `Int.Mul`, with its early test on the bit lengths of the operands. */
  function Mul(a: int, b: int): Option<int> {
    if BitLen(Abs(a)) + BitLen(Abs(b)) - 1 > MAX_BIT_LEN then None else Guarded(a * b, MAX_BIT_LEN)
  }

  /** Operands that fail the early test have a product out of range. */
  lemma {:induction false} EarlyTestIsRight(a: nat, b: nat)
    requires BitLen(a) <= MAX_BIT_LEN && BitLen(b) <= MAX_BIT_LEN
    requires BitLen(a) + BitLen(b) - 1 > MAX_BIT_LEN
    ensures a * b >= Pow2(MAX_BIT_LEN)
  {
    hide BitLen, Pow2;
    NoBits();
    BitLenBounds(a);
    BitLenBounds(b);
    var m, n := BitLen(a) - 1, BitLen(b) - 1;
    Pow2Add(m, n);
    Pow2Monotone(MAX_BIT_LEN, m + n);
    MulLe(Pow2(n), b, Pow2(m));
    MulLe(Pow2(m), a, b);
  }

  /** On `Int`s multiplication panics exactly when the product is out of range. */
  lemma {:induction false} MulExact(a: int, b: int)
    requires -INT_BOUND < a < INT_BOUND && -INT_BOUND < b < INT_BOUND
    ensures Mul(a, b) == if -INT_BOUND < a * b < INT_BOUND then Some(a * b) else None
  {
    hide BitLen, Pow2;
    GuardsAreBounds(a);
    GuardsAreBounds(b);
    GuardsAreBounds(a * b);
    BoundsArePowers();
    if BitLen(Abs(a)) + BitLen(Abs(b)) - 1 > MAX_BIT_LEN {
      EarlyTestIsRight(Abs(a), Abs(b));
      Powers.AbsMul(a, b);
    }
  }
}
