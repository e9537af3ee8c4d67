/** What the operations on valid coin sets mean, and the laws their documentation promises. */
module CoinLaws {
  import opened Bytes
  import opened Coins
  import opened CoinOps

  // ---- Helpers ----

  lemma {:induction false} OccursIfNonZero(s: Coins, d: bytes)
    requires Amount(s, d) != 0
    ensures exists i :: 0 <= i < |s| && s[i].denom == d
  {
    if forall i :: 0 <= i < |s| ==> s[i].denom != d {
      AmountAbsent(s, d);
    }
  }

  /** In a valid set amounts are never negative, and only valid denominations have one. */
  lemma ValidAmounts(s: Coins)
    requires Valid(s)
    ensures forall d :: Amount(s, d) >= 0
    ensures forall d :: Amount(s, d) != 0 ==> ValidDenom(d)
    ensures NoZero(s) && IsSorted(s)
  {
    forall d ensures Amount(s, d) >= 0 && (Amount(s, d) != 0 ==> ValidDenom(d)) {
      if Amount(s, d) != 0 {
        OccursIfNonZero(s, d);
        var i :| 0 <= i < |s| && s[i].denom == d;
        AmountAt(s, i);
      }
    }
    forall i | 1 <= i < |s| ensures !Less(s[i].denom, s[i - 1].denom) {
      Trichotomy(s[i].denom, s[i - 1].denom);
    }
  }

  lemma ValidFromAmounts(s: Coins)
    requires Canonical(s) && NoZero(s)
    requires forall d :: Amount(s, d) >= 0 && (Amount(s, d) != 0 ==> ValidDenom(d))
    ensures Valid(s)
  {
    forall i | 0 <= i < |s| ensures ValidDenom(s[i].denom) && s[i].amount > 0 {
      AmountAt(s, i);
    }
  }

  lemma BoundedFromAmounts(s: Coins, bound: int)
    requires Canonical(s) && bound > 0 && forall d :: -bound < Amount(s, d) < bound
    ensures Bounded(s, bound)
  {
    forall i | 0 <= i < |s| ensures -bound < s[i].amount < bound {
      AmountAt(s, i);
    }
  }

  /** Valid sets with the same amounts are the same set. */
  lemma SameAmounts(a: Coins, b: Coins)
    requires Valid(a) && Valid(b) && forall d :: Amount(a, d) == Amount(b, d)
    ensures a == b
  {
    CanonicalExtensional(a, b);
  }

  /** The order of coin sets: no denomination has less. */
  ghost predicate Below(a: Coins, b: Coins) {
    forall d :: Amount(a, d) <= Amount(b, d)
  }

  // ---- Add ----

  /** `Add` of valid sets: the pointwise sum, again valid; it panics exactly when some sum exceeds
      256 bits. */
  lemma {:induction false} AddValid(a: Coins, b: Coins)
    requires ValidSet(a) && ValidSet(b)
    ensures SafeAdd(a, b).Some? <==> forall d :: SumsFit(a, b, INT_BOUND, d)
    ensures SafeAdd(a, b).Some? ==>
              ValidSet(SafeAdd(a, b).value) && forall d :: Amount(SafeAdd(a, b).value, d) == Amount(a, d) + Amount(b, d)
  {
    hide AddMerge;
    ValidAmounts(a);
    ValidAmounts(b);
    AddMeaning(a, b, INT_BOUND);
    if SafeAdd(a, b).Some? {
      ValidFromAmounts(SafeAdd(a, b).value);
      forall d ensures -INT_BOUND < Amount(SafeAdd(a, b).value, d) < INT_BOUND {
        assert SumsFit(a, b, INT_BOUND, d);
      }
      BoundedFromAmounts(SafeAdd(a, b).value, INT_BOUND);
    }
  }

  // ---- Sub ----

  function Negative(s: Coins): (r: Coins)
    ensures |r| == |s| && forall i :: 0 <= i < |s| ==> r[i] == Coin(s[i].denom, -s[i].amount)
  {
    seq(|s|, i requires 0 <= i < |s| => Coin(s[i].denom, -s[i].amount))
  }

  lemma {:induction false} NegativeAmounts(s: Coins, d: bytes)
    ensures Amount(Negative(s), d) == -Amount(s, d)
  {
    if s != [] {
      assert Negative(s)[1..] == Negative(s[1..]);
      NegativeAmounts(s[1..], d);
    }
  }

  predicate AnyNegative(s: Coins) {
    exists i :: 0 <= i < |s| && s[i].amount < 0
  }

  /** `SafeSub`: the difference and whether some amount is negative. */
  function SafeSub(a: Coins, b: Coins): Option<(Coins, bool)> {
    match SafeAdd(a, Negative(b))
    case None => None
    case Some(diff) => Some((diff, AnyNegative(diff)))
  }

  function Sub(a: Coins, b: Coins): Option<Coins> {
    match SafeSub(a, b)
    case None => None
    case Some((diff, hasNeg)) => if hasNeg then None else Some(diff)
  }

  /** `SafeSub` of valid sets never panics and is the pointwise difference. */
  lemma {:induction false} SubMeaning(a: Coins, b: Coins)
    requires ValidSet(a) && ValidSet(b)
    ensures SafeSub(a, b).Some?
    ensures var (diff, hasNeg) := SafeSub(a, b).value;
            && Canonical(diff) && NoZero(diff)
            && (forall d :: Amount(diff, d) == Amount(a, d) - Amount(b, d))
            && (hasNeg <==> !Below(b, a))
  {
    hide AddMerge;
    ValidAmounts(a);
    ValidAmounts(b);
    var nb := Negative(b);
    forall d ensures Amount(nb, d) == -Amount(b, d) {
      NegativeAmounts(b, d);
    }
    assert IsSorted(nb);
    AddMeaning(a, nb, INT_BOUND);
    forall d ensures SumsFit(a, nb, INT_BOUND, d) {
      AmountBounded(a, INT_BOUND, d);
      AmountBounded(b, INT_BOUND, d);
    }
    var diff := SafeAdd(a, nb).value;
    if AnyNegative(diff) {
      var i :| 0 <= i < |diff| && diff[i].amount < 0;
      AmountAt(diff, i);
    }
    if !Below(b, a) {
      var d :| !(Amount(b, d) <= Amount(a, d));
      OccursIfNonZero(diff, d);
      var i :| 0 <= i < |diff| && diff[i].denom == d;
      AmountAt(diff, i);
    }
  }

  // ---- Comparison ----

  /** The loop of `IsAllGTE`; `None` is the panic on an invalid denomination. */
  function ScanGTE(a: Coins, b: Coins): Option<bool>
    decreases |b|
  {
    if b == [] then Some(true)
    else if !ValidDenom(b[0].denom) then None
    else if b[0].amount > AmountOf(a, b[0].denom) then Some(false)
    else ScanGTE(a, b[1..])
  }

  function IsAllGTE(a: Coins, b: Coins): Option<bool> {
    if b == [] then Some(true) else if a == [] then Some(false) else ScanGTE(a, b)
  }

  method IsAllGTELoop(a: Coins, b: Coins) returns (r: Option<bool>)
    ensures r == IsAllGTE(a, b)
  {
    if |b| == 0 { return Some(true); }
    if |a| == 0 { return Some(false); }
    for i := 0 to |b|
      invariant ScanGTE(a, b) == ScanGTE(a, b[i..])
    {
      assert b[i..][1..] == b[i + 1..];
      if !ValidDenom(b[i].denom) { return None; }
      if b[i].amount > AmountOf(a, b[i].denom) { return Some(false); }
    }
    r := Some(true);
  }

  lemma {:induction false} ScanMeaning(a: Coins, b: Coins)
    requires Canonical(a) && forall i :: 0 <= i < |b| ==> ValidDenom(b[i].denom)
    ensures ScanGTE(a, b) == Some(forall i :: 0 <= i < |b| ==> b[i].amount <= Amount(a, b[i].denom))
    decreases |b|
  {
    hide AmountOf, ValidDenom;
    if b != [] {
      AmountOfIsAmount(a, b[0].denom);
      ScanMeaning(a, b[1..]);
      assert (forall i :: 0 <= i < |b| ==> b[i].amount <= Amount(a, b[i].denom)) <==>
             && b[0].amount <= Amount(a, b[0].denom)
             && forall i :: 0 <= i < |b[1..]| ==> b[1..][i].amount <= Amount(a, b[1..][i].denom) by {
        assert forall i :: 1 <= i < |b| ==> b[i] == b[1..][i - 1];
      }
    }
  }

  /** On valid sets `IsAllGTE` decides the pointwise order. */
  lemma {:induction false} IsAllGTEMeaning(a: Coins, b: Coins)
    requires Valid(a) && Valid(b)
    ensures IsAllGTE(a, b) == Some(Below(b, a))
  {
    hide ValidDenom;
    ValidAmounts(a);
    ValidAmounts(b);
    ScanMeaning(a, b);
    if b != [] { AmountAt(b, 0); }
    if Below(b, a) {
      forall i | 0 <= i < |b| ensures b[i].amount <= Amount(a, b[i].denom) { AmountAt(b, i); }
    } else {
      var d :| !(Amount(b, d) <= Amount(a, d));
      OccursIfNonZero(b, d);
      var i :| 0 <= i < |b| && b[i].denom == d;
      AmountAt(b, i);
    }
  }

  /** `Sub` panics exactly when `IsAllGTE` fails; otherwise it is the pointwise difference, valid. */
  lemma {:induction false} SubValid(a: Coins, b: Coins)
    requires ValidSet(a) && ValidSet(b)
    ensures Sub(a, b).Some? <==> IsAllGTE(a, b) == Some(true)
    ensures Sub(a, b).Some? ==>
      && ValidSet(Sub(a, b).value)
      && forall d :: Amount(Sub(a, b).value, d) == Amount(a, d) - Amount(b, d)
  {
    hide SafeSub, IsAllGTE;
    SubMeaning(a, b);
    IsAllGTEMeaning(a, b);
    if Sub(a, b).Some? {
      ValidAmounts(a);
      ValidAmounts(b);
      forall d ensures Amount(a, d) - Amount(b, d) != 0 ==> ValidDenom(d) {
        if Amount(a, d) == 0 { assert Amount(b, d) >= 0; }
      }
      ValidFromAmounts(Sub(a, b).value);
      forall d ensures -INT_BOUND < Amount(Sub(a, b).value, d) < INT_BOUND {
        AmountBounded(a, INT_BOUND, d);
        AmountBounded(b, INT_BOUND, d);
      }
      BoundedFromAmounts(Sub(a, b).value, INT_BOUND);
    }
  }

  // ---- Max and Min ----

  function MaxMerge(a: Coins, b: Coins): Coins
    decreases |a| + |b|
  {
    if a == [] then b
    else if b == [] then a
    else if Less(a[0].denom, b[0].denom) then [a[0]] + MaxMerge(a[1..], b)
    else if a[0].denom == b[0].denom then [if b[0].amount > a[0].amount then b[0] else a[0]] + MaxMerge(a[1..], b[1..])
    else [b[0]] + MaxMerge(a, b[1..])
  }

  function MinMerge(a: Coins, b: Coins): Coins
    decreases |a| + |b|
  {
    if a == [] || b == [] then []
    else if Less(a[0].denom, b[0].denom) then MinMerge(a[1..], b)
    else if a[0].denom == b[0].denom then
      NonZero(if b[0].amount < a[0].amount then b[0] else a[0]) + MinMerge(a[1..], b[1..])
    else MinMerge(a, b[1..])
  }

  method AppendFrom(r: Coins, s: Coins, from: nat) returns (r': Coins)
    requires from <= |s|
    ensures r' == r + s[from..]
  {
    r' := r;
    for i := from to |s|
      invariant r' == r + s[from..i]
    {
      r' := r' + [s[i]];
    }
  }

  /** What the merge does at indices `i` and `j`. */
  lemma MaxStep(a: Coins, b: Coins, i: nat, j: nat)
    requires i < |a| && j < |b|
    ensures var rest := MaxMerge(a[i..], b[j..]);
            if Less(a[i].denom, b[j].denom) then rest == [a[i]] + MaxMerge(a[i + 1..], b[j..])
            else if a[i].denom == b[j].denom then
              rest == [if b[j].amount > a[i].amount then b[j] else a[i]] + MaxMerge(a[i + 1..], b[j + 1..])
            else rest == [b[j]] + MaxMerge(a[i..], b[j + 1..])
  {
    hide Less;
    assert a[i..][1..] == a[i + 1..] && b[j..][1..] == b[j + 1..];
  }

  /** The loops of `Max`. */
  method MaxLoop(a: Coins, b: Coins) returns (r: Option<Coins>)
    ensures r == Max(a, b)
  {
    hide NewCoins, Less, MaxMerge;
    var max: Coins := [];
    var i, j := 0, 0;
    assert a[0..] == a && b[0..] == b;
    while i < |a| && j < |b|
      invariant 0 <= i <= |a| && 0 <= j <= |b|
      invariant MaxMerge(a, b) == max + MaxMerge(a[i..], b[j..])
      decreases |a| - i + |b| - j
    {
      var coinA, coinB := a[i], b[j];
      MaxStep(a, b, i, j);
      ghost var before, i', j' := max, i, j;
      if Less(coinA.denom, coinB.denom) {
        max := max + [coinA];
        i := i + 1;
      } else if coinA.denom == coinB.denom {
        var maxCoin := coinA;
        if coinB.amount > maxCoin.amount {
          maxCoin := coinB;
        }
        max := max + [maxCoin];
        i, j := i + 1, j + 1;
      } else {
        max := max + [coinB];
        j := j + 1;
      }
      assert before + MaxMerge(a[i'..], b[j'..]) == max + MaxMerge(a[i..], b[j..]);
    }
    assert MaxMerge(a[i..], b[j..]) == a[i..] + b[j..] by { MaxOfRest(a[i..], b[j..]); }
    max := AppendFrom(max, a, i);
    max := AppendFrom(max, b, j);
    assert MaxMerge(a, b) == max;
    r := NewCoins(max);
  }

  lemma MaxOfRest(a: Coins, b: Coins)
    requires a == [] || b == []
    ensures MaxMerge(a, b) == a + b
  {
  }

  lemma MinStep(a: Coins, b: Coins, i: nat, j: nat)
    requires i < |a| && j < |b|
    ensures var rest := MinMerge(a[i..], b[j..]);
            if Less(a[i].denom, b[j].denom) then rest == MinMerge(a[i + 1..], b[j..])
            else if a[i].denom == b[j].denom then
              rest == NonZero(if b[j].amount < a[i].amount then b[j] else a[i]) + MinMerge(a[i + 1..], b[j + 1..])
            else rest == MinMerge(a[i..], b[j + 1..])
  {
    hide Less;
    assert a[i..][1..] == a[i + 1..] && b[j..][1..] == b[j + 1..];
  }

  /** The loop of `Min`. */
  method MinLoop(a: Coins, b: Coins) returns (r: Option<Coins>)
    ensures r == Min(a, b)
  {
    hide NewCoins, Less, MinMerge;
    var min: Coins := [];
    var i, j := 0, 0;
    assert a[0..] == a && b[0..] == b;
    while i < |a| && j < |b|
      invariant 0 <= i <= |a| && 0 <= j <= |b|
      invariant MinMerge(a, b) == min + MinMerge(a[i..], b[j..])
      decreases |a| - i + |b| - j
    {
      var coinA, coinB := a[i], b[j];
      MinStep(a, b, i, j);
      ghost var before, i', j' := min, i, j;
      if Less(coinA.denom, coinB.denom) {
        i := i + 1;
      } else if coinA.denom == coinB.denom {
        var minCoin := coinA;
        if coinB.amount < minCoin.amount {
          minCoin := coinB;
        }
        if minCoin.amount != 0 {
          min := min + [minCoin];
        }
        i, j := i + 1, j + 1;
      } else {
        j := j + 1;
      }
      assert before + MinMerge(a[i'..], b[j'..]) == min + MinMerge(a[i..], b[j..]);
    }
    assert MinMerge(a[i..], b[j..]) == [] by { MinOfRest(a[i..], b[j..]); }
    assert MinMerge(a, b) == min;
    r := NewCoins(min);
  }

  lemma MinOfRest(a: Coins, b: Coins)
    requires a == [] || b == []
    ensures MinMerge(a, b) == []
  {
  }

  /** Insertion by denomination. */
  function InsertCoin(c: Coin, s: Coins): Coins {
    if s == [] || !Less(s[0].denom, c.denom) then [c] + s else [s[0]] + InsertCoin(c, s[1..])
  }

  function SortCoins(s: Coins): Coins {
    if s == [] then [] else InsertCoin(s[0], SortCoins(s[1..]))
  }

  lemma {:induction false} SortedAlready(s: Coins)
    requires Canonical(s)
    ensures SortCoins(s) == s
  {
    if s != [] {
      SortedAlready(s[1..]);
      assert s == [s[0]] + s[1..];
      if |s| > 1 {
        Trichotomy(s[0].denom, s[1].denom);
      }
    }
  }

  /** `NewCoins`: drop zero coins, sort, and panic unless the result is valid. */
  function NewCoins(s: Coins): Option<Coins> {
    var r := SortCoins(RemoveZero(s));
    if Valid(r) then Some(r) else None
  }

  function Max(a: Coins, b: Coins): Option<Coins> {
    NewCoins(MaxMerge(a, b))
  }

  function Min(a: Coins, b: Coins): Option<Coins> {
    NewCoins(MinMerge(a, b))
  }

  function Larger(x: int, y: int): int {
    if y > x then y else x
  }

  function Smaller(x: int, y: int): int {
    if y < x then y else x
  }

  lemma {:induction false} MaxMergeMeaning(a: Coins, b: Coins)
    requires Canonical(a) && Canonical(b) && (forall d :: Amount(a, d) >= 0 && Amount(b, d) >= 0)
    requires NoZero(a) && NoZero(b)
    ensures var r := MaxMerge(a, b);
            && Canonical(r) && NoZero(r)
            && (forall d :: Amount(r, d) == Larger(Amount(a, d), Amount(b, d)))
            && (forall d :: AllAbove(d, a) && AllAbove(d, b) ==> AllAbove(d, r))
    decreases |a| + |b|
  {
    hide Less;
    if a != [] && b != [] {
      var x, y := a[0], b[0];
      Trichotomy(x.denom, y.denom);
      HeadGone(a);
      HeadGone(b);
      TailAmounts(a);
      TailAmounts(b);
      if Less(x.denom, y.denom) {
        OneSided(a, b);
        MaxMergeMeaning(a[1..], b);
        PrependMeaning(x, MaxMerge(a[1..], b));
      } else if x.denom == y.denom {
        MaxMergeMeaning(a[1..], b[1..]);
        PrependMeaning(if y.amount > x.amount then y else x, MaxMerge(a[1..], b[1..]));
      } else {
        OneSided(b, a);
        MaxMergeMeaning(a, b[1..]);
        PrependMeaning(y, MaxMerge(a, b[1..]));
      }
    }
  }

  lemma TailAmounts(s: Coins)
    requires s != [] && Canonical(s) && (forall d :: Amount(s, d) >= 0)
    ensures forall d :: Amount(s[1..], d) >= 0
    ensures AllAbove(s[0].denom, s[1..]) && Canonical(s[1..])
  {
    HeadGone(s);
    forall d ensures Amount(s[1..], d) >= 0 {
      assert Amount(s, d) >= 0;
    }
  }

  ghost predicate IsMin(a: Coins, b: Coins, r: Coins) {
    && Canonical(r) && NoZero(r)
    && (forall d :: Amount(r, d) == Smaller(Amount(a, d), Amount(b, d)))
    && (forall d :: AllAbove(d, a) && AllAbove(d, b) ==> AllAbove(d, r))
  }

  lemma {:induction false} MinMergeMeaning(a: Coins, b: Coins)
    requires Canonical(a) && Canonical(b) && (forall d :: Amount(a, d) >= 0 && Amount(b, d) >= 0)
    ensures IsMin(a, b, MinMerge(a, b))
    decreases |a| + |b|
  {
    hide Less, IsMin;
    if a == [] || b == [] {
      MinOfEmpty(a, b);
    } else {
      var x, y := a[0], b[0];
      Trichotomy(x.denom, y.denom);
      TailAmounts(a);
      TailAmounts(b);
      if Less(x.denom, y.denom) {
        MinMergeMeaning(a[1..], b);
        MinSkips(a, b, MinMerge(a[1..], b));
      } else if x.denom == y.denom {
        MinMergeMeaning(a[1..], b[1..]);
        MinTakes(a, b, MinMerge(a[1..], b[1..]));
      } else {
        MinMergeMeaning(a, b[1..]);
        MinSkips(b, a, MinMerge(a, b[1..]));
      }
    }
  }

  lemma MinOfEmpty(a: Coins, b: Coins)
    requires (a == [] || b == []) && (forall d :: Amount(a, d) >= 0 && Amount(b, d) >= 0)
    ensures IsMin(a, b, [])
  {
  }

  /** A denomination missing on one side has minimum zero. */
  lemma MinSkips(s: Coins, t: Coins, r: Coins)
    requires s != [] && t != [] && Canonical(s) && Canonical(t) && Less(s[0].denom, t[0].denom)
    requires forall d :: Amount(s, d) >= 0
    requires IsMin(s[1..], t, r) || IsMin(t, s[1..], r)
    ensures IsMin(s, t, r) && IsMin(t, s, r)
  {
    hide Less;
    OneSided(s, t);
    assert Amount(s, s[0].denom) >= 0;
  }

  lemma MinTakes(a: Coins, b: Coins, r: Coins)
    requires a != [] && b != [] && Canonical(a) && Canonical(b) && a[0].denom == b[0].denom
    requires IsMin(a[1..], b[1..], r)
    ensures IsMin(a, b, NonZero(if b[0].amount < a[0].amount then b[0] else a[0]) + r)
  {
    hide Less, Canonical, NoZero, AllAbove;
    var c := if b[0].amount < a[0].amount then b[0] else a[0];
    var r' := NonZero(c) + r;
    AboveTail(a);
    AboveTail(b);
    PrependMeaning(c, r);
    forall d ensures Amount(r', d) == Smaller(Amount(a, d), Amount(b, d)) {
      assert Amount(r, d) == Smaller(Amount(a[1..], d), Amount(b[1..], d));
    }
    forall d | AllAbove(d, a) && AllAbove(d, b) ensures AllAbove(d, r') {
      assert Less(d, c.denom) && AllAbove(d, a[1..]) && AllAbove(d, b[1..]);
    }
  }

  lemma AboveTail(s: Coins)
    requires s != [] && Canonical(s)
    ensures AllAbove(s[0].denom, s[1..])
    ensures forall d :: AllAbove(d, s) ==> Less(d, s[0].denom) && AllAbove(d, s[1..])
  {
  }

  lemma NewCoinsOfValid(s: Coins)
    requires Valid(s)
    ensures NewCoins(s) == Some(s)
  {
    ValidAmounts(s);
    RemoveZeroMeaning(s);
    SortedAlready(s);
  }

  /** `Max` and `Min` of valid sets never panic and are the pointwise maximum and minimum, valid. */
  lemma {:induction false} MaxMinValid(a: Coins, b: Coins)
    requires Valid(a) && Valid(b)
    ensures Max(a, b).Some? && Valid(Max(a, b).value)
    ensures Min(a, b).Some? && Valid(Min(a, b).value)
    ensures forall d :: Amount(Max(a, b).value, d) == Larger(Amount(a, d), Amount(b, d))
    ensures forall d :: Amount(Min(a, b).value, d) == Smaller(Amount(a, d), Amount(b, d))
  {
    hide MaxMerge, MinMerge, NewCoins;
    ValidAmounts(a);
    ValidAmounts(b);
    MaxMergeMeaning(a, b);
    MinMergeMeaning(a, b);
    ValidFromAmounts(MaxMerge(a, b));
    ValidFromAmounts(MinMerge(a, b));
    NewCoinsOfValid(MaxMerge(a, b));
    NewCoinsOfValid(MinMerge(a, b));
  }

  // ---- The laws ----

  /** `Max` is the least upper bound and `Min` the greatest lower bound, as `IsAllGTE` sees it. */
  lemma {:induction false} LatticeLaws(a: Coins, b: Coins, c: Coins)
    requires Valid(a) && Valid(b) && Valid(c)
    ensures Max(a, b).Some? && Min(a, b).Some?
    ensures var mx, mn := Max(a, b).value, Min(a, b).value;
            && IsAllGTE(mx, a) == Some(true) && IsAllGTE(mx, b) == Some(true)
            && IsAllGTE(a, mn) == Some(true) && IsAllGTE(b, mn) == Some(true)
            && (IsAllGTE(c, a) == Some(true) && IsAllGTE(c, b) == Some(true) <==> IsAllGTE(c, mx) == Some(true))
            && (IsAllGTE(a, c) == Some(true) && IsAllGTE(b, c) == Some(true) <==> IsAllGTE(mn, c) == Some(true))
  {
    hide Max, Min, IsAllGTE;
    MaxMinValid(a, b);
    var mx, mn := Max(a, b).value, Min(a, b).value;
    IsAllGTEMeaning(mx, a);
    IsAllGTEMeaning(mx, b);
    IsAllGTEMeaning(a, mn);
    IsAllGTEMeaning(b, mn);
    IsAllGTEMeaning(c, a);
    IsAllGTEMeaning(c, b);
    IsAllGTEMeaning(c, mx);
    IsAllGTEMeaning(a, c);
    IsAllGTEMeaning(b, c);
    IsAllGTEMeaning(mn, c);
    LatticeOrder(a, b, c, mx, mn);
  }

  lemma LatticeOrder(a: Coins, b: Coins, c: Coins, mx: Coins, mn: Coins)
    requires forall d :: Amount(mx, d) == Larger(Amount(a, d), Amount(b, d))
    requires forall d :: Amount(mn, d) == Smaller(Amount(a, d), Amount(b, d))
    ensures Below(a, mx) && Below(b, mx) && Below(mn, a) && Below(mn, b)
    ensures Below(a, c) && Below(b, c) <==> Below(mx, c)
    ensures Below(c, a) && Below(c, b) <==> Below(c, mn)
  {
  }

  /** a + b = min(a, b) + max(a, b), as coin sets, and both sides panic together. */
  lemma {:induction false} SumIsMinPlusMax(a: Coins, b: Coins)
    requires ValidSet(a) && ValidSet(b)
    ensures Max(a, b).Some? && Min(a, b).Some?
    ensures SafeAdd(a, b) == SafeAdd(Min(a, b).value, Max(a, b).value)
  {
    hide Max, Min, SafeAdd;
    MaxMinValid(a, b);
    var mn, mx := Min(a, b).value, Max(a, b).value;
    forall d ensures -INT_BOUND < Amount(mn, d) < INT_BOUND && -INT_BOUND < Amount(mx, d) < INT_BOUND {
      AmountBounded(a, INT_BOUND, d);
      AmountBounded(b, INT_BOUND, d);
    }
    BoundedFromAmounts(mn, INT_BOUND);
    BoundedFromAmounts(mx, INT_BOUND);
    AddValid(a, b);
    AddValid(mn, mx);
    assert forall d :: Amount(a, d) + Amount(b, d) == Amount(mn, d) + Amount(mx, d);
    assert forall d :: SumsFit(a, b, INT_BOUND, d) <==> SumsFit(mn, mx, INT_BOUND, d);
    if SafeAdd(a, b).Some? {
      SameAmounts(SafeAdd(a, b).value, SafeAdd(mn, mx).value);
    }
  }

  /** Subtraction undoes addition, and addition does not depend on the order of its operands. */
  lemma {:induction false} AddThenSub(a: Coins, b: Coins)
    requires ValidSet(a) && ValidSet(b)
    ensures SafeAdd(a, b) == SafeAdd(b, a)
    ensures SafeAdd(a, b).Some? ==> Sub(SafeAdd(a, b).value, b) == Some(a)
  {
    hide SafeAdd, Sub, IsAllGTE;
    AddValid(a, b);
    AddValid(b, a);
    assert forall d :: SumsFit(a, b, INT_BOUND, d) <==> SumsFit(b, a, INT_BOUND, d);
    if SafeAdd(a, b).Some? {
      var s := SafeAdd(a, b).value;
      SameAmounts(s, SafeAdd(b, a).value);
      ValidAmounts(a);
      SubValid(s, b);
      IsAllGTEMeaning(s, b);
      assert Below(b, s);
      SameAmounts(Sub(s, b).value, a);
    }
  }

  // ---- Equality ----

  /** The loop of `IsEqual`; `None` is the panic on differing denominations. */
  function EqualScan(a: Coins, b: Coins): Option<bool>
    requires |a| == |b|
  {
    if a == [] then Some(true)
    else if a[0].denom != b[0].denom then None
    else if a[0].amount != b[0].amount then Some(false)
    else EqualScan(a[1..], b[1..])
  }

  lemma {:induction false} SortKeepsLength(s: Coins)
    ensures |SortCoins(s)| == |s|
  {
    if s != [] {
      SortKeepsLength(s[1..]);
      InsertGrows(s[0], SortCoins(s[1..]));
    }
  }

  lemma {:induction false} InsertGrows(c: Coin, s: Coins)
    ensures |InsertCoin(c, s)| == |s| + 1
  {
    if s != [] {
      InsertGrows(c, s[1..]);
    }
  }

  function IsEqual(a: Coins, b: Coins): Option<bool> {
    if |a| != |b| then Some(false)
    else
      SortKeepsLength(a);
      SortKeepsLength(b);
      EqualScan(SortCoins(a), SortCoins(b))
  }

  /** The first difference of two lists of one length is in the denominations. */
  predicate DenomsDivergeFirst(a: Coins, b: Coins) {
    |a| == |b| && exists i :: 0 <= i < |a| && a[i].denom != b[i].denom && forall j :: 0 <= j < i ==> a[j] == b[j]
  }

  lemma DivergesAtHeadOrTail(a: Coins, b: Coins)
    requires |a| == |b| > 0
    ensures DenomsDivergeFirst(a, b) <==>
              a[0].denom != b[0].denom || (a[0] == b[0] && DenomsDivergeFirst(a[1..], b[1..]))
  {
    var a', b' := a[1..], b[1..];
    if DenomsDivergeFirst(a', b') && a[0] == b[0] {
      var i :| 0 <= i < |a'| && a'[i].denom != b'[i].denom && forall j :: 0 <= j < i ==> a'[j] == b'[j];
      assert a[i + 1].denom != b[i + 1].denom;
      assert forall j :: 1 <= j < i + 1 ==> a[j] == a'[j - 1] && b[j] == b'[j - 1];
    }
    if DenomsDivergeFirst(a, b) {
      var i :| 0 <= i < |a| && a[i].denom != b[i].denom && forall j :: 0 <= j < i ==> a[j] == b[j];
      if i > 0 {
        assert a'[i - 1].denom != b'[i - 1].denom;
      }
    }
  }

  lemma {:induction false} ScanEquality(a: Coins, b: Coins)
    requires |a| == |b|
    ensures EqualScan(a, b) == Some(true) <==> a == b
    ensures EqualScan(a, b).None? <==> DenomsDivergeFirst(a, b)
  {
    if a != [] {
      ScanEquality(a[1..], b[1..]);
      assert a == [a[0]] + a[1..] && b == [b[0]] + b[1..];
      assert EqualScan(a, b).None? <==> DenomsDivergeFirst(a, b) by {
        hide DenomsDivergeFirst;
        DivergesAtHeadOrTail(a, b);
      }
    }
  }

  /** On valid sets `IsEqual` is equality of amounts, except that it panics exactly when the sets
      have one size and first differ in a denomination. */
  lemma {:induction false} IsEqualMeaning(a: Coins, b: Coins)
    requires Valid(a) && Valid(b)
    ensures IsEqual(a, b) == Some(true) <==> forall d: bytes :: Amount(a, d) == Amount(b, d)
    ensures IsEqual(a, b).None? <==> DenomsDivergeFirst(a, b)
  {
    hide EqualScan, DenomsDivergeFirst, Canonical, ValidDenom;
    SortedAlready(a);
    SortedAlready(b);
    if |a| == |b| {
      ScanEquality(a, b);
      assert IsEqual(a, b) == EqualScan(a, b);
    } else {
      assert !DenomsDivergeFirst(a, b) by { LengthsDiffer(a, b); }
    }
    assert IsEqual(a, b) == Some(true) <==> a == b;
    if forall d: bytes :: Amount(a, d) == Amount(b, d) {
      SameAmounts(a, b);
    } else {
      var d: bytes :| Amount(a, d) != Amount(b, d);
      assert !(Amount(a, d) == Amount(b, d));
    }
  }

  /** One coin against another coin of another denomination. */
  lemma IsEqualWitness()
    ensures IsEqual([Coin(Ascii("aaa"), 1)], [Coin(Ascii("bbb"), 1)]).None?
  {
    var a, b := [Coin(Ascii("aaa"), 1)], [Coin(Ascii("bbb"), 1)];
    SortedAlready(a);
    SortedAlready(b);
    assert Ascii("aaa")[0] != Ascii("bbb")[0];
  }

  lemma LengthsDiffer(a: Coins, b: Coins)
    requires |a| != |b|
    ensures !DenomsDivergeFirst(a, b)
  {
  }

  // ---- Denominations ----

  function Denoms(s: Coins): set<bytes> {
    set i | 0 <= i < |s| :: s[i].denom
  }

  lemma {:induction false} DenomsCount(s: Coins)
    requires Canonical(s)
    ensures |Denoms(s)| == |s|
  {
    if s != [] {
      DenomsCount(s[1..]);
      forall i | 1 <= i < |s| ensures s[i].denom != s[0].denom {
        Trichotomy(s[0].denom, s[i].denom);
      }
      assert s[0].denom !in Denoms(s[1..]);
      DenomsOfHead(s);
    }
  }

  lemma DenomsOfHead(s: Coins)
    requires s != []
    ensures Denoms(s) == {s[0].denom} + Denoms(s[1..])
  {
    forall d | d in Denoms(s) ensures d in {s[0].denom} + Denoms(s[1..]) {
      var i :| 0 <= i < |s| && s[i].denom == d;
      assert i > 0 ==> s[1..][i - 1].denom == d;
    }
    forall d | d in Denoms(s[1..]) ensures d in Denoms(s) {
      var i :| 0 <= i < |s[1..]| && s[1..][i].denom == d;
      assert s[i + 1].denom == d;
    }
  }

  lemma {:induction false} SubsetCount(a: set<bytes>, b: set<bytes>)
    requires a <= b
    ensures |a| <= |b|
    decreases b
  {
    if b != {} {
      var x :| x in b;
      SubsetCount(a - {x}, b - {x});
    }
  }

  /** The loop of `DenomsSubsetOf`; `None` is the panic on an invalid denomination. */
  function ScanDenoms(a: Coins, b: Coins): Option<bool>
    decreases |a|
  {
    if a == [] then Some(true)
    else if !ValidDenom(a[0].denom) then None
    else if AmountOf(b, a[0].denom) == 0 then Some(false)
    else ScanDenoms(a[1..], b)
  }

  function SubsetOf(a: Coins, b: Coins): Option<bool> {
    if |a| > |b| then Some(false) else ScanDenoms(a, b)
  }

  /** `DenomsSubsetOf`, with its shortcut on lengths. */
  method DenomsSubsetOf(a: Coins, b: Coins) returns (r: Option<bool>)
    ensures r == SubsetOf(a, b)
  {
    hide ValidDenom, AmountOf;
    if |a| > |b| {
      return Some(false);
    }
    for i := 0 to |a|
      invariant ScanDenoms(a, b) == ScanDenoms(a[i..], b)
    {
      assert a[i..][1..] == a[i + 1..];
      if !ValidDenom(a[i].denom) {
        return None;
      }
      if AmountOf(b, a[i].denom) == 0 {
        return Some(false);
      }
    }
    r := Some(true);
  }

  lemma {:induction false} ScanDenomsMeaning(a: Coins, b: Coins)
    requires (forall i :: 0 <= i < |a| ==> ValidDenom(a[i].denom)) && Valid(b)
    ensures ScanDenoms(a, b) == Some(Denoms(a) <= Denoms(b))
    decreases |a|
  {
    hide ValidDenom, AmountOf, Denoms;
    if a == [] {
      assert Denoms(a) == {} by { NoDenoms(); }
    } else {
      ScanDenomsMeaning(a[1..], b);
      DenomsOfHead(a);
      AmountOfIsAmount(b, a[0].denom);
      HasAmount(b, a[0].denom);
    }
  }

  lemma NoDenoms()
    ensures Denoms([]) == {}
  {
  }

  /** On valid sets it decides inclusion of the denominations: the shortcut is right. */
  lemma {:induction false} SubsetOfMeaning(a: Coins, b: Coins)
    requires Valid(a) && Valid(b)
    ensures SubsetOf(a, b) == Some(Denoms(a) <= Denoms(b))
  {
    hide ValidDenom, ScanDenoms, Denoms;
    ScanDenomsMeaning(a, b);
    DenomsCount(a);
    DenomsCount(b);
    if Denoms(a) <= Denoms(b) {
      SubsetCount(Denoms(a), Denoms(b));
    }
  }

  lemma HasAmount(s: Coins, d: bytes)
    requires Valid(s)
    ensures Amount(s, d) != 0 <==> d in Denoms(s)
  {
    if Amount(s, d) != 0 {
      OccursIfNonZero(s, d);
    }
    if d in Denoms(s) {
      var i :| 0 <= i < |s| && s[i].denom == d;
      AmountAt(s, i);
    }
  }
}
