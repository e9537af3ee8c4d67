/** Decimal coin sets (`types/dec_coin.go`): amounts are counted in units of 10^-18. The merge of
    `safeAdd` is the one of coin sets with the wider bound of decimals and no check of the order. */
module DecCoins {
  import opened Bytes
  import opened Decimal
  import opened Coins
  import opened CoinOps
  import opened CoinLaws

  // ---- Truncation ----

  /** `DecCoin.TruncateDecimal`: the whole part and the change. `None` is the panic of
      `TruncateInt` beyond 256 bits, or of the constructors on an invalid denomination or a
      negative amount. */
  function TruncateCoin(c: Coin): Option<(Coin, Coin)> {
    var whole := ChopTruncate(c.amount);
    var change := c.amount - whole * P;
    if -INT_BOUND < whole < INT_BOUND && InRange(change) && ValidDenom(c.denom) && whole >= 0 && change >= 0
    then Some((Coin(c.denom, whole), Coin(c.denom, change)))
    else None
  }

  /** One coin is split exactly when it is well formed and its whole part fits an `Int`; nothing is
      lost, and less than one unit is change. */
  lemma TruncateCoinExact(c: Coin)
    ensures TruncateCoin(c).Some? <==> ValidDenom(c.denom) && 0 <= c.amount < INT_BOUND * P
    ensures TruncateCoin(c).Some? ==>
              && TruncateCoin(c).value.0 == Coin(c.denom, c.amount / P)
              && TruncateCoin(c).value.1 == Coin(c.denom, c.amount % P)
  {
  }

  /** One pass of the loop: zero parts are not added. */
  function Take(c: Coin, whole: Coins, change: Coins): Option<(Coins, Coins)> {
    match TruncateCoin(c)
    case None => None
    case Some((t, r)) =>
      var w := if t.amount == 0 then Some(whole) else SafeAdd(whole, [t]);
      var x := if r.amount == 0 then Some(change) else AddMerge(change, [r], DEC_BOUND);
      if w.None? || x.None? then None else Some((w.value, x.value))
  }

  function Truncate(s: Coins): Option<(Coins, Coins)> {
    if s == [] then Some(([], []))
    else
      match Truncate(s[..|s| - 1])
      case None => None
      case Some((whole, change)) => Take(s[|s| - 1], whole, change)
  }

  method TruncateDecimal(s: Coins) returns (r: Option<(Coins, Coins)>)
    ensures r == Truncate(s)
  {
    var whole: Coins, change: Coins := [], [];
    for i := 0 to |s|
      invariant Truncate(s[..i]) == Some((whole, change))
    {
      assert s[..i + 1][..i] == s[..i];
      ghost var next := Take(s[i], whole, change);
      if next.None? {
        PanicStays(s, i + 1);
      }
      var parts := TruncateCoin(s[i]);
      if parts.None? { return None; }
      var (t, c) := parts.value;
      if t.amount != 0 {
        var sum := SafeAddLoop(whole, [t]);
        if sum.None? { return None; }
        whole := sum.value;
      }
      if c.amount != 0 {
        var sum := AddMergeLoop(change, [c], DEC_BOUND);
        if sum.None? { return None; }
        change := sum.value;
      }
    }
    assert s[..|s|] == s;
    r := Some((whole, change));
  }

  lemma {:induction false} PanicStays(s: Coins, n: nat)
    requires n <= |s| && Truncate(s[..n]).None?
    ensures Truncate(s).None?
    decreases |s|
  {
    if n == |s| {
      assert s[..n] == s;
    } else {
      assert s[..|s| - 1][..n] == s[..n];
      PanicStays(s[..|s| - 1], n);
    }
  }

  // ---- Conservation ----

  /** The two parts of a set: valid sets holding, per denomination, the whole part and the rest. */
  ghost predicate Parts(s: Coins, whole: Coins, change: Coins) {
    && ValidSet(whole) && Valid(change) && Bounded(change, DEC_BOUND)
    && forall d :: Amount(whole, d) == Amount(s, d) / P && Amount(change, d) == Amount(s, d) % P
  }

  predicate WholesFit(s: Coins) {
    forall i :: 0 <= i < |s| ==> s[i].amount < INT_BOUND * P
  }

  lemma AddOne(s: Coins, c: Coin, bound: int)
    requires Valid(s) && Bounded(s, bound) && ValidDenom(c.denom) && 0 < c.amount < bound && Amount(s, c.denom) == 0
    ensures AddMerge(s, [c], bound).Some?
    ensures var r := AddMerge(s, [c], bound).value;
            Valid(r) && Bounded(r, bound) && forall d :: Amount(r, d) == if d == c.denom then c.amount else Amount(s, d)
  {
    hide AddMerge, ValidDenom;
    ValidAmounts(s);
    assert forall d :: Amount([c], d) == if d == c.denom then c.amount else 0 by {
      assert [c][1..] == [];
    }
    AddMeaning(s, [c], bound);
    forall d ensures SumsFit(s, [c], bound, d) {
      AmountBounded(s, bound, d);
    }
    var r := AddMerge(s, [c], bound).value;
    ValidFromAmounts(r);
    forall d ensures -bound < Amount(r, d) < bound {
      AmountBounded(s, bound, d);
    }
    BoundedFromAmounts(r, bound);
  }

  lemma {:induction false} AmountSnoc(s: Coins, c: Coin, d: bytes)
    requires forall i :: 0 <= i < |s| ==> s[i].denom != c.denom
    ensures Amount(s + [c], d) == if d == c.denom then c.amount else Amount(s, d)
  {
    if s == [] {
      assert (s + [c])[1..] == [];
    } else {
      assert (s + [c])[1..] == s[1..] + [c];
      AmountSnoc(s[1..], c, d);
    }
  }

  /** The step: a coin whose denomination is new extends both parts. */
  lemma TakeMeaning(s: Coins, c: Coin, whole: Coins, change: Coins)
    requires Parts(s, whole, change) && Amount(s, c.denom) == 0
    requires ValidDenom(c.denom) && 0 < c.amount
    requires forall d :: Amount(s + [c], d) == if d == c.denom then c.amount else Amount(s, d)
    ensures Take(c, whole, change).Some? <==> c.amount < INT_BOUND * P
    ensures Take(c, whole, change).Some? ==>
              Parts(s + [c], Take(c, whole, change).value.0, Take(c, whole, change).value.1)
  {
    hide TruncateCoin, AddMerge, ValidDenom, Canonical, Bounded;
    TruncateCoinExact(c);
    if c.amount < INT_BOUND * P {
      ValidAmounts(whole);
      assert Amount(whole, c.denom) == 0 && Amount(change, c.denom) == 0;
      var t, r := TruncateCoin(c).value.0, TruncateCoin(c).value.1;
      if t.amount != 0 { AddOne(whole, t, INT_BOUND); }
      if r.amount != 0 { AddOne(change, r, DEC_BOUND); }
    }
  }

  lemma {:induction false} TruncateMeaning(s: Coins)
    requires Valid(s)
    ensures Truncate(s).Some? <==> WholesFit(s)
    ensures Truncate(s).Some? ==> Parts(s, Truncate(s).value.0, Truncate(s).value.1)
  {
    hide Take, Parts, ValidDenom;
    if s == [] {
      NothingToSplit();
    } else {
      var n := |s| - 1;
      var init, c := s[..n], s[n];
      assert s == init + [c];
      TruncateMeaning(init);
      assert WholesFit(s) <==> WholesFit(init) && c.amount < INT_BOUND * P;
      if Truncate(init).Some? {
        LastIsNew(s);
        AmountAbsent(init, c.denom);
        forall d ensures Amount(init + [c], d) == if d == c.denom then c.amount else Amount(init, d) {
          AmountSnoc(init, c, d);
        }
        TakeMeaning(init, c, Truncate(init).value.0, Truncate(init).value.1);
      }
    }
  }

  lemma NothingToSplit()
    ensures Parts([], [], [])
  {
  }

  lemma LastIsNew(s: Coins)
    requires Canonical(s) && s != []
    ensures forall i :: 0 <= i < |s| - 1 ==> s[i].denom != s[|s| - 1].denom
  {
    forall i | 0 <= i < |s| - 1 ensures s[i].denom != s[|s| - 1].denom {
      Trichotomy(s[i].denom, s[|s| - 1].denom);
    }
  }

  /** `TruncateDecimal` of a valid set panics exactly when some whole part exceeds 256 bits.
      Otherwise it conserves every denomination: whole units and change add up to the amount, the
      change is less than one unit, and both parts are valid sets. No other pair of valid sets
      does this. */
  lemma {:induction false} TruncateConserves(s: Coins, w: Coins, x: Coins)
    requires Valid(s)
    ensures Truncate(s).Some? <==> WholesFit(s)
    ensures Truncate(s).Some? ==>
              var (whole, change) := Truncate(s).value;
              && ValidSet(whole) && Valid(change) && Bounded(change, P)
              && (forall d :: Amount(whole, d) * P + Amount(change, d) == Amount(s, d))
              && (ValidSet(w) && Valid(x) && Bounded(x, P) &&
                  (forall d :: Amount(w, d) * P + Amount(x, d) == Amount(s, d))
                  ==> w == whole && x == change)
  {
    hide Truncate, WholesFit, ValidDenom, Canonical;
    TruncateMeaning(s);
    if Truncate(s).Some? {
      var (whole, change) := Truncate(s).value;
      assert forall d :: Amount(whole, d) * P + Amount(change, d) == Amount(s, d);
      forall d ensures -P < Amount(change, d) < P {
        assert Amount(change, d) == Amount(s, d) % P;
      }
      BoundedFromAmounts(change, P);
      if ValidSet(w) && Valid(x) && Bounded(x, P) && forall d :: Amount(w, d) * P + Amount(x, d) == Amount(s, d) {
        PartsUnique(s, whole, change, w, x);
      }
    }
  }

  lemma PartsUnique(s: Coins, whole: Coins, change: Coins, w: Coins, x: Coins)
    requires Parts(s, whole, change)
    requires Valid(w) && Valid(x) && Bounded(x, P) && forall d :: Amount(w, d) * P + Amount(x, d) == Amount(s, d)
    ensures w == whole && x == change
  {
    hide ValidDenom;
    ValidAmounts(x);
    forall d ensures Amount(w, d) == Amount(whole, d) && Amount(x, d) == Amount(change, d) {
      AmountBounded(x, P, d);
      assert Amount(w, d) * P + Amount(x, d) == Amount(s, d) && 0 <= Amount(x, d) < P;
    }
    SameAmounts(w, whole);
    SameAmounts(x, change);
  }

  // ---- Intersection ----

  function Capped(a: Coins, b: Coins): (r: Coins)
    ensures |r| == |a|
    ensures forall i :: 0 <= i < |a| ==> r[i] == Coin(a[i].denom, Smaller(a[i].amount, AmountOf(b, a[i].denom)))
  {
    seq(|a|, i requires 0 <= i < |a| => Coin(a[i].denom, Smaller(a[i].amount, AmountOf(b, a[i].denom))))
  }

  /** `Intersect`; `None` is the panic on an invalid denomination. */
  function Intersect(a: Coins, b: Coins): Option<Coins> {
    if exists i :: 0 <= i < |a| && !ValidDenom(a[i].denom) then None
    else Some(RemoveZero(Capped(a, b)))
  }

  lemma {:induction false} CappedAmounts(a: Coins, b: Coins, d: bytes)
    requires Canonical(b) && forall e :: Amount(b, e) >= 0
    requires forall e :: Amount(a, e) >= 0
    requires Canonical(a)
    ensures Amount(Capped(a, b), d) == Smaller(Amount(a, d), Amount(b, d))
  {
    if a == [] {
      assert Amount(b, d) >= 0;
    } else {
      AmountOfIsAmount(b, a[0].denom);
      TailAmounts(a);
      assert Capped(a, b)[1..] == Capped(a[1..], b);
      CappedAmounts(a[1..], b, d);
    }
  }

  /** On valid sets `Intersect` is the set of per-denomination minima, the one `Coins.Min` builds
      by merging. */
  lemma {:induction false} IntersectIsMin(a: Coins, b: Coins)
    requires Valid(a) && Valid(b)
    ensures Intersect(a, b) == Min(a, b)
    ensures Intersect(a, b).Some?
    ensures forall d :: Amount(Intersect(a, b).value, d) == Smaller(Amount(a, d), Amount(b, d))
  {
    hide ValidDenom, Min;
    ValidAmounts(a);
    ValidAmounts(b);
    forall d ensures Amount(Capped(a, b), d) == Smaller(Amount(a, d), Amount(b, d)) {
      CappedAmounts(a, b, d);
    }
    RemoveZeroMeaning(Capped(a, b));
    MaxMinValid(a, b);
    var r := Intersect(a, b).value;
    ValidFromAmounts(r);
    SameAmounts(r, Min(a, b).value);
  }
}
