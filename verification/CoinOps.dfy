/** The merge behind the addition of coin sets, its loops and what it means. */
module CoinOps {
  import opened Bytes
  import opened Coins

  /** A checked sum: `Int.Add` panics beyond 256 bits, `Dec.Add` beyond 316. */
  function CheckedSum(x: int, bound: int): Option<int> {
    if -bound < x < bound then Some(x) else None
  }

  function RemoveZero(s: Coins): Coins {
    if s == [] then []
    else (if s[0].amount == 0 then [] else [s[0]]) + RemoveZero(s[1..])
  }

  function NonZero(c: Coin): Coins {
    if c.amount == 0 then [] else [c]
  }

  /** The merge of `safeAdd`; `None` where a sum overflows. */
  function AddMerge(a: Coins, b: Coins, bound: int): Option<Coins>
    decreases |a| + |b|
  {
    if a == [] then Some(RemoveZero(b))
    else if b == [] then Some(RemoveZero(a))
    else if Less(a[0].denom, b[0].denom) then Prepend(NonZero(a[0]), AddMerge(a[1..], b, bound))
    else if a[0].denom == b[0].denom then
      match CheckedSum(a[0].amount + b[0].amount, bound)
      case None => None
      case Some(sum) => Prepend(NonZero(Coin(a[0].denom, sum)), AddMerge(a[1..], b[1..], bound))
    else Prepend(NonZero(b[0]), AddMerge(a, b[1..], bound))
  }

  function Prepend(c: Coins, rest: Option<Coins>): Option<Coins> {
    if rest.None? then None else Some(c + rest.value)
  }

  predicate IsSorted(s: Coins) {
    forall i :: 1 <= i < |s| ==> !Less(s[i].denom, s[i - 1].denom)
  }

  /** `safeAdd`; `None` is a panic. */
  function SafeAdd(a: Coins, b: Coins): Option<Coins> {
    if !IsSorted(a) || !IsSorted(b) then None else AddMerge(a, b, INT_BOUND)
  }

  /** The loops of `removeZeroCoins`. */
  method RemoveZeroCoins(s: Coins) returns (r: Coins)
    ensures r == RemoveZero(s)
  {
    r := [];
    for i := 0 to |s|
      invariant RemoveZero(s) == r + RemoveZero(s[i..])
    {
      assert s[i..][1..] == s[i + 1..];
      if s[i].amount != 0 {
        assert r + ([s[i]] + RemoveZero(s[i + 1..])) == (r + [s[i]]) + RemoveZero(s[i + 1..]);
        r := r + [s[i]];
      } else {
        assert [] + RemoveZero(s[i + 1..]) == RemoveZero(s[i + 1..]);
      }
    }
    assert r + [] == r;
  }

  method CheckSorted(s: Coins) returns (ok: bool)
    ensures ok <==> IsSorted(s)
  {
    var i := 1;
    while i < |s|
      invariant 1 <= i
      invariant forall j :: 1 <= j < i && j < |s| ==> !Less(s[j].denom, s[j - 1].denom)
    {
      if Less(s[i].denom, s[i - 1].denom) { return false; }
      i := i + 1;
    }
    ok := true;
  }

  /** `safeAdd`. */
  method SafeAddLoop(a: Coins, b: Coins) returns (r: Option<Coins>)
    ensures r == SafeAdd(a, b)
  {
    var sortedA := CheckSorted(a);
    if !sortedA { return None; }
    var sortedB := CheckSorted(b);
    if !sortedB { return None; }
    r := AddMergeLoop(a, b, INT_BOUND);
  }

  /** The loop of `safeAdd`, with two indices. */
  method AddMergeLoop(a: Coins, b: Coins, bound: int) returns (r: Option<Coins>)
    ensures r == AddMerge(a, b, bound)
  {
    hide RemoveZero;
    var sum: Coins := [];
    var i, j := 0, 0;
    assert a[0..] == a && b[0..] == b;
    ghost var whole := AddMerge(a, b, bound);
    assert whole.Some? ==> [] + whole.value == whole.value;
    while true
      invariant 0 <= i <= |a| && 0 <= j <= |b|
      invariant whole == Prepend(sum, AddMerge(a[i..], b[j..], bound))
      decreases |a| - i + |b| - j
    {
      if i == |a| {
        var rest := RemoveZeroCoins(b[j..]);
        return Some(sum + rest);
      } else if j == |b| {
        var rest := RemoveZeroCoins(a[i..]);
        return Some(sum + rest);
      }
      var coinA, coinB := a[i], b[j];
      ghost var before := sum;
      assert a[i..][1..] == a[i + 1..] && b[j..][1..] == b[j + 1..];
      if Less(coinA.denom, coinB.denom) {
        sum := sum + NonZero(coinA);
        PrependTwice(before, NonZero(coinA), AddMerge(a[i + 1..], b[j..], bound));
        i := i + 1;
      } else if coinA.denom == coinB.denom {
        var res := CheckedSum(coinA.amount + coinB.amount, bound);
        if res.None? { return None; }
        var c := NonZero(Coin(coinA.denom, res.value));
        sum := sum + c;
        PrependTwice(before, c, AddMerge(a[i + 1..], b[j + 1..], bound));
        i, j := i + 1, j + 1;
      } else {
        sum := sum + NonZero(coinB);
        PrependTwice(before, NonZero(coinB), AddMerge(a[i..], b[j + 1..], bound));
        j := j + 1;
      }
    }
  }

  lemma PrependTwice(a: Coins, b: Coins, rest: Option<Coins>)
    ensures Prepend(a, Prepend(b, rest)) == Prepend(a + b, rest)
  {
    if rest.Some? {
      assert a + (b + rest.value) == (a + b) + rest.value;
    }
  }

  // ---- Pointwise meaning ----

  predicate NoZero(s: Coins) {
    forall i :: 0 <= i < |s| ==> s[i].amount != 0
  }

  /** `r` is `s` without its zero coins: no amount changes, order is kept, nothing is added. */
  ghost predicate WithoutZeros(s: Coins, r: Coins) {
    && Canonical(r) && NoZero(r)
    && (forall d :: Amount(r, d) == Amount(s, d))
    && (forall d :: AllAbove(d, s) ==> AllAbove(d, r))
    && (NoZero(s) ==> r == s)
    && (forall c :: c in r ==> c in s)
  }

  lemma {:induction false} RemoveZeroMeaning(s: Coins)
    requires Canonical(s)
    ensures WithoutZeros(s, RemoveZero(s))
  {
    hide WithoutZeros, Less;
    if s == [] {
      NothingToRemove();
    } else {
      RemoveZeroMeaning(s[1..]);
      RemoveStep(s, RemoveZero(s[1..]));
    }
  }

  lemma NothingToRemove()
    ensures WithoutZeros([], [])
  {
  }

  lemma RemoveStep(s: Coins, tail: Coins)
    requires s != [] && Canonical(s) && WithoutZeros(s[1..], tail)
    ensures WithoutZeros(s, NonZero(s[0]) + tail)
  {
    hide Less;
    var c, r := s[0], NonZero(s[0]) + tail;
    assert AllAbove(c.denom, s[1..]);
    PrependMeaning(c, tail);
    forall d ensures Amount(r, d) == Amount(s, d) {
      assert Amount(tail, d) == Amount(s[1..], d);
    }
    forall d | AllAbove(d, s) ensures AllAbove(d, r) {
      assert AllAbove(d, s[1..]) && Less(d, c.denom);
    }
    assert s == [c] + s[1..];
  }

  /** Putting one coin below a canonical list, or leaving it out when it is zero. */
  lemma PrependMeaning(c: Coin, tail: Coins)
    requires Canonical(tail) && NoZero(tail) && AllAbove(c.denom, tail)
    ensures var r := NonZero(c) + tail;
            && Canonical(r) && NoZero(r)
            && (forall d :: Amount(r, d) == if d == c.denom then c.amount else Amount(tail, d))
            && (forall d :: Less(d, c.denom) && AllAbove(d, tail) ==> AllAbove(d, r))
  {
    var r := NonZero(c) + tail;
    assert forall i :: 0 <= i < |tail| ==> tail[i].denom != c.denom by { TotalOrder(); }
    AmountAbsent(tail, c.denom);
    if c.amount == 0 {
      assert r == tail;
    } else {
      assert r[1..] == tail;
    }
  }

  predicate SumsFit(a: Coins, b: Coins, bound: int, d: bytes) {
    -bound < Amount(a, d) + Amount(b, d) < bound
  }

  /** `r` is the pointwise sum of `a` and `b`, canonical and without zero coins, or a panic because
      some sum does not fit. */
  ghost predicate IsSum(a: Coins, b: Coins, bound: int, r: Option<Coins>) {
    && (r.Some? <==> forall d :: SumsFit(a, b, bound, d))
    && (r.Some? ==>
          && Canonical(r.value) && NoZero(r.value)
          && (forall d :: Amount(r.value, d) == Amount(a, d) + Amount(b, d))
          && (forall d :: AllAbove(d, a) && AllAbove(d, b) ==> AllAbove(d, r.value)))
  }

  /** On canonical lists the merge is the pointwise sum. */
  lemma {:induction false} AddMeaning(a: Coins, b: Coins, bound: int)
    requires Canonical(a) && Canonical(b) && Bounded(a, bound) && Bounded(b, bound)
    ensures IsSum(a, b, bound, AddMerge(a, b, bound))
    decreases |a| + |b|
  {
    hide IsSum, Less;
    if a == [] {
      SumWithEmpty(b, bound);
    } else if b == [] {
      SumWithEmpty(a, bound);
    } else {
      var x, y := a[0], b[0];
      Trichotomy(x.denom, y.denom);
      if Less(x.denom, y.denom) {
        AddMeaning(a[1..], b, bound);
        OneSided(a, b);
        AddStep(x, a, b, a[1..], b, bound, AddMerge(a[1..], b, bound));
      } else if x.denom == y.denom {
        AddMeaning(a[1..], b[1..], bound);
        HeadGone(a);
        HeadGone(b);
        var sum := CheckedSum(x.amount + y.amount, bound);
        if sum.Some? {
          AddStep(Coin(x.denom, sum.value), a, b, a[1..], b[1..], bound, AddMerge(a[1..], b[1..], bound));
        } else {
          SumOverflows(a, b, bound, x.denom);
        }
      } else {
        AddMeaning(a, b[1..], bound);
        OneSided(b, a);
        AddStep(y, a, b, a, b[1..], bound, AddMerge(a, b[1..], bound));
      }
    }
  }

  lemma SumWithEmpty(s: Coins, bound: int)
    requires Canonical(s) && Bounded(s, bound)
    ensures IsSum(s, [], bound, Some(RemoveZero(s))) && IsSum([], s, bound, Some(RemoveZero(s)))
  {
    RemoveZeroMeaning(s);
    forall d ensures SumsFit(s, [], bound, d) && SumsFit([], s, bound, d) {
      AmountBounded(s, bound, d);
    }
  }

  lemma SumOverflows(a: Coins, b: Coins, bound: int, d: bytes)
    requires !SumsFit(a, b, bound, d)
    ensures IsSum(a, b, bound, None)
  {
  }

  /** The head of `s` is below all of `t`. */
  lemma OneSided(s: Coins, t: Coins)
    requires s != [] && t != [] && Less(s[0].denom, t[0].denom) && Canonical(s) && Canonical(t)
    ensures AllAbove(s[0].denom, s[1..]) && AllAbove(s[0].denom, t)
    ensures Amount(t, s[0].denom) == 0 && Amount(s[1..], s[0].denom) == 0
  {
    TotalOrder();
    AmountAbsent(t, s[0].denom);
    AmountAbsent(s[1..], s[0].denom);
  }

  /** One step of the merge: `c` holds the sum for the least denomination. */
  lemma AddStep(c: Coin, a: Coins, b: Coins, a': Coins, b': Coins, bound: int, rest: Option<Coins>)
    requires -bound < c.amount < bound
    requires AllAbove(c.denom, a') && AllAbove(c.denom, b')
    requires forall d :: Amount(a, d) + Amount(b, d) == if d == c.denom then c.amount else Amount(a', d) + Amount(b', d)
    requires Amount(a', c.denom) == 0 && Amount(b', c.denom) == 0
    requires forall d :: AllAbove(d, a) && AllAbove(d, b) ==> Less(d, c.denom) && AllAbove(d, a') && AllAbove(d, b')
    requires IsSum(a', b', bound, rest)
    ensures IsSum(a, b, bound, Prepend(NonZero(c), rest))
  {
    forall d ensures SumsFit(a, b, bound, d) <==> d == c.denom || SumsFit(a', b', bound, d) {
    }
    assert SumsFit(a', b', bound, c.denom);
    if rest.Some? {
      PrependMeaning(c, rest.value);
    }
  }
}
