/** Coin sets (`types/coin.go`): lists of coins kept sorted by denomination. */
module Coins {
  import opened Bytes

  /** 2^256: the amounts of `Int` stay below it in magnitude. */
  const INT_BOUND: int := 0x1_0000_0000_0000_0000_0000_0000_0000_0000_0000_0000_0000_0000_0000_0000_0000_0000

  datatype Coin = Coin(denom: bytes, amount: int)

  type Coins = seq<Coin>

  predicate IsLetter(c: byte) {
    65 <= c <= 90 || 97 <= c <= 122
  }

  /** A letter, then 2 to 127 letters, digits, slashes or dashes. */
  predicate ValidDenom(d: bytes) {
    && 3 <= |d| <= 128
    && IsLetter(d[0])
    && forall i :: 1 <= i < |d| ==> IsLetter(d[i]) || 48 <= d[i] <= 57 || d[i] == 47 || d[i] == 45
  }

  /** Strictly ascending denominations: no denomination occurs twice. */
  predicate Canonical(s: Coins) {
    forall i, j :: 0 <= i < j < |s| ==> Less(s[i].denom, s[j].denom)
  }

  /** A valid set: canonical, valid denominations, positive amounts. */
  predicate Valid(s: Coins) {
    && Canonical(s)
    && forall i :: 0 <= i < |s| ==> ValidDenom(s[i].denom) && s[i].amount > 0
  }

  /** All amounts lie below a bound in magnitude. */
  predicate Bounded(s: Coins, bound: int) {
    bound > 0 && forall i :: 0 <= i < |s| ==> -bound < s[i].amount < bound
  }

  /** Reference meaning of a list of coins: the amount at the first occurrence of a denomination. */
  function Amount(s: Coins, d: bytes): int {
    if s == [] then 0 else if s[0].denom == d then s[0].amount else Amount(s[1..], d)
  }

  lemma {:induction false} AmountAbsent(s: Coins, d: bytes)
    requires forall i :: 0 <= i < |s| ==> s[i].denom != d
    ensures Amount(s, d) == 0
  {
    if s != [] {
      AmountAbsent(s[1..], d);
    }
  }

  lemma {:induction false} AmountAt(s: Coins, i: nat)
    requires Canonical(s) && i < |s|
    ensures Amount(s, s[i].denom) == s[i].amount
  {
    if i > 0 {
      Trichotomy(s[0].denom, s[i].denom);
      assert s[i] == s[1..][i - 1];
      AmountAt(s[1..], i - 1);
    }
  }

  /** A valid set of `Coins`, whose amounts are `Int`s. */
  predicate ValidSet(s: Coins) {
    Valid(s) && Bounded(s, INT_BOUND)
  }

  lemma {:induction false} AmountBounded(s: Coins, bound: int, d: bytes)
    requires Bounded(s, bound)
    ensures -bound < Amount(s, d) < bound
  {
    if s != [] {
      AmountBounded(s[1..], bound, d);
    }
  }

  predicate AllAbove(d: bytes, s: Coins) {
    forall i :: 0 <= i < |s| ==> Less(d, s[i].denom)
  }

  /** Two canonical lists without zero coins that agree on all amounts are the same list. */
  lemma {:induction false} CanonicalExtensional(a: Coins, b: Coins)
    requires Canonical(a) && Canonical(b)
    requires forall i :: 0 <= i < |a| ==> a[i].amount != 0
    requires forall i :: 0 <= i < |b| ==> b[i].amount != 0
    requires forall d :: Amount(a, d) == Amount(b, d)
    ensures a == b
    decreases |a|
  {
    if a == [] || b == [] {
      assert a != [] ==> Amount(a, a[0].denom) != 0;
      assert b != [] ==> Amount(b, b[0].denom) != 0;
    } else {
      var x, y := a[0].denom, b[0].denom;
      assert Amount(a, x) == Amount(b, x) && Amount(a, y) == Amount(b, y);
      HeadIsLeast(a, y);
      HeadIsLeast(b, x);
      Trichotomy(x, y);
      assert a[0] == b[0];
      forall d ensures Amount(a[1..], d) == Amount(b[1..], d) {
        assert Amount(a, d) == Amount(b, d);
        if d == x {
          HeadGone(a);
          HeadGone(b);
        }
      }
      CanonicalExtensional(a[1..], b[1..]);
      assert a == [a[0]] + a[1..] && b == [b[0]] + b[1..];
    }
  }

  lemma HeadIsLeast(s: Coins, d: bytes)
    requires s != [] && Canonical(s) && Amount(s, d) != 0
    ensures !Less(d, s[0].denom)
  {
    if Less(d, s[0].denom) {
      TotalOrder();
      AmountAbsent(s, d);
    }
  }

  lemma HeadGone(s: Coins)
    requires s != [] && Canonical(s)
    ensures Amount(s[1..], s[0].denom) == 0
  {
    TotalOrder();
    AmountAbsent(s[1..], s[0].denom);
  }

  // ---- Validate ----

  /** `Validate` with its map of seen denominations; true when no error is returned. */
  method Validate(s: Coins) returns (ok: bool)
    ensures ok <==> Valid(s)
  {
    if |s| == 0 {
      return true;
    }
    if !ValidDenom(s[0].denom) || s[0].amount <= 0 {
      assert !Valid(s);
      return false;
    }
    var lowDenom := s[0].denom;
    var seenDenoms := {lowDenom};
    for i := 1 to |s|
      invariant lowDenom == s[i - 1].denom
      invariant forall d :: d in seenDenoms <==> exists j :: 0 <= j < i && s[j].denom == d
      invariant Valid(s[..i])
    {
      var coin := s[i];
      if coin.denom in seenDenoms {
        var j :| 0 <= j < i && s[j].denom == coin.denom;
        Trichotomy(s[j].denom, coin.denom);
        return false;
      }
      if !ValidDenom(coin.denom) {
        return false;
      }
      if LessEq(coin.denom, lowDenom) {
        Trichotomy(coin.denom, lowDenom);
        assert !Less(s[i - 1].denom, s[i].denom);
        return false;
      }
      if coin.amount <= 0 {
        return false;
      }
      Trichotomy(coin.denom, lowDenom);
      ValidAppend(s[..i], coin);
      assert s[..i + 1] == s[..i] + [coin];
      lowDenom := coin.denom;
      seenDenoms := seenDenoms + {coin.denom};
    }
    assert s[..|s|] == s;
    ok := true;
  }

  lemma ValidAppend(s: Coins, c: Coin)
    requires Valid(s) && s != [] && Less(s[|s| - 1].denom, c.denom) && ValidDenom(c.denom) && c.amount > 0
    ensures Valid(s + [c])
  {
    var t := s + [c];
    forall i, j | 0 <= i < j < |t| ensures Less(t[i].denom, t[j].denom) {
      if j == |s| && i < |s| - 1 {
        LessTransitive(s[i].denom, s[|s| - 1].denom, c.denom);
      }
    }
  }

  // ---- AmountOf ----

  /** `AmountOfNoDenomValidation`: binary search by recursion on halves. */
  function AmountOf(s: Coins, d: bytes): int
    decreases |s|
  {
    if |s| == 0 then 0
    else if |s| == 1 then (if s[0].denom == d then s[0].amount else 0)
    else
      var mid := |s| / 2;
      if Less(d, s[mid].denom) then AmountOf(s[..mid], d)
      else if d == s[mid].denom then s[mid].amount
      else AmountOf(s[mid + 1..], d)
  }

  /** On canonical lists the binary search reads the reference meaning. */
  lemma {:induction false} AmountOfIsAmount(s: Coins, d: bytes)
    requires Canonical(s)
    ensures AmountOf(s, d) == Amount(s, d)
    decreases |s|
  {
    hide Less, Amount;
    if |s| >= 2 {
      var mid := |s| / 2;
      var m := s[mid].denom;
      Trichotomy(d, m);
      if Less(d, m) {
        AmountOfIsAmount(s[..mid], d);
        OtherHalf(s, mid, d);
        AmountPrefix(s, mid, d);
      } else if d == m {
        AmountAt(s, mid);
      } else {
        AmountOfIsAmount(s[mid + 1..], d);
        OtherHalf(s, mid, d);
        AmountSuffix(s, mid + 1, d);
      }
    } else {
      AmountOfShort(s, d);
    }
  }

  lemma AmountOfShort(s: Coins, d: bytes)
    requires |s| < 2
    ensures AmountOf(s, d) == Amount(s, d)
  {
    if |s| == 1 {
      assert s[1..] == [];
    }
  }

  /** A denomination on one side of the middle does not occur on the other. */
  lemma OtherHalf(s: Coins, mid: nat, d: bytes)
    requires Canonical(s) && mid < |s|
    ensures Less(d, s[mid].denom) ==> forall i :: mid <= i < |s| ==> s[i].denom != d
    ensures Less(s[mid].denom, d) ==> forall i :: 0 <= i <= mid ==> s[i].denom != d
  {
    TotalOrder();
  }

  lemma {:induction false} AmountPrefix(s: Coins, k: nat, d: bytes)
    requires k <= |s| && forall i :: k <= i < |s| ==> s[i].denom != d
    ensures Amount(s[..k], d) == Amount(s, d)
    decreases k
  {
    if k == 0 {
      AmountAbsent(s, d);
    } else {
      assert s[..k][1..] == s[1..][..k - 1];
      AmountPrefix(s[1..], k - 1, d);
    }
  }

  lemma {:induction false} AmountSuffix(s: Coins, k: nat, d: bytes)
    requires k <= |s| && forall i :: 0 <= i < k ==> s[i].denom != d
    ensures Amount(s[k..], d) == Amount(s, d)
    decreases k
  {
    if k > 0 {
      AmountSuffix(s[1..], k - 1, d);
      assert s[1..][k - 1..] == s[k..];
    }
  }
}
