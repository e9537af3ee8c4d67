/** Compact bit arrays (`crypto/types/compact_bit_array.go`): bits packed into bytes, the first bit of
    a byte being its most significant one. */
module BitArray {
  import opened Bytes

  // ---- Bits of a byte ----

  /** `1 << uint8(7-k)` */
  function Mask(k: int): bv8
    requires 0 <= k < 8
  {
    if k == 0 then 0x80 else if k == 1 then 0x40 else if k == 2 then 0x20 else if k == 3 then 0x10
    else if k == 4 then 8 else if k == 5 then 4 else if k == 6 then 2 else 1
  }

  /** `x >> n` */
  function ShiftRight(x: bv8, n: int): bv8
    requires 0 <= n <= 8
  {
    if n == 0 then x else if n == 1 then x >> 1 else if n == 2 then x >> 2 else if n == 3 then x >> 3
    else if n == 4 then x >> 4 else if n == 5 then x >> 5 else if n == 6 then x >> 6 else if n == 7 then x >> 7
    else 0
  }

  predicate Test(x: bv8, k: int)
    requires 0 <= k < 8
  {
    x & Mask(k) > 0
  }

  lemma MasksDisjoint(k: int, j: int)
    requires 0 <= k < 8 && 0 <= j < 8
    ensures Mask(k) > 0 && (k != j ==> Mask(k) & Mask(j) == 0)
  {
  }

  /** `|= (1 << uint8(7-k))` or `&= ^(1 << uint8(7-k))` */
  function Updated(x: bv8, k: int, v: bool): bv8
    requires 0 <= k < 8
  {
    if v then x | Mask(k) else x & !Mask(k)
  }

  lemma SameMask(x: bv8, m: bv8)
    requires m > 0
    ensures (x | m) & m > 0 && (x & !m) & m == 0
  {
  }

  lemma OtherMask(x: bv8, m: bv8, n: bv8)
    requires m & n == 0
    ensures (x | m) & n == x & n && (x & !m) & n == x & n
  {
  }

  lemma TestUpdated(x: bv8, k: int, v: bool)
    requires 0 <= k < 8
    ensures Test(Updated(x, k, v), k) == v
  {
    hide Mask;
    MasksDisjoint(k, k);
    SameMask(x, Mask(k));
  }

  lemma TestOthers(x: bv8, k: int, v: bool, j: int)
    requires 0 <= k < 8 && 0 <= j < 8 && j != k
    ensures Test(Updated(x, k, v), j) == Test(x, j)
  {
    hide Mask;
    MasksDisjoint(k, j);
    OtherMask(x, Mask(k), Mask(j));
  }

  function Digit(b: bool): nat {
    if b then 1 else 0
  }

  /** `bits.OnesCount8` */
  function OnesCount8(x: bv8): nat {
    Digit(x & 0x80 > 0) + Digit(x & 0x40 > 0) + Digit(x & 0x20 > 0) + Digit(x & 0x10 > 0)
    + Digit(x & 8 > 0) + Digit(x & 4 > 0) + Digit(x & 2 > 0) + Digit(x & 1 > 0)
  }

  /** The ones among the first `m` bits. */
  function Leading(x: bv8, m: int): nat
    requires 0 <= m <= 8
  {
    if m == 0 then 0 else Leading(x, m - 1) + Digit(Test(x, m - 1))
  }

  lemma LeadingStep(x: bv8, m: int)
    requires 0 <= m < 8
    ensures Leading(x, 0) == 0
    ensures Leading(x, m + 1) == Leading(x, m) + Digit(x & Mask(m) > 0)
  {
    hide Mask, Digit;
  }

  lemma LeadingTable(x: bv8)
    ensures Leading(x, 0) == 0
    ensures Leading(x, 1) == Digit(x & 0x80 > 0)
    ensures Leading(x, 2) == Leading(x, 1) + Digit(x & 0x40 > 0)
    ensures Leading(x, 3) == Leading(x, 2) + Digit(x & 0x20 > 0)
    ensures Leading(x, 4) == Leading(x, 3) + Digit(x & 0x10 > 0)
    ensures Leading(x, 5) == Leading(x, 4) + Digit(x & 8 > 0)
    ensures Leading(x, 6) == Leading(x, 5) + Digit(x & 4 > 0)
    ensures Leading(x, 7) == Leading(x, 6) + Digit(x & 2 > 0)
    ensures Leading(x, 8) == Leading(x, 7) + Digit(x & 1 > 0)
  {
    hide Digit, Leading;
    LeadingStep(x, 0); LeadingStep(x, 1); LeadingStep(x, 2); LeadingStep(x, 3);
    LeadingStep(x, 4); LeadingStep(x, 5); LeadingStep(x, 6); LeadingStep(x, 7);
  }

  lemma ShiftTable(x: bv8)
    ensures OnesCount8(0) == 0
    ensures OnesCount8(x >> 7) == Digit(x & 0x80 > 0)
    ensures OnesCount8(x >> 6) == OnesCount8(x >> 7) + Digit(x & 0x40 > 0)
    ensures OnesCount8(x >> 5) == OnesCount8(x >> 6) + Digit(x & 0x20 > 0)
    ensures OnesCount8(x >> 4) == OnesCount8(x >> 5) + Digit(x & 0x10 > 0)
    ensures OnesCount8(x >> 3) == OnesCount8(x >> 4) + Digit(x & 8 > 0)
    ensures OnesCount8(x >> 2) == OnesCount8(x >> 3) + Digit(x & 4 > 0)
    ensures OnesCount8(x >> 1) == OnesCount8(x >> 2) + Digit(x & 2 > 0)
    ensures OnesCount8(x) == OnesCount8(x >> 1) + Digit(x & 1 > 0)
  {
  }

  /** Shifting by 8 - m leaves the first `m` bits to count. */
  lemma {:induction false} ShiftKeepsLeading(x: bv8, m: int)
    requires 0 <= m <= 8
    ensures OnesCount8(ShiftRight(x, 8 - m)) == Leading(x, m)
  {
    hide OnesCount8, Leading, Digit;
    LeadingTable(x);
    ShiftTable(x);
  }

  // ---- Packed arrays ----

  datatype Packed = Packed(extra: nat, elems: seq<bv8>)

  predicate WellFormed(p: Packed) {
    p.extra < 8 && (p.extra > 0 ==> p.elems != [])
  }

  function Count(p: Packed): int {
    if p.extra == 0 then |p.elems| * 8 else (|p.elems| - 1) * 8 + p.extra
  }

  predicate BitAt(elems: seq<bv8>, i: int)
    requires 0 <= i < 8 * |elems|
  {
    Test(elems[i / 8], i % 8)
  }

  /** All bits stored, padding included. */
  function Stored(elems: seq<bv8>): (s: seq<bool>)
    ensures |s| == 8 * |elems|
    ensures forall i :: 0 <= i < |s| ==> s[i] == BitAt(elems, i)
  {
    seq(8 * |elems|, i requires 0 <= i < 8 * |elems| => BitAt(elems, i))
  }

  /** The sequence of booleans an array stands for. */
  function Bits(p: Packed): (s: seq<bool>)
    requires WellFormed(p)
    ensures |s| == Count(p)
  {
    Stored(p.elems)[..Count(p)]
  }

  predicate PaddingClear(p: Packed)
    requires WellFormed(p)
  {
    forall i :: Count(p) <= i < 8 * |p.elems| ==> !BitAt(p.elems, i)
  }

  /** What `SetIndex` does to an array. */
  function SetAt(p: Packed, i: int, v: bool): Packed
    requires WellFormed(p)
  {
    if i < 0 || i >= Count(p) then p
    else
      p.(elems := p.elems[i / 8 := Updated(p.elems[i / 8], i % 8, v)])
  }

  lemma StoredAfterSet(p: Packed, i: int, v: bool)
    requires WellFormed(p) && 0 <= i < Count(p)
    ensures Stored(SetAt(p, i, v).elems) == Stored(p.elems)[i := v]
  {
    hide Updated, Test;
    var q := SetAt(p, i, v);
    forall j | 0 <= j < 8 * |p.elems| ensures BitAt(q.elems, j) == if j == i then v else BitAt(p.elems, j) {
      if j / 8 == i / 8 {
        if j == i {
          TestUpdated(p.elems[i / 8], i % 8, v);
        } else {
          TestOthers(p.elems[i / 8], i % 8, v, j % 8);
        }
      }
    }
  }

  /** `SetIndex` is the update of the boolean sequence, and leaves the padding alone. */
  lemma {:induction false} SetRefines(p: Packed, i: int, v: bool)
    requires WellFormed(p)
    ensures WellFormed(SetAt(p, i, v)) && Count(SetAt(p, i, v)) == Count(p)
    ensures Bits(SetAt(p, i, v)) == if 0 <= i < Count(p) then Bits(p)[i := v] else Bits(p)
    ensures PaddingClear(p) ==> PaddingClear(SetAt(p, i, v))
  {
    hide Updated, BitAt;
    if 0 <= i < Count(p) {
      StoredAfterSet(p, i, v);
      var q := SetAt(p, i, v);
      forall j | PaddingClear(p) && Count(q) <= j < 8 * |q.elems| ensures !BitAt(q.elems, j) {
        assert Stored(q.elems)[j] == Stored(p.elems)[j];
      }
    }
  }

  /** Any run of `SetIndex` calls. */
  function Run(p: Packed, ops: seq<(int, bool)>): (q: Packed)
    requires WellFormed(p)
    ensures WellFormed(q)
    decreases |ops|
  {
    if ops == [] then p else
      SetRefines(p, ops[0].0, ops[0].1);
      Run(SetAt(p, ops[0].0, ops[0].1), ops[1..])
  }

  function RunOnBits(s: seq<bool>, ops: seq<(int, bool)>): seq<bool>
    decreases |ops|
  {
    if ops == [] then s
    else RunOnBits(if 0 <= ops[0].0 < |s| then s[ops[0].0 := ops[0].1] else s, ops[1..])
  }

  lemma {:induction false} RunRefines(p: Packed, ops: seq<(int, bool)>)
    requires WellFormed(p)
    ensures Bits(Run(p, ops)) == RunOnBits(Bits(p), ops)
    ensures PaddingClear(p) ==> PaddingClear(Run(p, ops))
    decreases |ops|
  {
    hide SetAt, PaddingClear;
    if ops != [] {
      SetRefines(p, ops[0].0, ops[0].1);
      RunRefines(SetAt(p, ops[0].0, ops[0].1), ops[1..]);
    }
  }

  // ---- Equality ----

  lemma SameTests(x: bv8, y: bv8)
    requires forall k :: 0 <= k < 8 ==> Test(x, k) == Test(y, k)
    ensures x == y
  {
    assert Test(x, 0) == Test(y, 0) && Test(x, 1) == Test(y, 1) && Test(x, 2) == Test(y, 2) && Test(x, 3) == Test(y, 3);
    assert Test(x, 4) == Test(y, 4) && Test(x, 5) == Test(y, 5) && Test(x, 6) == Test(y, 6) && Test(x, 7) == Test(y, 7);
    SameMasked(x, y);
  }

  lemma SameMasked(x: bv8, y: bv8)
    requires (x & 0x80 > 0) == (y & 0x80 > 0) && (x & 0x40 > 0) == (y & 0x40 > 0)
    requires (x & 0x20 > 0) == (y & 0x20 > 0) && (x & 0x10 > 0) == (y & 0x10 > 0)
    requires (x & 8 > 0) == (y & 8 > 0) && (x & 4 > 0) == (y & 4 > 0)
    requires (x & 2 > 0) == (y & 2 > 0) && (x & 1 > 0) == (y & 1 > 0)
    ensures x == y
  {
  }

  /** `Equal` compares representations; where the padding is clear that is equality of bits. */
  lemma {:induction false} EqualMeaning(p: Packed, q: Packed)
    requires WellFormed(p) && WellFormed(q) && PaddingClear(p) && PaddingClear(q)
    ensures p.extra == q.extra && p.elems == q.elems <==> Bits(p) == Bits(q)
  {
    hide Test;
    if Bits(p) == Bits(q) {
      assert Count(p) == Count(q);
      assert p.extra == q.extra && |p.elems| == |q.elems|;
      forall e | 0 <= e < |p.elems| ensures p.elems[e] == q.elems[e] {
        forall k | 0 <= k < 8 ensures Test(p.elems[e], k) == Test(q.elems[e], k) {
          var i := 8 * e + k;
          assert i / 8 == e && i % 8 == k;
          assert BitAt(p.elems, i) == BitAt(q.elems, i) by {
            if i < Count(p) {
              assert Bits(p)[i] == Bits(q)[i];
            }
          }
        }
        SameTests(p.elems[e], q.elems[e]);
      }
    }
  }

  // ---- Counting ----

  function Trues(s: seq<bool>): nat {
    if s == [] then 0 else Trues(s[..|s| - 1]) + Digit(s[|s| - 1])
  }

  /** The first `m` bits of byte `e` come after the bits of the bytes before it. */
  lemma {:induction false} TruesInByte(elems: seq<bv8>, e: nat, m: nat)
    requires e < |elems| && m <= 8
    ensures Trues(Stored(elems)[..8 * e + m]) == Trues(Stored(elems)[..8 * e]) + Leading(elems[e], m)
    decreases m
  {
    hide Test, Digit;
    if m > 0 {
      TruesInByte(elems, e, m - 1);
      var t := Stored(elems)[..8 * e + m];
      assert t[..|t| - 1] == Stored(elems)[..8 * e + (m - 1)];
      var i := 8 * e + (m - 1);
      assert i / 8 == e && i % 8 == m - 1;
      assert t[|t| - 1] == BitAt(elems, i);
    }
  }

  /** Shifting the rest of a byte out leaves its first `m` bits to count. */
  lemma CountInByte(elems: seq<bv8>, e: nat, m: nat)
    requires e < |elems| && m <= 8
    ensures Trues(Stored(elems)[..8 * e + m]) == Trues(Stored(elems)[..8 * e]) + OnesCount8(ShiftRight(elems[e], 8 - m))
  {
    hide Trues, Stored, OnesCount8, Leading;
    TruesInByte(elems, e, m);
    ShiftKeepsLeading(elems[e], m);
  }

  lemma CountByte(elems: seq<bv8>, e: nat)
    requires e < |elems|
    ensures Trues(Stored(elems)[..8 * e + 8]) == Trues(Stored(elems)[..8 * e]) + OnesCount8(elems[e])
  {
    hide Trues, Stored, OnesCount8;
    CountInByte(elems, e, 8);
  }

  lemma BitsPrefix(p: Packed, n: nat)
    requires WellFormed(p) && n <= Count(p)
    ensures Bits(p)[..n] == Stored(p.elems)[..n]
  {
  }

  function Clamp(index: int, n: nat): nat {
    if index < 0 then 0 else if index > n then n else index
  }

  /** `NumTrueBitsBefore`; `None` is the index out of range. A negative index shifts all of the
      first byte out. */
  method NumTrueBitsBefore(p: Packed, index: int) returns (r: Option<nat>)
    requires WellFormed(p)
    ensures r.None? <==> Count(p) == 0 || (index >= Count(p) && Count(p) % 8 == 0)
    ensures r.Some? ==> r.value == Trues(Bits(p)[..Clamp(index, Count(p))])
  {
    hide OnesCount8, Stored, Bits, Trues;
    var ones: nat := 0;
    var max := Count(p);
    var index' := if index > max then max else index;
    var elem: nat := 0;
    assert Trues(Stored(p.elems)[..0]) == 0 by { NoBits(Stored(p.elems)); }
    while true
      invariant elem <= |p.elems| && (elem > 0 ==> 8 * elem <= index')
      invariant ones == Trues(Stored(p.elems)[..8 * elem])
      decreases |p.elems| - elem
    {
      if elem == |p.elems| {
        return None;
      }
      if elem * 8 + 7 >= index' {
        var m: nat := if index' < 0 then 0 else index' % 8;
        BitsPrefix(p, Clamp(index, max));
        assert Clamp(index, max) == 8 * elem + m;
        CountInByte(p.elems, elem, m);
        ones := ones + OnesCount8(ShiftRight(p.elems[elem], 8 - m));
        return Some(ones);
      }
      CountByte(p.elems, elem);
      ones := ones + OnesCount8(p.elems[elem]);
      elem := elem + 1;
    }
  }

  lemma NoBits(s: seq<bool>)
    ensures Trues(s[..0]) == 0
  {
  }

  /** Counting before the end of a whole number of bytes runs off the array. */
  method CountRunsOff() returns (r: Option<nat>)
    ensures r.None?
  {
    r := NumTrueBitsBefore(Packed(0, [0xFF]), 8);
  }
}
