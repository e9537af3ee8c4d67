/** The height below which blocks may be pruned (`GetBlockRetentionHeight` in `baseapp/abci.go`). */
module Retention {
  import opened Bytes
  import opened Gas

  /** A number in 64-bit two's complement: `int64(x)` and the result of 64-bit arithmetic. */
  function Wrap(x: int): int64 {
    var r := x % TWO64;
    if r < TWO63 then r else r - TWO64
  }

  /** The settings read: evidence age if any, state pruning, snapshots and the local minimum. */
  datatype Settings = Settings(maxAge: Option<int64>, keepEvery: uint64, interval: uint64, keepRecent: uint64,
                               minRetain: uint64)

  predicate EvidenceActive(c: Settings) {
    c.maxAge.Some? && c.maxAge.value > 0
  }

  predicate SnapshotsActive(c: Settings) {
    c.interval > 0 && c.keepRecent > 0
  }

  function MinNonZero(x: int64, y: int64): int64 {
    if x == 0 then y else if y == 0 then x else if x < y then x else y
  }

  // The heights down to which blocks are needed, where the constraint is active.

  function EvidenceBound(c: Settings, h: int64): Option<int64> {
    if EvidenceActive(c) then Some(Wrap(h - c.maxAge.value)) else None
  }

  function StateBound(c: Settings, h: int64): Option<int64> {
    var offset := Wrap(c.keepEvery);
    if offset <= 0 then None else if h > offset then Some(h - h % offset) else Some(0)
  }

  function SnapshotBound(c: Settings, h: int64): Option<int64> {
    if SnapshotsActive(c) then Some(Wrap(h - Wrap(c.interval * c.keepRecent))) else None
  }

  function LocalBound(c: Settings, h: int64): int64 {
    Wrap(h - Wrap(c.minRetain))
  }

  /** A further constraint, if active. */
  function Tighten(r: int64, bound: Option<int64>): int64 {
    if bound.Some? then MinNonZero(r, bound.value) else r
  }

  function RetentionHeight(c: Settings, h: int64): int64 {
    if c.minRetain == 0 then 0
    else
      var r := if EvidenceBound(c, h).Some? then EvidenceBound(c, h).value else 0;
      if NothingPersisted(c, h) then 0
      else
        var r := Tighten(Tighten(r, StateBound(c, h)), SnapshotBound(c, h));
        var r := MinNonZero(r, LocalBound(c, h));
        if r <= 0 then 0 else r
  }

  function Listed(bound: Option<int64>): seq<int64> {
    if bound.Some? then [bound.value] else []
  }

  function Bounds(c: Settings, h: int64): seq<int64> {
    Listed(EvidenceBound(c, h)) + Listed(StateBound(c, h)) + Listed(SnapshotBound(c, h)) + [LocalBound(c, h)]
  }

  /** State pruning is on and no state has been persisted yet. */
  predicate NothingPersisted(c: Settings, h: int64) {
    0 < Wrap(c.keepEvery) && h <= Wrap(c.keepEvery)
  }

  /** The least non-zero number of a list, or 0. */
  ghost predicate LeastNonZero(s: seq<int64>, m: int64) {
    if forall i :: 0 <= i < |s| ==> s[i] == 0 then m == 0
    else m != 0 && m in s && forall i :: 0 <= i < |s| && s[i] != 0 ==> m <= s[i]
  }

  lemma LeastTightened(s: seq<int64>, m: int64, bound: Option<int64>)
    requires LeastNonZero(s, m)
    ensures LeastNonZero(s + Listed(bound), Tighten(m, bound))
  {
    var t := s + Listed(bound);
    assert forall i :: 0 <= i < |s| ==> t[i] == s[i];
    if bound.Some? {
      assert t[|s|] == bound.value;
    } else {
      assert t == s;
    }
  }

  /** The result: nothing is pruned when pruning is off or no state is persisted, and otherwise the
      least non-zero bound is returned, or 0 when that is negative. */
  lemma {:induction false} RetentionIsLeastBound(c: Settings, h: int64) returns (m: int64)
    ensures c.minRetain == 0 || NothingPersisted(c, h) ==> RetentionHeight(c, h) == 0
    ensures c.minRetain > 0 && !NothingPersisted(c, h) ==>
              LeastNonZero(Bounds(c, h), m) && RetentionHeight(c, h) == if m <= 0 then 0 else m
  {
    hide EvidenceBound, StateBound, SnapshotBound, LocalBound, LeastNonZero, NothingPersisted;
    var e, t, n, l := EvidenceBound(c, h), StateBound(c, h), SnapshotBound(c, h), LocalBound(c, h);
    NoBounds();
    LeastTightened([], 0, e);
    assert [] + Listed(e) == Listed(e);
    LeastTightened(Listed(e), Tighten(0, e), t);
    LeastTightened(Listed(e) + Listed(t), Tighten(Tighten(0, e), t), n);
    m := Tighten(Tighten(Tighten(0, e), t), n);
    LeastTightened(Listed(e) + Listed(t) + Listed(n), m, Some(l));
    m := MinNonZero(m, l);
  }

  lemma NoBounds()
    ensures LeastNonZero([], 0)
  {
  }

  // ---- What the blocks are needed for ----

  function StateNeed(c: Settings, h: int64): seq<int> {
    if c.keepEvery == 0 then [] else if h > c.keepEvery then [h - h % c.keepEvery] else [0]
  }

  /** The lowest blocks the constraints need, as the documentation says them and without any limit
      on the numbers: since the oldest evidence, the last persisted state (all blocks if none is
      persisted), the oldest snapshot, and as many as the node was told to keep. */
  function Needs(c: Settings, h: int64): seq<int> {
    (if EvidenceActive(c) then [h - c.maxAge.value] else [])
    + StateNeed(c, h)
    + (if SnapshotsActive(c) then [h - c.interval * c.keepRecent] else [])
    + [h - c.minRetain]
  }

  /** Pruning below `r` keeps every block that is needed. */
  ghost predicate Safe(c: Settings, h: int64, r: int64) {
    r == 0 || forall i :: 0 <= i < |Needs(c, h)| ==> r <= Needs(c, h)[i]
  }

  /** Nothing is pruned: pruning is off, no state is persisted, or the least non-zero bound computed
      is negative or missing. */
  ghost predicate PrunesNothing(c: Settings, h: int64) {
    || c.minRetain == 0
    || NothingPersisted(c, h)
    || (exists b :: b in Bounds(c, h) && b < 0)
    || (forall b :: b in Bounds(c, h) ==> b <= 0)
  }

  lemma {:induction false} PrunesNothingMeaning(c: Settings, h: int64)
    ensures RetentionHeight(c, h) >= 0
    ensures RetentionHeight(c, h) == 0 <==> PrunesNothing(c, h)
  {
    hide RetentionHeight, Bounds;
    var m := RetentionIsLeastBound(c, h);
    var s := Bounds(c, h);
    if c.minRetain > 0 && !NothingPersisted(c, h) {
      if b :| b in s && b < 0 {
        var i :| 0 <= i < |s| && s[i] == b;
        assert m <= b;
      }
      if forall b :: b in s ==> b <= 0 {
        assert m in s || m == 0;
      } else {
        var b :| b in s && b > 0;
        var i :| 0 <= i < |s| && s[i] == b;
        assert m in s;
      }
    }
  }

  lemma WrapPositive(x: int)
    requires 0 < x < TWO63
    ensures Wrap(x) == x
  {
  }

  /** 64-bit arithmetic is exact where the needed height is positive. */
  lemma SnapshotBoundExact(c: Settings, h: int64)
    requires SnapshotsActive(c) && h - c.interval * c.keepRecent > 0
    ensures SnapshotBound(c, h) == Some(h - c.interval * c.keepRecent)
  {
    var product := c.interval * c.keepRecent;
    assert product > 0;
    WrapPositive(product);
    WrapPositive(h - product);
  }

  lemma BoundsAreNeeds(c: Settings, h: int64)
    requires forall n :: n in Needs(c, h) ==> n > 0
    requires c.minRetain > 0
    ensures Bounds(c, h) == Needs(c, h)
  {
    hide Wrap;
    assert forall i :: 0 <= i < |Needs(c, h)| ==> Needs(c, h)[i] in Needs(c, h);
    assert h - c.minRetain in Needs(c, h);
    WrapPositive(c.minRetain);
    WrapPositive(h - c.minRetain);
    if EvidenceActive(c) {
      assert h - c.maxAge.value in Needs(c, h);
      WrapPositive(h - c.maxAge.value);
    }
    if SnapshotsActive(c) {
      assert h - c.interval * c.keepRecent in Needs(c, h);
      SnapshotBoundExact(c, h);
    }
    if c.keepEvery > 0 {
      assert StateNeed(c, h)[0] in Needs(c, h);
      WrapPositive(c.keepEvery);
    } else {
      assert Wrap(0) == 0 by { WrapZero(); }
    }
  }

  lemma WrapZero()
    ensures Wrap(0) == 0
  {
  }

  /** Pruning is safe exactly when nothing is pruned or every needed height is positive.  A needed
      height of 0 is taken for no bound, and one so far below 0 that 64-bit arithmetic wraps comes
      out as a positive bound. */
  lemma {:induction false} RetentionSafeIff(c: Settings, h: int64)
    ensures Safe(c, h, RetentionHeight(c, h)) <==>
            PrunesNothing(c, h) || forall n :: n in Needs(c, h) ==> n > 0
  {
    hide RetentionHeight, Bounds, PrunesNothing, Needs;
    PrunesNothingMeaning(c, h);
    var r, s := RetentionHeight(c, h), Needs(c, h);
    if r > 0 {
      if forall n :: n in s ==> n > 0 {
        var m := RetentionIsLeastBound(c, h);
        assert c.minRetain > 0 && !NothingPersisted(c, h);
        BoundsAreNeeds(c, h);
        forall i | 0 <= i < |s| ensures r <= s[i] {
          assert s[i] in s;
        }
      } else {
        var n :| n in s && n <= 0;
        var i :| 0 <= i < |s| && s[i] == n;
      }
    }
  }

  /** A need of 0: evidence needs all blocks from 0 on, and blocks up to 90 are given up. */
  lemma RetentionCounterexample()
    ensures var c := Settings(Some(100), 0, 0, 0, 10);
            RetentionHeight(c, 100) == 90 && !Safe(c, 100, 90)
  {
    var c := Settings(Some(100), 0, 0, 0, 10);
    assert Needs(c, 100)[0] == 0;
  }

  /** Wrap-around of the local setting: told to keep every block, the node gives up all of them, up
      to one above the committed height. */
  lemma RetentionKeepAllCounterexample()
    ensures var c := Settings(None, 0, 0, 0, MAX_UINT64);
            RetentionHeight(c, 100) == 101 && !Safe(c, 100, 101)
  {
    var c := Settings(None, 0, 0, 0, MAX_UINT64);
    assert Needs(c, 100)[0] == 100 - MAX_UINT64;
  }

  /** Wrap-around of the snapshot product: the snapshots need all blocks, and 99 are given up. */
  lemma RetentionSnapshotCounterexample()
    ensures var c := Settings(None, 0, MAX_UINT64 - 4, 1, 1);
            RetentionHeight(c, 100) == 99 && !Safe(c, 100, 99)
  {
    var c := Settings(None, 0, MAX_UINT64 - 4, 1, 1);
    assert Needs(c, 100)[0] == 100 - (MAX_UINT64 - 4);
  }
}
