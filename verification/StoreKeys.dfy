/** The check that no store name is a prefix of another (`types/store.go`). */
module StoreKeys {
  import opened Bytes
  import opened OrderedDb

  /** Two positions hold keys of which one is a prefix of the other, equal keys included. */
  predicate Collides(keys: seq<bytes>) {
    exists i, j :: 0 <= i < |keys| && 0 <= j < |keys| && i != j && keys[i] <= keys[j]
  }

  /** The same, without positions. */
  predicate CollidesIn(m: multiset<bytes>) {
    exists a, b :: a in m && b in m && a <= b && (a == b ==> m[a] >= 2)
  }

  lemma {:induction false} PrefixIsBelow(a: bytes, b: bytes)
    requires a <= b
    ensures LessEq(a, b)
    decreases |a|
  {
    if a == [] {
    } else {
      PrefixIsBelow(a[1..], b[1..]);
      assert a == [a[0]] + a[1..] && b == [b[0]] + b[1..];
    }
  }

  /** What lies between a string and an extension of it extends it too. */
  lemma {:induction false} BetweenExtends(a: bytes, b: bytes, c: bytes)
    requires a <= c && LessEq(a, b) && LessEq(b, c)
    ensures a <= b
    decreases |a|
  {
    if a != [] && a != b && b != c {
      assert c[0] == a[0];
      assert b[0] == a[0];
      assert LessEq(a[1..], b[1..]) && LessEq(b[1..], c[1..]);
      BetweenExtends(a[1..], b[1..], c[1..]);
      assert a == [a[0]] + a[1..] && b == [b[0]] + b[1..];
    }
  }

  lemma {:induction false} TwoPositions(s: seq<bytes>, a: bytes)
    requires multiset(s)[a] >= 2
    ensures exists i, j :: 0 <= i < j < |s| && s[i] == a && s[j] == a
  {
    assert s == [s[0]] + s[1..];
    if s[0] == a {
      assert a in multiset(s[1..]);
      var j :| 0 <= j < |s[1..]| && s[1..][j] == a;
      assert s[0] == a && s[j + 1] == a;
    } else {
      TwoPositions(s[1..], a);
      var i, j :| 0 <= i < j < |s[1..]| && s[1..][i] == a && s[1..][j] == a;
      assert s[i + 1] == a && s[j + 1] == a;
    }
  }

  /** Colliding depends on the keys, not on their positions. */
  lemma {:induction false} CollidesAnywhere(keys: seq<bytes>)
    ensures Collides(keys) <==> CollidesIn(multiset(keys))
  {
    if Collides(keys) {
      var i, j :| 0 <= i < |keys| && 0 <= j < |keys| && i != j && keys[i] <= keys[j];
      assert keys[i] in multiset(keys) && keys[j] in multiset(keys);
      if keys[i] == keys[j] {
        if i < j { TwiceInSeq(keys, i, j); } else { TwiceInSeq(keys, j, i); }
      }
    }
    if CollidesIn(multiset(keys)) {
      var a, b :| a in multiset(keys) && b in multiset(keys) && a <= b && (a == b ==> multiset(keys)[a] >= 2);
      if a == b {
        TwoPositions(keys, a);
        var i, j :| 0 <= i < j < |keys| && keys[i] == a && keys[j] == a;
        assert keys[i] <= keys[j];
      } else {
        var i :| 0 <= i < |keys| && keys[i] == a;
        var j :| 0 <= j < |keys| && keys[j] == b;
        assert keys[i] <= keys[j];
      }
    }
  }

  /** In a sorted list a collision shows between neighbours. */
  lemma {:induction false} NeighboursSuffice(s: seq<bytes>)
    requires Sorted(s) && Collides(s)
    ensures exists i :: 1 <= i < |s| && s[i - 1] <= s[i]
  {
    var i, j :| 0 <= i < |s| && 0 <= j < |s| && i != j && s[i] <= s[j];
    if i < j {
      BetweenExtends(s[i], s[i + 1], s[j]);
      assert s[(i + 1) - 1] <= s[i + 1];
    } else {
      // s[j] <= s[i] in the order, so they are equal, and so is everything between them.
      PrefixIsBelow(s[i], s[j]);
      Trichotomy(s[i], s[j]);
      assert s[i] == s[j];
      BetweenExtends(s[j], s[j + 1], s[i]);
      assert s[(j + 1) - 1] <= s[j + 1];
    }
  }

  lemma NeighboursDecide(s: seq<bytes>)
    requires Sorted(s)
    ensures Collides(s) <==> exists i :: 1 <= i < |s| && s[i - 1] <= s[i]
  {
    hide Sorted, Less;
    if Collides(s) {
      NeighboursSuffice(s);
    }
  }

  lemma SortingKeepsCollisions(keys: seq<bytes>)
    ensures Collides(Sort(keys)) <==> Collides(keys)
  {
    hide Collides, CollidesIn;
    CollidesAnywhere(keys);
    CollidesAnywhere(Sort(keys));
  }

  /** `assertNoPrefix` panics exactly when two positions of its input collide. */
  method AssertNoPrefix(keys: seq<bytes>) returns (panics: bool)
    ensures panics <==> Collides(keys)
  {
    hide Collides, Less, Sort;
    var sorted := Sort(keys);
    SortingKeepsCollisions(keys);
    NeighboursDecide(sorted);
    var i := 1;
    while i < |sorted|
      invariant 1 <= i
      invariant forall k :: 1 <= k < i && k < |sorted| ==> !(sorted[k - 1] <= sorted[k])
    {
      if sorted[i - 1] <= sorted[i] {
        return true;
      }
      i := i + 1;
    }
    panics := false;
  }
}
