/** The branching key-value store (`store/cachekv`): a write buffer over a parent store.

    Here are its cached values, what they show over a parent, and the iterator that merges the items
    of the parent with the buffered writes. */
module CacheKv {
  import opened Bytes
  import opened OrderedDb

  datatype Outcome<+T> = Ok(value: T) | Panicked

  /** A cached value; `None` is Go's nil, the mark of an absent or deleted key. */
  datatype CValue = CValue(value: Option<bytes>, dirty: bool)

  type Items = seq<(bytes, bytes)>

  type CacheItems = seq<(bytes, Option<bytes>)>

  /** What the buffer and the parent together say about a key. */
  function Effective(cache: map<bytes, CValue>, parent: map<bytes, bytes>, k: bytes): Option<bytes> {
    if k in cache then cache[k].value else Lookup(parent, k)
  }

  function ViewOf(cache: map<bytes, CValue>, parent: map<bytes, bytes>): (m: map<bytes, bytes>)
    ensures forall k :: Lookup(m, k) == Effective(cache, parent, k)
  {
    map k | k in cache.Keys + parent.Keys && Effective(cache, parent, k).Some? :: Effective(cache, parent, k).value
  }

  // ---- Merging the parent with the buffer ----

  /** Reference merge: the buffer shadows the parent, and its deletions hide parent keys. */
  function Merge(ascending: bool, p: Items, c: CacheItems): Items
    decreases |p| + |c|
  {
    if p == [] && c == [] then []
    else if c == [] then p
    else if p == [] || Before(ascending, c[0].0, p[0].0) then
      (if c[0].1.Some? then [(c[0].0, c[0].1.value)] else []) + Merge(ascending, p, c[1..])
    else if p[0].0 == c[0].0 then
      (if c[0].1.Some? then [(c[0].0, c[0].1.value)] else []) + Merge(ascending, p[1..], c[1..])
    else
      [p[0]] + Merge(ascending, p[1..], c)
  }

  predicate AllAfter<V>(ascending: bool, k: bytes, s: seq<(bytes, V)>) {
    forall i :: 0 <= i < |s| ==> Before(ascending, k, s[i].0)
  }

  /** The merge is ordered and gives every key the buffer's answer, or the parent's where the
      buffer has none. */
  lemma {:induction false} MergeOverlays(ascending: bool, p: Items, c: CacheItems)
    requires Ordered(ascending, p) && Ordered(ascending, c)
    ensures Ordered(ascending, Merge(ascending, p, c))
    ensures forall k :: At(Merge(ascending, p, c), k) == (if At(c, k).Some? then At(c, k).value else At(p, k))
  {
    OverlayInduction(ascending, p, c);
  }

  ghost predicate IsOverlay(ascending: bool, p: Items, c: CacheItems, m: Items) {
    && Ordered(ascending, m)
    && (forall k :: At(m, k) == (if At(c, k).Some? then At(c, k).value else At(p, k)))
    && (forall k :: AllAfter(ascending, k, p) && AllAfter(ascending, k, c) ==> AllAfter(ascending, k, m))
  }

  lemma {:induction false} OverlayInduction(ascending: bool, p: Items, c: CacheItems)
    requires Ordered(ascending, p) && Ordered(ascending, c)
    ensures IsOverlay(ascending, p, c, Merge(ascending, p, c))
    decreases |p| + |c|
  {
    hide Less, IsOverlay;
    if c == [] {
      NoOverlay(ascending, p);
    } else if p == [] {
      OverlayInduction(ascending, p, c[1..]);
      OverlayHead(ascending, p, c, p, c[1..], Merge(ascending, p, c[1..]));
    } else {
      Trichotomy(p[0].0, c[0].0);
      if Before(ascending, c[0].0, p[0].0) {
        OverlayInduction(ascending, p, c[1..]);
        AfterHead(ascending, c[0].0, p);
        OverlayHead(ascending, p, c, p, c[1..], Merge(ascending, p, c[1..]));
      } else if p[0].0 == c[0].0 {
        OverlayInduction(ascending, p[1..], c[1..]);
        OverlayHead(ascending, p, c, p[1..], c[1..], Merge(ascending, p[1..], c[1..]));
      } else {
        OverlayInduction(ascending, p[1..], c);
        AfterHead(ascending, p[0].0, c);
        OverlayParent(ascending, p, c, Merge(ascending, p[1..], c));
      }
    }
  }

  lemma NoOverlay(ascending: bool, p: Items)
    requires Ordered(ascending, p)
    ensures IsOverlay(ascending, p, [], p)
  {
  }

  /** What comes before the first key comes before all. */
  lemma AfterHead<V>(ascending: bool, k: bytes, s: seq<(bytes, V)>)
    requires s != [] && Ordered(ascending, s) && Before(ascending, k, s[0].0)
    ensures AllAfter(ascending, k, s)
  {
    forall i | 0 <= i < |s| ensures Before(ascending, k, s[i].0) {
      if i > 0 {
        if ascending {
          LessTransitive(k, s[0].0, s[i].0);
        } else {
          LessTransitive(s[i].0, s[0].0, k);
        }
      }
    }
  }

  lemma NotAmongLater<V>(ascending: bool, k: bytes, s: seq<(bytes, V)>)
    requires AllAfter(ascending, k, s)
    ensures At(s, k).None?
  {
    AtMember(s, k);
    Trichotomy(k, k);
  }

  /** The first cache item decides its key; a deletion produces nothing. */
  lemma OverlayHead(ascending: bool, p: Items, c: CacheItems, p': Items, c': CacheItems, tail: Items)
    requires c != [] && c' == c[1..] && Ordered(ascending, c) && Ordered(ascending, p)
    requires (p' == p && AllAfter(ascending, c[0].0, p)) || (p != [] && p' == p[1..] && p[0].0 == c[0].0)
    requires IsOverlay(ascending, p', c', tail)
    ensures IsOverlay(ascending, p, c, (if c[0].1.Some? then [(c[0].0, c[0].1.value)] else []) + tail)
  {
    hide Less;
    var k0 := c[0].0;
    var m := (if c[0].1.Some? then [(k0, c[0].1.value)] else []) + tail;
    NotAmongLater(ascending, k0, p');
    NotAmongLater(ascending, k0, c');
    assert AllAfter(ascending, k0, tail);
    if c[0].1.None? { assert m == tail; } else { assert m[1..] == tail; }
    forall k | AllAfter(ascending, k, p) && AllAfter(ascending, k, c) ensures AllAfter(ascending, k, m) {
      assert AllAfter(ascending, k, p') && AllAfter(ascending, k, c') && Before(ascending, k, k0);
    }
    forall k ensures At(m, k) == (if At(c, k).Some? then At(c, k).value else At(p, k)) {
      assert At(tail, k) == (if At(c', k).Some? then At(c', k).value else At(p', k));
    }
  }

  /** A parent item before the first cache item passes through. */
  lemma OverlayParent(ascending: bool, p: Items, c: CacheItems, tail: Items)
    requires p != [] && Ordered(ascending, p) && AllAfter(ascending, p[0].0, c)
    requires IsOverlay(ascending, p[1..], c, tail)
    ensures IsOverlay(ascending, p, c, [p[0]] + tail)
  {
    hide Less;
    NotAmongLater(ascending, p[0].0, c);
    assert AllAfter(ascending, p[0].0, tail);
    assert ([p[0]] + tail)[1..] == tail;
  }

  /** `cacheMergeIterator`: `parent` and `cache` are what the two iterators have left. */
  class MergeIterator {
    var parent: Items
    var cache: CacheItems
    const ascending: bool

    ghost function Rest(): Items
      reads this
    {
      Merge(ascending, parent, cache)
    }

    constructor (parent: Items, cache: CacheItems, ascending: bool)
      ensures this.parent == parent && this.cache == cache && this.ascending == ascending
    {
      this.parent, this.cache, this.ascending := parent, cache, ascending;
    }

    /** Drop buffered deletions that lie before `until` (all of them when it is nil). */
    method SkipCacheDeletes(until: Option<bytes>)
      requires until == if parent == [] then None else Some(parent[0].0)
      modifies this`cache
      ensures Rest() == old(Rest()) && |cache| <= |old(cache)|
      ensures cache != [] && cache[0].1.None? ==> until.Some? && !Before(ascending, cache[0].0, until.value)
      ensures old(cache) != [] && old(cache)[0].1.None? &&
              (until.None? || Before(ascending, old(cache)[0].0, until.value)) ==>
                |cache| < |old(cache)|
    {
      while cache != [] && cache[0].1.None? && (until.None? || Before(ascending, cache[0].0, until.value))
        invariant Rest() == old(Rest()) && |cache| <= |old(cache)|
        invariant cache == old(cache) || |cache| < |old(cache)|
        decreases |cache|
      {
        assert Rest() == [] + Merge(ascending, parent, cache[1..]) == Merge(ascending, parent, cache[1..]);
        cache := cache[1..];
      }
    }

    /** Move to an item that exists; the remaining iteration is not changed by it. */
    method SkipUntilExistsOrInvalid() returns (valid: bool)
      modifies this`parent, this`cache
      ensures Rest() == old(Rest())
      ensures valid <==> Rest() != []
      ensures cache != [] && cache[0].1.None? ==> parent != [] && Before(ascending, parent[0].0, cache[0].0)
    {
      TotalOrder();
      while true
        invariant Rest() == old(Rest())
        decreases |parent| + |cache|
      {
        if parent == [] {
          SkipCacheDeletes(None);
          return cache != [];
        }
        if cache == [] {
          return true;
        }
        var keyP, keyC := parent[0].0, cache[0].0;
        if Before(ascending, keyP, keyC) {
          return true;
        } else if keyP == keyC {
          if cache[0].1.None? {
            assert Rest() == [] + Merge(ascending, parent[1..], cache[1..]) ==
              Merge(ascending, parent[1..], cache[1..]);
            parent, cache := parent[1..], cache[1..];
          } else {
            return true;
          }
        } else {
          if cache[0].1.None? {
            SkipCacheDeletes(Some(keyP));
          } else {
            return true;
          }
        }
      }
    }

    method Valid() returns (valid: bool)
      modifies this`parent, this`cache
      ensures Rest() == old(Rest())
      ensures valid <==> Rest() != []
    {
      valid := SkipUntilExistsOrInvalid();
    }

    method Key() returns (k: Outcome<bytes>)
      modifies this`parent, this`cache
      ensures Rest() == old(Rest())
      ensures k == if Rest() != [] then Ok(Rest()[0].0) else Panicked
    {
      TotalOrder();
      var valid := SkipUntilExistsOrInvalid();
      if !valid { return Panicked; }
      if parent == [] { return Ok(cache[0].0); }
      if cache == [] { return Ok(parent[0].0); }
      var keyP, keyC := parent[0].0, cache[0].0;
      k := Ok(if Before(ascending, keyP, keyC) || keyP == keyC then keyP else keyC);
    }

    method Value() returns (v: Outcome<bytes>)
      modifies this`parent, this`cache
      ensures Rest() == old(Rest())
      ensures v == if Rest() != [] then Ok(Rest()[0].1) else Panicked
    {
      TotalOrder();
      var valid := SkipUntilExistsOrInvalid();
      if !valid { return Panicked; }
      if parent == [] { return Ok(cache[0].1.value); }
      if cache == [] { return Ok(parent[0].1); }
      var keyP, keyC := parent[0].0, cache[0].0;
      v := Ok(if Before(ascending, keyP, keyC) then parent[0].1 else cache[0].1.value);
    }

    method Next() returns (r: Outcome<()>)
      modifies this`parent, this`cache
      ensures r.Ok? <==> old(Rest()) != []
      ensures Rest() == if old(Rest()) != [] then old(Rest())[1..] else []
    {
      TotalOrder();
      var valid := SkipUntilExistsOrInvalid();
      if !valid { return Panicked; }
      r := Ok(());
      if parent == [] {
        cache := cache[1..];
      } else if cache == [] {
        parent := parent[1..];
      } else {
        var keyP, keyC := parent[0].0, cache[0].0;
        if Before(ascending, keyP, keyC) {
          parent := parent[1..];
        } else if keyP == keyC {
          parent, cache := parent[1..], cache[1..];
        } else {
          cache := cache[1..];
        }
      }
    }
  }

  /** The usual loop of a caller over an iterator. */
  method Drain(it: MergeIterator) returns (items: Items)
    modifies it
    ensures items == old(it.Rest())
  {
    items := [];
    var valid := it.Valid();
    while valid
      invariant items + it.Rest() == old(it.Rest())
      invariant valid <==> it.Rest() != []
      decreases |it.Rest()|
    {
      var k := it.Key();
      var v := it.Value();
      assert it.Rest() == [it.Rest()[0]] + it.Rest()[1..];
      items := items + [(k.value, v.value)];
      var r := it.Next();
      valid := it.Valid();
    }
  }
}
