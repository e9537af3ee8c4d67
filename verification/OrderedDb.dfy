/** Ordered key-value databases as seen through their iterators.

    A database is a map; iterating it over a domain yields its listing in key order. */
module OrderedDb {
  import opened Bytes

  function Lookup<V>(m: map<bytes, V>, k: bytes): Option<V> {
    if k in m then Some(m[k]) else None
  }

  lemma MapsAgree<V>(a: map<bytes, V>, b: map<bytes, V>)
    requires forall k :: Lookup(a, k) == Lookup(b, k)
    ensures a == b
  {
    forall k ensures k in a <==> k in b {
      assert Lookup(a, k) == Lookup(b, k);
    }
    forall k | k in a ensures a[k] == b[k] {
      assert Lookup(a, k) == Lookup(b, k);
    }
  }

  // ---- Domains and listings ----

  /** `dbm.IsKeyInDomain`: start inclusive, end exclusive, nil end meaning no bound. */
  predicate InDomain(k: bytes, start: Option<bytes>, end: Option<bytes>) {
    && (start.Some? ==> LessEq(start.value, k))
    && (end.Some? ==> Less(k, end.value))
  }

  /** Go turns a nil slice into the empty string. */
  function AsString(b: Option<bytes>): bytes {
    if b.Some? then b.value else []
  }

  predicate Before(ascending: bool, a: bytes, b: bytes) {
    if ascending then Less(a, b) else Less(b, a)
  }

  predicate Ordered<V>(ascending: bool, s: seq<(bytes, V)>) {
    forall i, j :: 0 <= i < j < |s| ==> Before(ascending, s[i].0, s[j].0)
  }

  function At<V>(s: seq<(bytes, V)>, k: bytes): Option<V> {
    if s == [] then None else if s[0].0 == k then Some(s[0].1) else At(s[1..], k)
  }

  /** The iteration of a map over a domain, in one direction: ordered, complete and exact. */
  ghost predicate Listing<V>(s: seq<(bytes, V)>, m: map<bytes, V>, start: Option<bytes>, end: Option<bytes>,
                             ascending: bool) {
    && Ordered(ascending, s)
    && forall k :: At(s, k) == (if InDomain(k, start, end) then Lookup(m, k) else None)
  }

  lemma {:induction false} AtMember<V>(s: seq<(bytes, V)>, k: bytes)
    ensures At(s, k).Some? ==> exists i :: 0 <= i < |s| && s[i] == (k, At(s, k).value)
    ensures At(s, k).None? ==> forall i :: 0 <= i < |s| ==> s[i].0 != k
  {
    if s != [] && s[0].0 != k {
      AtMember(s[1..], k);
      if At(s, k).Some? {
        var i :| 0 <= i < |s[1..]| && s[1..][i] == (k, At(s, k).value);
        assert s[i + 1] == (k, At(s, k).value);
      } else {
        forall i | 0 <= i < |s| ensures s[i].0 != k {
          if i > 0 { assert s[i] == s[1..][i - 1]; }
        }
      }
    }
  }

  /** There is only one listing, so `Listing` pins the iteration down completely. */
  lemma {:induction false} ListingUnique<V>(ascending: bool, a: seq<(bytes, V)>, b: seq<(bytes, V)>)
    requires Ordered(ascending, a) && Ordered(ascending, b)
    requires forall k :: At(a, k) == At(b, k)
    ensures a == b
    decreases |a|
  {
    TotalOrder();
    if a == [] {
      assert b != [] ==> At(b, b[0].0).Some?;
    } else {
      assert At(a, a[0].0) == Some(a[0].1);
      AtMember(b, a[0].0);
      if b != [] {
        assert At(b, b[0].0) == Some(b[0].1);
        AtMember(a, b[0].0);
        assert a[0] == b[0];
        forall k ensures At(a[1..], k) == At(b[1..], k) {
          assert At(a, k) == At(b, k);
          if k == a[0].0 {
            AtMember(a[1..], k);
            AtMember(b[1..], k);
          }
        }
        ListingUnique(ascending, a[1..], b[1..]);
        assert a == [a[0]] + a[1..] && b == [b[0]] + b[1..];
      }
    }
  }

  /** The element a Go map iteration happens to come to. */
  method AnyMember<T(==)>(s: set<T>) returns (x: T)
    requires s != {}
    ensures x in s
  {
    x :| x in s;
  }

  /** The keys of a set, sorted: collecting a Go map's keys and calling `sort.Strings`. */
  method SortedKeys(keys: set<bytes>) returns (s: seq<bytes>)
    ensures StrictlySorted(s)
    ensures forall k :: k in s <==> k in keys
    ensures |s| == |keys|
  {
    var collected: seq<bytes> := [];
    var todo := keys;
    while todo != {}
      invariant todo <= keys
      invariant forall k :: k in collected <==> k in keys && k !in todo
      invariant forall i, j :: 0 <= i < j < |collected| ==> collected[i] != collected[j]
      invariant |collected| + |todo| == |keys|
      decreases |todo|
    {
      var k :| k in todo;
      todo := todo - {k};
      collected := collected + [k];
    }
    s := Sort(collected);
    SortedDistinct(collected, s);
  }

  lemma SortedDistinct(c: seq<bytes>, s: seq<bytes>)
    requires forall i, j :: 0 <= i < j < |c| ==> c[i] != c[j]
    requires Sorted(s) && multiset(s) == multiset(c)
    ensures StrictlySorted(s)
    ensures forall k :: k in s <==> k in c
  {
    forall k ensures k in s <==> k in c {
      assert k in multiset(s) <==> k in multiset(c);
    }
    forall i, j | 0 <= i < j < |s| ensures Less(s[i], s[j]) {
      if s[i] == s[j] {
        TwiceInSeq(s, i, j);
        NoRepeats(c, s[i]);
      }
    }
  }

  lemma TwiceInSeq(s: seq<bytes>, i: nat, j: nat)
    requires i < j < |s| && s[i] == s[j]
    ensures multiset(s)[s[i]] >= 2
  {
    assert s == s[..j] + [s[j]] + s[j + 1..];
    assert s[..j][i] == s[i];
    assert s[i] in multiset(s[..j]);
  }

  lemma {:induction false} NoRepeats(c: seq<bytes>, k: bytes)
    requires forall i, j :: 0 <= i < j < |c| ==> c[i] != c[j]
    ensures multiset(c)[k] <= 1
  {
    if c != [] {
      assert c == [c[0]] + c[1..];
      NoRepeats(c[1..], k);
      assert c[0] !in c[1..];
    }
  }

  /** The entries of a map for the given keys, kept to a domain. */
  function Entries<V>(keys: seq<bytes>, m: map<bytes, V>, start: Option<bytes>, end: Option<bytes>): seq<(bytes, V)>
    requires forall k :: k in keys ==> k in m
  {
    if keys == [] then []
    else (if InDomain(keys[0], start, end) then [(keys[0], m[keys[0]])] else []) + Entries(keys[1..], m, start, end)
  }

  lemma {:induction false} EntriesListed<V>(keys: seq<bytes>, m: map<bytes, V>, start: Option<bytes>,
                                            end: Option<bytes>, ascending: bool)
    requires forall k :: k in keys ==> k in m
    requires forall i, j :: 0 <= i < j < |keys| ==> Before(ascending, keys[i], keys[j])
    ensures var items := Entries(keys, m, start, end);
            && Ordered(ascending, items)
            && (forall i :: 0 <= i < |items| ==> items[i].0 in keys)
            && forall k :: At(items, k) == (if k in keys && InDomain(k, start, end) then Lookup(m, k) else None)
  {
    hide Before, InDomain;
    if keys != [] {
      EntriesListed(keys[1..], m, start, end, ascending);
      var k0, tail := keys[0], Entries(keys[1..], m, start, end);
      assert keys == [k0] + keys[1..];
      if InDomain(k0, start, end) {
        assert ([(k0, m[k0])] + tail)[1..] == tail;
      } else {
        assert [] + tail == tail;
      }
    }
  }

  /** An iterator of a plain map (the parent store or the in-memory database). */
  method ListMap<V>(m: map<bytes, V>, start: Option<bytes>, end: Option<bytes>, ascending: bool)
    returns (items: seq<(bytes, V)>)
    ensures Listing(items, m, start, end, ascending)
  {
    var keys := SortedKeys(m.Keys);
    if !ascending {
      ghost var up := keys;
      keys := seq(|keys|, i requires 0 <= i < |keys| => keys[|keys| - 1 - i]);
      assert forall k :: k in keys <==> k in up by {
        assert forall i :: 0 <= i < |up| ==> up[i] == keys[|up| - 1 - i];
      }
    }
    items := Entries(keys, m, start, end);
    EntriesListed(keys, m, start, end, ascending);
  }
}
