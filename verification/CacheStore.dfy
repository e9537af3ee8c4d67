/** The `cachekv.Store` object and its iterators. */
module CacheStoreObject {
  import opened Bytes
  import opened OrderedDb
  import opened CacheKv
  import opened BranchStack

  /** First index whose key is at least `startQ`, or -1. */
  method FindStartIndex(strL: seq<bytes>, startQ: bytes) returns (r: int)
    requires Sorted(strL)
    ensures r == -1 || 0 <= r < |strL|
    ensures r >= 0 ==> LessEq(startQ, strL[r]) && forall i :: 0 <= i < r ==> Less(strL[i], startQ)
    ensures r < 0 ==> forall i :: 0 <= i < |strL| ==> Less(strL[i], startQ)
  {
    TotalOrder();
    if |strL| == 0 { return -1; }
    var left, right := 0, |strL| - 1;
    while left <= right
      invariant 0 <= left <= right + 1 <= |strL|
      invariant forall i :: 0 <= i < left ==> Less(strL[i], startQ)
      invariant forall i :: right < i < |strL| ==> Less(startQ, strL[i])
      decreases right - left
    {
      var mid := (left + right) / 2;
      if strL[mid] == startQ {
        var i := mid - 1;
        while i >= 0
          invariant -1 <= i < mid
          invariant forall j :: i < j <= mid ==> strL[j] == startQ
        {
          if strL[i] != strL[mid] { return i + 1; }
          i := i - 1;
        }
        return 0;
      }
      if Less(strL[mid], startQ) { left := mid + 1; } else { right := mid - 1; }
    }
    if left < |strL| && LessEq(startQ, strL[left]) { return left; }
    r := -1;
  }

  /** First index holding `endQ` if present, else the last index below it, else -1. */
  method FindEndIndex(strL: seq<bytes>, endQ: bytes) returns (r: int)
    requires Sorted(strL)
    ensures r == -1 || 0 <= r < |strL|
    ensures r >= 0 ==> LessEq(strL[r], endQ) && forall i :: r < i < |strL| ==> LessEq(endQ, strL[i])
    ensures r < 0 ==> forall i :: 0 <= i < |strL| ==> Less(endQ, strL[i])
  {
    TotalOrder();
    if |strL| == 0 { return -1; }
    var left, right := 0, |strL| - 1;
    while left <= right
      invariant 0 <= left <= right + 1 <= |strL|
      invariant forall i :: 0 <= i < left ==> Less(strL[i], endQ)
      invariant forall i :: right < i < |strL| ==> Less(endQ, strL[i])
      decreases right - left
    {
      var mid := (left + right) / 2;
      if strL[mid] == endQ {
        var i := mid - 1;
        while i >= 0
          invariant -1 <= i < mid
          invariant forall j :: i < j <= mid ==> strL[j] == endQ
        {
          if Less(strL[i], strL[mid]) { return i + 1; }
          i := i - 1;
        }
        return 0;
      }
      if Less(strL[mid], endQ) { left := mid + 1; } else { right := mid - 1; }
    }
    // the scan from `right` downwards for a key below `endQ` ends at its first step
    if right >= 0 { return right; }
    r := -1;
  }

  /** The unsorted keys to move for a domain: at least those in it.  A small set is filtered, a
      large one sorted and searched. */
  method KeysInRange(keys: set<bytes>, start: Option<bytes>, end: Option<bytes>) returns (moved: seq<bytes>)
    requires [] !in keys
    ensures forall k :: k in moved ==> k in keys
    ensures forall k :: k in keys && InDomain(k, start, end) ==> k in moved
  {
    if |keys| < 1024 {
      moved := SortedKeys(set k | k in keys && InDomain(k, start, end));
    } else {
      var strL := SortedKeys(keys);
      var startIndex := FindStartIndex(strL, AsString(start));
      var endIndex := FindEndIndex(strL, AsString(end));
      assert end.None? ==> endIndex < 0 by { assert [] !in strL; }
      if endIndex < 0 { endIndex := |strL| - 1; }
      if startIndex < 0 { startIndex := 0; }
      RangeCovers(strL, start, end, startIndex, endIndex);
      moved := if startIndex <= endIndex then strL[startIndex..endIndex + 1] else [];
      forall k | k in keys && InDomain(k, start, end) ensures k in moved {
        var i :| 0 <= i < |strL| && strL[i] == k;
        assert moved[i - startIndex] == k;
      }
    }
  }

  // ---- The store ----

  /** The store at the bottom. */
  class Db {
    var m: map<bytes, bytes>

    constructor (m: map<bytes, bytes>)
      ensures this.m == m
    {
      this.m := m;
    }
  }

  /** What a branch is a branch of: the bottom store, or another branch. */
  datatype Parent = Bottom(db: Db) | Branch(store: CacheStore) {

    ghost function Repr(): set<object> {
      match this
      case Bottom(db) => {db}
      case Branch(store) => store.Repr
    }

    /** The object that `Write` of a branch changes. */
    ghost function Target(): object {
      match this
      case Bottom(db) => db
      case Branch(store) => store
    }

    ghost predicate Linked() {
      Branch? ==> store.Linked()
    }

    ghost function Abs(): Stack
      requires Linked()
      reads Repr()
    {
      match this
      case Bottom(db) => Base(db.m)
      case Branch(store) => store.Abs()
    }
  }

  class CacheStore {
    var cache: map<bytes, CValue>
    var deleted: set<bytes>
    var unsorted: set<bytes>
    var sorted: map<bytes, bytes>
    const parent: Parent

    /** This branch and everything below it. */
    ghost const Repr: set<object>

    ghost predicate Linked()
      decreases Repr
    {
      && this in Repr
      && parent.Repr() <= Repr - {this}
      && (parent.Branch? ==> parent.store.Linked())
    }

    ghost function Top(): Level
      reads this
    {
      Level(cache, deleted, unsorted, sorted)
    }

    ghost function Abs(): Stack
      requires Linked()
      reads Repr
      decreases Repr
    {
      Over(Top(), match parent case Bottom(db) => Base(db.m) case Branch(store) => store.Abs())
    }

    ghost predicate Valid()
      reads Repr
    {
      Linked() && ValidStack(Abs())
    }

    constructor (parent: Parent)
      requires parent.Linked() && ValidStack(parent.Abs())
      ensures Valid() && this.parent == parent && fresh(Repr - parent.Repr())
      ensures Abs() == Over(EMPTY, parent.Abs()) && View(Abs()) == View(parent.Abs())
    {
      this.parent := parent;
      Repr := {this} + parent.Repr();
      cache, deleted, unsorted, sorted := map[], {}, {}, map[];
      new;
      FreshView(parent.Abs());
    }

    method SetCacheValue(key: bytes, value: Option<bytes>, isDeleted: bool, dirty: bool)
      requires isDeleted == (value.None? && dirty)
      modifies this
      ensures Top() == Put(old(Top()), key, CValue(value, dirty))
    {
      cache := cache[key := CValue(value, dirty)];
      if isDeleted { deleted := deleted + {key}; } else { deleted := deleted - {key}; }
      if dirty { unsorted := unsorted + {key}; }
    }

    /** The parent's own `Get`. */
    method ReadParent(key: bytes) returns (value: Option<bytes>)
      requires Linked() && ValidStack(parent.Abs()) && key != []
      modifies parent.Repr()
      ensures parent.Abs() == Fill(old(parent.Abs()), key) && value == Lookup(old(View(parent.Abs())), key)
      decreases Repr, 0
    {
      hide ValidStack, View, Fill;
      match parent {
        case Bottom(db) =>
          FillBase(db.m, key);
          value := if key in db.m then Some(db.m[key]) else None;
        case Branch(store) =>
          var got := store.Get(key);
          value := got.value;
      }
    }

    /** `Get`: what the view has, at any depth; the levels it had to ask record the answer. */
    method Get(key: bytes) returns (r: Outcome<Option<bytes>>)
      requires Valid()
      modifies Repr
      ensures Valid() && View(Abs()) == old(View(Abs()))
      ensures Abs() == if key == [] then old(Abs()) else Fill(old(Abs()), key)
      ensures r == if key == [] then Panicked else Ok(Lookup(old(View(Abs())), key))
      decreases Repr, 1
    {
      if key == [] { return Panicked; }
      hide ValidStack, View, Fill, Put;
      TopOfStack(Abs());
      FillKeepsView(Abs(), key);
      FillTop(Abs(), key);
      var value;
      if key !in cache {
        value := ReadParent(key);
        SetCacheValue(key, value, false, false);
      } else {
        value := cache[key].value;
      }
      r := Ok(value);
    }

    method Set(key: bytes, value: Option<bytes>) returns (r: Outcome<()>)
      requires Valid()
      modifies this
      ensures Valid() && (r.Panicked? <==> key == [] || value.None?)
      ensures Abs() == if r.Panicked? then old(Abs())
        else Over(Put(old(Top()), key, CValue(value, true)), old(parent.Abs()))
      ensures View(Abs()) == if r.Panicked? then old(View(Abs())) else old(View(Abs()))[key := value.value]
    {
      if key == [] || value.None? { return Panicked; }
      hide ValidStack, View, Put;
      PutView(Abs(), key, value);
      SetCacheValue(key, value, false, true);
      r := Ok(());
    }

    method Delete(key: bytes) returns (r: Outcome<()>)
      requires Valid()
      modifies this
      ensures Valid() && (r.Panicked? <==> key == [])
      ensures Abs() == if r.Panicked? then old(Abs())
        else Over(Put(old(Top()), key, CValue(None, true)), old(parent.Abs()))
      ensures View(Abs()) == if r.Panicked? then old(View(Abs())) else old(View(Abs())) - {key}
    {
      if key == [] { return Panicked; }
      hide ValidStack, View, Put;
      PutView(Abs(), key, None);
      SetCacheValue(key, None, true, true);
      r := Ok(());
    }

    /** One step of `Write`: the parent's own `Set` or `Delete`. */
    method ToParent(key: bytes, value: Option<bytes>)
      requires Linked() && ValidStack(parent.Abs()) && key != []
      modifies parent.Target()
      ensures ValidStack(parent.Abs())
      ensures View(parent.Abs()) == if value.Some? then old(View(parent.Abs()))[key := value.value]
        else old(View(parent.Abs())) - {key}
      ensures SameBelow(old(parent.Abs()), parent.Abs())
    {
      match parent {
        case Bottom(db) =>
          db.m := if value.Some? then db.m[key := value.value] else db.m - {key};
        case Branch(store) =>
          if value.Some? {
            var _ := store.Set(key, value);
          } else {
            var _ := store.Delete(key);
          }
      }
    }

    /** `Write`: flush the buffer.  The parent, at whatever depth, shows exactly what readers of the
        branch saw, nothing below it changes, and the branch starts over on top of it. */
    method Write()
      requires Valid()
      modifies this, parent.Target()
      ensures Valid() && Top() == EMPTY
      ensures View(parent.Abs()) == old(View(Abs())) && View(Abs()) == old(View(Abs()))
      ensures SameBelow(old(parent.Abs()), parent.Abs())
    {
      hide ValidStack, View;
      var keys := SortedKeys(set k | k in cache && cache[k].dirty);
      Flush(keys);
      cache, deleted, unsorted, sorted := map[], {}, {}, map[];
      FreshView(parent.Abs());
    }

    /** Hand the dirty keys to the parent, one by one. */
    method Flush(keys: seq<bytes>)
      requires Valid() && forall k :: k in keys <==> k in cache && cache[k].dirty
      modifies parent.Target()
      ensures ValidStack(parent.Abs()) && View(parent.Abs()) == old(View(Abs()))
      ensures SameBelow(old(parent.Abs()), parent.Abs())
    {
      hide ValidLevel, ValidStack, ViewOf, View, Flushed;
      ghost var top, below := Top(), parent.Abs();
      ghost var view := View(Abs());
      TopOfStack(Abs());
      FlushBegun(View(below), view);
      for i := 0 to |keys|
        invariant ValidStack(parent.Abs()) && SameBelow(below, parent.Abs())
        invariant Flushed(View(parent.Abs()), View(below), view, keys[..i])
      {
        var key := keys[i];
        assert key in keys;
        assert keys[..i + 1] == keys[..i] + [key];
        FlushKey(top, View(below), view, View(parent.Abs()), keys[..i], key);
        if key in deleted {
          ToParent(key, None);
        } else if cache[key].value.Some? {
          ToParent(key, cache[key].value);
        }
      }
      assert keys[..|keys|] == keys;
      FlushEnded(top, View(below), view, View(parent.Abs()), keys);
    }

    /** Move buffered keys into the sorted buffer. */
    method ClearUnsortedCacheSubset(moved: seq<bytes>, ghost below: map<bytes, bytes>)
      requires ValidLevel(Top(), below) && forall k :: k in moved ==> k in unsorted
      modifies this
      ensures ValidLevel(Top(), below) && cache == old(cache) && deleted == old(deleted)
      ensures forall k :: k in unsorted <==> k in old(unsorted) && k !in moved
    {
      for i := 0 to |moved|
        invariant unsorted == old(unsorted) && cache == old(cache) && deleted == old(deleted)
        invariant forall k :: k in sorted <==> k in old(sorted) || k in moved[..i]
        invariant forall k :: k in sorted ==>
          sorted[k] == (if k in moved[..i] then (if cache[k].value.Some? then cache[k].value.value else [])
            else old(sorted)[k])
      {
        assert moved[..i + 1] == moved[..i] + [moved[i]];
        var v := cache[moved[i]].value;
        sorted := sorted[moved[i] := if v.None? then [] else v.value];
      }
      assert moved[..|moved|] == moved;
      unsorted := set k | k in unsorted && k !in moved;
    }

    /** `dirtyItems`: bring the buffered writes of a domain into the sorted buffer. */
    method DirtyItems(start: Option<bytes>, end: Option<bytes>, ghost below: map<bytes, bytes>)
      requires ValidLevel(Top(), below)
      modifies this
      ensures ValidLevel(Top(), below) && Tidied(old(Top()), Top(), start, end)
    {
      if Less(AsString(end), AsString(start)) {
        return;
      }
      var moved := KeysInRange(unsorted, start, end);
      ClearUnsortedCacheSubset(moved, below);
    }

    /** `iterator` and the loop over it, at any depth.  It panics exactly on a bound that is empty and
        not nil.  Otherwise the result lists the view of the branch, and is the only sequence that
        does, unless the range is open-ended; and for an open-ended range exactly when no unsorted
        write in the range, of this branch or of one below it, is out of step with the sorted
        buffers. */
    method Iterate(start: Option<bytes>, end: Option<bytes>, ascending: bool) returns (r: Outcome<Items>)
      requires Valid()
      modifies Repr
      ensures Valid() && View(Abs()) == old(View(Abs()))
      ensures r.Panicked? <==> start == Some([]) || end == Some([])
      ensures r.Ok? ==>
        ((forall items :: Listing(items, View(Abs()), start, end, ascending) <==> items == r.value) <==>
         !OpenEnded(start, end) || InStep(old(Abs()), start, end))
      ensures r.Ok? ==> AllTidied(old(Abs()), Abs(), start, end) && Listed(r.value, Abs(), start, end, ascending)
    {
      ghost var s := Abs();
      r := ListStack(start, end, ascending);
      if r.Ok? {
        TidiedView(s, Abs(), start, end);
        ShownIsViewIff(s, Abs(), start, end);
        OneListing(r.value, View(s), start, end, ascending);
      }
    }

    /** The iteration as it runs: the parent's iteration, merged with this branch's sorted buffer. */
    method ListStack(start: Option<bytes>, end: Option<bytes>, ascending: bool) returns (r: Outcome<Items>)
      requires Valid()
      modifies Repr
      ensures Valid() && View(Abs()) == old(View(Abs()))
      ensures r.Panicked? <==> start == Some([]) || end == Some([])
      ensures r.Ok? ==> AllTidied(old(Abs()), Abs(), start, end) && Listed(r.value, Abs(), start, end, ascending)
      decreases Repr, 1
    {
      hide ValidStack, ValidLevel, View, ViewOf, Tidied, Listed;
      ghost var s := Abs();
      TopOfStack(s);
      var fromParent := ListParent(start, end, ascending);
      if fromParent.Panicked? {
        ChangedBelow(s, parent.Abs());
        return Panicked;
      }
      DirtyItems(start, end, View(parent.Abs()));
      TidiedTop(s, Abs(), start, end);
      if start == Some([]) || end == Some([]) {
        return Panicked;
      }
      var items := MergedItems(fromParent.value, start, end, ascending, parent.Abs());
      r := Ok(items);
    }

    /** The parent's own iteration. */
    method ListParent(start: Option<bytes>, end: Option<bytes>, ascending: bool) returns (r: Outcome<Items>)
      requires Linked() && ValidStack(parent.Abs())
      modifies parent.Repr()
      ensures ValidStack(parent.Abs()) && View(parent.Abs()) == old(View(parent.Abs()))
      ensures r.Panicked? ==> start == Some([]) || end == Some([])
      ensures r.Ok? ==>
        && AllTidied(old(parent.Abs()), parent.Abs(), start, end)
        && Listed(r.value, parent.Abs(), start, end, ascending)
      decreases Repr, 0
    {
      match parent {
        case Bottom(db) =>
          var items := ListMap(db.m, start, end, ascending);
          r := Ok(items);
        case Branch(store) =>
          r := store.ListStack(start, end, ascending);
      }
    }

    /** The merge of the parent's items with the sorted buffer, deletions marked. */
    method MergedItems(fromParent: Items, start: Option<bytes>, end: Option<bytes>, ascending: bool,
                       ghost below: Stack) returns (items: Items)
      requires Listed(fromParent, below, start, end, ascending)
      ensures Listed(items, Over(Top(), below), start, end, ascending)
    {
      hide Merge, Less;
      var fromSorted := ListMap(sorted, start, end, ascending);
      var marked := ReadMarked(fromSorted, deleted);
      var it := new MergeIterator(fromParent, marked, ascending);
      MergeOverlays(ascending, fromParent, marked);
      items := Drain(it);
      assert items == Merge(ascending, fromParent, marked);
      ghost var s := Over(Top(), below);
      forall k ensures At(items, k) == (if InDomain(k, start, end) then Shown(s, k) else None) {
        MarkedAt(fromSorted, deleted, k);
      }
    }
  }

  /** The items show what the sorted buffers of a stack show over a domain, in order. */
  ghost predicate Listed(items: Items, s: Stack, start: Option<bytes>, end: Option<bytes>, ascending: bool) {
    && Ordered(ascending, items)
    && forall k :: At(items, k) == (if InDomain(k, start, end) then Shown(s, k) else None)
  }

  /** A parent has received the view of a branch at some keys. */
  ghost predicate Flushed(now: map<bytes, bytes>, before: map<bytes, bytes>, view: map<bytes, bytes>,
                          done: seq<bytes>) {
    forall k :: Lookup(now, k) == if k in done then Lookup(view, k) else Lookup(before, k)
  }

  lemma FlushBegun(before: map<bytes, bytes>, view: map<bytes, bytes>)
    ensures Flushed(before, before, view, [])
  {
  }

  lemma FlushKey(top: Level, before: map<bytes, bytes>, view: map<bytes, bytes>, now: map<bytes, bytes>,
                 done: seq<bytes>, key: bytes)
    requires ValidLevel(top, before) && view == ViewOf(top.cache, before) && Flushed(now, before, view, done)
    requires key in top.cache && top.cache[key].dirty
    ensures key != [] && (key in top.deleted <==> top.cache[key].value.None?)
    ensures var value := top.cache[key].value;
            Flushed(if value.Some? then now[key := value.value] else now - {key}, before, view, done + [key])
  {
    assert Lookup(view, key) == top.cache[key].value;
  }

  lemma FlushEnded(top: Level, before: map<bytes, bytes>, view: map<bytes, bytes>, now: map<bytes, bytes>,
                   done: seq<bytes>)
    requires ValidLevel(top, before) && view == ViewOf(top.cache, before) && Flushed(now, before, view, done)
    requires forall k :: k in done <==> k in top.cache && top.cache[k].dirty
    ensures now == view
  {
    MapsAgree(now, view);
  }

  /** Nothing but the topmost level has changed. */
  ghost predicate SameBelow(s: Stack, s': Stack) {
    (s.Over? <==> s'.Over?) && (s.Over? ==> s'.below == s.below)
  }

  /** The failing family: for every branch, a write of something new inside an open-ended range is
      missing from, or stale in, the iteration that follows it, and so it is in every branch of this
      branch, however deep. */
  method OpenEndedIterationMissesWrite(st: CacheStore, key: bytes, value: bytes, start: Option<bytes>,
                                       ascending: bool, depth: nat)
    returns (r: Outcome<Items>, ghost view: map<bytes, bytes>)
    requires st.Valid() && key != [] && OpenEnded(start, None) && InDomain(key, start, None)
    requires key !in st.sorted && Shown(st.parent.Abs(), key) != Some(value)
    modifies st.Repr
    ensures view == old(View(st.Abs()))[key := value]
    ensures r.Ok? && !Listing(r.value, view, start, None, ascending)
  {
    ghost var shown := Shown(st.parent.Abs(), key);
    var _ := st.Set(key, Some(value));
    view := View(st.Abs());
    var b := st;
    for i := 0 to depth
      invariant b.Valid() && fresh(b.Repr - st.Repr)
      invariant View(b.Abs()) == view && Unsorted(b.Abs(), key) && Shown(b.Abs(), key) == shown
    {
      b := new CacheStore(Branch(b));
    }
    assert Lookup(view, key) == Some(value);
    assert !InStep(b.Abs(), start, None);
    r := b.Iterate(start, None, ascending);
    if Listing(r.value, view, start, None, ascending) {
      OneListing(r.value, view, start, None, ascending);
    }
  }

  /** A branch of a branch: a fresh branch finds the earlier write by its key, and an iteration that
      should come to it yields nothing. */
  method BranchOfBranchMissesWrite(ascending: bool) returns (listed: Outcome<Items>, read: Outcome<Option<bytes>>)
    ensures listed == Ok([]) && read == Ok(Some([7]))
  {
    hide Listing, InStep, ValidLevel, Tidied;
    var db := new Db(map[]);
    var first := new CacheStore(Bottom(db));
    var _ := first.Set([5], Some([7]));
    var second := new CacheStore(Branch(first));
    ghost var s := second.Abs();
    listed := second.Iterate(Some([1]), None, ascending);
    SkipsMeaning(Some([1]), None);
    TidiedView(s, second.Abs(), Some([1]), None);
    HeadListed(listed.value);
    forall k ensures Shown(s, k) == None {
      assert Shown(s, k) == Shown(s.below, k) == Shown(s.below.below, k);
    }
    read := second.Get([5]);
  }

  lemma HeadListed(items: Items)
    ensures items != [] ==> At(items, items[0].0).Some?
  {
  }

  /** The memory iterator: entries of deleted keys yield nil. */
  function MarkDeleted(s: Items, deleted: set<bytes>): (r: CacheItems)
    ensures |r| == |s|
    ensures forall i :: 0 <= i < |s| ==> r[i] == (s[i].0, if s[i].0 in deleted then None else Some(s[i].1))
  {
    seq(|s|, i requires 0 <= i < |s| => (s[i].0, if s[i].0 in deleted then None else Some(s[i].1)))
  }

  /** The memory iterator over the sorted buffer.  It remembers the key whose value it last gave out,
      so that a key deleted meanwhile keeps its value. */
  class MemIterator {
    var rest: Items
    var lastKey: Option<bytes>
    var deleted: set<bytes>

    constructor (items: Items, deleted: set<bytes>)
      ensures rest == items && lastKey.None? && this.deleted == deleted
    {
      rest, lastKey, this.deleted := items, None, deleted;
    }

    /** `Value`: nil for a deleted key, unless its value was given out before. */
    method Value() returns (v: Option<bytes>)
      requires rest != []
      modifies this`lastKey
      ensures v == if rest[0].0 in deleted && old(lastKey) != Some(rest[0].0) then None else Some(rest[0].1)
      ensures lastKey == if v.Some? then Some(rest[0].0) else old(lastKey)
    {
      var key := rest[0].0;
      var reCallingOnOldLastKey := lastKey.Some? && key == lastKey.value;
      if key in deleted && !reCallingOnOldLastKey {
        return None;
      }
      lastKey := Some(key);
      v := Some(rest[0].1);
    }
  }

  /** A value once given out is given out again, whatever is deleted in between. */
  method ValueIsStable(it: MemIterator, more: set<bytes>) returns (first: Option<bytes>, again: Option<bytes>)
    requires it.rest != []
    modifies it
    ensures first.Some? ==> again == first
  {
    first := it.Value();
    it.deleted := it.deleted + more;
    again := it.Value();
  }

  /** Reading the memory iterator to its end marks exactly the deleted keys. */
  method ReadMarked(s: Items, deleted: set<bytes>) returns (r: CacheItems)
    ensures r == MarkDeleted(s, deleted)
  {
    var it := new MemIterator(s, deleted);
    r := [];
    for i := 0 to |s|
      invariant fresh(it) && it.rest == s[i..] && it.deleted == deleted
      invariant it.lastKey.Some? ==> it.lastKey.value !in deleted
      invariant |r| == i && forall j :: 0 <= j < i ==> r[j] == MarkDeleted(s, deleted)[j]
    {
      var v := it.Value();
      r := r + [(s[i].0, v)];
      it.rest := it.rest[1..];
    }
  }

  /** A listing is the only one. */
  lemma OneListing(items: Items, m: map<bytes, bytes>, start: Option<bytes>, end: Option<bytes>, ascending: bool)
    ensures Listing(items, m, start, end, ascending) <==>
            forall other :: Listing(other, m, start, end, ascending) <==> other == items
  {
    if Listing(items, m, start, end, ascending) {
      forall other | Listing(other, m, start, end, ascending) ensures other == items {
        ListingUnique(ascending, other, items);
      }
    }
  }

  lemma {:induction false} MarkedAt(s: Items, deleted: set<bytes>, k: bytes)
    ensures At(MarkDeleted(s, deleted), k) ==
            if At(s, k).None? then None else Some(if k in deleted then None else At(s, k))
  {
    if s != [] {
      assert MarkDeleted(s, deleted)[1..] == MarkDeleted(s[1..], deleted);
      MarkedAt(s[1..], deleted, k);
    }
  }

  /** The index range found by the two searches covers every key of the domain. */
  lemma RangeCovers(strL: seq<bytes>, start: Option<bytes>, end: Option<bytes>, lo: int, hi: int)
    requires 0 <= lo && hi < |strL|
    requires forall i :: 0 <= i < lo && i < |strL| ==> Less(strL[i], AsString(start))
    requires hi == |strL| - 1 || forall i :: hi < i < |strL| ==> 0 <= i && LessEq(AsString(end), strL[i]) && end.Some?
    ensures forall i :: 0 <= i < |strL| && InDomain(strL[i], start, end) ==> lo <= i <= hi
  {
    TotalOrder();
  }
}
