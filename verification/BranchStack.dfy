/** Branches of branches as values: levels of buffering over a bottom store. */
module BranchStack {
  import opened Bytes
  import opened OrderedDb
  import opened CacheKv

  /** One branch's buffers.  `unsorted` are the dirty keys not yet in the sorted buffer. */
  datatype Level = Level(cache: map<bytes, CValue>, deleted: set<bytes>, unsorted: set<bytes>,
                         sorted: map<bytes, bytes>)

  /** Branches over a bottom store, the topmost first. */
  datatype Stack = Base(m: map<bytes, bytes>) | Over(top: Level, below: Stack)

  const EMPTY := Level(map[], {}, {}, map[])

  /** The content a reader of the topmost branch should see. */
  function View(s: Stack): map<bytes, bytes> {
    match s
    case Base(m) => m
    case Over(top, below) => ViewOf(top.cache, View(below))
  }

  /** What an iterator over the sorted buffers of all levels shows for a key. */
  function Shown(s: Stack, k: bytes): Option<bytes> {
    match s
    case Base(m) => Lookup(m, k)
    case Over(top, below) =>
      if k in top.sorted then (if k in top.deleted then None else Some(top.sorted[k])) else Shown(below, k)
  }

  /** Some level has an unsorted write of the key. */
  predicate Unsorted(s: Stack, k: bytes) {
    s.Over? && (k in s.top.unsorted || Unsorted(s.below, k))
  }

  /** The buffers of one level fit together, and what it has read is what is below it. */
  ghost predicate ValidLevel(l: Level, below: map<bytes, bytes>) {
    && [] !in l.cache
    && (forall k :: k in l.deleted <==> k in l.cache && l.cache[k].dirty && l.cache[k].value.None?)
    && (forall k :: k in l.cache && !l.cache[k].dirty ==> l.cache[k].value == Lookup(below, k))
    && (forall k :: k in l.unsorted || k in l.sorted ==> k in l.cache && l.cache[k].dirty)
    && (forall k :: k in l.cache && l.cache[k].dirty && k !in l.unsorted ==>
          k in l.sorted && (l.cache[k].value.Some? ==> l.sorted[k] == l.cache[k].value.value))
  }

  ghost predicate ValidStack(s: Stack) {
    s.Over? ==> ValidLevel(s.top, View(s.below)) && ValidStack(s.below)
  }

  lemma TopOfStack(s: Stack)
    requires ValidStack(s) && s.Over?
    ensures ValidLevel(s.top, View(s.below)) && ValidStack(s.below) && View(s) == ViewOf(s.top.cache, View(s.below))
  {
  }

  // ---- Reading and writing ----

  /** A value recorded in the topmost branch. */
  function Put(l: Level, k: bytes, v: CValue): Level {
    Level(l.cache[k := v],
          if v.dirty && v.value.None? then l.deleted + {k} else l.deleted - {k},
          if v.dirty then l.unsorted + {k} else l.unsorted,
          l.sorted)
  }

  /** A read: every level down to the first that has the key records what it read. */
  function Fill(s: Stack, k: bytes): Stack {
    if s.Base? || k in s.top.cache then s
    else Over(Put(s.top, k, CValue(Lookup(View(s.below), k), false)), Fill(s.below, k))
  }

  lemma FillTop(s: Stack, k: bytes)
    requires s.Over?
    ensures k in s.top.cache ==> Fill(s, k) == s && Lookup(View(s), k) == s.top.cache[k].value
    ensures k !in s.top.cache ==>
      && Lookup(View(s), k) == Lookup(View(s.below), k)
      && Fill(s, k) == Over(Put(s.top, k, CValue(Lookup(View(s.below), k), false)), Fill(s.below, k))
  {
  }

  lemma FillBase(m: map<bytes, bytes>, k: bytes)
    ensures Fill(Base(m), k) == Base(m) && View(Base(m)) == m
  {
  }

  /** Reading changes no view. */
  lemma {:induction false} FillKeepsView(s: Stack, k: bytes)
    requires ValidStack(s) && k != []
    ensures ValidStack(Fill(s, k)) && View(Fill(s, k)) == View(s)
  {
    if s.Over? && k !in s.top.cache {
      FillKeepsView(s.below, k);
      MapsAgree(View(Fill(s, k)), View(s));
    }
  }

  /** A write or deletion updates the view as it would a map. */
  lemma {:induction false} PutView(s: Stack, k: bytes, value: Option<bytes>)
    requires ValidStack(s) && s.Over? && k != []
    ensures var s' := Over(Put(s.top, k, CValue(value, true)), s.below);
            && ValidStack(s')
            && View(s') == if value.Some? then View(s)[k := value.value] else View(s) - {k}
  {
    MapsAgree(View(Over(Put(s.top, k, CValue(value, true)), s.below)),
              if value.Some? then View(s)[k := value.value] else View(s) - {k});
  }

  /** A new branch shows what is below it. */
  lemma {:induction false} FreshView(below: Stack)
    requires ValidStack(below)
    ensures ValidStack(Over(EMPTY, below)) && View(Over(EMPTY, below)) == View(below)
  {
    MapsAgree(View(Over(EMPTY, below)), View(below));
  }

  // ---- Iterating ----

  /** The guard under which `dirtyItems` returns at once. */
  predicate Skips(start: Option<bytes>, end: Option<bytes>) {
    Less(AsString(end), AsString(start))
  }

  /** The guard under which it does so although the domain is not empty: an iteration without an
      end from a non-empty start. */
  predicate OpenEnded(start: Option<bytes>, end: Option<bytes>) {
    end.None? && AsString(start) != []
  }

  /** What `dirtyItems` does to one level. */
  ghost predicate Tidied(l: Level, l': Level, start: Option<bytes>, end: Option<bytes>) {
    && l'.cache == l.cache && l'.deleted == l.deleted
    && (Skips(start, end) ==> l' == l)
    && (!Skips(start, end) ==> forall k :: k in l'.unsorted ==> !InDomain(k, start, end))
  }

  /** What an iteration does to all of them. */
  ghost predicate AllTidied(s: Stack, s': Stack, start: Option<bytes>, end: Option<bytes>) {
    match s
    case Base(_) => s' == s
    case Over(top, below) => s'.Over? && Tidied(top, s'.top, start, end) && AllTidied(below, s'.below, start, end)
  }

  lemma {:induction false} TidiedView(s: Stack, s': Stack, start: Option<bytes>, end: Option<bytes>)
    requires AllTidied(s, s', start, end)
    ensures View(s') == View(s)
    ensures Skips(start, end) ==> s' == s
    ensures !Skips(start, end) ==> forall k :: Unsorted(s', k) ==> !InDomain(k, start, end)
  {
    if s.Over? {
      TidiedView(s.below, s'.below, start, end);
    }
  }

  /** A change below that keeps the view there keeps the view. */
  lemma ChangedBelow(s: Stack, below: Stack)
    requires s.Over? && ValidStack(s) && ValidStack(below) && View(below) == View(s.below)
    ensures ValidStack(Over(s.top, below)) && View(Over(s.top, below)) == View(s)
  {
  }

  lemma TidiedTop(s: Stack, s': Stack, start: Option<bytes>, end: Option<bytes>)
    requires ValidStack(s) && s.Over? && s'.Over? && Tidied(s.top, s'.top, start, end)
    requires ValidStack(s'.below) && View(s'.below) == View(s.below) && ValidLevel(s'.top, View(s'.below))
    ensures ValidStack(s') && View(s') == View(s)
    ensures AllTidied(s.below, s'.below, start, end) ==> AllTidied(s, s', start, end)
  {
  }

  /** Where no level has an unsorted write the sorted buffers show the view. */
  lemma {:induction false} ShownIsView(s: Stack, k: bytes)
    requires ValidStack(s) && !Unsorted(s, k)
    ensures Shown(s, k) == Lookup(View(s), k)
  {
    if s.Over? {
      ShownIsView(s.below, k);
    }
  }

  lemma EmptyDomain(start: Option<bytes>, end: Option<bytes>)
    requires end.Some? && Skips(start, end)
    ensures forall k :: !InDomain(k, start, end)
  {
    TotalOrder();
  }

  lemma SkipsMeaning(start: Option<bytes>, end: Option<bytes>)
    ensures OpenEnded(start, end) <==> end.None? && Skips(start, end)
  {
    TotalOrder();
    assert AsString(start) != [] ==> Less([], AsString(start));
  }

  /** No unsorted write at any level, in the domain, is out of step with the sorted buffers. */
  ghost predicate InStep(s: Stack, start: Option<bytes>, end: Option<bytes>) {
    forall k :: Unsorted(s, k) && InDomain(k, start, end) ==> Shown(s, k) == Lookup(View(s), k)
  }

  /** Iterating a stack shows its view over the domain exactly if the domain is not open-ended or
      the unsorted writes in it are in step. */
  lemma {:induction false} ShownIsViewIff(s: Stack, s': Stack, start: Option<bytes>, end: Option<bytes>)
    requires ValidStack(s) && ValidStack(s') && AllTidied(s, s', start, end)
    ensures (forall k :: InDomain(k, start, end) ==> Shown(s', k) == Lookup(View(s), k)) <==>
            !OpenEnded(start, end) || InStep(s, start, end)
  {
    hide InDomain, Less;
    TidiedView(s, s', start, end);
    SkipsMeaning(start, end);
    forall k | !Unsorted(s', k) ensures Shown(s', k) == Lookup(View(s), k) {
      ShownIsView(s', k);
    }
    if end.Some? && Skips(start, end) {
      EmptyDomain(start, end);
    }
  }
}
