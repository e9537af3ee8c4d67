/** The keyring (`crypto/keyring/keyring.go`): records stored under their name, and an index from
    addresses to names kept in the same key-value backend. */
module Keyring {
  import opened Bytes
  import opened OrderedDb

  /** A key record; `payload` is everything that neither names nor locates it. */
  datatype Info = Info(name: bytes, address: bytes, payload: bytes)

  /** The serialization of records, which is code of another module. */
  datatype Codec = Codec(marshal: Info -> bytes, unmarshal: bytes -> Option<Info>)

  ghost predicate Lawful(c: Codec) {
    forall i :: c.marshal(i) != [] && c.unmarshal(c.marshal(i)) == Some(i)
  }

  type Backend = map<bytes, bytes>

  // ---- Keys of the backend ----

  const INFO: bytes := Ascii("info")
  const ADDRESS: bytes := Ascii("address")

  function InfoKey(name: bytes): bytes {
    name + Ascii(".") + INFO
  }

  function HexDigit(n: int): byte
    requires 0 <= n < 16
  {
    if n < 10 then 48 + n else 87 + n
  }

  /** `hex.EncodeToString` */
  function Hex(b: bytes): (h: bytes)
    ensures |h| == 2 * |b|
  {
    if b == [] then [] else [HexDigit(b[0] / 16), HexDigit(b[0] % 16)] + Hex(b[1..])
  }

  function AddressKey(a: bytes): bytes {
    Hex(a) + Ascii(".") + ADDRESS
  }

  lemma {:induction false} HexInjective(a: bytes, b: bytes)
    requires Hex(a) == Hex(b)
    ensures a == b
  {
    if a != [] {
      assert |a| == |b|;
      assert Hex(a)[0] == Hex(b)[0] && Hex(a)[1] == Hex(b)[1];
      assert Hex(a)[2..] == Hex(a[1..]) && Hex(b)[2..] == Hex(b[1..]);
      HexInjective(a[1..], b[1..]);
      assert a == [a[0]] + a[1..] && b == [b[0]] + b[1..];
    }
  }

  lemma AppendInjective(a: bytes, b: bytes, suffix: bytes)
    requires a + suffix == b + suffix
    ensures a == b
  {
    assert a == (a + suffix)[..|a|] && b == (b + suffix)[..|b|];
  }

  lemma InfoKeyInjective(n: bytes, m: bytes)
    requires InfoKey(n) == InfoKey(m)
    ensures n == m
  {
    var suffix := Ascii(".") + INFO;
    assert InfoKey(n) == n + suffix && InfoKey(m) == m + suffix;
    AppendInjective(n, m, suffix);
  }

  lemma AddressKeyInjective(a: bytes, b: bytes)
    requires AddressKey(a) == AddressKey(b)
    ensures a == b
  {
    var suffix := Ascii(".") + ADDRESS;
    assert AddressKey(a) == Hex(a) + suffix && AddressKey(b) == Hex(b) + suffix;
    AppendInjective(Hex(a), Hex(b), suffix);
    HexInjective(a, b);
  }

  /** Names have distinct entries, addresses have distinct entries, and no entry is both. */
  lemma KeysDistinct()
    ensures forall n, m :: InfoKey(n) == InfoKey(m) ==> n == m
    ensures forall a, b :: AddressKey(a) == AddressKey(b) ==> a == b
    ensures forall n, a :: InfoKey(n) != AddressKey(a)
  {
    forall n, m | InfoKey(n) == InfoKey(m) ensures n == m {
      InfoKeyInjective(n, m);
    }
    forall a, b | AddressKey(a) == AddressKey(b) ensures a == b {
      AddressKeyInjective(a, b);
    }
    forall n, a ensures InfoKey(n) != AddressKey(a) {
      LastByte(n, a);
    }
  }

  lemma LastByte(n: bytes, a: bytes)
    ensures var k := InfoKey(n); k[|k| - 1] == 111
    ensures var k := AddressKey(a); k[|k| - 1] == 115
  {
    assert INFO[3] == 111 && ADDRESS[6] == 115;
  }

  // ---- Operations ----

  /** What a lookup returns: a record, an error, or neither (an empty index entry). */
  datatype Fetch = Found(info: Info) | NotFound | Neither | Corrupt

  function Fetched(c: Codec, db: Backend, infoKey: bytes): Fetch {
    match Lookup(db, infoKey)
    case None => NotFound
    case Some(data) =>
      if data == [] then NotFound
      else match c.unmarshal(data) case None => Corrupt case Some(info) => Found(info)
  }

  function Key(c: Codec, db: Backend, uid: bytes): Fetch {
    Fetched(c, db, InfoKey(uid))
  }

  function KeyByAddress(c: Codec, db: Backend, a: bytes): Fetch {
    match Lookup(db, AddressKey(a))
    case None => NotFound
    case Some(data) => if data == [] then Neither else Fetched(c, db, data)
  }

  predicate ExistsInDb(db: Backend, info: Info) {
    AddressKey(info.address) in db || InfoKey(info.name) in db
  }

  function WriteInfo(c: Codec, db: Backend, info: Info): (Backend, bool) {
    if ExistsInDb(db, info) then (db, false)
    else (db[InfoKey(info.name) := c.marshal(info)][AddressKey(info.address) := InfoKey(info.name)], true)
  }

  function ImportInfo(c: Codec, db: Backend, info: Info): (Backend, bool) {
    var f := Key(c, db, info.name);
    if f.Found? || f.Neither? then (db, false) else WriteInfo(c, db, info)
  }

  /** `NewAccount`, from the derived key on. */
  function NewAccount(c: Codec, db: Backend, info: Info): (Backend, bool) {
    var f := KeyByAddress(c, db, info.address);
    if f.Found? || f.Neither? then (db, false) else WriteInfo(c, db, info)
  }

  function Delete(c: Codec, db: Backend, uid: bytes): (Backend, bool) {
    match Key(c, db, uid)
    case Found(info) => (db - {AddressKey(info.address)} - {InfoKey(uid)}, true)
    case _ => (db, false)
  }

  function DeleteByAddress(c: Codec, db: Backend, a: bytes): (Backend, bool) {
    match KeyByAddress(c, db, a)
    case Found(info) => Delete(c, db, info.name)
    case _ => (db, false)
  }

  datatype Op =
    | Write(info: Info)
    | Import(info: Info)
    | Create(info: Info)
    | Remove(uid: bytes)
    | RemoveByAddress(a: bytes)

  function Step(c: Codec, db: Backend, op: Op): (Backend, bool) {
    match op
    case Write(info) => WriteInfo(c, db, info)
    case Import(info) => ImportInfo(c, db, info)
    case Create(info) => NewAccount(c, db, info)
    case Remove(uid) => Delete(c, db, uid)
    case RemoveByAddress(a) => DeleteByAddress(c, db, a)
  }

  function Run(c: Codec, db: Backend, ops: seq<Op>): Backend
    decreases |ops|
  {
    if ops == [] then db else Run(c, Step(c, db, ops[0]).0, ops[1..])
  }

  // ---- The records behind a backend ----

  type Records = map<bytes, Info>

  predicate Owned(recs: Records, a: bytes) {
    exists n :: n in recs && recs[n].address == a
  }

  ghost predicate Distinct(recs: Records) {
    && (forall n :: n in recs ==> recs[n].name == n)
    && (forall n, m :: n in recs && m in recs && recs[n].address == recs[m].address ==> n == m)
  }

  ghost predicate NamesHeld(c: Codec, db: Backend, recs: Records) {
    forall n :: Lookup(db, InfoKey(n)) == if n in recs then Some(c.marshal(recs[n])) else None
  }

  ghost predicate AddressesHeld(db: Backend, recs: Records) {
    && (forall a :: !Owned(recs, a) ==> AddressKey(a) !in db)
    && (forall n :: n in recs ==> Lookup(db, AddressKey(recs[n].address)) == Some(InfoKey(n)))
  }

  ghost predicate NothingElse(db: Backend) {
    forall k :: k in db ==> (exists n :: k == InfoKey(n)) || (exists a :: k == AddressKey(a))
  }

  /** A backend holds a set of records with distinct names and distinct addresses: one entry per
      name with the record, one entry per address with the name's key, and nothing else. */
  ghost predicate Holds(c: Codec, db: Backend, recs: Records) {
    Distinct(recs) && NamesHeld(c, db, recs) && AddressesHeld(db, recs) && NothingElse(db)
  }

  /** What the operations mean for the records. */
  ghost function StepRecords(recs: Records, op: Op): (Records, bool) {
    match op
    case Remove(uid) => (recs - {uid}, uid in recs)
    case RemoveByAddress(a) => (map n | n in recs && recs[n].address != a :: recs[n], Owned(recs, a))
    case _ => if op.info.name in recs || Owned(recs, op.info.address) then (recs, false)
      else (recs[op.info.name := op.info], true)
  }

  lemma KeyMeaning(c: Codec, db: Backend, recs: Records, uid: bytes)
    requires Lawful(c) && Holds(c, db, recs)
    ensures Key(c, db, uid) == if uid in recs then Found(recs[uid]) else NotFound
  {
    hide Distinct, AddressesHeld, NothingElse, InfoKey;
    assert Lookup(db, InfoKey(uid)) == if uid in recs then Some(c.marshal(recs[uid])) else None;
  }

  lemma KeyByAddressMeaning(c: Codec, db: Backend, recs: Records, a: bytes)
    requires Lawful(c) && Holds(c, db, recs)
    ensures !Owned(recs, a) ==> KeyByAddress(c, db, a) == NotFound
    ensures forall n :: n in recs && recs[n].address == a ==> KeyByAddress(c, db, a) == Found(recs[n])
  {
    hide Distinct, NamesHeld, NothingElse, InfoKey, AddressKey;
    forall n | n in recs && recs[n].address == a ensures KeyByAddress(c, db, a) == Found(recs[n]) {
      KeyMeaning(c, db, recs, n);
      InfoKeyNotEmpty(n);
    }
  }

  lemma InfoKeyNotEmpty(n: bytes)
    ensures InfoKey(n) != []
  {
  }

  lemma {:induction false} WriteKeeps(c: Codec, db: Backend, recs: Records, info: Info)
    requires Lawful(c) && Holds(c, db, recs)
    ensures var (db', ok) := WriteInfo(c, db, info);
            var (recs', ok') := StepRecords(recs, Write(info));
            ok == ok' && Holds(c, db', recs')
  {
    hide Distinct, NothingElse, InfoKey, AddressKey;
    assert InfoKey(info.name) in db <==> info.name in recs by {
      assert Lookup(db, InfoKey(info.name)).Some? <==> info.name in recs;
    }
    if Owned(recs, info.address) {
      var n :| n in recs && recs[n].address == info.address;
      assert Lookup(db, AddressKey(recs[n].address)).Some?;
    }
    assert AddressKey(info.address) in db <==> Owned(recs, info.address);
    if !ExistsInDb(db, info) {
      NamesAfterWrite(c, db, recs, info);
      AddressesAfterWrite(c, db, recs, info);
      DistinctAfterWrite(recs, info);
      NothingElseAfterWrite(c, db, info);
    }
  }

  function Written(c: Codec, db: Backend, info: Info): Backend {
    db[InfoKey(info.name) := c.marshal(info)][AddressKey(info.address) := InfoKey(info.name)]
  }

  lemma NamesAfterWrite(c: Codec, db: Backend, recs: Records, info: Info)
    requires NamesHeld(c, db, recs)
    ensures NamesHeld(c, Written(c, db, info), recs[info.name := info])
  {
    KeysDistinct();
    hide InfoKey, AddressKey;
    var db', recs' := Written(c, db, info), recs[info.name := info];
    forall n ensures Lookup(db', InfoKey(n)) == if n in recs' then Some(c.marshal(recs'[n])) else None {
      assert Lookup(db, InfoKey(n)) == if n in recs then Some(c.marshal(recs[n])) else None;
    }
  }

  lemma AddressesAfterWrite(c: Codec, db: Backend, recs: Records, info: Info)
    requires AddressesHeld(db, recs) && info.name !in recs && !Owned(recs, info.address)
    ensures AddressesHeld(Written(c, db, info), recs[info.name := info])
  {
    KeysDistinct();
    hide InfoKey, AddressKey;
    var db', recs' := Written(c, db, info), recs[info.name := info];
    assert info.name in recs' && recs'[info.name].address == info.address;
    forall a | Owned(recs, a) ensures Owned(recs', a) {
      var n :| n in recs && recs[n].address == a;
      assert n in recs' && recs'[n].address == a;
    }
    forall n | n in recs' ensures Lookup(db', AddressKey(recs'[n].address)) == Some(InfoKey(n)) {
      if n != info.name {
        assert Lookup(db, AddressKey(recs[n].address)) == Some(InfoKey(n));
      }
    }
  }

  lemma DistinctAfterWrite(recs: Records, info: Info)
    requires Distinct(recs) && info.name !in recs && !Owned(recs, info.address)
    ensures Distinct(recs[info.name := info])
  {
  }

  lemma NothingElseAfterWrite(c: Codec, db: Backend, info: Info)
    requires NothingElse(db)
    ensures NothingElse(Written(c, db, info))
  {
    hide InfoKey, AddressKey;
  }

  lemma {:induction false} DeleteKeeps(c: Codec, db: Backend, recs: Records, uid: bytes)
    requires Lawful(c) && Holds(c, db, recs)
    ensures var (db', ok) := Delete(c, db, uid);
            ok == (uid in recs) && Holds(c, db', recs - {uid})
  {
    hide Distinct, NamesHeld, AddressesHeld, NothingElse, InfoKey, AddressKey, Key;
    KeyMeaning(c, db, recs, uid);
    if uid in recs {
      NamesAfterDelete(c, db, recs, uid);
      AddressesAfterDelete(db, recs, uid);
      RestAfterDelete(db, recs, uid);
    } else {
      assert recs - {uid} == recs;
    }
  }

  function Deleted(db: Backend, recs: Records, uid: bytes): Backend
    requires uid in recs
  {
    db - {AddressKey(recs[uid].address)} - {InfoKey(uid)}
  }

  lemma NamesAfterDelete(c: Codec, db: Backend, recs: Records, uid: bytes)
    requires NamesHeld(c, db, recs) && uid in recs
    ensures NamesHeld(c, Deleted(db, recs, uid), recs - {uid})
  {
    KeysDistinct();
    hide InfoKey, AddressKey;
    var db', recs' := Deleted(db, recs, uid), recs - {uid};
    forall n ensures Lookup(db', InfoKey(n)) == if n in recs' then Some(c.marshal(recs'[n])) else None {
      assert Lookup(db, InfoKey(n)) == if n in recs then Some(c.marshal(recs[n])) else None;
    }
  }

  lemma AddressesAfterDelete(db: Backend, recs: Records, uid: bytes)
    requires AddressesHeld(db, recs) && Distinct(recs) && uid in recs
    ensures AddressesHeld(Deleted(db, recs, uid), recs - {uid})
  {
    KeysDistinct();
    hide InfoKey, AddressKey;
    var db', recs' := Deleted(db, recs, uid), recs - {uid};
    forall a | Owned(recs, a) && a != recs[uid].address ensures Owned(recs', a) {
      var n :| n in recs && recs[n].address == a;
      assert n in recs' && recs'[n].address == a;
    }
    forall n | n in recs' ensures Lookup(db', AddressKey(recs'[n].address)) == Some(InfoKey(n)) {
      assert Lookup(db, AddressKey(recs[n].address)) == Some(InfoKey(n));
    }
  }

  lemma RestAfterDelete(db: Backend, recs: Records, uid: bytes)
    requires Distinct(recs) && NothingElse(db) && uid in recs
    ensures Distinct(recs - {uid}) && NothingElse(Deleted(db, recs, uid))
  {
    hide InfoKey, AddressKey;
  }

  lemma {:induction false} DeleteByAddressKeeps(c: Codec, db: Backend, recs: Records, a: bytes)
    requires Lawful(c) && Holds(c, db, recs)
    ensures var (db', ok) := DeleteByAddress(c, db, a);
            var (recs', ok') := StepRecords(recs, RemoveByAddress(a));
            ok == ok' && Holds(c, db', recs')
  {
    hide NamesHeld, AddressesHeld, NothingElse, InfoKey, AddressKey, Delete, KeyByAddress;
    KeyByAddressMeaning(c, db, recs, a);
    var recs' := StepRecords(recs, RemoveByAddress(a)).0;
    if Owned(recs, a) {
      var n :| n in recs && recs[n].address == a;
      DeleteKeeps(c, db, recs, n);
      assert recs' == recs - {n};
    } else {
      assert recs' == recs;
    }
  }

  /** Every operation does to the backend what it means for the records, and reports success alike. */
  lemma {:induction false} StepRefines(c: Codec, db: Backend, recs: Records, op: Op)
    requires Lawful(c) && Holds(c, db, recs)
    ensures Step(c, db, op).1 == StepRecords(recs, op).1
    ensures Holds(c, Step(c, db, op).0, StepRecords(recs, op).0)
  {
    hide Holds, WriteInfo, Delete, DeleteByAddress;
    match op
    case Write(info) => WriteKeeps(c, db, recs, info);
    case Import(info) =>
      KeyMeaning(c, db, recs, info.name);
      WriteKeeps(c, db, recs, info);
    case Create(info) =>
      KeyByAddressMeaning(c, db, recs, info.address);
      WriteKeeps(c, db, recs, info);
    case Remove(uid) => DeleteKeeps(c, db, recs, uid);
    case RemoveByAddress(a) => DeleteByAddressKeeps(c, db, recs, a);
  }

  ghost function RunRecords(recs: Records, ops: seq<Op>): Records
    decreases |ops|
  {
    if ops == [] then recs else RunRecords(StepRecords(recs, ops[0]).0, ops[1..])
  }

  lemma {:induction false} RunRefines(c: Codec, db: Backend, recs: Records, ops: seq<Op>)
    requires Lawful(c) && Holds(c, db, recs)
    ensures Holds(c, Run(c, db, ops), RunRecords(recs, ops))
    decreases |ops|
  {
    hide Holds, Step, StepRecords;
    if ops != [] {
      StepRefines(c, db, recs, ops[0]);
      RunRefines(c, Step(c, db, ops[0]).0, StepRecords(recs, ops[0]).0, ops[1..]);
    }
  }

  lemma EmptyHolds(c: Codec)
    ensures Holds(c, map[], map[])
  {
  }

  /** After any run, names and addresses are in bijection: `Key` and `KeyByAddress` find the same
      records, lookups fail only by not finding, and deleting a key removes it from both indexes
      and nothing else from either. */
  lemma {:induction false} NamesAndAddressesAgree(c: Codec, ops: seq<Op>, uid: bytes, other: bytes)
    requires Lawful(c)
    ensures var db := Run(c, map[], ops);
            && (Key(c, db, uid).Found? || Key(c, db, uid) == NotFound)
            && (KeyByAddress(c, db, other).Found? || KeyByAddress(c, db, other) == NotFound)
            && (Key(c, db, uid).Found? ==>
                  var i := Key(c, db, uid).info;
                  i.name == uid && KeyByAddress(c, db, i.address) == Found(i))
            && (KeyByAddress(c, db, other).Found? ==>
                  var i := KeyByAddress(c, db, other).info;
                  i.address == other && Key(c, db, i.name) == Found(i))
    ensures var db := Run(c, map[], ops);
            Key(c, db, uid).Found? ==>
              var i, db' := Key(c, db, uid).info, Delete(c, db, uid).0;
              && Key(c, db', uid) == NotFound && KeyByAddress(c, db', i.address) == NotFound
              && (other != uid ==> Key(c, db', other) == Key(c, db, other))
              && (other != i.address ==> KeyByAddress(c, db', other) == KeyByAddress(c, db, other))
  {
    hide Run, Key, KeyByAddress, Delete, Holds;
    var db, recs := Run(c, map[], ops), RunRecords(map[], ops);
    EmptyHolds(c);
    RunRefines(c, map[], map[], ops);
    BothIndexes(c, db, recs, uid, other);
    DeleteKeeps(c, db, recs, uid);
    if uid in recs {
      BothIndexes(c, Delete(c, db, uid).0, recs - {uid}, uid, recs[uid].address);
      AfterDelete(c, db, recs, Delete(c, db, uid).0, uid, other);
    }
  }

  lemma BothIndexes(c: Codec, db: Backend, recs: Records, uid: bytes, a: bytes)
    requires Lawful(c) && Holds(c, db, recs)
    ensures Key(c, db, uid) == if uid in recs then Found(recs[uid]) else NotFound
    ensures uid in recs ==> recs[uid].name == uid && KeyByAddress(c, db, recs[uid].address) == Found(recs[uid])
    ensures !Owned(recs, a) ==> KeyByAddress(c, db, a) == NotFound
    ensures Owned(recs, a) ==> KeyByAddress(c, db, a).Found? && KeyByAddress(c, db, a).info.address == a
                               && Key(c, db, KeyByAddress(c, db, a).info.name) == KeyByAddress(c, db, a)
  {
    hide Key, KeyByAddress, NamesHeld, AddressesHeld, NothingElse;
    KeyMeaning(c, db, recs, uid);
    KeyByAddressMeaning(c, db, recs, a);
    if uid in recs {
      KeyByAddressMeaning(c, db, recs, recs[uid].address);
    }
    if Owned(recs, a) {
      var n :| n in recs && recs[n].address == a;
      KeyMeaning(c, db, recs, n);
    }
  }

  lemma AfterDelete(c: Codec, db: Backend, recs: Records, db': Backend, uid: bytes, other: bytes)
    requires Lawful(c) && Holds(c, db, recs) && uid in recs && Holds(c, db', recs - {uid})
    ensures KeyByAddress(c, db', recs[uid].address) == NotFound
    ensures other != uid ==> Key(c, db', other) == Key(c, db, other)
    ensures other != recs[uid].address ==> KeyByAddress(c, db', other) == KeyByAddress(c, db, other)
  {
    hide Key, KeyByAddress, NamesHeld, AddressesHeld, NothingElse;
    KeyMeaning(c, db, recs, other);
    KeyMeaning(c, db', recs - {uid}, other);
    KeyByAddressMeaning(c, db, recs, other);
    KeyByAddressMeaning(c, db', recs - {uid}, other);
    KeyByAddressMeaning(c, db', recs - {uid}, recs[uid].address);
    if other != recs[uid].address && Owned(recs, other) {
      var n :| n in recs && recs[n].address == other;
      assert n in recs - {uid} && (recs - {uid})[n].address == other;
    }
  }

  // ---- Listing ----

  predicate HasSuffix(k: bytes, suffix: bytes) {
    |k| >= |suffix| && k[|k| - |suffix|..] == suffix
  }

  /** The loop of `List`; `None` is an error. */
  function Collect(c: Codec, db: Backend, keys: seq<bytes>): Option<seq<Info>> {
    if keys == [] then Some([])
    else if !HasSuffix(keys[0], INFO) then Collect(c, db, keys[1..])
    else
      match Fetched(c, db, keys[0])
      case Found(info) =>
        (match Collect(c, db, keys[1..]) case None => None case Some(rest) => Some([info] + rest))
      case _ => None
  }

  function After(s: seq<Info>, rest: Option<seq<Info>>): Option<seq<Info>> {
    match rest case None => None case Some(t) => Some(s + t)
  }

  lemma AfterOne(s: seq<Info>, info: Info, rest: Option<seq<Info>>)
    ensures After([], rest) == rest
    ensures After(s, After([info], rest)) == After(s + [info], rest)
  {
    if rest.Some? {
      assert [] + rest.value == rest.value;
      assert s + ([info] + rest.value) == (s + [info]) + rest.value;
    }
  }

  /** What the loop does with the key at index `i`. */
  lemma CollectStep(c: Codec, db: Backend, keys: seq<bytes>, i: nat)
    requires i < |keys|
    ensures Collect(c, db, keys[i..]) ==
            if !HasSuffix(keys[i], INFO) then Collect(c, db, keys[i + 1..])
            else if Fetched(c, db, keys[i]).Found?
              then After([Fetched(c, db, keys[i]).info], Collect(c, db, keys[i + 1..]))
            else None
  {
    hide HasSuffix, Fetched;
    assert keys[i..][1..] == keys[i + 1..];
  }

  /** `List`, given the keys in the order the backend reports them. */
  method List(c: Codec, db: Backend, keys: seq<bytes>) returns (r: Option<seq<Info>>)
    ensures r == Collect(c, db, Sort(keys))
  {
    hide HasSuffix, Fetched, Sort, Sorted;
    var sorted := Sort(keys);
    var res: seq<Info> := [];
    assert sorted[0..] == sorted;
    ghost var whole := Collect(c, db, sorted);
    assert whole == After([], whole) by { AfterOne([], Info([], [], []), whole); }
    for i := 0 to |sorted|
      invariant whole == After(res, Collect(c, db, sorted[i..]))
    {
      hide Collect;
      CollectStep(c, db, sorted, i);
      if HasSuffix(sorted[i], INFO) {
        var f := Fetched(c, db, sorted[i]);
        if !f.Found? {
          return None;
        }
        AfterOne(res, f.info, Collect(c, db, sorted[i + 1..]));
        res := res + [f.info];
      }
    }
    assert sorted[|sorted|..] == [] && res + [] == res;
    r := Some(res);
  }

  lemma SuffixTells(n: bytes, a: bytes)
    ensures HasSuffix(InfoKey(n), INFO) && !HasSuffix(AddressKey(a), INFO)
  {
    LastByte(n, a);
    var k := AddressKey(a);
    assert k[|k| - 4..][3] == 115;
    assert INFO[3] == 111;
  }

  ghost predicate ListsExactly(keys: seq<bytes>, recs: Records, s: seq<Info>) {
    && (forall i :: i in s <==> InfoKey(i.name) in keys && i.name in recs && recs[i.name] == i)
    && (forall p, q :: 0 <= p < q < |s| ==> Less(InfoKey(s[p].name), InfoKey(s[q].name)))
  }

  lemma {:induction false} CollectMeaning(c: Codec, db: Backend, recs: Records, keys: seq<bytes>)
    requires Lawful(c) && Holds(c, db, recs) && StrictlySorted(keys) && forall k :: k in keys ==> k in db
    ensures Collect(c, db, keys).Some? && ListsExactly(keys, recs, Collect(c, db, keys).value)
  {
    hide Holds, Lawful, Fetched, HasSuffix, InfoKey, AddressKey, ListsExactly;
    if keys == [] {
      NothingListed(recs);
    } else {
      CollectMeaning(c, db, recs, keys[1..]);
      var k, rest := keys[0], Collect(c, db, keys[1..]).value;
      if n :| k == InfoKey(n) {
        SuffixTells(n, []);
        NameListed(c, db, recs, n);
        ListInfoKey(keys, recs, n, rest);
      } else {
        assert exists a :: k == AddressKey(a) by { OnlyTwoKinds(c, db, recs, k); }
        var a :| k == AddressKey(a);
        SuffixTells([], a);
        ListOtherKey(keys, recs, a, rest);
      }
    }
  }

  lemma NothingListed(recs: Records)
    ensures ListsExactly([], recs, [])
  {
  }

  lemma OnlyTwoKinds(c: Codec, db: Backend, recs: Records, k: bytes)
    requires Holds(c, db, recs) && k in db
    ensures (exists n :: k == InfoKey(n)) || (exists a :: k == AddressKey(a))
  {
  }

  lemma NameListed(c: Codec, db: Backend, recs: Records, n: bytes)
    requires Lawful(c) && Holds(c, db, recs) && InfoKey(n) in db
    ensures n in recs && recs[n].name == n && Fetched(c, db, InfoKey(n)) == Found(recs[n])
  {
    hide InfoKey;
    KeyMeaning(c, db, recs, n);
    assert Lookup(db, InfoKey(n)).Some?;
  }

  lemma ListInfoKey(keys: seq<bytes>, recs: Records, n: bytes, rest: seq<Info>)
    requires keys != [] && keys[0] == InfoKey(n) && StrictlySorted(keys) && n in recs && recs[n].name == n
    requires ListsExactly(keys[1..], recs, rest)
    ensures ListsExactly(keys, recs, [recs[n]] + rest)
  {
    KeysDistinct();
    hide InfoKey, AddressKey;
    var s := [recs[n]] + rest;
    assert keys == [keys[0]] + keys[1..];
    forall q | 0 <= q < |rest| ensures Less(InfoKey(n), InfoKey(rest[q].name)) {
      assert rest[q] in rest;
      var j :| 0 <= j < |keys[1..]| && keys[1..][j] == InfoKey(rest[q].name);
      assert keys[j + 1] == InfoKey(rest[q].name);
    }
    forall i ensures i in s <==> InfoKey(i.name) in keys && i.name in recs && recs[i.name] == i {
      assert i in rest <==> InfoKey(i.name) in keys[1..] && i.name in recs && recs[i.name] == i;
    }
  }

  lemma ListOtherKey(keys: seq<bytes>, recs: Records, a: bytes, rest: seq<Info>)
    requires keys != [] && keys[0] == AddressKey(a) && ListsExactly(keys[1..], recs, rest)
    ensures ListsExactly(keys, recs, rest)
  {
    KeysDistinct();
    hide InfoKey, AddressKey;
    assert keys == [keys[0]] + keys[1..];
  }

  /** After any run, `List` succeeds and returns every stored record exactly once, in the order of
      the names' keys, whatever order the backend reports its keys in. */
  lemma {:induction false} ListsEachKeyOnce(c: Codec, ops: seq<Op>, keys: seq<bytes>)
    requires Lawful(c)
    requires forall k :: k in keys <==> k in Run(c, map[], ops)
    requires forall i, j :: 0 <= i < j < |keys| ==> keys[i] != keys[j]
    ensures Collect(c, Run(c, map[], ops), Sort(keys)).Some?
    ensures var db := Run(c, map[], ops);
            var s := Collect(c, db, Sort(keys)).value;
            && (forall i :: i in s <==> Key(c, db, i.name) == Found(i))
            && (forall p, q :: 0 <= p < q < |s| ==> Less(InfoKey(s[p].name), InfoKey(s[q].name)))
  {
    hide Run, Key, Holds, Sort, Collect, InfoKey;
    var db, recs := Run(c, map[], ops), RunRecords(map[], ops);
    EmptyHolds(c);
    RunRefines(c, map[], map[], ops);
    SortedDistinct(keys, Sort(keys));
    CollectMeaning(c, db, recs, Sort(keys));
    var s := Collect(c, db, Sort(keys)).value;
    forall i ensures i in s <==> Key(c, db, i.name) == Found(i) {
      KeyMeaning(c, db, recs, i.name);
      if i.name in recs {
        HeldUnderName(c, db, recs, i.name);
      }
    }
  }

  /** The order in which the backend reports its keys does not matter, for any backend. */
  lemma {:induction false} ListIgnoresOrder(c: Codec, db: Backend, keys: seq<bytes>, keys': seq<bytes>)
    requires multiset(keys) == multiset(keys')
    ensures Collect(c, db, Sort(keys)) == Collect(c, db, Sort(keys'))
  {
    hide Collect;
    SortUnique(Sort(keys), Sort(keys'));
  }

  lemma HeldUnderName(c: Codec, db: Backend, recs: Records, n: bytes)
    requires Holds(c, db, recs) && n in recs
    ensures InfoKey(n) in db
  {
    hide InfoKey;
    assert Lookup(db, InfoKey(n)).Some?;
  }

  // ---- The object ----

  /** The keystore over its backend, updated in two steps by every write and delete. */
  class Keystore {
    const c: Codec
    var db: Backend

    constructor (c: Codec)
      ensures this.c == c && db == map[]
    {
      this.c := c;
      db := map[];
    }

    method WriteInfoCall(info: Info) returns (ok: bool)
      modifies this
      ensures (db, ok) == WriteInfo(c, old(db), info)
    {
      if AddressKey(info.address) in db {
        return false;
      }
      if InfoKey(info.name) in db {
        return false;
      }
      db := db[InfoKey(info.name) := c.marshal(info)];
      db := db[AddressKey(info.address) := InfoKey(info.name)];
      ok := true;
    }

    method ImportInfoCall(info: Info) returns (ok: bool)
      modifies this
      ensures (db, ok) == ImportInfo(c, old(db), info)
    {
      hide WriteInfo;
      var f := Key(c, db, info.name);
      if f.Found? || f.Neither? {
        return false;
      }
      ok := WriteInfoCall(info);
    }

    method NewAccountCall(info: Info) returns (ok: bool)
      modifies this
      ensures (db, ok) == NewAccount(c, old(db), info)
    {
      hide WriteInfo;
      var f := KeyByAddress(c, db, info.address);
      if f.Found? || f.Neither? {
        return false;
      }
      ok := WriteInfoCall(info);
    }

    method DeleteCall(uid: bytes) returns (ok: bool)
      modifies this
      ensures (db, ok) == Delete(c, old(db), uid)
    {
      hide Key, AddressKey, InfoKey;
      var f := Key(c, db, uid);
      if !f.Found? {
        return false;
      }
      db := db - {AddressKey(f.info.address)};
      db := db - {InfoKey(uid)};
      ok := true;
    }

    method DeleteByAddressCall(a: bytes) returns (ok: bool)
      modifies this
      ensures (db, ok) == DeleteByAddress(c, old(db), a)
    {
      hide KeyByAddress, Delete;
      var f := KeyByAddress(c, db, a);
      if !f.Found? {
        return false;
      }
      ok := DeleteCall(f.info.name);
    }
  }
}
