/** Exactly when the checker of unknown fields is right, and two messages on which it is not. */
module GroupFields {
  import opened Bytes
  import opened Gas
  import opened Varint
  import AnyCodec
  import AnyFields
  import opened UnknownProto
  import opened PermittedFields

  // ---- Exactly when the checker is right ----

  /** Field numbers of descriptors are 1 to 2^29 - 1, as the wire format requires. */
  ghost predicate ProtobufNumbers(env: Env) {
    forall ty, num :: Fields(env, ty).Some? && num in Fields(env, ty).value ==> 1 <= num < 0x2000_0000
  }

  ghost predicate OpensGroups(env: Env) {
    exists ty, num ::
      && Fields(env, ty).Some? && num in Fields(env, ty).value
      && OpenGroup(env, Fields(env, ty).value[num])
  }

  lemma {:induction false} NoOpenGroups(env: Env, d: bytes, ty: bytes)
    requires !OpensGroups(env)
    ensures GroupsEmpty(env, d, ty)
    decreases |d|
  {
    hide Parse, Nested, OpenGroup, CanEncodeType;
    if Fields(env, ty).Some? && Parse(d, env.limit).Some? {
      var desc := Fields(env, ty).value;
      forall f | f in Parse(d, env.limit).value && f.num in desc && Nested(env, desc[f.num], f).Some?
        ensures forall p :: p in Nested(env, desc[f.num], f).value ==> GroupsEmpty(env, p.1, p.0)
      {
        forall p | p in Nested(env, desc[f.num], f).value ensures GroupsEmpty(env, p.1, p.0) {
          NoOpenGroups(env, p.1, p.0);
        }
      }
    }
  }

  /** A non-critical field number that no descriptor has. */
  const UNUSED: int := 0x2000_0400

  /** An unknown non-critical field of value 0, and the type URL of an `Any` if there is one. */
  function Inner(url: bytes): bytes {
    AnyFields.Tag(UNUSED, 0) + ([0] + AnyCodec.LenField(0x0a, url))
  }

  function WithGroup(num: nat, url: bytes): bytes {
    AnyFields.Tag(num, 3) + (Inner(url) + AnyFields.Tag(num, 4))
  }

  lemma TagRead(num: nat, wireType: nat, rest: bytes)
    requires 1 <= num <= 0x7FFF_FFFF && wireType < 8
    ensures ConsumeTag(AnyFields.Tag(num, wireType) + rest) == Some((num, wireType, |AnyFields.Tag(num, wireType)|))
  {
    hide Consume;
    VarintRoundTrip(num * 8 + wireType, rest);
  }

  lemma SmallVarint(d: bytes)
    requires d != [] && d[0] < 128
    ensures Consume(d) == Some((d[0], 1))
  {
  }

  lemma UrlField(url: bytes, limit: int)
    requires url != [] && |url| < TWO64
    ensures Parse(AnyCodec.LenField(0x0a, url), limit) == Some([RawField(1, 2, Encode(|url|) + url)])
  {
    hide Consume, Encode;
    var d, v := AnyCodec.LenField(0x0a, url), Encode(|url|) + url;
    assert d == [0x0a] + v && d[1..] == v;
    SmallVarint(d);
    VarintRoundTrip(|url|, url);
    assert d[1..1 + |v|] == v && d[1 + |v|..] == [];
    assert [RawField(1, 2, v)] + [] == [RawField(1, 2, v)];
    ParseFirst(d, limit, 1, 2, 1, |v|);
  }

  lemma InnerParses(url: bytes, limit: int)
    requires |url| < TWO64
    ensures Parse(Inner(url), limit) ==
            Some([RawField(UNUSED, 0, [0])] + if url == [] then [] else [RawField(1, 2, Encode(|url|) + url)])
  {
    hide Consume, ConsumeTag, ConsumeGroup, Encode, Parse, AnyFields.Tag;
    var d, tag, rest := Inner(url), AnyFields.Tag(UNUSED, 0), AnyCodec.LenField(0x0a, url);
    TagRead(UNUSED, 0, [0] + rest);
    assert d[|tag|..] == [0] + rest;
    SmallVarint([0] + rest);
    assert d[|tag|..|tag| + 1] == [0] && d[|tag| + 1..] == rest;
    ParseFirst(d, limit, UNUSED, 0, |tag|, 1);
    if url == [] {
      assert Parse([], limit) == Some([]) by { ParseNothing(limit); }
    } else {
      UrlField(url, limit);
    }
  }

  /** The message with the group has one field, and the group in it the given content. */
  lemma GroupParses(num: nat, url: bytes, limit: int)
    requires 1 <= num < 0x2000_0000 && |url| < TWO64 && limit >= 0
    ensures var f := RawField(num, 3, Inner(url) + AnyFields.Tag(num, 4));
            Parse(WithGroup(num, url), limit) == Some([f]) && Content(f, limit) == Some(Inner(url))
  {
    hide Consume, ConsumeTag, ConsumeGroup, Parse, GroupEnd, Encode, Inner, AnyFields.Tag;
    var d, tag, end := WithGroup(num, url), AnyFields.Tag(num, 3), AnyFields.Tag(num, 4);
    var v := Inner(url) + end;
    InnerParses(url, limit - 1);
    assert end + [] == end;
    TagRead(num, 4, []);
    ListThenEnd(num, Inner(url), end, limit);
    TagRead(num, 3, v);
    assert d[|tag|..] == v && d[|tag|..|tag| + |v|] == v && d[|tag| + |v|..] == [];
    ParseNothing(limit);
    var f := RawField(num, 3, v);
    assert [f] + [] == [f];
    ParseFirst(d, limit, num, 3, |tag|, |v|);
  }

  lemma InnerUnmarshals(url: bytes)
    requires |url| < TWO64
    ensures AnyCodec.Unmarshal(AnyCodec.EMPTY, Inner(url)).Ok?
    ensures AnyCodec.Unmarshal(AnyCodec.EMPTY, Inner(url)).value.typeUrl == url
    ensures AnyCodec.Unmarshal(AnyCodec.EMPTY, Inner(url)).value.value == []
  {
    hide Encode, Decode, Groups, AnyCodec.Unmarshal, AnyCodec.ReadField;
    var d, tag, rest := Inner(url), AnyFields.Tag(UNUSED, 0), AnyCodec.LenField(0x0a, url);
    var m, k := AnyCodec.EMPTY.(unrecognized := d[..|tag| + 1]), |tag| + 1;
    InnerRead(url);
    assert d[k..] == rest;
    UnmarshalFirst(AnyCodec.EMPTY, d, m, k);
    if url == [] {
      UnmarshalNothing(m);
    } else {
      AnyCodec.ReadsLenField(m, 0x0a, url, []);
      assert rest + [] == rest;
      UnmarshalNothing(m.(typeUrl := url));
    }
  }

  lemma InnerRead(url: bytes)
    ensures var d, k := Inner(url), |AnyFields.Tag(UNUSED, 0)| + 1;
            AnyCodec.ReadField(AnyCodec.EMPTY, d) == Ok((AnyCodec.EMPTY.(unrecognized := d[..k]), k))
  {
    hide Encode, Groups, Decode;
    var d, tag, rest := Inner(url), AnyFields.Tag(UNUSED, 0), AnyCodec.LenField(0x0a, url);
    VarintRoundTrip(UNUSED * 8, [0] + rest);
    assert d[|tag|..] == [0] + rest;
    assert AnyCodec.SkipBody(0, [0] + rest) == Ok(1) by { OneByteBody(rest); }
    assert [] + d[..|tag| + 1] == d[..|tag| + 1];
  }

  lemma OneByteBody(rest: bytes)
    ensures AnyCodec.SkipBody(0, [0] + rest) == Ok(1)
  {
  }

  lemma UnmarshalFirst(m: AnyCodec.Any, d: bytes, m': AnyCodec.Any, k: nat)
    requires d != [] && AnyCodec.ReadField(m, d) == Ok((m', k))
    ensures AnyCodec.Unmarshal(m, d) == AnyCodec.Unmarshal(m', d[k..])
  {
    hide AnyCodec.ReadField;
  }

  lemma UnmarshalNothing(m: AnyCodec.Any)
    ensures AnyCodec.Unmarshal(m, []) == Ok(m)
  {
  }

  /** All of it is permitted to a lenient checker, ... */
  lemma InnerPermitted(env: Env, ty: bytes, url: bytes)
    requires ProtobufNumbers(env) && Fields(env, ty).Some? && |url| < TWO64
    requires url != [] ==> ty == ANY_TYPE
    ensures AllFieldsPermitted(env, Inner(url), ty, true)
  {
    hide Parse, Encode, Inner;
    InnerParses(url, env.limit);
    assert NonCritical(UNUSED);
  }

  /** ... and yet the actual one refuses it. */
  lemma InnerRefused(env: Env, fd: FieldDesc, url: bytes, rest: bytes)
    requires !IsScalar(fd.typ) && fd.typeName != []
    ensures !CheckNested(env, fd, Inner(url) + rest, true).ok
  {
    hide Consume, Encode, Fields, Check;
    var tag, after := AnyFields.Tag(UNUSED, 0), [0] + AnyCodec.LenField(0x0a, url) + rest;
    var v := Inner(url) + rest;
    assert v == tag + after;
    VarintRoundTrip(UNUSED * 8, after);
    assert v[|tag|..] == after && after[0] == 0;
    forall ty ensures !Check(env, after, ty, true).ok {
      ZeroTagRefused(env, after, ty);
    }
  }

  /** No field has number 0. */
  lemma ZeroTagRefused(env: Env, d: bytes, ty: bytes)
    requires d != [] && d[0] < 8
    ensures !Check(env, d, ty, true).ok
  {
    hide Consume, Fields;
    SmallVarint(d);
  }

  /** Every environment with such a group has a message on which the checker is wrong. */
  lemma {:induction false} GroupFails(env: Env, ty: bytes, num: int) returns (d: bytes)
    requires ProtobufNumbers(env) && Fields(env, ty).Some? && num in Fields(env, ty).value
    requires OpenGroup(env, Fields(env, ty).value[num])
    ensures AllFieldsPermitted(env, d, ty, true) && !Check(env, d, ty, true).ok
  {
    hide Parse, Inner, Content, CheckNested, Encode, Fields;
    var fd := Fields(env, ty).value[num];
    var url: bytes := [];
    if fd.typeName == ANY_TYPE_NAME {
      url :| |url| < TWO64 && env.resolve(url).Some?;
    }
    d := WithGroup(num, url);
    GroupParses(num, url, env.limit);
    var f := RawField(num, 3, Inner(url) + AnyFields.Tag(num, 4));
    GroupPermitted(env, fd, f, url);
    assert [f][0] == f;
    InnerRefused(env, fd, url, AnyFields.Tag(num, 4));
    OneField(env, d, ty, f, true);
  }

  lemma GroupPermitted(env: Env, fd: FieldDesc, f: RawField, url: bytes)
    requires ProtobufNumbers(env) && OpenGroup(env, fd) && |url| < TWO64 && Content(f, env.limit) == Some(Inner(url))
    requires if fd.typeName == ANY_TYPE_NAME then env.resolve(url).Some? else url == []
    ensures NestedPermitted(env, fd, f, true)
  {
    hide Parse, Inner, Content, Encode;
    if fd.typeName == ANY_TYPE_NAME {
      InnerUnmarshals(url);
      TwoMembers((ANY_TYPE, Inner(url)), (env.resolve(url).value, []));
      InnerPermitted(env, ANY_TYPE, url);
    } else {
      var t := env.registry(fd.typeName[1..]).value;
      InnerPermitted(env, t, []);
      assert forall p :: p in [(t, Inner(url))] <==> p == (t, Inner(url));
    }
  }

  /** The verdict on a message of one known field. */
  lemma OneField(env: Env, d: bytes, ty: bytes, f: RawField, allow: bool)
    requires Parse(d, env.limit) == Some([f]) && Fields(env, ty).Some? && f.num in Fields(env, ty).value
    requires CanEncodeType(f.wireType, Fields(env, ty).value[f.num].typ)
    ensures Check(env, d, ty, allow) == CheckNested(env, Fields(env, ty).value[f.num], f.value, allow)
  {
    hide CheckNested, ConsumeTag, ConsumeFieldValue, Fields, CanEncodeType;
    var (num, wireType, m) := ConsumeTag(d).value;
    var n := ConsumeFieldValue(num, wireType, d[m..], env.limit).value;
    var fs := Parse(d[m + n..], env.limit).value;
    assert |[f]| == 1 + |fs| && ([RawField(num, wireType, d[m..m + n])] + fs)[0] == [f][0];
    assert d[m + n..] == [];
    var desc := Fields(env, ty).value;
    assert CheckFields(env, d[m + n..], desc, allow) == CLEAN;
    assert f == RawField(num, wireType, d[m..m + n]) && CheckTag(desc, num, wireType, allow) == CLEAN;
    assert CheckFields(env, d, desc, allow) == Then(Then(CLEAN, CheckNested(env, desc[num], f.value, allow)), CLEAN);
  }

  /** The checker is exactly right on all inputs if and only if no descriptor has a group it goes
      into. */
  lemma {:induction false} CheckerRightIff(env: Env)
    requires ProtobufNumbers(env)
    ensures (forall d, ty, allow :: Check(env, d, ty, allow).ok <==> AllFieldsPermitted(env, d, ty, allow)) <==>
      !OpensGroups(env)
  {
    hide Check, AllFieldsPermitted, OpenGroup, ProtobufNumbers, GroupsEmpty;
    if OpensGroups(env) {
      var ty, num :|
        && Fields(env, ty).Some? && num in Fields(env, ty).value
        && OpenGroup(env, Fields(env, ty).value[num]);
      var d := GroupFails(env, ty, num);
    } else {
      forall d, ty, allow ensures Check(env, d, ty, allow).ok <==> AllFieldsPermitted(env, d, ty, allow) {
        NoOpenGroups(env, d, ty);
        AcceptedIffAllFieldsPermitted(env, d, ty, allow);
      }
    }
  }

  // ---- Two inputs ----

  const M: bytes := Ascii("M")
  const G: bytes := Ascii("G")

  /** Message `M` has a group of type `G` as field 1, and `G` a string as field 1. */
  function GroupEnv(): Env {
    Env(map[M := map[1 := FieldDesc(GROUP, Ascii(".G"))], G := map[1 := FieldDesc(STRING, [])]],
        x => if x == G then Some(G) else None, _ => None, 10000)
  }

  lemma GroupEnvFields()
    ensures Fields(GroupEnv(), M) == Some(map[1 := FieldDesc(GROUP, Ascii(".G"))])
    ensures Fields(GroupEnv(), G) == Some(map[1 := FieldDesc(STRING, [])])
    ensures Ascii(".G") != [] && Ascii(".G") != ANY_TYPE_NAME && Ascii(".G")[1..] == G
  {
    assert |M| == |G| == 1 && |ANY_TYPE| == 19 && M[0] != G[0];
  }

  /** A message whose one field, of number 1, is a group with this content. */
  function OneGroup(c: bytes): bytes {
    [0x0B] + (c + [0x0C])
  }

  lemma OneGroupParses(c: bytes, limit: int)
    requires Parse(c, limit - 1).Some? && limit >= 0
    ensures var f := RawField(1, 3, c + [0x0C]);
            Parse(OneGroup(c), limit) == Some([f]) && Content(f, limit) == Some(c)
  {
    hide Consume, ConsumeGroup, Parse, GroupEnd;
    var d, v := OneGroup(c), c + [0x0C];
    SmallVarint([0x0C]);
    ListThenEnd(1, c, [0x0C], limit);
    SmallVarint(d);
    assert d[1..] == v && d[1..1 + |v|] == v && d[1 + |v|..] == [];
    ParseNothing(limit);
    var f := RawField(1, 3, v);
    assert [f] + [] == [f];
    ParseFirst(d, limit, 1, 3, 1, |v|);
  }

  function Pairs(n: nat): bytes {
    if n == 0 then [] else [8, 1] + Pairs(n - 1)
  }

  lemma {:induction false} PairsParse(n: nat, limit: int)
    ensures Parse(Pairs(n), limit).Some? && |Pairs(n)| == 2 * n
  {
    hide Consume, Parse;
    if n == 0 {
      ParseNothing(limit);
    } else {
      var d := Pairs(n);
      PairsParse(n - 1, limit);
      SmallVarint(d);
      assert d[1..] == [1] + Pairs(n - 1) && d[1 + 1..] == Pairs(n - 1);
      SmallVarint(d[1..]);
      ParseFirst(d, limit, 1, 0, 1, 1);
    }
  }

  /** A field of number 99 and then fields of number 1, all of them varints. */
  function Hidden(): bytes {
    [0x98, 0x06] + ([0x0A] + Pairs(4))
  }

  lemma HiddenStarts(rest: bytes)
    ensures Consume([0x98, 0x06] + rest) == Some((792, 2))
  {
    assert ([0x98, 0x06] + rest)[1..] == [0x06] + rest;
    assert Groups([0x06] + rest, 1) == Ok((6, 1));
  }

  lemma HiddenParses(limit: int)
    ensures Parse(Hidden(), limit).Some? && RawField(99, 0, [0x0A]) in Parse(Hidden(), limit).value
  {
    hide Consume, Parse, Pairs;
    var d, rest := Hidden(), Pairs(4);
    HiddenStarts([0x0A] + rest);
    assert d[2..] == [0x0A] + rest && d[2..2 + 1] == [0x0A] && d[2 + 1..] == rest;
    SmallVarint(d[2..]);
    PairsParse(4, limit);
    ParseFirst(d, limit, 99, 0, 2, 1);
    assert Parse(d, limit).value[0] == RawField(99, 0, [0x0A]);
  }

  /** The checker takes the tag of field 99 for a length and what follows for a string. */
  lemma HiddenAccepted(env: Env)
    requires Fields(env, G) == Some(map[1 := FieldDesc(STRING, [])])
    ensures Check(env, [0x0A] + (Pairs(4) + [0x0C]), G, false) == CLEAN
  {
    hide Consume, Fields, Pairs, Parse, Check;
    var v := Pairs(4) + [0x0C];
    var d, f := [0x0A] + v, RawField(1, 2, v);
    PairsParse(4, 0);
    PairsStart(3);
    SmallVarint(d);
    SmallVarint(v);
    assert d[1..] == v && d[1..1 + 9] == v && d[1 + 9..] == [] && [f] + [] == [f];
    ParseNothing(env.limit);
    ParseFirst(d, env.limit, 1, 2, 1, 9);
    OneField(env, d, G, f, false);
  }

  lemma PairsStart(n: nat)
    ensures Pairs(n + 1) != [] && Pairs(n + 1)[0] == 8
  {
  }

  /** A strict check accepts a group that holds an unknown critical field. */
  lemma UnknownInGroupAccepted()
    ensures Check(GroupEnv(), OneGroup(Hidden()), M, false) == CLEAN
    ensures !AllFieldsPermitted(GroupEnv(), OneGroup(Hidden()), M, false)
  {
    hide Consume, Parse, Pairs, Check, Fields, Content, Hidden, OneGroup, GroupEnv;
    GroupEnvFields();
    var env := GroupEnv();
    var v := Hidden() + [0x0C];
    var f := RawField(1, 3, v);
    HiddenParses(9999);
    HiddenParses(10000);
    GroupLimit();
    OneGroupParses(Hidden(), 10000);
    HiddenCut(env);
    OneField(env, OneGroup(Hidden()), M, f, false);
    HiddenNotEmpty();
    OneBadForbids(env, f, Hidden(), RawField(99, 0, [0x0A]));
    assert [f][0] == f;
  }

  lemma GroupLimit()
    ensures GroupEnv().limit == 10000 && GroupEnv().registry(G) == Some(G)
  {
  }

  lemma HiddenCut(env: Env)
    requires Fields(env, G) == Some(map[1 := FieldDesc(STRING, [])]) && env.registry(G) == Some(G)
    ensures CheckNested(env, FieldDesc(GROUP, Ascii(".G")), Hidden() + [0x0C], false) == CLEAN
  {
    hide Consume, Check, Pairs;
    GroupEnvFields();
    var after := [0x0A] + (Pairs(4) + [0x0C]);
    var v := Hidden() + [0x0C];
    assert v == [0x98, 0x06] + after;
    HiddenStarts(after);
    assert v[2..] == after;
    HiddenAccepted(env);
  }

  /** An unknown critical field forbids the group it is in. */
  lemma OneBadForbids(env: Env, f: RawField, c: bytes, bad: RawField)
    requires Fields(env, G) == Some(map[1 := FieldDesc(STRING, [])]) && env.registry(G) == Some(G)
    requires f.num == 1 && Content(f, env.limit) == Some(c) && c != []
    requires Parse(c, env.limit).Some? && bad in Parse(c, env.limit).value && bad.num != 1
    ensures !FieldPermitted(env, f, map[1 := FieldDesc(GROUP, Ascii(".G"))], false)
  {
    hide Parse, Content, Fields;
    GroupEnvFields();
    assert !FieldPermitted(env, bad, map[1 := FieldDesc(STRING, [])], false);
    assert !AllFieldsPermitted(env, c, G, false);
    assert [(G, c)][0] == (G, c);
  }

  lemma HiddenNotEmpty()
    ensures Hidden() != []
  {
  }

  /** A lenient check refuses a group whose one field is the known one. */
  lemma KnownInGroupRefused()
    ensures AllFieldsPermitted(GroupEnv(), OneGroup([0x0A, 0x01, 0x61]), M, false)
    ensures !Check(GroupEnv(), OneGroup([0x0A, 0x01, 0x61]), M, true).ok
  {
    hide Consume, Parse, Check, Fields, Content, OneGroup, GroupEnv, CheckNested;
    GroupEnvFields();
    var env, c := GroupEnv(), [0x0A, 0x01, 0x61];
    var f := RawField(1, 3, c + [0x0C]);
    GroupLimit();
    KnownParses(9999);
    KnownParses(10000);
    OneGroupParses(c, 10000);
    KnownCut(env);
    OneField(env, OneGroup(c), M, f, true);
    KnownPermitted(env, f);
    assert forall g :: g in [f] <==> g == f;
  }

  lemma KnownParses(limit: int)
    ensures Parse([0x0A, 0x01, 0x61], limit) == Some([RawField(1, 2, [0x01, 0x61])])
  {
    hide Consume, Parse;
    var d: bytes := [0x0A, 0x01, 0x61];
    SmallVarint(d);
    assert d[1..] == [0x01, 0x61] && d[1..1 + 2] == [0x01, 0x61] && d[1 + 2..] == [];
    SmallVarint(d[1..]);
    ParseNothing(limit);
    ParseFirst(d, limit, 1, 2, 1, 2);
    assert [RawField(1, 2, [0x01, 0x61])] + [] == [RawField(1, 2, [0x01, 0x61])];
  }

  lemma KnownCut(env: Env)
    requires env.registry(G) == Some(G)
    ensures !CheckNested(env, FieldDesc(GROUP, Ascii(".G")), [0x0A, 0x01, 0x61] + [0x0C], true).ok
  {
    hide Consume, Fields, Check;
    GroupEnvFields();
    var v: bytes := [0x0A, 0x01, 0x61] + [0x0C];
    SmallVarint(v);
    assert v[1..] == [0x01, 0x61, 0x0C];
    ZeroTagRefused(env, v[1..], G);
  }

  lemma KnownPermitted(env: Env, f: RawField)
    requires Fields(env, G) == Some(map[1 := FieldDesc(STRING, [])]) && env.registry(G) == Some(G)
    requires f.num == 1 && f.wireType == 3 && Content(f, env.limit) == Some([0x0A, 0x01, 0x61])
    requires Parse([0x0A, 0x01, 0x61], env.limit) == Some([RawField(1, 2, [0x01, 0x61])])
    ensures FieldPermitted(env, f, map[1 := FieldDesc(GROUP, Ascii(".G"))], false)
  {
    hide Parse, Content, Fields;
    GroupEnvFields();
    var c, known := [0x0A, 0x01, 0x61], RawField(1, 2, [0x01, 0x61]);
    assert FieldPermitted(env, known, map[1 := FieldDesc(STRING, [])], false);
    assert forall g :: g in [known] <==> g == known;
    assert AllFieldsPermitted(env, c, G, false);
    assert forall p :: p in [(G, c)] <==> p == (G, c);
  }
}
