/** What the checker of unknown fields should accept, said in terms of the fields of a message, and
    when it does. */
module PermittedFields {
  import opened Bytes
  import opened Gas
  import opened Varint
  import AnyCodec
  import AnyFields
  import opened UnknownProto

  // ---- The fields of a message ----

  datatype RawField = RawField(num: int, wireType: int, value: bytes)

  /** The fields of a byte string, independent of any descriptor. */
  function Parse(d: bytes, limit: int): (r: Option<seq<RawField>>)
    ensures r.Some? ==> forall f :: f in r.value ==> |f.value| < |d|
    decreases |d|
  {
    if d == [] then Some([])
    else match ConsumeTag(d)
      case None => None
      case Some((num, wireType, m)) =>
        match ConsumeFieldValue(num, wireType, d[m..], limit)
        case None => None
        case Some(n) =>
          match Parse(d[m + n..], limit)
          case None => None
          case Some(fs) => Some([RawField(num, wireType, d[m..m + n])] + fs)
  }

  /** Where the content of a group ends and its end tag begins. */
  function GroupEnd(num: int, d: bytes, depth: int): (r: Option<nat>)
    ensures r.Some? ==> r.value < |d|
    decreases |d|
  {
    match ConsumeTag(d)
    case None => None
    case Some((num2, wireType2, n)) =>
      if wireType2 == 4 then (if num == num2 then Some(0) else None)
      else match ConsumeFieldValue(num2, wireType2, d[n..], depth - 1)
        case None => None
        case Some(k) =>
          match GroupEnd(num, d[n + k..], depth)
          case None => None
          case Some(r) => Some(n + k + r)
  }

  /** What is inside a field: everything before the end tag of a group, or after a length prefix. */
  function Content(f: RawField, limit: int): (r: Option<bytes>)
    ensures r.Some? ==> |r.value| < |f.value|
  {
    if f.wireType == 3 then
      match GroupEnd(f.num, f.value, limit) case None => None case Some(e) => Some(f.value[..e])
    else
      match Consume(f.value) case None => None case Some((_, o)) => Some(f.value[o..])
  }

  // ---- One step at a time ----

  lemma ParseFirst(d: bytes, limit: int, num: int, wireType: int, m: nat, n: nat)
    requires ConsumeTag(d) == Some((num, wireType, m)) && ConsumeFieldValue(num, wireType, d[m..], limit) == Some(n)
    ensures Parse(d, limit) ==
            match Parse(d[m + n..], limit)
            case None => None
            case Some(fs) => Some([RawField(num, wireType, d[m..m + n])] + fs)
  {
    hide ConsumeTag, ConsumeFieldValue;
  }

  lemma ParseSteps(d: bytes, limit: int) returns (num: int, wireType: int, m: nat, n: nat)
    requires d != [] && Parse(d, limit).Some?
    ensures ConsumeTag(d) == Some((num, wireType, m)) && ConsumeFieldValue(num, wireType, d[m..], limit) == Some(n)
    ensures wireType != 4 && Parse(d[m + n..], limit).Some?
  {
    hide ConsumeTag, ConsumeFieldValue;
    num, wireType, m := ConsumeTag(d).value.0, ConsumeTag(d).value.1, ConsumeTag(d).value.2;
    n := ConsumeFieldValue(num, wireType, d[m..], limit).value;
    NoEndTag(num, d[m..], limit);
  }

  lemma NoEndTag(num: int, d: bytes, depth: int)
    ensures ConsumeFieldValue(num, 4, d, depth).None?
  {
  }

  lemma ParseNothing(limit: int)
    ensures Parse([], limit) == Some([])
  {
  }

  lemma GroupFirst(num: int, d: bytes, depth: int, num2: int, wireType2: int, m: nat, k: nat)
    requires ConsumeTag(d) == Some((num2, wireType2, m)) && wireType2 != 4
    requires ConsumeFieldValue(num2, wireType2, d[m..], depth - 1) == Some(k)
    ensures var n, e := ConsumeGroup(num, d[m + k..], depth), GroupEnd(num, d[m + k..], depth);
            && ConsumeGroup(num, d, depth) == (if n.Some? then Some(m + k + n.value) else None)
            && GroupEnd(num, d, depth) == if e.Some? then Some(m + k + e.value) else None
  {
    hide ConsumeTag, ConsumeFieldValue, ConsumeGroup, GroupEnd;
    GroupLengthFirst(num, d, depth, num2, wireType2, m, k);
    GroupEndFirst(num, d, depth, num2, wireType2, m, k);
  }

  lemma GroupLengthFirst(num: int, d: bytes, depth: int, num2: int, wireType2: int, m: nat, k: nat)
    requires ConsumeTag(d) == Some((num2, wireType2, m)) && wireType2 != 4
    requires ConsumeFieldValue(num2, wireType2, d[m..], depth - 1) == Some(k)
    ensures var n := ConsumeGroup(num, d[m + k..], depth);
            ConsumeGroup(num, d, depth) == if n.Some? then Some(m + k + n.value) else None
  {
    hide ConsumeTag, ConsumeFieldValue;
  }

  lemma GroupEndFirst(num: int, d: bytes, depth: int, num2: int, wireType2: int, m: nat, k: nat)
    requires ConsumeTag(d) == Some((num2, wireType2, m)) && wireType2 != 4
    requires ConsumeFieldValue(num2, wireType2, d[m..], depth - 1) == Some(k)
    ensures var e := GroupEnd(num, d[m + k..], depth);
            GroupEnd(num, d, depth) == if e.Some? then Some(m + k + e.value) else None
  {
    hide ConsumeTag, ConsumeFieldValue;
  }

  lemma GroupLast(num: int, d: bytes, depth: int, n: nat)
    requires ConsumeTag(d) == Some((num, 4, n))
    ensures ConsumeGroup(num, d, depth) == Some(n) && GroupEnd(num, d, depth) == Some(0)
  {
    hide ConsumeTag;
  }

  /** A group starts with its end tag, or with a field and then the rest of it. */
  lemma GroupSteps(num: int, d: bytes, depth: int) returns (last: bool, num2: int, wireType2: int, m: nat, k: nat)
    requires ConsumeGroup(num, d, depth).Some?
    ensures ConsumeTag(d) == Some((num2, wireType2, m))
    ensures last ==> num2 == num && wireType2 == 4
    ensures !last ==>
      && wireType2 != 4 && ConsumeFieldValue(num2, wireType2, d[m..], depth - 1) == Some(k)
      && ConsumeGroup(num, d[m + k..], depth).Some?
  {
    hide ConsumeTag, ConsumeFieldValue;
    num2, wireType2, m := ConsumeTag(d).value.0, ConsumeTag(d).value.1, ConsumeTag(d).value.2;
    last, k := wireType2 == 4, 0;
    if !last {
      k := ConsumeFieldValue(num2, wireType2, d[m..], depth - 1).value;
    }
  }

  lemma SliceCut(d: bytes, n: nat, m: nat)
    requires m <= n <= |d|
    ensures d[..n][m..] == d[m..][..n - m]
  {
  }

  lemma SliceMore(d: bytes, rest: bytes, m: nat)
    requires m <= |d|
    ensures (d + rest)[m..] == d[m..] + rest
  {
  }

  // ---- A field's bytes do not depend on what follows ----

  lemma ConsumeCut(d: bytes, n: nat)
    requires n <= |d| && Consume(d).Some? && Consume(d).value.1 <= n
    ensures Consume(d[..n]) == Consume(d)
  {
    GroupsCut(d, 0, n);
  }

  lemma TagCut(d: bytes, n: nat)
    requires n <= |d| && ConsumeTag(d).Some? && ConsumeTag(d).value.2 <= n
    ensures ConsumeTag(d[..n]) == ConsumeTag(d)
  {
    hide Consume;
    ConsumeCut(d, n);
  }

  lemma {:induction false} ValueCut(num: int, wireType: int, d: bytes, depth: int, n: nat)
    requires n <= |d| && ConsumeFieldValue(num, wireType, d, depth).Some?
      && ConsumeFieldValue(num, wireType, d, depth).value <= n
    ensures ConsumeFieldValue(num, wireType, d[..n], depth) == ConsumeFieldValue(num, wireType, d, depth)
    decreases |d|, 1
  {
    hide Consume, ConsumeTag, ConsumeGroup;
    if wireType == 0 || wireType == 2 {
      ConsumeCut(d, n);
    } else if wireType == 3 {
      GroupCut(num, d, depth, n);
    }
  }

  lemma {:induction false} GroupCut(num: int, d: bytes, depth: int, n: nat)
    requires n <= |d| && ConsumeGroup(num, d, depth).Some? && ConsumeGroup(num, d, depth).value <= n
    ensures ConsumeGroup(num, d[..n], depth) == ConsumeGroup(num, d, depth)
    decreases |d|, 0
  {
    hide ConsumeTag, ConsumeFieldValue, ConsumeGroup;
    var last, num2, wireType2, m, k := GroupSteps(num, d, depth);
    if last {
      GroupLast(num, d, depth, m);
      TagCut(d, n);
      GroupLast(num, d[..n], depth, m);
    } else {
      GroupFirst(num, d, depth, num2, wireType2, m, k);
      TagCut(d, n);
      ValueCut(num2, wireType2, d[m..], depth - 1, n - m);
      GroupCut(num, d[m + k..], depth, n - m - k);
      SliceCut(d, n, m);
      SliceCut(d, n, m + k);
      GroupFirst(num, d[..n], depth, num2, wireType2, m, k);
    }
  }

  lemma {:induction false} GroupsMore(d: bytes, k: nat, rest: bytes)
    requires Groups(d, k).Ok?
    ensures Groups(d + rest, k) == Groups(d, k)
    decreases |d|
  {
    if d[0] >= 128 {
      GroupsMore(d[1..], k + 1, rest);
      assert (d + rest)[1..] == d[1..] + rest;
    }
  }

  lemma TagMore(d: bytes, rest: bytes)
    requires ConsumeTag(d).Some?
    ensures ConsumeTag(d + rest) == ConsumeTag(d)
  {
    GroupsMore(d, 0, rest);
  }

  lemma {:induction false} ValueMore(num: int, wireType: int, d: bytes, depth: int, rest: bytes)
    requires ConsumeFieldValue(num, wireType, d, depth).Some?
    ensures ConsumeFieldValue(num, wireType, d + rest, depth) == ConsumeFieldValue(num, wireType, d, depth)
    decreases |d|, 1
  {
    hide ConsumeGroup;
    if wireType == 0 || wireType == 2 {
      GroupsMore(d, 0, rest);
    } else if wireType == 3 {
      GroupMore(num, d, depth, rest);
    }
  }

  lemma {:induction false} GroupMore(num: int, d: bytes, depth: int, rest: bytes)
    requires ConsumeGroup(num, d, depth).Some?
    ensures ConsumeGroup(num, d + rest, depth) == ConsumeGroup(num, d, depth)
    decreases |d|, 0
  {
    hide ConsumeTag, ConsumeFieldValue, ConsumeGroup;
    var last, num2, wireType2, m, k := GroupSteps(num, d, depth);
    TagMore(d, rest);
    if last {
      GroupLast(num, d, depth, m);
      GroupLast(num, d + rest, depth, m);
    } else {
      GroupFirst(num, d, depth, num2, wireType2, m, k);
      ValueMore(num2, wireType2, d[m..], depth - 1, rest);
      GroupMore(num, d[m + k..], depth, rest);
      SliceMore(d, rest, m);
      SliceMore(d, rest, m + k);
      GroupFirst(num, d + rest, depth, num2, wireType2, m, k);
    }
  }

  // ---- Deeper limits ----

  lemma {:induction false} ValueDeeper(num: int, wireType: int, d: bytes, depth: int, deeper: int)
    requires depth <= deeper && ConsumeFieldValue(num, wireType, d, depth).Some?
    ensures ConsumeFieldValue(num, wireType, d, deeper) == ConsumeFieldValue(num, wireType, d, depth)
    decreases |d|, 1
  {
    hide Consume, ConsumeTag, ConsumeGroup;
    if wireType == 3 {
      GroupDeeper(num, d, depth, deeper);
    }
  }

  lemma {:induction false} GroupDeeper(num: int, d: bytes, depth: int, deeper: int)
    requires depth <= deeper && ConsumeGroup(num, d, depth).Some?
    ensures ConsumeGroup(num, d, deeper) == ConsumeGroup(num, d, depth)
    decreases |d|, 0
  {
    hide ConsumeTag, ConsumeFieldValue, ConsumeGroup;
    var last, num2, wireType2, m, k := GroupSteps(num, d, depth);
    if last {
      GroupLast(num, d, depth, m);
      GroupLast(num, d, deeper, m);
    } else {
      GroupFirst(num, d, depth, num2, wireType2, m, k);
      ValueDeeper(num2, wireType2, d[m..], depth - 1, deeper - 1);
      GroupDeeper(num, d[m + k..], depth, deeper);
      GroupFirst(num, d, deeper, num2, wireType2, m, k);
    }
  }

  lemma {:induction false} ParseDeeper(d: bytes, limit: int, deeper: int)
    requires limit <= deeper && Parse(d, limit).Some?
    ensures Parse(d, deeper) == Parse(d, limit)
    decreases |d|
  {
    hide ConsumeTag, ConsumeFieldValue, Parse;
    if d == [] {
      ParseNothing(limit);
      ParseNothing(deeper);
    } else {
      var num, wireType, m, n := ParseSteps(d, limit);
      ValueDeeper(num, wireType, d[m..], limit, deeper);
      ParseDeeper(d[m + n..], limit, deeper);
      ParseFirst(d, limit, num, wireType, m, n);
      ParseFirst(d, deeper, num, wireType, m, n);
    }
  }

  /** The first `n` bytes are a list of fields of `e` bytes and then an end tag. */
  ghost predicate IsGroup(num: int, d: bytes, n: nat, e: nat, depth: int) {
    e < n <= |d| && ConsumeTag(d[e..]) == Some((num, 4, n - e)) && Parse(d[..e], depth - 1).Some?
  }

  lemma JustEnd(num: int, d: bytes, n: nat, depth: int)
    requires ConsumeTag(d) == Some((num, 4, n))
    ensures IsGroup(num, d, n, 0, depth)
  {
    hide ConsumeTag;
    assert d[0..] == d && d[..0] == [];
  }

  lemma OneMore(num: int, d: bytes, n: nat, e: nat, depth: int, num2: int, wireType2: int, m: nat, k: nat)
    requires ConsumeTag(d) == Some((num2, wireType2, m))
    requires ConsumeFieldValue(num2, wireType2, d[m..], depth - 1) == Some(k)
    requires IsGroup(num, d[m + k..], n, e, depth)
    ensures IsGroup(num, d, m + k + n, m + k + e, depth)
  {
    hide ConsumeTag, ConsumeFieldValue, Parse;
    var e' := m + k + e;
    TagCut(d, e');
    ValueCut(num2, wireType2, d[m..], depth - 1, e' - m);
    assert d[e'..] == d[m + k..][e..];
    SliceCut(d, e', m);
    SliceCut(d, e', m + k);
    ParseFirst(d[..e'], depth - 1, num2, wireType2, m, k);
  }

  /** The value of a group is a list of fields and then its end tag. */
  lemma {:induction false} GroupParts(num: int, d: bytes, depth: int)
    requires ConsumeGroup(num, d, depth).Some?
    ensures GroupEnd(num, d, depth).Some?
    ensures IsGroup(num, d, ConsumeGroup(num, d, depth).value, GroupEnd(num, d, depth).value, depth)
    decreases |d|
  {
    hide ConsumeTag, ConsumeFieldValue, ConsumeGroup, GroupEnd, IsGroup;
    var last, num2, wireType2, m, k := GroupSteps(num, d, depth);
    if last {
      GroupLast(num, d, depth, m);
      JustEnd(num, d, m, depth);
    } else {
      var rest := d[m + k..];
      GroupFirst(num, d, depth, num2, wireType2, m, k);
      GroupParts(num, rest, depth);
      OneMore(num, d, ConsumeGroup(num, rest, depth).value, GroupEnd(num, rest, depth).value, depth, num2, wireType2,
        m, k);
    }
  }

  /** The content of a group is what is between its tags: it parses, and its end tag follows it. */
  lemma {:induction false} GroupContent(f: RawField, limit: int)
    requires f.wireType == 3 && ConsumeGroup(f.num, f.value, limit) == Some(|f.value|)
    ensures Content(f, limit).Some? && Parse(Content(f, limit).value, limit).Some?
    ensures var c := Content(f, limit).value;
            c <= f.value && ConsumeTag(f.value[|c|..]) == Some((f.num, 4, |f.value| - |c|))
  {
    hide ConsumeTag, ConsumeGroup, GroupEnd, Parse;
    GroupParts(f.num, f.value, limit);
    ParseDeeper(f.value[..GroupEnd(f.num, f.value, limit).value], limit - 1, limit);
  }

  /** A group is empty exactly if its value is one varint. */
  lemma EmptyGroup(f: RawField, limit: int)
    requires f.wireType == 3 && ConsumeGroup(f.num, f.value, limit) == Some(|f.value|)
    ensures Consume(f.value).Some?
    ensures Content(f, limit) == Some([]) <==> Consume(f.value).value.1 == |f.value|
  {
    hide Consume, ConsumeFieldValue;
    GroupContent(f, limit);
    var (num2, wireType2, m) := ConsumeTag(f.value).value;
    if wireType2 == 4 {
      assert f.value[..0] == [];
    }
  }

  /** Conversely, a list of fields and an end tag are a group with that content. */
  lemma {:induction false} ListThenEnd(num: int, c: bytes, end: bytes, depth: int)
    requires Parse(c, depth - 1).Some? && ConsumeTag(end) == Some((num, 4, |end|))
    ensures ConsumeGroup(num, c + end, depth) == Some(|c| + |end|) && GroupEnd(num, c + end, depth) == Some(|c|)
    decreases |c|
  {
    hide ConsumeTag, ConsumeFieldValue, ConsumeGroup, GroupEnd, Parse;
    if c == [] {
      assert c + end == end;
      GroupLast(num, end, depth, |end|);
    } else {
      var num2, wireType2, m, k := ParseSteps(c, depth - 1);
      TagMore(c, end);
      ValueMore(num2, wireType2, c[m..], depth - 1, end);
      ListThenEnd(num, c[m + k..], end, depth);
      SliceMore(c, end, m);
      SliceMore(c, end, m + k);
      GroupFirst(num, c + end, depth, num2, wireType2, m, k);
    }
  }

  // ---- What is permitted ----

  /** The messages nested in a known field: the type and bytes of each, an `Any` giving two; `None`
      when the field cannot be taken apart or a type is not registered. */
  function Nested(env: Env, fd: FieldDesc, f: RawField): (r: Option<seq<(bytes, bytes)>>)
    ensures r.Some? ==> forall p :: p in r.value ==> |p.1| < |f.value|
  {
    if IsScalar(fd.typ) then Some([])
    else if fd.typeName == [] then (if fd.typ.STRING? || fd.typ.BYTES? then Some([]) else None)
    else match Content(f, env.limit)
      case None => None
      case Some(c) =>
        if fd.typeName == ANY_TYPE_NAME then
          match AnyCodec.Unmarshal(AnyCodec.EMPTY, c)
          case Err(_) => None
          case Ok(any) =>
            AnyCodec.ValueShrinks(AnyCodec.EMPTY, c);
            (match env.resolve(any.typeUrl) case None => None case Some(t) => Some([(ANY_TYPE, c), (t, any.value)]))
        else match env.registry(fd.typeName[1..])
          case None => None
          case Some(t) => Some([(t, c)])
  }

  /** Every field, at every depth and through every group and `Any`, is known with a permitted wire
      type or (if `allow`) an unknown non-critical one. */
  predicate AllFieldsPermitted(env: Env, d: bytes, ty: bytes, allow: bool)
    decreases |d|, 1
  {
    d == [] ||
    (&& Fields(env, ty).Some?
     && Parse(d, env.limit).Some?
     && forall f :: f in Parse(d, env.limit).value ==> FieldPermitted(env, f, Fields(env, ty).value, allow))
  }

  predicate FieldPermitted(env: Env, f: RawField, desc: MessageDesc, allow: bool)
    decreases |f.value|, 2
  {
    if f.num in desc then
      && CanEncodeType(f.wireType, desc[f.num].typ)
      && Nested(env, desc[f.num], f).Some?
      && forall p :: p in Nested(env, desc[f.num], f).value ==> AllFieldsPermitted(env, p.1, p.0, allow)
    else
      allow && NonCritical(f.num)
  }

  // ---- Where the checker reads groups wrong ----

  /** A group whose content the checker goes into: its type is registered and has a descriptor.  It
      takes the tag of the first field inside for a length prefix. */
  ghost predicate OpenGroup(env: Env, fd: FieldDesc) {
    && env.limit >= 0 && fd.typ.GROUP? && fd.typeName != []
    && if fd.typeName == ANY_TYPE_NAME then exists url: bytes :: |url| < TWO64 && env.resolve(url).Some?
       else env.registry(fd.typeName[1..]).Some? && Fields(env, env.registry(fd.typeName[1..]).value).Some?
  }

  /** Every such group in a message, at every depth, is empty. */
  ghost predicate GroupsEmpty(env: Env, d: bytes, ty: bytes)
    decreases |d|, 1
  {
    Fields(env, ty).Some? && Parse(d, env.limit).Some? ==>
      forall f :: f in Parse(d, env.limit).value ==> FieldGroupsEmpty(env, f, Fields(env, ty).value)
  }

  ghost predicate FieldGroupsEmpty(env: Env, f: RawField, desc: MessageDesc)
    decreases |f.value|, 2
  {
    f.num in desc && CanEncodeType(f.wireType, desc[f.num].typ) ==>
      && (OpenGroup(env, desc[f.num]) ==> Content(f, env.limit) == Some([]))
      && (Nested(env, desc[f.num], f).Some? ==>
            forall p :: p in Nested(env, desc[f.num], f).value ==> GroupsEmpty(env, p.1, p.0))
  }

  /** Where every group it goes into is empty, the checker accepts exactly the byte strings all of
      whose fields are permitted; strict checking then admits no unknown field at any depth. */
  lemma {:induction false} AcceptedIffAllFieldsPermitted(env: Env, d: bytes, ty: bytes, allow: bool)
    requires GroupsEmpty(env, d, ty)
    ensures Check(env, d, ty, allow).ok <==> AllFieldsPermitted(env, d, ty, allow)
    decreases |d|, 2
  {
    hide CheckFields, Fields, Parse, FieldPermitted, FieldGroupsEmpty;
    if d != [] && Fields(env, ty).Some? {
      AcceptedFields(env, d, Fields(env, ty).value, allow);
    }
  }

  lemma {:induction false} AcceptedFields(env: Env, d: bytes, desc: MessageDesc, allow: bool)
    requires Parse(d, env.limit).Some? ==> forall f :: f in Parse(d, env.limit).value ==> FieldGroupsEmpty(env, f, desc)
    ensures CheckFields(env, d, desc, allow).ok <==>
            && Parse(d, env.limit).Some?
            && forall f :: f in Parse(d, env.limit).value ==> FieldPermitted(env, f, desc, allow)
    decreases |d|, 1
  {
    hide ConsumeTag, ConsumeFieldValue, CheckNested, CheckTag, CheckFields, Parse, FieldPermitted, FieldGroupsEmpty;
    if d == [] {
      NoFields(env, desc, allow);
    } else if !StartsWithField(d, env.limit) {
      BadField(env, d, desc, allow);
    } else {
      var (num, wireType, m) := ConsumeTag(d).value;
      var n := ConsumeFieldValue(num, wireType, d[m..], env.limit).value;
      var f, rest := RawField(num, wireType, d[m..m + n]), Parse(d[m + n..], env.limit);
      ParseFirst(d, env.limit, num, wireType, m, n);
      CheckFirst(env, d, desc, allow, num, wireType, m, n);
      if rest.Some? {
        FirstOrRest(f, rest.value);
        ValueCut(num, wireType, d[m..], env.limit, n);
        assert d[m..][..n] == f.value;
        AcceptedField(env, f, desc, allow);
      }
      AcceptedFields(env, d[m + n..], desc, allow);
    }
  }

  lemma NoFields(env: Env, desc: MessageDesc, allow: bool)
    ensures CheckFields(env, [], desc, allow) == CLEAN && Parse([], env.limit) == Some([])
  {
  }

  predicate StartsWithField(d: bytes, limit: int) {
    var tag := ConsumeTag(d);
    tag.Some? && ConsumeFieldValue(tag.value.0, tag.value.1, d[tag.value.2..], limit).Some?
  }

  lemma BadField(env: Env, d: bytes, desc: MessageDesc, allow: bool)
    requires d != [] && !StartsWithField(d, env.limit)
    ensures !CheckFields(env, d, desc, allow).ok && Parse(d, env.limit).None?
  {
    hide ConsumeTag, ConsumeFieldValue, CheckNested, CheckTag;
  }

  lemma CheckFirst(env: Env, d: bytes, desc: MessageDesc, allow: bool, num: int, wireType: int, m: nat, n: nat)
    requires ConsumeTag(d) == Some((num, wireType, m))
    requires ConsumeFieldValue(num, wireType, d[m..], env.limit) == Some(n)
    ensures CheckFields(env, d, desc, allow).ok <==>
            && CheckTag(desc, num, wireType, allow).ok
            && (num in desc ==> CheckNested(env, desc[num], d[m..m + n], allow).ok)
            && CheckFields(env, d[m + n..], desc, allow).ok
  {
    hide ConsumeTag, ConsumeFieldValue, CheckNested, CheckTag;
  }

  lemma FirstOrRest(f: RawField, rest: seq<RawField>)
    ensures forall g :: g in [f] + rest <==> g == f || g in rest
  {
    assert ([f] + rest)[0] == f;
  }

  /** The value of the field is all of its bytes. */
  predicate Whole(f: RawField, limit: int) {
    ConsumeFieldValue(f.num, f.wireType, f.value, limit) == Some(|f.value|)
  }

  lemma {:induction false} AcceptedField(env: Env, f: RawField, desc: MessageDesc, allow: bool)
    requires FieldGroupsEmpty(env, f, desc) && Whole(f, env.limit)
    ensures FieldPermitted(env, f, desc, allow) <==>
            && CheckTag(desc, f.num, f.wireType, allow).ok
            && (f.num in desc ==> CheckNested(env, desc[f.num], f.value, allow).ok)
    decreases |f.value|, 4
  {
    hide CheckNested, Nested, CanEncodeType, AllFieldsPermitted, OpenGroup, Whole, Content;
    if f.num in desc && CanEncodeType(f.wireType, desc[f.num].typ) {
      AcceptedNested(env, desc[f.num], f, allow);
    }
  }

  lemma {:induction false} AcceptedNested(env: Env, fd: FieldDesc, f: RawField, allow: bool)
    requires CanEncodeType(f.wireType, fd.typ) && Whole(f, env.limit)
    requires OpenGroup(env, fd) ==> Content(f, env.limit) == Some([])
    requires Nested(env, fd, f).Some? ==> forall p :: p in Nested(env, fd, f).value ==> GroupsEmpty(env, p.1, p.0)
    ensures CheckNested(env, fd, f.value, allow).ok <==> NestedPermitted(env, fd, f, allow)
    decreases |f.value|, 3
  {
    hide Check, Consume, AllFieldsPermitted, GroupsEmpty, OpenGroup, Content, ConsumeGroup, NestedPermitted, Nested,
      CheckNested;
    if IsScalar(fd.typ) || fd.typeName == [] {
      PlainField(env, fd, f, allow);
    } else {
      HasPrefix(fd, f, env.limit);
      var c := f.value[Consume(f.value).value.1..];
      if Content(f, env.limit) == Some(c) {
        AcceptedContent(env, fd, f, c, allow);
      } else {
        ShutGroup(env, fd, f, allow);
      }
    }
  }

  predicate NestedPermitted(env: Env, fd: FieldDesc, f: RawField, allow: bool) {
    && Nested(env, fd, f).Some?
    && forall p :: p in Nested(env, fd, f).value ==> AllFieldsPermitted(env, p.1, p.0, allow)
  }

  lemma PlainField(env: Env, fd: FieldDesc, f: RawField, allow: bool)
    requires IsScalar(fd.typ) || fd.typeName == []
    ensures CheckNested(env, fd, f.value, allow).ok <==> NestedPermitted(env, fd, f, allow)
  {
  }

  /** The varint that the checker cuts off is the length prefix, unless the field is a group; and in
      an empty group, what is left is empty too. */
  lemma HasPrefix(fd: FieldDesc, f: RawField, limit: int)
    requires CanEncodeType(f.wireType, fd.typ) && Whole(f, limit) && !IsScalar(fd.typ)
    ensures Consume(f.value).Some?
    ensures f.wireType == 2 ==> Content(f, limit) == Some(f.value[Consume(f.value).value.1..])
    ensures f.wireType != 2 ==> f.wireType == 3 && limit >= 0 && fd.typ.GROUP? && Content(f, limit).Some?
    ensures f.wireType != 2 ==> (Content(f, limit) == Some([]) <==> f.value[Consume(f.value).value.1..] == [])
  {
    hide Consume, ConsumeGroup, GroupEnd;
    if f.wireType == 3 {
      EmptyGroup(f, limit);
      GroupContent(f, limit);
    }
  }

  lemma {:induction false} AcceptedContent(env: Env, fd: FieldDesc, f: RawField, c: bytes, allow: bool)
    requires !IsScalar(fd.typ) && fd.typeName != [] && Consume(f.value).Some?
    requires c == f.value[Consume(f.value).value.1..] && Content(f, env.limit) == Some(c)
    requires Nested(env, fd, f).Some? ==> forall p :: p in Nested(env, fd, f).value ==> GroupsEmpty(env, p.1, p.0)
    ensures CheckNested(env, fd, f.value, allow).ok <==> NestedPermitted(env, fd, f, allow)
    decreases |f.value|, 2
  {
    hide Check, Consume, AllFieldsPermitted, GroupsEmpty, Content;
    if fd.typeName == ANY_TYPE_NAME {
      var any := AnyCodec.Unmarshal(AnyCodec.EMPTY, c);
      if any.Ok? && env.resolve(any.value.typeUrl).Some? {
        var t := env.resolve(any.value.typeUrl).value;
        TwoMembers((ANY_TYPE, c), (t, any.value.value));
        AnyCodec.ValueShrinks(AnyCodec.EMPTY, c);
        AcceptedIffAllFieldsPermitted(env, c, ANY_TYPE, allow);
        AcceptedIffAllFieldsPermitted(env, any.value.value, t, allow);
      }
    } else if env.registry(fd.typeName[1..]).Some? {
      var t := env.registry(fd.typeName[1..]).value;
      assert forall p :: p in [(t, c)] <==> p == (t, c);
      AcceptedIffAllFieldsPermitted(env, c, t, allow);
    }
  }

  lemma TwoMembers<T>(a: T, b: T)
    ensures forall p :: p in [a, b] <==> p == a || p == b
  {
    assert [a, b][0] == a && [a, b][1] == b;
  }

  /** A group that is not empty and has no known type is refused, as it should be. */
  lemma ShutGroup(env: Env, fd: FieldDesc, f: RawField, allow: bool)
    requires !OpenGroup(env, fd) && env.limit >= 0 && fd.typ.GROUP? && fd.typeName != [] && Consume(f.value).Some?
    requires f.value[Consume(f.value).value.1..] != []
    requires Content(f, env.limit).Some? && Content(f, env.limit).value != []
    ensures !CheckNested(env, fd, f.value, allow).ok && !NestedPermitted(env, fd, f, allow)
  {
    hide Consume, Content;
    var c, payload := Content(f, env.limit).value, f.value[Consume(f.value).value.1..];
    if fd.typeName == ANY_TYPE_NAME {
      UrlFits(AnyCodec.EMPTY, c);
      UrlFits(AnyCodec.EMPTY, payload);
    } else if env.registry(fd.typeName[1..]).Some? {
      var t := env.registry(fd.typeName[1..]).value;
      assert [(t, c)][0] == (t, c);
    }
  }

  lemma {:induction false} UrlFits(m: AnyCodec.Any, d: bytes)
    requires |m.typeUrl| < TWO64
    ensures AnyCodec.Unmarshal(m, d).Ok? ==> |AnyCodec.Unmarshal(m, d).value.typeUrl| < TWO64
    decreases |d|
  {
    hide AnyCodec.Skip, Decode;
    if d != [] && AnyCodec.ReadField(m, d).Ok? {
      var (m', k) := AnyCodec.ReadField(m, d).value;
      UrlFits(m', d[k..]);
    }
  }
}
