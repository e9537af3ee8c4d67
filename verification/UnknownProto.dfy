/** Rejecting unknown protobuf fields (`codec/unknownproto/unknown_fields.go`).

    The wire helpers are those of `protowire`; message descriptors, the type registry and the
    `Any` resolver are an arbitrary environment. */
module UnknownProto {
  import opened Bytes
  import opened Gas
  import opened Varint
  import AnyCodec
  import AnyFields

  // ---- protowire ----

  /** `protowire.ConsumeTag`: field number, wire type and length of the tag. */
  function ConsumeTag(d: bytes): (r: Option<(int, int, nat)>)
    ensures r.Some? ==> 1 <= r.value.0 <= 0x7FFF_FFFF && 0 <= r.value.1 < 8 && 1 <= r.value.2 <= |d|
  {
    match Consume(d)
    case None => None
    case Some((v, n)) => if 1 <= v / 8 <= 0x7FFF_FFFF then Some((v / 8, v % 8, n)) else None
  }

  /** `protowire.ConsumeFieldValue`: the length of a field's value; groups run to their matching
      end and may nest `depth` deep. */
  function ConsumeFieldValue(num: int, wireType: int, d: bytes, depth: int): (r: Option<nat>)
    ensures r.Some? ==> r.value <= |d|
    decreases |d|, 1
  {
    match wireType
    case 0 => (match Consume(d) case None => None case Some((_, n)) => Some(n))
    case 1 => if |d| < 8 then None else Some(8)
    case 2 => (match Consume(d) case None => None case Some((len, n)) => if n + len > |d| then None else Some(n + len))
    case 3 => if depth < 0 then None else ConsumeGroup(num, d, depth)
    case 5 => if |d| < 4 then None else Some(4)
    case _ => None
  }

  function ConsumeGroup(num: int, d: bytes, depth: int): (r: Option<nat>)
    ensures r.Some? ==> r.value <= |d|
    decreases |d|, 0
  {
    match ConsumeTag(d)
    case None => None
    case Some((num2, wireType2, n)) =>
      if wireType2 == 4 then (if num == num2 then Some(n) else None)
      else match ConsumeFieldValue(num2, wireType2, d[n..], depth - 1)
        case None => None
        case Some(k) =>
          match ConsumeGroup(num, d[n + k..], depth)
          case None => None
          case Some(r) => Some(n + k + r)
  }

  // ---- Descriptors ----

  datatype FieldType =
    | DOUBLE | FLOAT | INT64 | UINT64 | INT32 | FIXED64 | FIXED32 | BOOL | STRING
    | GROUP | MESSAGE | BYTES | UINT32 | ENUM | SFIXED32 | SFIXED64 | SINT32 | SINT64

  datatype FieldDesc = FieldDesc(typ: FieldType, typeName: bytes)

  predicate IsScalar(t: FieldType) {
    !(t.STRING? || t.GROUP? || t.MESSAGE? || t.BYTES?)
  }

  predicate IsVarintType(t: FieldType) {
    t.INT32? || t.INT64? || t.UINT32? || t.UINT64? || t.SINT32? || t.SINT64? || t.BOOL? || t.ENUM?
  }

  predicate IsFixed64Type(t: FieldType) {
    t.FIXED64? || t.SFIXED64? || t.DOUBLE?
  }

  /** `canEncodeType`: the table of wire types and descriptor types. */
  predicate CanEncodeType(wireType: int, t: FieldType) {
    match wireType
    case 0 => IsVarintType(t)
    case 1 => IsFixed64Type(t)
    case 2 => t.STRING? || t.BYTES? || t.MESSAGE? || IsVarintType(t) || IsFixed64Type(t)
    case 3 => t.GROUP?
    case 4 => t.GROUP?
    case 5 => t.FIXED32? || t.SFIXED32? || t.FLOAT?
    case _ => false
  }

  type MessageDesc = map<int, FieldDesc>

  /** Descriptors by message type, the registry behind type names, the `Any` resolver and the
      nesting limit of groups. */
  datatype Env = Env(descs: map<bytes, MessageDesc>, registry: bytes -> Option<bytes>,
                     resolve: bytes -> Option<bytes>, limit: int)

  const ANY_TYPE_NAME: bytes := Ascii(".google.protobuf.Any")
  const ANY_TYPE: bytes := Ascii("google.protobuf.Any")

  function Fields(env: Env, ty: bytes): Option<MessageDesc> {
    if ty == ANY_TYPE then Some(map[1 := FieldDesc(STRING, []), 2 := FieldDesc(BYTES, [])])
    else if ty in env.descs then Some(env.descs[ty])
    else None
  }

  /** Bit 11 of the field number marks a field that may be ignored. */
  predicate NonCritical(num: int) {
    (num / 1024) % 2 == 1
  }

  // ---- The checker ----

  /** Whether an unknown non-critical field was met, and whether the bytes were accepted. */
  datatype Verdict = Verdict(flag: bool, ok: bool)

  const CLEAN: Verdict := Verdict(false, true)

  /** A verdict on a part, then one on what follows (not reached after a rejection). */
  function Then(a: Verdict, b: Verdict): Verdict {
    if a.ok then Verdict(a.flag || b.flag, b.ok) else a
  }

  function Check(env: Env, d: bytes, ty: bytes, allow: bool): Verdict
    decreases |d|, 2
  {
    if d == [] then CLEAN
    else match Fields(env, ty)
      case None => Verdict(false, false)
      case Some(desc) => CheckFields(env, d, desc, allow)
  }

  function CheckFields(env: Env, d: bytes, desc: MessageDesc, allow: bool): Verdict
    decreases |d|, 1
  {
    if d == [] then CLEAN
    else match ConsumeTag(d)
      case None => Verdict(false, false)
      case Some((num, wireType, m)) =>
        var own := CheckTag(desc, num, wireType, allow);
        if !own.ok then own
        else match ConsumeFieldValue(num, wireType, d[m..], env.limit)
          case None => Verdict(own.flag, false)
          case Some(n) =>
            var nested := if num in desc then CheckNested(env, desc[num], d[m..m + n], allow) else CLEAN;
            Then(Then(own, nested), CheckFields(env, d[m + n..], desc, allow))
  }

  /** The verdict on a tag alone. */
  function CheckTag(desc: MessageDesc, num: int, wireType: int, allow: bool): Verdict {
    if num in desc then Verdict(false, CanEncodeType(wireType, desc[num].typ))
    else Verdict(NonCritical(num), NonCritical(num) && allow)
  }

  /** The verdict on the value of a known field. */
  function CheckNested(env: Env, fd: FieldDesc, value: bytes, allow: bool): Verdict
    decreases |value|, 3
  {
    if IsScalar(fd.typ) then CLEAN
    else if fd.typeName == [] then Verdict(false, fd.typ.STRING? || fd.typ.BYTES?)
    else match Consume(value)
      case None => Verdict(false, false)
      case Some((_, o)) =>
        var payload := value[o..];
        if fd.typeName == ANY_TYPE_NAME then
          var outer := Check(env, payload, ANY_TYPE, allow);
          match AnyCodec.Unmarshal(AnyCodec.EMPTY, payload)
          case Err(_) => Then(outer, Verdict(false, false))
          case Ok(any) =>
            AnyCodec.ValueShrinks(AnyCodec.EMPTY, payload);
            (match env.resolve(any.typeUrl)
             case None => Then(outer, Verdict(false, false))
             case Some(t) => Then(outer, Check(env, any.value, t, allow)))
        else match env.registry(fd.typeName[1..])
          case None => Verdict(false, false)
          case Some(t) => Check(env, payload, t, allow)
  }

  /** Where the source cuts a length prefix off, there is a varint to cut: the cut never panics.  In a
      group, which has no length prefix, it is the tag of the first field inside. */
  lemma PrefixPresent(fd: FieldDesc, num: int, wireType: int, d: bytes, limit: int)
    requires CanEncodeType(wireType, fd.typ) && !IsScalar(fd.typ)
    requires ConsumeFieldValue(num, wireType, d, limit).Some?
    ensures Consume(d[..ConsumeFieldValue(num, wireType, d, limit).value]).Some?
  {
    var n := ConsumeFieldValue(num, wireType, d, limit).value;
    assert wireType == 2 || wireType == 3;
    GroupsCut(d, 0, n);
    if wireType == 3 {
      assert Consume(d).Some?;
    }
  }

  /** A varint is determined by any prefix that contains it. */
  lemma {:induction false} GroupsCut(d: bytes, k: nat, n: nat)
    requires n <= |d|
    ensures Groups(d, k).Ok? && Groups(d, k).value.1 <= n ==> Groups(d[..n], k) == Groups(d, k)
    decreases |d|
  {
    if d != [] && n > 0 && d[0] >= 128 {
      GroupsCut(d[1..], k + 1, n - 1);
      assert d[..n][1..] == d[1..][..n - 1];
    }
  }

  /** `RejectUnknownFields`: the loop over the fields, recursing into nested messages. */
  method RejectUnknownFields(env: Env, bz: bytes, ty: bytes, allow: bool) returns (flag: bool, ok: bool)
    ensures Verdict(flag, ok) == Check(env, bz, ty, allow)
    decreases |bz|, 2
  {
    hide ConsumeTag, ConsumeFieldValue, CheckNested, CanEncodeType, NonCritical, Fields;
    flag, ok := false, true;
    if |bz| == 0 { return; }
    var fields := Fields(env, ty);
    if fields.None? { return false, false; }
    var desc := fields.value;
    var rest := bz;
    while |rest| > 0
      invariant |rest| <= |bz|
      invariant CheckFields(env, bz, desc, allow) == Then(Verdict(flag, true), CheckFields(env, rest, desc, allow))
      decreases |rest|
    {
      var tag := ConsumeTag(rest);
      if tag.None? { return flag, false; }
      var (num, wireType, m) := tag.value;
      if num in desc {
        if !CanEncodeType(wireType, desc[num].typ) { return flag, false; }
      } else {
        var isCriticalField := !NonCritical(num);
        if !isCriticalField { flag := true; }
        if isCriticalField || !allow { return flag, false; }
      }
      var n := ConsumeFieldValue(num, wireType, rest[m..], env.limit);
      if n.None? { return flag, false; }
      var value := rest[m..m + n.value];
      rest := rest[m + n.value..];
      if num in desc {
        var childFlag, childOk := RejectNested(env, desc[num], value, allow);
        flag := flag || childFlag;
        if !childOk { return flag, false; }
      }
    }
  }

  /** The recursive part of the loop body. */
  method RejectNested(env: Env, fd: FieldDesc, value: bytes, allow: bool) returns (flag: bool, ok: bool)
    ensures Verdict(flag, ok) == CheckNested(env, fd, value, allow)
    decreases |value|, 3
  {
    flag, ok := false, true;
    if IsScalar(fd.typ) { return; }
    if fd.typeName == [] { return false, fd.typ.STRING? || fd.typ.BYTES?; }
    var prefix := Consume(value);
    if prefix.None? { return false, false; }
    var payload := value[prefix.value.1..];
    if fd.typeName == ANY_TYPE_NAME {
      flag, ok := RejectUnknownFields(env, payload, ANY_TYPE, allow);
      if !ok { return; }
      var any := AnyFields.UnmarshalLoop(AnyCodec.EMPTY, payload);
      if any.Err? { return flag, false; }
      var t := env.resolve(any.value.typeUrl);
      if t.None? { return flag, false; }
      AnyCodec.ValueShrinks(AnyCodec.EMPTY, payload);
      var childFlag, childOk := RejectUnknownFields(env, any.value.value, t.value, allow);
      return flag || childFlag, childOk;
    }
    var t := env.registry(fd.typeName[1..]);
    if t.None? { return false, false; }
    flag, ok := RejectUnknownFields(env, payload, t.value, allow);
  }

  // ---- Strict and lenient ----

  /** Strict checking accepts exactly what lenient checking accepts without raising the flag. */
  lemma {:induction false} StrictIsLenientWithoutFlag(env: Env, d: bytes, ty: bytes)
    ensures Check(env, d, ty, false).ok <==> Check(env, d, ty, true) == CLEAN
    ensures Check(env, d, ty, false).ok ==> Check(env, d, ty, false) == CLEAN
    decreases |d|, 2
  {
    hide CheckFields, Fields;
    if d != [] && Fields(env, ty).Some? {
      StrictFields(env, d, Fields(env, ty).value);
    }
  }

  lemma {:induction false} StrictFields(env: Env, d: bytes, desc: MessageDesc)
    ensures CheckFields(env, d, desc, false).ok <==> CheckFields(env, d, desc, true) == CLEAN
    ensures CheckFields(env, d, desc, false).ok ==> CheckFields(env, d, desc, false) == CLEAN
    decreases |d|, 1
  {
    hide ConsumeTag, ConsumeFieldValue, CheckNested, CanEncodeType, NonCritical;
    if d != [] && ConsumeTag(d).Some? {
      var (num, wireType, m) := ConsumeTag(d).value;
      var n := ConsumeFieldValue(num, wireType, d[m..], env.limit);
      if n.Some? {
        if num in desc {
          StrictNested(env, desc[num], d[m..m + n.value]);
        }
        StrictFields(env, d[m + n.value..], desc);
      }
    }
  }

  lemma {:induction false} StrictNested(env: Env, fd: FieldDesc, value: bytes)
    ensures CheckNested(env, fd, value, false).ok <==> CheckNested(env, fd, value, true) == CLEAN
    ensures CheckNested(env, fd, value, false).ok ==> CheckNested(env, fd, value, false) == CLEAN
    decreases |value|, 3
  {
    hide Check, Consume;
    if !IsScalar(fd.typ) && fd.typeName != [] && Consume(value).Some? {
      var payload := value[Consume(value).value.1..];
      if fd.typeName == ANY_TYPE_NAME {
        StrictIsLenientWithoutFlag(env, payload, ANY_TYPE);
        var any := AnyCodec.Unmarshal(AnyCodec.EMPTY, payload);
        if any.Ok? && env.resolve(any.value.typeUrl).Some? {
          AnyCodec.ValueShrinks(AnyCodec.EMPTY, payload);
          StrictIsLenientWithoutFlag(env, any.value.value, env.resolve(any.value.typeUrl).value);
        }
      } else if env.registry(fd.typeName[1..]).Some? {
        StrictIsLenientWithoutFlag(env, payload, env.registry(fd.typeName[1..]).value);
      }
    }
  }
}
