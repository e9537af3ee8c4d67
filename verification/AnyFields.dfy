/** Unknown fields as trees, and the loops of `Unmarshal` and `skipAny`. */
module AnyFields {
  import opened Bytes
  import opened Gas
  import opened Varint
  import opened AnyCodec

  /** A field of any wire type; groups nest. */
  datatype Field =
    | VarintField(num: nat, v: uint64)
    | Fixed64Field(num: nat, data: bytes)
    | LenDelimited(num: nat, data: bytes)
    | Group(num: nat, fields: seq<Field>)
    | Fixed32Field(num: nat, data: bytes)

  /** Field numbers are 1 to 2^29 - 1, as the wire format requires. */
  predicate WellFormed(f: Field)
    decreases f
  {
    && 1 <= f.num < 0x2000_0000
    && (f.Fixed64Field? ==> |f.data| == 8)
    && (f.Fixed32Field? ==> |f.data| == 4)
    && (f.LenDelimited? ==> |f.data| < TWO63)
    && (f.Group? ==> forall i :: 0 <= i < |f.fields| ==> WellFormed(f.fields[i]))
  }

  function Tag(num: nat, wireType: nat): bytes {
    Encode(num * 8 + wireType)
  }

  function EncodeField(f: Field): bytes
    decreases f, 1
  {
    match f
    case VarintField(num, v) => Tag(num, 0) + Encode(v)
    case Fixed64Field(num, data) => Tag(num, 1) + data
    case LenDelimited(num, data) => Tag(num, 2) + (Encode(|data|) + data)
    case Group(num, fields) => Tag(num, 3) + (EncodeFields(fields) + Tag(num, 4))
    case Fixed32Field(num, data) => Tag(num, 5) + data
  }

  function EncodeFields(fs: seq<Field>): bytes
    decreases fs, 0
  {
    if fs == [] then [] else EncodeField(fs[0]) + EncodeFields(fs[1..])
  }

  /** What `SkipFrom` answers when a field of `n` bytes is followed by `rest`. */
  function After(n: nat, rest: bytes, depth: nat): Result<nat> {
    if depth == 0 then Ok(n)
    else if rest == [] then Err(Truncated)
    else match SkipFrom(rest, depth)
      case Err(e) => Err(e)
      case Ok(r) => Ok(n + r)
  }

  lemma TagDecodes(num: nat, wireType: nat, rest: bytes)
    requires 1 <= num < 0x2000_0000 && wireType < 8
    ensures Decode(Tag(num, wireType) + rest) == Ok((num * 8 + wireType, |Tag(num, wireType)|))
    ensures FieldNum(num * 8 + wireType) == num && (num * 8 + wireType) % 8 == wireType
  {
    VarintRoundTrip(num * 8 + wireType, rest);
  }

  /** A tag followed by its content, for the wire types that are not groups. */
  lemma SkipsPlain(num: nat, wireType: nat, body: bytes, rest: bytes, depth: nat)
    requires 1 <= num < 0x2000_0000 && wireType < 8 && wireType != 3 && wireType != 4
    requires SkipBody(wireType, body + rest) == Ok(|body|)
    ensures SkipFrom(Tag(num, wireType) + body + rest, depth) == After(|Tag(num, wireType)| + |body|, rest, depth)
  {
    hide Encode, Decode, SkipBody;
    var tag := Tag(num, wireType);
    var d := tag + body + rest;
    assert d == tag + (body + rest);
    TagDecodes(num, wireType, body + rest);
    assert d[|tag|..] == body + rest;
    assert d[|tag| + |body|..] == rest;
  }

  /** A group bracket changes the depth. */
  lemma SkipsBracket(num: nat, wireType: nat, rest: bytes, depth: nat)
    requires 1 <= num < 0x2000_0000 && (wireType == 3 || (wireType == 4 && depth > 0))
    ensures var depth' := if wireType == 3 then depth + 1 else depth - 1;
            SkipFrom(Tag(num, wireType) + rest, depth) == After(|Tag(num, wireType)|, rest, depth')
  {
    hide Encode, Decode, SkipBody;
    var tag := Tag(num, wireType);
    TagDecodes(num, wireType, rest);
    assert (tag + rest)[|tag| + 0..] == rest;
  }

  /** `skipAny` steps over exactly one field, groups within groups included, whatever follows. */
  lemma {:induction false} SkipsField(f: Field, rest: bytes, depth: nat)
    requires WellFormed(f)
    ensures SkipFrom(EncodeField(f) + rest, depth) == After(|EncodeField(f)|, rest, depth)
    decreases f, 1
  {
    hide SkipFrom, Encode, Decode, Groups;
    var num := f.num;
    match f
    case VarintField(_, v) =>
      PlainVarint(v, rest);
      SkipsPlain(num, 0, Encode(v), rest, depth);
    case Fixed64Field(_, data) =>
      SkipsPlain(num, 1, data, rest, depth);
    case LenDelimited(_, data) =>
      var body := Encode(|data|) + data;
      assert body + rest == Encode(|data|) + (data + rest);
      VarintRoundTrip(|data|, data + rest);
      SkipsPlain(num, 2, body, rest, depth);
    case Group(_, fields) =>
      var inner := EncodeFields(fields) + (Tag(num, 4) + rest);
      var endTag := Tag(num, 4);
      assert EncodeField(f) + rest == Tag(num, 3) + inner;
      SkipsBracket(num, 3, inner, depth);
      SkipsFields(fields, endTag + rest, depth + 1);
      SkipsBracket(num, 4, rest, depth + 1);
    case Fixed32Field(_, data) =>
      SkipsPlain(num, 5, data, rest, depth);
  }

  lemma PlainVarint(v: uint64, rest: bytes)
    ensures SkipBody(0, Encode(v) + rest) == Ok(|Encode(v)|)
  {
    Pow128Ten();
    GroupsOfEncoded(v, rest, 0);
  }

  lemma {:induction false} SkipsFields(fs: seq<Field>, rest: bytes, depth: nat)
    requires forall i :: 0 <= i < |fs| ==> WellFormed(fs[i])
    requires depth > 0 && rest != []
    ensures SkipFrom(EncodeFields(fs) + rest, depth) == After(|EncodeFields(fs)|, rest, depth)
    decreases fs, 0
  {
    hide SkipFrom, EncodeField;
    if fs == [] {
      assert EncodeFields(fs) + rest == rest;
    } else {
      var head, tail := EncodeField(fs[0]), EncodeFields(fs[1..]);
      assert EncodeFields(fs) + rest == head + (tail + rest);
      SkipsField(fs[0], tail + rest, depth);
      SkipsFields(fs[1..], rest, depth);
    }
  }

  predicate UnknownField(f: Field) {
    WellFormed(f) && f.num != 1 && f.num != 2
  }

  /** The tag at the start of a field's encoding. */
  lemma FieldTag(f: Field, rest: bytes)
    requires WellFormed(f)
    ensures EncodeField(f) != []
    ensures Decode(EncodeField(f) + rest).Ok?
    ensures var wire := Decode(EncodeField(f) + rest).value.0; FieldNum(wire) == f.num && wire % 8 != 4
  {
    hide Decode, Encode, EncodeFields;
    var wireType := match f case VarintField(_, _) => 0 case Fixed64Field(_, _) => 1 case LenDelimited(_, _) => 2
                            case Group(_, _) => 3 case Fixed32Field(_, _) => 5;
    var tag := Tag(f.num, wireType);
    assert |tag| >= 1;
    var more := (EncodeField(f) + rest)[|tag|..];
    assert EncodeField(f) + rest == tag + more;
    TagDecodes(f.num, wireType, more);
  }

  /** Every sequence of well-formed fields other than the two known ones decodes to itself. */
  lemma {:induction false} FieldsAreUnknownOnly(fs: seq<Field>)
    requires forall i :: 0 <= i < |fs| ==> UnknownField(fs[i])
    ensures UnknownOnly(EncodeFields(fs))
    decreases |fs|
  {
    hide Decode, SkipFrom, EncodeField;
    if fs != [] {
      var head, tail := EncodeField(fs[0]), EncodeFields(fs[1..]);
      var d := EncodeFields(fs);
      FieldsAreUnknownOnly(fs[1..]);
      FieldTag(fs[0], tail);
      SkipsField(fs[0], tail, 0);
      assert Skip(d) == Ok(|head|);
      assert d[..|head|] == head && d[|head|..] == tail && [] + head == head;
      assert ReadField(EMPTY, d) == Ok((EMPTY.(unrecognized := head), |head|));
      UnmarshalFrame(EMPTY, head, tail);
    }
  }

  /** Decoding inverts encoding for every message carrying well-formed unknown fields. */
  lemma {:induction false} AnyWithUnknownFieldsRoundTrip(typeUrl: bytes, value: bytes, fs: seq<Field>)
    requires |typeUrl| < TWO63 && |value| < TWO63
    requires forall i :: 0 <= i < |fs| ==> UnknownField(fs[i])
    ensures var a := Any(typeUrl, value, EncodeFields(fs));
            Unmarshal(EMPTY, Marshal(a)) == Ok(a)
  {
    FieldsAreUnknownOnly(fs);
    AnyRoundTrip(Any(typeUrl, value, EncodeFields(fs)));
  }

  // ---- The loops ----

  /** The varint skipping loop inside `skipAny`. */
  method SkipVarintLoop(d: bytes, start: nat) returns (r: Result<nat>)
    requires start <= |d|
    ensures r == (match Groups(d[start..], 0) case Err(e) => Err(e) case Ok((_, n)) => Ok(start + n))
  {
    var x := DecodeLoop(d, start);
    r := match x case Err(e) => Err(e) case Ok((_, i)) => Ok(i);
  }

  /** The cases of `skipAny` that are not group brackets. */
  method SkipBodyAt(wireType: nat, d: bytes, i: nat) returns (r: Result<nat>)
    requires i <= |d|
    ensures r == (match SkipBody(wireType, d[i..]) case Err(e) => Err(e) case Ok(k) => Ok(i + k))
  {
    match wireType {
      case 0 =>
        r := SkipVarintLoop(d, i);
      case 1 =>
        r := Ok(i + 8);
      case 2 =>
        var len := DecodeLoop(d, i);
        if len.Err? { return Err(len.error); }
        if len.value.0 >= TWO63 { return Err(Truncated); }
        r := Ok(len.value.1 + len.value.0);
      case 5 =>
        r := Ok(i + 4);
      case _ =>
        r := Err(IllegalWireType);
    }
  }

  /** `skipAny`. */
  method SkipLoop(d: bytes) returns (r: Result<nat>)
    ensures r == Skip(d)
  {
    hide Decode, SkipBody;
    var iNdEx, depth := 0, 0;
    assert d[0..] == d;
    while iNdEx < |d|
      invariant 0 <= iNdEx && 0 <= depth && (iNdEx == 0 ==> depth == 0)
      invariant iNdEx == 0 || depth > 0
      invariant iNdEx <= |d|
      invariant Skip(d) == (if iNdEx == 0 then SkipFrom(d, 0) else After(iNdEx, d[iNdEx..], depth))
      decreases |d| - iNdEx
    {
      var tag := DecodeLoop(d, iNdEx);
      if tag.Err? { return Err(tag.error); }
      var (wire, i) := tag.value;
      ghost var n := i - iNdEx;
      assert d[iNdEx..][n..] == d[i..];
      var wireType := wire % 8;
      var next := i;
      if wireType == 3 {
        depth := depth + 1;
      } else if wireType == 4 {
        if depth == 0 { return Err(UnexpectedEndGroup); }
        depth := depth - 1;
      } else {
        var body := SkipBodyAt(wireType, d, i);
        if body.Err? { return Err(body.error); }
        next := body.value;
      }
      if depth == 0 {
        return Ok(next);
      }
      if next >= |d| {
        return Err(Truncated);
      }
      assert d[iNdEx..][next - iNdEx..] == d[next..];
      iNdEx := next;
    }
    r := Err(Truncated);
  }

  /** One round of `Unmarshal`, at an index. */
  method ReadFieldAt(m: Any, d: bytes, preIndex: nat) returns (r: Result<(Any, nat)>)
    requires preIndex < |d|
    ensures r == (match ReadField(m, d[preIndex..]) case Err(e) => Err(e) case Ok((m', k)) => Ok((m', preIndex + k)))
  {
    hide Decode, SkipFrom;
    ghost var left := d[preIndex..];
    var tag := DecodeLoop(d, preIndex);
    if tag.Err? { return Err(tag.error); }
    var (wire, iNdEx) := tag.value;
    var fieldNum, wireType := FieldNum(wire), wire % 8;
    if wireType == 4 { return Err(EndGroup); }
    if fieldNum <= 0 { return Err(IllegalTag); }
    if fieldNum == 1 || fieldNum == 2 {
      if wireType != 2 { return Err(WrongWireType); }
      assert left[iNdEx - preIndex..] == d[iNdEx..];
      var len := DecodeLoop(d, iNdEx);
      if len.Err? { return Err(len.error); }
      var begin := len.value.1;
      var postIndex := begin + len.value.0;
      if postIndex > |d| { return Err(Truncated); }
      assert d[iNdEx..][begin - iNdEx..postIndex - iNdEx] == d[begin..postIndex];
      var content := d[begin..postIndex];
      return Ok((if fieldNum == 1 then m.(typeUrl := content) else m.(value := content), postIndex));
    }
    var skippy := SkipLoop(d[preIndex..]);
    if skippy.Err? { return Err(skippy.error); }
    if preIndex + skippy.value > |d| { return Err(Truncated); }
    assert left[..skippy.value] == d[preIndex..preIndex + skippy.value];
    r := Ok((m.(unrecognized := m.unrecognized + d[preIndex..preIndex + skippy.value]), preIndex + skippy.value));
  }

  /** `Unmarshal`. */
  method UnmarshalLoop(m0: Any, d: bytes) returns (r: Result<Any>)
    ensures r == Unmarshal(m0, d)
  {
    hide ReadField;
    var m, iNdEx := m0, 0;
    assert d[0..] == d;
    while iNdEx < |d|
      invariant 0 <= iNdEx <= |d|
      invariant Unmarshal(m0, d) == Unmarshal(m, d[iNdEx..])
      decreases |d| - iNdEx
    {
      var field := ReadFieldAt(m, d, iNdEx);
      if field.Err? { return Err(field.error); }
      assert d[iNdEx..][field.value.1 - iNdEx..] == d[field.value.1..];
      m, iNdEx := field.value.0, field.value.1;
    }
    r := Ok(m);
  }
}
