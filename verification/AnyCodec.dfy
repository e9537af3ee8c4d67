/** Wire format of `google.protobuf.Any` (`codec/types/any.pb.go`).

    `Truncated` stands for both `io.ErrUnexpectedEOF` and `ErrInvalidLengthAny`: which of the two
    the source returns for a length beyond the data depends only on 64-bit wrap-around. */
module AnyCodec {
  import opened Bytes
  import opened Gas
  import opened Varint

  datatype Any = Any(typeUrl: bytes, value: bytes, unrecognized: bytes)

  const EMPTY: Any := Any([], [], [])

  /** A tag byte, a length and the bytes; nothing for an empty field. */
  function LenField(tag: byte, content: bytes): bytes {
    if content == [] then [] else [tag] + Encode(|content|) + content
  }

  function Marshal(a: Any): bytes {
    LenField(0x0a, a.typeUrl) + LenField(0x12, a.value) + a.unrecognized
  }

  function Size(a: Any): nat {
    (if a.typeUrl != [] then 1 + |a.typeUrl| + Sov(|a.typeUrl|) else 0)
    + (if a.value != [] then 1 + |a.value| + Sov(|a.value|) else 0)
    + |a.unrecognized|
  }

  lemma SizeIsLength(a: Any)
    ensures Size(a) == |Marshal(a)|
  {
    SovIsLength(|a.typeUrl|);
    SovIsLength(|a.value|);
  }

  // ---- The backwards writer ----

  /** `encodeVarintAny`: the varint ends just before `offset`; its start is returned. */
  method EncodeVarintAny(buf: array<byte>, end: nat, v: nat) returns (start: nat)
    requires |Encode(v)| <= end <= buf.Length
    modifies buf
    ensures start == end - |Encode(v)|
    ensures buf[start..] == Encode(v) + old(buf[end..]) && buf[..start] == old(buf[..start])
  {
    hide Encode, Sov;
    SovIsLength(v);
    start := end - Sov(v);
    var offset, rest := start, v;
    assert buf[start..offset] + Encode(v) == Encode(v);
    while rest >= 128
      invariant start <= offset < end && offset + |Encode(rest)| == end
      invariant buf[start..offset] + Encode(rest) == Encode(v)
      invariant buf[..start] == old(buf[..start]) && buf[end..] == old(buf[end..])
      decreases rest
    {
      ghost var done := buf[start..offset];
      EncodeStep(done, rest);
      buf[offset] := rest % 128 + 128;
      assert buf[start..offset + 1] == done + [rest % 128 + 128];
      rest := rest / 128;
      offset := offset + 1;
    }
    ghost var done := buf[start..offset];
    EncodeStep(done, rest);
    buf[offset] := rest;
    assert buf[start..end] == done + [rest];
    assert buf[start..] == buf[start..end] + buf[end..];
  }

  lemma EncodeStep(done: bytes, v: nat)
    ensures v < 128 ==> Encode(v) == [v]
    ensures v >= 128 ==> |Encode(v)| == 1 + |Encode(v / 128)|
    ensures v >= 128 ==> done + Encode(v) == (done + [v % 128 + 128]) + Encode(v / 128)
  {
  }

  /** One length-delimited field, written backwards in front of `end`. */
  method WriteLenField(buf: array<byte>, end: nat, tag: byte, content: bytes) returns (start: nat)
    requires |LenField(tag, content)| <= end <= buf.Length
    modifies buf
    ensures start == end - |LenField(tag, content)|
    ensures buf[start..] == LenField(tag, content) + old(buf[end..]) && buf[..start] == old(buf[..start])
  {
    hide Encode;
    start := end;
    if |content| > 0 {
      ghost var before := buf[..];
      start := CopyInto(buf, end, content);
      ghost var copied := buf[..];
      start := EncodeVarintAny(buf, start, |content|);
      ghost var sized := buf[..];
      start := PutByte(buf, start, tag);
      ThreePieces(before, copied, sized, buf[..], [tag], Encode(|content|), content, start, end);
    } else {
      assert LenField(tag, content) + buf[end..] == buf[end..];
    }
  }

  lemma ThreePieces(s0: bytes, s1: bytes, s2: bytes, s3: bytes, a: bytes, b: bytes, c: bytes, start: nat, end: nat)
    requires |s0| == |s1| == |s2| == |s3| && start + |a| + |b| + |c| == end <= |s0|
    requires s1[end - |c|..] == c + s0[end..] && s1[..end - |c|] == s0[..end - |c|]
    requires s2[start + |a|..] == b + s1[end - |c|..] && s2[..start + |a|] == s1[..start + |a|]
    requires s3[start..] == a + s2[start + |a|..] && s3[..start] == s2[..start]
    ensures s3[start..] == (a + b + c) + s0[end..] && s3[..start] == s0[..start]
  {
    assert s0[..start] == s0[..end - |c|][..start];
    assert s1[..start] == s1[..end - |c|][..start] && s1[..start] == s1[..start + |a|][..start];
    assert s2[..start] == s2[..start + |a|][..start];
  }

  /** `i--; dAtA[i] = b` */
  method PutByte(buf: array<byte>, end: nat, b: byte) returns (start: nat)
    requires 0 < end <= buf.Length
    modifies buf
    ensures start == end - 1
    ensures buf[start..] == [b] + old(buf[end..]) && buf[..start] == old(buf[..start])
  {
    start := end - 1;
    buf[start] := b;
  }

  /** `i -= len(content); copy(dAtA[i:], content)` */
  method CopyInto(buf: array<byte>, end: nat, content: bytes) returns (start: nat)
    requires |content| <= end <= buf.Length
    modifies buf
    ensures start == end - |content|
    ensures buf[start..] == content + old(buf[end..]) && buf[..start] == old(buf[..start])
  {
    start := end - |content|;
    for k := 0 to |content|
      invariant buf[start..start + k] == content[..k]
      invariant buf[..start] == old(buf[..start]) && buf[end..] == old(buf[end..])
    {
      buf[start + k] := content[k];
      assert buf[start..start + k + 1] == buf[start..start + k] + [content[k]];
      assert content[..k + 1] == content[..k] + [content[k]];
    }
    assert content[..|content|] == content;
    assert buf[start..] == buf[start..end] + buf[end..];
  }

  /** `MarshalToSizedBuffer`: the encoding fills the end of the buffer. */
  method MarshalToSizedBuffer(a: Any, buf: array<byte>) returns (n: nat)
    requires Size(a) <= buf.Length
    modifies buf
    ensures n == Size(a)
    ensures buf[buf.Length - n..] == Marshal(a)
    ensures buf[..buf.Length - n] == old(buf[..buf.Length - n])
  {
    hide LenField, Size;
    SizeIsLength(a);
    ghost var before := buf[..];
    var i := CopyInto(buf, buf.Length, a.unrecognized);
    ghost var copied := buf[..];
    i := WriteLenField(buf, i, 0x12, a.value);
    ghost var valued := buf[..];
    i := WriteLenField(buf, i, 0x0a, a.typeUrl);
    ThreePieces(before, copied, valued, buf[..], LenField(0x0a, a.typeUrl), LenField(0x12, a.value), a.unrecognized,
      i, buf.Length);
    assert before[buf.Length..] == [];
    n := buf.Length - i;
  }

  // ---- Skipping one field ----

  /** The bytes of a field after its tag, for the wire types that are not groups; the count may
      run past the end of `d`. */
  function SkipBody(wireType: nat, d: bytes): Result<nat> {
    match wireType
    case 0 => (match Groups(d, 0) case Err(e) => Err(e) case Ok((_, n)) => Ok(n))
    case 1 => Ok(8)
    case 2 => (match Decode(d)
               case Err(e) => Err(e)
               case Ok((len, n)) => if len >= TWO63 then Err(Truncated) else Ok(n + len))
    case 5 => Ok(4)
    case _ => Err(IllegalWireType)
  }

  /** `skipAny` with `depth` groups open: how many bytes up to the end of the current field. */
  function SkipFrom(d: bytes, depth: nat): Result<nat>
    decreases |d|
  {
    if d == [] then Err(Truncated)
    else match Decode(d)
      case Err(e) => Err(e)
      case Ok((wire, n)) =>
        var wireType := wire % 8;
        if wireType == 4 && depth == 0 then Err(UnexpectedEndGroup)
        else
          var depth' := if wireType == 3 then depth + 1 else if wireType == 4 then depth - 1 else depth;
          var body := if wireType == 3 || wireType == 4 then Ok(0) else SkipBody(wireType, d[n..]);
          match body
          case Err(e) => Err(e)
          case Ok(k) =>
            if depth' == 0 then Ok(n + k)
            else if n + k >= |d| then Err(Truncated)
            else match SkipFrom(d[n + k..], depth')
              case Err(e) => Err(e)
              case Ok(r) => Ok(n + k + r)
  }

  function Skip(d: bytes): (r: Result<nat>)
    ensures r.Ok? ==> r.value >= 1
  {
    SkipFrom(d, 0)
  }

  // ---- Reading ----

  /** `int32(wire >> 3)`: the low 32 bits, as a signed number. */
  function FieldNum(wire: uint64): int {
    var low := (wire / 8) % 0x1_0000_0000;
    if low >= 0x8000_0000 then low - 0x1_0000_0000 else low
  }

  /** The content of a length-delimited field at the start of `d`, and where it ends. */
  function ReadLen(d: bytes): (r: Result<(bytes, nat)>)
    ensures r.Ok? ==> 1 <= r.value.1 <= |d| && |r.value.0| < r.value.1
  {
    match Decode(d)
    case Err(e) => Err(e)
    case Ok((len, n)) => if n + len > |d| then Err(Truncated) else Ok((d[n..n + len], n + len))
  }

  /** One round of `Unmarshal`: the message with the field at the start of `d` taken in, and how
      many bytes the field took. */
  function ReadField(m: Any, d: bytes): (r: Result<(Any, nat)>)
    requires d != []
    ensures r.Ok? ==> 1 <= r.value.1 <= |d|
  {
    match Decode(d)
    case Err(e) => Err(e)
    case Ok((wire, n)) =>
      var num, wireType := FieldNum(wire), wire % 8;
      if wireType == 4 then Err(EndGroup)
      else if num <= 0 then Err(IllegalTag)
      else if num == 1 || num == 2 then
        if wireType != 2 then Err(WrongWireType)
        else (match ReadLen(d[n..])
              case Err(e) => Err(e)
              case Ok((content, k)) => Ok((if num == 1 then m.(typeUrl := content) else m.(value := content), n + k)))
      else match Skip(d)
        case Err(e) => Err(e)
        case Ok(k) => if k > |d| then Err(Truncated) else Ok((m.(unrecognized := m.unrecognized + d[..k]), k))
  }

  /** `Unmarshal` into a message that already has some fields. */
  function Unmarshal(m: Any, d: bytes): Result<Any>
    decreases |d|
  {
    if d == [] then Ok(m)
    else match ReadField(m, d)
      case Err(e) => Err(e)
      case Ok((m', k)) => Unmarshal(m', d[k..])
  }

  /** The decoded value is shorter than its encoding. */
  lemma {:induction false} ValueShrinks(m: Any, d: bytes)
    ensures Unmarshal(m, d).Ok? ==> |Unmarshal(m, d).value.value| < |d| || Unmarshal(m, d).value.value == m.value
    decreases |d|
  {
    hide Skip, Decode;
    if d != [] && ReadField(m, d).Ok? {
      var (m', k) := ReadField(m, d).value;
      ValueShrinks(m', d[k..]);
    }
  }

  // ---- Round trip ----

  lemma DecodesTag(tag: byte, rest: bytes)
    requires tag < 128
    ensures Decode([tag] + rest) == Ok((tag, 1))
  {
    assert Groups([tag] + rest, 0) == Ok((tag, 1));
  }

  lemma ReadsLen(content: bytes, rest: bytes)
    requires |content| < TWO64
    ensures ReadLen(Encode(|content|) + content + rest) == Ok((content, |Encode(|content|)| + |content|))
  {
    hide Encode, Decode;
    var len := Encode(|content|);
    var d := len + content + rest;
    assert d == len + (content + rest);
    VarintRoundTrip(|content|, content + rest);
    assert d[|len|..|len| + |content|] == content;
  }

  /** A known field in front of anything is read back and removed. */
  lemma ReadsLenField(m: Any, tag: byte, content: bytes, rest: bytes)
    requires tag == 0x0a || tag == 0x12
    requires content != [] && |content| < TWO64
    ensures Unmarshal(m, LenField(tag, content) + rest) ==
            Unmarshal(if tag == 0x0a then m.(typeUrl := content) else m.(value := content), rest)
  {
    hide Encode, Decode, ReadLen, Skip;
    var d := LenField(tag, content) + rest;
    var len := Encode(|content|);
    assert d == [tag] + (len + content + rest);
    DecodesTag(tag, len + content + rest);
    assert d[1..] == len + content + rest;
    ReadsLen(content, rest);
    var k := 1 + |len| + |content|;
    assert ReadField(m, d) == Ok((if tag == 0x0a then m.(typeUrl := content) else m.(value := content), k));
    assert d[k..] == rest;
  }

  /** Unknown fields only ever get appended, and known ones set what they set, wherever the
      message started. */
  lemma {:induction false} UnmarshalFrame(m: Any, u: bytes, d: bytes)
    ensures var alone := Unmarshal(m.(unrecognized := []), d);
            var with := Unmarshal(m.(unrecognized := u), d);
            && (alone.Ok? ==> with == Ok(alone.value.(unrecognized := u + alone.value.unrecognized)))
            && (alone.Err? ==> with == alone)
    decreases |d|
  {
    hide Skip, Decode, ReadLen;
    var m0, mu := m.(unrecognized := []), m.(unrecognized := u);
    if d == [] {
      assert u + [] == u;
    } else if ReadField(m0, d).Ok? {
      var (m', k) := ReadField(m0, d).value;
      var f, rest := m'.unrecognized, d[k..];
      assert [] + d[..k] == d[..k] && u + [] == u;
      assert ReadField(mu, d) == Ok((m'.(unrecognized := u + f), k));
      hide ReadField;
      UnmarshalFrame(m', f, rest);
      UnmarshalFrame(m', u + f, rest);
      var base := Unmarshal(m'.(unrecognized := []), rest);
      if base.Ok? {
        assert u + (f + base.value.unrecognized) == (u + f) + base.value.unrecognized;
      }
    }
  }

  /** Bytes made of unknown fields only: alone, they decode to themselves. */
  predicate UnknownOnly(u: bytes) {
    Unmarshal(EMPTY, u) == Ok(Any([], [], u))
  }

  /** `Unmarshal` inverts `Marshal` exactly on the messages whose unrecognized bytes are unknown
      fields. */
  lemma {:induction false} AnyRoundTrip(a: Any)
    requires |a.typeUrl| < TWO63 && |a.value| < TWO63
    ensures Unmarshal(EMPTY, Marshal(a)) == Ok(a) <==> UnknownOnly(a.unrecognized)
  {
    hide Unmarshal;
    var afterUrl := Any(a.typeUrl, [], []);
    var afterValue := Any(a.typeUrl, a.value, []);
    var tail := LenField(0x12, a.value) + a.unrecognized;
    assert Marshal(a) == LenField(0x0a, a.typeUrl) + tail;
    if a.typeUrl != [] {
      ReadsLenField(EMPTY, 0x0a, a.typeUrl, tail);
    } else {
      assert Marshal(a) == tail;
    }
    assert Unmarshal(EMPTY, Marshal(a)) == Unmarshal(afterUrl, tail);
    if a.value != [] {
      ReadsLenField(afterUrl, 0x12, a.value, a.unrecognized);
    } else {
      assert tail == a.unrecognized;
    }
    assert Unmarshal(EMPTY, Marshal(a)) == Unmarshal(afterValue, a.unrecognized);
    UnknownIndependent(afterValue, a.unrecognized);
  }

  /** Whether bytes are unknown fields only does not depend on the fields set before them. */
  lemma {:induction false} UnknownIndependent(m: Any, u: bytes)
    requires m.unrecognized == []
    ensures Unmarshal(m, u) == Ok(m.(unrecognized := u)) <==> UnknownOnly(u)
    decreases |u|
  {
    hide Skip, Decode, ReadLen;
    if u != [] && ReadField(m, u).Ok? {
      var (m', k) := ReadField(m, u).value;
      var (e', _) := ReadField(EMPTY, u).value;
      var rest := u[k..];
      assert u == u[..k] + rest && [] + u[..k] == u[..k];
      UnmarshalFrame(m', m'.unrecognized, rest);
      UnmarshalFrame(e', e'.unrecognized, rest);
      UnrecognizedBound(m'.(unrecognized := []), rest);
      UnrecognizedBound(e'.(unrecognized := []), rest);
      if m'.unrecognized != [] {
        assert m' == m.(unrecognized := u[..k]) && e' == EMPTY.(unrecognized := u[..k]);
        UnknownIndependent(m, rest);
      }
    }
  }

  /** Unrecognized bytes come from the input. */
  lemma {:induction false} UnrecognizedBound(m: Any, d: bytes)
    requires m.unrecognized == []
    ensures Unmarshal(m, d).Ok? ==> |Unmarshal(m, d).value.unrecognized| <= |d|
    decreases |d|
  {
    hide Skip, Decode, ReadLen;
    if d != [] && ReadField(m, d).Ok? {
      var (m', k) := ReadField(m, d).value;
      UnmarshalFrame(m', m'.unrecognized, d[k..]);
      UnrecognizedBound(m'.(unrecognized := []), d[k..]);
    }
  }
}
