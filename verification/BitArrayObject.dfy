/** The compact bit array as an object, and its compact and JSON encodings. */
module BitArrayObject {
  import opened Bytes
  import opened Gas
  import opened Varint
  import opened BitArray

  // ---- Compact encoding ----

  function ToBytes(s: seq<bv8>): (b: bytes)
    ensures |b| == |s| && forall i :: 0 <= i < |s| ==> b[i] == s[i] as int
  {
    seq(|s|, i requires 0 <= i < |s| => s[i] as int)
  }

  function FromBytes(b: bytes): (s: seq<bv8>)
    ensures |s| == |b| && forall i :: 0 <= i < |b| ==> s[i] == b[i] as bv8
  {
    seq(|b|, i requires 0 <= i < |b| => b[i] as bv8)
  }

  lemma BytesInverse(s: seq<bv8>)
    ensures FromBytes(ToBytes(s)) == s
  {
    forall i | 0 <= i < |s| ensures FromBytes(ToBytes(s))[i] == s[i] {
      assert (s[i] as int) as bv8 == s[i];
    }
  }

  /** `CompactMarshal`: the number of bits, then the bytes. */
  function Marshal(p: Packed): bytes {
    if Count(p) <= 0 then Ascii("null") else Encode(Count(p)) + ToBytes(p.elems)
  }

  datatype Decoded = Failed | Nil | Array(p: Packed)

  /** `int(size+7) / 8` in 64-bit arithmetic. */
  function ElemsFor(size: uint64): int {
    var wrapped := (size + 7) % TWO64;
    if wrapped < TWO63 then wrapped / 8 else -((TWO64 - wrapped) / 8)
  }

  /** `CompactUnmarshal`. A header without an end reads as size 0 and fails on the length. */
  function Unmarshal(b: bytes): Decoded {
    if |b| < 2 then Failed
    else if b == Ascii("null") then Nil
    else
      match Consume(b)
      case None => Failed
      case Some((size, n)) =>
        if n >= |b| || |b| - n != ElemsFor(size) then Failed
        else Array(Packed(size % 8, FromBytes(b[n..])))
  }

  /** Decoding inverts encoding for every array whose size, rounded up to bytes,
      is a Go `int`, and only the empty array
      encodes to the word null. */
  lemma {:induction false} CompactRoundTrip(p: Packed)
    requires WellFormed(p) && Count(p) <= TWO63 - 8
    ensures Unmarshal(Marshal(p)) == if Count(p) == 0 then Nil else Array(p)
    ensures Marshal(p) == Ascii("null") <==> Count(p) == 0
  {
    hide Consume, Encode, Groups;
    var n := Count(p);
    if n > 0 {
      var b := Marshal(p);
      VarintRoundTrip(n, ToBytes(p.elems));
      assert |b| == |Encode(n)| + |p.elems| >= 2;
      assert b[|Encode(n)|..] == ToBytes(p.elems);
      BytesInverse(p.elems);
      NullHeader();
    }
  }

  /** As a header, the word null announces 110 bits in one byte. */
  lemma NullHeader()
    ensures Consume(Ascii("null")) == Some((110, 1)) && |Ascii("null")| == 4
  {
  }

  /** Whatever decodes is a well formed, non-empty array of the announced size, made of the bytes
      after the header. */
  lemma {:induction false} UnmarshalSound(b: bytes)
    ensures Unmarshal(b).Nil? <==> b == Ascii("null")
    ensures Unmarshal(b).Array? ==>
              var p := Unmarshal(b).p;
              && WellFormed(p) && Count(p) > 0
              && Consume(b).Some? && Consume(b).value.0 == Count(p)
              && p.elems == FromBytes(b[Consume(b).value.1..])
  {
    hide Consume;
  }

  // ---- JSON ----

  /** `NewCompactBitArray` makes no array: no bits, an overflow of `bits + 7`, or too many bytes. */
  predicate TooManyOrNone(bits: int64) {
    var nElems := if bits + 7 < TWO63 then (bits + 7) / 8 else -((TWO64 - bits - 7) / 8);
    bits <= 0 || nElems <= 0 || nElems > 0x7FFF_FFFF
  }

  /** The limit in one number. */
  lemma TooManyMeaning(bits: int64)
    ensures TooManyOrNone(bits) <==> !(1 <= bits <= 8 * 0x7FFF_FFFF)
  {
  }

  function Letter(b: bool): byte {
    if b then 120 else 95
  }

  function Letters(s: seq<bool>): (b: bytes)
    ensures |b| == |s| && forall i :: 0 <= i < |s| ==> b[i] == Letter(s[i])
  {
    seq(|s|, i requires 0 <= i < |s| => Letter(s[i]))
  }

  function Json(s: seq<bool>): bytes {
    [34] + Letters(s) + [34]
  }

  datatype Parsed = Null | Malformed | Crash | Flags(s: seq<bool>)

  /** `UnmarshalJSON`; `Crash` is the nil array dereferenced. */
  function ParseJson(b: bytes): Parsed {
    if b == Ascii("null") then Null
    else if |b| < 2 || b[0] != 34 || b[|b| - 1] != 34 then Malformed
    else
      var inner := b[1..|b| - 1];
      if exists i :: 0 <= i < |inner| && inner[i] != 95 && inner[i] != 120 then Malformed
      else if |inner| >= TWO63 || TooManyOrNone(|inner|) then Crash
      else Flags(seq(|inner|, i requires 0 <= i < |inner| => inner[i] == 120))
  }

  /** The JSON form is read back exactly when there is at least one bit and the array can be made
      again; otherwise reading it back crashes. */
  lemma {:induction false} JsonRoundTrip(s: seq<bool>)
    ensures ParseJson(Json(s)) == if 1 <= |s| <= 8 * 0x7FFF_FFFF then Flags(s) else Crash
  {
    hide TooManyOrNone;
    var b := Json(s);
    assert b[1..|b| - 1] == Letters(s);
    if |s| < TWO63 {
      TooManyMeaning(|s|);
    }
    assert b[0] == 34 != Ascii("null")[0];
  }

  /** The JSON form of the empty array. */
  lemma JsonCrashWitness()
    ensures ParseJson(Json([])) == Crash
  {
    hide ParseJson, Json;
    JsonRoundTrip([]);
  }

  // ---- The object ----

  class CompactBitArray {
    var extra: nat
    var elems: array<bv8>

    ghost function Value(): Packed
      reads this, elems
    {
      Packed(extra, elems[..])
    }

    constructor (extra: nat, nElems: nat)
      ensures this.extra == extra && fresh(elems) && elems.Length == nElems
      ensures forall i :: 0 <= i < nElems ==> elems[i] == 0
    {
      this.extra := extra;
      this.elems := new bv8[nElems](_ => 0);
    }

    method GetIndex(i: int) returns (b: bool)
      requires WellFormed(Value())
      ensures b <==> 0 <= i < Count(Value()) && Bits(Value())[i]
    {
      hide Test;
      if i < 0 || i >= (if extra == 0 then elems.Length * 8 else (elems.Length - 1) * 8 + extra) {
        return false;
      }
      b := Test(elems[i / 8], i % 8);
    }

    method SetIndex(i: int, v: bool) returns (ok: bool)
      requires WellFormed(Value())
      modifies elems
      ensures Value() == SetAt(old(Value()), i, v)
      ensures ok <==> 0 <= i < Count(old(Value()))
    {
      hide Updated;
      if i < 0 || i >= (if extra == 0 then elems.Length * 8 else (elems.Length - 1) * 8 + extra) {
        return false;
      }
      elems[i / 8] := Updated(elems[i / 8], i % 8, v);
      assert elems[..] == old(elems[..])[i / 8 := elems[i / 8]];
      ok := true;
    }

    method MarshalJSON() returns (b: bytes)
      requires WellFormed(Value())
      ensures b == Json(Bits(Value()))
    {
      hide Bits;
      b := [34];
      var size := if extra == 0 then elems.Length * 8 else (elems.Length - 1) * 8 + extra;
      for i := 0 to size
        invariant |b| == i + 1 && b[0] == 34
        invariant forall k :: 0 <= k < i ==> b[k + 1] == Letter(Bits(Value())[k])
      {
        var x := GetIndex(i);
        b := b + [Letter(x)];
      }
      b := b + [34];
      assert b == Json(Bits(Value()));
    }

    /** The array takes over the bits read, with clear padding; an error or a crash leaves it as it
        was. */
    method UnmarshalJSON(b: bytes) returns (r: Parsed)
      requires |b| < TWO63
      modifies this
      ensures r == ParseJson(b)
      ensures r.Null? ==> Value() == Packed(0, [])
      ensures r.Malformed? || r.Crash? ==> unchanged(this)
      ensures r.Flags? ==> WellFormed(Value()) && Bits(Value()) == r.s && PaddingClear(Value())
    {
      hide Test, TooManyOrNone;
      r := ParseJson(b);
      if r.Null? {
        extra := 0;
        elems := new bv8[0];
      } else if r.Flags? {
        var inner := b[1..|b| - 1];
        var a := NewCompactBitArray(|inner|);
        if a != null {
          FillFrom(a, inner);
          assert Bits(a.Value()) == r.s;
          extra := a.extra;
          elems := a.elems;
        }
      }
    }
  }

  method NewCompactBitArray(bits: int64) returns (a: CompactBitArray?)
    ensures a == null <==> TooManyOrNone(bits)
    ensures a != null ==>
              && fresh(a) && fresh(a.elems) && WellFormed(a.Value())
              && Bits(a.Value()) == seq(bits, _ => false) && PaddingClear(a.Value())
  {
    hide Test;
    TooManyMeaning(bits);
    if TooManyOrNone(bits) {
      return null;
    }
    a := new CompactBitArray(bits % 8, (bits + 7) / 8);
    ClearBytes(a.Value(), bits);
  }

  lemma ZeroHasNoBits(k: int)
    requires 0 <= k < 8
    ensures !Test(0, k)
  {
    hide Mask;
  }

  lemma ClearBytes(p: Packed, bits: nat)
    requires bits > 0 && p.extra == bits % 8 && |p.elems| == (bits + 7) / 8
    requires forall i :: 0 <= i < |p.elems| ==> p.elems[i] == 0
    ensures WellFormed(p) && Bits(p) == seq(bits, _ => false) && PaddingClear(p)
  {
    hide Test;
    forall i | 0 <= i < 8 * |p.elems| ensures !BitAt(p.elems, i) {
      ZeroHasNoBits(i % 8);
    }
  }

  /** The loop of `UnmarshalJSON`. */
  method FillFrom(a: CompactBitArray, inner: bytes)
    requires WellFormed(a.Value()) && PaddingClear(a.Value()) && Bits(a.Value()) == seq(|inner|, _ => false)
    modifies a.elems
    ensures WellFormed(a.Value()) && PaddingClear(a.Value())
    ensures Bits(a.Value()) == seq(|inner|, i requires 0 <= i < |inner| => inner[i] == 120)
  {
    hide Bits, SetAt, PaddingClear;
    for i := 0 to |inner|
      invariant WellFormed(a.Value()) && PaddingClear(a.Value()) && |Bits(a.Value())| == |inner|
      invariant forall k :: 0 <= k < |inner| ==> Bits(a.Value())[k] == (k < i && inner[k] == 120)
    {
      if inner[i] == 120 {
        SetRefines(a.Value(), i, true);
        var _ := a.SetIndex(i, true);
      }
    }
  }
}
