/** Big-endian database keys of snapshots (`encodeKey`, `decodeKey`). */
module SnapshotKeys {
  import opened Bytes
  import opened Gas

  type uint32 = x: int | 0 <= x <= 0xFFFF_FFFF

  const MAX_UINT32: int := 0xFFFF_FFFF

  /** 256 to the power of `w`. */
  function Pow256(w: nat): (p: nat)
    ensures p > 0
  {
    if w == 0 then 1 else 256 * Pow256(w - 1)
  }

  /** `w` bytes of `n`, most significant first. */
  function BigEndian(n: nat, w: nat): (b: bytes)
    requires n < Pow256(w)
    ensures |b| == w
    decreases w
  {
    if w == 0 then []
    else
      LeadingByte(n, Pow256(w - 1));
      [n / Pow256(w - 1)] + BigEndian(n % Pow256(w - 1), w - 1)
  }

  lemma LeadingByte(n: nat, p: nat)
    requires p > 0 && n < 256 * p
    ensures 0 <= n / p < 256 && n == (n / p) * p + n % p
  {
    assert n == (n / p) * p + n % p;
  }

  function FromBigEndian(b: bytes): nat {
    if b == [] then 0 else b[0] * Pow256(|b| - 1) + FromBigEndian(b[1..])
  }

  lemma {:induction false} BigEndianInverse(n: nat, w: nat)
    requires n < Pow256(w)
    ensures FromBigEndian(BigEndian(n, w)) == n
    decreases w
  {
    if w > 0 {
      var p := Pow256(w - 1);
      LeadingByte(n, p);
      BigEndianInverse(n % p, w - 1);
      assert BigEndian(n, w)[1..] == BigEndian(n % p, w - 1);
    }
  }

  lemma {:induction false} FromBigEndianRange(b: bytes)
    ensures FromBigEndian(b) < Pow256(|b|)
  {
    if b != [] {
      FromBigEndianRange(b[1..]);
      LeadingDecides(b[0], FromBigEndian(b[1..]), 256, 0, Pow256(|b| - 1));
    }
  }

  /** Byte order of equally long big-endian encodings is numeric order. */
  lemma {:induction false} BigEndianOrder(a: nat, b: nat, w: nat)
    requires a < Pow256(w) && b < Pow256(w)
    ensures Less(BigEndian(a, w), BigEndian(b, w)) <==> a < b
    ensures BigEndian(a, w) == BigEndian(b, w) <==> a == b
    decreases w
  {
    if w > 0 {
      var p := Pow256(w - 1);
      LeadingByte(a, p);
      LeadingByte(b, p);
      LeadingDecides(a / p, a % p, b / p, b % p, p);
      LeadingDecides(b / p, b % p, a / p, a % p, p);
      BigEndianOrder(a % p, b % p, w - 1);
      var ea, eb := BigEndian(a % p, w - 1), BigEndian(b % p, w - 1);
      LessSplit([a / p], ea, [b / p], eb);
      assert [a / p] + ea == [b / p] + eb <==> a / p == b / p && ea == eb by {
        assert ([a / p] + ea)[0] == a / p && ([b / p] + eb)[0] == b / p;
        assert ([a / p] + ea)[1..] == ea && ([b / p] + eb)[1..] == eb;
      }
    }
  }

  /** Two-digit numbers to the base `p` compare digit by digit. */
  lemma LeadingDecides(q: nat, r: nat, q': nat, r': nat, p: nat)
    requires r < p && r' < p
    ensures q * p + r < q' * p + r' <==> q < q' || (q == q' && r < r')
  {
    if q < q' {
      assert (q + 1) * p <= q' * p;
    } else if q' < q {
      assert (q' + 1) * p <= q * p;
    }
  }

  lemma Widths()
    ensures Pow256(8) == MAX_UINT64 + 1 && Pow256(4) == MAX_UINT32 + 1
  {
    assert Pow256(4) == 256 * (256 * (256 * (256 * Pow256(0))));
    assert Pow256(8) == 256 * (256 * (256 * (256 * Pow256(4))));
  }

  const KEY_PREFIX: byte := 0x01

  function EncodeKey(height: uint64, format: uint32): (k: bytes)
    ensures |k| == 13 && k[0] == KEY_PREFIX
  {
    Widths();
    [KEY_PREFIX] + BigEndian(height, 8) + BigEndian(format, 4)
  }

  /** `decodeKey`; `None` is its error return. */
  function DecodeKey(k: bytes): Option<(uint64, uint32)> {
    if |k| != 13 || k[0] != KEY_PREFIX then None
    else
      Widths();
      FromBigEndianRange(k[1..9]);
      FromBigEndianRange(k[9..13]);
      Some((FromBigEndian(k[1..9]), FromBigEndian(k[9..13])))
  }

  lemma {:induction false} DecodeEncode(height: uint64, format: uint32)
    ensures DecodeKey(EncodeKey(height, format)) == Some((height, format))
  {
    Widths();
    var k := EncodeKey(height, format);
    assert k[1..9] == BigEndian(height, 8) && k[9..13] == BigEndian(format, 4);
    BigEndianInverse(height, 8);
    BigEndianInverse(format, 4);
  }

  predicate KeyBefore(h: uint64, f: uint32, h': uint64, f': uint32) {
    h < h' || (h == h' && f < f')
  }

  /** Byte order of the encoded keys is (height, format) order. */
  lemma {:induction false} KeyOrder(h: uint64, f: uint32, h': uint64, f': uint32)
    ensures Less(EncodeKey(h, f), EncodeKey(h', f')) <==> KeyBefore(h, f, h', f')
    ensures EncodeKey(h, f) == EncodeKey(h', f') <==> h == h' && f == f'
  {
    Widths();
    BigEndianOrder(h, h', 8);
    BigEndianOrder(f, f', 4);
    PartsOrder(KEY_PREFIX, BigEndian(h, 8), BigEndian(f, 4), BigEndian(h', 8), BigEndian(f', 4));
    DecodeEncode(h, f);
    DecodeEncode(h', f');
  }

  lemma PartsOrder(x: byte, a: bytes, c: bytes, b: bytes, d: bytes)
    requires |a| == |b|
    ensures Less([x] + a + c, [x] + b + d) <==> Less(a, b) || (a == b && Less(c, d))
  {
    LessSplit(a, c, b, d);
    LessCommonPrefix([x], a + c, b + d);
    assert [x] + a + c == [x] + (a + c);
    assert [x] + b + d == [x] + (b + d);
  }
}
