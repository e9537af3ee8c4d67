/** Printing, parsing and order-preserving encoding of decimals. */
module DecString {
  import opened Bytes
  import opened Decimal

  const ZERO: byte := 48
  const POINT: byte := 46
  const MINUS: byte := 45
  const PLUS: byte := 43
  const PRECISION: nat := 18

  function Pow10(n: nat): (p: nat)
    ensures p >= 1
  {
    if n == 0 then 1 else 10 * Pow10(n - 1)
  }

  lemma Pow10Precision()
    ensures Pow10(18) == P
  {
    assert Pow10(6) == 10 * (10 * (10 * (10 * (10 * (10 * Pow10(0))))));
    assert Pow10(12) == 10 * (10 * (10 * (10 * (10 * (10 * Pow10(6))))));
    assert Pow10(18) == 10 * (10 * (10 * (10 * (10 * (10 * Pow10(12))))));
  }

  // ---- Digits ----

  /** `big.Int.MarshalText` of a non-negative number. */
  function Digits(n: nat): (s: bytes)
    ensures s != []
  {
    if n < 10 then [ZERO + n] else Digits(n / 10) + [ZERO + n % 10]
  }

  /** Exactly `w` digits, with leading zeros. */
  function Pad(n: nat, w: nat): (s: bytes)
    requires n < Pow10(w)
    ensures |s| == w
  {
    if w == 0 then [] else Pad(n / 10, w - 1) + [ZERO + n % 10]
  }

  function Zeros(k: nat): (s: bytes)
    ensures |s| == k && forall i :: 0 <= i < k ==> s[i] == ZERO
  {
    seq(k, _ => ZERO)
  }

  predicate AllDigits(s: bytes) {
    forall i :: 0 <= i < |s| ==> ZERO <= s[i] < ZERO + 10
  }

  function Value(s: bytes): nat
    requires AllDigits(s)
  {
    if s == [] then 0 else 10 * Value(s[..|s| - 1]) + (s[|s| - 1] - ZERO)
  }

  lemma {:induction false} DigitsValue(n: nat)
    ensures AllDigits(Digits(n)) && Value(Digits(n)) == n
  {
    if n < 10 {
      assert Digits(n)[..0] == [];
    } else {
      DigitsValue(n / 10);
      var s := Digits(n);
      assert s[..|s| - 1] == Digits(n / 10);
    }
  }

  lemma {:induction false} PadValue(n: nat, w: nat)
    requires n < Pow10(w)
    ensures AllDigits(Pad(n, w)) && Value(Pad(n, w)) == n
    decreases w
  {
    if w > 0 {
      PadValue(n / 10, w - 1);
      var s := Pad(n, w);
      assert s[..|s| - 1] == Pad(n / 10, w - 1);
    }
  }

  lemma {:induction false} ValueConcat(a: bytes, b: bytes)
    requires AllDigits(a) && AllDigits(b)
    ensures AllDigits(a + b) && Value(a + b) == Value(a) * Pow10(|b|) + Value(b)
    decreases |b|
  {
    if b == [] {
      assert a + b == a;
    } else {
      var b' := b[..|b| - 1];
      ValueConcat(a, b');
      assert (a + b)[..|a + b| - 1] == a + b' && (a + b)[|a + b| - 1] == b[|b| - 1];
      var last := b[|b| - 1] - ZERO;
      assert Value(a + b) == 10 * Value(a + b') + last && Value(b) == 10 * Value(b') + last;
      ShiftOneDigit(Value(a), Pow10(|b'|), Value(b'), last);
    }
  }

  lemma ShiftOneDigit(v: int, p: int, w: int, x: int)
    ensures 10 * (v * p + w) + x == v * (10 * p) + (10 * w + x)
  {
  }

  /** Padding the plain digits with zeros gives the fixed-width digits. */
  lemma {:induction false} PadIsZerosAndDigits(n: nat, w: nat)
    requires n < Pow10(w) && w >= 1
    ensures |Digits(n)| <= w && Zeros(w - |Digits(n)|) + Digits(n) == Pad(n, w)
    decreases w
  {
    if n < 10 {
      PadOfDigit(n, w);
    } else {
      assert w > 1 by { assert Pow10(1) == 10 * Pow10(0); }
      PadIsZerosAndDigits(n / 10, w - 1);
      var z := Zeros(w - |Digits(n)|);
      assert z + (Digits(n / 10) + [ZERO + n % 10]) == (z + Digits(n / 10)) + [ZERO + n % 10];
    }
  }

  lemma {:induction false} PadOfDigit(n: nat, w: nat)
    requires n < 10 && w >= 1 && n < Pow10(w)
    ensures Pad(n, w) == Zeros(w - 1) + [ZERO + n]
    decreases w
  {
    if w == 1 {
      assert Pad(n, 1) == Pad(n / 10, 0) + [ZERO + n % 10];
    } else {
      PadOfDigit(0, w - 1);
      assert Zeros(w - 2) + [ZERO] == Zeros(w - 1);
    }
  }

  lemma Pow10Step(w: nat)
    ensures Pow10(w) == if w == 0 then 1 else 10 * Pow10(w - 1)
  {
  }

  /** The last `w` digits of a number with more than `w` of them are its remainder, the others
      its quotient, by 10^w. */
  lemma {:induction false} DigitsSplit(n: nat, w: nat)
    requires |Digits(n)| > w
    ensures var s, k := Digits(n), |Digits(n)| - w;
            s[..k] == Digits(n / Pow10(w)) && s[k..] == Pad(n % Pow10(w), w)
    decreases w
  {
    hide Pow10;
    var s := Digits(n);
    Pow10Step(w);
    if w == 0 {
      assert s[..|s|] == s && s[|s|..] == [];
    } else {
      var m, p := n / 10, Pow10(w - 1);
      assert n >= 10;
      DigitsSplit(m, w - 1);
      DivTen(n, p);
      var k := |s| - w;
      assert s == Digits(m) + [ZERO + n % 10];
      assert s[..k] == Digits(m)[..k];
      assert s[k..] == Digits(m)[k..] + [ZERO + n % 10];
    }
  }

  lemma DivTen(n: nat, p: nat)
    requires p >= 1
    ensures (n / 10) / p == n / (10 * p)
    ensures n % (10 * p) / 10 == (n / 10) % p && n % (10 * p) % 10 == n % 10
  {
    var m := n / 10;
    var q, r := m / p, m % p;
    assert n == 10 * m + n % 10 && m == q * p + r;
    var t := 10 * r + n % 10;
    assert n == q * (10 * p) + t by { assert 10 * (q * p) == q * (10 * p); }
    Unscale(q, t, 10 * p);
    Unscale(r, n % 10, 10);
  }

  lemma {:induction false} DigitsLength(n: nat, w: nat)
    requires w >= 1
    ensures |Digits(n)| <= w <==> n < Pow10(w)
    decreases w
  {
    if n >= 10 && w > 1 {
      DigitsLength(n / 10, w - 1);
    } else if w == 1 {
      assert Pow10(1) == 10 * Pow10(0);
    } else {
      assert Pow10(w) == 10 * Pow10(w - 1);
    }
  }

  // ---- String ----

  /** `Dec.String` of a non-negative decimal, as the source lays out its buffer. */
  function UnsignedString(n: nat): bytes {
    var s := Digits(n);
    if |s| <= PRECISION then [ZERO, POINT] + Zeros(PRECISION - |s|) + s
    else s[..|s| - PRECISION] + [POINT] + s[|s| - PRECISION..]
  }

  function ToString(d: int): bytes {
    if d < 0 then [MINUS] + UnsignedString(-d) else UnsignedString(d)
  }

  /** A number below one: zeros are filled in after the point. */
  method WithLeadingZeros(bzInt: bytes) returns (bzStr: array<byte>)
    requires |bzInt| <= PRECISION
    ensures fresh(bzStr) && bzStr[..] == [ZERO, POINT] + Zeros(PRECISION - |bzInt|) + bzInt
  {
    bzStr := new byte[PRECISION + 2];
    bzStr[0] := ZERO;
    bzStr[1] := POINT;
    for i := 0 to PRECISION - |bzInt|
      invariant bzStr[..i + 2] == [ZERO, POINT] + Zeros(i)
    {
      bzStr[i + 2] := ZERO;
      assert Zeros(i + 1) == Zeros(i) + [ZERO];
    }
    CopyAt(bzStr, 2 + (PRECISION - |bzInt|), bzInt);
  }

  /** A number of one or more: the point goes in front of the last 18 digits. */
  method WithPoint(bzInt: bytes) returns (bzStr: array<byte>)
    requires |bzInt| > PRECISION
    ensures fresh(bzStr) && bzStr[..] == bzInt[..|bzInt| - PRECISION] + [POINT] + bzInt[|bzInt| - PRECISION..]
  {
    bzStr := new byte[|bzInt| + 1];
    var decPointPlace := |bzInt| - PRECISION;
    CopyAt(bzStr, 0, bzInt[..decPointPlace]);
    bzStr[decPointPlace] := POINT;
    assert bzStr[..decPointPlace] == bzInt[..decPointPlace];
    CopyAt(bzStr, decPointPlace + 1, bzInt[decPointPlace..]);
    assert bzStr[..] == bzStr[..decPointPlace + 1] + bzInt[decPointPlace..];
  }

  /** `String`, filling the buffer the way the source does. */
  method String(d: int) returns (r: bytes)
    ensures r == ToString(d)
  {
    hide Digits;
    var isNeg := d < 0;
    var bzInt := Digits(Abs(d));
    var inputSize := |bzInt|;
    var bzStr: array<byte>;
    if inputSize <= PRECISION {
      bzStr := WithLeadingZeros(bzInt);
    } else {
      bzStr := WithPoint(bzInt);
    }
    assert bzStr[..] == UnsignedString(Abs(d));
    r := if isNeg then [MINUS] + bzStr[..] else bzStr[..];
  }

  method CopyAt(buf: array<byte>, at: nat, content: bytes)
    requires at + |content| <= buf.Length
    modifies buf
    ensures buf[..at] == old(buf[..at])
    ensures buf[at..at + |content|] == content
    ensures at + |content| == buf.Length ==> buf[..] == old(buf[..at]) + content
  {
    for k := 0 to |content|
      invariant buf[..at] == old(buf[..at]) && buf[at..at + k] == content[..k]
    {
      buf[at + k] := content[k];
      assert buf[at..at + k + 1] == buf[at..at + k] + [content[k]];
      assert content[..k + 1] == content[..k] + [content[k]];
    }
    assert content[..|content|] == content;
  }

  lemma DigitsOfZero()
    ensures Digits(0) == [ZERO]
  {
  }

  /** The string is the whole part without leading zeros, a point and 18 digits of fraction. */
  lemma {:induction false} StringMeaning(n: nat)
    ensures 0 <= n % P < Pow10(PRECISION)
    ensures UnsignedString(n) == Digits(n / P) + [POINT] + Pad(n % P, PRECISION)
  {
    hide Digits, Pad, Pow10, Zeros;
    Pow10Precision();
    DigitsLength(n, PRECISION);
    if n < P {
      PadIsZerosAndDigits(n, PRECISION);
      assert n / P == 0 && n % P == n;
      var s := Digits(n);
      assert [ZERO, POINT] + Zeros(PRECISION - |s|) + s == ([ZERO] + [POINT]) + (Zeros(PRECISION - |s|) + s);
      DigitsOfZero();
    } else {
      DigitsSplit(n, PRECISION);
    }
  }

  // ---- NewDecFromStr ----

  datatype ParseError = EmptyString | InvalidLength | InvalidString | TooPrecise | NotANumber | OutOfRange

  datatype ParseResult = Parsed(value: int) | Failed(error: ParseError)

  /** `strings.Split(s, ".")`. */
  function SplitPoints(s: bytes): (r: seq<bytes>)
    ensures r != []
  {
    if s == [] then [[]]
    else if s[0] == POINT then [[]] + SplitPoints(s[1..])
    else
      var r := SplitPoints(s[1..]);
      [[s[0]] + r[0]] + r[1..]
  }

  /** `big.Int.SetString(s, 10)`: an optional sign and at least one digit. */
  function SetString(s: bytes): Option<int> {
    var signed := s != [] && (s[0] == MINUS || s[0] == PLUS);
    var ds := if signed then s[1..] else s;
    if ds == [] || !AllDigits(ds) then None
    else Some(if signed && s[0] == MINUS then 0 - Value(ds) else Value(ds))
  }

  function NewDecFromStr(str: bytes): ParseResult {
    if str == [] then Failed(EmptyString)
    else
      var neg := str[0] == MINUS;
      var s := if neg then str[1..] else str;
      if s == [] then Failed(EmptyString)
      else
        match ParseBody(s)
        case Failed(e) => Failed(e)
        case Parsed(v) => Parsed(if neg then -v else v)
  }

  function ParseBody(s: bytes): ParseResult {
    var strs := SplitPoints(s);
    if |strs| == 2 && (strs[1] == [] || strs[0] == []) then Failed(InvalidLength)
    else if |strs| > 2 then Failed(InvalidString)
    else
      var decs := if |strs| == 2 then strs[1] else [];
      if |decs| > PRECISION then Failed(TooPrecise)
      else
        match SetString(strs[0] + decs + Zeros(PRECISION - |decs|))
        case None => Failed(NotANumber)
        case Some(v) => if InRange(v) then Parsed(v) else Failed(OutOfRange)
  }

  lemma {:induction false} SplitOnce(a: bytes, b: bytes)
    requires POINT !in a && POINT !in b
    ensures SplitPoints(a + [POINT] + b) == [a, b]
    decreases |a|
  {
    var s := a + [POINT] + b;
    if a == [] {
      assert s[1..] == b;
      NoPoints(b);
    } else {
      assert s[1..] == a[1..] + [POINT] + b;
      SplitOnce(a[1..], b);
      assert [s[0]] + a[1..] == a;
    }
  }

  lemma {:induction false} NoPoints(s: bytes)
    requires POINT !in s
    ensures SplitPoints(s) == [s]
    decreases |s|
  {
    if s != [] {
      NoPoints(s[1..]);
      assert [s[0]] + s[1..] == s;
    }
  }

  /** A sign that is left in front of the digits, and the digits before the point. */
  function Whole(sign: Option<byte>, a: bytes): bytes {
    (if sign.Some? then [sign.value] else []) + a
  }

  /** Everything but the leading minus sign. */
  function Body(sign: Option<byte>, a: bytes, b: Option<bytes>): bytes {
    Whole(sign, a) + (if b.Some? then [POINT] + b.value else [])
  }

  function Spell(neg: bool, sign: Option<byte>, a: bytes, b: Option<bytes>): bytes {
    (if neg then [MINUS] else []) + Body(sign, a, b)
  }

  function Fraction(b: Option<bytes>): bytes {
    if b.Some? then b.value else []
  }

  /** Digits, and after a point at least one and at most 18 of them; with a further sign there need
      be no digits before the point. */
  predicate Spelled(neg: bool, sign: Option<byte>, a: bytes, b: Option<bytes>) {
    && AllDigits(a)
    && (b.Some? ==> AllDigits(b.value) && 1 <= |b.value| <= PRECISION)
    && (sign.None? ==> a != [])
    && (sign.Some? ==> sign.value == PLUS || (neg && sign.value == MINUS))
  }

  /** A string the documentation describes: an optional minus sign, digits, and optionally a point
      and up to 18 more digits. */
  ghost predicate Documented(s: bytes) {
    exists neg, a, b :: Spelled(neg, None, a, b) && s == Spell(neg, None, a, b)
  }

  /** The number of smallest units that digits with this fraction stand for. */
  function Units(a: bytes, f: bytes): nat
    requires AllDigits(a) && AllDigits(f) && |f| <= PRECISION
  {
    Value(a + f) * Pow10(PRECISION - |f|)
  }

  lemma {:induction false} ZerosValue(k: nat)
    ensures AllDigits(Zeros(k)) && Value(Zeros(k)) == 0
  {
    if k > 0 {
      ZerosValue(k - 1);
      assert Zeros(k)[..k - 1] == Zeros(k - 1);
    }
  }

  lemma UnitsOfCombined(a: bytes, f: bytes)
    requires AllDigits(a) && AllDigits(f) && |f| <= PRECISION
    ensures var ds := a + f + Zeros(PRECISION - |f|); AllDigits(ds) && Value(ds) == Units(a, f)
  {
    hide Value, Pow10;
    ZerosValue(PRECISION - |f|);
    ValueConcat(a + f, Zeros(PRECISION - |f|));
  }

  lemma SplitBody(sign: Option<byte>, a: bytes, b: Option<bytes>)
    requires POINT !in Whole(sign, a) && (b.Some? ==> POINT !in b.value)
    ensures SplitPoints(Body(sign, a, b)) == if b.Some? then [Whole(sign, a), b.value] else [Whole(sign, a)]
  {
    hide Whole, SplitPoints;
    var w := Whole(sign, a);
    if b.Some? {
      SplitOnce(w, b.value);
      assert w + [POINT] + b.value == w + ([POINT] + b.value);
    } else {
      NoPoints(w);
      assert w + [] == w;
    }
  }

  lemma BodyParses(sign: Option<byte>, a: bytes, b: Option<bytes>)
    requires Spelled(true, sign, a, b)
    ensures var v := Units(a, Fraction(b));
            ParseBody(Body(sign, a, b)) ==
              if InRange(v) then Parsed(if sign == Some(MINUS) then 0 - v else v) else Failed(OutOfRange)
  {
    hide Value, Pow10, SplitPoints, Units, Body, SetString;
    var f := Fraction(b);
    assert POINT !in Whole(sign, a);
    SplitBody(sign, a, b);
    UnitsOfCombined(a, f);
    var ds := a + f + Zeros(PRECISION - |f|);
    assert Whole(sign, a) + f + Zeros(PRECISION - |f|) == Whole(sign, ds) by { hide Zeros; }
    SetStringOf(sign, ds);
  }

  /** What every such string parses to: the units it stands for, with the signs multiplied. */
  lemma {:induction false} ParsesSpelled(neg: bool, sign: Option<byte>, a: bytes, b: Option<bytes>)
    requires Spelled(neg, sign, a, b)
    ensures var v := Units(a, Fraction(b));
            NewDecFromStr(Spell(neg, sign, a, b)) ==
              if InRange(v) then Parsed(if neg != (sign == Some(MINUS)) then 0 - v else v) else Failed(OutOfRange)
  {
    hide ParseBody, Units;
    var body, str := Body(sign, a, b), Spell(neg, sign, a, b);
    BodyParses(sign, a, b);
    assert neg ==> str[0] == MINUS && str[1..] == body;
    assert !neg ==> str == body && body[0] != MINUS;
  }

  lemma SetStringOf(sign: Option<byte>, ds: bytes)
    requires ds != [] && AllDigits(ds) && (sign.Some? ==> sign.value == PLUS || sign.value == MINUS)
    ensures SetString(Whole(sign, ds)) == Some(if sign == Some(MINUS) then 0 - Value(ds) else Value(ds))
  {
    hide Value;
    assert sign.Some? ==> Whole(sign, ds)[1..] == ds;
    assert sign.None? ==> Whole(sign, ds) == ds;
  }

  lemma {:induction false} SplitJoin(s: bytes)
    ensures var r := SplitPoints(s);
            && (|r| == 1 ==> r[0] == s)
            && (|r| == 2 ==> s == r[0] + [POINT] + r[1])
  {
    if s != [] {
      SplitJoin(s[1..]);
      var r := SplitPoints(s[1..]);
      assert s == [s[0]] + s[1..];
      if s[0] == POINT && |r| == 1 {
        assert s == [] + [POINT] + r[0];
      } else if s[0] != POINT && |r| == 2 {
        assert [s[0]] + (r[0] + [POINT] + r[1]) == ([s[0]] + r[0]) + [POINT] + r[1];
      }
    }
  }

  /** Nothing else is taken for a number: what parses, or is too large, is spelled like that. */
  lemma {:induction false} ParsedIsSpelled(s: bytes) returns (neg: bool, sign: Option<byte>, a: bytes, b: Option<bytes>)
    requires NewDecFromStr(s).Parsed? || NewDecFromStr(s) == Failed(OutOfRange)
    ensures Spelled(neg, sign, a, b) && s == Spell(neg, sign, a, b)
  {
    hide ParseBody, Spelled;
    neg := s[0] == MINUS;
    var t := if neg then s[1..] else s;
    sign, a, b := ParsedBody(t);
    assert Body(sign, a, b)[0] == t[0];
    SpelledWithout(neg, sign, a, b);
    assert neg ==> s == [MINUS] + t;
  }

  lemma SpelledWithout(neg: bool, sign: Option<byte>, a: bytes, b: Option<bytes>)
    requires Spelled(true, sign, a, b) && (neg || Body(sign, a, b)[0] != MINUS)
    ensures Spelled(neg, sign, a, b)
  {
  }

  lemma {:induction false} ParsedBody(t: bytes) returns (sign: Option<byte>, a: bytes, b: Option<bytes>)
    requires t != [] && (ParseBody(t).Parsed? || ParseBody(t) == Failed(OutOfRange))
    ensures Spelled(true, sign, a, b) && t == Body(sign, a, b)
  {
    hide SplitPoints, SetString, AllDigits, InRange, Zeros;
    var strs := SplitPoints(t);
    SplitJoin(t);
    var w := strs[0];
    b := if |strs| == 2 then Some(strs[1]) else None;
    var f := Fraction(b);
    sign := if w[0] == MINUS || w[0] == PLUS then Some(w[0]) else None;
    a := if sign.Some? then w[1..] else w;
    assert w == Whole(sign, a);
    DigitsAfterSign(w, f, Zeros(PRECISION - |f|));
    assert b.Some? ==> w + [POINT] + b.value == w + ([POINT] + b.value);
  }

  /** What the integer parser takes is digits, apart from a sign in front. */
  lemma DigitsAfterSign(w: bytes, f: bytes, z: bytes)
    requires w != [] && SetString(w + f + z).Some?
    ensures AllDigits(f) && AllDigits(if w[0] == MINUS || w[0] == PLUS then w[1..] else w)
  {
    hide Value;
    var signed := w[0] == MINUS || w[0] == PLUS;
    assert (w + f + z)[0] == w[0];
    assert signed ==> (w + f + z)[1..] == w[1..] + f + z;
    DigitsOfParts(if signed then w[1..] else w, f, z);
  }

  lemma DigitsOfParts(a: bytes, f: bytes, z: bytes)
    requires AllDigits(a + f + z)
    ensures AllDigits(a) && AllDigits(f)
  {
    var ds := a + f + z;
    assert forall i :: 0 <= i < |a| ==> ds[i] == a[i];
    assert forall i :: 0 <= i < |f| ==> ds[|a| + i] == f[i];
  }

  function AfterMinus(s: bytes): bytes {
    if s != [] && s[0] == MINUS then s[1..] else s
  }

  predicate StartsWithSign(t: bytes) {
    t != [] && (t[0] == MINUS || t[0] == PLUS)
  }

  /** Every string that parses is one the documentation describes exactly if no sign follows the
      optional leading minus sign: that sign is not looked for, and the integer parser takes it. */
  lemma {:induction false} DocumentedIff(s: bytes)
    requires NewDecFromStr(s).Parsed?
    ensures Documented(s) <==> !StartsWithSign(AfterMinus(s))
  {
    hide NewDecFromStr;
    var neg, sign, a, b := ParsedIsSpelled(s);
    SpelledStart(neg, sign, a, b);
    if sign.None? {
      assert Documented(s);
    }
    if Documented(s) {
      var neg', a', b' :| Spelled(neg', None, a', b') && s == Spell(neg', None, a', b');
      SpelledStart(neg', None, a', b');
    }
  }

  lemma SpelledStart(neg: bool, sign: Option<byte>, a: bytes, b: Option<bytes>)
    requires Spelled(neg, sign, a, b)
    ensures StartsWithSign(AfterMinus(Spell(neg, sign, a, b))) <==> sign.Some?
  {
    var s := Spell(neg, sign, a, b);
    assert neg ==> s[1..] == Body(sign, a, b);
    assert sign.None? ==> Body(sign, a, b)[0] == a[0];
  }

  /** The failing family: a second sign does not keep a string from being read as a number. */
  lemma {:induction false} SecondSignAccepted(neg: bool, sign: byte, a: bytes, b: Option<bytes>)
    requires Spelled(neg, Some(sign), a, b) && InRange(Units(a, Fraction(b)))
    ensures NewDecFromStr(Spell(neg, Some(sign), a, b)).Parsed? && !Documented(Spell(neg, Some(sign), a, b))
  {
    hide NewDecFromStr, Documented, Units, Spell, Spelled;
    ParsesSpelled(neg, Some(sign), a, b);
    DocumentedIff(Spell(neg, Some(sign), a, b));
    SpelledStart(neg, Some(sign), a, b);
  }

  lemma UnitsOfFive()
    ensures Units([53], []) == 5 * P && Units([], [53]) == 5 * Pow10(17)
  {
    hide Pow10;
    Pow10Precision();
    assert Value([53]) == 5 by { assert [53][..0] == []; }
    assert [53] + [] == [53] && [] + [53] == [53];
  }

  lemma FiveInRange()
    ensures InRange(5 * P) && InRange(5 * Pow10(17))
  {
    hide Pow10;
    Pow10Precision();
    Pow10Step(18);
  }

  lemma SpelledSigns()
    ensures Ascii("--5") == Spell(true, Some(MINUS), [53], None) && Spelled(true, Some(MINUS), [53], None)
    ensures Ascii("+.5") == Spell(false, Some(PLUS), [], Some([53])) && Spelled(false, Some(PLUS), [], Some([53]))
  {
  }

  /** Two minus signs cancel, and a plus sign stands in for the digits before the point. */
  lemma SecondSignWitness()
    ensures NewDecFromStr(Ascii("--5")) == Parsed(5 * P)
    ensures NewDecFromStr(Ascii("+.5")) == Parsed(5 * Pow10(17))
  {
    hide NewDecFromStr, Pow10, Units, InRange, Spell, Spelled, Ascii;
    SpelledSigns();
    UnitsOfFive();
    FiveInRange();
    ParsesSpelled(true, Some(MINUS), [53], None);
    ParsesSpelled(false, Some(PLUS), [], Some([53]));
  }

  lemma UnitsOfParts(q: nat, r: nat)
    requires r < P
    ensures r < Pow10(PRECISION) && AllDigits(Digits(q)) && AllDigits(Pad(r, PRECISION))
    ensures Units(Digits(q), Pad(r, PRECISION)) == q * P + r
  {
    hide Digits, Pad, Pow10, Value;
    Pow10Precision();
    DigitsValue(q);
    PadValue(r, PRECISION);
    ValueConcat(Digits(q), Pad(r, PRECISION));
    Pow10Step(0);
  }

  /** Parsing inverts printing for every decimal within the bit bound. */
  lemma {:induction false} StringRoundTrip(d: int)
    requires InRange(d)
    ensures NewDecFromStr(ToString(d)) == Parsed(d)
  {
    hide NewDecFromStr, UnsignedString, Digits, Pad, Pow10, Value;
    var n := Abs(d);
    StringMeaning(n);
    var a, b := Digits(n / P), Pad(n % P, PRECISION);
    DigitsValue(n / P);
    PadValue(n % P, PRECISION);
    ParsesSpelled(d < 0, None, a, Some(b));
    UnitsOfParts(n / P, n % P);
    assert a + [POINT] + b == Body(None, a, Some(b));
    assert ToString(d) == Spell(d < 0, None, a, Some(b));
  }

  // ---- SortableDecBytes ----

  /** 1 / 10^-18, in smallest units. */
  const MAX_SORTABLE: int := P * P

  function PadLeft(s: bytes, w: nat): bytes {
    if |s| < w then Zeros(w - |s|) + s else s
  }

  /** `SortableDecBytes`; `None` is its panic. */
  function Sortable(d: int): Option<bytes> {
    if Abs(d) > MAX_SORTABLE then None
    else if d == MAX_SORTABLE then Some(Ascii("max"))
    else if d == -MAX_SORTABLE then Some(Ascii("--"))
    else if d < 0 then Some([MINUS] + PadLeft(ToString(Abs(d)), 2 * PRECISION + 1))
    else Some(PadLeft(ToString(d), 2 * PRECISION + 1))
  }

  /** The fixed-width form: 18 digits, a point, 18 digits. */
  function FixedWidth(n: nat): (s: bytes)
    requires n < MAX_SORTABLE
    ensures |s| == 37
  {
    Pow10Precision();
    QuotientBound(n);
    Pad(n / P, PRECISION) + [POINT] + Pad(n % P, PRECISION)
  }

  lemma QuotientBound(n: nat)
    requires n < MAX_SORTABLE
    ensures n / P < P && n % P < P
  {
  }

  lemma PadLeftIsFixedWidth(n: nat)
    requires n < MAX_SORTABLE
    ensures PadLeft(ToString(n), 37) == FixedWidth(n)
  {
    hide Digits, Pad, Pow10, UnsignedString;
    Pow10Precision();
    QuotientBound(n);
    StringMeaning(n);
    PadIsZerosAndDigits(n / P, PRECISION);
    var q, tail := Digits(n / P), [POINT] + Pad(n % P, PRECISION);
    assert ToString(n) == q + tail;
    assert Zeros(18 - |q|) + (q + tail) == (Zeros(18 - |q|) + q) + tail;
  }

  /** Byte order of equally wide digit strings is numeric order. */
  lemma {:induction false} PadOrder(a: nat, b: nat, w: nat)
    requires a < Pow10(w) && b < Pow10(w)
    ensures Less(Pad(a, w), Pad(b, w)) <==> a < b
    ensures Pad(a, w) == Pad(b, w) <==> a == b
    decreases w
  {
    PadValue(a, w);
    PadValue(b, w);
    if w > 0 {
      PadOrder(a / 10, b / 10, w - 1);
      LessSplit(Pad(a / 10, w - 1), [ZERO + a % 10], Pad(b / 10, w - 1), [ZERO + b % 10]);
    }
  }

  lemma FixedWidthOrder(a: nat, b: nat)
    requires a < MAX_SORTABLE && b < MAX_SORTABLE
    ensures Less(FixedWidth(a), FixedWidth(b)) <==> a < b
    ensures ZERO <= FixedWidth(a)[0] < ZERO + 10
  {
    hide Pad, Pow10;
    Pow10Precision();
    QuotientBound(a);
    QuotientBound(b);
    PadOrder(a / P, b / P, PRECISION);
    PadOrder(a % P, b % P, PRECISION);
    PadValue(a / P, PRECISION);
    var a1, a2, b1, b2 := Pad(a / P, PRECISION), Pad(a % P, PRECISION), Pad(b / P, PRECISION), Pad(b % P, PRECISION);
    LessSplit(a1 + [POINT], a2, b1 + [POINT], b2);
    LessSplit(a1, [POINT], b1, [POINT]);
    Trichotomy([POINT], [POINT]);
    assert a1 + [POINT] == b1 + [POINT] <==> a1 == b1 by {
      assert (a1 + [POINT])[..|a1|] == a1 && (b1 + [POINT])[..|b1|] == b1;
    }
    assert FixedWidth(a)[0] == a1[0];
  }

  /** The position of a decimal in the byte order: non-negative ones by value; negative ones below
      them, by magnitude, except that the least one comes first of all. */
  function Rank(d: int): int {
    if d >= 0 then d else if d == -MAX_SORTABLE then -MAX_SORTABLE else -d - MAX_SORTABLE
  }

  /** Byte order of the encodings is the order of ranks, and equal encodings mean equal decimals. */
  lemma {:induction false} SortableOrder(a: int, b: int)
    requires Abs(a) <= MAX_SORTABLE && Abs(b) <= MAX_SORTABLE
    ensures Less(Sortable(a).value, Sortable(b).value) <==> Rank(a) < Rank(b)
    ensures Sortable(a) == Sortable(b) <==> a == b
  {
    hide FixedWidth, PadLeft, ToString;
    Encoded(a);
    Encoded(b);
    if Abs(a) < MAX_SORTABLE && Abs(b) < MAX_SORTABLE {
      FixedWidthOrder(Abs(a), Abs(b));
      FixedWidthOrder(Abs(b), Abs(a));
      LessCommonPrefix([MINUS], FixedWidth(Abs(a)), FixedWidth(Abs(b)));
    } else {
      if Abs(a) < MAX_SORTABLE { FixedWidthOrder(Abs(a), Abs(a)); }
      if Abs(b) < MAX_SORTABLE { FixedWidthOrder(Abs(b), Abs(b)); }
    }
    Trichotomy(Sortable(a).value, Sortable(b).value);
  }

  /** The shape of each encoding. */
  lemma {:induction false} Encoded(d: int)
    requires Abs(d) <= MAX_SORTABLE
    ensures Sortable(d) == Some(
              if d == MAX_SORTABLE then [109, 97, 120]
              else if d == -MAX_SORTABLE then [MINUS, MINUS]
              else if d < 0 then [MINUS] + FixedWidth(-d)
              else FixedWidth(d))
  {
    assert Ascii("max") == [109, 97, 120] && Ascii("--") == [MINUS, MINUS];
    if Abs(d) < MAX_SORTABLE {
      PadLeftIsFixedWidth(Abs(d));
    }
  }

  /** Numeric order is preserved exactly for the pairs that are not both negative and above the
      least value: among those it is reversed. */
  lemma {:induction false} SortableNumericOrderIff(a: int, b: int)
    requires Abs(a) <= MAX_SORTABLE && Abs(b) <= MAX_SORTABLE && a < b
    ensures Less(Sortable(a).value, Sortable(b).value) <==> b >= 0 || a == -MAX_SORTABLE
  {
    SortableOrder(a, b);
  }

  /** -2 units come after -1 unit. */
  lemma SortableWitness()
    ensures Less(Sortable(-1).value, Sortable(-2).value)
  {
    hide Sortable, Less;
    SortableOrder(-1, -2);
  }
}
