/**
  Numbers (parse_number). The source copies at most 63 bytes that may belong to a number and hands them to
  strtod, which reads the longest decimal prefix. Values are real numbers: rounding to a double is not modelled.
 */
module Numeral {
  import opened Bytes
  import opened Utf

  const COPY_LIMIT: nat := 63

  // ----- decimal values -----

  predicate AllDigits(ds: bytes) {
    forall i | 0 <= i < |ds| :: Digit(ds[i])
  }

  function DigitsValue(ds: bytes): nat
    requires AllDigits(ds)
  {
    if ds == [] then 0 else DigitsValue(ds[..|ds| - 1]) * 10 + (ds[|ds| - 1] - ZERO)
  }

  function Power10(e: int): real
    decreases if e < 0 then -e else e
  {
    if e == 0 then 1.0 else if e > 0 then 10.0 * Power10(e - 1) else Power10(e + 1) / 10.0
  }

  function Scaled(negative: bool, whole: bytes, fraction: bytes, exponent: int): real
    requires AllDigits(whole) && AllDigits(fraction)
  {
    (if negative then -1.0 else 1.0) * (DigitsValue(whole + fraction) as real) * Power10(exponent - |fraction|)
  }

  // ----- strtod on a run of number characters -----

  predicate Numeric(b: byte) {
    Digit(b) || b == PLUS || b == MINUS || b == LOWER_E || b == UPPER_E || b == DOT
  }

  predicate Sign(b: byte) {
    b == PLUS || b == MINUS
  }

  predicate Mark(b: byte) {
    b == LOWER_E || b == UPPER_E
  }

  function DigitsEnd(t: bytes, p: nat): (r: nat)
    requires p <= |t|
    ensures p <= r <= |t| && AllDigits(t[p..r])
    ensures r < |t| ==> !Digit(t[r])
    decreases |t| - p
  {
    if p < |t| && Digit(t[p]) then
      var r := DigitsEnd(t, p + 1);
      assert forall k | p < k < r :: t[k] == t[p + 1..r][k - p - 1];
      r
    else p
  }

  lemma DigitsEndIs(t: bytes, p: nat, q: nat)
    requires p <= q <= |t| && AllDigits(t[p..q]) && (q < |t| ==> !Digit(t[q]))
    ensures DigitsEnd(t, p) == q
    decreases q - p
  {
    if p < q {
      assert t[p] == t[p..q][0];
      assert t[p + 1..q] == t[p..q][1..];
      DigitsEndIs(t, p + 1, q);
    }
  }

  function ExponentDigits(t: bytes, c: nat): (q: nat)
    requires c < |t|
    ensures c + 1 <= q <= |t| && q <= c + 2
  {
    if c + 1 < |t| && Sign(t[c + 1]) then c + 2 else c + 1
  }

  /** Where the exponent that may start at c ends; c when there is none. */
  function ExponentEnd(t: bytes, c: nat): (d: nat)
    requires c <= |t|
    ensures c <= d <= |t|
  {
    if c < |t| && Mark(t[c]) then
      var q := ExponentDigits(t, c);
      if DigitsEnd(t, q) > q then DigitsEnd(t, q) else c
    else c
  }

  function ExponentValue(t: bytes, c: nat): int
    requires c <= |t|
  {
    if ExponentEnd(t, c) == c then 0
    else
      var q := ExponentDigits(t, c);
      (if t[q - 1] == MINUS then -1 else 1) * DigitsValue(t[q..DigitsEnd(t, q)])
  }

  datatype Conversion = Conversion(value: real, used: nat)

  function Strtod(t: bytes): (r: Conversion)
    ensures r.used <= |t|
  {
    var a := if t != [] && Sign(t[0]) then 1 else 0;
    var b := DigitsEnd(t, a);
    var point := b < |t| && t[b] == DOT;
    var c := if point then DigitsEnd(t, b + 1) else b;
    var fraction := if point then t[b + 1..c] else [];
    if b == a && fraction == [] then Conversion(0.0, 0)
    else Conversion(Scaled(t != [] && t[0] == MINUS, t[a..b], fraction, ExponentValue(t, c)), ExponentEnd(t, c))
  }

  // ----- parse_number -----

  /** Length of the copy that the loop of parse_number makes, i bytes of it already being made. */
  function Copied(s: bytes, off: nat, i: nat): (n: nat)
    requires i <= COPY_LIMIT && off + i <= |s|
    ensures i <= n <= COPY_LIMIT && off + n <= |s|
    decreases COPY_LIMIT - i
  {
    if i < COPY_LIMIT && off + i < |s| && Numeric(s[off + i]) then Copied(s, off, i + 1) else i
  }

  lemma CopiedStep(s: bytes, off: nat, i: nat)
    requires i <= COPY_LIMIT && off + i <= |s|
    ensures Copied(s, off, i) ==
            if i < COPY_LIMIT && off + i < |s| && Numeric(s[off + i]) then Copied(s, off, i + 1) else i
  {
  }

  datatype ReadNum = ReadNum(value: real, next: nat)

  ghost function ReadNumber(s: bytes, off: nat): (r: Option<ReadNum>)
    requires off <= |s|
    ensures r.Some? ==> off < r.value.next <= |s|
  {
    var r := Strtod(s[off..off + Copied(s, off, 0)]);
    if r.used == 0 then None else Some(ReadNum(r.value, off + r.used))
  }

  method ParseDigits(content: bytes, offset: nat) returns (ok: bool, value: real, next: nat)
    requires offset <= |content|
    ensures ok <==> ReadNumber(content, offset).Some?
    ensures ok ==> ReadNumber(content, offset) == Some(ReadNum(value, next))
  {
    hide Strtod, Copied, Numeric;
    var numberCString := new byte[COPY_LIMIT + 1];
    var i := 0;
    while i < COPY_LIMIT && offset + i < |content| && Numeric(content[offset + i])
      invariant 0 <= i <= COPY_LIMIT && offset + i <= |content| && numberCString.Length == COPY_LIMIT + 1
      invariant Copied(content, offset, 0) == Copied(content, offset, i)
      invariant numberCString[..i] == content[offset..offset + i]
    {
      CopiedStep(content, offset, i);
      numberCString[i] := content[offset + i];
      i := i + 1;
    }
    CopiedStep(content, offset, i);
    ghost var copy := numberCString[..i];
    numberCString[i] := NUL;
    assert numberCString[..i] == copy;
    var number := Strtod(numberCString[..i]);
    return number.used > 0, number.value, offset + number.used;
  }

  // ----- syntax of numbers -----

  datatype Exponent = Exponent(mark: byte, sign: bytes, digits: bytes)
  datatype Numeral = Numeral(negative: bool, whole: bytes, fraction: Option<bytes>, exponent: Option<Exponent>)

  predicate ExponentOk(e: Exponent) {
    Mark(e.mark) && (e.sign == [] || e.sign == [PLUS] || e.sign == [MINUS]) && AllDigits(e.digits) && e.digits != []
  }

  function FractionDigits(n: Numeral): bytes {
    if n.fraction.None? then [] else n.fraction.value
  }

  function HeadText(n: Numeral): bytes {
    (if n.negative then [MINUS] else []) + n.whole
  }

  function FractionText(n: Numeral): bytes {
    if n.fraction.None? then [] else [DOT] + n.fraction.value
  }

  function ExponentText(n: Numeral): bytes {
    if n.exponent.None? then [] else [n.exponent.value.mark] + n.exponent.value.sign + n.exponent.value.digits
  }

  function NumeralText(n: Numeral): bytes {
    HeadText(n) + (FractionText(n) + ExponentText(n))
  }

  /** The numbers parse_value dispatches and strtod reads to their end; "1." and "007" are among them. */
  predicate NumeralShape(n: Numeral) {
    && AllDigits(n.whole) && AllDigits(FractionDigits(n))
    && (n.whole == [] ==> n.negative && FractionDigits(n) != [])
    && (n.exponent.Some? ==> ExponentOk(n.exponent.value))
  }

  predicate NumeralOk(n: Numeral) {
    NumeralShape(n) && |NumeralText(n)| <= COPY_LIMIT
  }

  /** The numbers of section 6 of RFC 8259. */
  predicate NumeralRfc(n: Numeral) {
    && NumeralShape(n)
    && n.whole != [] && (|n.whole| > 1 ==> n.whole[0] != ZERO)
    && (n.fraction.Some? ==> n.fraction.value != [])
  }

  function SignedExponent(n: Numeral): int
    requires n.exponent.Some? ==> ExponentOk(n.exponent.value)
  {
    if n.exponent.None? then 0
    else (if n.exponent.value.sign == [MINUS] then -1 else 1) * DigitsValue(n.exponent.value.digits)
  }

  function NumeralValue(n: Numeral): real
    requires NumeralShape(n)
  {
    Scaled(n.negative, n.whole, FractionDigits(n), SignedExponent(n))
  }

  // ----- strtod reads numerals to their end -----

  lemma ExponentComplete(t: bytes, c: nat, n: Numeral)
    requires NumeralShape(n) && c <= |t| && t[c..] == ExponentText(n)
    ensures ExponentEnd(t, c) == |t| && ExponentValue(t, c) == SignedExponent(n)
  {
    if n.exponent.Some? {
      var e := n.exponent.value;
      var q := c + 1 + |e.sign|;
      assert t[c] == t[c..][0] == e.mark;
      assert t[q..] == t[c..][1 + |e.sign|..] == e.digits;
      if e.sign != [] {
        assert t[c + 1] == t[c..][1] == e.sign[0];
      } else {
        assert t[c + 1] == t[c..][1] == e.digits[0];
      }
      assert ExponentDigits(t, c) == q;
      assert t[q..|t|] == e.digits;
      DigitsEndIs(t, q, |t|);
    }
  }

  /** Where the parts of a numeral lie in its text. */
  lemma NumeralSlices(n: Numeral)
    ensures var t, a := NumeralText(n), if n.negative then 1 else 0;
            var b := a + |n.whole|;
            var c := b + |FractionText(n)|;
            && c <= |t| && t[a..b] == n.whole && t[b..c] == FractionText(n) && t[c..] == ExponentText(n)
  {
    var h, f, e := HeadText(n), FractionText(n), ExponentText(n);
    assert (h + (f + e))[|h|..] == f + e;
    assert (h + (f + e))[|h|..|h| + |f|] == f;
    assert (h + (f + e))[|h| + |f|..] == e;
  }

  lemma StrtodComplete(n: Numeral)
    requires NumeralShape(n)
    ensures Strtod(NumeralText(n)) == Conversion(NumeralValue(n), |NumeralText(n)|)
  {
    hide ExponentEnd, ExponentValue, ExponentDigits, ExponentText, SignedExponent, DigitsEnd, Scaled, NumeralText;
    var t := NumeralText(n);
    var a := if n.negative then 1 else 0;
    var b := a + |n.whole|;
    var c := b + |FractionText(n)|;
    NumeralSlices(n);
    HeadSign(n);
    EndOfPart(t, c, n);
    if n.fraction.Some? {
      assert t[b] == t[b..c][0];
      assert t[b + 1..c] == t[b..c][1..];
      DigitsEndIs(t, b + 1, c);
    }
    DigitsEndIs(t, a, b);
    ExponentComplete(t, c, n);
  }

  /** Behind the digits comes nothing or an exponent mark. */
  lemma EndOfPart(t: bytes, c: nat, n: Numeral)
    requires NumeralShape(n) && c <= |t| && t[c..] == ExponentText(n)
    ensures c < |t| ==> t[c] != DOT && !Digit(t[c])
  {
    if c < |t| {
      assert t[c] == t[c..][0];
    }
  }

  /** Only a minus sign can open a numeral. */
  lemma HeadSign(n: Numeral)
    requires NumeralShape(n)
    ensures var t := NumeralText(n);
            && t != [] && (t[0] == MINUS <==> n.negative) && (Sign(t[0]) <==> n.negative)
            && (t[0] == MINUS || Digit(t[0]))
  {
    if !n.negative {
      assert NumeralText(n)[0] == n.whole[0];
    }
  }

  lemma {:induction false} CopiedIs(s: bytes, off: nat, t: bytes, i: nat)
    requires At(s, off, t) && i <= |t| <= COPY_LIMIT
    requires forall k | 0 <= k < |t| :: Numeric(t[k])
    requires off + |t| < |s| ==> !Numeric(s[off + |t|])
    ensures Copied(s, off, i) == |t|
    decreases |t| - i
  {
    if i < |t| {
      AtIndex(s, off, t, i);
      CopiedIs(s, off, t, i + 1);
    }
  }

  lemma NumeralNumeric(n: Numeral)
    requires NumeralShape(n)
    ensures forall k | 0 <= k < |NumeralText(n)| :: Numeric(NumeralText(n)[k])
  {
    forall b | b in NumeralText(n)
      ensures Numeric(b)
    {
      if b in HeadText(n) {
      } else if b in FractionText(n) {
      } else {
        assert b in ExponentText(n);
      }
    }
  }

  lemma NumberComplete(s: bytes, off: nat, n: Numeral)
    requires NumeralOk(n) && At(s, off, NumeralText(n))
    requires off + |NumeralText(n)| < |s| ==> !Numeric(s[off + |NumeralText(n)|])
    ensures ReadNumber(s, off) == Some(ReadNum(NumeralValue(n), off + |NumeralText(n)|))
  {
    hide NumeralText, Strtod, Copied, NumeralValue, NumeralShape;
    NumeralNumeric(n);
    CopiedIs(s, off, NumeralText(n), 0);
    StrtodComplete(n);
    HeadSign(n);
  }

  // ----- and reads nothing else -----

  lemma ExponentSound(t: bytes, c: nat) returns (e: Option<Exponent>)
    requires c <= |t|
    ensures e.Some? ==> ExponentOk(e.value)
    ensures var n := Numeral(false, [], None, e);
            ExponentText(n) == t[c..ExponentEnd(t, c)] && SignedExponent(n) == ExponentValue(t, c)
  {
    var d := ExponentEnd(t, c);
    if d == c {
      e := None;
    } else {
      hide DigitsValue;
      var q := ExponentDigits(t, c);
      e := Some(Exponent(t[c], t[c + 1..q], t[q..d]));
      assert t[c..d] == [t[c]] + t[c + 1..q] + t[q..d];
    }
  }

  lemma StrtodSound(t: bytes) returns (n: Numeral)
    requires Strtod(t).used > 0 && (t[0] == MINUS || Digit(t[0]))
    ensures NumeralShape(n) && t[..Strtod(t).used] == NumeralText(n)
    ensures Strtod(t) == Conversion(NumeralValue(n), |NumeralText(n)|)
  {
    hide ExponentEnd, ExponentValue, ExponentDigits, ExponentText, SignedExponent, DigitsEnd, Scaled, NumeralText;
    var a := if t[0] == MINUS then 1 else 0;
    var b := DigitsEnd(t, a);
    if a == 0 {
      DigitHere(t, 0);
    }
    var point := b < |t| && t[b] == DOT;
    var c := if point then DigitsEnd(t, b + 1) else b;
    var e := ExponentSound(t, c);
    n := Numeral(t[0] == MINUS, t[a..b], if point then Some(t[b + 1..c]) else None, e);
    SameExponent(n);
    assert t[b..c] == if point then [t[b]] + t[b + 1..c] else [];
    assert FractionText(n) == if point then [DOT] + t[b + 1..c] else [];
    NumeralFrom(t, a, b, c, ExponentEnd(t, c), n);
  }

  lemma NumeralFrom(t: bytes, a: nat, b: nat, c: nat, d: nat, n: Numeral)
    requires a <= b <= c <= d <= |t|
    requires t[..a] == (if n.negative then [MINUS] else []) && t[a..b] == n.whole
    requires t[b..c] == FractionText(n) && t[c..d] == ExponentText(n)
    ensures t[..d] == NumeralText(n) && |NumeralText(n)| == d
  {
    hide FractionText, ExponentText;
    Glue(t, a, b, c, d);
  }

  lemma DigitHere(t: bytes, p: nat)
    requires p < |t| && Digit(t[p])
    ensures DigitsEnd(t, p) > p
  {
  }

  lemma SameExponent(n: Numeral)
    requires n.exponent.Some? ==> ExponentOk(n.exponent.value)
    ensures var m := Numeral(false, [], None, n.exponent);
            ExponentText(m) == ExponentText(n) && SignedExponent(m) == SignedExponent(n)
  {
  }

  lemma NumberSound(s: bytes, off: nat) returns (n: Numeral)
    requires off < |s| && (s[off] == MINUS || Digit(s[off])) && ReadNumber(s, off).Some?
    ensures NumeralOk(n) && At(s, off, NumeralText(n))
    ensures ReadNumber(s, off) == Some(ReadNum(NumeralValue(n), off + |NumeralText(n)|))
  {
    hide NumeralText, Strtod, NumeralValue, NumeralShape;
    var t := s[off..off + Copied(s, off, 0)];
    n := StrtodSound(t);
    var used := Strtod(t).used;
    assert s[off..off + used] == t[..used];
  }

  // ----- the 63-byte limit -----

  /** A longer number is never read to its end: what is read stops in front of another number character. */
  lemma LongNumeralCut(s: bytes, off: nat, n: Numeral)
    requires NumeralShape(n) && At(s, off, NumeralText(n)) && |NumeralText(n)| > COPY_LIMIT
    ensures ReadNumber(s, off).Some? ==>
              ReadNumber(s, off).value.next <= off + COPY_LIMIT && Numeric(s[ReadNumber(s, off).value.next])
  {
    hide NumeralText, Strtod, NumeralShape;
    if ReadNumber(s, off).Some? {
      var next := ReadNumber(s, off).value.next;
      NumeralNumeric(n);
      AtIndex(s, off, NumeralText(n), next - off);
    }
  }

  // ----- of several numerals, the longest -----

  /** m is the longest numeral in front of t. */
  ghost predicate Longest(m: Numeral, t: bytes) {
    && NumeralShape(m) && NumeralText(m) <= t
    && forall n | NumeralShape(n) && NumeralText(n) <= t :: |NumeralText(n)| <= |NumeralText(m)|
  }

  lemma DigitsBeyond(t: bytes, p: nat, ds: bytes)
    requires AllDigits(ds) && At(t, p, ds)
    ensures DigitsEnd(t, p) >= p + |ds|
  {
    var r := DigitsEnd(t, p);
    if r < p + |ds| {
      AtIndex(t, p, ds, r - p);
    }
  }

  lemma ExponentBeyond(t: bytes, c: nat, n: Numeral)
    requires NumeralShape(n) && At(t, c, ExponentText(n))
    ensures ExponentEnd(t, c) >= c + |ExponentText(n)|
  {
    hide At;
    if n.exponent.Some? {
      var e := n.exponent.value;
      AtConcat(t, c, [e.mark] + e.sign, e.digits);
      AtIndex(t, c, ExponentText(n), 0);
      AtIndex(t, c, ExponentText(n), 1);
      assert ExponentDigits(t, c) == c + 1 + |e.sign|;
      DigitsBeyond(t, c + 1 + |e.sign|, e.digits);
    }
  }

  /** A numeral in front of a text, part by part */
  lemma PartsInFront(t: bytes, n: Numeral)
    requires NumeralShape(n) && NumeralText(n) <= t
    ensures t != [] && (t[0] == MINUS <==> n.negative) && (Sign(t[0]) <==> n.negative)
    ensures var a := if n.negative then 1 else 0;
            var b := a + |n.whole|;
            && At(t, a, n.whole) && At(t, b, FractionText(n)) && At(t, b + |FractionText(n)|, ExponentText(n))
            && |NumeralText(n)| == b + |FractionText(n)| + |ExponentText(n)|
  {
    hide At, NumeralShape, FractionText, ExponentText;
    AtFront(t, NumeralText(n));
    HeadSign(n);
    assert t[0] == NumeralText(n)[0];
    AtConcat(t, 0, HeadText(n), FractionText(n) + ExponentText(n));
    AtConcat(t, 0, if n.negative then [MINUS] else [], n.whole);
    AtConcat(t, |HeadText(n)|, FractionText(n), ExponentText(n));
  }

  /** strtod reads at least as far as any numeral in front of its text. */
  lemma StrtodBeyond(t: bytes, n: Numeral)
    requires NumeralShape(n) && NumeralText(n) <= t
    ensures Strtod(t).used >= |NumeralText(n)|
  {
    hide ExponentEnd, ExponentValue, DigitsEnd, Scaled, At, NumeralText, Sign;
    var a := if n.negative then 1 else 0;
    var b := a + |n.whole|;
    var c := b + |FractionText(n)|;
    PartsInFront(t, n);
    DigitsBeyond(t, a, n.whole);
    ExponentBeyond(t, c, n);
    if n.exponent.Some? { ExponentFirst(t, c, n); }
    if n.fraction.Some? {
      AtIndex(t, b, FractionText(n), 0);
      AtConcat(t, b, [DOT], n.fraction.value);
      DigitsBeyond(t, b + 1, n.fraction.value);
      DigitsStop(t, a, b);
      if n.exponent.Some? { DigitsStop(t, b + 1, c); }
    } else if n.exponent.Some? {
      DigitsStop(t, a, b);
    }
  }

  lemma AtFront(t: bytes, w: bytes)
    requires w <= t
    ensures At(t, 0, w)
  {
  }

  lemma ExponentFirst(t: bytes, c: nat, n: Numeral)
    requires NumeralShape(n) && n.exponent.Some? && At(t, c, ExponentText(n))
    ensures c < |t| && t[c] != DOT && !Digit(t[c])
  {
    AtIndex(t, c, ExponentText(n), 0);
  }

  lemma DigitsInside(t: bytes, p: nat)
    requires p <= |t|
    ensures forall k | p <= k < DigitsEnd(t, p) :: Digit(t[k])
  {
    forall k | p <= k < DigitsEnd(t, p)
      ensures Digit(t[k])
    {
      assert t[k] == t[p..DigitsEnd(t, p)][k - p];
    }
  }

  lemma DigitsStop(t: bytes, p: nat, q: nat)
    requires p <= q < |t| && DigitsEnd(t, p) >= q && !Digit(t[q])
    ensures DigitsEnd(t, p) == q
  {
    hide AllDigits;
    DigitsInside(t, p);
  }

  /** The bytes parse_number may look at. */
  function Window(s: bytes, off: nat): (w: bytes)
    requires off <= |s|
  {
    if off + COPY_LIMIT <= |s| then s[off..off + COPY_LIMIT] else s[off..]
  }

  /** Number bytes in the window are copied. */
  lemma {:induction false} CopiedBeyond(s: bytes, off: nat, t: bytes, i: nat)
    requires off <= |s| && t <= Window(s, off) && i <= |t|
    requires forall k | 0 <= k < |t| :: Numeric(t[k])
    ensures Copied(s, off, i) >= |t|
    decreases |t| - i
  {
    if i < |t| {
      assert t[i] == s[off + i];
      CopiedBeyond(s, off, t, i + 1);
    }
  }

  /** A numeral lies in the window exactly when it lies in what is copied. */
  lemma WindowNumeral(s: bytes, off: nat, n: Numeral)
    requires off <= |s| && NumeralShape(n)
    ensures NumeralText(n) <= Window(s, off) <==> NumeralText(n) <= s[off..off + Copied(s, off, 0)]
  {
    hide NumeralText, NumeralShape, Copied;
    if NumeralText(n) <= Window(s, off) {
      NumeralNumeric(n);
      CopiedBeyond(s, off, NumeralText(n), 0);
    }
  }

  /** parse_number in full: it reads v up to next exactly when the longest numeral in the window does. */
  lemma NumberExactly(s: bytes, off: nat, v: real, next: nat)
    requires off < |s| && (s[off] == MINUS || Digit(s[off]))
    ensures ReadNumber(s, off) == Some(ReadNum(v, next)) <==>
            exists m :: Longest(m, Window(s, off)) && v == NumeralValue(m) && next == off + |NumeralText(m)|
  {
    hide NumeralText, Strtod, NumeralValue, NumeralShape, Copied, Window;
    var t := s[off..off + Copied(s, off, 0)];
    forall n | NumeralShape(n) && NumeralText(n) <= Window(s, off)
      ensures ReadNumber(s, off).Some? && |NumeralText(n)| <= ReadNumber(s, off).value.next - off
    {
      WindowNumeral(s, off, n);
      StrtodBeyond(t, n);
      HeadSign(n);
    }
    if ReadNumber(s, off).Some? {
      var m := StrtodSound(t);
      WindowNumeral(s, off, m);
      assert Longest(m, Window(s, off));
      forall n | Longest(n, Window(s, off))
        ensures NumeralValue(n) == NumeralValue(m) && |NumeralText(n)| == |NumeralText(m)|
      {
        assert NumeralText(n) == Window(s, off)[..|NumeralText(n)|] == NumeralText(m);
        StrtodComplete(n);
        StrtodComplete(m);
      }
    }
  }

  /** Whatever is read by a numeral is read by the longest one. */
  lemma ReadLongest(s: bytes, off: nat, n: Numeral)
    requires off < |s| && (s[off] == MINUS || Digit(s[off]))
    requires NumeralShape(n) && At(s, off, NumeralText(n))
    requires ReadNumber(s, off).Some? && ReadNumber(s, off).value.next == off + |NumeralText(n)|
    ensures Longest(n, Window(s, off))
  {
    hide NumeralText, NumeralShape, ReadNumber, NumeralValue;
    var r := ReadNumber(s, off).value;
    NumberExactly(s, off, r.value, r.next);
    var m :| Longest(m, Window(s, off)) && r.value == NumeralValue(m) && r.next == off + |NumeralText(m)|;
    assert NumeralText(n) == s[off..r.next] == Window(s, off)[..|NumeralText(n)|];
  }
}
