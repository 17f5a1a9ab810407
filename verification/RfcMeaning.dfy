/**
  What the strings and numbers of RFC 8259 mean, with tables and sums of its own; and that cJSON's decoding of escapes,
  hexadecimal digits and decimal digits agrees.
 */
module RfcMeaning {
  import opened Bytes
  import opened Utf
  import opened Literal
  import opened Numeral

  // ----- strings (section 7) -----

  const ESCAPES: map<char, nat> := map[
    '"' := '"' as nat, '\\' := '\\' as nat, '/' := '/' as nat,
    'b' := 0x08, 'f' := 0x0C, 'n' := 0x0A, 'r' := 0x0D, 't' := 0x09
  ]

  const HEX: map<char, nat> := map[
    '0' := 0, '1' := 1, '2' := 2, '3' := 3, '4' := 4, '5' := 5, '6' := 6, '7' := 7, '8' := 8, '9' := 9,
    'a' := 10, 'b' := 11, 'c' := 12, 'd' := 13, 'e' := 14, 'f' := 15,
    'A' := 10, 'B' := 11, 'C' := 12, 'D' := 13, 'E' := 14, 'F' := 15
  ]

  function HexMeans(b: byte): nat {
    if b as char in HEX then HEX[b as char] else 0
  }

  function QuadMeans(q: bytes): nat
    requires |q| == 4
  {
    HexMeans(q[0]) * 4096 + HexMeans(q[1]) * 256 + HexMeans(q[2]) * 16 + HexMeans(q[3])
  }

  /** The bytes one piece of a literal stands for; characters are encoded in UTF-8. */
  function PieceMeans(p: Piece): bytes {
    match p
    case Plain(b) => [b]
    case Simple(c) => if c as char in ESCAPES && ESCAPES[c as char] < 256 then [ESCAPES[c as char]] else []
    case Unicode(q) => if |q| == 4 && QuadMeans(q) <= 0x10FFFF then Utf8Encode(QuadMeans(q)) else []
    case Pair(high, low) =>
      if |high| == |low| == 4 && QuadMeans(high) >= 0xD800 && QuadMeans(low) >= 0xDC00 then
        var cp := (QuadMeans(high) - 0xD800) * 1024 + (QuadMeans(low) - 0xDC00) + 65536;
        if cp <= 0x10FFFF then Utf8Encode(cp) else []
      else []
    case Overrun => []
  }

  function StringMeans(ps: seq<Piece>): bytes {
    if ps == [] then [] else PieceMeans(ps[0]) + StringMeans(ps[1..])
  }

  /** cJSON knows exactly the eight simple escapes, each with its meaning. */
  lemma EscapesExact(c: byte)
    ensures SimpleEscape(c) >= 0 <==> c as char in ESCAPES
    ensures SimpleEscape(c) >= 0 ==> SimpleEscape(c) == ESCAPES[c as char]
  {
  }

  /** It knows exactly the twenty-two hexadecimal digits, each with its value. */
  lemma HexExact(b: byte)
    ensures HexDigit(b) >= 0 <==> b as char in HEX
    ensures HexDigit(b) >= 0 ==> HexDigit(b) == HexMeans(b)
  {
  }

  lemma QuadExact(q: bytes)
    requires |q| == 4 && ValidHex(q)
    ensures Hex4(q) == QuadMeans(q)
  {
    hide HexMeans;
    Hex4Digits(q);
    HexExact(q[0]);
    HexExact(q[1]);
    HexExact(q[2]);
    HexExact(q[3]);
  }

  /** An escape with another byte among its four is taken for U+0000, which ends the string. */
  lemma BadQuad(q: bytes, i: nat)
    requires |q| == 4 && i < 4 && q[i] as char !in HEX
    ensures PieceOk(Unicode(q)) && PieceBytes(Unicode(q)) == [0]
  {
    HexExact(q[i]);
  }

  lemma PieceRead(p: Piece)
    requires PieceRfc(p)
    ensures PieceOk(p) && PieceBytes(p) == PieceMeans(p)
  {
    hide HexMeans, HexDigit, Hex4, QuadMeans, SimpleEscape, Utf8Encode;
    match p
    case Simple(c) => EscapesExact(c);
    case Unicode(q) => QuadExact(q);
    case Pair(high, low) =>
      QuadExact(high);
      QuadExact(low);
    case _ =>
  }

  lemma {:induction false} PiecesRead(ps: seq<Piece>)
    requires PiecesRfc(ps)
    ensures PiecesOk(ps) && PiecesBytes(ps) == StringMeans(ps)
    decreases |ps|
  {
    hide PieceMeans, PieceBytes, PieceRfc, PieceOk;
    RfcPieces(ps);
    if ps != [] {
      PieceRead(ps[0]);
      PiecesRead(ps[1..]);
    }
  }

  /** Every literal of the RFC without U+0000 is read as the bytes it means. */
  lemma RfcLiteral(ps: seq<Piece>)
    requires PiecesRfc(ps)
    ensures LiteralOk(ps) && LiteralValue(ps) == StringMeans(ps)
  {
    WellFormedLiteral(ps);
    PiecesRead(ps);
  }

  // ----- numbers (section 6) -----

  function Ten(k: nat): (r: real)
    ensures r >= 1.0
  {
    if k == 0 then 1.0 else 10.0 * Ten(k - 1)
  }

  /** Digits in front of the point, the first counting most. */
  function WholeMeans(ds: bytes): real
    requires AllDigits(ds)
  {
    if ds == [] then 0.0 else ((ds[0] - '0' as int) as real) * Ten(|ds| - 1) + WholeMeans(ds[1..])
  }

  /** Digits behind the point, each a tenth of what it would count one place further left. */
  function FractionMeans(ds: bytes): real
    requires AllDigits(ds)
  {
    if ds == [] then 0.0 else (((ds[0] - '0' as int) as real) + FractionMeans(ds[1..])) / 10.0
  }

  function Shifted(x: real, e: int): real {
    if e >= 0 then x * Ten(e) else x / Ten(-e)
  }

  function ExponentMeans(e: Exponent): int
    requires AllDigits(e.digits)
  {
    if e.sign == ['-' as int] then -WholeMeans(e.digits).Floor else WholeMeans(e.digits).Floor
  }

  function NumberMeans(n: Numeral): real
    requires NumeralShape(n)
  {
    var m := WholeMeans(n.whole) + (if n.fraction.Some? then FractionMeans(n.fraction.value) else 0.0);
    var x := if n.exponent.Some? then Shifted(m, ExponentMeans(n.exponent.value)) else m;
    if n.negative then -x else x
  }

  lemma {:induction false} WholeExact(ds: bytes)
    requires AllDigits(ds)
    ensures WholeMeans(ds) == DigitsValue(ds) as real
    decreases |ds|
  {
    if ds != [] {
      WholeExact(ds[1..]);
      DigitsFirst(ds);
      assert WholeMeans(ds) == Times((ds[0] - ZERO) as real, Ten(|ds| - 1)) + WholeMeans(ds[1..]);
    }
  }

  /** A product, to be taken apart only where its factors matter. */
  function Times(x: real, y: real): real {
    x * y
  }

  lemma {:induction false} DigitsFirst(ds: bytes)
    requires AllDigits(ds) && ds != []
    ensures DigitsValue(ds) as real == Times((ds[0] - ZERO) as real, Ten(|ds| - 1)) + DigitsValue(ds[1..]) as real
    decreases |ds|
  {
    var n := |ds| - 1;
    if n == 0 {
      assert ds[..0] == [] && ds[1..] == [];
    } else {
      hide Ten, Times;
      var front, d := ds[..n], (ds[n] - ZERO) as real;
      DigitsFirst(front);
      assert front[1..] == ds[1..][..n - 1];
      assert ds[1..][n - 1] == ds[n];
      JoinStep((ds[0] - ZERO) as real, n - 1, DigitsValue(front[1..]) as real, d);
    }
  }

  /** Digits behind others move those by as many places. */
  lemma {:induction false} DigitsJoin(a: bytes, b: bytes)
    requires AllDigits(a) && AllDigits(b)
    ensures AllDigits(a + b) && DigitsValue(a + b) as real == Times(DigitsValue(a) as real, Ten(|b|)) + DigitsValue(b) as real
    decreases |b|
  {
    if b == [] {
      assert a + b == a;
    } else {
      hide Ten, Times;
      var front, d := b[..|b| - 1], (b[|b| - 1] - ZERO) as real;
      DigitsJoin(a, front);
      assert (a + b)[..|a + b| - 1] == a + front;
      JoinStep(DigitsValue(a) as real, |front|, DigitsValue(front) as real, d);
    }
  }

  lemma JoinStep(a: real, k: nat, b: real, d: real)
    ensures (Times(a, Ten(k)) + b) * 10.0 + d == Times(a, Ten(k + 1)) + (b * 10.0 + d)
  {
  }

  lemma {:induction false} FractionExact(ds: bytes)
    requires AllDigits(ds)
    ensures Times(FractionMeans(ds), Ten(|ds|)) == DigitsValue(ds) as real
    decreases |ds|
  {
    if ds != [] {
      hide DigitsValue, Ten, Times;
      FractionExact(ds[1..]);
      DigitsFirst(ds);
      FractionStep((ds[0] - ZERO) as real, FractionMeans(ds[1..]), |ds| - 1);
    }
  }

  lemma FractionStep(d: real, f: real, k: nat)
    ensures Times((d + f) / 10.0, Ten(k + 1)) == Times(d, Ten(k)) + Times(f, Ten(k))
  {
  }

  lemma {:induction false} PowerExact(e: int)
    ensures e >= 0 ==> Power10(e) == Ten(e)
    ensures e <= 0 ==> Power10(e) * Ten(-e) == 1.0
    decreases if e < 0 then -e else e
  {
    if e > 0 {
      PowerExact(e - 1);
    } else if e < 0 {
      PowerExact(e + 1);
      PowerStep(Power10(e + 1), Ten(-e - 1));
    }
  }

  lemma PowerStep(p: real, t: real)
    requires p * t == 1.0
    ensures p / 10.0 * (10.0 * t) == 1.0
  {
  }

  /** A power of ten by an exponent lowered by k. */
  lemma {:induction false} PowerLess(e: int, k: nat)
    ensures Power10(e - k) * Ten(k) == Power10(e)
    decreases k
  {
    if k > 0 {
      PowerLess(e, k - 1);
      PowerDown(e - k + 1);
      assert Ten(k) == 10.0 * Ten(k - 1);
      Reorder(Power10(e - k), Ten(k - 1));
    }
  }

  lemma Reorder(p: real, t: real)
    ensures p * (10.0 * t) == (p * 10.0) * t
  {
  }

  lemma PowerDown(e: int)
    ensures Power10(e - 1) * 10.0 == Power10(e)
  {
  }

  lemma ShiftedExact(x: real, e: int)
    ensures Shifted(x, e) == x * Power10(e)
  {
    hide Power10, Ten;
    PowerExact(e);
    if e < 0 {
      Quotient(x, Power10(e), Ten(-e));
    }
  }

  lemma Quotient(x: real, p: real, t: real)
    requires p * t == 1.0 && t >= 1.0
    ensures x / t == x * p
  {
    assert x == x * (p * t) == (x * p) * t;
  }

  lemma Moved(m: real, t: real, p: real, q: real)
    requires p * t == q
    ensures (m * t) * p == m * q
  {
  }

  lemma ExponentExact(n: Numeral)
    requires NumeralShape(n) && n.exponent.Some?
    ensures SignedExponent(n) == ExponentMeans(n.exponent.value)
  {
    hide DigitsValue, WholeMeans;
    WholeExact(n.exponent.value.digits);
  }

  /** The digits of a numeral, whatever the place of the point. */
  lemma MantissaExact(n: Numeral)
    requires NumeralShape(n)
    ensures var f, e := FractionDigits(n), SignedExponent(n);
            var m := WholeMeans(n.whole) + FractionMeans(f);
            (DigitsValue(n.whole + f) as real) * Power10(e - |f|) == m * Power10(e)
  {
    hide DigitsValue, WholeMeans, FractionMeans, Power10, Ten, SignedExponent;
    var f, e := FractionDigits(n), SignedExponent(n);
    DigitsJoin(n.whole, f);
    WholeExact(n.whole);
    FractionExact(f);
    var m := WholeMeans(n.whole) + FractionMeans(f);
    Spread(WholeMeans(n.whole), FractionMeans(f), Ten(|f|));
    assert DigitsValue(n.whole + f) as real == m * Ten(|f|);
    PowerLess(e, |f|);
    Moved(m, Ten(|f|), Power10(e - |f|), Power10(e));
  }

  lemma Spread(x: real, y: real, t: real)
    ensures Times(x, t) + Times(y, t) == (x + y) * t
  {
  }

  lemma Signs(d: real, p: real)
    ensures -1.0 * d * p == -(d * p) && 1.0 * d * p == d * p
  {
  }

  /** The reading of a numeral is its meaning. */
  lemma NumberExact(n: Numeral)
    requires NumeralShape(n)
    ensures NumeralValue(n) == NumberMeans(n)
  {
    hide DigitsValue, WholeMeans, Power10, Ten, Shifted;
    var f, e := FractionDigits(n), SignedExponent(n);
    MantissaExact(n);
    ShiftedExact(WholeMeans(n.whole) + FractionMeans(f), e);
    if n.exponent.Some? {
      ExponentExact(n);
    } else {
      PowerZero();
    }
    Signs(DigitsValue(n.whole + f) as real, Power10(e - |f|));
  }

  lemma PowerZero()
    ensures Power10(0) == 1.0
  {
  }
}
