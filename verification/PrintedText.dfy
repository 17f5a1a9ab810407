/**
  The text that print_value produces, formatted or not, as a function of the value; and which concrete syntax it is.
 */
module PrintedText {
  import opened Bytes
  import opened Utf
  import opened Json
  import opened Literal
  import opened Numeral
  import opened Grammar

  /** Values cJSON prints without floating point: integers below 10^15, C strings without NUL. */
  ghost predicate Printable(v: Value) {
    match v
    case Number(n) => n == n.Floor as real && -LARGEST < n.Floor < LARGEST
    case String(t) => NUL !in t
    case Raw(t) => NUL !in t
    case Array(items) => forall i | 0 <= i < |items| :: Printable(items[i])
    case Object(members) => forall i | 0 <= i < |members| :: NUL !in members[i].key && Printable(members[i].value)
    case _ => true
  }

  // ----- strings (print_string_ptr) -----

  function HexChar(d: nat): byte
    requires d < 16
  {
    if d < 10 then ZERO + d else 0x61 + d - 10
  }

  function Escaped(b: byte): (r: bytes)
    ensures 1 <= |r| <= 6
  {
    if b == QUOTE || b == BACKSLASH then [BACKSLASH, b]
    else if b == 0x08 then [BACKSLASH, LOWER_B]
    else if b == 0x0C then [BACKSLASH, LOWER_F]
    else if b == NEWLINE then [BACKSLASH, LOWER_N]
    else if b == CARRIAGE then [BACKSLASH, LOWER_R]
    else if b == TAB then [BACKSLASH, LOWER_T]
    else if b < 0x20 then [BACKSLASH, LOWER_U, ZERO, ZERO, HexChar(b / 16), HexChar(b % 16)]
    else [b]
  }

  function EscapedAll(t: bytes): bytes {
    if t == [] then [] else Escaped(t[0]) + EscapedAll(t[1..])
  }

  function StringText(t: bytes): bytes {
    [QUOTE] + EscapedAll(t) + [QUOTE]
  }

  lemma {:induction false} EscapedConcat(a: bytes, b: bytes)
    ensures EscapedAll(a + b) == EscapedAll(a) + EscapedAll(b)
    decreases |a|
  {
    if a == [] {
      assert a + b == b;
    } else {
      assert (a + b)[1..] == a[1..] + b;
      EscapedConcat(a[1..], b);
    }
  }

  lemma EscapedNothing()
    ensures EscapedAll([]) == []
  {
  }

  /** One more character escaped. */
  lemma EscapedMore(t: bytes, i: nat)
    requires i < |t|
    ensures EscapedAll(t[..i + 1]) == EscapedAll(t[..i]) + Escaped(t[i])
    ensures |EscapedAll(t[..i + 1])| <= |EscapedAll(t)|
  {
    assert t[..i + 1] == t[..i] + [t[i]];
    EscapedConcat(t[..i], [t[i]]);
    assert EscapedAll([t[i]]) == Escaped(t[i]) + [] == Escaped(t[i]);
    assert t == t[..i + 1] + t[i + 1..];
    EscapedConcat(t[..i + 1], t[i + 1..]);
  }

  /** A string as long as its escaped form needs no escapes. */
  lemma {:induction false} NothingEscaped(t: bytes)
    ensures |EscapedAll(t)| >= |t|
    ensures |EscapedAll(t)| == |t| ==> EscapedAll(t) == t
    decreases |t|
  {
    if t != [] {
      NothingEscaped(t[1..]);
    }
  }

  lemma {:induction false} EscapedNoNul(t: bytes)
    requires NUL !in t
    ensures NUL !in EscapedAll(t)
    decreases |t|
  {
    if t != [] {
      EscapedNoNul(t[1..]);
      assert NUL !in Escaped(t[0]);
    }
  }

  // ----- numbers (print_number) -----

  function Decimal(n: nat): (r: bytes)
    ensures |r| >= 1 && AllDigits(r)
  {
    if n < 10 then [ZERO + n] else Decimal(n / 10) + [ZERO + n % 10]
  }

  /** What "%1.15g" makes of an integer below 10^15. */
  function IntegerText(n: int): bytes {
    if n < 0 then [MINUS] + Decimal(-n) else Decimal(n)
  }

  lemma {:induction false} DecimalNoNul(n: nat)
    ensures NUL !in Decimal(n)
  {
    forall i | 0 <= i < |Decimal(n)|
      ensures Decimal(n)[i] != NUL
    {
      assert Digit(Decimal(n)[i]);
    }
  }

  // ----- values (print_value, print_array, print_object) -----

  function Tabs(n: nat): (r: bytes)
    ensures |r| == n && forall i | 0 <= i < n :: r[i] == TAB
  {
    if n == 0 then [] else Tabs(n - 1) + [TAB]
  }

  function When(format: bool, t: bytes): bytes {
    if format then t else []
  }

  function ValueText(v: Value, format: bool, depth: nat): bytes
    decreases v, 1
  {
    match v
    case Null => NULL_TEXT
    case False => FALSE_TEXT
    case True => TRUE_TEXT
    case Number(n) => IntegerText(n.Floor)
    case String(t) => StringText(t)
    case Raw(t) => t
    case Array(items) => [OPEN_BRACKET] + ItemsText(v, 0, format, depth + 1) + [CLOSE_BRACKET]
    case Object(members) =>
      [OPEN_BRACE] + When(format, [NEWLINE]) + MembersText(v, 0, format, depth + 1) + When(format, Tabs(depth)) + [CLOSE_BRACE]
  }

  function Separator(format: bool): bytes {
    [COMMA] + When(format, [SPACE])
  }

  /** Elements from index i on, each but the last followed by the separator. */
  function ItemsText(v: Value, i: nat, format: bool, depth: nat): bytes
    requires v.Array? && i <= |v.items|
    decreases v, 0, |v.items| - i
  {
    if i == |v.items| then []
    else
      ValueText(v.items[i], format, depth) + (if i + 1 < |v.items| then Separator(format) else [])
      + ItemsText(v, i + 1, format, depth)
  }

  function MemberStart(m: Member, format: bool, depth: nat): bytes {
    When(format, Tabs(depth)) + StringText(m.key) + [COLON] + When(format, [TAB])
  }

  function MemberEnd(last: bool, format: bool): bytes {
    (if last then [] else [COMMA]) + When(format, [NEWLINE])
  }

  /** Members from index i on. */
  function MembersText(v: Value, i: nat, format: bool, depth: nat): bytes
    requires v.Object? && i <= |v.members|
    decreases v, 0, |v.members| - i
  {
    if i == |v.members| then []
    else
      MemberStart(v.members[i], format, depth) + ValueText(v.members[i].value, format, depth)
      + MemberEnd(i + 1 == |v.members|, format) + MembersText(v, i + 1, format, depth)
  }

  // ----- the concrete syntax of a printed value -----

  function PieceOf(b: byte): Piece {
    if b == QUOTE || b == BACKSLASH then Simple(b)
    else if b == 0x08 then Simple(LOWER_B)
    else if b == 0x0C then Simple(LOWER_F)
    else if b == NEWLINE then Simple(LOWER_N)
    else if b == CARRIAGE then Simple(LOWER_R)
    else if b == TAB then Simple(LOWER_T)
    else if b < 0x20 then Unicode([ZERO, ZERO, HexChar(b / 16), HexChar(b % 16)])
    else Plain(b)
  }

  function PiecesOf(t: bytes): seq<Piece> {
    if t == [] then [] else [PieceOf(t[0])] + PiecesOf(t[1..])
  }

  function IntegerNumeral(n: int): Numeral {
    Numeral(n < 0, Decimal(if n < 0 then -n else n), None, None)
  }

  function Canon(v: Value, format: bool, depth: nat): Cst
    decreases v, 1
  {
    match v
    case Null => CNull
    case False => CFalse
    case True => CTrue
    case Number(n) => CNumber(IntegerNumeral(n.Floor))
    case String(t) => CText(PiecesOf(t))
    case Raw(t) => CNull
    case Array(_) => CArray([], CanonElements(v, 0, format, depth + 1))
    case Object(_) =>
      CObject(When(format, [NEWLINE] + Tabs(depth)), CanonFields(v, 0, format, depth + 1))
  }

  function CanonElements(v: Value, i: nat, format: bool, depth: nat): (es: seq<Element>)
    requires v.Array? && i <= |v.items|
    ensures |es| == |v.items| - i
    decreases v, 0, |v.items| - i
  {
    if i == |v.items| then []
    else [Element(When(format && i > 0, [SPACE]), Canon(v.items[i], format, depth), [])] + CanonElements(v, i + 1, format, depth)
  }

  function CanonFields(v: Value, i: nat, format: bool, depth: nat): (fs: seq<Field>)
    requires v.Object? && i <= |v.members| && depth > 0
    ensures |fs| == |v.members| - i
    decreases v, 0, |v.members| - i
  {
    if i == |v.members| then []
    else
      var m := v.members[i];
      [Field(When(format, [NEWLINE] + Tabs(depth)), PiecesOf(m.key), [], When(format, [TAB]), Canon(m.value, format, depth),
             When(format && i + 1 == |v.members|, [NEWLINE] + Tabs(depth - 1)))]
      + CanonFields(v, i + 1, format, depth)
  }

  /** Printed text that parses back: no raw text, no deeper than the nesting limit. */
  ghost predicate Faithful(v: Value, depth: nat) {
    match v
    case Raw(_) => false
    case Array(items) =>
      depth < NESTING_LIMIT && forall i | 0 <= i < |items| :: Faithful(items[i], depth + 1)
    case Object(members) =>
      depth < NESTING_LIMIT && forall i | 0 <= i < |members| :: Faithful(members[i].value, depth + 1)
    case _ => true
  }

  // ----- strings -----

  lemma PieceOfByte(b: byte)
    requires b != NUL
    ensures PieceRfc(PieceOf(b)) && PieceOk(PieceOf(b))
    ensures PieceText(PieceOf(b)) == Escaped(b) && PieceBytes(PieceOf(b)) == [b]
  {
    if PieceOf(b).Unicode? {
      var q := PieceOf(b).q;
      assert forall i | 0 <= i < 4 :: HexDigit(q[i]) >= 0;
      Hex4Digits(q);
      assert Hex4(q) == b;
    }
  }

  lemma {:induction false} PiecesOfText(t: bytes)
    requires NUL !in t
    ensures PiecesRfc(PiecesOf(t)) && PiecesText(PiecesOf(t)) == EscapedAll(t)
    ensures PiecesOk(PiecesOf(t)) && PiecesBytes(PiecesOf(t)) == t
    decreases |t|
  {
    if t != [] {
      hide PieceOf, Escaped, PieceText, PieceBytes, PieceRfc, PieceOk;
      PieceOfByte(t[0]);
      PiecesOfText(t[1..]);
      var ps := PiecesOf(t);
      assert ps[0] == PieceOf(t[0]) && ps[1..] == PiecesOf(t[1..]);
      NotOverrun(t[0]);
      assert t == [t[0]] + t[1..];
    }
  }

  lemma NotOverrun(b: byte)
    ensures !PieceOf(b).Overrun?
  {
  }

  /** A printed string is a literal that denotes the string. */
  lemma StringLiteral(t: bytes)
    requires NUL !in t
    ensures LiteralOk(PiecesOf(t)) && LiteralText(PiecesOf(t)) == StringText(t) && KeyOf(PiecesOf(t)) == t
  {
    PiecesOfText(t);
    WellFormedLiteral(PiecesOf(t));
  }

  // ----- numbers -----

  function TenTo(k: nat): nat {
    if k == 0 then 1 else 10 * TenTo(k - 1)
  }

  lemma {:induction false} DecimalDigits(n: nat, k: nat)
    requires n < TenTo(k + 1)
    ensures DigitsValue(Decimal(n)) == n && |Decimal(n)| <= k + 1
    ensures |Decimal(n)| > 1 ==> Decimal(n)[0] != ZERO
    decreases n
  {
    var r := Decimal(n);
    if n < 10 {
      assert r[..0] == [];
      assert DigitsValue(r) == 0 * 10 + n;
    } else {
      DecimalDigits(n / 10, k - 1);
      assert r[..|r| - 1] == Decimal(n / 10);
      FirstDigit(n / 10);
    }
  }

  lemma FirstDigit(n: nat)
    requires 0 < n
    ensures Decimal(n)[0] != ZERO
  {
  }

  lemma TenToFifteen()
    ensures TenTo(15) == LARGEST
  {
    assert TenTo(3) == 1000;
    assert TenTo(6) == 1_000_000;
    assert TenTo(9) == 1_000_000_000;
    assert TenTo(12) == 1_000_000_000_000;
  }

  /** A printed integer is a number of the RFC that denotes the integer. */
  lemma IntegerLiteral(n: int)
    requires -LARGEST < n < LARGEST
    ensures NumeralRfc(IntegerNumeral(n)) && NumeralOk(IntegerNumeral(n))
    ensures NumeralText(IntegerNumeral(n)) == IntegerText(n) && NumeralValue(IntegerNumeral(n)) == n as real
  {
    hide Decimal, DigitsValue, TenTo;
    var m := if n < 0 then -n else n;
    TenToFifteen();
    DecimalDigits(m, 14);
    var ds := Decimal(m);
    assert ds + [] == ds;
    PlainText(IntegerNumeral(n));
    assert NumeralValue(IntegerNumeral(n)) == (if n < 0 then -1.0 else 1.0) * (m as real) * 1.0;
  }

  lemma PlainText(n: Numeral)
    requires n.fraction.None? && n.exponent.None?
    ensures NumeralText(n) == if n.negative then [MINUS] + n.whole else n.whole
  {
    assert HeadText(n) + ([] + []) == HeadText(n);
    assert !n.negative ==> [] + n.whole == n.whole;
  }
}
