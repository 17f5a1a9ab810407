/**
  How printed text looks: which white space stands where, which escapes and which digits are chosen. The layouts are
  described on the syntax of the text, piece by piece, and not by the functions that print it.
 */
module Layout {
  import opened Bytes
  import opened Utf
  import opened Json
  import opened Literal
  import opened Numeral
  import opened RfcMeaning
  import opened Grammar
  import opened PrintedText
  import opened RoundTrip

  /** A line end and n tabs */
  function NewLine(n: nat): bytes {
    ['\n' as int] + seq(n, i => '\t' as int)
  }

  /** Bytes stand for themselves wherever they may; otherwise the short escape, otherwise lower-case digits. */
  predicate Neat(p: Piece) {
    match p
    case Plain(b) => b >= 0x20 && b != '"' as int && b != '\\' as int
    case Simple(c) => c as char in ESCAPES && c != '/' as int
    case Unicode(q) =>
      && |q| == 4 && (forall i | 0 <= i < 4 :: q[i] as char in "0123456789abcdef")
      && QuadMeans(q) < 0x20 && (forall c | c in ESCAPES :: ESCAPES[c] != QuadMeans(q))
    case _ => false
  }

  predicate NeatText(ps: seq<Piece>) {
    forall i | 0 <= i < |ps| :: Neat(ps[i])
  }

  /** An integer in plain digits, zero without a sign */
  predicate NeatNumber(n: Numeral) {
    n.fraction.None? && n.exponent.None? && (n.negative ==> n.whole != ['0' as int])
  }

  /**
    Formatted, depth levels down: members and the closing brace of an object start lines of their own, indented by
    their depth; a tab follows the colon, and a space the comma of an array.
   */
  ghost predicate Formatted(c: Cst, depth: nat) {
    match c
    case CNumber(n) => NeatNumber(n)
    case CText(ps) => NeatText(ps)
    case CArray(gap, es) =>
      gap == [] && forall i | 0 <= i < |es| :: FormattedElement(es[i], i == 0, depth + 1)
    case CObject(gap, fs) =>
      gap == NewLine(depth) && forall i | 0 <= i < |fs| :: FormattedField(fs[i], i == |fs| - 1, depth + 1)
    case _ => true
  }

  ghost predicate FormattedElement(e: Element, first: bool, depth: nat) {
    e.before == (if first then [] else [' ' as int]) && Formatted(e.value, depth) && e.after == []
  }

  ghost predicate FormattedField(f: Field, last: bool, depth: nat) {
    && f.beforeKey == NewLine(depth) && NeatText(f.key) && f.afterKey == []
    && f.before == ['\t' as int] && Formatted(f.value, depth)
    && f.after == if last && depth > 0 then NewLine(depth - 1) else []
  }

  /** Unformatted: no white space at all. */
  ghost predicate Compact(c: Cst) {
    match c
    case CNumber(n) => NeatNumber(n)
    case CText(ps) => NeatText(ps)
    case CArray(gap, es) =>
      gap == [] && forall i | 0 <= i < |es| :: es[i].before == [] && Compact(es[i].value) && es[i].after == []
    case CObject(gap, fs) => gap == [] && forall i | 0 <= i < |fs| :: CompactField(fs[i])
    case _ => true
  }

  ghost predicate CompactField(f: Field) {
    && f.beforeKey == [] && NeatText(f.key) && f.afterKey == []
    && f.before == [] && Compact(f.value) && f.after == []
  }

  // ----- what is printed -----

  lemma HexNeat(d: nat)
    requires d < 16
    ensures HexChar(d) as char in "0123456789abcdef" && HexMeans(HexChar(d)) == d
  {
    assert "0123456789abcdef"[d] == HexChar(d) as char;
  }

  lemma NoEscape(b: byte)
    requires b < 0x20 && b !in [0x08, 0x0C, 0x0A, 0x0D, 0x09]
    ensures forall c | c in ESCAPES :: ESCAPES[c] != b
  {
    forall c | c in ESCAPES
      ensures ESCAPES[c] != b
    {
      assert c in ['"', '\\', '/', 'b', 'f', 'n', 'r', 't'];
    }
  }

  lemma ControlNeat(b: byte)
    requires b < 0x20 && b !in [0x08, 0x0C, 0x0A, 0x0D, 0x09]
    ensures Neat(Unicode([ZERO, ZERO, HexChar(b / 16), HexChar(b % 16)]))
  {
    hide HexMeans, HexChar;
    var q := [ZERO, ZERO, HexChar(b / 16), HexChar(b % 16)];
    HexNeat(0);
    HexNeat(b / 16);
    HexNeat(b % 16);
    ZeroNeat();
    NoEscape(b);
    assert QuadMeans(q) == b;
  }

  lemma PieceNeat(b: byte)
    ensures Neat(PieceOf(b))
  {
    hide HexChar, QuadMeans;
    if PieceOf(b).Unicode? {
      ControlNeat(b);
    }
  }

  lemma ZeroNeat()
    ensures HexChar(0) == ZERO
  {
  }

  lemma {:induction false} PiecesNeat(t: bytes)
    ensures NeatText(PiecesOf(t))
    decreases |t|
  {
    hide Neat, PieceOf;
    if t != [] {
      PieceNeat(t[0]);
      PiecesNeat(t[1..]);
    }
  }

  lemma NumberNeat(n: int)
    ensures NeatNumber(IntegerNumeral(n))
  {
    if n < 0 {
      DecimalZero(-n);
    }
  }

  lemma DecimalZero(n: nat)
    requires n > 0
    ensures Decimal(n) != [ZERO]
  {
    if n >= 10 {
      assert |Decimal(n)| == |Decimal(n / 10)| + 1;
    }
  }

  lemma SameLine(n: nat)
    ensures NewLine(n) == [NEWLINE] + Tabs(n)
  {
  }

  lemma {:induction false} CanonFormatted(v: Value, depth: nat)
    ensures Formatted(Canon(v, true, depth), depth)
    decreases v, 1
  {
    hide Formatted, NeatText, NeatNumber, IntegerNumeral, PiecesOf, CanonElements, CanonFields, NewLine, Tabs;
    match v
    case Number(n) =>
      NumberNeat(n.Floor);
      LeafFormatted(Canon(v, true, depth), depth);
    case String(t) =>
      PiecesNeat(t);
      LeafFormatted(Canon(v, true, depth), depth);
    case Array(_) =>
      ElementsFormatted(v, 0, depth + 1);
      ArrayFormatted(CanonElements(v, 0, true, depth + 1), depth);
    case Object(_) =>
      FieldsFormatted(v, 0, depth + 1);
      SameLine(depth);
      ObjectFormatted(CanonFields(v, 0, true, depth + 1), depth);
    case _ => LeafFormatted(Canon(v, true, depth), depth);
  }

  lemma LeafFormatted(c: Cst, depth: nat)
    requires !c.CArray? && !c.CObject? && (c.CNumber? ==> NeatNumber(c.n)) && (c.CText? ==> NeatText(c.ps))
    ensures Formatted(c, depth) && Compact(c)
  {
  }

  lemma ArrayFormatted(es: seq<Element>, depth: nat)
    requires forall i | 0 <= i < |es| :: FormattedElement(es[i], i == 0, depth + 1)
    ensures Formatted(CArray([], es), depth)
  {
  }

  lemma ObjectFormatted(fs: seq<Field>, depth: nat)
    requires forall i | 0 <= i < |fs| :: FormattedField(fs[i], i == |fs| - 1, depth + 1)
    ensures Formatted(CObject(NewLine(depth), fs), depth)
  {
  }

  lemma {:induction false} ElementsFormatted(v: Value, i: nat, depth: nat)
    requires v.Array? && i <= |v.items|
    ensures forall k | 0 <= k < |v.items| - i :: FormattedElement(CanonElements(v, i, true, depth)[k], i + k == 0, depth)
    decreases v, 0, |v.items| - i
  {
    hide Canon, Formatted;
    if i < |v.items| {
      CanonFormatted(v.items[i], depth);
      ElementsFormatted(v, i + 1, depth);
      var es := CanonElements(v, i, true, depth);
      assert forall k | 1 <= k < |es| :: es[k] == CanonElements(v, i + 1, true, depth)[k - 1];
    }
  }

  lemma {:induction false} FieldsFormatted(v: Value, i: nat, depth: nat)
    requires v.Object? && i <= |v.members| && depth > 0
    ensures forall k | 0 <= k < |v.members| - i ::
              FormattedField(CanonFields(v, i, true, depth)[k], i + k == |v.members| - 1, depth)
    decreases v, 0, |v.members| - i
  {
    hide Canon, Formatted, NewLine, Tabs, PiecesOf, NeatText;
    if i < |v.members| {
      CanonFormatted(v.members[i].value, depth);
      FieldsFormatted(v, i + 1, depth);
      PiecesNeat(v.members[i].key);
      SameLine(depth);
      SameLine(depth - 1);
      var fs := CanonFields(v, i, true, depth);
      assert forall k | 1 <= k < |fs| :: fs[k] == CanonFields(v, i + 1, true, depth)[k - 1];
    }
  }

  lemma {:induction false} CanonCompact(v: Value, depth: nat)
    ensures Compact(Canon(v, false, depth))
    decreases v, 1
  {
    hide NeatText, NeatNumber, IntegerNumeral, PiecesOf, CanonElements, CanonFields;
    match v
    case Number(n) => NumberNeat(n.Floor);
    case String(t) => PiecesNeat(t);
    case Array(_) => ElementsCompact(v, 0, depth + 1);
    case Object(_) => FieldsCompact(v, 0, depth + 1);
    case _ =>
  }

  lemma {:induction false} ElementsCompact(v: Value, i: nat, depth: nat)
    requires v.Array? && i <= |v.items|
    ensures forall k | 0 <= k < |v.items| - i ::
              var e := CanonElements(v, i, false, depth)[k]; e.before == [] && Compact(e.value) && e.after == []
    decreases v, 0, |v.items| - i
  {
    hide Canon, Compact;
    if i < |v.items| {
      CanonCompact(v.items[i], depth);
      ElementsCompact(v, i + 1, depth);
      var es := CanonElements(v, i, false, depth);
      assert forall k | 1 <= k < |es| :: es[k] == CanonElements(v, i + 1, false, depth)[k - 1];
    }
  }

  lemma {:induction false} FieldsCompact(v: Value, i: nat, depth: nat)
    requires v.Object? && i <= |v.members| && depth > 0
    ensures forall k | 0 <= k < |v.members| - i :: CompactField(CanonFields(v, i, false, depth)[k])
    decreases v, 0, |v.members| - i
  {
    hide Canon, Compact, PiecesOf, NeatText;
    if i < |v.members| {
      CanonCompact(v.members[i].value, depth);
      FieldsCompact(v, i + 1, depth);
      PiecesNeat(v.members[i].key);
      var fs := CanonFields(v, i, false, depth);
      assert forall k | 1 <= k < |fs| :: fs[k] == CanonFields(v, i + 1, false, depth)[k - 1];
    }
  }

  /**
    What is printed is a text of the RFC that denotes the value by the RFC's own meaning, laid out as formatted or
    without any white space, as asked for.
   */
  lemma PrintedLayout(v: Value, format: bool) returns (c: Cst)
    requires Printable(v) && Faithful(v, 0)
    ensures Text(c) == ValueText(v, format, 0)
    ensures Rfc(c) && RfcDenotes(c, v)
    ensures if format then Formatted(c, 0) else Compact(c)
  {
    hide Printable, Faithful, Canon, Rfc, RfcDenotes, Within, Text, ValueText, Denote, Ok, Formatted, Compact;
    c := Canon(v, format, 0);
    CanonRfc(v, format, 0);
    CanonText(v, format, 0);
    CanonDenotes(v, format, 0);
    RfcIsOk(c, 0);
    if format {
      CanonFormatted(v, 0);
    } else {
      CanonCompact(v, 0);
    }
  }
}
