/**
  Concrete syntax of JSON texts with every choice a writer has: white space, escapes, number spelling.
  Ok describes the language cJSON reads, Rfc the part of it that RFC 8259 defines.
 */
module Grammar {
  import opened Bytes
  import opened Json
  import opened Literal
  import opened Numeral
  import opened RfcMeaning

  datatype Cst =
    | CNull
    | CFalse
    | CTrue
    | CNumber(n: Numeral)
    | CText(ps: seq<Piece>)
    | CArray(gap: bytes, elements: seq<Element>)
    | CObject(gap: bytes, fields: seq<Field>)

  datatype Element = Element(before: bytes, value: Cst, after: bytes)

  datatype Field =
    Field(beforeKey: bytes, key: seq<Piece>, afterKey: bytes, before: bytes, value: Cst, after: bytes)

  // ----- texts -----

  function Text(c: Cst): bytes {
    match c
    case CNull => NULL_TEXT
    case CFalse => FALSE_TEXT
    case CTrue => TRUE_TEXT
    case CNumber(n) => NumeralText(n)
    case CText(ps) => LiteralText(ps)
    case CArray(gap, es) => [OPEN_BRACKET] + (if es == [] then gap + [CLOSE_BRACKET] else ElementsText(es))
    case CObject(gap, fs) => [OPEN_BRACE] + (if fs == [] then gap + [CLOSE_BRACE] else FieldsText(fs))
  }

  /** Elements up to and with the closing bracket. */
  function ElementsText(es: seq<Element>): bytes
    requires es != []
  {
    es[0].before + (Text(es[0].value) + (es[0].after +
    (if |es| == 1 then [CLOSE_BRACKET] else [COMMA] + ElementsText(es[1..]))))
  }

  /** Members up to and with the closing brace. */
  function FieldsText(fs: seq<Field>): bytes
    requires fs != []
  {
    fs[0].beforeKey + (LiteralText(fs[0].key) + (fs[0].afterKey + ([COLON] +
    (fs[0].before + (Text(fs[0].value) + (fs[0].after +
    (if |fs| == 1 then [CLOSE_BRACE] else [COMMA] + FieldsText(fs[1..]))))))))
  }

  // ----- the language cJSON reads -----

  /** Everything buffer_skip_whitespace skips. */
  predicate Blank(w: bytes) {
    forall i | 0 <= i < |w| :: w[i] <= SPACE
  }

  ghost predicate Ok(c: Cst, depth: nat) {
    match c
    case CNumber(n) => NumeralOk(n)
    case CText(ps) => LiteralOk(ps)
    case CArray(gap, es) => depth < NESTING_LIMIT && Blank(gap) && forall i | 0 <= i < |es| :: ElementOk(es[i], depth + 1)
    case CObject(gap, fs) => depth < NESTING_LIMIT && Blank(gap) && forall i | 0 <= i < |fs| :: FieldOk(fs[i], depth + 1)
    case _ => true
  }

  ghost predicate ElementOk(e: Element, depth: nat) {
    Blank(e.before) && Ok(e.value, depth) && Blank(e.after)
  }

  ghost predicate FieldOk(f: Field, depth: nat) {
    && Blank(f.beforeKey) && LiteralOk(f.key) && Blank(f.afterKey)
    && Blank(f.before) && Ok(f.value, depth) && Blank(f.after)
  }

  // ----- denotation -----

  /** The value a text denotes; what a malformed part (one that is not Ok) stands for is arbitrary. */
  function Denote(c: Cst): Value {
    match c
    case CNull => Null
    case CFalse => False
    case CTrue => True
    case CNumber(n) => Number(if NumeralShape(n) then NumeralValue(n) else 0.0)
    case CText(ps) => String(KeyOf(ps))
    case CArray(_, es) => Array(Items(es))
    case CObject(_, fs) => Object(Members(fs))
  }

  function KeyOf(ps: seq<Piece>): bytes {
    if PiecesOk(ps) then LiteralValue(ps) else []
  }

  function Items(es: seq<Element>): (r: seq<Value>)
    ensures |r| == |es| && forall i | 0 <= i < |es| :: r[i] == Denote(es[i].value)
  {
    if es == [] then [] else [Denote(es[0].value)] + Items(es[1..])
  }

  function Members(fs: seq<Field>): (r: seq<Member>)
    ensures |r| == |fs|
    ensures forall i | 0 <= i < |fs| :: r[i] == Member(KeyOf(fs[i].key), Denote(fs[i].value))
  {
    if fs == [] then [] else [Member(KeyOf(fs[0].key), Denote(fs[0].value))] + Members(fs[1..])
  }

  // ----- RFC 8259 -----

  /** White space of section 2. */
  predicate BlankRfc(w: bytes) {
    forall i | 0 <= i < |w| :: w[i] == SPACE || w[i] == TAB || w[i] == NEWLINE || w[i] == CARRIAGE
  }

  /** Texts of RFC 8259 without U+0000. */
  ghost predicate Rfc(c: Cst) {
    match c
    case CNumber(n) => NumeralRfc(n)
    case CText(ps) => PiecesRfc(ps)
    case CArray(gap, es) =>
      && BlankRfc(gap)
      && forall i | 0 <= i < |es| :: BlankRfc(es[i].before) && Rfc(es[i].value) && BlankRfc(es[i].after)
    case CObject(gap, fs) => BlankRfc(gap) && forall i | 0 <= i < |fs| :: FieldRfc(fs[i])
    case _ => true
  }

  ghost predicate FieldRfc(f: Field) {
    && BlankRfc(f.beforeKey) && PiecesRfc(f.key) && BlankRfc(f.afterKey)
    && BlankRfc(f.before) && Rfc(f.value) && BlankRfc(f.after)
  }

  /** The limits of cJSON: 1000 levels of nesting, and numbers of at most 63 bytes. */
  ghost predicate Within(c: Cst, depth: nat) {
    match c
    case CNumber(n) => |NumeralText(n)| <= COPY_LIMIT
    case CArray(_, es) => depth < NESTING_LIMIT && forall i | 0 <= i < |es| :: Within(es[i].value, depth + 1)
    case CObject(_, fs) => depth < NESTING_LIMIT && forall i | 0 <= i < |fs| :: Within(fs[i].value, depth + 1)
    case _ => true
  }

  /** v is the value an RFC text denotes; no string is cut. */
  ghost predicate RfcDenotes(c: Cst, v: Value) {
    match c
    case CNull => v == Null
    case CFalse => v == False
    case CTrue => v == True
    case CNumber(n) => NumeralShape(n) && v == Number(NumberMeans(n))
    case CText(ps) => v == String(StringMeans(ps))
    case CArray(_, es) =>
      && v.Array? && |v.items| == |es|
      && forall i | 0 <= i < |es| :: RfcDenotes(es[i].value, v.items[i])
    case CObject(_, fs) =>
      && v.Object? && |v.members| == |fs|
      && forall i | 0 <= i < |fs| ::
           v.members[i].key == StringMeans(fs[i].key) && RfcDenotes(fs[i].value, v.members[i].value)
  }

  lemma {:induction false} RfcIsOk(c: Cst, depth: nat)
    requires Rfc(c) && Within(c, depth)
    ensures Ok(c, depth) && RfcDenotes(c, Denote(c))
  {
    hide StringMeans, NumberMeans, NumeralValue, LiteralValue;
    match c
    case CNumber(n) => NumberExact(n);
    case CText(ps) => RfcLiteral(ps);
    case CArray(_, es) =>
      forall i | 0 <= i < |es|
        ensures ElementOk(es[i], depth + 1) && RfcDenotes(es[i].value, Denote(es[i].value))
      {
        RfcIsOk(es[i].value, depth + 1);
      }
    case CObject(_, fs) =>
      forall i | 0 <= i < |fs|
        ensures FieldOk(fs[i], depth + 1) && KeyOf(fs[i].key) == StringMeans(fs[i].key)
        ensures RfcDenotes(fs[i].value, Denote(fs[i].value))
      {
        assert FieldRfc(fs[i]);
        RfcLiteral(fs[i].key);
        RfcIsOk(fs[i].value, depth + 1);
      }
    case _ =>
  }

  // ----- a text starts with a byte that is no white space -----

  predicate ShapedNumber(c: Cst) {
    c.CNumber? ==> NumeralShape(c.n)
  }

  lemma TextStart(c: Cst)
    requires ShapedNumber(c)
    ensures Text(c) != [] && SPACE < Text(c)[0] < 0x80 && Text(c)[0] != CLOSE_BRACKET && Text(c)[0] != CLOSE_BRACE
  {
    match c
    case CNumber(n) => HeadSign(n);
    case _ =>
  }

  // ----- whole documents -----

  /** An optional byte order mark, then one value with white space around it. */
  datatype Document = Document(mark: bool, before: bytes, value: Cst, after: bytes)

  function DocumentText(d: Document): bytes {
    (if d.mark then BYTE_ORDER_MARK else []) + (d.before + (Text(d.value) + d.after))
  }

  ghost predicate DocumentOk(d: Document) {
    Blank(d.before) && Ok(d.value, 0) && Blank(d.after)
  }
}
