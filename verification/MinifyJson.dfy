/**
  Minifying JSON with comments: exactly when the automaton of MinifyScan goes through is the result the same text
  without white space and comments, and then it denotes the same value.
 */
module MinifyJson {
  import opened Bytes
  import opened Utf
  import opened Json
  import opened Literal
  import opened Numeral
  import opened Grammar
  import opened Minify
  import opened MinifyLaws
  import opened MinifyScan
  import ReaderComplete
  import Reader
  import Rfc8259

  // ----- texts with comments, and without any white space -----

  /** JSON whose white space may hold comments. */
  ghost predicate Commented(c: Cst) {
    match c
    case CNumber(n) => NumeralRfc(n)
    case CText(ps) => PiecesRfc(ps)
    case CArray(gap, es) => Gap(gap) && forall i | 0 <= i < |es| :: ElementCommented(es[i])
    case CObject(gap, fs) => Gap(gap) && forall i | 0 <= i < |fs| :: FieldCommented(fs[i])
    case _ => true
  }

  ghost predicate ElementCommented(e: Element) {
    Gap(e.before) && Commented(e.value) && Gap(e.after)
  }

  ghost predicate FieldCommented(f: Field) {
    && Gap(f.beforeKey) && PiecesRfc(f.key) && Gap(f.afterKey)
    && Gap(f.before) && Commented(f.value) && Gap(f.after)
  }

  function Strip(c: Cst): Cst {
    match c
    case CArray(_, es) => CArray([], StripElements(es))
    case CObject(_, fs) => CObject([], StripFields(fs))
    case _ => c
  }

  function StripElements(es: seq<Element>): (r: seq<Element>)
    ensures |r| == |es|
    ensures forall i | 0 <= i < |es| :: r[i] == Element([], Strip(es[i].value), [])
  {
    if es == [] then [] else [Element([], Strip(es[0].value), [])] + StripElements(es[1..])
  }

  function StripFields(fs: seq<Field>): (r: seq<Field>)
    ensures |r| == |fs|
    ensures forall i | 0 <= i < |fs| :: r[i] == Field([], fs[i].key, [], [], Strip(fs[i].value), [])
  {
    if fs == [] then [] else [Field([], fs[0].key, [], [], Strip(fs[0].value), [])] + StripFields(fs[1..])
  }

  // ----- the tokens of a text -----

  function Marks(t: bytes): seq<Token> {
    if t == [] then [] else [Mark(t[0])] + Marks(t[1..])
  }

  function Tokens(c: Cst): seq<Token> {
    match c
    case CText(ps) => [Chars(ps)]
    case CArray(gap, es) =>
      [Mark(OPEN_BRACKET)] + (if es == [] then [Blank(gap)] + [Mark(CLOSE_BRACKET)] else ElementTokens(es))
    case CObject(gap, fs) =>
      [Mark(OPEN_BRACE)] + (if fs == [] then [Blank(gap)] + [Mark(CLOSE_BRACE)] else FieldTokens(fs))
    case _ => Marks(Text(c))
  }

  function ElementTokens(es: seq<Element>): seq<Token>
    requires es != []
  {
    [Blank(es[0].before)] + (Tokens(es[0].value) + ([Blank(es[0].after)] +
    (if |es| == 1 then [Mark(CLOSE_BRACKET)] else [Mark(COMMA)] + ElementTokens(es[1..]))))
  }

  function FieldTokens(fs: seq<Field>): seq<Token>
    requires fs != []
  {
    [Blank(fs[0].beforeKey)] + ([Chars(fs[0].key)] + ([Blank(fs[0].afterKey)] + ([Mark(COLON)] +
    ([Blank(fs[0].before)] + (Tokens(fs[0].value) + ([Blank(fs[0].after)] +
    (if |fs| == 1 then [Mark(CLOSE_BRACE)] else [Mark(COMMA)] + FieldTokens(fs[1..]))))))))
  }

  function DocumentTokens(d: Document): seq<Token> {
    Marks(if d.mark then BYTE_ORDER_MARK else []) + ([Blank(d.before)] + (Tokens(d.value) + [Blank(d.after)]))
  }

  /** The scanner never takes a literal of the document for white space, nor white space for a literal. */
  predicate Synced(d: Document) {
    After(Outside, DocumentTokens(d)).Some?
  }

  // ----- what the tokens spell -----

  /** The tokens are in order wherever they stand; with their gaps they spell t, and without them k. */
  ghost predicate Spells(ts: seq<Token>, t: bytes, k: bytes) {
    && (forall i | 0 <= i < |ts| :: TokenOk(ts[i], false))
    && Spelled(ts, true) == t && Spelled(ts, false) == k
  }

  lemma {:induction false} SpelledConcat(a: seq<Token>, b: seq<Token>, gaps: bool)
    ensures Spelled(a + b, gaps) == Spelled(a, gaps) + Spelled(b, gaps)
    decreases |a|
  {
    hide TokenText;
    if a == [] {
      assert a + b == b && Spelled(a, gaps) == [];
      assert [] + Spelled(b, gaps) == Spelled(b, gaps);
    } else {
      SpelledConcat(a[1..], b, gaps);
      assert (a + b)[0] == a[0] && (a + b)[1..] == a[1..] + b;
      var t, x, y := TokenText(a[0], gaps), Spelled(a[1..], gaps), Spelled(b, gaps);
      assert t + (x + y) == t + x + y;
    }
  }

  lemma SpellsConcat(a: seq<Token>, t: bytes, k: bytes, b: seq<Token>, t': bytes, k': bytes)
    requires Spells(a, t, k) && Spells(b, t', k')
    ensures Spells(a + b, t + t', k + k')
  {
    hide TokenOk, Spelled;
    SpelledConcat(a, b, true);
    SpelledConcat(a, b, false);
  }

  lemma SpellsOne(t: Token)
    requires TokenOk(t, false)
    ensures Spells([t], TokenText(t, true), TokenText(t, false))
  {
    hide TokenOk, TokenText;
    var ts := [t];
    assert ts[1..] == [];
    forall gaps
      ensures Spelled(ts, gaps) == TokenText(t, gaps)
    {
      assert Spelled(ts, gaps) == TokenText(t, gaps) + [];
    }
  }

  lemma SpellsMark(b: byte)
    requires Bare(b)
    ensures Spells([Mark(b)], [b], [b])
  {
    hide Spells;
    SpellsOne(Mark(b));
  }

  lemma SpellsBlank(w: bytes)
    requires Gap(w)
    ensures Spells([Blank(w)], w, [])
  {
    hide Spells, Gap;
    SpellsOne(Blank(w));
  }

  lemma SpellsChars(ps: seq<Piece>)
    requires PiecesRfc(ps)
    ensures Spells([Chars(ps)], LiteralText(ps), LiteralText(ps))
  {
    hide Spells, LiteralText, PiecesRfc;
    SpellsOne(Chars(ps));
  }

  lemma {:induction false} SpellsText(t: bytes)
    requires forall i | 0 <= i < |t| :: Bare(t[i])
    ensures Spells(Marks(t), t, t)
    decreases |t|
  {
    if t != [] {
      SpellsText(t[1..]);
      SpellsMark(t[0]);
      SpellsConcat([Mark(t[0])], [t[0]], [t[0]], Marks(t[1..]), t[1..], t[1..]);
      assert t == [t[0]] + t[1..];
    }
  }

  lemma NumberBare(n: Numeral)
    requires NumeralShape(n)
    ensures forall i | 0 <= i < |NumeralText(n)| :: Bare(NumeralText(n)[i])
  {
    hide NumeralText, NumeralShape;
    NumeralNumeric(n);
    forall i | 0 <= i < |NumeralText(n)|
      ensures Bare(NumeralText(n)[i])
    {
      assert Numeric(NumeralText(n)[i]);
    }
  }

  /** With gaps the tokens of a value spell its text, without them the stripped text. */
  lemma {:induction false} ValueSpelled(c: Cst)
    requires Commented(c)
    ensures Spells(Tokens(c), Text(c), Text(Strip(c)))
    decreases c
  {
    hide Spells, LiteralText, NumeralText, PiecesRfc, ElementsText, FieldsText, Gap, StripElements, StripFields;
    match c
    case CNumber(n) =>
      NumberBare(n);
      SpellsText(NumeralText(n));
    case CText(ps) => SpellsChars(ps);
    case CArray(gap, es) =>
      SpellsMark(OPEN_BRACKET);
      if es == [] {
        EmptySpelled(gap, CLOSE_BRACKET);
        StripNothing();
        SpellsConcat([Mark(OPEN_BRACKET)], [OPEN_BRACKET], [OPEN_BRACKET],
                     [Blank(gap)] + [Mark(CLOSE_BRACKET)], gap + [CLOSE_BRACKET], [] + [CLOSE_BRACKET]);
      } else {
        ElementsSpelled(es);
        SpellsConcat([Mark(OPEN_BRACKET)], [OPEN_BRACKET], [OPEN_BRACKET],
                     ElementTokens(es), ElementsText(es), ElementsText(StripElements(es)));
      }
    case CObject(gap, fs) =>
      SpellsMark(OPEN_BRACE);
      if fs == [] {
        EmptySpelled(gap, CLOSE_BRACE);
        StripNothing();
        SpellsConcat([Mark(OPEN_BRACE)], [OPEN_BRACE], [OPEN_BRACE],
                     [Blank(gap)] + [Mark(CLOSE_BRACE)], gap + [CLOSE_BRACE], [] + [CLOSE_BRACE]);
      } else {
        FieldsSpelled(fs);
        SpellsConcat([Mark(OPEN_BRACE)], [OPEN_BRACE], [OPEN_BRACE],
                     FieldTokens(fs), FieldsText(fs), FieldsText(StripFields(fs)));
      }
    case _ => SpellsText(Text(c));
  }

  lemma StripNothing()
    ensures StripElements([]) == [] && StripFields([]) == []
  {
  }

  lemma EmptySpelled(gap: bytes, close: byte)
    requires Gap(gap) && Bare(close)
    ensures Spells([Blank(gap)] + [Mark(close)], gap + [close], [] + [close])
  {
    hide Spells, Gap;
    SpellsBlank(gap);
    SpellsMark(close);
    SpellsConcat([Blank(gap)], gap, [], [Mark(close)], [close], [close]);
  }

  /** White space, a value, white space, and what comes behind. */
  lemma Surrounded(before: bytes, ts: seq<Token>, t: bytes, k: bytes, after: bytes, tail: seq<Token>, t': bytes, k': bytes)
    requires Gap(before) && Spells(ts, t, k) && Gap(after) && Spells(tail, t', k')
    ensures Spells([Blank(before)] + (ts + ([Blank(after)] + tail)), before + (t + (after + t')), [] + (k + ([] + k')))
  {
    hide Spells, Gap;
    SpellsBlank(before);
    SpellsBlank(after);
    SpellsConcat([Blank(after)], after, [], tail, t', k');
    SpellsConcat(ts, t, k, [Blank(after)] + tail, after + t', [] + k');
    SpellsConcat([Blank(before)], before, [], ts + ([Blank(after)] + tail), t + (after + t'), k + ([] + k'));
  }

  lemma {:induction false} ElementsSpelled(es: seq<Element>)
    requires es != [] && forall i | 0 <= i < |es| :: ElementCommented(es[i])
    ensures Spells(ElementTokens(es), ElementsText(es), ElementsText(StripElements(es)))
    decreases es
  {
    hide Spells, Gap, Commented, Text, Strip, Tokens;
    var e := es[0];
    assert ElementCommented(e);
    ValueSpelled(e.value);
    assert StripElements(es)[1..] == StripElements(es[1..]);
    if |es| == 1 {
      SpellsMark(CLOSE_BRACKET);
      Surrounded(e.before, Tokens(e.value), Text(e.value), Text(Strip(e.value)), e.after,
                 [Mark(CLOSE_BRACKET)], [CLOSE_BRACKET], [CLOSE_BRACKET]);
    } else {
      var more := es[1..];
      SpellsMark(COMMA);
      ElementsSpelled(more);
      SpellsConcat([Mark(COMMA)], [COMMA], [COMMA], ElementTokens(more), ElementsText(more), ElementsText(StripElements(more)));
      Surrounded(e.before, Tokens(e.value), Text(e.value), Text(Strip(e.value)), e.after,
                 [Mark(COMMA)] + ElementTokens(more), [COMMA] + ElementsText(more), [COMMA] + ElementsText(StripElements(more)));
    }
  }

  lemma KeySpelled(f: Field, tail: seq<Token>, t: bytes, k: bytes)
    requires Gap(f.beforeKey) && PiecesRfc(f.key) && Gap(f.afterKey) && Spells(tail, t, k)
    ensures Spells([Blank(f.beforeKey)] + ([Chars(f.key)] + ([Blank(f.afterKey)] + ([Mark(COLON)] + tail))),
                   f.beforeKey + (LiteralText(f.key) + (f.afterKey + ([COLON] + t))),
                   [] + (LiteralText(f.key) + ([] + ([COLON] + k))))
  {
    hide Spells, Gap, PiecesRfc, LiteralText;
    SpellsChars(f.key);
    SpellsMark(COLON);
    SpellsConcat([Mark(COLON)], [COLON], [COLON], tail, t, k);
    Surrounded(f.beforeKey, [Chars(f.key)], LiteralText(f.key), LiteralText(f.key), f.afterKey,
               [Mark(COLON)] + tail, [COLON] + t, [COLON] + k);
  }

  lemma {:induction false} FieldsSpelled(fs: seq<Field>)
    requires fs != [] && forall i | 0 <= i < |fs| :: FieldCommented(fs[i])
    ensures Spells(FieldTokens(fs), FieldsText(fs), FieldsText(StripFields(fs)))
    decreases fs
  {
    hide Spells, Gap, Commented, Text, Strip, Tokens, PiecesRfc, LiteralText;
    var f := fs[0];
    assert FieldCommented(f);
    ValueSpelled(f.value);
    assert StripFields(fs)[1..] == StripFields(fs[1..]);
    var tail, t, k := [Mark(CLOSE_BRACE)], [CLOSE_BRACE], [CLOSE_BRACE];
    if |fs| == 1 {
      SpellsMark(CLOSE_BRACE);
    } else {
      var more := fs[1..];
      SpellsMark(COMMA);
      FieldsSpelled(more);
      SpellsConcat([Mark(COMMA)], [COMMA], [COMMA], FieldTokens(more), FieldsText(more), FieldsText(StripFields(more)));
      tail, t, k := [Mark(COMMA)] + FieldTokens(more), [COMMA] + FieldsText(more), [COMMA] + FieldsText(StripFields(more));
    }
    Surrounded(f.before, Tokens(f.value), Text(f.value), Text(Strip(f.value)), f.after, tail, t, k);
    KeySpelled(f, [Blank(f.before)] + (Tokens(f.value) + ([Blank(f.after)] + tail)),
               f.before + (Text(f.value) + (f.after + t)), [] + (Text(Strip(f.value)) + ([] + k)));
  }

  // ----- documents -----

  /** JSON with comments, the last of which may end with the text. */
  ghost predicate DocumentCommented(d: Document) {
    Gap(d.before) && Commented(d.value) && (Gap(d.after) || LastGap(d.after))
  }

  /** The document without white space and comments. */
  function Stripped(d: Document): Document {
    Document(d.mark, [], Strip(d.value), [])
  }

  lemma DocumentSpelled(d: Document)
    requires DocumentCommented(d)
    ensures TokensOk(DocumentTokens(d)) && Spelled(DocumentTokens(d), true) == DocumentText(d)
    ensures Spelled(DocumentTokens(d), false) == DocumentText(Stripped(d))
  {
    hide Gap, LastGap, Commented, Text, Strip, Tokens, Spells, TokensOk, Spelled, Marks;
    var mark := if d.mark then BYTE_ORDER_MARK else [];
    var t, k := d.before + Text(d.value), [] + Text(Strip(d.value));
    var ts := Marks(mark) + ([Blank(d.before)] + Tokens(d.value));
    SpellsText(mark);
    SpellsBlank(d.before);
    ValueSpelled(d.value);
    SpellsConcat([Blank(d.before)], d.before, [], Tokens(d.value), Text(d.value), Text(Strip(d.value)));
    SpellsConcat(Marks(mark), mark, mark, [Blank(d.before)] + Tokens(d.value), t, k);
    assert DocumentTokens(d) == ts + [Blank(d.after)];
    LastToken(ts, mark + t, mark + k, d.after);
    assert mark + t + d.after == DocumentText(d);
    assert mark + k == DocumentText(Stripped(d));
  }

  lemma LastToken(ts: seq<Token>, t: bytes, k: bytes, w: bytes)
    requires Spells(ts, t, k) && (Gap(w) || LastGap(w))
    ensures TokensOk(ts + [Blank(w)])
    ensures Spelled(ts + [Blank(w)], true) == t + w && Spelled(ts + [Blank(w)], false) == k
  {
    hide Gap, LastGap, PiecesRfc;
    SpelledConcat(ts, [Blank(w)], true);
    SpelledConcat(ts, [Blank(w)], false);
    assert [Blank(w)][1..] == [];
    assert k + [] == k;
  }

  /** Minifying leaves the text without white space and comments exactly when the scanner stays in step. */
  lemma MinifiedExactly(d: Document)
    requires DocumentCommented(d)
    ensures Minified(DocumentText(d), 0) == DocumentText(Stripped(d)) <==> Synced(d)
  {
    hide Minified, DocumentText, Spelled, TokensOk, DocumentCommented, DocumentTokens, After;
    DocumentSpelled(d);
    LeftExactly(Outside, DocumentTokens(d));
  }

  /** For instance when no literal ends in an escaped backslash. */
  lemma SyncedWithout(d: Document)
    requires forall t | t in DocumentTokens(d) :: t.Chars? ==> !EndsInBackslash(t.ps)
    ensures Synced(d)
  {
    InStep(DocumentTokens(d));
  }

  // ----- a literal that ends in an escaped backslash -----

  const BEFORE: bytes :=
    [OPEN_BRACKET, QUOTE, BACKSLASH, BACKSLASH, QUOTE, COMMA, SPACE, QUOTE, 0x61, SPACE, 0x62, QUOTE, CLOSE_BRACKET]

  const AFTER: bytes :=
    [OPEN_BRACKET, QUOTE, BACKSLASH, BACKSLASH, QUOTE, COMMA, SPACE, QUOTE, 0x61, 0x62, QUOTE, CLOSE_BRACKET]

  /** An array of a string that is one backslash and of a string without escapes. */
  function Pair(text: bytes): Cst {
    var ps := [Simple(BACKSLASH)];
    CArray([], [Element([], CText(ps), []), Element([SPACE], CText(PlainPieces(text)), [])])
  }

  function PlainPieces(text: bytes): seq<Piece> {
    if text == [] then [] else [Piece.Plain(text[0])] + PlainPieces(text[1..])
  }

  lemma {:induction false} PlainPiecesText(text: bytes)
    requires forall i | 0 <= i < |text| :: text[i] >= 0x20 && text[i] != QUOTE && text[i] != BACKSLASH
    ensures PiecesRfc(PlainPieces(text)) && PiecesOk(PlainPieces(text))
    ensures PiecesText(PlainPieces(text)) == text && PiecesBytes(PlainPieces(text)) == text
    decreases |text|
  {
    if text != [] {
      PlainPiecesText(text[1..]);
      assert PlainPieces(text)[1..] == PlainPieces(text[1..]);
      assert [text[0]] + text[1..] == text;
    }
  }

  lemma BackslashPieces()
    ensures var ps := [Simple(BACKSLASH)];
            PiecesRfc(ps) && PiecesOk(ps) && PiecesText(ps) == [BACKSLASH, BACKSLASH] && PiecesBytes(ps) == [BACKSLASH]
  {
    var ps := [Simple(BACKSLASH)];
    assert ps[1..] == [];
  }

  lemma PairRead(text: bytes)
    requires forall i | 0 <= i < |text| :: text[i] >= 0x20 && text[i] != QUOTE && text[i] != BACKSLASH
    ensures var t := [OPEN_BRACKET, QUOTE, BACKSLASH, BACKSLASH, QUOTE, COMMA, SPACE, QUOTE] + text + [QUOTE, CLOSE_BRACKET];
            Terminated(t + [NUL]) && Reader.ReadDocument(t + [NUL], true) == Some(Array([String([BACKSLASH]), String(text)]))
  {
    hide PlainPieces, PiecesRfc, PiecesText, PiecesBytes, PiecesOk, LiteralOk, LiteralValue, Reader.ReadDocument;
    var c := Pair(text);
    var ps := [Simple(BACKSLASH)];
    BackslashPieces();
    PlainPiecesText(text);
    WellFormedLiteral(ps);
    WellFormedLiteral(PlainPieces(text));
    assert ElementOk(c.elements[0], 1) && ElementOk(c.elements[1], 1);
    PairText(text);
    PairValue(text);
    var t := Text(c);
    assert NUL !in t;
    Alone(c);
    ReaderComplete.DocumentComplete(Document(false, [], c, []), true);
  }

  /** A document that is nothing but a value. */
  lemma Alone(c: Cst)
    ensures DocumentText(Document(false, [], c, [])) == Text(c)
    ensures NUL !in Text(c) ==> Terminated(Text(c) + [NUL])
  {
    hide Text;
    var t := Text(c);
    assert t + [] == t && [] + t == t;
    assert (t + [NUL])[..|t|] == t;
  }

  lemma PairText(text: bytes)
    requires PiecesText(PlainPieces(text)) == text && PiecesText([Simple(BACKSLASH)]) == [BACKSLASH, BACKSLASH]
    ensures Text(Pair(text)) == [OPEN_BRACKET, QUOTE, BACKSLASH, BACKSLASH, QUOTE, COMMA, SPACE, QUOTE] + text + [QUOTE, CLOSE_BRACKET]
  {
    hide PlainPieces, PiecesText;
    var es := Pair(text).elements;
    var l := [QUOTE] + text + [QUOTE];
    var slash := [QUOTE, BACKSLASH, BACKSLASH, QUOTE];
    assert Text(es[1].value) == l;
    assert Text(es[0].value) == slash;
    assert es[1..] == [es[1]];
    LastElement(es[1], l);
    var last := [SPACE] + (l + [CLOSE_BRACKET]);
    FirstElement(es, slash, last);
    assert [OPEN_BRACKET] + (slash + ([COMMA] + last))
        == [OPEN_BRACKET, QUOTE, BACKSLASH, BACKSLASH, QUOTE, COMMA, SPACE, QUOTE] + text + [QUOTE, CLOSE_BRACKET];
  }

  lemma LastElement(e: Element, l: bytes)
    requires Text(e.value) == l && e.before == [SPACE] && e.after == []
    ensures ElementsText([e]) == [SPACE] + (l + [CLOSE_BRACKET])
  {
    hide Text;
    assert [] + [CLOSE_BRACKET] == [CLOSE_BRACKET];
  }

  lemma FirstElement(es: seq<Element>, t: bytes, last: bytes)
    requires |es| == 2 && es[0].before == [] && es[0].after == [] && Text(es[0].value) == t && ElementsText(es[1..]) == last
    ensures ElementsText(es) == t + ([COMMA] + last)
  {
    hide Text;
    assert [] + (t + ([] + ([COMMA] + last))) == t + ([COMMA] + last);
  }

  lemma PairValue(text: bytes)
    requires PiecesOk(PlainPieces(text)) && PiecesOk([Simple(BACKSLASH)])
    requires LiteralValue(PlainPieces(text)) == text && LiteralValue([Simple(BACKSLASH)]) == [BACKSLASH]
    ensures Denote(Pair(text)) == Array([String([BACKSLASH]), String(text)])
  {
    hide PlainPieces, LiteralValue, PiecesOk;
    var es := Pair(text).elements;
    assert Items(es) == [Denote(es[0].value), Denote(es[1].value)];
  }

  lemma BeforeMinified()
    ensures Minified(BEFORE, 0) == AFTER
  {
    hide Minified, StringEnd;
    var s := BEFORE;
    MinifiedStep(s, 0);
    MinifiedStep(s, 1);
    StringStep(s, 2);
    StringStep(s, 3);
    StringStep(s, 5);
    StringStep(s, 6);
    StringStep(s, 7);
    assert StringEnd(s, 2) == 8;
    MinifiedStep(s, 8);
    MinifiedStep(s, 9);
    MinifiedStep(s, 10);
    MinifiedStep(s, 11);
    StringStep(s, 12);
    StringStops(s, 13);
    MinifiedEnd(s, 13);
    assert s[1..8] == AFTER[1..8] && s[11..13] == AFTER[10..12];
    assert Minified(s, 11) == s[11..13] + [] == s[11..13];
    assert Minified(s, 8) == [s[8]] + ([s[10]] + s[11..13]);
  }

  /** Without the condition on literals the promise fails: minifying this array turns "a b" into "ab". */
  lemma EscapedBackslashChangesValue()
    ensures Terminated(BEFORE + [NUL]) && Terminated(Minified(BEFORE, 0) + [NUL])
    ensures Reader.ReadDocument(BEFORE + [NUL], true) == Some(Array([String([BACKSLASH]), String([0x61, SPACE, 0x62])]))
    ensures Reader.ReadDocument(Minified(BEFORE, 0) + [NUL], true) == Some(Array([String([BACKSLASH]), String([0x61, 0x62])]))
  {
    hide Reader.ReadDocument, Minified;
    PairRead([0x61, SPACE, 0x62]);
    PairRead([0x61, 0x62]);
    BeforeMinified();
    var head := [OPEN_BRACKET, QUOTE, BACKSLASH, BACKSLASH, QUOTE, COMMA, SPACE, QUOTE];
    assert head + [0x61, SPACE, 0x62] + [QUOTE, CLOSE_BRACKET] == BEFORE;
    assert head + [0x61, 0x62] + [QUOTE, CLOSE_BRACKET] == AFTER;
  }
}
