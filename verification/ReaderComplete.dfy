/** The parser reads every text of the grammar as the value the text denotes. */
module ReaderComplete {
  import opened Bytes
  import opened Utf
  import opened Json
  import opened Literal
  import opened Numeral
  import opened Grammar
  import opened Reader

  /** The first byte decides between the kinds of value. */
  lemma Dispatch(s: bytes, off: nat, depth: nat)
    requires off < |s|
    ensures s[off] == OPEN_BRACKET ==> ReadValue(s, off, depth) == ReadArray(s, off, depth)
    ensures s[off] == OPEN_BRACE ==> ReadValue(s, off, depth) == ReadObject(s, off, depth)
    ensures s[off] == QUOTE && ReadLiteral(s, off).Some? ==>
              ReadValue(s, off, depth) == Some(ReadVal(String(ReadLiteral(s, off).value.text), ReadLiteral(s, off).value.next))
    ensures (s[off] == MINUS || Digit(s[off])) && ReadNumber(s, off).Some? ==>
              ReadValue(s, off, depth) == Some(ReadVal(Number(ReadNumber(s, off).value.value), ReadNumber(s, off).value.next))
  {
    hide ReadLiteral, ReadNumber, ReadArray, ReadObject;
    if At(s, off, NULL_TEXT) { AtIndex(s, off, NULL_TEXT, 0); }
    if At(s, off, FALSE_TEXT) { AtIndex(s, off, FALSE_TEXT, 0); }
    if At(s, off, TRUE_TEXT) { AtIndex(s, off, TRUE_TEXT, 0); }
  }

  lemma NumberOnly(s: bytes, off: nat, depth: nat)
    requires off < |s| && (s[off] == MINUS || Digit(s[off])) && ReadValue(s, off, depth).Some?
    ensures ReadNumber(s, off).Some? && ReadValue(s, off, depth) ==
              Some(ReadVal(Number(ReadNumber(s, off).value.value), ReadNumber(s, off).value.next))
  {
    hide ReadNumber, ReadArray, ReadObject, ReadLiteral;
    if At(s, off, NULL_TEXT) { AtIndex(s, off, NULL_TEXT, 0); }
    if At(s, off, FALSE_TEXT) { AtIndex(s, off, FALSE_TEXT, 0); }
    if At(s, off, TRUE_TEXT) { AtIndex(s, off, TRUE_TEXT, 0); }
  }

  lemma Words(s: bytes, off: nat, depth: nat)
    requires off <= |s|
    ensures At(s, off, NULL_TEXT) ==> ReadValue(s, off, depth) == Some(ReadVal(Null, off + 4))
    ensures At(s, off, FALSE_TEXT) ==> ReadValue(s, off, depth) == Some(ReadVal(False, off + 5))
    ensures At(s, off, TRUE_TEXT) ==> ReadValue(s, off, depth) == Some(ReadVal(True, off + 4))
  {
    hide ReadLiteral, ReadNumber, ReadArray, ReadObject;
    if At(s, off, NULL_TEXT) { AtIndex(s, off, NULL_TEXT, 0); }
    if At(s, off, FALSE_TEXT) { AtIndex(s, off, FALSE_TEXT, 0); }
    if At(s, off, TRUE_TEXT) { AtIndex(s, off, TRUE_TEXT, 0); }
  }

  /** Reading a value only depends on its text, except that a number may go on behind it. */
  lemma {:induction false} ValueRead(c: Cst, s: bytes, off: nat, depth: nat)
    requires Ok(c, depth) && At(s, off, Text(c)) && off + |Text(c)| < |s|
    requires c.CNumber? ==> ReadNumber(s, off) == Some(ReadNum(NumeralValue(c.n), off + |Text(c)|))
    ensures ReadValue(s, off, depth) == Some(ReadVal(Denote(c), off + |Text(c)|))
    decreases c, 1
  {
    hide At, ReadValue, ReadLiteral, ReadNumber, NumeralText, LiteralText, NumeralValue;
    match c
    case CNumber(n) =>
      NumberStart(s, off, n);
      Dispatch(s, off, depth);
    case CText(ps) =>
      LiteralComplete(s, off, ps);
      LiteralStart(s, off, ps);
      Dispatch(s, off, depth);
    case CArray(gap, es) =>
      ArrayComplete(c, s, off, depth);
    case CObject(gap, fs) =>
      ObjectComplete(c, s, off, depth);
    case _ => Words(s, off, depth);
  }

  lemma ValueComplete(c: Cst, s: bytes, off: nat, depth: nat)
    requires Ok(c, depth) && At(s, off, Text(c))
    requires off + |Text(c)| < |s| && !Numeric(s[off + |Text(c)|])
    ensures ReadValue(s, off, depth) == Some(ReadVal(Denote(c), off + |Text(c)|))
    decreases c, 2
  {
    hide At, ReadValue, ReadNumber, NumeralText, NumeralValue, Denote;
    if c.CNumber? {
      NumberComplete(s, off, c.n);
    }
    ValueRead(c, s, off, depth);
  }

  lemma NumberStart(s: bytes, off: nat, n: Numeral)
    requires NumeralOk(n) && At(s, off, NumeralText(n))
    ensures off < |s| && (s[off] == MINUS || Digit(s[off]))
  {
    HeadSign(n);
    AtIndex(s, off, NumeralText(n), 0);
  }

  lemma LiteralStart(s: bytes, off: nat, ps: seq<Piece>)
    requires At(s, off, LiteralText(ps))
    ensures off < |s| && s[off] == QUOTE
  {
    AtIndex(s, off, LiteralText(ps), 0);
  }

  // ----- arrays -----

  lemma {:induction false} ArrayComplete(c: Cst, s: bytes, off: nat, depth: nat)
    requires c.CArray? && Ok(c, depth) && At(s, off, Text(c)) && off + |Text(c)| < |s|
    ensures ReadValue(s, off, depth) == Some(ReadVal(Denote(c), off + |Text(c)|))
    decreases c, 0
  {
    hide At, ReadValue, SkipBlank, ReadElements, ElementsText;
    hide Members, Items, KeyOf, LiteralOk, NumeralOk, LiteralText, NumeralText, NumeralValue;
    var es := c.elements;
    var body := if es == [] then c.gap + [CLOSE_BRACKET] else ElementsText(es);
    AtConcat(s, off, [OPEN_BRACKET], body);
    AtIndex(s, off, [OPEN_BRACKET], 0);
    Dispatch(s, off, depth);
    if es == [] {
      Closes(s, off + 1, c.gap, CLOSE_BRACKET);
    } else {
      assert ElementOk(es[0], depth + 1);
      OkShaped(es[0].value, depth + 1);
      ElementsStart(es, s, off + 1);
      ElementsComplete(c, 0, s, off + 1, depth + 1);
      assert es[0..] == es;
      ElementsFrom(s, off + 1, depth + 1);
    }
  }

  lemma Closes(s: bytes, off: nat, gap: bytes, close: byte)
    requires At(s, off, gap + [close]) && Blank(gap) && close > SPACE
    ensures SkipBlank(s, off) == off + |gap| < |s| && s[off + |gap|] == close
  {
    AtConcat(s, off, gap, [close]);
    AtIndex(s, off + |gap|, [close], 0);
    SkipsBlank(s, off, gap);
  }

  lemma ElementsFrom(s: bytes, p: nat, depth: nat)
    requires p <= |s|
    ensures ReadElements(s, SkipBlank(s, p), depth) == ReadElements(s, p, depth)
  {
    hide SkipBlank, ReadValue;
    SkipTwice(s, p);
  }

  function ElementTail(es: seq<Element>): bytes
    requires es != []
  {
    if |es| == 1 then [CLOSE_BRACKET] else [COMMA] + ElementsText(es[1..])
  }

  /** White space, value, white space, and what comes behind. */
  lemma ElementParts(es: seq<Element>, s: bytes, p: nat)
    requires es != [] && At(s, p, ElementsText(es))
    ensures var e := es[0];
            var q := p + |e.before|;
            && At(s, p, e.before) && At(s, q, Text(e.value)) && At(s, q + |Text(e.value)|, e.after)
            && At(s, q + |Text(e.value)| + |e.after|, ElementTail(es))
    ensures |ElementsText(es)| == |es[0].before| + |Text(es[0].value)| + |es[0].after| + |ElementTail(es)|
  {
    hide At, Text;
    AtParts(s, p, es[0].before, Text(es[0].value), es[0].after, ElementTail(es));
  }

  /** In front of the first element only white space is skipped, and the element is no closing bracket. */
  lemma ElementsStart(es: seq<Element>, s: bytes, p: nat)
    requires es != [] && Blank(es[0].before) && ShapedNumber(es[0].value) && At(s, p, ElementsText(es))
    ensures SkipBlank(s, p) == p + |es[0].before| < |s| && s[SkipBlank(s, p)] != CLOSE_BRACKET
  {
    hide At, Text, ElementsText, ShapedNumber, SkipBlank;
    ElementParts(es, s, p);
    ValueAhead(es[0].value, s, p, es[0].before);
  }

  lemma OkShaped(c: Cst, depth: nat)
    requires Ok(c, depth)
    ensures ShapedNumber(c)
  {
  }

  lemma ValueAhead(c: Cst, s: bytes, p: nat, w: bytes)
    requires ShapedNumber(c) && Blank(w) && At(s, p, w) && At(s, p + |w|, Text(c))
    ensures SkipBlank(s, p) == p + |w| < |s| && s[p + |w|] > SPACE
    ensures s[p + |w|] != CLOSE_BRACKET && s[p + |w|] != CLOSE_BRACE
  {
    hide At, Text, SkipBlank, ShapedNumber;
    TextStart(c);
    AtIndex(s, p + |w|, Text(c), 0);
    SkipsBlank(s, p, w);
  }

  /** One value with white space and a separator behind it. */
  lemma {:induction false} ValueThen(c: Cst, s: bytes, q: nat, after: bytes, tail: bytes, depth: nat)
    requires Ok(c, depth) && Blank(after)
    requires tail != [] && (tail[0] == COMMA || tail[0] == CLOSE_BRACKET || tail[0] == CLOSE_BRACE)
    requires At(s, q, Text(c)) && At(s, q + |Text(c)|, after) && At(s, q + |Text(c)| + |after|, tail)
    ensures ReadValue(s, q, depth) == Some(ReadVal(Denote(c), q + |Text(c)|))
    ensures SkipBlank(s, q + |Text(c)|) == q + |Text(c)| + |after| < |s|
    ensures s[q + |Text(c)| + |after|] == tail[0]
    decreases c, 3
  {
    hide At, Text, SkipBlank, Ok, ReadValue;
    var p := q + |Text(c)|;
    AtIndex(s, p + |after|, tail, 0);
    if after != [] {
      AtIndex(s, p, after, 0);
    }
    SkipsBlank(s, p, after);
    ValueComplete(c, s, q, depth);
  }

  /** One round of the loop over the elements. */
  lemma ElementsStep(s: bytes, p: nat, depth: nat, v: ReadVal)
    requires p <= |s| && v.next <= |s| && SkipBlank(s, v.next) < |s|
    requires ReadValue(s, SkipBlank(s, p), depth) == Some(v)
    ensures var e := SkipBlank(s, v.next);
            && (s[e] == CLOSE_BRACKET ==> ReadElements(s, p, depth) == Some(ReadItems([v.value], e + 1)))
            && (s[e] == COMMA && ReadElements(s, e + 1, depth).Some? ==>
                  var rest := ReadElements(s, e + 1, depth).value;
                  ReadElements(s, p, depth) == Some(ReadItems([v.value] + rest.items, rest.next)))
  {
    hide ReadValue, SkipBlank;
  }

  lemma ItemsStep(es: seq<Element>)
    requires es != []
    ensures |es| == 1 ==> Items(es) == [Denote(es[0].value)]
    ensures Items(es) == [Denote(es[0].value)] + Items(es[1..])
  {
    hide Denote;
  }

  lemma {:induction false} ElementsComplete(c: Cst, i: nat, s: bytes, p: nat, depth: nat)
    requires c.CArray? && i < |c.elements|
    requires forall k | 0 <= k < |c.elements| :: ElementOk(c.elements[k], depth)
    requires At(s, p, ElementsText(c.elements[i..]))
    ensures ReadElements(s, p, depth) == Some(ReadItems(Items(c.elements[i..]), p + |ElementsText(c.elements[i..])|))
    decreases c, 0, |c.elements| - i
  {
    hide At, SkipBlank, ReadValue, ReadElements, Text, ElementsText, Ok, Items, Denote;
    var es := c.elements[i..];
    var e := es[0];
    assert e == c.elements[i] && ElementOk(e, depth);
    var q := p + |e.before|;
    var end := q + |Text(e.value)| + |e.after|;
    ElementParts(es, s, p);
    OkShaped(e.value, depth);
    ElementsStart(es, s, p);
    ValueThen(e.value, s, q, e.after, ElementTail(es), depth);
    ElementsStep(s, p, depth, ReadVal(Denote(e.value), q + |Text(e.value)|));
    ItemsStep(es);
    if |es| > 1 {
      assert es[1..] == c.elements[i + 1..];
      AtConcat(s, end, [COMMA], ElementsText(es[1..]));
      ElementsComplete(c, i + 1, s, end + 1, depth);
    }
  }

  // ----- objects -----

  lemma {:induction false} ObjectComplete(c: Cst, s: bytes, off: nat, depth: nat)
    requires c.CObject? && Ok(c, depth) && At(s, off, Text(c)) && off + |Text(c)| < |s|
    ensures ReadValue(s, off, depth) == Some(ReadVal(Denote(c), off + |Text(c)|))
    decreases c, 0
  {
    hide At, ReadValue, SkipBlank, ReadFields, FieldsText;
    hide Members, Items, KeyOf, LiteralOk, NumeralOk, LiteralText, NumeralText, NumeralValue;
    var fs := c.fields;
    var body := if fs == [] then c.gap + [CLOSE_BRACE] else FieldsText(fs);
    AtConcat(s, off, [OPEN_BRACE], body);
    AtIndex(s, off, [OPEN_BRACE], 0);
    Dispatch(s, off, depth);
    if fs == [] {
      Closes(s, off + 1, c.gap, CLOSE_BRACE);
    } else {
      assert FieldOk(fs[0], depth + 1);
      FieldsStart(fs, s, off + 1);
      FieldsComplete(c, 0, s, off + 1, depth + 1);
      assert fs[0..] == fs;
      FieldsFrom(s, off + 1, depth + 1);
    }
  }

  lemma FieldsFrom(s: bytes, p: nat, depth: nat)
    requires p <= |s|
    ensures ReadFields(s, SkipBlank(s, p), depth) == ReadFields(s, p, depth)
  {
    hide SkipBlank, ReadValue, ReadLiteral;
    SkipTwice(s, p);
  }

  function FieldTail(fs: seq<Field>): bytes
    requires fs != []
  {
    if |fs| == 1 then [CLOSE_BRACE] else [COMMA] + FieldsText(fs[1..])
  }

  /** Key, white space and colon, value, and what comes behind. */
  lemma FieldParts(fs: seq<Field>, s: bytes, p: nat)
    requires fs != [] && At(s, p, FieldsText(fs))
    ensures var f := fs[0];
            var k := p + |f.beforeKey|;
            var c := k + |LiteralText(f.key)|;
            var q := c + |f.afterKey| + 1 + |f.before|;
            && At(s, p, f.beforeKey) && At(s, k, LiteralText(f.key)) && At(s, c, f.afterKey)
            && At(s, c + |f.afterKey|, [COLON]) && At(s, c + |f.afterKey| + 1, f.before)
            && At(s, q, Text(f.value)) && At(s, q + |Text(f.value)|, f.after)
            && At(s, q + |Text(f.value)| + |f.after|, FieldTail(fs))
    ensures |FieldsText(fs)| == |fs[0].beforeKey| + |LiteralText(fs[0].key)| + |fs[0].afterKey| + 1 + |fs[0].before|
                                + |Text(fs[0].value)| + |fs[0].after| + |FieldTail(fs)|
  {
    hide At, LiteralText, Text;
    var f := fs[0];
    var v := f.before + (Text(f.value) + (f.after + FieldTail(fs)));
    AtParts(s, p, f.beforeKey, LiteralText(f.key), f.afterKey, [COLON] + v);
    var c := p + |f.beforeKey| + |LiteralText(f.key)| + |f.afterKey|;
    AtConcat(s, c, [COLON], v);
    AtParts(s, c + 1, f.before, Text(f.value), f.after, FieldTail(fs));
  }

  lemma FieldsStart(fs: seq<Field>, s: bytes, p: nat)
    requires fs != [] && Blank(fs[0].beforeKey) && At(s, p, FieldsText(fs))
    ensures SkipBlank(s, p) == p + |fs[0].beforeKey| < |s| && s[SkipBlank(s, p)] == QUOTE
  {
    hide At, LiteralText, Text, FieldsText, SkipBlank;
    FieldParts(fs, s, p);
    LiteralStart(s, p + |fs[0].beforeKey|, fs[0].key);
    SkipsBlank(s, p, fs[0].beforeKey);
  }

  lemma KeyComplete(fs: seq<Field>, s: bytes, p: nat)
    requires fs != [] && Blank(fs[0].beforeKey) && LiteralOk(fs[0].key) && Blank(fs[0].afterKey) && At(s, p, FieldsText(fs))
    ensures ReadKey(s, p) ==
            Some(Read(KeyOf(fs[0].key), p + |fs[0].beforeKey| + |LiteralText(fs[0].key)| + |fs[0].afterKey| + 1))
  {
    hide At, LiteralText, Text, FieldsText, SkipBlank, ReadLiteral, LiteralValue;
    FieldParts(fs, s, p);
    FieldsStart(fs, s, p);
    LiteralComplete(s, p + |fs[0].beforeKey|, fs[0].key);
    var k := p + |fs[0].beforeKey| + |LiteralText(fs[0].key)|;
    AtConcat(s, k, fs[0].afterKey, [COLON]);
    Closes(s, k, fs[0].afterKey, COLON);
  }

  /** One round of the loop over the members. */
  lemma FieldsStep(s: bytes, p: nat, depth: nat, k: Read, v: ReadVal)
    requires p <= |s| && ReadKey(s, p) == Some(k) && v.next <= |s| && SkipBlank(s, v.next) < |s|
    requires ReadValue(s, SkipBlank(s, k.next), depth) == Some(v)
    ensures var e, m := SkipBlank(s, v.next), Member(k.text, v.value);
            && (s[e] == CLOSE_BRACE ==> ReadFields(s, p, depth) == Some(ReadMembers([m], e + 1)))
            && (s[e] == COMMA && ReadFields(s, e + 1, depth).Some? ==>
                  var rest := ReadFields(s, e + 1, depth).value;
                  ReadFields(s, p, depth) == Some(ReadMembers([m] + rest.members, rest.next)))
  {
    hide ReadValue, SkipBlank, ReadKey;
  }

  lemma MembersStep(fs: seq<Field>)
    requires fs != []
    ensures |fs| == 1 ==> Members(fs) == [Member(KeyOf(fs[0].key), Denote(fs[0].value))]
    ensures Members(fs) == [Member(KeyOf(fs[0].key), Denote(fs[0].value))] + Members(fs[1..])
  {
    hide Denote, KeyOf;
  }

  lemma {:induction false} FieldsComplete(c: Cst, i: nat, s: bytes, p: nat, depth: nat)
    requires c.CObject? && i < |c.fields|
    requires forall k | 0 <= k < |c.fields| :: FieldOk(c.fields[k], depth)
    requires At(s, p, FieldsText(c.fields[i..]))
    ensures ReadFields(s, p, depth) == Some(ReadMembers(Members(c.fields[i..]), p + |FieldsText(c.fields[i..])|))
    decreases c, 0, |c.fields| - i
  {
    hide At, SkipBlank, ReadValue, ReadKey, ReadFields, Text, LiteralText, KeyOf, FieldsText, Ok, LiteralOk, Members, Denote;
    var fs := c.fields[i..];
    var f := fs[0];
    assert f == c.fields[i] && FieldOk(f, depth);
    var v := p + |f.beforeKey| + |LiteralText(f.key)| + |f.afterKey| + 1;
    var q := v + |f.before|;
    var end := q + |Text(f.value)| + |f.after|;
    FieldParts(fs, s, p);
    KeyComplete(fs, s, p);
    OkShaped(f.value, depth);
    ValueAhead(f.value, s, v, f.before);
    ValueThen(f.value, s, q, f.after, FieldTail(fs), depth);
    FieldsStep(s, p, depth, Read(KeyOf(f.key), v), ReadVal(Denote(f.value), q + |Text(f.value)|));
    MembersStep(fs);
    if |fs| > 1 {
      assert fs[1..] == c.fields[i + 1..];
      AtConcat(s, end, [COMMA], FieldsText(fs[1..]));
      FieldsComplete(c, i + 1, s, end + 1, depth);
    }
  }

  // ----- documents -----

  function ValueOffset(d: Document): nat {
    (if d.mark then 3 else 0) + |d.before|
  }

  lemma MarkSkipped(d: Document, s: bytes)
    requires ShapedNumber(d.value) && Blank(d.before) && DocumentText(d) < s
    ensures SkipMark(s) == if d.mark then 3 else 0
  {
    TextStart(d.value);
    var rest := d.before + (Text(d.value) + d.after);
    assert DocumentText(d)[0] == s[0];
    if d.mark {
      assert DocumentText(d)[0..3] == BYTE_ORDER_MARK == s[0..3];
    } else {
      assert s[0] == (d.before + Text(d.value))[0] < 0x80;
      if At(s, 0, BYTE_ORDER_MARK) {
        AtIndex(s, 0, BYTE_ORDER_MARK, 0);
      }
    }
  }

  lemma DocumentParts(d: Document, s: bytes)
    requires DocumentText(d) <= s
    ensures At(s, if d.mark then 3 else 0, d.before) && At(s, ValueOffset(d), Text(d.value))
    ensures At(s, ValueOffset(d) + |Text(d.value)|, d.after)
    ensures |DocumentText(d)| == ValueOffset(d) + |Text(d.value)| + |d.after|
  {
    hide Text;
    assert At(s, 0, DocumentText(d));
    hide At;
    AtParts(s, 0, if d.mark then BYTE_ORDER_MARK else [], d.before, Text(d.value), d.after);
  }

  /** With a document in front of s, its value is what is read first. */
  lemma DocumentStart(d: Document, s: bytes)
    requires ShapedNumber(d.value) && Blank(d.before) && DocumentText(d) < s
    ensures SkipBlank(s, SkipMark(s)) == ValueOffset(d) && At(s, ValueOffset(d), Text(d.value))
    ensures ValueOffset(d) + |Text(d.value)| < |s|
  {
    hide At, Text, DocumentText, ShapedNumber, Blank, SkipBlank, SkipMark;
    MarkSkipped(d, s);
    DocumentParts(d, s);
    ValueAhead(d.value, s, if d.mark then 3 else 0, d.before);
  }

  /** Behind the value of a whole document lie its white space and the terminator. */
  lemma DocumentEnd(d: Document)
    requires Blank(d.after)
    ensures var s, q := DocumentText(d) + [NUL], ValueOffset(d) + |Text(d.value)|;
            && At(s, q, d.after + [NUL]) && q + |d.after| + 1 == |s|
            && SkipBlank(s, q) == |s| - 1 && s[|s| - 1] == NUL && s[q] <= SPACE
  {
    hide At, Text, SkipBlank, DocumentText, ValueOffset;
    var s, q := DocumentText(d) + [NUL], ValueOffset(d) + |Text(d.value)|;
    DocumentParts(d, s);
    AtLast(s);
    AtConcat(s, q, d.after, [NUL]);
    AtIndex(s, q, d.after + [NUL], 0);
    BlankToEnd(s, q, d.after);
  }

  lemma AtLast(s: bytes)
    requires s != []
    ensures At(s, |s| - 1, [s[|s| - 1]])
  {
  }

  lemma BlankToEnd(s: bytes, q: nat, w: bytes)
    requires At(s, q, w + [NUL]) && q + |w| + 1 == |s| && Blank(w)
    ensures SkipBlank(s, q) == |s| - 1 && s[|s| - 1] == NUL
  {
    assert s[q..] == w + [NUL];
    BlankEndIs(s, q, |s|);
  }

  /** Every document of the grammar is read, with or without the demand that nothing follows it. */
  lemma DocumentComplete(d: Document, requireTerminated: bool)
    requires DocumentOk(d) && Terminated(DocumentText(d) + [NUL])
    ensures ReadDocument(DocumentText(d) + [NUL], requireTerminated) == Some(Denote(d.value))
  {
    hide At, Text, Ok, SkipBlank, ReadValue, SkipMark, Denote, DocumentText, ValueOffset;
    var s := DocumentText(d) + [NUL];
    OkShaped(d.value, 0);
    DocumentStart(d, s);
    DocumentEnd(d);
    ValueComplete(d.value, s, ValueOffset(d), 0);
  }
}
