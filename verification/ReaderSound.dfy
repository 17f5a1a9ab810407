/** The parser reads nothing but texts of the grammar; this gives its exact language with and without the terminator. */
module ReaderSound {
  import opened Bytes
  import opened Utf
  import opened Json
  import opened Literal
  import opened Numeral
  import opened Grammar
  import opened Reader
  import opened ReaderComplete

  lemma {:induction false} ValueSound(s: bytes, off: nat, depth: nat) returns (c: Cst)
    requires off <= |s| && ReadValue(s, off, depth).Some?
    ensures Ok(c, depth) && At(s, off, Text(c))
    ensures ReadValue(s, off, depth) == Some(ReadVal(Denote(c), off + |Text(c)|))
    decreases |s| - off, 1
  {
    hide At, ReadLiteral, ReadNumber, ReadArray, ReadObject, LiteralText, NumeralText, NumeralShape, LiteralOk;
    if At(s, off, NULL_TEXT) {
      c := CNull;
    } else if At(s, off, FALSE_TEXT) {
      c := CFalse;
    } else if At(s, off, TRUE_TEXT) {
      c := CTrue;
    } else if s[off] == QUOTE {
      var ps := LiteralSound(s, off);
      c := CText(ps);
      KeyValue(ps);
    } else if s[off] == MINUS || Digit(s[off]) {
      var n := NumberSound(s, off);
      c := CNumber(n);
    } else if s[off] == OPEN_BRACKET {
      c := ArraySound(s, off, depth);
    } else {
      c := ObjectSound(s, off, depth);
    }
  }

  lemma KeyValue(ps: seq<Piece>)
    requires LiteralOk(ps)
    ensures KeyOf(ps) == LiteralValue(ps)
  {
  }

  lemma ByteAt(s: bytes, p: nat, b: byte)
    requires p < |s| && s[p] == b
    ensures At(s, p, [b])
  {
    assert s[p..p + 1] == [b];
  }

  lemma {:induction false} ArraySound(s: bytes, off: nat, depth: nat) returns (c: Cst)
    requires off < |s| && s[off] == OPEN_BRACKET && ReadArray(s, off, depth).Some?
    ensures Ok(c, depth) && At(s, off, Text(c))
    ensures ReadArray(s, off, depth) == Some(ReadVal(Denote(c), off + |Text(c)|))
    decreases |s| - off, 0
  {
    hide At, SkipBlank, ReadElements, ElementsText, ElementOk;
    var p := SkipBlank(s, off + 1);
    var gap := s[off + 1..p];
    SkippedBlank(s, off + 1);
    ByteAt(s, off, OPEN_BRACKET);
    if s[p] == CLOSE_BRACKET {
      c := CArray(gap, []);
      ByteAt(s, p, CLOSE_BRACKET);
      AtConcat(s, off + 1, gap, [CLOSE_BRACKET]);
      AtConcat(s, off, [OPEN_BRACKET], gap + [CLOSE_BRACKET]);
    } else {
      ElementsFrom(s, off + 1, depth + 1);
      var es := ElementsSound(s, off + 1, depth + 1);
      c := CArray([], es);
      AtConcat(s, off, [OPEN_BRACKET], ElementsText(es));
    }
  }

  lemma {:induction false} ElementsSound(s: bytes, p: nat, depth: nat) returns (es: seq<Element>)
    requires p <= |s| && ReadElements(s, p, depth).Some?
    ensures es != [] && (forall i | 0 <= i < |es| :: ElementOk(es[i], depth)) && At(s, p, ElementsText(es))
    ensures ReadElements(s, p, depth) == Some(ReadItems(Items(es), p + |ElementsText(es)|))
    decreases |s| - p, 2
  {
    hide At, SkipBlank, ReadValue, Text, Denote, Items, Ok;
    var q := SkipBlank(s, p);
    var v := ReadValue(s, q, depth).value;
    var e := SkipBlank(s, v.next);
    SkippedBlank(s, p);
    SkippedBlank(s, v.next);
    var c := ValueSound(s, q, depth);
    var first := Element(s[p..q], c, s[v.next..e]);
    assert ElementOk(first, depth);
    ByteAt(s, e, s[e]);
    if s[e] == COMMA {
      var rest := ElementsSound(s, e + 1, depth);
      es := [first] + rest;
      assert es[1..] == rest;
      AtConcat(s, e, [COMMA], ElementsText(rest));
    } else {
      es := [first];
    }
    ItemsStep(es);
    ElementsStep(s, p, depth, v);
    assert ElementsText(es) == first.before + (Text(c) + (first.after + ElementTail(es)));
    AtParts(s, p, first.before, Text(c), first.after, ElementTail(es));
  }

  lemma {:induction false} ObjectSound(s: bytes, off: nat, depth: nat) returns (c: Cst)
    requires off < |s| && s[off] == OPEN_BRACE && ReadObject(s, off, depth).Some?
    ensures Ok(c, depth) && At(s, off, Text(c))
    ensures ReadObject(s, off, depth) == Some(ReadVal(Denote(c), off + |Text(c)|))
    decreases |s| - off, 0
  {
    hide At, SkipBlank, ReadFields, FieldsText, FieldOk;
    var p := SkipBlank(s, off + 1);
    var gap := s[off + 1..p];
    SkippedBlank(s, off + 1);
    ByteAt(s, off, OPEN_BRACE);
    if s[p] == CLOSE_BRACE {
      c := CObject(gap, []);
      ByteAt(s, p, CLOSE_BRACE);
      AtConcat(s, off + 1, gap, [CLOSE_BRACE]);
      AtConcat(s, off, [OPEN_BRACE], gap + [CLOSE_BRACE]);
    } else {
      FieldsFrom(s, off + 1, depth + 1);
      var fs := FieldsSound(s, off + 1, depth + 1);
      c := CObject([], fs);
      AtConcat(s, off, [OPEN_BRACE], FieldsText(fs));
    }
  }

  /** The parts of a member in front of its value. */
  lemma KeySound(s: bytes, p: nat) returns (beforeKey: bytes, ps: seq<Piece>, afterKey: bytes)
    requires p <= |s| && ReadKey(s, p).Some?
    ensures Blank(beforeKey) && LiteralOk(ps) && Blank(afterKey)
    ensures var k := p + |beforeKey|;
            var c := k + |LiteralText(ps)|;
            && At(s, p, beforeKey) && At(s, k, LiteralText(ps)) && At(s, c, afterKey) && At(s, c + |afterKey|, [COLON])
            && ReadKey(s, p) == Some(Read(KeyOf(ps), c + |afterKey| + 1))
  {
    hide At, SkipBlank, ReadLiteral, LiteralText, LiteralOk, KeyOf;
    var q := SkipBlank(s, p);
    SkippedBlank(s, p);
    ps := LiteralSound(s, q);
    KeyValue(ps);
    var n := q + |LiteralText(ps)|;
    SkippedBlank(s, n);
    beforeKey, afterKey := s[p..q], s[n..SkipBlank(s, n)];
    ByteAt(s, SkipBlank(s, n), COLON);
  }

  lemma {:induction false} FieldsSound(s: bytes, p: nat, depth: nat) returns (fs: seq<Field>)
    requires p <= |s| && ReadFields(s, p, depth).Some?
    ensures fs != [] && (forall i | 0 <= i < |fs| :: FieldOk(fs[i], depth)) && At(s, p, FieldsText(fs))
    ensures ReadFields(s, p, depth) == Some(ReadMembers(Members(fs), p + |FieldsText(fs)|))
    decreases |s| - p, 2
  {
    hide At, SkipBlank, ReadValue, ReadKey, Text, Denote, Members, Ok, LiteralText, LiteralOk, KeyOf;
    var beforeKey, ps, afterKey := KeySound(s, p);
    var k := ReadKey(s, p).value;
    var q := SkipBlank(s, k.next);
    var v := ReadValue(s, q, depth).value;
    var e := SkipBlank(s, v.next);
    SkippedBlank(s, k.next);
    SkippedBlank(s, v.next);
    var c := ValueSound(s, q, depth);
    var first := Field(beforeKey, ps, afterKey, s[k.next..q], c, s[v.next..e]);
    assert FieldOk(first, depth);
    ByteAt(s, e, s[e]);
    if s[e] == COMMA {
      var rest := FieldsSound(s, e + 1, depth);
      fs := [first] + rest;
      assert fs[1..] == rest;
      AtConcat(s, e, [COMMA], FieldsText(rest));
    } else {
      fs := [first];
    }
    MembersStep(fs);
    FieldsStep(s, p, depth, k, v);
    FieldJoins(fs, s, p);
  }

  lemma FieldJoins(fs: seq<Field>, s: bytes, p: nat)
    requires fs != []
    requires var f := fs[0];
             var k := p + |f.beforeKey|;
             var c := k + |LiteralText(f.key)|;
             var q := c + |f.afterKey| + 1 + |f.before|;
             && At(s, p, f.beforeKey) && At(s, k, LiteralText(f.key)) && At(s, c, f.afterKey)
             && At(s, c + |f.afterKey|, [COLON]) && At(s, c + |f.afterKey| + 1, f.before)
             && At(s, q, Text(f.value)) && At(s, q + |Text(f.value)|, f.after)
             && At(s, q + |Text(f.value)| + |f.after|, FieldTail(fs))
    ensures At(s, p, FieldsText(fs))
    ensures |FieldsText(fs)| == |fs[0].beforeKey| + |LiteralText(fs[0].key)| + |fs[0].afterKey| + 1 + |fs[0].before|
                                + |Text(fs[0].value)| + |fs[0].after| + |FieldTail(fs)|
  {
    hide At, LiteralText, Text;
    var f := fs[0];
    var v := f.before + (Text(f.value) + (f.after + FieldTail(fs)));
    var c := p + |f.beforeKey| + |LiteralText(f.key)| + |f.afterKey|;
    AtParts(s, c + 1, f.before, Text(f.value), f.after, FieldTail(fs));
    AtConcat(s, c, [COLON], v);
    AtParts(s, p, f.beforeKey, LiteralText(f.key), f.afterKey, [COLON] + v);
  }

  // ----- documents -----

  /** The last byte of a value is a quote, a bracket, a brace, a letter, a digit or a dot. */
  lemma TextEnd(c: Cst)
    requires ShapedNumber(c)
    ensures Text(c) != [] && Text(c)[|Text(c)| - 1] != NUL
  {
    TextStart(c);
    match c
    case CNumber(n) => NumeralNumeric(n);
    case CArray(_, es) => if es != [] { ElementsEnd(es); }
    case CObject(_, fs) => if fs != [] { FieldsEnd(fs); }
    case _ =>
  }

  lemma {:induction false} ElementsEnd(es: seq<Element>)
    requires es != []
    ensures ElementsText(es) != [] && ElementsText(es)[|ElementsText(es)| - 1] == CLOSE_BRACKET
    decreases |es|
  {
    if |es| > 1 { ElementsEnd(es[1..]); }
  }

  lemma {:induction false} FieldsEnd(fs: seq<Field>)
    requires fs != []
    ensures FieldsText(fs) != [] && FieldsText(fs)[|FieldsText(fs)| - 1] == CLOSE_BRACE
    decreases |fs|
  {
    hide LiteralText;
    if |fs| > 1 { FieldsEnd(fs[1..]); }
  }

  /** d stands in front of s, and when it is a number no longer number stands there. */
  ghost predicate Leads(d: Document, s: bytes) {
    && DocumentOk(d) && DocumentText(d) < s
    && (d.value.CNumber? ==> Longest(d.value.n, Window(s, ValueOffset(d))))
  }

  /** A successful parse read a document; when the terminator is demanded, the whole text is that document. */
  lemma DocumentSound(s: bytes, requireTerminated: bool) returns (d: Document)
    requires Terminated(s) && ReadDocument(s, requireTerminated).Some?
    ensures Leads(d, s) && ReadDocument(s, requireTerminated) == Some(Denote(d.value))
    ensures if requireTerminated then s == DocumentText(d) + [NUL] else d.after == []
  {
    hide At, SkipBlank, ReadValue, SkipMark, Text, Ok, Denote;
    var start := SkipMark(s);
    var p := SkipBlank(s, start);
    var next := ReadValue(s, p, 0).value.next;
    var c := ValueSound(s, p, 0);
    var q := if requireTerminated then SkipBlank(s, next) else next;
    SkippedBlank(s, start);
    SkippedBlank(s, next);
    MarkFound(s);
    d := Document(start == 3, s[start..p], c, s[next..q]);
    Whole(s, start, p, next, q, Text(c));
    assert DocumentText(d) == s[..q];
    ValueNoEnd(c, s, p);
    if requireTerminated {
      TerminatedIndex(s, q);
      assert s == s[..q] + [s[q]];
    }
    assert ValueOffset(d) == p;
  }

  /** A value read ends in front of the terminator, and a number read is the longest one there. */
  lemma ValueNoEnd(c: Cst, s: bytes, p: nat)
    requires Terminated(s) && Ok(c, 0) && At(s, p, Text(c))
    requires ReadValue(s, p, 0) == Some(ReadVal(Denote(c), p + |Text(c)|))
    ensures p + |Text(c)| < |s|
    ensures c.CNumber? ==> Longest(c.n, Window(s, p))
  {
    hide At, ReadValue, ReadNumber, Longest, Window, NumeralText, NumeralOk, Denote;
    OkShaped(c, 0);
    TextEnd(c);
    AtIndex(s, p, Text(c), |Text(c)| - 1);
    if c.CNumber? {
      NumberHere(c, s, p);
      NumberOnly(s, p, 0);
      ReadLongest(s, p, c.n);
    }
  }

  lemma MarkFound(s: bytes)
    ensures SkipMark(s) == 0 || SkipMark(s) == 3
    ensures s[..SkipMark(s)] == if SkipMark(s) == 3 then BYTE_ORDER_MARK else []
  {
  }

  lemma Whole(s: bytes, start: nat, p: nat, next: nat, q: nat, t: bytes)
    requires start <= p <= next <= q <= |s| && At(s, p, t) && next == p + |t|
    ensures s[..start] + (s[start..p] + (t + s[next..q])) == s[..q]
  {
    assert s[..start] + s[start..p] == s[..p];
    assert s[..p] + s[p..next] == s[..next];
    assert s[..next] + s[next..q] == s[..q];
    assert s[..start] + (s[start..p] + (t + s[next..q])) == ((s[..start] + s[start..p]) + t) + s[next..q];
  }

  /**
    The language of cJSON_ParseWithOpts with the terminator demanded, and the tree it builds: exactly the
    documents of the grammar, and exactly the value they denote.
   */
  lemma ParsesExactly(s: bytes, v: Value)
    requires Terminated(s)
    ensures ReadDocument(s, true) == Some(v) <==>
            exists d :: DocumentOk(d) && s == DocumentText(d) + [NUL] && Denote(d.value) == v
  {
    hide ReadDocument, DocumentOk, DocumentText, Denote;
    if ReadDocument(s, true) == Some(v) {
      var d := DocumentSound(s, true);
    }
    forall d | DocumentOk(d) && s == DocumentText(d) + [NUL] && Denote(d.value) == v
      ensures ReadDocument(s, true) == Some(v)
    {
      DocumentComplete(d, true);
    }
  }

  /**
    The language of cJSON_Parse, which does not demand the terminator: texts with a document in front whose
    white space ends with its value, anything at all behind it, and, when it is a number, the longest one there.
   */
  lemma ParsesPrefix(s: bytes, v: Value)
    requires Terminated(s)
    ensures ReadDocument(s, false) == Some(v) <==> exists d :: Leads(d, s) && d.after == [] && Denote(d.value) == v
  {
    hide ReadDocument, Leads, Denote;
    if ReadDocument(s, false) == Some(v) {
      var d := DocumentSound(s, false);
    }
    forall d | Leads(d, s) && d.after == [] && Denote(d.value) == v
      ensures ReadDocument(s, false) == Some(v)
    {
      LeadRead(d, s);
    }
  }

  lemma LeadRead(d: Document, s: bytes)
    requires Terminated(s) && Leads(d, s)
    ensures ReadDocument(s, false) == Some(Denote(d.value))
  {
    hide At, Text, Ok, SkipBlank, ReadValue, SkipMark, Denote, DocumentText, ValueOffset, Longest, NumeralText, NumeralValue;
    hide ReadNumber, Window, NumeralOk;
    OkShaped(d.value, 0);
    DocumentStart(d, s);
    if d.value.CNumber? {
      var n, off := d.value.n, ValueOffset(d);
      NumberHere(d.value, s, off);
      NumberExactly(s, off, NumeralValue(n), off + |NumeralText(n)|);
    }
    ValueRead(d.value, s, ValueOffset(d), 0);
  }

  lemma NumberHere(c: Cst, s: bytes, off: nat)
    requires c.CNumber? && Ok(c, 0) && At(s, off, Text(c))
    ensures NumeralShape(c.n) && Text(c) == NumeralText(c.n)
    ensures off < |s| && (s[off] == MINUS || Digit(s[off]))
  {
    NumberStart(s, off, c.n);
  }
}
