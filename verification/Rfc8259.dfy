/**
  JSON texts of RFC 8259: cJSON reads those within its limits, as the values they denote. It refuses the others,
  unless the terminator is not demanded and the text is one over-long number.
 */
module Rfc8259 {
  import opened Bytes
  import opened Utf
  import opened Json
  import opened Literal
  import opened Numeral
  import opened RfcMeaning
  import opened Grammar
  import opened Reader
  import opened ReaderComplete

  lemma {:induction false} RfcNoNul(c: Cst)
    requires Rfc(c)
    ensures NUL !in Text(c)
    decreases c, 1
  {
    match c
    case CNumber(n) => NumeralNumeric(n);
    case CText(ps) => PiecesNoNul(ps);
    case CArray(gap, es) => if es != [] { ElementsNoNul(c, 0); }
    case CObject(gap, fs) => if fs != [] { FieldsNoNul(c, 0); }
    case _ =>
  }

  lemma {:induction false} PiecesNoNul(ps: seq<Piece>)
    requires PiecesRfc(ps)
    ensures NUL !in PiecesText(ps) && NUL !in LiteralText(ps)
    decreases |ps|
  {
    if ps != [] {
      PiecesNoNul(ps[1..]);
      match ps[0]
      case Unicode(q) => HexNoNul(q);
      case Pair(high, low) => HexNoNul(high); HexNoNul(low);
      case _ =>
    }
  }

  lemma HexNoNul(q: bytes)
    requires ValidHex(q)
    ensures NUL !in q
  {
    forall i | 0 <= i < |q|
      ensures q[i] != NUL
    {
      assert HexDigit(q[i]) >= 0;
    }
  }

  lemma {:induction false} ElementsNoNul(c: Cst, i: nat)
    requires c.CArray? && Rfc(c) && i < |c.elements|
    ensures NUL !in ElementsText(c.elements[i..])
    decreases c, 0, |c.elements| - i
  {
    hide Text;
    var es := c.elements[i..];
    RfcNoNul(c.elements[i].value);
    if |es| > 1 {
      assert es[1..] == c.elements[i + 1..];
      ElementsNoNul(c, i + 1);
    }
  }

  lemma NoNulParts(a: bytes, b: bytes, c: bytes, d: bytes)
    requires NUL !in a && NUL !in b && NUL !in c && NUL !in d
    ensures NUL !in a + (b + (c + d))
  {
  }

  lemma {:induction false} FieldsNoNul(c: Cst, i: nat)
    requires c.CObject? && Rfc(c) && i < |c.fields|
    ensures NUL !in FieldsText(c.fields[i..])
    decreases c, 0, |c.fields| - i
  {
    hide Text, LiteralText;
    var fs := c.fields[i..];
    var f := fs[0];
    assert f == c.fields[i] && FieldRfc(f);
    if |fs| > 1 {
      assert fs[1..] == c.fields[i + 1..];
      FieldsNoNul(c, i + 1);
    }
    hide Rfc, PiecesRfc;
    RfcNoNul(f.value);
    PiecesNoNul(f.key);
    NoNulParts(f.before, Text(f.value), f.after, FieldTail(fs));
    var v := f.before + (Text(f.value) + (f.after + FieldTail(fs)));
    NoNulParts(f.beforeKey, LiteralText(f.key), f.afterKey, [COLON] + v);
  }

  /**
    Every text of RFC 8259 nested at most 1000 deep, with any white space, any escapes of non-zero scalar values
    and numbers of at most 63 bytes, is accepted, and the tree built is the value the text denotes.
   */
  lemma ParsesRfc(d: Document, requireTerminated: bool)
    requires BlankRfc(d.before) && Rfc(d.value) && Within(d.value, 0) && BlankRfc(d.after)
    ensures var s := DocumentText(d) + [NUL];
            && Terminated(s) && ReadDocument(s, requireTerminated).Some?
            && RfcDenotes(d.value, ReadDocument(s, requireTerminated).value)
  {
    hide Rfc, Within, RfcDenotes, Text, ReadDocument, Denote, Ok;
    RfcIsOk(d.value, 0);
    RfcNoNul(d.value);
    var s := DocumentText(d) + [NUL];
    assert s[..|s| - 1] == DocumentText(d);
    DocumentComplete(d, requireTerminated);
  }

  // ----- beyond the limits -----

  /** What lies beyond a limit is refused; only a long number is read, and then not to its end. */
  lemma {:induction false} ValueRefused(c: Cst, s: bytes, off: nat, depth: nat)
    requires Rfc(c) && !Within(c, depth) && At(s, off, Text(c)) && off + |Text(c)| < |s|
    ensures ReadValue(s, off, depth).Some? ==>
              c.CNumber? && ReadValue(s, off, depth).value.next < |s| && Numeric(s[ReadValue(s, off, depth).value.next])
    decreases c, 1
  {
    hide At, ReadValue, ReadNumber, NumeralText, ReadElements, ReadFields, SkipBlank, FieldsText, ElementsText;
    match c
    case CNumber(n) =>
      HeadSign(n);
      AtIndex(s, off, NumeralText(n), 0);
      if ReadValue(s, off, depth).Some? {
        NumberOnly(s, off, depth);
        LongNumeralCut(s, off, n);
      }
    case CArray(gap, es) =>
      AtIndex(s, off, Text(c), 0);
      Dispatch(s, off, depth);
      if depth < NESTING_LIMIT {
        AtConcat(s, off, [OPEN_BRACKET], ElementsText(es));
        assert es[0..] == es;
        ShapedStart(es[0].value);
        ElementsStart(es, s, off + 1);
        ElementsFrom(s, off + 1, depth + 1);
        ElementsRefused(c, 0, s, off + 1, depth + 1);
      }
    case CObject(gap, fs) =>
      AtIndex(s, off, Text(c), 0);
      Dispatch(s, off, depth);
      if depth < NESTING_LIMIT {
        AtConcat(s, off, [OPEN_BRACE], FieldsText(fs));
        assert fs[0..] == fs;
        assert FieldRfc(fs[0]);
        FieldsStart(fs, s, off + 1);
        FieldsFrom(s, off + 1, depth + 1);
        FieldsRefused(c, 0, s, off + 1, depth + 1);
      }
    case _ =>
  }

  lemma ShapedStart(c: Cst)
    requires Rfc(c)
    ensures ShapedNumber(c)
  {
  }

  /** Reading one element: refused beyond the limits, otherwise read up to the separator behind it. */
  lemma {:induction false} OneValue(c: Cst, s: bytes, q: nat, after: bytes, tail: bytes, depth: nat)
    requires Rfc(c) && BlankRfc(after)
    requires tail != [] && (tail[0] == COMMA || tail[0] == CLOSE_BRACKET || tail[0] == CLOSE_BRACE)
    requires At(s, q, Text(c)) && At(s, q + |Text(c)|, after) && At(s, q + |Text(c)| + |after|, tail)
    ensures !Within(c, depth) && ReadValue(s, q, depth).Some? ==>
              var e := SkipBlank(s, ReadValue(s, q, depth).value.next);
              e < |s| && Numeric(s[e])
    ensures Within(c, depth) ==>
              && ReadValue(s, q, depth) == Some(ReadVal(Denote(c), q + |Text(c)|))
              && SkipBlank(s, q + |Text(c)|) == q + |Text(c)| + |after| < |s|
              && s[q + |Text(c)| + |after|] == tail[0]
    decreases c, 2
  {
    hide At, Text, SkipBlank, Ok, ReadValue, Rfc, Within;
    if Within(c, depth) {
      RfcIsOk(c, depth);
      ValueThen(c, s, q, after, tail, depth);
    } else {
      ValueRefused(c, s, q, depth);
      if ReadValue(s, q, depth).Some? {
        Stays(s, ReadValue(s, q, depth).value.next);
      }
    }
  }

  lemma {:induction false} ElementsRefused(c: Cst, i: nat, s: bytes, p: nat, depth: nat)
    requires c.CArray? && Rfc(c) && i < |c.elements| && At(s, p, ElementsText(c.elements[i..]))
    requires exists k :: i <= k < |c.elements| && !Within(c.elements[k].value, depth)
    ensures ReadElements(s, p, depth) == None
    decreases c, 0, |c.elements| - i
  {
    hide At, SkipBlank, ReadValue, Text, ElementsText, Within;
    var es := c.elements[i..];
    var e := es[0];
    assert e == c.elements[i];
    var q := p + |e.before|;
    var end := q + |Text(e.value)| + |e.after|;
    ShapedStart(e.value);
    hide Rfc;
    ElementParts(es, s, p);
    ElementsStart(es, s, p);
    OneValue(e.value, s, q, e.after, ElementTail(es), depth);
    if Within(e.value, depth) {
      assert es[1..] == c.elements[i + 1..];
      AtConcat(s, end, [COMMA], ElementsText(es[1..]));
      ElementsRefused(c, i + 1, s, end + 1, depth);
    }
  }

  lemma FieldsStuck(s: bytes, p: nat, depth: nat)
    requires p <= |s| && ReadKey(s, p).Some?
    requires var v := ReadValue(s, SkipBlank(s, ReadKey(s, p).value.next), depth);
             v.Some? ==>
               var e := SkipBlank(s, v.value.next);
               e < |s| && s[e] != CLOSE_BRACE && (s[e] == COMMA ==> ReadFields(s, e + 1, depth) == None)
    ensures ReadFields(s, p, depth) == None
  {
    hide ReadValue, SkipBlank, ReadKey;
  }

  /** One member beyond the limits, or with nothing readable behind it, stops the loop over the members. */
  lemma {:induction false} OneField(fs: seq<Field>, s: bytes, p: nat, depth: nat)
    requires fs != [] && FieldRfc(fs[0]) && At(s, p, FieldsText(fs))
    requires Within(fs[0].value, depth) ==>
               |fs| > 1 && p + |FieldsText(fs)| - |FieldsText(fs[1..])| <= |s| &&
               ReadFields(s, p + |FieldsText(fs)| - |FieldsText(fs[1..])|, depth) == None
    ensures ReadFields(s, p, depth) == None
    decreases fs[0].value, 3
  {
    hide At, SkipBlank, ReadValue, ReadKey, ReadFields, Text, LiteralText, FieldsText, PiecesRfc, Within, Rfc, BlankRfc;
    var f := fs[0];
    var v := p + |f.beforeKey| + |LiteralText(f.key)| + |f.afterKey| + 1;
    FieldParts(fs, s, p);
    KeyRead(fs, s, p);
    OneValue(f.value, s, v + |f.before|, f.after, FieldTail(fs), depth);
    FieldsStuck(s, p, depth);
  }

  /** The name of a member, and where its value is looked for. */
  lemma KeyRead(fs: seq<Field>, s: bytes, p: nat)
    requires fs != [] && FieldRfc(fs[0]) && At(s, p, FieldsText(fs))
    ensures var v := p + |fs[0].beforeKey| + |LiteralText(fs[0].key)| + |fs[0].afterKey| + 1;
            ReadKey(s, p).Some? && ReadKey(s, p).value.next == v && SkipBlank(s, v) == v + |fs[0].before|
  {
    hide At, SkipBlank, ReadKey, Text, LiteralText, KeyOf, FieldsText, LiteralOk, PiecesRfc, Rfc;
    var f := fs[0];
    var v := p + |f.beforeKey| + |LiteralText(f.key)| + |f.afterKey| + 1;
    ShapedStart(f.value);
    WellFormedLiteral(f.key);
    FieldParts(fs, s, p);
    KeyComplete(fs, s, p);
    ValueAhead(f.value, s, v, f.before);
  }

  lemma {:induction false} FieldsRefused(c: Cst, i: nat, s: bytes, p: nat, depth: nat)
    requires c.CObject? && Rfc(c) && i < |c.fields| && At(s, p, FieldsText(c.fields[i..]))
    requires exists k :: i <= k < |c.fields| && !Within(c.fields[k].value, depth)
    ensures ReadFields(s, p, depth) == None
    decreases c, 0, |c.fields| - i
  {
    hide At, ReadFields, FieldsText, Text, LiteralText, Within;
    var fs := c.fields[i..];
    assert fs[0] == c.fields[i] && FieldRfc(fs[0]);
    if Within(fs[0].value, depth) {
      assert fs[1..] == c.fields[i + 1..];
      FieldParts(fs, s, p);
      var next := p + |FieldsText(fs)| - |FieldsText(fs[1..])|;
      AtConcat(s, next - 1, [COMMA], FieldsText(fs[1..]));
      FieldsRefused(c, i + 1, s, next, depth);
    }
    OneField(fs, s, p, depth);
  }

  // ----- a number that stands alone -----

  /** The part of a number's text that parse_number copies. */
  function Front(t: bytes): bytes {
    if |t| <= COPY_LIMIT then t else t[..COPY_LIMIT]
  }

  lemma FrontInWindow(s: bytes, off: nat, t: bytes)
    requires At(s, off, t) && |t| > COPY_LIMIT
    ensures Window(s, off) == Front(t)
  {
    assert s[off..off + |t|][..COPY_LIMIT] == s[off..off + COPY_LIMIT];
  }

  /** An RFC number starts with a numeral of one digit, so something is always read. */
  lemma SomethingRead(s: bytes, off: nat, n: Numeral)
    requires NumeralRfc(n) && At(s, off, NumeralText(n)) && |NumeralText(n)| > COPY_LIMIT
    ensures ReadNumber(s, off).Some?
  {
    hide ReadNumber, At, Longest;
    FrontInWindow(s, off, NumeralText(n));
    HeadSign(n);
    AtIndex(s, off, NumeralText(n), 0);
    var one := n.(whole := n.whole[..1], fraction := None, exponent := None);
    assert n.whole == one.whole + n.whole[1..];
    assert NumeralText(one) <= HeadText(n) <= NumeralText(n);
    assert NumeralText(one) <= Front(NumeralText(n));
    WindowRead(s, off, one);
  }

  lemma WindowRead(s: bytes, off: nat, n: Numeral)
    requires off < |s| && NumeralShape(n) && NumeralText(n) <= Window(s, off)
    ensures ReadNumber(s, off).Some?
  {
    hide NumeralText, NumeralShape, Strtod, Window, Copied;
    WindowNumeral(s, off, n);
    StrtodBeyond(s[off..off + Copied(s, off, 0)], n);
    HeadSign(n);
  }

  /** A text that is one number is always accepted, with the value of the longest numeral in its first 63 bytes. */
  lemma NumberAlone(d: Document) returns (m: Numeral)
    requires BlankRfc(d.before) && Rfc(d.value) && BlankRfc(d.after) && d.value.CNumber?
    ensures Terminated(DocumentText(d) + [NUL])
    ensures Longest(m, Front(NumeralText(d.value.n)))
    ensures ReadDocument(DocumentText(d) + [NUL], false) == Some(Number(NumberMeans(m)))
  {
    hide At, ReadValue, ReadNumber, NumeralText, NumeralValue, NumberMeans, NumeralShape, DocumentText, SkipBlank, SkipMark, ValueOffset, Window;
    var n, s, p := d.value.n, DocumentText(d) + [NUL], ValueOffset(d);
    assert NumeralRfc(n) && Text(d.value) == NumeralText(n);
    Ends(d);
    ShapedStart(d.value);
    if Within(d.value, 0) {
      m := n;
      ParsesRfc(d, false);
    } else {
      DocumentStart(d, s);
      FrontInWindow(s, p, NumeralText(n));
      SomethingRead(s, p, n);
      HeadSign(n);
      AtIndex(s, p, NumeralText(n), 0);
      Dispatch(s, p, 0);
      var r := ReadNumber(s, p).value;
      NumberExactly(s, p, r.value, r.next);
      m :| Longest(m, Window(s, p)) && r.value == NumeralValue(m) && r.next == p + |NumeralText(m)|;
      NumberExact(m);
    }
  }

  lemma Ends(d: Document)
    requires BlankRfc(d.before) && Rfc(d.value) && BlankRfc(d.after)
    ensures Terminated(DocumentText(d) + [NUL])
  {
    hide Rfc, Text;
    RfcNoNul(d.value);
    assert (DocumentText(d) + [NUL])[..|DocumentText(d)|] == DocumentText(d);
  }

  /**
    Which texts of RFC 8259 are accepted. With the terminator demanded: those within the limits and no others.
    Without it: these and every text that is one number, however long.
   */
  lemma RfcAcceptedExactly(d: Document, requireTerminated: bool)
    requires BlankRfc(d.before) && Rfc(d.value) && BlankRfc(d.after)
    ensures Terminated(DocumentText(d) + [NUL])
    ensures ReadDocument(DocumentText(d) + [NUL], requireTerminated).Some? <==>
            Within(d.value, 0) || (!requireTerminated && d.value.CNumber?)
  {
    hide Rfc, Within, RfcDenotes, Text, ReadValue, Denote, Ok, At, SkipBlank, SkipMark, DocumentText, ValueOffset;
    Ends(d);
    if Within(d.value, 0) {
      ParsesRfc(d, requireTerminated);
    } else if d.value.CNumber? && !requireTerminated {
      var m := NumberAlone(d);
    } else {
      var s, p := DocumentText(d) + [NUL], ValueOffset(d);
      ShapedStart(d.value);
      DocumentStart(d, s);
      ValueRefused(d.value, s, p, 0);
      if ReadValue(s, p, 0).Some? {
        Stays(s, ReadValue(s, p, 0).value.next);
      }
    }
  }

  /** The bytes of a number that are not looked at make no difference. */
  ghost predicate FrontSuffices(n: Numeral) {
    exists m :: Longest(m, Front(NumeralText(n))) && NumeralShape(n) && NumberMeans(m) == NumberMeans(n)
  }

  /** When cJSON_Parse gives a text of RFC 8259 the value it denotes. */
  lemma RfcReadExactly(d: Document)
    requires BlankRfc(d.before) && Rfc(d.value) && BlankRfc(d.after)
    ensures var r := (Ends(d); ReadDocument(DocumentText(d) + [NUL], false));
            r.Some? && RfcDenotes(d.value, r.value) <==>
            if d.value.CNumber? then FrontSuffices(d.value.n) else Within(d.value, 0)
  {
    hide ReadDocument, NumeralText, NumberMeans, NumeralShape, DocumentText, Within;
    RfcAcceptedExactly(d, false);
    if d.value.CNumber? {
      var m := NumberAlone(d);
      ShapedStart(d.value);
      FrontDecides(d.value.n, m);
    } else if Within(d.value, 0) {
      ParsesRfc(d, false);
    }
  }

  lemma SameLongest(k: Numeral, m: Numeral, t: bytes)
    requires Longest(k, t) && Longest(m, t)
    ensures NumberMeans(k) == NumberMeans(m)
  {
    hide NumeralText, NumeralValue, NumberMeans, NumeralShape;
    assert NumeralText(k) == t[..|NumeralText(k)|] == NumeralText(m);
    StrtodComplete(k);
    StrtodComplete(m);
    NumberExact(k);
    NumberExact(m);
  }

  /** No plain integer of more than 63 bytes is read as the number it is. */
  lemma LongIntegerWrong(n: Numeral)
    requires NumeralRfc(n) && n.fraction.None? && n.exponent.None? && |NumeralText(n)| > COPY_LIMIT
    ensures !FrontSuffices(n)
  {
    hide DigitsValue, Longest, NumeralValue, NumberMeans, FrontSuffices;
    var k := COPY_LIMIT - if n.negative then 1 else 0;
    var cut := n.(whole := n.whole[..k]);
    var t := Front(NumeralText(n));
    assert NumeralText(cut) == t;
    WholeLongest(cut);
    PrefixSmaller(n.whole, k);
    IntegerValue(n);
    IntegerValue(cut);
    NumberExact(n);
    NumberExact(cut);
    FrontDecides(n, cut);
  }

  lemma FrontDecides(n: Numeral, cut: Numeral)
    requires NumeralShape(n) && Longest(cut, Front(NumeralText(n)))
    ensures FrontSuffices(n) <==> NumberMeans(cut) == NumberMeans(n)
  {
    hide NumeralText, NumberMeans, NumeralShape, Front;
    forall m | Longest(m, Front(NumeralText(n)))
      ensures NumberMeans(m) == NumberMeans(cut)
    {
      SameLongest(m, cut, Front(NumeralText(n)));
    }
  }

  lemma IntegerValue(n: Numeral)
    requires NumeralShape(n) && n.fraction.None? && n.exponent.None?
    ensures NumeralValue(n) == (DigitsValue(n.whole) as real) * if n.negative then -1.0 else 1.0
  {
    hide DigitsValue;
    assert n.whole + [] == n.whole;
  }

  lemma {:induction false} PrefixSmaller(ds: bytes, k: nat)
    requires AllDigits(ds) && ds != [] && ds[0] != ZERO && 0 < k <= |ds|
    ensures 0 < DigitsValue(ds[..k]) && (k < |ds| ==> DigitsValue(ds[..k]) < DigitsValue(ds))
    decreases |ds|
  {
    if |ds| == 1 {
      assert ds[..1] == ds && ds[..0] == [];
    } else {
      var front := ds[..|ds| - 1];
      PrefixSmaller(front, if k < |ds| then k else k - 1);
      if k < |ds| {
        assert front[..k] == ds[..k] && front[..|front|] == front;
      } else {
        assert ds[..k] == ds && front[..k - 1] == front;
      }
    }
  }

  /** Sixty-four ones are accepted by cJSON_Parse as the number of sixty-three ones. */
  lemma SixtyFourOnes(d: Document)
    requires d == Document(false, [], CNumber(Numeral(false, seq(64, _ => 0x31), None, None)), [])
    ensures Rfc(d.value) && Terminated(DocumentText(d) + [NUL])
    ensures ReadDocument(DocumentText(d) + [NUL], false) == Some(Number(WholeMeans(seq(63, _ => 0x31))))
    ensures !RfcDenotes(d.value, Number(WholeMeans(seq(63, _ => 0x31))))
    ensures ReadDocument(DocumentText(d) + [NUL], true) == None
  {
    hide ReadDocument, DocumentText, RfcDenotes, WholeMeans, Longest;
    var n, cut := d.value.n, Numeral(false, seq(63, _ => 0x31), None, None);
    assert |NumeralText(n)| == 64;
    RfcAcceptedExactly(d, true);
    RfcReadExactly(d);
    LongIntegerWrong(n);
    var m := NumberAlone(d);
    assert NumeralText(cut) == Front(NumeralText(n));
    WholeLongest(cut);
    SameLongest(m, cut, NumeralText(cut));
  }

  lemma WholeLongest(n: Numeral)
    requires NumeralShape(n)
    ensures Longest(n, NumeralText(n))
  {
  }

  lemma Stays(s: bytes, p: nat)
    requires p < |s| && s[p] > SPACE
    ensures SkipBlank(s, p) == p
  {
    BlankEndIs(s, p, p);
  }
}
