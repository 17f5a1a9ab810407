/** Printing and then parsing gives the value back. */
module RoundTrip {
  import opened Bytes
  import opened Utf
  import opened Json
  import opened Literal
  import opened Numeral
  import opened Grammar
  import opened PrintedText
  import Reader
  import Rfc8259
  import ReaderComplete

  lemma TabsBlank(n: nat)
    ensures BlankRfc(Tabs(n)) && BlankRfc([NEWLINE] + Tabs(n))
  {
  }

  // ----- the printed value is a text of RFC 8259 -----

  lemma {:induction false} CanonRfc(v: Value, format: bool, depth: nat)
    requires Printable(v) && Faithful(v, depth)
    ensures Rfc(Canon(v, format, depth)) && Within(Canon(v, format, depth), depth)
    decreases v, 1
  {
    hide Rfc, Within, PiecesRfc, NumeralRfc, NumeralText, IntegerNumeral, CanonElements, CanonFields;
    match v
    case Number(n) =>
      IntegerLiteral(n.Floor);
      NumberRfc(n.Floor, depth);
    case String(t) =>
      PiecesOfText(t);
      TextRfc(t, depth);
    case Array(_) =>
      ElementsRfc(v, 0, format, depth + 1);
      ArrayRfc(v, format, depth, CanonElements(v, 0, format, depth + 1));
    case Object(_) =>
      FieldsRfc(v, 0, format, depth + 1);
      ObjectRfc(v, format, depth, CanonFields(v, 0, format, depth + 1));
    case _ => WordRfc(Canon(v, format, depth), depth);
  }

  lemma NumberRfc(n: int, depth: nat)
    requires NumeralRfc(IntegerNumeral(n)) && NumeralOk(IntegerNumeral(n))
    ensures Rfc(CNumber(IntegerNumeral(n))) && Within(CNumber(IntegerNumeral(n)), depth)
  {
  }

  lemma TextRfc(t: bytes, depth: nat)
    requires PiecesRfc(PiecesOf(t))
    ensures Rfc(CText(PiecesOf(t))) && Within(CText(PiecesOf(t)), depth)
  {
  }

  lemma WordRfc(c: Cst, depth: nat)
    requires c.CNull? || c.CTrue? || c.CFalse?
    ensures Rfc(c) && Within(c, depth)
  {
  }

  ghost predicate ElementFine(e: Element, depth: nat) {
    BlankRfc(e.before) && Rfc(e.value) && BlankRfc(e.after) && Within(e.value, depth)
  }

  ghost predicate FieldFine(f: Field, depth: nat) {
    FieldRfc(f) && Within(f.value, depth)
  }

  lemma ArrayRfc(v: Value, format: bool, depth: nat, es: seq<Element>)
    requires v.Array? && depth < NESTING_LIMIT && es == CanonElements(v, 0, format, depth + 1)
    requires forall k | 0 <= k < |es| :: ElementFine(es[k], depth + 1)
    ensures Rfc(Canon(v, format, depth)) && Within(Canon(v, format, depth), depth)
  {
    hide CanonElements;
  }

  lemma ObjectRfc(v: Value, format: bool, depth: nat, fs: seq<Field>)
    requires v.Object? && depth < NESTING_LIMIT && fs == CanonFields(v, 0, format, depth + 1)
    requires forall k | 0 <= k < |fs| :: FieldFine(fs[k], depth + 1)
    ensures Rfc(Canon(v, format, depth)) && Within(Canon(v, format, depth), depth)
  {
    hide CanonFields, FieldRfc;
    TabsBlank(depth);
  }

  lemma {:induction false} ElementsRfc(v: Value, i: nat, format: bool, depth: nat)
    requires v.Array? && i <= |v.items|
    requires forall k | 0 <= k < |v.items| :: Printable(v.items[k]) && Faithful(v.items[k], depth)
    ensures forall k | 0 <= k < |v.items| - i :: ElementFine(CanonElements(v, i, format, depth)[k], depth)
    decreases v, 0, |v.items| - i
  {
    if i < |v.items| {
      hide Rfc, Within, Canon, Printable, Faithful;
      CanonRfc(v.items[i], format, depth);
      ElementsRfc(v, i + 1, format, depth);
      var es := CanonElements(v, i, format, depth);
      assert es[0] == Element(When(format && i > 0, [SPACE]), Canon(v.items[i], format, depth), []);
      assert forall k | 1 <= k < |es| :: es[k] == CanonElements(v, i + 1, format, depth)[k - 1];
    }
  }

  lemma {:induction false} FieldsRfc(v: Value, i: nat, format: bool, depth: nat)
    requires v.Object? && i <= |v.members| && depth > 0
    requires forall k | 0 <= k < |v.members| ::
               NUL !in v.members[k].key && Printable(v.members[k].value) && Faithful(v.members[k].value, depth)
    ensures forall k | 0 <= k < |v.members| - i :: FieldFine(CanonFields(v, i, format, depth)[k], depth)
    decreases v, 0, |v.members| - i
  {
    if i < |v.members| {
      hide FieldFine, Canon, Printable, Faithful, PiecesOf, Tabs;
      CanonRfc(v.members[i].value, format, depth);
      FieldsRfc(v, i + 1, format, depth);
      var fs := CanonFields(v, i, format, depth);
      FieldRfcAt(v.members[i], format, depth, i + 1 == |v.members|, fs[0]);
      assert forall k | 1 <= k < |fs| :: fs[k] == CanonFields(v, i + 1, format, depth)[k - 1];
    }
  }

  lemma FieldRfcAt(m: Member, format: bool, depth: nat, last: bool, f: Field)
    requires NUL !in m.key && depth > 0 && f.key == PiecesOf(m.key) && f.value == Canon(m.value, format, depth)
    requires f.beforeKey == When(format, [NEWLINE] + Tabs(depth)) && f.afterKey == [] && f.before == When(format, [TAB])
    requires f.after == When(format && last, [NEWLINE] + Tabs(depth - 1))
    requires Rfc(f.value) && Within(f.value, depth)
    ensures FieldFine(f, depth)
  {
    hide Rfc, Within, Canon, PiecesOf, PiecesRfc, Tabs;
    PiecesOfText(m.key);
    TabsBlank(depth);
    TabsBlank(depth - 1);
  }

  // ----- its text is what is printed -----

  lemma {:induction false} CanonText(v: Value, format: bool, depth: nat)
    requires Printable(v) && Faithful(v, depth)
    ensures Text(Canon(v, format, depth)) == ValueText(v, format, depth)
    decreases v, 1
  {
    hide CanonElements, CanonFields, ElementsText, FieldsText, ItemsText, MembersText, LiteralText, PiecesOf, StringText,
      NumeralText, IntegerNumeral, Tabs;
    match v
    case Number(n) => IntegerLiteral(n.Floor);
    case String(t) => StringLiteral(t);
    case Array(items) =>
      if items == [] {
        NoItems(v, format, depth + 1);
      } else {
        ElementsCanon(v, 0, format, depth + 1);
        assert [OPEN_BRACKET] + ([] + ItemsText(v, 0, format, depth + 1) + [CLOSE_BRACKET])
            == [OPEN_BRACKET] + ItemsText(v, 0, format, depth + 1) + [CLOSE_BRACKET];
      }
    case Object(members) =>
      if members == [] {
        NoMembers(v, format, depth + 1);
        assert [OPEN_BRACE] + ((When(format, [NEWLINE] + Tabs(depth))) + [CLOSE_BRACE])
            == [OPEN_BRACE] + When(format, [NEWLINE]) + [] + When(format, Tabs(depth)) + [CLOSE_BRACE];
      } else {
        FieldsCanon(v, 0, format, depth + 1);
        var ms := MembersText(v, 0, format, depth + 1);
        assert [OPEN_BRACE] + (When(format, [NEWLINE]) + (ms + (When(format, Tabs(depth)) + [CLOSE_BRACE])))
            == [OPEN_BRACE] + When(format, [NEWLINE]) + ms + When(format, Tabs(depth)) + [CLOSE_BRACE];
      }
    case _ =>
  }

  lemma NoItems(v: Value, format: bool, depth: nat)
    requires v.Array? && v.items == []
    ensures ItemsText(v, 0, format, depth) == [] && CanonElements(v, 0, format, depth) == []
  {
  }

  lemma NoMembers(v: Value, format: bool, depth: nat)
    requires v.Object? && v.members == [] && depth > 0
    ensures MembersText(v, 0, format, depth) == [] && CanonFields(v, 0, format, depth) == []
  {
  }

  lemma {:induction false} ElementsCanon(v: Value, i: nat, format: bool, depth: nat)
    requires v.Array? && i < |v.items|
    requires forall k | 0 <= k < |v.items| :: Printable(v.items[k]) && Faithful(v.items[k], depth)
    ensures ElementsText(CanonElements(v, i, format, depth))
         == When(format && i > 0, [SPACE]) + ItemsText(v, i, format, depth) + [CLOSE_BRACKET]
    decreases v, 0, |v.items| - i
  {
    hide Text, Canon, ValueText, Printable, Faithful;
    var es := CanonElements(v, i, format, depth);
    CanonText(v.items[i], format, depth);
    var head, t := When(format && i > 0, [SPACE]), ValueText(v.items[i], format, depth);
    assert es[0].before == head && Text(es[0].value) == t && es[0].after == [];
    if i + 1 < |v.items| {
      ElementsCanon(v, i + 1, format, depth);
      assert es[1..] == CanonElements(v, i + 1, format, depth);
      var rest := ItemsText(v, i + 1, format, depth);
      assert ItemsText(v, i, format, depth) == t + Separator(format) + rest;
      Regroup(head, t, Separator(format), rest, [CLOSE_BRACKET]);
      assert [COMMA] + (When(format, [SPACE]) + rest + [CLOSE_BRACKET]) == Separator(format) + (rest + [CLOSE_BRACKET]);
      assert ElementsText(es) == head + (t + ([] + ([COMMA] + ElementsText(es[1..]))));
      assert [] + ([COMMA] + ElementsText(es[1..])) == [COMMA] + ElementsText(es[1..]);
    } else {
      NoneLeft(v, i + 1, format, depth);
      assert ItemsText(v, i, format, depth) == t + [] + [];
      assert t + [] + [] == t;
      assert |es| == 1;
      assert ElementsText(es) == head + (t + ([] + [CLOSE_BRACKET]));
      assert head + (t + ([] + [CLOSE_BRACKET])) == head + t + [CLOSE_BRACKET];
    }
  }

  lemma NoneLeft(v: Value, i: nat, format: bool, depth: nat)
    requires v.Array? && i == |v.items|
    ensures ItemsText(v, i, format, depth) == []
  {
  }

  lemma Regroup(a: bytes, b: bytes, c: bytes, d: bytes, e: bytes)
    ensures a + (b + c + d) + e == a + (b + (c + (d + e)))
  {
    assert a + (b + c + d) + e == a + ((b + c + d) + e);
    assert (b + c + d) + e == (b + c) + (d + e);
    assert (b + c) + (d + e) == b + (c + (d + e));
  }

  lemma {:induction false} FieldsCanon(v: Value, i: nat, format: bool, depth: nat)
    requires v.Object? && i < |v.members| && depth > 0
    requires forall k | 0 <= k < |v.members| ::
               NUL !in v.members[k].key && Printable(v.members[k].value) && Faithful(v.members[k].value, depth)
    ensures FieldsText(CanonFields(v, i, format, depth))
         == When(format, [NEWLINE]) + (MembersText(v, i, format, depth) + (When(format, Tabs(depth - 1)) + [CLOSE_BRACE]))
    decreases v, 0, |v.members| - i
  {
    hide Text, Canon, ValueText, Printable, Faithful, Tabs, PiecesOf, LiteralText, StringText, MembersText, FieldsText;
    var m := v.members[i];
    var fs := CanonFields(v, i, format, depth);
    CanonText(m.value, format, depth);
    StringLiteral(m.key);
    var close := When(format, Tabs(depth - 1)) + [CLOSE_BRACE];
    var t := ValueText(m.value, format, depth);
    MembersStep(v, i, format, depth);
    if i + 1 < |v.members| {
      FieldsCanon(v, i + 1, format, depth);
      assert fs[1..] == CanonFields(v, i + 1, format, depth);
      FieldShape(fs, m, t, format, depth, When(format, [NEWLINE]) + (MembersText(v, i + 1, format, depth) + close));
      MiddleMember(m, t, format, depth, MembersText(v, i + 1, format, depth), close);
    } else {
      NoMembersLeft(v, i + 1, format, depth);
      assert |fs| == 1;
      LastFieldShape(fs, m, t, format, depth);
      LastMember(m, t, format, depth);
    }
  }

  lemma NoMembersLeft(v: Value, i: nat, format: bool, depth: nat)
    requires v.Object? && i == |v.members|
    ensures MembersText(v, i, format, depth) == []
  {
  }

  lemma MembersStep(v: Value, i: nat, format: bool, depth: nat)
    requires v.Object? && i < |v.members|
    ensures MembersText(v, i, format, depth)
         == MemberStart(v.members[i], format, depth) + ValueText(v.members[i].value, format, depth)
            + MemberEnd(i + 1 == |v.members|, format) + MembersText(v, i + 1, format, depth)
  {
    hide ValueText, MemberStart, MemberEnd;
  }

  lemma FieldShape(fs: seq<Field>, m: Member, t: bytes, format: bool, depth: nat, rest: bytes)
    requires |fs| > 1 && FieldsText(fs[1..]) == rest
    requires fs[0].beforeKey == When(format, [NEWLINE] + Tabs(depth)) && LiteralText(fs[0].key) == StringText(m.key)
    requires fs[0].afterKey == [] && fs[0].before == When(format, [TAB]) && Text(fs[0].value) == t && fs[0].after == []
    ensures FieldsText(fs) == When(format, [NEWLINE] + Tabs(depth)) + StringText(m.key) + [COLON] + When(format, [TAB])
                              + t + [COMMA] + rest
  {
    hide Text, LiteralText, StringText, Tabs, When;
    Flatten(fs[0].beforeKey, StringText(m.key), fs[0].before, t, [COMMA], rest);
  }

  lemma LastFieldShape(fs: seq<Field>, m: Member, t: bytes, format: bool, depth: nat)
    requires |fs| == 1 && depth > 0
    requires fs[0].beforeKey == When(format, [NEWLINE] + Tabs(depth)) && LiteralText(fs[0].key) == StringText(m.key)
    requires fs[0].afterKey == [] && fs[0].before == When(format, [TAB]) && Text(fs[0].value) == t
    requires fs[0].after == When(format, [NEWLINE] + Tabs(depth - 1))
    ensures FieldsText(fs) == When(format, [NEWLINE] + Tabs(depth)) + StringText(m.key) + [COLON] + When(format, [TAB])
                              + t + When(format, [NEWLINE] + Tabs(depth - 1)) + [CLOSE_BRACE]
  {
    hide Text, LiteralText, StringText, Tabs, When;
    var f := fs[0];
    Flatten(f.beforeKey, StringText(m.key), f.before, t, f.after, [CLOSE_BRACE]);
    assert [] + (f.after + [CLOSE_BRACE]) == f.after + [CLOSE_BRACE];
  }

  /** The nesting of a member's text, undone. */
  lemma Flatten(a: bytes, k: bytes, b: bytes, t: bytes, c: bytes, rest: bytes)
    ensures a + (k + ([] + ([COLON] + (b + (t + ([] + (c + rest))))))) == a + k + [COLON] + b + t + c + rest
    ensures a + (k + ([] + ([COLON] + (b + (t + (c + rest)))))) == a + k + [COLON] + b + t + c + rest
  {
    assert [] + (c + rest) == c + rest;
    var u := b + (t + (c + rest));
    assert u == b + t + c + rest;
    assert [] + ([COLON] + u) == [COLON] + u;
    assert a + (k + ([COLON] + u)) == a + k + [COLON] + u;
    assert a + k + [COLON] + u == a + k + [COLON] + b + t + c + rest;
  }

  lemma MiddleMember(m: Member, t: bytes, format: bool, depth: nat, rest: bytes, close: bytes)
    ensures When(format, [NEWLINE] + Tabs(depth)) + StringText(m.key) + [COLON] + When(format, [TAB])
            + t + [COMMA] + (When(format, [NEWLINE]) + (rest + close))
         == When(format, [NEWLINE]) + ((MemberStart(m, format, depth) + t + MemberEnd(false, format) + rest) + close)
  {
    hide StringText, Tabs;
    var n, tab, tabs := When(format, [NEWLINE]), When(format, [TAB]), When(format, Tabs(depth));
    assert When(format, [NEWLINE] + Tabs(depth)) == n + tabs;
    var start := tabs + StringText(m.key) + [COLON] + tab;
    assert (n + tabs) + StringText(m.key) + [COLON] + tab == n + start;
    assert MemberEnd(false, format) == [COMMA] + n;
    Glue5(n, start, t, [COMMA], n, rest, close);
  }

  lemma Glue5(n: bytes, start: bytes, t: bytes, comma: bytes, n2: bytes, rest: bytes, close: bytes)
    ensures n + start + t + comma + (n2 + (rest + close)) == n + ((start + t + (comma + n2) + rest) + close)
  {
    assert n + start + t + comma + (n2 + (rest + close)) == n + (start + t + comma + (n2 + (rest + close)));
    assert start + t + comma + (n2 + (rest + close)) == (start + t + comma + n2) + (rest + close);
    assert start + t + comma + n2 == start + t + (comma + n2);
    assert (start + t + (comma + n2)) + (rest + close) == (start + t + (comma + n2) + rest) + close;
  }

  lemma LastMember(m: Member, t: bytes, format: bool, depth: nat)
    requires depth > 0
    ensures When(format, [NEWLINE] + Tabs(depth)) + StringText(m.key) + [COLON] + When(format, [TAB])
            + t + When(format, [NEWLINE] + Tabs(depth - 1)) + [CLOSE_BRACE]
         == When(format, [NEWLINE])
            + ((MemberStart(m, format, depth) + t + MemberEnd(true, format) + []) + (When(format, Tabs(depth - 1)) + [CLOSE_BRACE]))
  {
    hide StringText, Tabs;
    var n, tab, tabs := When(format, [NEWLINE]), When(format, [TAB]), When(format, Tabs(depth));
    var less := When(format, Tabs(depth - 1));
    assert When(format, [NEWLINE] + Tabs(depth)) == n + tabs;
    assert When(format, [NEWLINE] + Tabs(depth - 1)) == n + less;
    var start := tabs + StringText(m.key) + [COLON] + tab;
    assert (n + tabs) + StringText(m.key) + [COLON] + tab == n + start;
    assert MemberEnd(true, format) == n;
    assert start + t + n + [] == start + t + n;
    assert n + start + t + (n + less) + [CLOSE_BRACE] == n + ((start + t + n) + (less + [CLOSE_BRACE]));
  }

  // ----- its denotation is the value -----

  lemma {:induction false} CanonDenotes(v: Value, format: bool, depth: nat)
    requires Printable(v) && Faithful(v, depth)
    ensures Denote(Canon(v, format, depth)) == v
    decreases v, 1
  {
    hide CanonElements, CanonFields, Items, Members, KeyOf, PiecesOf, NumeralValue, NumeralShape, IntegerNumeral;
    match v
    case Number(n) => IntegerLiteral(n.Floor);
    case String(t) => StringLiteral(t);
    case Array(items) =>
      ElementsDenote(v, 0, format, depth + 1);
      assert items[0..] == items;
    case Object(members) =>
      FieldsDenote(v, 0, format, depth + 1);
      assert members[0..] == members;
    case _ =>
  }

  lemma {:induction false} ElementsDenote(v: Value, i: nat, format: bool, depth: nat)
    requires v.Array? && i <= |v.items|
    requires forall k | 0 <= k < |v.items| :: Printable(v.items[k]) && Faithful(v.items[k], depth)
    ensures Items(CanonElements(v, i, format, depth)) == v.items[i..]
    decreases v, 0, |v.items| - i
  {
    if i < |v.items| {
      hide Denote, Canon, Printable, Faithful;
      CanonDenotes(v.items[i], format, depth);
      ElementsDenote(v, i + 1, format, depth);
      assert CanonElements(v, i, format, depth)[1..] == CanonElements(v, i + 1, format, depth);
    }
  }

  lemma {:induction false} FieldsDenote(v: Value, i: nat, format: bool, depth: nat)
    requires v.Object? && i <= |v.members| && depth > 0
    requires forall k | 0 <= k < |v.members| ::
               NUL !in v.members[k].key && Printable(v.members[k].value) && Faithful(v.members[k].value, depth)
    ensures Members(CanonFields(v, i, format, depth)) == v.members[i..]
    decreases v, 0, |v.members| - i
  {
    if i < |v.members| {
      hide Denote, Canon, Printable, Faithful, KeyOf, PiecesOf;
      CanonDenotes(v.members[i].value, format, depth);
      StringLiteral(v.members[i].key);
      FieldsDenote(v, i + 1, format, depth);
      assert CanonFields(v, i, format, depth)[1..] == CanonFields(v, i + 1, format, depth);
    }
  }

  // ----- the round trip -----

  /**
    For every tree nested at most 1000 deep with NUL-free strings and integers below 10^15, formatted or not:
    parsing the printed text gives back the same value, member order and duplicate keys included.
   */
  lemma PrintThenParse(v: Value, format: bool, requireTerminated: bool)
    requires Printable(v) && Faithful(v, 0)
    ensures Terminated(ValueText(v, format, 0) + [NUL])
    ensures Reader.ReadDocument(ValueText(v, format, 0) + [NUL], requireTerminated) == Some(v)
  {
    hide Printable, Faithful, Canon, Rfc, Within, Text, ValueText, Denote, Ok;
    CanonRfc(v, format, 0);
    CanonText(v, format, 0);
    CanonDenotes(v, format, 0);
    var c := Canon(v, format, 0);
    var d := Document(false, [], c, []);
    assert DocumentText(d) == Text(c);
    RfcIsOk(c, 0);
    Rfc8259.RfcNoNul(c);
    assert (Text(c) + [NUL])[..|Text(c)|] == Text(c);
    ReaderComplete.DocumentComplete(d, requireTerminated);
  }

  /** Hence different values are printed differently. */
  lemma PrintInjective(v: Value, w: Value, format: bool)
    requires Printable(v) && Faithful(v, 0) && Printable(w) && Faithful(w, 0)
    requires ValueText(v, format, 0) == ValueText(w, format, 0)
    ensures v == w
  {
    PrintThenParse(v, format, true);
    PrintThenParse(w, format, true);
  }

  // ----- raw text -----

  /** v is w but for raw items, which hold the text that would be printed in their place. */
  ghost predicate Alike(v: Value, w: Value, format: bool, depth: nat) {
    match v
    case Raw(t) => t == ValueText(w, format, depth)
    case Array(items) =>
      && w.Array? && |items| == |w.items|
      && forall i | 0 <= i < |items| :: Alike(items[i], w.items[i], format, depth + 1)
    case Object(members) =>
      && w.Object? && |members| == |w.members|
      && forall i | 0 <= i < |members| ::
           members[i].key == w.members[i].key && Alike(members[i].value, w.members[i].value, format, depth + 1)
    case _ => v == w
  }

  lemma {:induction false} AlikeText(v: Value, w: Value, format: bool, depth: nat)
    requires Alike(v, w, format, depth)
    ensures ValueText(v, format, depth) == ValueText(w, format, depth)
    decreases v, 1
  {
    hide ItemsText, MembersText, StringText, IntegerText;
    match v
    case Array(_) => AlikeItems(v, w, 0, format, depth + 1);
    case Object(_) => AlikeMembers(v, w, 0, format, depth + 1);
    case _ =>
  }

  lemma {:induction false} AlikeItems(v: Value, w: Value, i: nat, format: bool, depth: nat)
    requires v.Array? && w.Array? && i <= |v.items| == |w.items|
    requires forall k | 0 <= k < |v.items| :: Alike(v.items[k], w.items[k], format, depth)
    ensures ItemsText(v, i, format, depth) == ItemsText(w, i, format, depth)
    decreases v, 0, |v.items| - i
  {
    if i < |v.items| {
      hide ValueText, Alike;
      AlikeText(v.items[i], w.items[i], format, depth);
      AlikeItems(v, w, i + 1, format, depth);
    }
  }

  lemma {:induction false} AlikeMembers(v: Value, w: Value, i: nat, format: bool, depth: nat)
    requires v.Object? && w.Object? && i <= |v.members| == |w.members|
    requires forall k | 0 <= k < |v.members| ::
               v.members[k].key == w.members[k].key && Alike(v.members[k].value, w.members[k].value, format, depth)
    ensures MembersText(v, i, format, depth) == MembersText(w, i, format, depth)
    decreases v, 0, |v.members| - i
  {
    if i < |v.members| {
      hide ValueText, Alike, StringText;
      AlikeText(v.members[i].value, w.members[i].value, format, depth);
      AlikeMembers(v, w, i + 1, format, depth);
    }
  }

  /** Raw items that hold printed text are parsed as the values printed. */
  lemma RawThenParse(v: Value, w: Value, format: bool, requireTerminated: bool)
    requires Alike(v, w, format, 0) && Printable(w) && Faithful(w, 0)
    ensures Terminated(ValueText(v, format, 0) + [NUL])
    ensures Reader.ReadDocument(ValueText(v, format, 0) + [NUL], requireTerminated) == Some(w)
  {
    hide Alike, Printable, Faithful, ValueText, Reader.ReadDocument;
    AlikeText(v, w, format, 0);
    PrintThenParse(w, format, requireTerminated);
  }
}
