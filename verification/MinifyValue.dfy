/**
  What minifying does to the value of a JSON text with comments: nothing as long as the scanner drops no byte of a
  literal and copies no comment. White space that it copies does no harm.
 */
module MinifyValue {
  import opened Bytes
  import opened Utf
  import opened Json
  import opened Literal
  import opened Numeral
  import opened Grammar
  import opened Minify
  import opened MinifyLaws
  import opened MinifyScan
  import opened MinifyJson
  import ReaderComplete
  import Reader
  import Rfc8259

  // ----- texts of the RFC are texts with comments -----

  lemma WhiteIsBlank(w: bytes)
    ensures WhiteRun(w) <==> BlankRfc(w)
  {
  }

  lemma {:induction false} WhiteGap(w: bytes) returns (gs: seq<GapItem>)
    requires WhiteRun(w)
    ensures GapsOk(gs) && w == GapsText(gs)
    decreases |w|
  {
    if w == [] {
      gs := [];
    } else {
      var more := WhiteGap(w[1..]);
      gs := [GapItem.White(w[0])] + more;
      assert gs[1..] == more;
    }
  }

  lemma BlankGap(w: bytes)
    requires BlankRfc(w)
    ensures Gap(w)
  {
    WhiteIsBlank(w);
    var gs := WhiteGap(w);
  }

  lemma {:induction false} RfcCommented(c: Cst)
    requires Rfc(c)
    ensures Commented(c)
  {
    hide Gap, BlankRfc, NumeralRfc, PiecesRfc;
    match c
    case CArray(gap, es) =>
      BlankGap(gap);
      forall i | 0 <= i < |es|
        ensures ElementCommented(es[i])
      {
        BlankGap(es[i].before);
        BlankGap(es[i].after);
        RfcCommented(es[i].value);
      }
    case CObject(gap, fs) =>
      BlankGap(gap);
      forall i | 0 <= i < |fs|
        ensures FieldCommented(fs[i])
      {
        FieldGaps(fs[i]);
        RfcCommented(fs[i].value);
      }
    case _ =>
  }

  lemma FieldGaps(f: Field)
    requires FieldRfc(f)
    ensures PiecesRfc(f.key) && Gap(f.beforeKey) && Gap(f.afterKey) && Gap(f.before) && Gap(f.after) && Rfc(f.value)
  {
    hide Gap, BlankRfc, PiecesRfc;
    BlankGap(f.beforeKey);
    BlankGap(f.afterKey);
    BlankGap(f.before);
    BlankGap(f.after);
  }

  // ----- other white space, same value -----

  /** The same tokens but for their gaps, which are white space in rs. */
  predicate Regapped(ts: seq<Token>, rs: seq<Token>) {
    && |rs| == |ts|
    && forall i | 0 <= i < |ts| :: if ts[i].Blank? then rs[i].Blank? && WhiteRun(rs[i].w) else rs[i] == ts[i]
  }

  lemma Split(a: seq<Token>, b: seq<Token>, rs: seq<Token>) returns (x: seq<Token>, y: seq<Token>)
    requires Regapped(a + b, rs)
    ensures rs == x + y && Regapped(a, x) && Regapped(b, y)
  {
    hide WhiteRun;
    x, y := rs[..|a|], rs[|a|..];
    assert forall i | 0 <= i < |a| :: (a + b)[i] == a[i];
    assert forall i | 0 <= i < |b| :: (a + b)[|a| + i] == b[i] && rs[|a| + i] == y[i];
  }

  lemma SplitBlank(w: bytes, b: seq<Token>, rs: seq<Token>) returns (v: bytes, y: seq<Token>)
    requires Regapped([Blank(w)] + b, rs)
    ensures rs == [Blank(v)] + y && BlankRfc(v) && Regapped(b, y)
  {
    hide WhiteRun, BlankRfc;
    var x;
    x, y := Split([Blank(w)], b, rs);
    assert [Blank(w)][0] == Blank(w);
    v := x[0].w;
    assert x == [Blank(v)];
    WhiteIsBlank(v);
  }

  lemma SplitSame(t: Token, b: seq<Token>, rs: seq<Token>) returns (y: seq<Token>)
    requires Regapped([t] + b, rs) && !t.Blank?
    ensures rs == [t] + y && Regapped(b, y)
  {
    hide WhiteRun;
    var x;
    x, y := Split([t], b, rs);
    assert [t][0] == t && x == [t];
  }

  lemma Same(ts: seq<Token>, rs: seq<Token>)
    requires Regapped(ts, rs) && forall t | t in ts :: !t.Blank?
    ensures rs == ts
  {
    hide WhiteRun;
    assert forall i | 0 <= i < |ts| :: ts[i] in ts;
  }

  lemma {:induction false} MarksOnly(t: bytes)
    ensures forall m | m in Marks(t) :: m.Mark?
    decreases |t|
  {
    if t != [] {
      MarksOnly(t[1..]);
    }
  }

  /** r is a text of the RFC with the value of c, nested no deeper. */
  ghost predicate Kin(c: Cst, r: Cst, depth: nat) {
    Rfc(r) && Denote(r) == Denote(c) && (Within(c, depth) ==> Within(r, depth))
  }

  lemma {:induction false} RegapValue(c: Cst, rs: seq<Token>, depth: nat) returns (r: Cst)
    requires Commented(c) && Regapped(Tokens(c), rs)
    ensures Tokens(r) == rs && Kin(c, r, depth)
    decreases c
  {
    hide Regapped, ElementTokens, FieldTokens, Gap, BlankRfc, PiecesRfc, KeyOf, NumeralText, NumeralValue, Items, Members;
    match c
    case CArray(gap, es) =>
      if es == [] {
        var y := SplitSame(Mark(OPEN_BRACKET), [Blank(gap)] + [Mark(CLOSE_BRACKET)], rs);
        var v, z := SplitBlank(gap, [Mark(CLOSE_BRACKET)], y);
        Same([Mark(CLOSE_BRACKET)], z);
        r := CArray(v, []);
      } else {
        var y := SplitSame(Mark(OPEN_BRACKET), ElementTokens(es), rs);
        var fs := RegapElements(es, y, depth + 1);
        r := CArray([], fs);
        ArrayKin(c, r, depth);
      }
    case CObject(gap, fs) =>
      if fs == [] {
        var y := SplitSame(Mark(OPEN_BRACE), [Blank(gap)] + [Mark(CLOSE_BRACE)], rs);
        var v, z := SplitBlank(gap, [Mark(CLOSE_BRACE)], y);
        Same([Mark(CLOSE_BRACE)], z);
        r := CObject(v, []);
      } else {
        var y := SplitSame(Mark(OPEN_BRACE), FieldTokens(fs), rs);
        var gs := RegapFields(fs, y, depth + 1);
        r := CObject([], gs);
        ObjectKin(c, r, depth);
      }
    case CText(ps) =>
      Same(Tokens(c), rs);
      r := c;
    case _ =>
      MarksOnly(Text(c));
      Same(Tokens(c), rs);
      r := c;
  }

  ghost predicate ElementKin(e: Element, f: Element, depth: nat) {
    BlankRfc(f.before) && Kin(e.value, f.value, depth) && BlankRfc(f.after)
  }

  ghost predicate FieldKin(f: Field, g: Field, depth: nat) {
    && BlankRfc(g.beforeKey) && g.key == f.key && BlankRfc(g.afterKey)
    && BlankRfc(g.before) && Kin(f.value, g.value, depth) && BlankRfc(g.after)
  }

  lemma ArrayKin(c: Cst, r: Cst, depth: nat)
    requires c.CArray? && r.CArray? && r.gap == [] && |r.elements| == |c.elements|
    requires forall i | 0 <= i < |c.elements| :: ElementKin(c.elements[i], r.elements[i], depth + 1)
    ensures Kin(c, r, depth)
  {
    hide BlankRfc, Denote;
    assert BlankRfc([]) by { NoBlank(); }
    forall i | 0 <= i < |c.elements|
      ensures var e := r.elements[i]; BlankRfc(e.before) && Rfc(e.value) && BlankRfc(e.after)
      ensures Denote(r.elements[i].value) == Denote(c.elements[i].value)
      ensures Within(c.elements[i].value, depth + 1) ==> Within(r.elements[i].value, depth + 1)
    {
      assert ElementKin(c.elements[i], r.elements[i], depth + 1);
    }
    SameItems(c, r);
  }

  lemma NoBlank()
    ensures BlankRfc([])
  {
  }

  lemma SameItems(c: Cst, r: Cst)
    requires c.CArray? && r.CArray? && |r.elements| == |c.elements|
    requires forall i | 0 <= i < |c.elements| :: Denote(r.elements[i].value) == Denote(c.elements[i].value)
    ensures Denote(r) == Denote(c)
  {
    assert Items(r.elements) == Items(c.elements);
  }

  lemma ObjectKin(c: Cst, r: Cst, depth: nat)
    requires c.CObject? && r.CObject? && r.gap == [] && |r.fields| == |c.fields|
    requires forall i | 0 <= i < |c.fields| :: FieldCommented(c.fields[i])
    requires forall i | 0 <= i < |c.fields| :: FieldKin(c.fields[i], r.fields[i], depth + 1)
    ensures Kin(c, r, depth)
  {
    hide BlankRfc, Denote, PiecesRfc, Gap, Commented;
    assert BlankRfc([]) by { NoBlank(); }
    forall i | 0 <= i < |c.fields|
      ensures FieldRfc(r.fields[i])
      ensures r.fields[i].key == c.fields[i].key && Denote(r.fields[i].value) == Denote(c.fields[i].value)
      ensures Within(c.fields[i].value, depth + 1) ==> Within(r.fields[i].value, depth + 1)
    {
      assert FieldCommented(c.fields[i]);
      assert FieldKin(c.fields[i], r.fields[i], depth + 1);
    }
    SameMembers(c, r);
  }

  lemma SameMembers(c: Cst, r: Cst)
    requires c.CObject? && r.CObject? && |r.fields| == |c.fields|
    requires forall i | 0 <= i < |c.fields| ::
               r.fields[i].key == c.fields[i].key && Denote(r.fields[i].value) == Denote(c.fields[i].value)
    ensures Denote(r) == Denote(c)
  {
    hide KeyOf;
    assert Members(r.fields) == Members(c.fields);
  }

  lemma {:induction false} RegapElements(es: seq<Element>, rs: seq<Token>, depth: nat) returns (fs: seq<Element>)
    requires es != [] && (forall i | 0 <= i < |es| :: ElementCommented(es[i])) && Regapped(ElementTokens(es), rs)
    ensures |fs| == |es| && ElementTokens(fs) == rs && forall i | 0 <= i < |es| :: ElementKin(es[i], fs[i], depth)
    decreases es
  {
    hide Regapped, Tokens, Gap, BlankRfc, Kin, Commented;
    var e, more := es[0], es[1..];
    assert ElementCommented(e);
    var tail := if |es| == 1 then [Mark(CLOSE_BRACKET)] else [Mark(COMMA)] + ElementTokens(more);
    var before, y := SplitBlank(e.before, Tokens(e.value) + ([Blank(e.after)] + tail), rs);
    var x, z := Split(Tokens(e.value), [Blank(e.after)] + tail, y);
    var v := RegapValue(e.value, x, depth);
    var after, rest := SplitBlank(e.after, tail, z);
    var f := Element(before, v, after);
    if |es| == 1 {
      Same(tail, rest);
      fs := [f];
    } else {
      var u := SplitSame(Mark(COMMA), ElementTokens(more), rest);
      var others := RegapElements(more, u, depth);
      fs := [f] + others;
      assert fs[1..] == others;
    }
  }

  lemma {:induction false} RegapFields(fs: seq<Field>, rs: seq<Token>, depth: nat) returns (gs: seq<Field>)
    requires fs != [] && (forall i | 0 <= i < |fs| :: FieldCommented(fs[i])) && Regapped(FieldTokens(fs), rs)
    ensures |gs| == |fs| && FieldTokens(gs) == rs && forall i | 0 <= i < |fs| :: FieldKin(fs[i], gs[i], depth)
    decreases fs
  {
    hide Regapped, Tokens, Gap, BlankRfc, Kin, Commented, PiecesRfc;
    var f, more := fs[0], fs[1..];
    assert FieldCommented(f);
    var tail := if |fs| == 1 then [Mark(CLOSE_BRACE)] else [Mark(COMMA)] + FieldTokens(more);
    var value := [Blank(f.before)] + (Tokens(f.value) + ([Blank(f.after)] + tail));
    var beforeKey, afterKey, y := RegapKey(f, value, rs);
    var before, y1 := SplitBlank(f.before, Tokens(f.value) + ([Blank(f.after)] + tail), y);
    var x, z := Split(Tokens(f.value), [Blank(f.after)] + tail, y1);
    var v := RegapValue(f.value, x, depth);
    var after, rest := SplitBlank(f.after, tail, z);
    var g := Field(beforeKey, f.key, afterKey, before, v, after);
    if |fs| == 1 {
      Same(tail, rest);
      gs := [g];
    } else {
      var u := SplitSame(Mark(COMMA), FieldTokens(more), rest);
      var others := RegapFields(more, u, depth);
      gs := [g] + others;
      assert gs[1..] == others;
    }
  }

  lemma RegapKey(f: Field, value: seq<Token>, rs: seq<Token>) returns (beforeKey: bytes, afterKey: bytes, y: seq<Token>)
    requires Regapped([Blank(f.beforeKey)] + ([Chars(f.key)] + ([Blank(f.afterKey)] + ([Mark(COLON)] + value))), rs)
    ensures rs == [Blank(beforeKey)] + ([Chars(f.key)] + ([Blank(afterKey)] + ([Mark(COLON)] + y)))
    ensures BlankRfc(beforeKey) && BlankRfc(afterKey) && Regapped(value, y)
  {
    hide Regapped, BlankRfc;
    var a, b, c;
    beforeKey, a := SplitBlank(f.beforeKey, [Chars(f.key)] + ([Blank(f.afterKey)] + ([Mark(COLON)] + value)), rs);
    b := SplitSame(Chars(f.key), [Blank(f.afterKey)] + ([Mark(COLON)] + value), a);
    afterKey, c := SplitBlank(f.afterKey, [Mark(COLON)] + value, b);
    y := SplitSame(Mark(COLON), value, c);
  }

  // ----- documents -----

  /** The scanner drops no byte of a literal and copies no comment. */
  predicate Harmless(d: Document) {
    WideAfter(Outside, DocumentTokens(d)).Some?
  }

  lemma {:induction false} StepsWide(at: Scan, ts: seq<Token>)
    requires After(at, ts).Some?
    ensures WideAfter(at, ts) == After(at, ts)
    decreases |ts|
  {
    hide Step;
    if ts != [] {
      StepWide(at, ts[0]);
      StepsWide(Step(at, ts[0]).value, ts[1..]);
    }
  }

  lemma StepWide(at: Scan, t: Token)
    requires Step(at, t).Some?
    ensures WideStep(at, t) == Step(at, t)
  {
  }

  lemma SyncedHarmless(d: Document)
    requires Synced(d)
    ensures Harmless(d)
  {
    hide DocumentTokens;
    StepsWide(Outside, DocumentTokens(d));
  }

  /** What is left is a document with other white space. */
  lemma DocumentThinned(d: Document) returns (r: Document)
    requires DocumentCommented(d) && Harmless(d)
    ensures BlankRfc(r.before) && BlankRfc(r.after) && Kin(d.value, r.value, 0)
    ensures DocumentText(r) == Minified(DocumentText(d), 0)
  {
    hide Minified, Gap, LastGap, Commented, Tokens, Marks, Text, BlankRfc, Regapped, Kin, Spelled, Left, WideAfter, TokensOk;
    var ts := DocumentTokens(d);
    var mark := Marks(if d.mark then BYTE_ORDER_MARK else []);
    DocumentSpelled(d);
    LeftThinned(Outside, ts);
    var rs := Thinned(Outside, ts);
    ThinnedRegapped(Outside, ts);
    var x, y := Split(mark, [Blank(d.before)] + (Tokens(d.value) + [Blank(d.after)]), rs);
    MarksOnly(if d.mark then BYTE_ORDER_MARK else []);
    Same(mark, x);
    var before, z := SplitBlank(d.before, Tokens(d.value) + [Blank(d.after)], y);
    var u, last := Split(Tokens(d.value), [Blank(d.after)], z);
    var v := RegapValue(d.value, u, 0);
    assert [Blank(d.after)] == [Blank(d.after)] + [];
    var after, none := SplitBlank(d.after, [], last);
    assert none == [] by { Same([], none); }
    r := Document(d.mark, before, v, after);
    assert DocumentTokens(r) == rs;
    KinCommented(d.value, v, 0);
    BlankGap(before);
    BlankGap(after);
    DocumentSpelled(r);
    LeftOutside(DocumentText(d));
  }

  lemma LeftOutside(s: bytes)
    ensures Left(s, Outside) == Minified(s, 0)
  {
  }

  lemma ThinnedRegapped(at: Scan, ts: seq<Token>)
    requires WideAfter(at, ts).Some?
    ensures Regapped(ts, Thinned(at, ts))
  {
    hide WideAfter, WhiteRun;
  }

  lemma KinCommented(c: Cst, r: Cst, depth: nat)
    requires Kin(c, r, depth)
    ensures Commented(r)
  {
    RfcCommented(r);
  }

  /**
    Minifying a JSON text with comments does not change the value it is parsed to, as long as the scanner drops no byte
    of a literal and copies no comment.
   */
  lemma MinifyThenParse(d: Document, requireTerminated: bool)
    requires DocumentCommented(d) && Within(d.value, 0) && Harmless(d)
    ensures Terminated(Minified(DocumentText(d), 0) + [NUL])
    ensures Reader.ReadDocument(Minified(DocumentText(d), 0) + [NUL], requireTerminated) == Some(Denote(d.value))
  {
    hide Minified, DocumentCommented, Rfc, Within, Ok, DocumentText, Harmless, Denote, Reader.ReadDocument, Text;
    var r := DocumentThinned(d);
    RfcIsOk(r.value, 0);
    Rfc8259.Ends(r);
    BlanksOk(r);
    ReaderComplete.DocumentComplete(r, requireTerminated);
  }

  lemma BlanksOk(r: Document)
    requires BlankRfc(r.before) && BlankRfc(r.after)
    ensures Grammar.Blank(r.before) && Grammar.Blank(r.after)
  {
  }
}
