/**
  cJSON_Minify as an automaton over the tokens of a JSON text with comments. minify_string does not recognise an
  escaped backslash in front of the closing quote; from there on it takes what lies between literals for the
  inside of a string, and the other way round.
 */
module MinifyScan {
  import opened Bytes
  import opened Utf
  import opened Literal
  import opened Minify
  import opened MinifyLaws

  // ----- tokens -----

  /** A byte outside literals that is always copied, a gap, or a literal. */
  datatype Token = Mark(b: byte) | Blank(w: bytes) | Chars(ps: seq<Piece>)

  predicate Bare(b: byte) {
    !Dropped(b) && b != SLASH && b != QUOTE && b != BACKSLASH && b != NUL
  }

  ghost predicate TokenOk(t: Token, last: bool) {
    match t
    case Mark(b) => Bare(b)
    case Blank(w) => Gap(w) || (last && LastGap(w))
    case Chars(ps) => PiecesRfc(ps)
  }

  /** Only the last gap of a text may end in an open line comment. */
  ghost predicate TokensOk(ts: seq<Token>) {
    forall i | 0 <= i < |ts| :: TokenOk(ts[i], i == |ts| - 1)
  }

  function TokenText(t: Token, gaps: bool): bytes {
    match t
    case Mark(b) => [b]
    case Blank(w) => if gaps then w else []
    case Chars(ps) => LiteralText(ps)
  }

  /** The text of the tokens, with or without the gaps. */
  function Spelled(ts: seq<Token>, gaps: bool): bytes {
    if ts == [] then [] else TokenText(ts[0], gaps) + Spelled(ts[1..], gaps)
  }

  // ----- the automaton -----

  /** Where the scanner takes itself to be; Hidden is inside a string, and a quote that follows is overlooked. */
  datatype Scan = Outside | Inside | Hidden

  function AtQuote(at: Scan): Scan {
    if at.Inside? then Outside else Inside
  }

  /** None when the scanner drops a byte of the piece. */
  function AtPiece(at: Scan, piece: Piece): Option<Scan> {
    if !at.Outside? then Some(if piece == Simple(BACKSLASH) then Hidden else Inside)
    else if piece == Plain(SPACE) || piece == Plain(SLASH) || piece == Simple(SLASH) then None
    else if piece == Simple(QUOTE) then Some(Inside)
    else Some(Outside)
  }

  function AtPieces(at: Scan, ps: seq<Piece>): Option<Scan>
    decreases |ps|
  {
    if ps == [] then Some(at)
    else if AtPiece(at, ps[0]).None? then None
    else AtPieces(AtPiece(at, ps[0]).value, ps[1..])
  }

  /** None when the scanner keeps a byte of a gap or drops a byte of a literal. */
  function Step(at: Scan, t: Token): Option<Scan> {
    match t
    case Mark(_) => Some(if at.Outside? then Outside else Inside)
    case Blank(w) => if at.Outside? || w == [] then Some(at) else None
    case Chars(ps) =>
      var end := AtPieces(AtQuote(at), ps);
      if end.None? then None else Some(AtQuote(end.value))
  }

  function After(at: Scan, ts: seq<Token>): Option<Scan>
    decreases |ts|
  {
    if ts == [] then Some(at)
    else if Step(at, ts[0]).None? then None
    else After(Step(at, ts[0]).value, ts[1..])
  }

  // ----- what is left of a text, by the state of the scanner -----

  function LeftInside(s: bytes): bytes {
    s[..StringEnd(s, 0)] + Minified(s, StringEnd(s, 0))
  }

  function Left(s: bytes, at: Scan): bytes {
    match at
    case Outside => Minified(s, 0)
    case Inside => LeftInside(s)
    case Hidden => if Peek(s, 0) == QUOTE then [QUOTE] + LeftInside(s[1..]) else LeftInside(s)
  }

  lemma Front(t: bytes, r: bytes)
    ensures Tail(t + r, |t|, r) && At(t + r, 0, t)
  {
  }

  lemma OutsideFrom(t: bytes, r: bytes)
    ensures Minified(t + r, |t|) == Left(r, Outside)
  {
    hide Minified;
    Front(t, r);
    MinifiedShift(t + r, |t|, r, 0);
  }

  /** Inside a string the bytes up to where the scan goes on are kept. */
  lemma InsideFrom(t: bytes, r: bytes)
    requires StringEnd(t + r, 0) == StringEnd(t + r, |t|)
    ensures LeftInside(t + r) == t + Left(r, Inside)
  {
    hide Minified, StringEnd, Tail, At;
    var s, e := t + r, StringEnd(r, 0);
    Front(t, r);
    StringEndShift(s, |t|, r, 0);
    MinifiedShift(s, |t|, r, e);
    Joined(t, r, e, Minified(r, e));
  }

  lemma Joined(t: bytes, r: bytes, e: nat, m: bytes)
    requires e <= |r|
    ensures (t + r)[..|t| + e] + m == t + (r[..e] + m)
  {
    assert (t + r)[..|t| + e] == t + r[..e];
  }

  lemma InsideFirst(s: bytes, p: nat)
    requires p < |s| && s[p] == QUOTE
    ensures Minified(s, p) == [QUOTE] + LeftInside(s[p + 1..])
  {
    hide Minified, StringEnd, Tail;
    var r := s[p + 1..];
    var e := StringEnd(r, 0);
    MinifiedStep(s, p);
    assert Tail(s, p + 1, r) by { TailHere(s, p + 1); }
    StringEndShift(s, p + 1, r, 0);
    MinifiedShift(s, p + 1, r, e);
    SliceShift(s, p + 1, r, 0, e);
    assert s[p..p + 1 + e] == [QUOTE] + r[..e];
    assert [QUOTE] + r[..e] + Minified(r, e) == [QUOTE] + (r[..e] + Minified(r, e));
  }

  lemma TailHere(s: bytes, k: nat)
    requires k <= |s|
    ensures Tail(s, k, s[k..])
  {
  }

  /** Outside a string neither white space nor a slash is written first. */
  lemma {:induction false} FirstKept(s: bytes, p: nat)
    requires p <= |s|
    ensures var m := Minified(s, p); m != [] ==> !Dropped(m[0]) && m[0] != SLASH
    decreases |s| - p
  {
    hide Minified, LineEnd, BlockEnd, StringEnd;
    if Peek(s, p) == NUL {
      MinifiedEnd(s, p);
    } else {
      MinifiedStep(s, p);
      if Dropped(s[p]) {
        FirstKept(s, p + 1);
      } else if s[p] == SLASH {
        FirstKept(s, if Peek(s, p + 1) == SLASH then LineEnd(s, p + 2)
                     else if Peek(s, p + 1) == STAR then BlockEnd(s, p + 2) else p + 1);
      }
    }
  }

  // ----- one token outside a string -----

  lemma BareText(t: bytes, r: bytes)
    requires forall i | 0 <= i < |t| :: Bare(t[i]) || t[i] == BACKSLASH
    ensures Minified(t + r, 0) == t + Left(r, Outside)
  {
    hide Minified, Tail;
    Front(t, r);
    BareRun(t + r, t, 0);
    OutsideFrom(t, r);
    assert t[0..] == t;
  }

  lemma {:induction false} BareRun(s: bytes, t: bytes, k: nat)
    requires At(s, 0, t) && k <= |t| && forall i | 0 <= i < |t| :: Bare(t[i]) || t[i] == BACKSLASH
    ensures Minified(s, k) == t[k..] + Minified(s, |t|)
    decreases |t| - k
  {
    hide Minified, At;
    if k == |t| {
      assert t[k..] + Minified(s, |t|) == Minified(s, |t|);
    } else {
      AtIndex(s, 0, t, k);
      MinifiedStep(s, k);
      BareRun(s, t, k + 1);
      assert t[k..] == [t[k]] + t[k + 1..];
      assert [t[k]] + (t[k + 1..] + Minified(s, |t|)) == [t[k]] + t[k + 1..] + Minified(s, |t|);
    }
  }

  lemma BarePiece(piece: Piece)
    requires PieceRfc(piece) && piece != Plain(SPACE) && piece != Plain(SLASH)
    requires piece != Simple(SLASH) && piece != Simple(QUOTE)
    ensures forall i | 0 <= i < |PieceText(piece)| :: Bare(PieceText(piece)[i]) || PieceText(piece)[i] == BACKSLASH
  {
    match piece
    case Plain(b) =>
    case Simple(c) =>
    case Unicode(h) => BareHex(h);
    case Pair(high, low) => BareHex(high); BareHex(low);
    case Overrun =>
  }

  lemma BareHex(h: bytes)
    requires ValidHex(h)
    ensures forall i | 0 <= i < |h| :: Bare(h[i])
  {
    forall i | 0 <= i < |h|
      ensures Bare(h[i])
    {
      assert HexDigit(h[i]) >= 0;
    }
  }

  /** A dropped byte of a literal is missed at once. */
  lemma OutsidePiece(piece: Piece, r: bytes, rest: bytes)
    requires PieceRfc(piece)
    ensures var t, next := PieceText(piece), AtPiece(Outside, piece);
            if next.Some? then Left(t + r, Outside) == t + Left(r, next.value) else Left(t + r, Outside) != t + rest
  {
    hide Minified, LeftInside, LineEnd, BlockEnd;
    var t := PieceText(piece);
    var s := t + r;
    if piece == Plain(SPACE) || piece == Plain(SLASH) {
      FirstKept(s, 0);
      assert (t + rest)[0] == t[0];
    } else if piece == Simple(SLASH) {
      MinifiedStep(s, 0);
      FirstKept(s, 1);
      assert (t + rest)[1] == SLASH;
      assert Minified(s, 0)[1..] == Minified(s, 1);
    } else if piece == Simple(QUOTE) {
      MinifiedStep(s, 0);
      InsideFirst(s, 1);
      assert s[2..] == r;
      assert [BACKSLASH] + ([QUOTE] + LeftInside(r)) == t + LeftInside(r);
    } else {
      BarePiece(piece);
      BareText(t, r);
    }
  }

  // ----- one token inside a string -----

  lemma InsideByte(b: byte, r: bytes)
    requires b != NUL && b != QUOTE && b != BACKSLASH
    ensures LeftInside([b] + r) == [b] + Left(r, Inside)
  {
    hide Minified, StringEnd, LeftInside;
    StringStep([b] + r, 0);
    InsideFrom([b], r);
  }

  lemma InsideQuote(r: bytes)
    ensures LeftInside([QUOTE] + r) == [QUOTE] + Left(r, Outside)
  {
    hide Minified, StringEnd;
    StringStep([QUOTE] + r, 0);
    OutsideFrom([QUOTE], r);
  }

  lemma InsidePiece(piece: Piece, r: bytes)
    requires PieceRfc(piece)
    ensures var t := PieceText(piece);
            LeftInside(t + r) == t + Left(r, if piece == Simple(BACKSLASH) then Hidden else Inside)
  {
    hide Minified, StringEnd, LeftInside, PieceRfc;
    var t := PieceText(piece);
    var s := t + r;
    Front(t, r);
    if piece == Simple(BACKSLASH) && Peek(r, 0) == QUOTE {
      PeekShift(s, 2, r, 0);
      LastBackslash(s, 0);
      assert r == [QUOTE] + r[1..];
      assert s == (t + [QUOTE]) + r[1..];
      InsideFrom(t + [QUOTE], r[1..]);
      assert (t + [QUOTE]) + LeftInside(r[1..]) == t + ([QUOTE] + LeftInside(r[1..]));
    } else {
      PeekShift(s, |t|, r, 0);
      BackslashLength(piece);
      PieceStays(s, 0, piece);
      InsideFrom(t, r);
    }
  }

  lemma FirstCopied(s: bytes)
    requires s != [] && s[0] != NUL
    ensures LeftInside(s) != [] && LeftInside(s)[0] == s[0]
  {
    hide Minified;
  }

  /** A gap starts with white space or a slash. */
  lemma GapFirst(w: bytes)
    requires w != [] && (Gap(w) || LastGap(w))
    ensures Dropped(w[0]) || w[0] == SLASH
  {
    hide GapsText;
    if Gap(w) {
      var gs :| GapsOk(gs) && w == GapsText(gs);
      GapsFirst(gs);
    } else {
      var g, body :| Gap(g) && GapItemOk(LineComment(body)) && w == g + ([SLASH, SLASH] + body);
      var gs :| GapsOk(gs) && g == GapsText(gs);
      GapsFirst(gs);
    }
  }

  lemma GapsFirst(gs: seq<GapItem>)
    requires GapsOk(gs)
    ensures GapsText(gs) == [] || Dropped(GapsText(gs)[0]) || GapsText(gs)[0] == SLASH
  {
  }

  /** Without its gaps a text does not start with white space or a slash. */
  lemma {:induction false} FirstSpelled(ts: seq<Token>)
    requires TokensOk(ts)
    ensures var k := Spelled(ts, false); k != [] ==> !Dropped(k[0]) && k[0] != SLASH
    decreases |ts|
  {
    if ts != [] {
      FirstSpelled(ts[1..]);
    }
  }

  lemma Cancel(t: bytes, x: bytes, y: bytes)
    ensures t + x == t + y <==> x == y
  {
    assert (t + x)[|t|..] == x && (t + y)[|t|..] == y;
  }

  // ----- whole texts -----

  /** As long as the automaton goes on the pieces are kept; where it stops a byte of them is missing. */
  lemma {:induction false} PiecesLeft(at: Scan, ps: seq<Piece>, r: bytes, rest: bytes)
    requires PiecesRfc(ps)
    ensures var t, next := PiecesText(ps), AtPieces(at, ps);
            if next.Some? then Left(t + r, at) == t + Left(r, next.value) else Left(t + r, at) != t + rest
    decreases |ps|
  {
    hide Left, PieceText;
    if ps == [] {
      assert [] + r == r && [] + Left(r, at) == Left(r, at);
    } else {
      var t, more := PieceText(ps[0]), PiecesText(ps[1..]);
      assert (t + more) + r == t + (more + r) && (t + more) + rest == t + (more + rest);
      PieceLeft(at, ps[0], more + r, more + rest);
      var next := AtPiece(at, ps[0]);
      if next.Some? {
        PiecesLeft(next.value, ps[1..], r, rest);
        var end := AtPieces(next.value, ps[1..]);
        Cancel(t, Left(more + r, next.value), more + rest);
        if end.Some? {
          assert t + (more + Left(r, end.value)) == (t + more) + Left(r, end.value);
        }
      }
    }
  }

  lemma PieceLeft(at: Scan, piece: Piece, r: bytes, rest: bytes)
    requires PieceRfc(piece)
    ensures var t, next := PieceText(piece), AtPiece(at, piece);
            if next.Some? then Left(t + r, at) == t + Left(r, next.value) else Left(t + r, at) != t + rest
  {
    hide LeftInside, Minified;
    if at.Outside? {
      OutsidePiece(piece, r, rest);
    } else {
      PieceOpens(piece, r);
      InsidePiece(piece, r);
    }
  }

  lemma PieceOpens(piece: Piece, r: bytes)
    requires PieceRfc(piece)
    ensures Peek(PieceText(piece) + r, 0) != QUOTE
  {
  }

  lemma QuoteLeft(at: Scan, r: bytes)
    ensures Left([QUOTE] + r, at) == [QUOTE] + Left(r, AtQuote(at))
  {
    hide LeftInside, Minified;
    assert ([QUOTE] + r)[1..] == r;
    match at
    case Outside => InsideFirst([QUOTE] + r, 0);
    case Inside => InsideQuote(r);
    case Hidden =>
  }

  lemma LiteralLeft(at: Scan, ps: seq<Piece>, r: bytes, rest: bytes)
    requires PiecesRfc(ps)
    ensures var t, next := LiteralText(ps), Step(at, Chars(ps));
            if next.Some? then Left(t + r, at) == t + Left(r, next.value) else Left(t + r, at) != t + rest
  {
    hide Left, PiecesText, AtPieces;
    var t, end := PiecesText(ps), AtPieces(AtQuote(at), ps);
    assert LiteralText(ps) + r == [QUOTE] + (t + ([QUOTE] + r));
    assert LiteralText(ps) + rest == [QUOTE] + (t + ([QUOTE] + rest));
    QuoteLeft(at, t + ([QUOTE] + r));
    PiecesLeft(AtQuote(at), ps, [QUOTE] + r, [QUOTE] + rest);
    if end.Some? {
      QuoteLeft(end.value, r);
      var l := Left(r, AtQuote(end.value));
      assert [QUOTE] + (t + ([QUOTE] + l)) == LiteralText(ps) + l;
    } else {
      Cancel([QUOTE], Left(t + ([QUOTE] + r), AtQuote(at)), t + ([QUOTE] + rest));
    }
  }

  lemma MarkLeft(at: Scan, b: byte, r: bytes)
    requires Bare(b)
    ensures Left([b] + r, at) == [b] + Left(r, if at.Outside? then Outside else Inside)
  {
    hide LeftInside, Minified;
    if at.Outside? {
      BareText([b], r);
    } else {
      InsideByte(b, r);
    }
  }

  lemma BlankLeft(at: Scan, w: bytes, ts: seq<Token>)
    requires TokensOk([Blank(w)] + ts)
    ensures var r, next := Spelled(ts, true), Step(at, Blank(w));
            if next.Some? then Left(w + r, at) == Left(r, next.value) else Left(w + r, at) != Spelled(ts, false)
  {
    hide LeftInside, Minified, Gap, LastGap, Spelled;
    var r := Spelled(ts, true);
    assert TokenOk(([Blank(w)] + ts)[0], ts == []);
    if w == [] {
      assert w + r == r;
    } else if at.Outside? {
      if Gap(w) {
        Front(w, r);
        GapSkipped(w + r, 0, w);
        OutsideFrom(w, r);
      } else {
        assert r == [] by { Nothing(true); }
        assert w + r == w;
        LastGapSkipped(w);
        MinifiedEnd([], 0);
      }
    } else {
      GapFirst(w);
      FirstCopied(w + r);
      TokensTail([Blank(w)] + ts);
      assert ([Blank(w)] + ts)[1..] == ts;
      FirstSpelled(ts);
    }
  }

  lemma Nothing(gaps: bool)
    ensures Spelled([], gaps) == []
  {
  }

  lemma TokensTail(ts: seq<Token>)
    requires ts != [] && TokensOk(ts)
    ensures TokensOk(ts[1..]) && TokenOk(ts[0], |ts| == 1)
  {
    hide TokenOk;
  }

  /** The text left is the text without its gaps exactly when the automaton reaches the end. */
  lemma {:induction false} LeftExactly(at: Scan, ts: seq<Token>)
    requires TokensOk(ts)
    ensures Left(Spelled(ts, true), at) == Spelled(ts, false) <==> After(at, ts).Some?
    decreases |ts|
  {
    hide Left, Step, LiteralText, TokensOk, TokenOk;
    if ts == [] {
      NothingLeft(at);
    } else {
      var r, k := Spelled(ts[1..], true), Spelled(ts[1..], false);
      var next := Step(at, ts[0]);
      TokensTail(ts);
      TokenLeft(at, ts);
      if next.Some? {
        LeftExactly(next.value, ts[1..]);
        Cancel(TokenText(ts[0], false), Left(r, next.value), k);
      }
    }
  }

  lemma NothingLeft(at: Scan)
    ensures Left([], at) == []
  {
  }

  lemma TokenLeft(at: Scan, ts: seq<Token>)
    requires ts != [] && TokensOk(ts)
    ensures var next, l := Step(at, ts[0]), Left(Spelled(ts, true), at);
            if next.Some? then l == TokenText(ts[0], false) + Left(Spelled(ts[1..], true), next.value)
            else l != Spelled(ts, false)
  {
    hide Left, Step, LiteralText, PiecesRfc, Gap, LastGap;
    var r, k := Spelled(ts[1..], true), Spelled(ts[1..], false);
    assert TokenOk(ts[0], |ts| == 1);
    match ts[0]
    case Mark(b) =>
      MarkLeft(at, b, r);
      MarkSteps(at, b);
    case Blank(w) =>
      assert [Blank(w)] + ts[1..] == ts;
      BlankLeft(at, w, ts[1..]);
      assert Spelled(ts, false) == k;
    case Chars(ps) => LiteralLeft(at, ps, r, k);
  }

  lemma MarkSteps(at: Scan, b: byte)
    ensures Step(at, Mark(b)) == Some(if at.Outside? then Outside else Inside)
  {
  }

  // ----- without escaped backslashes at the end -----

  /** Read from its opening quote, a literal misleads the scanner only by an escaped backslash at its end. */
  lemma {:induction false} PiecesInside(at: Scan, ps: seq<Piece>)
    requires !at.Outside?
    ensures AtPieces(at, ps) == Some(if ps == [] then at else if EndsInBackslash(ps) then Hidden else Inside)
    decreases |ps|
  {
    if ps != [] {
      PiecesInside(AtPiece(at, ps[0]).value, ps[1..]);
      if |ps| > 1 {
        assert ps[1..][|ps| - 2] == ps[|ps| - 1];
      }
    }
  }

  lemma {:induction false} InStep(ts: seq<Token>)
    requires forall i | 0 <= i < |ts| :: ts[i].Chars? ==> !EndsInBackslash(ts[i].ps)
    ensures After(Outside, ts) == Some(Outside)
    decreases |ts|
  {
    hide EndsInBackslash;
    if ts != [] {
      if ts[0].Chars? {
        PiecesInside(Inside, ts[0].ps);
      }
      InStep(ts[1..]);
    }
  }

  // ----- white space that is copied -----

  predicate WhiteRun(w: bytes) {
    forall i | 0 <= i < |w| :: Dropped(w[i])
  }

  /** As Step, but the scanner may keep white space: None when it keeps a comment or drops a byte of a literal. */
  function WideStep(at: Scan, t: Token): Option<Scan> {
    if t.Blank? && !at.Outside? && t.w != [] then (if WhiteRun(t.w) then Some(Inside) else None) else Step(at, t)
  }

  function WideAfter(at: Scan, ts: seq<Token>): Option<Scan>
    decreases |ts|
  {
    if ts == [] then Some(at)
    else if WideStep(at, ts[0]).None? then None
    else WideAfter(WideStep(at, ts[0]).value, ts[1..])
  }

  /** The tokens as the scanner leaves them: the gaps it meets outside of strings are empty. */
  function Thinned(at: Scan, ts: seq<Token>): (r: seq<Token>)
    requires WideAfter(at, ts).Some?
    ensures |r| == |ts|
    ensures forall i | 0 <= i < |ts| :: if ts[i].Blank? then r[i].Blank? && WhiteRun(r[i].w) else r[i] == ts[i]
    decreases |ts|
  {
    if ts == [] then []
    else
      [if ts[0].Blank? && at.Outside? then Blank([]) else ts[0]] + Thinned(WideStep(at, ts[0]).value, ts[1..])
  }

  lemma {:induction false} WhiteInside(w: bytes, r: bytes)
    requires WhiteRun(w)
    ensures LeftInside(w + r) == w + LeftInside(r)
    decreases |w|
  {
    hide LeftInside;
    if w == [] {
      assert w + r == r && w + LeftInside(r) == LeftInside(r);
    } else {
      assert w + r == [w[0]] + (w[1..] + r);
      InsideByte(w[0], w[1..] + r);
      WhiteInside(w[1..], r);
      assert [w[0]] + (w[1..] + LeftInside(r)) == w + LeftInside(r);
    }
  }

  lemma WhiteLeft(at: Scan, w: bytes, r: bytes)
    requires WhiteRun(w) && w != [] && !at.Outside?
    ensures Left(w + r, at) == w + Left(r, Inside)
  {
    hide LeftInside;
    WhiteInside(w, r);
  }

  /** As long as the wide automaton goes on, the text left is that of the thinned tokens. */
  lemma {:induction false} LeftThinned(at: Scan, ts: seq<Token>)
    requires TokensOk(ts) && WideAfter(at, ts).Some?
    ensures Left(Spelled(ts, true), at) == Spelled(Thinned(at, ts), true)
    decreases |ts|
  {
    hide Left, Step, WhiteRun, TokensOk, TokenOk, LiteralText;
    if ts == [] {
      NothingLeft(at);
    } else {
      var r := Spelled(ts[1..], true);
      var next := WideStep(at, ts[0]).value;
      TokensTail(ts);
      LeftThinned(next, ts[1..]);
      assert Thinned(at, ts)[1..] == Thinned(next, ts[1..]);
      if ts[0].Blank? && !at.Outside? && ts[0].w != [] {
        WhiteLeft(at, ts[0].w, r);
      } else {
        TokenLeft(at, ts);
        ThinnedFirst(at, ts[0]);
      }
    }
  }

  lemma ThinnedFirst(at: Scan, t: Token)
    requires !(t.Blank? && !at.Outside? && t.w != [])
    ensures TokenText(if t.Blank? && at.Outside? then Blank([]) else t, true) == TokenText(t, false)
  {
  }
}
