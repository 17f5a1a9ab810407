/** What cJSON_Minify promises: it is idempotent, and what is left of a JSON text denotes the same value. */
module MinifyLaws {
  import opened Bytes
  import opened Utf
  import opened Literal
  import opened Minify

  // ----- idempotence -----

  /** The text s stands at the end of t, from k on. */
  ghost predicate Tail(t: bytes, k: nat, s: bytes) {
    k + |s| == |t| && t[k..] == s
  }

  lemma PeekShift(t: bytes, k: nat, s: bytes, q: nat)
    requires Tail(t, k, s)
    ensures Peek(t, k + q) == Peek(s, q) && k + |s| == |t|
    ensures q < |s| ==> t[k + q] == s[q]
  {
    if q < |s| {
      var from := k + q;
      assert s[q] == t[k..][q] == t[from];
    }
  }

  lemma SliceShift(t: bytes, k: nat, s: bytes, p: nat, e: nat)
    requires Tail(t, k, s) && p <= e <= |s|
    ensures t[k + p..k + e] == s[p..e]
  {
    var from, to := k + p, k + e;
    forall i | 0 <= i < e - p
      ensures t[from..to][i] == s[p..e][i]
    {
      PeekShift(t, k, s, p + i);
    }
  }

  lemma {:induction false} LineEndShift(t: bytes, k: nat, s: bytes, q: nat)
    requires Tail(t, k, s) && q <= |s|
    ensures LineEnd(t, k + q) == k + LineEnd(s, q)
    decreases |s| - q
  {
    PeekShift(t, k, s, q);
    if Peek(s, q) != NUL && s[q] != NEWLINE {
      LineEndShift(t, k, s, q + 1);
    }
  }

  lemma {:induction false} BlockEndShift(t: bytes, k: nat, s: bytes, q: nat)
    requires Tail(t, k, s) && q <= |s|
    ensures BlockEnd(t, k + q) == k + BlockEnd(s, q)
    decreases |s| - q
  {
    PeekShift(t, k, s, q);
    PeekShift(t, k, s, q + 1);
    if Peek(s, q) != NUL && !(s[q] == STAR && Peek(s, q + 1) == SLASH) {
      BlockEndShift(t, k, s, q + 1);
    }
  }

  lemma {:induction false} StringEndShift(t: bytes, k: nat, s: bytes, q: nat)
    requires Tail(t, k, s) && q <= |s|
    ensures StringEnd(t, k + q) == k + StringEnd(s, q)
    decreases |s| - q
  {
    PeekShift(t, k, s, q);
    PeekShift(t, k, s, q + 1);
    if Peek(s, q) != NUL && s[q] != QUOTE {
      StringEndShift(t, k, s, if s[q] == BACKSLASH && Peek(s, q + 1) == QUOTE then q + 2 else q + 1);
    }
  }

  /** What stands in front of the cursor does not matter. */
  lemma {:induction false} MinifiedShift(t: bytes, k: nat, s: bytes, p: nat)
    requires Tail(t, k, s) && p <= |s|
    ensures k + |s| == |t| && Minified(t, k + p) == Minified(s, p)
    decreases |s| - p
  {
    hide Minified, LineEnd, BlockEnd, StringEnd, Peek, Tail, Dropped;
    PeekShift(t, k, s, p);
    PeekShift(t, k, s, p + 1);
    if Peek(s, p) == NUL {
      MinifiedEnd(s, p);
      MinifiedEnd(t, k + p);
    } else {
      PeekInside(s, p);
      MinifiedStep(s, p);
      MinifiedStep(t, k + p);
      if s[p] == SLASH && Peek(s, p + 1) == SLASH {
        LineEndShift(t, k, s, p + 2);
        MinifiedShift(t, k, s, LineEnd(s, p + 2));
      } else if s[p] == SLASH && Peek(s, p + 1) == STAR {
        BlockEndShift(t, k, s, p + 2);
        MinifiedShift(t, k, s, BlockEnd(s, p + 2));
      } else if s[p] == QUOTE {
        StringEndShift(t, k, s, p + 1);
        SliceShift(t, k, s, p, StringEnd(s, p + 1));
        MinifiedShift(t, k, s, StringEnd(s, p + 1));
      } else {
        MinifiedShift(t, k, s, p + 1);
      }
    }
  }

  /** The scan from q on meets a closing quote. */
  predicate Closed(s: bytes, q: nat)
    requires q <= |s|
    decreases |s| - q
  {
    if Peek(s, q) == NUL then false
    else if s[q] == QUOTE then true
    else if s[q] == BACKSLASH && Peek(s, q + 1) == QUOTE then Closed(s, q + 2)
    else Closed(s, q + 1)
  }

  lemma {:induction false} OpenString(s: bytes, q: nat)
    requires q <= |s| && NUL !in s && !Closed(s, q)
    ensures StringEnd(s, q) == |s|
    decreases |s| - q
  {
    if q < |s| {
      OpenString(s, if s[q] == BACKSLASH && Peek(s, q + 1) == QUOTE then q + 2 else q + 1);
    }
  }

  lemma {:induction false} ClosedEnd(s: bytes, q: nat)
    requires q <= |s| && Closed(s, q)
    ensures q < StringEnd(s, q) && s[StringEnd(s, q) - 1] == QUOTE
    decreases |s| - q
  {
    if s[q] != QUOTE {
      ClosedEnd(s, if s[q] == BACKSLASH && Peek(s, q + 1) == QUOTE then q + 2 else q + 1);
    }
  }

  /** A closed string ends at the same quote wherever it stands. */
  lemma {:induction false} SameString(s: bytes, p: nat, q: nat, m: bytes)
    requires p <= q <= |s| && Closed(s, q) && StringEnd(s, q) - p <= |m|
    requires m[..StringEnd(s, q) - p] == s[p..StringEnd(s, q)]
    ensures StringEnd(m, q - p) == StringEnd(s, q) - p
    decreases |s| - q
  {
    ClosedEnd(s, q);
    var e := StringEnd(s, q);
    assert forall k | 0 <= k < e - p :: m[k] == m[..e - p][k] == s[p..e][k] == s[p + k];
    assert m[q - p] == s[q];
    if s[q] != QUOTE {
      var step := if s[q] == BACKSLASH && Peek(s, q + 1) == QUOTE then q + 2 else q + 1;
      ClosedEnd(s, step);
      assert q + 1 < e && m[q + 1 - p] == s[q + 1];
      SameString(s, p, step, m);
    }
  }

  lemma {:induction false} MinifiedTwice(s: bytes, p: nat)
    requires p <= |s| && NUL !in s
    ensures Minified(Minified(s, p), 0) == Minified(s, p)
    decreases |s| - p
  {
    hide Minified, LineEnd, BlockEnd, StringEnd;
    var m := Minified(s, p);
    if p == |s| {
      MinifiedEnd(s, p);
      MinifiedEnd([], 0);
    } else {
      MinifiedStep(s, p);
      if Dropped(s[p]) {
        MinifiedTwice(s, p + 1);
      } else if s[p] == SLASH {
        MinifiedTwice(s, if Peek(s, p + 1) == SLASH then LineEnd(s, p + 2)
                         else if Peek(s, p + 1) == STAR then BlockEnd(s, p + 2) else p + 1);
      } else if s[p] == QUOTE {
        StringTwice(s, p);
        var e := StringEnd(s, p + 1);
        var u, rest := s[p..e], Minified(s, e);
        MinifiedTwice(s, e);
        MinifiedStep(m, 0);
        MinifiedShift(m, |u|, rest, 0);
        assert m[0..|u|] == u;
      } else {
        var rest := Minified(s, p + 1);
        MinifiedTwice(s, p + 1);
        MinifiedStep(m, 0);
        MinifiedShift(m, 1, rest, 0);
      }
    }
  }

  /** The string at the start of the result ends where it was cut off the text. */
  lemma StringTwice(s: bytes, p: nat)
    requires p < |s| && NUL !in s && s[p] == QUOTE
    ensures var e := StringEnd(s, p + 1);
            StringEnd(s[p..e] + Minified(s, e), 1) == e - p
  {
    hide Minified, StringEnd;
    var e := StringEnd(s, p + 1);
    var m := s[p..e] + Minified(s, e);
    if Closed(s, p + 1) {
      assert m[..e - p] == s[p..e];
      SameString(s, p, p + 1, m);
    } else {
      OpenString(s, p + 1);
      MinifiedEnd(s, |s|);
      assert m == s[p..];
      StringEndShift(s, p, m, 1);
    }
  }

  /** cJSON_Minify is idempotent on every C string. */
  lemma Idempotent(s: bytes)
    requires NUL !in s
    ensures Minified(Minified(s, 0), 0) == Minified(s, 0)
  {
    MinifiedTwice(s, 0);
  }

  // ----- JSON with comments -----

  datatype GapItem = White(b: byte) | LineComment(body: bytes) | BlockComment(body: bytes)

  predicate GapItemOk(g: GapItem) {
    match g
    case White(b) => Dropped(b)
    case LineComment(body) => NEWLINE !in body && NUL !in body
    case BlockComment(body) =>
      && NUL !in body
      && forall k | 0 <= k < |body| :: !(body[k] == STAR && (body + [STAR, SLASH])[k + 1] == SLASH)
  }

  function GapItemText(g: GapItem): bytes {
    match g
    case White(b) => [b]
    case LineComment(body) => [SLASH, SLASH] + (body + [NEWLINE])
    case BlockComment(body) => [SLASH, STAR] + (body + [STAR, SLASH])
  }

  predicate GapsOk(gs: seq<GapItem>) {
    forall i | 0 <= i < |gs| :: GapItemOk(gs[i])
  }

  function GapsText(gs: seq<GapItem>): bytes {
    if gs == [] then [] else GapItemText(gs[0]) + GapsText(gs[1..])
  }

  /** White space and comments in any order. */
  ghost predicate Gap(w: bytes) {
    exists gs :: GapsOk(gs) && w == GapsText(gs)
  }

  /** White space and comments; a line comment may end with the text. */
  ghost predicate LastGap(w: bytes) {
    exists g, body :: Gap(g) && GapItemOk(LineComment(body)) && w == g + ([SLASH, SLASH] + body)
  }

  lemma {:induction false} LineSkipped(s: bytes, q: nat, body: bytes, k: nat)
    requires k <= |body| && NEWLINE !in body && NUL !in body && At(s, q, body + [NEWLINE])
    ensures LineEnd(s, q + k) == q + |body| + 1
    decreases |body| - k
  {
    AtIndex(s, q, body + [NEWLINE], k);
    if k < |body| {
      LineSkipped(s, q, body, k + 1);
    }
  }

  lemma {:induction false} BlockSkipped(s: bytes, q: nat, body: bytes, k: nat)
    requires k <= |body| && GapItemOk(BlockComment(body)) && At(s, q, body + [STAR, SLASH])
    ensures BlockEnd(s, q + k) == q + |body| + 2
    decreases |body| - k
  {
    AtIndex(s, q, body + [STAR, SLASH], k);
    AtIndex(s, q, body + [STAR, SLASH], k + 1);
    if k < |body| {
      assert body[k] in body;
      BlockSkipped(s, q, body, k + 1);
    }
  }

  lemma GapItemSkipped(s: bytes, p: nat, g: GapItem)
    requires GapItemOk(g) && At(s, p, GapItemText(g))
    ensures Minified(s, p) == Minified(s, p + |GapItemText(g)|)
  {
    hide Minified, At, LineEnd, BlockEnd;
    AtIndex(s, p, GapItemText(g), 0);
    MinifiedStep(s, p);
    match g
    case White(b) =>
    case LineComment(body) =>
      AtIndex(s, p, GapItemText(g), 1);
      AtConcat(s, p, [SLASH, SLASH], body + [NEWLINE]);
      LineSkipped(s, p + 2, body, 0);
    case BlockComment(body) =>
      AtIndex(s, p, GapItemText(g), 1);
      AtConcat(s, p, [SLASH, STAR], body + [STAR, SLASH]);
      BlockSkipped(s, p + 2, body, 0);
  }

  lemma {:induction false} GapsSkipped(s: bytes, p: nat, gs: seq<GapItem>)
    requires GapsOk(gs) && At(s, p, GapsText(gs))
    ensures Minified(s, p) == Minified(s, p + |GapsText(gs)|)
    decreases |gs|
  {
    hide Minified, At, GapItemOk, GapItemText, GapsOk;
    if gs != [] {
      GapsTail(gs);
      AtConcat(s, p, GapItemText(gs[0]), GapsText(gs[1..]));
      GapItemSkipped(s, p, gs[0]);
      GapsSkipped(s, p + |GapItemText(gs[0])|, gs[1..]);
    }
  }

  lemma GapsTail(gs: seq<GapItem>)
    requires gs != [] && GapsOk(gs)
    ensures GapItemOk(gs[0]) && GapsOk(gs[1..])
  {
    hide GapItemOk;
  }

  lemma GapSkipped(s: bytes, p: nat, w: bytes)
    requires Gap(w) && At(s, p, w)
    ensures p + |w| <= |s| && Minified(s, p) == Minified(s, p + |w|)
  {
    hide Minified, At, GapsOk, GapsText;
    var gs :| GapsOk(gs) && w == GapsText(gs);
    GapsSkipped(s, p, gs);
  }

  lemma {:induction false} OpenLine(s: bytes, q: nat)
    requires q <= |s| && NEWLINE !in s[q..] && NUL !in s[q..]
    ensures LineEnd(s, q) == |s|
    decreases |s| - q
  {
    if q < |s| {
      assert s[q] == s[q..][0];
      assert s[q + 1..] == s[q..][1..];
      OpenLine(s, q + 1);
    }
  }

  /** At the end of the text a line comment needs no line end. */
  lemma LastGapSkipped(w: bytes)
    requires LastGap(w)
    ensures Minified(w, 0) == []
  {
    hide Minified, Gap, LineEnd;
    var g, body :| Gap(g) && GapItemOk(LineComment(body)) && w == g + ([SLASH, SLASH] + body);
    assert w[0..|g|] == g && w[|g| + 2..] == body;
    GapSkipped(w, 0, g);
    MinifiedStep(w, |g|);
    OpenLine(w, |g| + 2);
    MinifiedEnd(w, |w|);
  }

  // ----- string literals -----

  /** The literal ends with an escaped backslash, which minify_string does not recognise. */
  predicate EndsInBackslash(ps: seq<Piece>) {
    ps != [] && ps[|ps| - 1] == Simple(BACKSLASH)
  }

  lemma HexByte(s: bytes, q: nat, h: bytes, k: nat)
    requires ValidHex(h) && At(s, q, h) && k < |h|
    ensures q + k < |s| && s[q + k] != QUOTE && s[q + k] != BACKSLASH && s[q + k] != NUL
  {
    AtIndex(s, q, h, k);
    assert HexDigit(h[k]) >= 0;
  }

  lemma HexStays(s: bytes, q: nat, h: bytes)
    requires |h| == 4 && ValidHex(h) && At(s, q, h)
    ensures q + 4 <= |s| && StringEnd(s, q) == StringEnd(s, q + 4)
  {
    hide StringEnd;
    HexByte(s, q, h, 0);
    HexByte(s, q, h, 1);
    HexByte(s, q, h, 2);
    HexByte(s, q, h, 3);
    StringStep(s, q);
    StringStep(s, q + 1);
    StringStep(s, q + 2);
    StringStep(s, q + 3);
  }

  /** minify_string passes a piece, unless it is an escaped backslash in front of the closing quote. */
  lemma PieceStays(s: bytes, q: nat, piece: Piece)
    requires PieceRfc(piece) && At(s, q, PieceText(piece))
    requires piece == Simple(BACKSLASH) ==> Peek(s, q + 2) != QUOTE
    ensures StringEnd(s, q) == StringEnd(s, q + |PieceText(piece)|)
  {
    hide StringEnd, At;
    AtIndex(s, q, PieceText(piece), 0);
    StringStep(s, q);
    match piece
    case Plain(b) =>
    case Simple(c) =>
      AtIndex(s, q, PieceText(piece), 1);
      StringStep(s, q + 1);
    case Unicode(h) =>
      AtIndex(s, q, PieceText(piece), 1);
      StringStep(s, q + 1);
      AtConcat(s, q, [BACKSLASH, LOWER_U], h);
      HexStays(s, q + 2, h);
    case Pair(high, low) => PairStays(s, q, high, low);
    case Overrun =>
  }

  lemma PairStays(s: bytes, q: nat, high: bytes, low: bytes)
    requires PieceRfc(Pair(high, low)) && At(s, q, PieceText(Pair(high, low)))
    ensures q + 12 <= |s| && StringEnd(s, q) == StringEnd(s, q + 12)
  {
    hide StringEnd, At;
    var mark := [BACKSLASH, LOWER_U];
    assert PieceText(Pair(high, low)) == mark + (high + (mark + low));
    AtParts(s, q, mark, high, mark, low);
    AtIndex(s, q, mark, 0);
    AtIndex(s, q, mark, 1);
    AtIndex(s, q + 6, mark, 0);
    AtIndex(s, q + 6, mark, 1);
    StringStep(s, q);
    StringStep(s, q + 1);
    HexStays(s, q + 2, high);
    StringStep(s, q + 6);
    StringStep(s, q + 7);
    HexStays(s, q + 8, low);
  }

  lemma PieceFirst(s: bytes, q: nat, ps: seq<Piece>)
    requires ps != [] && PiecesRfc(ps) && At(s, q, PiecesText(ps))
    ensures q < |s| && s[q] != QUOTE
  {
    AtIndex(s, q, PiecesText(ps), 0);
  }

  /** Where minify_string takes the end of a literal to be: at its closing quote, or somewhere behind it. */
  lemma {:induction false} PiecesScanned(s: bytes, q: nat, ps: seq<Piece>)
    requires PiecesRfc(ps) && At(s, q, PiecesText(ps)) && NUL !in s
    requires q + |PiecesText(ps)| < |s| && s[q + |PiecesText(ps)|] == QUOTE
    ensures var e := q + |PiecesText(ps)| + 1;
            StringEnd(s, q) == if EndsInBackslash(ps) then StringEnd(s, e) else e
    decreases |ps|
  {
    hide At, StringEnd, PieceText;
    if ps == [] {
      StringStep(s, q);
    } else {
      AtConcat(s, q, PieceText(ps[0]), PiecesText(ps[1..]));
      var next := q + |PieceText(ps[0])|;
      PiecesScanned(s, next, ps[1..]);
      if ps[1..] != [] {
        PieceFirst(s, next, ps[1..]);
        assert ps[1..][|ps| - 2] == ps[|ps| - 1];
      }
      BackslashLength(ps[0]);
      if |ps| == 1 && ps[0] == Simple(BACKSLASH) {
        LastBackslash(s, q);
      } else {
        PieceStays(s, q, ps[0]);
      }
    }
  }

  lemma BackslashLength(p: Piece)
    ensures p == Simple(BACKSLASH) ==> |PieceText(p)| == 2
  {
  }

  lemma LastBackslash(s: bytes, q: nat)
    requires At(s, q, PieceText(Simple(BACKSLASH))) && q + 2 < |s| && s[q + 2] == QUOTE
    ensures StringEnd(s, q) == StringEnd(s, q + 3)
  {
    AtIndex(s, q, [BACKSLASH, BACKSLASH], 0);
    AtIndex(s, q, [BACKSLASH, BACKSLASH], 1);
    StringStep(s, q);
    StringStep(s, q + 1);
  }

  /**
    minify_string finds the end of a literal exactly when the literal does not end in an escaped backslash,
    or nothing follows it.
   */
  lemma LiteralScannedExactly(s: bytes, p: nat, ps: seq<Piece>)
    requires PiecesRfc(ps) && At(s, p, LiteralText(ps)) && NUL !in s
    ensures StringEnd(s, p + 1) == p + |LiteralText(ps)| <==> !EndsInBackslash(ps) || p + |LiteralText(ps)| == |s|
  {
    hide StringEnd;
    LiteralParts(s, p, PiecesText(ps));
    PiecesScanned(s, p + 1, ps);
    var e := p + |LiteralText(ps)|;
    if e == |s| {
      StringStops(s, e);
    } else if EndsInBackslash(ps) {
      StringMoves(s, e);
    }
  }

  lemma StringMoves(s: bytes, q: nat)
    requires q < |s| && NUL !in s
    ensures StringEnd(s, q) > q
  {
  }
}
