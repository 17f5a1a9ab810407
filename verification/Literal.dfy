/**
  String literals (parse_string). The source reads a literal twice: a sizing scan finds the closing quote
  and counts escapes, a decoding loop then writes the text. Both are specified here, together with the
  syntax of the literals they accept; the two passes may disagree on where escapes start.
 */
module Literal {
  import opened Bytes
  import opened Utf

  // ----- first pass -----

  /** Where the sizing scan that starts at p finds the closing quote. */
  function ScanEnd(s: bytes, p: nat): (r: Option<nat>)
    requires p <= |s|
    ensures r.Some? ==> p <= r.value < |s| && s[r.value] == QUOTE
    decreases |s| - p
  {
    if p == |s| then None
    else if s[p] == QUOTE then Some(p)
    else if s[p] == BACKSLASH then
      if p + 1 >= |s| then None else ScanEnd(s, p + 2)
    else ScanEnd(s, p + 1)
  }

  /** Number of escapes the sizing scan that starts at a sees begin in front of p. */
  ghost function Escapes(s: bytes, a: nat, p: nat): nat
    decreases p - a
  {
    if a >= p || a >= |s| then 0
    else if s[a] == BACKSLASH then 1 + Escapes(s, a + 2, p)
    else Escapes(s, a + 1, p)
  }

  /** The first position from p on at which that scan looks for an escape. */
  ghost function Boundary(s: bytes, a: nat, p: nat): (b: nat)
    requires p <= |s|
    ensures a <= p ==> p <= b <= p + 1
    ensures a <= p && b == p + 1 ==> a < p
    decreases p - a
  {
    if a >= p then a
    else if s[a] == BACKSLASH then Boundary(s, a + 2, p)
    else Boundary(s, a + 1, p)
  }

  lemma EscapesSplit(s: bytes, a: nat, p: nat, q: nat)
    requires p <= q && p <= |s|
    ensures Escapes(s, a, q) == Escapes(s, a, p) + Escapes(s, Boundary(s, a, p), q)
    decreases p - a
  {
    if a < p {
      EscapesSplit(s, if s[a] == BACKSLASH then a + 2 else a + 1, p, q);
    }
  }

  /** At most every other byte starts an escape. */
  lemma EscapesBound(s: bytes, a: nat, p: nat)
    ensures a <= p ==> 2 * Escapes(s, a, p) <= p - a + 1
    decreases p - a
  {
    if a < p && a < |s| {
      EscapesBound(s, if s[a] == BACKSLASH then a + 2 else a + 1, p);
    }
  }

  // ----- second pass -----

  /** What the escape backslash-c stands for, or -1. */
  function SimpleEscape(c: byte): (r: int)
    ensures -1 <= r < 256
  {
    if c == LOWER_B then 0x08
    else if c == LOWER_F then 0x0C
    else if c == LOWER_N then NEWLINE
    else if c == LOWER_R then CARRIAGE
    else if c == LOWER_T then TAB
    else if c == QUOTE || c == BACKSLASH || c == SLASH then c
    else -1
  }

  function Prepend(a: bytes, r: Option<bytes>): Option<bytes> {
    if r.None? then None else Some(a + r.value)
  }

  lemma PrependNothing(r: Option<bytes>)
    ensures Prepend([], r) == r
  {
    if r.Some? {
      assert [] + r.value == r.value;
    }
  }

  lemma PrependFailure(a: bytes)
    ensures Prepend(a, None) == None
  {
  }

  lemma PrependSuccess(a: bytes)
    ensures Prepend(a, Some([])) == Some(a)
  {
    assert a + [] == a;
  }

  lemma PrependTwice(a: bytes, b: bytes, r: Option<bytes>)
    ensures Prepend(a, Prepend(b, r)) == Prepend(a + b, r)
  {
    if r.Some? {
      assert a + (b + r.value) == a + b + r.value;
    }
  }

  /** The bytes the decoding loop writes from position p on, when the sizing scan stopped at end. */
  ghost function Decode(s: bytes, p: nat, end: nat): Option<bytes>
    requires end < |s|
    decreases end - p
  {
    if p >= end then Some([])
    else if s[p] != BACKSLASH then Prepend([s[p]], Decode(s, p + 1, end))
    else if s[p + 1] == LOWER_U then
      var e := ReadEscape(s, p, end);
      if e.None? then None
      else Prepend(Utf8Encode(e.value.codepoint), Decode(s, p + e.value.length, end))
    else if SimpleEscape(s[p + 1]) >= 0 then Prepend([SimpleEscape(s[p + 1])], Decode(s, p + 2, end))
    else None
  }

  lemma DecodeDone(s: bytes, p: nat, end: nat)
    requires end <= p && end < |s|
    ensures Decode(s, p, end) == Some([])
  {
  }

  lemma DecodeRaw(s: bytes, p: nat, end: nat)
    requires p < end < |s| && s[p] != BACKSLASH
    ensures Decode(s, p, end) == Prepend([s[p]], Decode(s, p + 1, end))
  {
  }

  lemma DecodeSimple(s: bytes, p: nat, end: nat)
    requires p < end < |s| && s[p] == BACKSLASH && s[p + 1] != LOWER_U
    ensures SimpleEscape(s[p + 1]) >= 0 ==>
              Decode(s, p, end) == Prepend([SimpleEscape(s[p + 1])], Decode(s, p + 2, end))
    ensures SimpleEscape(s[p + 1]) < 0 ==> Decode(s, p, end) == None
  {
  }

  lemma DecodeUnicode(s: bytes, p: nat, end: nat)
    requires p < end < |s| && s[p] == BACKSLASH && s[p + 1] == LOWER_U
    ensures ReadEscape(s, p, end).None? ==> Decode(s, p, end) == None
    ensures ReadEscape(s, p, end).Some? ==>
              var e := ReadEscape(s, p, end).value;
              Decode(s, p, end) == Prepend(Utf8Encode(e.codepoint), Decode(s, p + e.length, end))
  {
  }

  /** A string literal read at off: its C string and the offset behind the closing quote. */
  datatype Read = Read(text: bytes, next: nat)

  ghost function ReadLiteral(s: bytes, off: nat): (r: Option<Read>)
    requires off < |s|
    ensures r.Some? ==> off + 1 < r.value.next <= |s|
  {
    if s[off] != QUOTE then None
    else
      var end := ScanEnd(s, off + 1);
      if end.None? then None
      else
        var text := Decode(s, off + 1, end.value);
        if text.None? then None else Some(Read(CString(text.value), end.value + 1))
  }

  // ----- the two passes of the source -----

  method FindLiteralEnd(content: bytes, start: nat) returns (ok: bool, end: nat, skipped: nat)
    requires start <= |content|
    ensures ok <==> ScanEnd(content, start).Some?
    ensures ok ==> Some(end) == ScanEnd(content, start) && skipped == Escapes(content, start, end)
  {
    end, skipped := start, 0;
    ghost var close := ScanEnd(content, start);
    while end < |content| && content[end] != QUOTE
      invariant start <= end <= |content|
      invariant ScanEnd(content, end) == close
      invariant close.Some? ==> Escapes(content, start, close.value) == skipped + Escapes(content, end, close.value)
    {
      if content[end] == BACKSLASH {
        if end + 1 >= |content| {
          return false, end, skipped;
        }
        skipped := skipped + 1;
        end := end + 1;
      }
      end := end + 1;
    }
    ok := end < |content|;
  }

  /** Escapes of the sizing scan between two read cursors of the decoding loop. */
  lemma EscapesBetween(s: bytes, start: nat, p: nat, q: nat)
    requires start <= p <= q <= |s|
    ensures Escapes(s, start, p) <= Escapes(s, start, q)
    ensures 2 * (Escapes(s, start, q) - Escapes(s, start, p)) <= q - p + 1
    ensures q == p + 1 && s[p] != BACKSLASH ==> Escapes(s, start, q) == Escapes(s, start, p)
  {
    EscapesSplit(s, start, p, q);
    if Boundary(s, start, p) <= q {
      EscapesBound(s, Boundary(s, start, p), q);
    }
  }

  /**
    The decoding loop writes into a block of the size the first scan asked for. Every store is in bounds
    for every input, although a malformed \u escape can make the loop disagree with the scan on where
    escapes start and even step over the closing quote.
   */
  method DecodeLiteral(content: bytes, start: nat, end: nat, skipped: nat)
    returns (ok: bool, text: bytes, stop: nat)
    requires 0 < start <= |content| && ScanEnd(content, start) == Some(end) && skipped == Escapes(content, start, end)
    ensures ok <==> Decode(content, start, end).Some?
    ensures ok ==> text == CString(Decode(content, start, end).value)
    ensures start <= stop <= end + 1
  {
    hide ReadEscape, ScanEnd, Escapes, Decode, Prepend, Utf8Encode;
    EscapesBetween(content, start, start, end);
    assert Escapes(content, start, start) == 0 by { EscapesBound(content, start, start); }
    var allocationLength := end - (start - 1) - skipped;
    var output := new byte[allocationLength + 1];
    var p, out := start, 0;
    PrependNothing(Decode(content, start, end));
    assert output[..0] == [];
    while p < end
      invariant start <= p <= end + 1
      invariant out + Escapes(content, start, p) <= p - start
      invariant 0 <= out <= output.Length
      invariant Decode(content, start, end) == Prepend(output[..out], Decode(content, p, end))
    {
      ghost var before, chunk, from := output[..out], [], p;
      EscapesBetween(content, start, p, end);
      if content[p] != BACKSLASH {
        DecodeRaw(content, p, end);
        EscapesBetween(content, start, p, p + 1);
        chunk := [content[p]];
        output[out] := content[p];
        out, p := out + 1, p + 1;
      } else if content[p + 1] == LOWER_U {
        DecodeUnicode(content, p, end);
        chunk := if ReadEscape(content, p, end).Some? then Utf8Encode(ReadEscape(content, p, end).value.codepoint) else [];
        var length;
        length, out := Utf16LiteralToUtf8(content, p, end, output, out);
        if length == 0 {
          PrependFailure(before);
          return false, [], p;
        }
        EscapesBetween(content, start, p, p + length);
        p := p + length;
      } else {
        DecodeSimple(content, p, end);
        if SimpleEscape(content[p + 1]) < 0 {
          PrependFailure(before);
          return false, [], p;
        }
        EscapesBetween(content, start, p, p + 2);
        chunk := [SimpleEscape(content[p + 1])];
        output[out] := SimpleEscape(content[p + 1]);
        out, p := out + 1, p + 2;
      }
      assert output[..out] == before + chunk;
      PrependTwice(before, chunk, Decode(content, p, end));
    }
    DecodeDone(content, p, end);
    PrependSuccess(output[..out]);
    EscapesBetween(content, start, end, p);
    output[out] := NUL;
    CStringPrefix(output[..out + 1], output[..out]);
    return true, CString(output[..out + 1]), p;
  }

  lemma {:induction false} CStringPrefix(s: bytes, t: bytes)
    requires s == t + [NUL]
    ensures CString(s) == CString(t)
  {
    if t != [] && t[0] != NUL {
      assert s[1..] == t[1..] + [NUL];
      CStringPrefix(s[1..], t[1..]);
    }
  }

  // ----- syntax of literals -----

  /**
    One step of the decoding loop. A Unicode piece holds any four bytes that do not read as a surrogate
    (malformed ones read as 0). Overrun is a last backslash that the decoder pairs with the closing quote.
   */
  datatype Piece = Plain(b: byte) | Simple(c: byte) | Unicode(q: bytes) | Pair(high: bytes, low: bytes) | Overrun

  predicate PieceOk(p: Piece) {
    match p
    case Plain(b) => b != BACKSLASH
    case Simple(c) => SimpleEscape(c) >= 0
    case Unicode(q) => |q| == 4 && !HighSurrogate(Hex4(q)) && !LowSurrogate(Hex4(q))
    case Pair(high, low) => |high| == |low| == 4 && HighSurrogate(Hex4(high)) && LowSurrogate(Hex4(low))
    case Overrun => true
  }

  function PieceText(p: Piece): (t: bytes)
    ensures |t| >= 1
  {
    match p
    case Plain(b) => [b]
    case Simple(c) => [BACKSLASH, c]
    case Unicode(q) => [BACKSLASH, LOWER_U] + q
    case Pair(high, low) => [BACKSLASH, LOWER_U] + high + [BACKSLASH, LOWER_U] + low
    case Overrun => [BACKSLASH]
  }

  function PieceBytes(p: Piece): bytes
    requires PieceOk(p)
  {
    match p
    case Plain(b) => [b]
    case Simple(c) => [SimpleEscape(c)]
    case Unicode(q) => Hex4Digits(q); Utf8Encode(Hex4(q))
    case Pair(high, low) => Utf8Encode(Combine(Hex4(high), Hex4(low)))
    case Overrun => [QUOTE]
  }

  predicate PiecesOk(ps: seq<Piece>) {
    ps == [] || (PieceOk(ps[0]) && (ps[0].Overrun? ==> |ps| == 1) && PiecesOk(ps[1..]))
  }

  function PiecesText(ps: seq<Piece>): bytes {
    if ps == [] then [] else PieceText(ps[0]) + PiecesText(ps[1..])
  }

  function PiecesBytes(ps: seq<Piece>): bytes
    requires PiecesOk(ps)
  {
    if ps == [] then [] else PieceBytes(ps[0]) + PiecesBytes(ps[1..])
  }

  /** The sizing scan takes the quote behind body for the closing one. */
  ghost predicate ScansWhole(body: bytes) {
    ScanEnd(body + [QUOTE], 0) == Some(|body|)
  }

  ghost predicate LiteralOk(ps: seq<Piece>) {
    PiecesOk(ps) && ScansWhole(PiecesText(ps))
  }

  function LiteralText(ps: seq<Piece>): bytes {
    [QUOTE] + PiecesText(ps) + [QUOTE]
  }

  function LiteralValue(ps: seq<Piece>): bytes
    requires PiecesOk(ps)
  {
    CString(PiecesBytes(ps))
  }

  // ----- reading accepts exactly this syntax -----

  lemma {:induction false} ScanLocal(s: bytes, p: nat, body: bytes, k: nat)
    requires k <= |body| + 1 && At(s, p, body + [QUOTE])
    ensures ScanEnd(body + [QUOTE], k) == Some(|body|) <==> ScanEnd(s, p + k) == Some(p + |body|)
    decreases |body| - k
  {
    if k <= |body| {
      AtIndex(s, p, body + [QUOTE], k);
      if s[p + k] == BACKSLASH {
        if k < |body| {
          ScanLocal(s, p, body, k + 2);
        }
      } else if s[p + k] != QUOTE {
        ScanLocal(s, p, body, k + 1);
      }
    }
  }

  lemma ReadsUnicode(s: bytes, p: nat, end: nat, q: bytes)
    requires PieceOk(Unicode(q)) && At(s, p, PieceText(Unicode(q))) && p + 6 <= end <= |s|
    ensures s[p + 1] == LOWER_U && ReadEscape(s, p, end) == Some(Escape(Hex4(q), 6))
  {
    hide Hex4;
    var t := PieceText(Unicode(q));
    AtIndex(s, p, t, 1);
    AtSlice(s, p, t, 2, 6);
    assert t[2..6] == q;
  }

  lemma ReadsPair(s: bytes, p: nat, end: nat, high: bytes, low: bytes)
    requires PieceOk(Pair(high, low)) && At(s, p, PieceText(Pair(high, low))) && p + 12 <= end <= |s|
    ensures s[p + 1] == LOWER_U && ReadEscape(s, p, end) == Some(Escape(Combine(Hex4(high), Hex4(low)), 12))
  {
    hide Hex4, Combine;
    var t := PieceText(Pair(high, low));
    AtIndex(s, p, t, 1);
    AtIndex(s, p, t, 6);
    AtIndex(s, p, t, 7);
    AtSlice(s, p, t, 2, 6);
    AtSlice(s, p, t, 8, 12);
    assert t[2..6] == high && t[8..12] == low;
  }

  lemma {:induction false} DecodeStep(s: bytes, p: nat, end: nat, piece: Piece)
    requires PieceOk(piece) && At(s, p, PieceText(piece)) && end < |s| && s[end] == QUOTE
    requires p + |PieceText(piece)| <= end
    requires piece.Overrun? ==> p + 1 == end
    ensures Decode(s, p, end) == Prepend(PieceBytes(piece), Decode(s, p + |PieceText(piece)|, end))
  {
    AtIndex(s, p, PieceText(piece), 0);
    match piece
    case Plain(b) =>
    case Simple(c) => AtIndex(s, p, PieceText(piece), 1);
    case Unicode(q) => ReadsUnicode(s, p, end, q);
    case Pair(high, low) => ReadsPair(s, p, end, high, low);
    case Overrun =>
  }

  lemma {:induction false} DecodeComplete(s: bytes, p: nat, end: nat, ps: seq<Piece>)
    requires PiecesOk(ps) && At(s, p, PiecesText(ps))
    requires end == p + |PiecesText(ps)| < |s| && s[end] == QUOTE
    ensures Decode(s, p, end) == Some(PiecesBytes(ps))
    decreases |ps|
  {
    if ps != [] {
      AtConcat(s, p, PieceText(ps[0]), PiecesText(ps[1..]));
      DecodeStep(s, p, end, ps[0]);
      DecodeComplete(s, p + |PieceText(ps[0])|, end, ps[1..]);
    }
  }

  /** The piece behind a \u escape that the decoder accepts. */
  lemma EscapePiece(s: bytes, p: nat, end: nat) returns (piece: Piece)
    requires p + 1 < end < |s| && s[p] == BACKSLASH && s[p + 1] == LOWER_U && ReadEscape(s, p, end).Some?
    ensures PieceOk(piece) && !piece.Overrun? && p + |PieceText(piece)| <= end && At(s, p, PieceText(piece))
  {
    hide Hex4, Combine;
    var first := s[p + 2..p + 6];
    assert s[p..p + 2] == [BACKSLASH, LOWER_U];
    if ReadEscape(s, p, end).value.length == 6 {
      piece := Unicode(first);
      assert s[p..p + 6] == s[p..p + 2] + first;
    } else {
      var second := s[p + 8..p + 12];
      piece := Pair(first, second);
      assert s[p + 6..p + 8] == [BACKSLASH, LOWER_U];
      assert s[p..p + 12] == s[p..p + 2] + first + s[p + 6..p + 8] + second;
    }
  }

  /** The piece the decoding loop reads at p. */
  lemma PieceAt(s: bytes, p: nat, end: nat) returns (piece: Piece)
    requires p < end < |s| && s[end] == QUOTE && Decode(s, p, end).Some?
    ensures PieceOk(piece) && (piece.Overrun? ==> p + 1 == end)
    ensures p + |PieceText(piece)| <= end && At(s, p, PieceText(piece))
  {
    hide ReadEscape;
    if s[p] != BACKSLASH {
      piece := Plain(s[p]);
      assert s[p..p + 1] == PieceText(piece);
    } else if p + 1 == end {
      piece := Overrun;
      assert s[p..p + 1] == PieceText(piece);
    } else if s[p + 1] == LOWER_U {
      piece := EscapePiece(s, p, end);
    } else {
      piece := Simple(s[p + 1]);
      assert s[p..p + 2] == PieceText(piece);
    }
  }

  lemma {:induction false} DecodeSound(s: bytes, p: nat, end: nat) returns (ps: seq<Piece>)
    requires p <= end < |s| && s[end] == QUOTE && Decode(s, p, end).Some?
    ensures PiecesOk(ps) && At(s, p, PiecesText(ps)) && end == p + |PiecesText(ps)|
    ensures Decode(s, p, end) == Some(PiecesBytes(ps))
    decreases end - p
  {
    hide Decode, PieceOk, PieceText, PieceBytes;
    if p == end {
      ps := [];
      assert At(s, p, []);
      DecodeDone(s, p, end);
    } else {
      var piece := PieceAt(s, p, end);
      DecodeStep(s, p, end, piece);
      var rest := DecodeSound(s, p + |PieceText(piece)|, end);
      ps := [piece] + rest;
      assert ps[1..] == rest;
      AtConcat(s, p, PieceText(piece), PiecesText(rest));
    }
  }

  /** A literal in s: an opening quote, the body, a closing quote. */
  lemma LiteralParts(s: bytes, off: nat, body: bytes)
    ensures At(s, off, [QUOTE] + body + [QUOTE]) <==>
            (off + 1 + |body| < |s| && s[off] == QUOTE && At(s, off + 1, body) && s[off + 1 + |body|] == QUOTE)
    ensures At(s, off, [QUOTE] + body + [QUOTE]) ==> At(s, off + 1, body + [QUOTE])
  {
    AtConcat(s, off, [QUOTE] + body, [QUOTE]);
    AtConcat(s, off, [QUOTE], body);
    AtConcat(s, off + 1, body, [QUOTE]);
    AtByte(s, off);
    AtByte(s, off + 1 + |body|);
  }

  lemma AtByte(s: bytes, off: nat)
    ensures At(s, off, [QUOTE]) <==> off < |s| && s[off] == QUOTE
  {
    if off < |s| {
      assert s[off..off + 1] == [s[off]];
    }
  }

  lemma LiteralComplete(s: bytes, off: nat, ps: seq<Piece>)
    requires LiteralOk(ps) && At(s, off, LiteralText(ps))
    ensures off < |s| && ReadLiteral(s, off) == Some(Read(LiteralValue(ps), off + |LiteralText(ps)|))
  {
    hide Decode, ScanEnd, PiecesText, PiecesBytes, PiecesOk;
    var body := PiecesText(ps);
    LiteralParts(s, off, body);
    ScanLocal(s, off + 1, body, 0);
    DecodeComplete(s, off + 1, off + 1 + |body|, ps);
  }

  lemma LiteralSound(s: bytes, off: nat) returns (ps: seq<Piece>)
    requires off < |s| && ReadLiteral(s, off).Some?
    ensures LiteralOk(ps) && At(s, off, LiteralText(ps))
    ensures ReadLiteral(s, off).value == Read(LiteralValue(ps), off + |LiteralText(ps)|)
  {
    hide Decode, ScanEnd, PiecesText, PiecesBytes, PiecesOk;
    var end := ScanEnd(s, off + 1).value;
    ps := DecodeSound(s, off + 1, end);
    LiteralParts(s, off, PiecesText(ps));
    ScanLocal(s, off + 1, PiecesText(ps), 0);
  }

  // ----- the literals of section 7 of RFC 8259 -----

  /** Well-formed pieces: no control characters, four hexadecimal digits, paired surrogates, not U+0000. */
  predicate PieceRfc(p: Piece) {
    match p
    case Plain(b) => b >= 0x20 && b != QUOTE && b != BACKSLASH
    case Simple(c) => SimpleEscape(c) >= 0
    case Unicode(q) => |q| == 4 && ValidHex(q) && Scalar(Hex4(q)) && Hex4(q) != 0
    case Pair(high, low) =>
      && |high| == |low| == 4 && ValidHex(high) && ValidHex(low)
      && HighSurrogate(Hex4(high)) && LowSurrogate(Hex4(low))
    case Overrun => false
  }

  predicate PiecesRfc(ps: seq<Piece>) {
    ps == [] || (PieceRfc(ps[0]) && PiecesRfc(ps[1..]))
  }

  lemma HexSkips(s: bytes, p: nat, q: bytes)
    requires |q| == 4 && ValidHex(q) && At(s, p, q)
    ensures p + 4 <= |s| && ScanEnd(s, p) == ScanEnd(s, p + 4)
  {
    AtIndex(s, p, q, 0);
    AtIndex(s, p, q, 1);
    AtIndex(s, p, q, 2);
    AtIndex(s, p, q, 3);
    assert ScanEnd(s, p) == ScanEnd(s, p + 1);
    assert ScanEnd(s, p + 1) == ScanEnd(s, p + 2);
    assert ScanEnd(s, p + 2) == ScanEnd(s, p + 3);
  }

  lemma ScanStep(s: bytes, p: nat, piece: Piece)
    requires PieceRfc(piece) && At(s, p, PieceText(piece))
    ensures p + |PieceText(piece)| <= |s| && ScanEnd(s, p) == ScanEnd(s, p + |PieceText(piece)|)
  {
    AtIndex(s, p, PieceText(piece), 0);
    match piece
    case Plain(b) =>
    case Simple(c) =>
    case Unicode(q) =>
      AtConcat(s, p, [BACKSLASH, LOWER_U], q);
      HexSkips(s, p + 2, q);
    case Pair(high, low) =>
      var mark := [BACKSLASH, LOWER_U];
      assert PieceText(piece) == (mark + high) + (mark + low);
      AtConcat(s, p, mark + high, mark + low);
      AtConcat(s, p, mark, high);
      AtConcat(s, p + 6, mark, low);
      AtIndex(s, p + 6, mark, 0);
      HexSkips(s, p + 2, high);
      HexSkips(s, p + 8, low);
    case Overrun =>
  }

  /** Escapes in a literal; a surrogate pair is two. */
  function EscapeCount(ps: seq<Piece>): nat {
    if ps == [] then 0
    else (match ps[0] case Plain(_) => 0 case Pair(_, _) => 2 case _ => 1) + EscapeCount(ps[1..])
  }

  lemma PlainEscapes(s: bytes, a: nat, k: nat, p: nat)
    requires a + k <= p <= |s| && forall i | a <= i < a + k :: s[i] != BACKSLASH
    ensures Escapes(s, a, p) == Escapes(s, a + k, p)
    decreases k
  {
    if k > 0 {
      PlainEscapes(s, a + 1, k - 1, p);
    }
  }

  lemma HexNoBackslash(s: bytes, p: nat, q: bytes)
    requires |q| == 4 && ValidHex(q) && At(s, p, q)
    ensures p + 4 <= |s| && forall i | p <= i < p + 4 :: s[i] != BACKSLASH
  {
    forall i | p <= i < p + 4
      ensures s[i] != BACKSLASH
    {
      AtIndex(s, p, q, i - p);
    }
  }

  lemma OneEscape(s: bytes, a: nat, q: bytes, p: nat)
    requires |q| == 4 && ValidHex(q) && At(s, a, [BACKSLASH, LOWER_U] + q) && a + 6 <= p <= |s|
    ensures Escapes(s, a, p) == 1 + Escapes(s, a + 6, p)
  {
    AtIndex(s, a, [BACKSLASH, LOWER_U] + q, 0);
    AtConcat(s, a, [BACKSLASH, LOWER_U], q);
    HexNoBackslash(s, a + 2, q);
    PlainEscapes(s, a + 2, 4, p);
  }

  /** Of a well-formed literal the sizing scan counts exactly the escapes. */
  lemma {:induction false} EscapesCounted(s: bytes, a: nat, ps: seq<Piece>)
    requires PiecesRfc(ps) && At(s, a, PiecesText(ps))
    ensures Escapes(s, a, a + |PiecesText(ps)|) == EscapeCount(ps)
    decreases |ps|
  {
    hide Escapes, ValidHex, At;
    var end := a + |PiecesText(ps)|;
    if ps == [] {
      EscapesBound(s, a, a);
    } else {
      AtConcat(s, a, PieceText(ps[0]), PiecesText(ps[1..]));
      EscapesCounted(s, a + |PieceText(ps[0])|, ps[1..]);
      AtIndex(s, a, PieceText(ps[0]), 0);
      match ps[0]
      case Plain(b) => PlainEscapes(s, a, 1, end);
      case Simple(c) => SimpleCounts(s, a, end);
      case Unicode(q) => OneEscape(s, a, q, end);
      case Pair(high, low) =>
        var mark := [BACKSLASH, LOWER_U];
        assert PieceText(ps[0]) == (mark + high) + (mark + low);
        AtConcat(s, a, mark + high, mark + low);
        OneEscape(s, a, high, end);
        OneEscape(s, a + 6, low, end);
      case Overrun =>
    }
  }

  lemma SimpleCounts(s: bytes, a: nat, p: nat)
    requires a + 2 <= p <= |s| && s[a] == BACKSLASH
    ensures Escapes(s, a, p) == 1 + Escapes(s, a + 2, p)
  {
  }

  lemma ScanHere(s: bytes, p: nat)
    requires p < |s| && s[p] == QUOTE
    ensures ScanEnd(s, p) == Some(p)
  {
  }

  lemma {:induction false} ScanRfc(s: bytes, p: nat, ps: seq<Piece>)
    requires PiecesRfc(ps) && At(s, p, PiecesText(ps))
    requires p + |PiecesText(ps)| < |s| && s[p + |PiecesText(ps)|] == QUOTE
    ensures ScanEnd(s, p) == Some(p + |PiecesText(ps)|)
    decreases |ps|
  {
    hide ScanEnd, PieceText;
    if ps == [] {
      ScanHere(s, p);
    } else {
      AtConcat(s, p, PieceText(ps[0]), PiecesText(ps[1..]));
      ScanStep(s, p, ps[0]);
      ScanRfc(s, p + |PieceText(ps[0])|, ps[1..]);
    }
  }

  lemma {:induction false} RfcPieces(ps: seq<Piece>)
    requires PiecesRfc(ps)
    ensures PiecesOk(ps) && NUL !in PiecesBytes(ps)
    decreases |ps|
  {
    if ps != [] {
      RfcPieces(ps[1..]);
      match ps[0]
      case Plain(b) =>
      case Simple(c) =>
      case Unicode(q) => Hex4Digits(q); Utf8NoNul(Hex4(q));
      case Pair(high, low) => Utf8NoNul(Combine(Hex4(high), Hex4(low)));
      case Overrun =>
    }
  }

  /** Every literal of the RFC without U+0000 is read whole. */
  lemma WellFormedLiteral(ps: seq<Piece>)
    requires PiecesRfc(ps)
    ensures LiteralOk(ps) && LiteralValue(ps) == PiecesBytes(ps)
  {
    var body := PiecesText(ps);
    assert (body + [QUOTE])[0..|body|] == body;
    ScanRfc(body + [QUOTE], 0, ps);
    RfcPieces(ps);
    CStringWhole(PiecesBytes(ps));
  }
}
