/** Bytes, the ASCII characters cJSON tests for, and "text t stands in s at offset off". */
module Bytes {
  type byte = b: int | 0 <= b < 256
  type bytes = seq<byte>

  const NUL: byte := 0x00
  const TAB: byte := 0x09
  const NEWLINE: byte := 0x0A
  const CARRIAGE: byte := 0x0D
  const SPACE: byte := 0x20
  const QUOTE: byte := 0x22
  const STAR: byte := 0x2A
  const PLUS: byte := 0x2B
  const COMMA: byte := 0x2C
  const MINUS: byte := 0x2D
  const DOT: byte := 0x2E
  const SLASH: byte := 0x2F
  const ZERO: byte := 0x30
  const NINE: byte := 0x39
  const COLON: byte := 0x3A
  const UPPER_E: byte := 0x45
  const OPEN_BRACKET: byte := 0x5B
  const BACKSLASH: byte := 0x5C
  const CLOSE_BRACKET: byte := 0x5D
  const LOWER_B: byte := 0x62
  const LOWER_E: byte := 0x65
  const LOWER_F: byte := 0x66
  const LOWER_N: byte := 0x6E
  const LOWER_R: byte := 0x72
  const LOWER_T: byte := 0x74
  const LOWER_U: byte := 0x75
  const OPEN_BRACE: byte := 0x7B
  const CLOSE_BRACE: byte := 0x7D

  const NULL_TEXT: bytes := [0x6E, 0x75, 0x6C, 0x6C]
  const FALSE_TEXT: bytes := [0x66, 0x61, 0x6C, 0x73, 0x65]
  const TRUE_TEXT: bytes := [0x74, 0x72, 0x75, 0x65]
  const BYTE_ORDER_MARK: bytes := [0xEF, 0xBB, 0xBF]

  /** The characters meant, in ASCII. */
  function Ascii(s: string): (r: seq<int>)
    ensures |r| == |s| && forall i | 0 <= i < |s| :: r[i] == s[i] as int
  {
    seq(|s|, i requires 0 <= i < |s| => s[i] as int)
  }

  lemma Characters()
    ensures [QUOTE, STAR, PLUS, COMMA, MINUS, DOT, SLASH, ZERO, NINE, COLON] == Ascii("\"*+,-./09:")
    ensures [UPPER_E, OPEN_BRACKET, BACKSLASH, CLOSE_BRACKET, OPEN_BRACE, CLOSE_BRACE] == Ascii("E[\\]{}")
    ensures [LOWER_B, LOWER_E, LOWER_F, LOWER_N, LOWER_R, LOWER_T, LOWER_U] == Ascii("befnrtu")
    ensures [NUL, TAB, NEWLINE, CARRIAGE, SPACE] == Ascii("\0\t\n\r ")
    ensures NULL_TEXT == Ascii("null") && FALSE_TEXT == Ascii("false") && TRUE_TEXT == Ascii("true")
  {
  }

  /** t is the text that s holds from offset off on. */
  ghost predicate At(s: bytes, off: nat, t: bytes): (r: bool)
    ensures r ==> off + |t| <= |s|
  {
    off + |t| <= |s| && s[off..off + |t|] == t
  }

  lemma AtConcat(s: bytes, off: nat, a: bytes, b: bytes)
    ensures At(s, off, a + b) <==> At(s, off, a) && At(s, off + |a|, b)
  {
    if At(s, off, a + b) {
      assert s[off..off + |a|] == s[off..off + |a + b|][..|a|] == a;
      assert s[off + |a|..off + |a| + |b|] == s[off..off + |a + b|][|a|..] == b;
    }
    if At(s, off, a) && At(s, off + |a|, b) {
      assert s[off..off + |a + b|] == s[off..off + |a|] + s[off + |a|..off + |a| + |b|];
    }
  }

  /** A text in four parts. */
  lemma AtParts(s: bytes, off: nat, a: bytes, b: bytes, c: bytes, d: bytes)
    ensures At(s, off, a + (b + (c + d))) <==>
            At(s, off, a) && At(s, off + |a|, b) && At(s, off + |a| + |b|, c) && At(s, off + |a| + |b| + |c|, d)
  {
    hide At;
    AtConcat(s, off, a, b + (c + d));
    AtConcat(s, off + |a|, b, c + d);
    AtConcat(s, off + |a| + |b|, c, d);
  }

  lemma AtIndex(s: bytes, off: nat, t: bytes, k: nat)
    requires At(s, off, t) && k < |t|
    ensures off + k < |s| && s[off + k] == t[k]
  {
    assert s[off..off + |t|][k] == t[k];
  }

  lemma AtSlice(s: bytes, off: nat, t: bytes, i: nat, j: nat)
    requires At(s, off, t) && i <= j <= |t|
    ensures s[off + i..off + j] == t[i..j]
  {
    var from, to := off + i, off + j;
    forall k | 0 <= k < to - from
      ensures s[from..to][k] == t[i..j][k]
    {
      AtIndex(s, off, t, i + k);
    }
  }

  lemma Glue(t: bytes, a: nat, b: nat, c: nat, d: nat)
    requires a <= b <= c <= d <= |t|
    ensures (t[..a] + t[a..b]) + (t[b..c] + t[c..d]) == t[..d]
  {
    assert t[..a] + t[a..b] == t[..b];
    assert t[b..c] + t[c..d] == t[b..d];
    assert t[..b] + t[b..d] == t[..d];
  }

  predicate Digit(b: byte) {
    ZERO <= b <= NINE
  }

  /** The bytes a C string reader sees: everything in front of the first NUL. */
  function CString(s: bytes): (r: bytes)
    ensures r <= s && NUL !in r
    ensures |r| < |s| ==> s[|r|] == NUL
  {
    if s == [] || s[0] == NUL then [] else [s[0]] + CString(s[1..])
  }

  lemma CStringWhole(s: bytes)
    requires NUL !in s
    ensures CString(s) == s
  {
  }

  /** A C string lies in s: the last byte is NUL and no other byte is. */
  predicate Terminated(s: bytes): (r: bool)
    ensures r ==> |s| > 0
  {
    |s| > 0 && s[|s| - 1] == NUL && NUL !in s[..|s| - 1]
  }

  lemma TerminatedIndex(s: bytes, k: nat)
    requires Terminated(s) && k < |s|
    ensures s[k] == NUL <==> k == |s| - 1
  {
    if k < |s| - 1 {
      assert s[k] == s[..|s| - 1][k];
    }
  }
}
