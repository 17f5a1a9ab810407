/** UTF-16 escapes and UTF-8 (parse_hex4 and utf16_literal_to_utf8). */
module Utf {
  import opened Bytes

  datatype Option<+T> = None | Some(value: T) {
    function GetOr(default: T): T {
      if None? then default else value
    }
  }

  // ----- hexadecimal quads -----

  /** Value of a hexadecimal digit, or -1. */
  function HexDigit(b: byte): (d: int)
    ensures -1 <= d < 16
  {
    if ZERO <= b <= NINE then b - ZERO
    else if 0x41 <= b <= 0x46 then 10 + b - 0x41
    else if 0x61 <= b <= 0x66 then 10 + b - 0x61
    else -1
  }

  predicate ValidHex(q: bytes) {
    forall i | 0 <= i < |q| :: HexDigit(q[i]) >= 0
  }

  /** Big-endian value of a run of hexadecimal digits. */
  function HexValue(q: bytes): nat
    requires ValidHex(q)
  {
    if q == [] then 0 else HexValue(q[..|q| - 1]) * 16 + HexDigit(q[|q| - 1])
  }

  /** What parse_hex4 makes of four bytes: their value, or 0 when one is no digit. */
  function Hex4(q: bytes): nat
    requires |q| == 4
  {
    if ValidHex(q) then HexValue(q) else 0
  }

  lemma Hex4Digits(q: bytes)
    requires |q| == 4
    ensures ValidHex(q) ==> Hex4(q) == HexDigit(q[0]) * 0x1000 + HexDigit(q[1]) * 0x100 + HexDigit(q[2]) * 0x10 + HexDigit(q[3])
    ensures Hex4(q) < 0x1_0000
  {
    if ValidHex(q) {
      assert q[..3][..2] == q[..2] && q[..2][..1] == q[..1] && q[..1][..0] == [];
      assert HexValue(q[..1]) == HexDigit(q[0]);
      assert HexValue(q[..2]) == HexDigit(q[0]) * 16 + HexDigit(q[1]);
      assert HexValue(q[..3]) == (HexDigit(q[0]) * 16 + HexDigit(q[1])) * 16 + HexDigit(q[2]);
    }
  }

  method ParseHex4(input: bytes, at: nat) returns (h: nat)
    requires at + 4 <= |input|
    ensures h == Hex4(input[at..at + 4])
  {
    ghost var q := input[at..at + 4];
    h := 0;
    var i := 0;
    while i < 4
      invariant 0 <= i <= 4
      invariant ValidHex(q[..i])
      invariant i < 4 ==> h == HexValue(q[..i]) * (if i == 0 then 1 else 16)
      invariant i == 4 ==> h == HexValue(q)
    {
      var b := input[at + i];
      assert b == q[i] && q[..i + 1][..i] == q[..i];
      if ZERO <= b <= NINE {
        h := h + (b - ZERO);
      } else if 0x41 <= b <= 0x46 {
        h := h + (10 + b - 0x41);
      } else if 0x61 <= b <= 0x66 {
        h := h + (10 + b - 0x61);
      } else {
        assert HexDigit(q[i]) < 0;
        return 0;
      }
      assert h == HexValue(q[..i + 1]);
      if i < 3 {
        h := h * 16;
      } else {
        assert q[..4] == q;
      }
      i := i + 1;
    }
  }

  // ----- UTF-8 -----

  predicate HighSurrogate(u: nat) {
    0xD800 <= u <= 0xDBFF
  }

  predicate LowSurrogate(u: nat) {
    0xDC00 <= u <= 0xDFFF
  }

  /** A Unicode scalar value: a code point that is no surrogate. */
  predicate Scalar(cp: nat) {
    cp <= 0x10FFFF && !HighSurrogate(cp) && !LowSurrogate(cp)
  }

  /** The UTF-8 encoding of section 3 of RFC 3629. */
  function Utf8Encode(cp: nat): (r: bytes)
    requires cp <= 0x10FFFF
    ensures 1 <= |r| <= 4
    ensures cp < 0x1_0000 ==> |r| <= 3
  {
    if cp < 0x80 then [cp]
    else if cp < 0x800 then [0xC0 + cp / 0x40, 0x80 + cp % 0x40]
    else if cp < 0x1_0000 then [0xE0 + cp / 0x1000, 0x80 + cp / 0x40 % 0x40, 0x80 + cp % 0x40]
    else [0xF0 + cp / 0x4_0000, 0x80 + cp / 0x1000 % 0x40, 0x80 + cp / 0x40 % 0x40, 0x80 + cp % 0x40]
  }

  predicate Continuation(b: byte) {
    0x80 <= b < 0xC0
  }

  /** Strict decoding of one UTF-8 sequence: shortest forms only, and no surrogates. */
  function Utf8Decode(r: bytes): Option<nat> {
    if |r| == 1 && r[0] < 0x80 then Some(r[0])
    else if |r| == 2 && 0xC2 <= r[0] < 0xE0 && Continuation(r[1]) then
      Some((r[0] as int - 0xC0) * 0x40 + (r[1] as int - 0x80))
    else if |r| == 3 && 0xE0 <= r[0] < 0xF0 && Continuation(r[1]) && Continuation(r[2]) then
      var cp := (r[0] as int - 0xE0) * 0x1000 + (r[1] as int - 0x80) * 0x40 + (r[2] as int - 0x80);
      if cp >= 0x800 && Scalar(cp) then Some(cp) else None
    else if |r| == 4 && 0xF0 <= r[0] < 0xF5 && Continuation(r[1]) && Continuation(r[2]) && Continuation(r[3]) then
      var cp := (r[0] as int - 0xF0) * 0x4_0000 + (r[1] as int - 0x80) * 0x1000
                + (r[2] as int - 0x80) * 0x40 + (r[3] as int - 0x80);
      if cp >= 0x1_0000 && Scalar(cp) then Some(cp) else None
    else None
  }

  lemma Utf8RoundTrip(cp: nat)
    requires Scalar(cp)
    ensures Utf8Decode(Utf8Encode(cp)) == Some(cp)
  {
    var a, b := cp / 0x40, cp / 0x1000;
    assert a / 0x40 == b && b / 0x40 == cp / 0x4_0000;
    assert cp == a * 0x40 + cp % 0x40 && a == b * 0x40 + a % 0x40 && b == b / 0x40 * 0x40 + b % 0x40;
    var r := Utf8Encode(cp);
    if cp < 0x80 {
    } else if cp < 0x800 {
      assert r == [0xC0 + a, 0x80 + cp % 0x40];
    } else if cp < 0x1_0000 {
      assert r == [0xE0 + b, 0x80 + a % 0x40, 0x80 + cp % 0x40];
    } else {
      assert r == [0xF0 + b / 0x40, 0x80 + b % 0x40, 0x80 + a % 0x40, 0x80 + cp % 0x40];
    }
  }

  lemma Utf8NoNul(cp: nat)
    requires 0 < cp <= 0x10FFFF
    ensures NUL !in Utf8Encode(cp)
  {
  }

  /** The masks of the source's encoder are remainders, so Utf8Encode may use arithmetic. */
  lemma MasksAreRemainders(cp: bv32, first: bv32, second: bv32)
    requires cp <= 0x10FFFF
    ensures (cp | 0x80) & 0xBF == 0x80 + cp % 0x40
    ensures cp >> 6 == cp / 0x40
    ensures cp < 0x80 ==> cp & 0x7F == cp
    ensures cp < 0x800 ==> ((cp >> 6) | 0xC0) & 0xFF == 0xC0 + cp / 0x40
    ensures cp < 0x1_0000 ==> ((cp >> 12) | 0xE0) & 0xFF == 0xE0 + cp / 0x1000
    ensures ((cp >> 18) | 0xF0) & 0xFF == 0xF0 + cp / 0x4_0000
    ensures 0xD800 <= first <= 0xDBFF && 0xDC00 <= second <= 0xDFFF ==>
              ((first & 0x3FF) << 10) | (second & 0x3FF) == (first - 0xD800) * 0x400 + (second - 0xDC00)
  {
  }

  // ----- \uXXXX and \uXXXX\uXXXX -----

  datatype Escape = Escape(codepoint: nat, length: nat)

  function Combine(high: nat, low: nat): (cp: nat)
    requires HighSurrogate(high) && LowSurrogate(low)
    ensures 0x1_0000 <= cp <= 0x10FFFF
  {
    0x1_0000 + (high - 0xD800) * 0x400 + (low - 0xDC00)
  }

  /** Every code point beyond the first plane is that of one surrogate pair. */
  lemma SurrogatePairs(cp: nat) returns (high: nat, low: nat)
    requires 0x1_0000 <= cp <= 0x10FFFF
    ensures HighSurrogate(high) && LowSurrogate(low) && Combine(high, low) == cp
    ensures forall h: nat, l: nat | HighSurrogate(h) && LowSurrogate(l) && Combine(h, l) == cp :: h == high && l == low
  {
    high, low := 0xD800 + (cp - 0x1_0000) / 0x400, 0xDC00 + (cp - 0x1_0000) % 0x400;
    forall h: nat, l: nat | HighSurrogate(h) && LowSurrogate(l) && Combine(h, l) == cp
      ensures h == high && l == low
    {
    }
  }

  /** Reading the escape that starts (with its backslash) at p; the literal ends at end. */
  function ReadEscape(s: bytes, p: nat, end: nat): (r: Option<Escape>)
    requires end <= |s|
    ensures r.Some? ==> Scalar(r.value.codepoint)
    ensures r.Some? ==> p + r.value.length <= end && (r.value.length == 6 || r.value.length == 12)
    ensures r.Some? && r.value.length == 6 ==> r.value.codepoint < 0x1_0000
  {
    if end < p + 6 then None
    else
      var first := Hex4(s[p + 2..p + 6]);
      Hex4Digits(s[p + 2..p + 6]);
      if LowSurrogate(first) then None
      else if HighSurrogate(first) then
        if end < p + 12 then None
        else if s[p + 6] != BACKSLASH || s[p + 7] != LOWER_U then None
        else
          var second := Hex4(s[p + 8..p + 12]);
          if !LowSurrogate(second) then None else Some(Escape(Combine(first, second), 12))
      else Some(Escape(first, 6))
  }

  /** utf16_literal_to_utf8: on success the encoded code point is stored at out and length is 6 or 12. */
  method Utf16LiteralToUtf8(input: bytes, p: nat, end: nat, output: array<byte>, out: nat)
    returns (length: nat, newOut: nat)
    requires p <= end <= |input|
    requires ReadEscape(input, p, end).Some? ==>
               out + |Utf8Encode(ReadEscape(input, p, end).value.codepoint)| <= output.Length
    modifies output
    ensures ReadEscape(input, p, end).None? ==> length == 0 && output[..] == old(output[..])
    ensures ReadEscape(input, p, end).Some? ==>
              var e := ReadEscape(input, p, end).value;
              && length == e.length
              && newOut == out + |Utf8Encode(e.codepoint)| <= output.Length
              && output[..newOut] == old(output[..out]) + Utf8Encode(e.codepoint)
  {
    newOut := out;
    if end - p < 6 {
      return 0, out;
    }
    var first := ParseHex4(input, p + 2);
    Hex4Digits(input[p + 2..p + 6]);
    if LowSurrogate(first) {
      return 0, out;
    }
    var codepoint;
    if HighSurrogate(first) {
      length := 12;
      if end - (p + 6) < 6 {
        return 0, out;
      }
      if input[p + 6] != BACKSLASH || input[p + 7] != LOWER_U {
        return 0, out;
      }
      var second := ParseHex4(input, p + 8);
      if !LowSurrogate(second) {
        return 0, out;
      }
      codepoint := Combine(first, second);
    } else {
      length := 6;
      codepoint := first;
    }
    newOut := StoreUtf8(codepoint, output, out);
  }

  /** The encoder's loop: continuation bytes from the back, then the marked first byte. */
  method StoreUtf8(cp: nat, output: array<byte>, out: nat) returns (newOut: nat)
    requires cp <= 0x10FFFF && out + |Utf8Encode(cp)| <= output.Length
    modifies output
    ensures newOut == out + |Utf8Encode(cp)|
    ensures output[..newOut] == old(output[..out]) + Utf8Encode(cp)
  {
    var length, mark := 1, 0;
    if cp < 0x80 {
    } else if cp < 0x800 {
      length, mark := 2, 0xC0;
    } else if cp < 0x1_0000 {
      length, mark := 3, 0xE0;
    } else {
      length, mark := 4, 0xF0;
    }
    assert length == |Utf8Encode(cp)|;
    var rest, position := cp, length - 1;
    while position > 0
      invariant 0 <= position < length
      invariant rest == (if length - 1 - position == 0 then cp
                         else if length - 1 - position == 1 then cp / 0x40
                         else if length - 1 - position == 2 then cp / 0x1000
                         else cp / 0x4_0000)
      invariant forall k | position < k < length :: output[out + k] == Utf8Encode(cp)[k]
      invariant output[..out] == old(output[..out])
    {
      output[out + position] := 0x80 + rest % 0x40;
      rest := rest / 0x40;
      position := position - 1;
    }
    output[out] := if length > 1 then rest + mark else rest;
    newOut := out + length;
    assert output[..newOut] == output[..out] + output[out..newOut];
    assert output[out..newOut] == Utf8Encode(cp);
  }
}
