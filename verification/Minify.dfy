/** cJSON_Minify: white space and comments removed in place. A text is the C string in front of its NUL. */
module Minify {
  import opened Bytes

  predicate Dropped(b: byte) {
    b == SPACE || b == TAB || b == CARRIAGE || b == NEWLINE
  }

  /** The byte at q; behind the text stands its terminator. */
  function Peek(s: bytes, q: nat): byte {
    if q < |s| then s[q] else NUL
  }

  // ----- the result, as a function of the text -----

  /** skip_oneline_comment, from the body of the comment on. */
  function LineEnd(s: bytes, q: nat): (r: nat)
    requires q <= |s|
    ensures q <= r <= |s|
    decreases |s| - q
  {
    if Peek(s, q) == NUL then q
    else if s[q] == NEWLINE then q + 1
    else LineEnd(s, q + 1)
  }

  /** skip_multiline_comment, from the body of the comment on. */
  function BlockEnd(s: bytes, q: nat): (r: nat)
    requires q <= |s|
    ensures q <= r <= |s|
    decreases |s| - q
  {
    if Peek(s, q) == NUL then q
    else if s[q] == STAR && Peek(s, q + 1) == SLASH then q + 2
    else BlockEnd(s, q + 1)
  }

  /** minify_string, from behind the opening quote on: everything up to the result is copied. */
  function StringEnd(s: bytes, q: nat): (r: nat)
    requires q <= |s|
    ensures q <= r <= |s|
    decreases |s| - q
  {
    if Peek(s, q) == NUL then q
    else if s[q] == QUOTE then q + 1
    else if s[q] == BACKSLASH && Peek(s, q + 1) == QUOTE then StringEnd(s, q + 2)
    else StringEnd(s, q + 1)
  }

  /** What is left of the text from p on. */
  function Minified(s: bytes, p: nat): (m: bytes)
    requires p <= |s|
    ensures |m| <= |s| - p
    decreases |s| - p
  {
    if Peek(s, p) == NUL then []
    else if Dropped(s[p]) then Minified(s, p + 1)
    else if s[p] == SLASH then
      if Peek(s, p + 1) == SLASH then Minified(s, LineEnd(s, p + 2))
      else if Peek(s, p + 1) == STAR then Minified(s, BlockEnd(s, p + 2))
      else Minified(s, p + 1)
    else if s[p] == QUOTE then
      var e := StringEnd(s, p + 1);
      s[p..e] + Minified(s, e)
    else [s[p]] + Minified(s, p + 1)
  }

  // ----- the source's cursors over one array -----

  /** From the read cursor on the block still holds the text s and its terminator. */
  ghost predicate Unread(block: bytes, s: bytes, read: nat): (r: bool)
    ensures r ==> read <= |s| < |block|
  {
    read <= |s| < |block| && block[read..|s|] == s[read..] && block[|s|] == NUL
  }

  lemma Look(block: bytes, s: bytes, read: nat, q: nat)
    requires Unread(block, s, read) && read <= q <= |s|
    ensures block[q] == Peek(s, q)
  {
    if q < |s| {
      assert block[q] == block[read..|s|][q - read] == s[read..][q - read];
    }
  }

  lemma Advance(block: bytes, s: bytes, read: nat, to: nat)
    requires Unread(block, s, read) && read <= to <= |s|
    ensures Unread(block, s, to)
  {
    assert block[to..|s|] == block[read..|s|][to - read..] == s[read..][to - read..] == s[to..];
  }

  /** A byte copied from the read to the write cursor, which is not ahead of it. */
  function Copy(block: bytes, read: nat, into: nat): bytes
    requires into <= read < |block|
  {
    block[into := block[read]]
  }

  lemma CopyKeeps(block: bytes, s: bytes, read: nat, into: nat)
    requires Unread(block, s, read) && into <= read < |s|
    ensures var c := Copy(block, read, into);
            && Unread(c, s, read) && Unread(c, s, read + 1) && c[..into + 1] == block[..into] + [s[read]]
            && c[read] == s[read] && c[read + 1] == Peek(s, read + 1)
  {
    var c := Copy(block, read, into);
    Look(block, s, read, read);
    assert c[read..|s|] == block[read..|s|];
    Look(c, s, read, read);
    Look(c, s, read, read + 1);
    Advance(c, s, read, read + 1);
  }

  method SkipOnelineComment(json: array<byte>, input: nat, ghost s: bytes) returns (read: nat)
    requires Unread(json[..], s, input) && NUL !in s && input + 2 <= |s|
    ensures read == LineEnd(s, input + 2)
  {
    read := input + 2;
    Look(json[..], s, input, read);
    while json[read] != NUL
      invariant input + 2 <= read <= |s| && json[read] == Peek(s, read)
      invariant LineEnd(s, read) == LineEnd(s, input + 2)
      decreases |s| - read
    {
      if json[read] == NEWLINE {
        read := read + 1;
        return;
      }
      read := read + 1;
      Look(json[..], s, input, read);
    }
  }

  method SkipMultilineComment(json: array<byte>, input: nat, ghost s: bytes) returns (read: nat)
    requires Unread(json[..], s, input) && NUL !in s && input + 2 <= |s|
    ensures read == BlockEnd(s, input + 2)
  {
    read := input + 2;
    Look(json[..], s, input, read);
    while json[read] != NUL
      invariant input + 2 <= read <= |s| && json[read] == Peek(s, read)
      invariant BlockEnd(s, read) == BlockEnd(s, input + 2)
      decreases |s| - read
    {
      Look(json[..], s, input, read + 1);
      if json[read] == STAR && json[read + 1] == SLASH {
        read := read + 2;
        return;
      }
      read := read + 1;
    }
  }

  /** Behind what stood in front of the string, the bytes of the string read so far have been written. */
  ghost predicate Copied(block: bytes, into: nat, before: bytes, s: bytes, input: nat, read: nat) {
    && Unread(block, s, read) && input <= read && into <= |block| && block[..into] == before + s[input..read]
  }

  lemma CopyMore(block: bytes, into: nat, before: bytes, s: bytes, input: nat, read: nat)
    requires Copied(block, into, before, s, input, read) && into <= read < |s|
    ensures var c := Copy(block, read, into);
            && Copied(c, into + 1, before, s, input, read + 1)
            && c[read] == s[read] && c[read + 1] == Peek(s, read + 1)
  {
    hide Copy, Unread;
    CopyKeeps(block, s, read, into);
    assert s[input..read + 1] == s[input..read] + [s[read]];
  }

  method MinifyString(json: array<byte>, input: nat, output: nat, ghost s: bytes, ghost before: bytes)
    returns (read: nat, into: nat)
    requires Unread(json[..], s, input) && NUL !in s && output <= input < |s| && json[input] == QUOTE
    requires json[..output] == before
    modifies json
    ensures read == StringEnd(s, input + 1) && into == output + (read - input)
    ensures Copied(json[..], into, before, s, input, read)
  {
    hide Unread, StringEnd, Copied, Peek;
    ghost var block := json[..];
    CopyNothing(block, output, before, s, input);
    CopyMore(block, output, before, s, input, input);
    json[output] := json[input];
    block := Copy(block, input, output);
    read, into := input + 1, output + 1;
    while json[read] != NUL
      invariant input < read <= |s| < json.Length && into == output + (read - input)
      invariant json[..] == block && Copied(block, into, before, s, input, read) && block[read] == Peek(s, read)
      invariant StringEnd(s, read) == StringEnd(s, input + 1)
      decreases |s| - read
    {
      PeekInside(s, read);
      StringStep(s, read);
      CopyMore(block, into, before, s, input, read);
      json[into] := json[read];
      block := Copy(block, read, into);
      if json[read] == QUOTE {
        read, into := read + 1, into + 1;
        return;
      } else if json[read] == BACKSLASH && json[read + 1] == QUOTE {
        CopyMore(block, into + 1, before, s, input, read + 1);
        json[into + 1] := json[read + 1];
        block := Copy(block, read + 1, into + 1);
        read, into := read + 1, into + 1;
      }
      read, into := read + 1, into + 1;
    }
    StringStops(s, read);
  }

  lemma CopyNothing(block: bytes, into: nat, before: bytes, s: bytes, input: nat)
    requires Unread(block, s, input) && into <= |block| && block[..into] == before
    ensures Copied(block, into, before, s, input, input)
  {
    assert before + s[input..input] == before;
  }

  lemma PeekInside(s: bytes, q: nat)
    requires q <= |s| && Peek(s, q) != NUL
    ensures q < |s| && s[q] == Peek(s, q)
  {
  }

  lemma StringStep(s: bytes, q: nat)
    requires q < |s| && s[q] != NUL
    ensures s[q] == QUOTE ==> StringEnd(s, q) == q + 1
    ensures s[q] == BACKSLASH && Peek(s, q + 1) == QUOTE ==> q + 1 < |s| && StringEnd(s, q) == StringEnd(s, q + 2)
    ensures s[q] != QUOTE && !(s[q] == BACKSLASH && Peek(s, q + 1) == QUOTE) ==> StringEnd(s, q) == StringEnd(s, q + 1)
  {
  }

  lemma StringStops(s: bytes, q: nat)
    requires q <= |s| && Peek(s, q) == NUL
    ensures StringEnd(s, q) == q
  {
  }

  /**
    cJSON_Minify of the text s: what is left stands, terminated, at the start of the block. The write cursor
    never overtakes the read cursor.
   */
  method MinifyInPlace(json: array<byte>, ghost s: bytes)
    requires NUL !in s && Unread(json[..], s, 0)
    modifies json
    ensures json[..|Minified(s, 0)| + 1] == Minified(s, 0) + [NUL]
  {
    hide LineEnd, BlockEnd, StringEnd, Minified, Unread, Written;
    var read, into := 0, 0;
    Look(json[..], s, 0, 0);
    WrittenNothing(json[..], s);
    while json[read] != NUL
      invariant 0 <= into <= read <= |s| && Unread(json[..], s, read) && json[read] == Peek(s, read)
      invariant Written(json[..], into, s, read)
      decreases |s| - read
    {
      read, into := MinifyOne(json, read, into, s);
      Look(json[..], s, read, read);
    }
    WrittenAll(json[..], into, s, read);
    ghost var m := json[..into];
    json[into] := NUL;
    assert json[..into + 1] == m + [NUL];
  }

  /** What is written so far and what the rest of the text leaves make up the result. */
  ghost predicate Written(block: bytes, into: nat, s: bytes, read: nat) {
    into <= |block| && read <= |s| && block[..into] + Minified(s, read) == Minified(s, 0)
  }

  lemma WrittenNothing(block: bytes, s: bytes)
    ensures Written(block, 0, s, 0)
  {
    assert block[..0] + Minified(s, 0) == Minified(s, 0);
  }

  lemma WrittenAll(block: bytes, into: nat, s: bytes, read: nat)
    requires Written(block, into, s, read) && Peek(s, read) == NUL
    ensures block[..into] == Minified(s, 0)
  {
    assert block[..into] + [] == block[..into];
  }

  lemma WrittenMore(block: bytes, into: nat, s: bytes, from: nat, c: bytes, more: bytes, to: nat, read: nat)
    requires Written(block, into, s, from) && read <= |s| && Minified(s, from) == more + Minified(s, read)
    requires to <= |c| && c[..to] == block[..into] + more
    ensures Written(c, to, s, read)
  {
    assert block[..into] + (more + Minified(s, read)) == block[..into] + more + Minified(s, read);
  }

  /** One pass of the loop: a blank, a comment, a string or another byte. */
  method MinifyOne(json: array<byte>, from: nat, output: nat, ghost s: bytes) returns (read: nat, into: nat)
    requires NUL !in s && Unread(json[..], s, from) && output <= from < |s| && Written(json[..], output, s, from)
    modifies json
    ensures from < read <= |s| && into <= read && Unread(json[..], s, read) && Written(json[..], into, s, read)
  {
    hide LineEnd, BlockEnd, StringEnd, Minified, Unread, Written;
    read, into := from, output;
    ghost var block := json[..];
    Look(block, s, from, from);
    Look(block, s, from, from + 1);
    MinifiedStep(s, from);
    if json[read] == QUOTE {
      ghost var before := json[..output];
      read, into := MinifyString(json, read, into, s, before);
      WrittenMore(block, output, s, from, json[..], s[from..read], into, read);
      return;
    } else if Dropped(json[read]) {
      read := read + 1;
    } else if json[read] == SLASH {
      if json[read + 1] == SLASH {
        read := SkipOnelineComment(json, read, s);
      } else if json[read + 1] == STAR {
        read := SkipMultilineComment(json, read, s);
      } else {
        read := read + 1;
      }
    } else {
      CopyKeeps(block, s, read, into);
      json[into] := json[read];
      assert json[..] == Copy(block, read, into);
      read, into := read + 1, into + 1;
      WrittenMore(block, output, s, from, json[..], [s[from]], into, read);
      return;
    }
    Advance(block, s, from, read);
    assert block[..output] + [] == block[..output] && [] + Minified(s, read) == Minified(s, read);
    WrittenMore(block, output, s, from, block, [], into, read);
  }

  lemma MinifiedEnd(s: bytes, p: nat)
    requires p <= |s| && Peek(s, p) == NUL
    ensures Minified(s, p) == []
  {
  }

  lemma MinifiedStep(s: bytes, p: nat)
    requires p < |s| && s[p] != NUL
    ensures Dropped(s[p]) ==> Minified(s, p) == Minified(s, p + 1)
    ensures s[p] == SLASH && Peek(s, p + 1) == SLASH ==>
              p + 2 <= |s| && Minified(s, p) == Minified(s, LineEnd(s, p + 2)) && LineEnd(s, p + 2) > p
    ensures s[p] == SLASH && Peek(s, p + 1) == STAR ==>
              p + 2 <= |s| && Minified(s, p) == Minified(s, BlockEnd(s, p + 2)) && BlockEnd(s, p + 2) > p
    ensures s[p] == SLASH && Peek(s, p + 1) != SLASH && Peek(s, p + 1) != STAR ==> Minified(s, p) == Minified(s, p + 1)
    ensures s[p] == QUOTE ==> Minified(s, p) == s[p..StringEnd(s, p + 1)] + Minified(s, StringEnd(s, p + 1))
    ensures !Dropped(s[p]) && s[p] != SLASH && s[p] != QUOTE ==> Minified(s, p) == [s[p]] + Minified(s, p + 1)
  {
    hide LineEnd, BlockEnd, StringEnd;
  }
}
