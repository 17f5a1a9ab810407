/**
  The printer of cJSON.c on its growing buffer. Each printer leaves the text either counted by offset or as a
  NUL-terminated tail behind offset that update_offset folds in; the text is the one of module PrintedText
  whatever the buffer's first size and however it grows.
 */
module Printer {
  import opened Bytes
  import opened Utf
  import opened Json
  import opened Nodes
  import opened PrintedText

  const INT_MAX: nat := 2147483647

  class PrintBuffer {
    var buffer: array<byte>
    var length: nat
    var offset: nat
    var depth: nat
    const noalloc: bool
    const format: bool
    const reallocates: bool

    constructor (block: array<byte>, size: nat, noalloc: bool, format: bool, reallocates: bool)
      requires size <= block.Length
      ensures buffer == block && length == size && offset == 0 && depth == 0
      ensures this.noalloc == noalloc && this.format == format && this.reallocates == reallocates
    {
      buffer, length, offset, depth := block, size, 0, 0;
      this.noalloc, this.format, this.reallocates := noalloc, format, reallocates;
    }

    /** Only a caller's empty block has no room for the byte at the offset. */
    ghost predicate Valid()
      reads `buffer, `length, `offset
    {
      length <= buffer.Length && length <= INT_MAX && (offset < length || (noalloc && offset == length == 0))
    }

    /** The largest block that can be had. */
    ghost function Capacity(): nat
      reads `length
    {
      if noalloc then length else INT_MAX
    }

    /** The text so far is t, all of it counted by the offset. */
    ghost predicate Settled(t: bytes)
      reads `buffer, `length, `offset, buffer
    {
      Valid() && offset == |t| && buffer[..offset] == t
    }

    /** The text so far is t; what the offset does not count is terminated by a NUL. */
    ghost predicate Pending(t: bytes)
      reads `buffer, `length, `offset, buffer
    {
      && Valid() && offset <= |t| < length && buffer[..|t|] == t && buffer[|t|] == NUL && NUL !in t[offset..]
    }

    /** ensure */
    method Ensure(needed: nat, ghost t: bytes) returns (ok: bool)
      requires Settled(t)
      modifies this`buffer, this`length
      ensures Settled(t) && Capacity() == old(Capacity())
      ensures ok <==> |t| + needed + 1 <= Capacity()
      ensures ok ==> offset + needed + 1 <= length
      ensures buffer == old(buffer) || (!noalloc && fresh(buffer))
      ensures noalloc ==> length == old(length)
    {
      if length > 0 && offset >= length {
        return false;
      }
      if needed > INT_MAX {
        return false;
      }
      var size := needed + offset + 1;
      if size <= length {
        return true;
      }
      if noalloc {
        return false;
      }
      var newsize;
      if size > INT_MAX / 2 {
        if size <= INT_MAX {
          newsize := INT_MAX;
        } else {
          return false;
        }
      } else {
        newsize := size * 2;
      }
      Grow(newsize, t);
      return true;
    }

    /** The two ways to a larger block: realloc keeps all of the old one, the manual copy only offset + 1 bytes. */
    method Grow(newsize: nat, ghost t: bytes)
      requires Settled(t) && !noalloc && length <= newsize <= INT_MAX
      modifies this`buffer, this`length
      ensures Settled(t) && length == newsize && fresh(buffer)
    {
      var kept := if reallocates then length else offset + 1;
      var newbuffer := new byte[newsize];
      forall i | 0 <= i < kept {
        newbuffer[i] := buffer[i];
      }
      assert newbuffer[..offset] == t by {
        assert forall i | 0 <= i < offset :: newbuffer[i] == buffer[..offset][i];
      }
      length := newsize;
      buffer := newbuffer;
    }

    /** update_offset: strlen of the tail. */
    method UpdateOffset(ghost t: bytes)
      requires Pending(t)
      modifies this`offset
      ensures Settled(t)
    {
      ghost var start := offset;
      assert forall k | start <= k < |t| :: buffer[k] == buffer[..|t|][k] == t[start..][k - start] != NUL;
      while buffer[offset] != NUL
        invariant start <= offset <= |t| < length && length <= buffer.Length
        invariant forall k | start <= k < |t| :: buffer[k] != NUL
        decreases |t| - offset
      {
        offset := offset + 1;
      }
    }

    /** Bytes stored from position at on, as the output pointer of the source does. */
    method Store(at: nat, t: bytes)
      requires at + |t| <= buffer.Length
      modifies buffer
      ensures buffer[..at] == old(buffer[..at]) && buffer[at..at + |t|] == t
      ensures buffer[..at + |t|] == old(buffer[..at]) + t
    {
      forall i | 0 <= i < |t| {
        buffer[at + i] := t[i];
      }
      assert buffer[..at + |t|] == buffer[..at] + buffer[at..at + |t|];
    }

    /** A short text and its terminator behind the text t; advance says whether the offset counts it. */
    method Append(ghost t: bytes, more: bytes, advance: bool)
      requires Settled(t) && |t| + |more| < length && NUL !in more
      modifies this`offset, buffer
      ensures Pending(t + more) && (advance ==> Settled(t + more))
    {
      Store(offset, more + [NUL]);
      var end := offset + |more|;
      assert buffer[..end + 1] == t + (more + [NUL]);
      assert buffer[..end] == (t + (more + [NUL]))[..end] == t + more;
      assert buffer[end] == (t + (more + [NUL]))[end] == NUL;
      assert (t + more)[|t|..] == more;
      if advance {
        offset := end;
        assert (t + more)[end..] == [];
      }
    }

    /** print_string_ptr for a C string t. */
    method PrintString(t: bytes, ghost s: bytes) returns (ok: bool)
      requires Settled(s) && NUL !in t
      modifies this`buffer, this`length, this`offset, buffer
      ensures Capacity() == old(Capacity()) && (buffer == old(buffer) || (!noalloc && fresh(buffer)))
      ensures noalloc ==> length == old(length)
      ensures ok <==> |s| + |StringText(t)| + 2 <= Capacity()
      ensures ok ==> Pending(s + StringText(t))
    {
      hide EscapedAll, Escaped;
      var escapeCharacters := 0;
      EscapedNothing();
      assert t[..0] == [];
      for i := 0 to |t|
        modifies {}
        invariant 0 <= escapeCharacters && i + escapeCharacters == |EscapedAll(t[..i])|
      {
        EscapedMore(t, i);
        EscapedLength(t[i]);
        if t[i] == QUOTE || t[i] == BACKSLASH || t[i] == 0x08 || t[i] == 0x0C || t[i] == NEWLINE || t[i] == CARRIAGE || t[i] == TAB {
          escapeCharacters := escapeCharacters + 1;
        } else if t[i] < 32 {
          escapeCharacters := escapeCharacters + 5;
        }
      }
      assert t[..|t|] == t;
      var outputLength := |t| + escapeCharacters;
      ok := Ensure(outputLength + 3, s);
      if !ok {
        return;
      }
      EscapedNoNul(t);
      if escapeCharacters == 0 {
        NothingEscaped(t);
        Append(s, [QUOTE] + t + [QUOTE], false);
        return;
      }
      WriteEscaped(t, outputLength, s);
    }

    /** The writing loop of print_string_ptr. */
    method WriteEscaped(t: bytes, outputLength: nat, ghost s: bytes)
      requires Settled(s) && NUL !in t && NUL !in EscapedAll(t) && outputLength == |EscapedAll(t)| && offset + outputLength + 4 <= length
      modifies buffer
      ensures Pending(s + StringText(t))
    {
      hide EscapedAll, Escaped;
      var out := offset;
      Store(out, [QUOTE]);
      out := out + 1;
      EscapedNothing();
      assert t[..0] == [];
      assert s + [QUOTE] + EscapedAll(t[..0]) == s + [QUOTE];
      for i := 0 to |t|
        invariant out == offset + 1 + |EscapedAll(t[..i])|
        invariant outputLength == |EscapedAll(t)| && |EscapedAll(t[..i])| <= outputLength
        invariant buffer[..out] == s + [QUOTE] + EscapedAll(t[..i])
      {
        EscapedMore(t, i);
        EscapedLength(t[i]);
        ghost var done := EscapedAll(t[..i]);
        WriteOne(t[i], out);
        assert s + [QUOTE] + done + Escaped(t[i]) == s + [QUOTE] + (done + Escaped(t[i]));
        out := out + |Escaped(t[i])|;
      }
      assert t[..|t|] == t;
      Store(out, [QUOTE, NUL]);
      ghost var all := s + [QUOTE] + EscapedAll(t);
      assert buffer[..out + 2] == all + [QUOTE, NUL];
      assert buffer[..out + 1] == buffer[..out + 2][..out + 1] == all + [QUOTE] == s + StringText(t);
      assert buffer[out + 1] == buffer[..out + 2][out + 1] == NUL;
      assert (s + StringText(t))[offset..] == StringText(t);
    }

    /** One character, escaped if need be; sprintf terminates a unicode escape with a NUL that is overwritten later. */
    method WriteOne(b: byte, out: nat)
      requires out + |Escaped(b)| + 1 <= buffer.Length && b != NUL
      modifies buffer
      ensures buffer[..out + |Escaped(b)|] == old(buffer[..out]) + Escaped(b)
    {
      if b > 31 && b != QUOTE && b != BACKSLASH {
        Store(out, [b]);
      } else if b == BACKSLASH {
        Store(out, [BACKSLASH, BACKSLASH]);
      } else if b == QUOTE {
        Store(out, [BACKSLASH, QUOTE]);
      } else if b == 0x08 {
        Store(out, [BACKSLASH, LOWER_B]);
      } else if b == 0x0C {
        Store(out, [BACKSLASH, LOWER_F]);
      } else if b == NEWLINE {
        Store(out, [BACKSLASH, LOWER_N]);
      } else if b == CARRIAGE {
        Store(out, [BACKSLASH, LOWER_R]);
      } else if b == TAB {
        Store(out, [BACKSLASH, LOWER_T]);
      } else {
        ghost var before := buffer[..out];
        Store(out, [BACKSLASH, LOWER_U, ZERO, ZERO, HexChar(b / 16), HexChar(b % 16), NUL]);
        assert buffer[..out + 6] == buffer[..out + 7][..out + 6] == before + Escaped(b);
      }
    }

    /** print_number for an integer below 10^15. */
    method PrintNumber(item: Node, ghost s: bytes) returns (ok: bool)
      requires Settled(s) && Printable(Number(item.valuedouble))
      modifies this`buffer, this`length, this`offset, buffer
      ensures Capacity() == old(Capacity()) && (buffer == old(buffer) || (!noalloc && fresh(buffer)))
      ensures noalloc ==> length == old(length)
      ensures ok <==> |s| + |IntegerText(item.valuedouble.Floor)| + 2 <= Capacity()
      ensures ok ==> Pending(s + IntegerText(item.valuedouble.Floor))
    {
      hide Decimal;
      var n := item.valuedouble.Floor;
      var numberBuffer := IntegerText(n);
      DecimalNoNul(if n < 0 then -n else n);
      ok := Ensure(|numberBuffer| + 1, s);
      if ok {
        Append(s, numberBuffer, true);
      }
    }

    /** print_value for the tree of item, behind the text s. */
    method PrintValue(item: Node, ghost sh: Shape, ghost v: Value, ghost owned: set<Node>, ghost s: bytes) returns (ok: bool)
      requires Settled(s) && Tree(item, sh, v, owned) && Printable(v)
      modifies this, buffer
      ensures Kept(old(Capacity()), old(length)) && (buffer == old(buffer) || (!noalloc && fresh(buffer)))
      ensures ok <==> |s| + |ValueText(v, format, old(depth))| + 2 <= Capacity()
      ensures ok ==> Pending(s + ValueText(v, format, old(depth))) && depth == old(depth)
      decreases sh, 1
    {
      hide Settled, Pending, StringText, IntegerText, RepAll, Apart, Chain, NodesOf, Keyed;
      match item.kind
      case IsNull => ok := PrintWord(NULL_TEXT, s);
      case IsFalse => ok := PrintWord(FALSE_TEXT, s);
      case IsTrue => ok := PrintWord(TRUE_TEXT, s);
      case IsNumber => ok := PrintNumber(item, s);
      case IsRaw => ok := PrintWord(item.valuestring.value, s);
      case IsString => ok := PrintString(item.valuestring.value, s);
      case IsArray => ok := PrintArray(item, sh, v, owned, s);
      case IsObject => ok := PrintObject(item, sh, v, owned, s);
      case IsInvalid => ok := false;
    }

    /** What no printer changes. */
    ghost predicate Kept(capacity: nat, size: nat)
      reads `length
    {
      Capacity() == capacity && (noalloc ==> length == size)
    }

    /** The fixed words of print_value, and its raw text. */
    method PrintWord(w: bytes, ghost s: bytes) returns (ok: bool)
      requires Settled(s) && NUL !in w
      modifies this`buffer, this`length, this`offset, buffer
      ensures Kept(old(Capacity()), old(length)) && (buffer == old(buffer) || (!noalloc && fresh(buffer)))
      ensures ok <==> |s| + |w| + 2 <= Capacity()
      ensures ok ==> Pending(s + w)
    {
      ok := Ensure(|w| + 1, s);
      if ok {
        Append(s, w, false);
      }
    }

    /** print_array */
    method PrintArray(item: Node, ghost sh: Shape, ghost v: Value, ghost owned: set<Node>, ghost s: bytes) returns (ok: bool)
      requires Settled(s) && Tree(item, sh, v, owned) && Printable(v) && v.Array?
      modifies this, buffer
      ensures Kept(old(Capacity()), old(length)) && (buffer == old(buffer) || (!noalloc && fresh(buffer)))
      ensures ok <==> |s| + |ValueText(v, format, old(depth))| + 2 <= Capacity()
      ensures ok ==> Pending(s + ValueText(v, format, old(depth))) && depth == old(depth)
      decreases sh, 0
    {
      hide Settled, Pending, Tree, ItemsText, Printable;
      ArrayText(v, format, depth);
      ok := Ensure(1, s);
      if !ok {
        return;
      }
      Put(s, OPEN_BRACKET);
      depth := depth + 1;
      ghost var w := s + [OPEN_BRACKET];
      ok := PrintItems(item, sh, v, owned, w);
      if !ok {
        return;
      }
      w := w + ItemsText(v, 0, format, depth);
      ok := Ensure(2, w);
      if !ok {
        return;
      }
      Append(w, [CLOSE_BRACKET], false);
      depth := depth - 1;
    }

    /** The loop of print_array over the elements. */
    method PrintItems(item: Node, ghost sh: Shape, ghost v: Value, ghost owned: set<Node>, ghost s: bytes) returns (ok: bool)
      requires Settled(s) && Tree(item, sh, v, owned) && Printable(v) && v.Array?
      modifies this, buffer
      ensures Kept(old(Capacity()), old(length)) && (buffer == old(buffer) || (!noalloc && fresh(buffer)))
      ensures |s| + |ItemsText(v, 0, format, old(depth))| + 2 <= Capacity() ==> ok
      ensures ok ==> Settled(s + ItemsText(v, 0, format, old(depth))) && depth == old(depth)
      decreases sh, 0, 0
    {
      hide Settled, Pending, Tree, ItemsText, Printable, ValueText, Separator;
      ghost var w, i, d := s, 0, depth;
      ghost var whole := s + ItemsText(v, 0, format, d);
      TreeKids(item, sh, v, owned);
      var current := item.child;
      NoItems(v, format, d);
      ok := true;
      while current != null
        invariant i <= |v.items| && (if i < |v.items| then current == sh.kids[i].node else current == null)
        invariant ok && Settled(w) && w + ItemsText(v, i, format, d) == whole
        invariant Tree(item, sh, v, owned) && depth == d
        invariant Kept(old(Capacity()), old(length)) && (buffer == old(buffer) || (!noalloc && fresh(buffer)))
        decreases |v.items| - i
      {
        TreeKid(item, sh, v, owned, i);
        PrintablePart(v, i);
        ItemsStep(v, i, format, d, w);
        ghost var t := ValueText(v.items[i], format, d);
        ok := PrintValue(current, sh.kids[i], v.items[i], Nodes.Nodes(sh.kids[i]), w);
        if !ok {
          return;
        }
        UpdateOffset(w + t);
        w := w + t;
        if current.next != null {
          ok := PrintSeparator(w);
          if !ok {
            return;
          }
          w := w + Separator(format);
        }
        current := current.next;
        i := i + 1;
      }
      assert w + [] == w;
    }

    /** One byte stored and counted, with no terminator behind it. */
    method Put(ghost t: bytes, b: byte)
      requires Settled(t) && |t| + 1 < length
      modifies this`offset, buffer
      ensures Settled(t + [b])
    {
      Store(offset, [b]);
      offset := offset + 1;
    }

    method PrintSeparator(ghost w: bytes) returns (ok: bool)
      requires Settled(w)
      modifies this`buffer, this`length, this`offset, buffer
      ensures Kept(old(Capacity()), old(length)) && (buffer == old(buffer) || (!noalloc && fresh(buffer)))
      ensures ok <==> |w| + |Separator(format)| + 2 <= Capacity()
      ensures ok ==> Settled(w + Separator(format))
    {
      var length := if format then 2 else 1;
      ok := Ensure(length + 1, w);
      if ok {
        Append(w, if format then [COMMA, SPACE] else [COMMA], true);
        assert Separator(format) == if format then [COMMA, SPACE] else [COMMA];
      }
    }

    /** print_object */
    method PrintObject(item: Node, ghost sh: Shape, ghost v: Value, ghost owned: set<Node>, ghost s: bytes) returns (ok: bool)
      requires Settled(s) && Tree(item, sh, v, owned) && Printable(v) && v.Object?
      modifies this, buffer
      ensures Kept(old(Capacity()), old(length)) && (buffer == old(buffer) || (!noalloc && fresh(buffer)))
      ensures ok <==> |s| + |ValueText(v, format, old(depth))| + 2 <= Capacity()
      ensures ok ==> Pending(s + ValueText(v, format, old(depth))) && depth == old(depth)
      decreases sh, 0
    {
      hide Settled, Pending, Tree, MembersText, Printable, Tabs, When;
      ObjectText(v, format, depth, s);
      ghost var d := depth;
      ok := OpenObject(s);
      if !ok {
        return;
      }
      ghost var w := s + [OPEN_BRACE] + When(format, [NEWLINE]);
      depth := depth + 1;
      ok := PrintMembers(item, sh, v, owned, w);
      if !ok {
        return;
      }
      ok := CloseObject(w + MembersText(v, 0, format, depth));
      if ok {
        depth := depth - 1;
      }
    }

    method OpenObject(ghost s: bytes) returns (ok: bool)
      requires Settled(s)
      modifies this`buffer, this`length, this`offset, buffer
      ensures Kept(old(Capacity()), old(length)) && (buffer == old(buffer) || (!noalloc && fresh(buffer)))
      ensures ok <==> |s| + 1 + |When(format, [NEWLINE])| + 2 <= Capacity()
      ensures ok ==> Settled(s + [OPEN_BRACE] + When(format, [NEWLINE]))
    {
      hide Settled;
      var length := if format then 2 else 1;
      ok := Ensure(length + 1, s);
      if ok {
        Put(s, OPEN_BRACE);
        ghost var w := s + [OPEN_BRACE];
        assert w + [] == w;
        if format {
          Put(w, NEWLINE);
        }
      }
    }

    method CloseObject(ghost s: bytes) returns (ok: bool)
      requires Settled(s) && depth > 0
      modifies this`buffer, this`length, this`offset, buffer
      ensures Kept(old(Capacity()), old(length)) && (buffer == old(buffer) || (!noalloc && fresh(buffer)))
      ensures ok <==> |s| + |When(format, Tabs(depth - 1))| + 1 + 2 <= Capacity()
      ensures ok ==> Pending(s + When(format, Tabs(depth - 1)) + [CLOSE_BRACE])
    {
      hide Settled, Pending, Tabs;
      ok := Ensure(if format then depth + 1 else 2, s);
      if ok {
        assert s + [] == s;
        if format {
          PutTabs(depth - 1, s);
        }
        Append(s + When(format, Tabs(depth - 1)), [CLOSE_BRACE], false);
      }
    }

    /** The loop of print_object over the members. */
    method PrintMembers(item: Node, ghost sh: Shape, ghost v: Value, ghost owned: set<Node>, ghost s: bytes) returns (ok: bool)
      requires Settled(s) && Tree(item, sh, v, owned) && Printable(v) && v.Object?
      modifies this, buffer
      ensures Kept(old(Capacity()), old(length)) && (buffer == old(buffer) || (!noalloc && fresh(buffer)))
      ensures |s| + |MembersText(v, 0, format, old(depth))| + 2 <= Capacity() ==> ok
      ensures ok ==> Settled(s + MembersText(v, 0, format, old(depth))) && depth == old(depth)
      decreases sh, 0, 0
    {
      hide Settled, Pending, Tree, MembersText, Printable, ValueText, MemberStart, MemberEnd, Spine, Nodes.Nodes;
      ghost var w, i, d := s, 0, depth;
      ghost var whole := s + MembersText(v, 0, format, d);
      TreeKids(item, sh, v, owned);
      var current := item.child;
      NoMembers(v, format, d);
      ok := true;
      while current != null
        invariant i <= |v.members| && (if i < |v.members| then current == sh.kids[i].node else current == null)
        invariant ok && Settled(w) && w + MembersText(v, i, format, d) == whole
        invariant Tree(item, sh, v, owned) && depth == d
        invariant Kept(old(Capacity()), old(length)) && (buffer == old(buffer) || (!noalloc && fresh(buffer)))
        decreases |v.members| - i
      {
        TreeKid(item, sh, v, owned, i);
        PrintablePart(v, i);
        MembersStep(v, i, format, d, w);
        ghost var m := v.members[i];
        ghost var t := ValueText(m.value, format, d);
        ok := PrintMemberStart(current, m, w);
        if !ok {
          return;
        }
        w := w + MemberStart(m, format, d);
        ok := PrintValue(current, sh.kids[i], m.value, Nodes.Nodes(sh.kids[i]), w);
        if !ok {
          return;
        }
        UpdateOffset(w + t);
        w := w + t;
        ok := PrintMemberEnd(current.next == null, w);
        if !ok {
          return;
        }
        w := w + MemberEnd(i + 1 == |v.members|, format);
        current := current.next;
        i := i + 1;
      }
      assert w + [] == w;
    }

    /** Tabulators, key and colon. */
    method PrintMemberStart(item: Node, ghost m: Member, ghost s: bytes) returns (ok: bool)
      requires Settled(s) && item.key == Some(m.key) && NUL !in m.key
      modifies this`buffer, this`length, this`offset, buffer
      ensures Kept(old(Capacity()), old(length)) && (buffer == old(buffer) || (!noalloc && fresh(buffer)))
      ensures |s| + |MemberStart(m, format, depth)| + 2 <= Capacity() ==> ok
      ensures ok ==> Settled(s + MemberStart(m, format, depth))
    {
      hide Settled, Pending, Tabs, StringText;
      ghost var w := s;
      if format {
        ok := Ensure(depth, w);
        if !ok {
          return;
        }
        PutTabs(depth, w);
      }
      assert w + [] == w;
      w := w + When(format, Tabs(depth));
      ok := PrintString(item.key.value, w);
      if !ok {
        return;
      }
      w := w + StringText(m.key);
      UpdateOffset(w);
      ok := Ensure(if format then 2 else 1, w);
      if !ok {
        return;
      }
      Put(w, COLON);
      w := w + [COLON];
      if format {
        Put(w, TAB);
      }
      assert w + [] == w;
      w := w + When(format, [TAB]);
      StartJoins(s, When(format, Tabs(depth)), StringText(m.key), When(format, [TAB]));
    }

    /** Comma if a member follows, then the line end. */
    method PrintMemberEnd(last: bool, ghost s: bytes) returns (ok: bool)
      requires Settled(s)
      modifies this`buffer, this`length, this`offset, buffer
      ensures Kept(old(Capacity()), old(length)) && (buffer == old(buffer) || (!noalloc && fresh(buffer)))
      ensures |s| + |MemberEnd(last, format)| + 2 <= Capacity() ==> ok
      ensures ok ==> Settled(s + MemberEnd(last, format))
    {
      hide Settled, Pending;
      var length := (if format then 1 else 0) + (if last then 0 else 1);
      ok := Ensure(length + 1, s);
      if ok {
        Append(s, (if last then [] else [COMMA]) + (if format then [NEWLINE] else []), true);
        assert MemberEnd(last, format) == (if last then [] else [COMMA]) + (if format then [NEWLINE] else []);
      }
    }

    method PutTabs(n: nat, ghost t: bytes)
      requires Settled(t) && |t| + n < length
      modifies this`offset, buffer
      ensures Settled(t + Tabs(n))
    {
      hide Settled;
      assert t + Tabs(0) == t;
      for i := 0 to n
        invariant Settled(t + Tabs(i)) && |t| + n < length
      {
        Put(t + Tabs(i), TAB);
        assert t + Tabs(i) + [TAB] == t + Tabs(i + 1);
      }
    }
  }

  // ----- the entry points -----

  /** Whether the whole text of v, its terminator and the one byte print_value always asks for besides fit. */
  ghost predicate Fits(v: Value, format: bool, capacity: int) {
    |ValueText(v, format, 0)| + 2 <= capacity
  }

  /** cJSON_Print and cJSON_PrintUnformatted: the block is cut to the text and its terminator. */
  method Print(item: Node, format: bool, reallocates: bool, ghost sh: Shape, ghost v: Value, ghost owned: set<Node>)
    returns (printed: array?<byte>)
    requires Tree(item, sh, v, owned) && Printable(v)
    ensures printed != null <==> Fits(v, format, INT_MAX)
    ensures printed != null ==> fresh(printed) && printed[..] == ValueText(v, format, 0) + [NUL]
  {
    hide Tree, Printable, ValueText;
    var block := new byte[256];
    var buffer := new PrintBuffer(block, 256, false, format, reallocates);
    assert buffer.buffer[..0] == [];
    ghost var t := ValueText(v, format, 0);
    assert [] + t == t;
    var ok := buffer.PrintValue(item, sh, v, owned, []);
    if !ok {
      return null;
    }
    assert buffer.buffer[..|t| + 1] == t + [NUL];
    buffer.UpdateOffset(t);
    printed := new byte[buffer.offset + 1];
    // realloc keeps offset + 1 bytes; so does the manual copy, for the block is never shorter than that.
    assert buffer.offset + 1 <= buffer.length;
    forall i | 0 <= i < buffer.offset + 1 {
      printed[i] := buffer.buffer[i];
    }
    assert printed[..] == buffer.buffer[..|t| + 1];
    printed[buffer.offset] := NUL;
    assert printed[..] == t + [NUL];
  }

  /** cJSON_PrintBuffered, for a first size that is not 0. */
  method PrintBuffered(item: Node, prebuffer: int, format: bool, reallocates: bool,
                       ghost sh: Shape, ghost v: Value, ghost owned: set<Node>) returns (printed: array?<byte>)
    requires Tree(item, sh, v, owned) && Printable(v) && prebuffer <= INT_MAX && prebuffer != 0
    ensures printed != null <==> prebuffer >= 0 && Fits(v, format, INT_MAX)
    ensures printed != null ==>
              var t := ValueText(v, format, 0);
              fresh(printed) && |t| < printed.Length && printed[..|t| + 1] == t + [NUL]
  {
    hide Tree, Printable, ValueText;
    if prebuffer < 0 {
      return null;
    }
    var block := new byte[prebuffer];
    var p := new PrintBuffer(block, prebuffer, false, format, reallocates);
    assert p.buffer[..0] == [];
    ghost var t := ValueText(v, format, 0);
    assert [] + t == t;
    var ok := p.PrintValue(item, sh, v, owned, []);
    if !ok {
      return null;
    }
    assert p.buffer[..|t| + 1] == t + [NUL];
    printed := p.buffer;
  }

  /** cJSON_PrintPreallocated: it succeeds exactly when the text and two more bytes fit in the caller's block. */
  method PrintPreallocated(item: Node, buffer: array?<byte>, length: int, format: bool,
                           ghost sh: Shape, ghost v: Value, ghost owned: set<Node>) returns (ok: bool)
    requires Tree(item, sh, v, owned) && Printable(v)
    requires buffer != null ==> length <= buffer.Length
    requires length <= INT_MAX
    modifies if buffer == null then {} else {buffer}
    ensures ok <==> buffer != null && Fits(v, format, length)
    ensures ok ==> buffer[..|ValueText(v, format, 0)| + 1] == ValueText(v, format, 0) + [NUL]
  {
    hide Tree, Printable, ValueText;
    if length < 0 || buffer == null {
      return false;
    }
    var p := new PrintBuffer(buffer, length, true, format, true);
    assert p.buffer[..0] == [];
    ghost var t := ValueText(v, format, 0);
    assert [] + t == t;
    ok := p.PrintValue(item, sh, v, owned, []);
    assert ok ==> buffer[..|t| + 1] == t + [NUL];
  }

  lemma StartJoins(s: bytes, tabs: bytes, key: bytes, tab: bytes)
    ensures s + tabs + key + [COLON] + tab == s + (tabs + key + [COLON] + tab)
  {
  }

  lemma ObjectText(v: Value, format: bool, depth: nat, s: bytes)
    requires v.Object?
    ensures s + ValueText(v, format, depth)
         == s + [OPEN_BRACE] + When(format, [NEWLINE]) + MembersText(v, 0, format, depth + 1) + When(format, Tabs(depth)) + [CLOSE_BRACE]
  {
    hide MembersText, Tabs, When;
    var n, ms, tabs := When(format, [NEWLINE]), MembersText(v, 0, format, depth + 1), When(format, Tabs(depth));
    assert s + ([OPEN_BRACE] + n + ms + tabs + [CLOSE_BRACE]) == s + [OPEN_BRACE] + n + ms + tabs + [CLOSE_BRACE];
  }

  lemma NoMembers(v: Value, format: bool, depth: nat)
    requires v.Object?
    ensures MembersText(v, |v.members|, format, depth) == []
  {
  }

  /** The text still to come, one member further. */
  lemma MembersStep(v: Value, i: nat, format: bool, depth: nat, w: bytes)
    requires v.Object? && i < |v.members|
    ensures w + MembersText(v, i, format, depth)
         == w + MemberStart(v.members[i], format, depth) + ValueText(v.members[i].value, format, depth)
            + MemberEnd(i + 1 == |v.members|, format) + MembersText(v, i + 1, format, depth)
  {
    hide ValueText, MemberStart, MemberEnd;
    var a, b := MemberStart(v.members[i], format, depth), ValueText(v.members[i].value, format, depth);
    var c, rest := MemberEnd(i + 1 == |v.members|, format), MembersText(v, i + 1, format, depth);
    assert w + (a + b + c + rest) == w + a + b + c + rest;
  }

  lemma PrintablePart(v: Value, i: nat)
    requires Printable(v) && i < Count(v)
    ensures Printable(Part(v, i)) && (v.Object? ==> NUL !in v.members[i].key)
  {
  }

  lemma NoItems(v: Value, format: bool, depth: nat)
    requires v.Array?
    ensures ItemsText(v, |v.items|, format, depth) == []
  {
  }

  lemma ArrayText(v: Value, format: bool, depth: nat)
    requires v.Array?
    ensures ValueText(v, format, depth) == [OPEN_BRACKET] + ItemsText(v, 0, format, depth + 1) + [CLOSE_BRACKET]
    ensures forall s: bytes :: s + ValueText(v, format, depth) == s + [OPEN_BRACKET] + ItemsText(v, 0, format, depth + 1) + [CLOSE_BRACKET]
  {
    hide ItemsText;
    forall s: bytes
      ensures s + ValueText(v, format, depth) == s + [OPEN_BRACKET] + ItemsText(v, 0, format, depth + 1) + [CLOSE_BRACKET]
    {
      assert s + ([OPEN_BRACKET] + ItemsText(v, 0, format, depth + 1) + [CLOSE_BRACKET])
          == s + [OPEN_BRACKET] + ItemsText(v, 0, format, depth + 1) + [CLOSE_BRACKET];
    }
  }

  /** The text still to come, one element further. */
  lemma ItemsStep(v: Value, i: nat, format: bool, depth: nat, w: bytes)
    requires v.Array? && i < |v.items|
    ensures var t, n := ValueText(v.items[i], format, depth), |v.items|;
            && (i + 1 < n ==> w + ItemsText(v, i, format, depth) == w + t + Separator(format) + ItemsText(v, i + 1, format, depth))
            && (i + 1 == n ==> ItemsText(v, i + 1, format, depth) == []
                               && w + ItemsText(v, i, format, depth) == w + t + ItemsText(v, i + 1, format, depth))
  {
    hide ValueText, Separator;
    var t := ValueText(v.items[i], format, depth);
    var rest := ItemsText(v, i + 1, format, depth);
    if i + 1 < |v.items| {
      assert w + (t + Separator(format) + rest) == w + t + Separator(format) + rest;
    } else {
      assert w + (t + [] + []) == w + t + [];
    }
  }

  lemma EscapedLength(b: byte)
    ensures |Escaped(b)| ==
            if b == QUOTE || b == BACKSLASH || b == 0x08 || b == 0x0C || b == NEWLINE || b == CARRIAGE || b == TAB then 2
            else if b < 32 then 6 else 1
  {
  }
}
