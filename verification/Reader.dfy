/**
  What the recursive-descent parser computes (parse_value, parse_array, parse_object, buffer_skip_whitespace and
  cJSON_ParseWithOpts), as functions of the text and the offset.
 */
module Reader {
  import opened Bytes
  import opened Utf
  import opened Json
  import opened Literal
  import opened Numeral
  import opened Grammar

  datatype ReadVal = ReadVal(value: Value, next: nat)
  datatype ReadItems = ReadItems(items: seq<Value>, next: nat)
  datatype ReadMembers = ReadMembers(members: seq<Member>, next: nat)

  function BlankEnd(s: bytes, p: nat): (r: nat)
    requires p <= |s|
    ensures p <= r <= |s|
    ensures Blank(s[p..r]) && (r < |s| ==> s[r] > SPACE)
    decreases |s| - p
  {
    if p < |s| && s[p] <= SPACE then
      var r := BlankEnd(s, p + 1);
      assert forall k | p < k < r :: s[k] == s[p + 1..r][k - p - 1];
      r
    else p
  }

  /** buffer_skip_whitespace: it skips to the end of the buffer and then takes one step back. */
  function SkipBlank(s: bytes, off: nat): (r: nat)
    requires off <= |s|
    ensures off <= r <= |s|
    ensures off < |s| ==> r < |s|
  {
    if off == |s| then off
    else if BlankEnd(s, off) == |s| then |s| - 1 else BlankEnd(s, off)
  }

  ghost function ReadValue(s: bytes, off: nat, depth: nat): (r: Option<ReadVal>)
    requires off <= |s|
    ensures r.Some? ==> off < r.value.next <= |s|
    decreases |s| - off, 1
  {
    if At(s, off, NULL_TEXT) then Some(ReadVal(Null, off + 4))
    else if At(s, off, FALSE_TEXT) then Some(ReadVal(False, off + 5))
    else if At(s, off, TRUE_TEXT) then Some(ReadVal(True, off + 4))
    else if off == |s| then None
    else if s[off] == QUOTE then
      var l := ReadLiteral(s, off);
      if l.None? then None else Some(ReadVal(String(l.value.text), l.value.next))
    else if s[off] == MINUS || Digit(s[off]) then
      var n := ReadNumber(s, off);
      if n.None? then None else Some(ReadVal(Number(n.value.value), n.value.next))
    else if s[off] == OPEN_BRACKET then ReadArray(s, off, depth)
    else if s[off] == OPEN_BRACE then ReadObject(s, off, depth)
    else None
  }

  ghost function ReadArray(s: bytes, off: nat, depth: nat): (r: Option<ReadVal>)
    requires off < |s|
    ensures r.Some? ==> off < r.value.next <= |s|
    decreases |s| - off, 0
  {
    if depth >= NESTING_LIMIT then None
    else
      var p := SkipBlank(s, off + 1);
      if p == |s| then None
      else if s[p] == CLOSE_BRACKET then Some(ReadVal(Array([]), p + 1))
      else
        var r := ReadElements(s, p, depth + 1);
        if r.None? then None else Some(ReadVal(Array(r.value.items), r.value.next))
  }

  /** The elements from p on, and the closing bracket. */
  ghost function ReadElements(s: bytes, p: nat, depth: nat): (r: Option<ReadItems>)
    requires p <= |s|
    ensures r.Some? ==> p < r.value.next <= |s|
    decreases |s| - p, 2
  {
    var v := ReadValue(s, SkipBlank(s, p), depth);
    if v.None? then None
    else
      var e := SkipBlank(s, v.value.next);
      if e < |s| && s[e] == COMMA then
        var rest := ReadElements(s, e + 1, depth);
        if rest.None? then None else Some(ReadItems([v.value.value] + rest.value.items, rest.value.next))
      else if e < |s| && s[e] == CLOSE_BRACKET then Some(ReadItems([v.value.value], e + 1))
      else None
  }

  ghost function ReadObject(s: bytes, off: nat, depth: nat): (r: Option<ReadVal>)
    requires off < |s|
    ensures r.Some? ==> off < r.value.next <= |s|
    decreases |s| - off, 0
  {
    if depth >= NESTING_LIMIT then None
    else
      var p := SkipBlank(s, off + 1);
      if p == |s| then None
      else if s[p] == CLOSE_BRACE then Some(ReadVal(Object([]), p + 1))
      else
        var r := ReadFields(s, p, depth + 1);
        if r.None? then None else Some(ReadVal(Object(r.value.members), r.value.next))
  }

  /** The key from p on, the colon behind it, and the offset where the value is looked for. */
  ghost function ReadKey(s: bytes, p: nat): (r: Option<Read>)
    requires p <= |s|
    ensures r.Some? ==> p < r.value.next <= |s|
  {
    var q := SkipBlank(s, p);
    if q == |s| then None
    else
      var k := ReadLiteral(s, q);
      if k.None? then None
      else
        var c := SkipBlank(s, k.value.next);
        if c < |s| && s[c] == COLON then Some(Read(k.value.text, c + 1)) else None
  }

  /** The members from p on, and the closing brace. */
  ghost function ReadFields(s: bytes, p: nat, depth: nat): (r: Option<ReadMembers>)
    requires p <= |s|
    ensures r.Some? ==> p < r.value.next <= |s|
    decreases |s| - p, 2
  {
    var k := ReadKey(s, p);
    if k.None? then None
    else
      var v := ReadValue(s, SkipBlank(s, k.value.next), depth);
      if v.None? then None
      else
        var m := Member(k.value.text, v.value.value);
        var e := SkipBlank(s, v.value.next);
        if e < |s| && s[e] == COMMA then
          var rest := ReadFields(s, e + 1, depth);
          if rest.None? then None else Some(ReadMembers([m] + rest.value.members, rest.value.next))
        else if e < |s| && s[e] == CLOSE_BRACE then Some(ReadMembers([m], e + 1))
        else None
  }

  /** Offset behind a byte order mark; the mark is only looked for when at least four bytes of text are there. */
  ghost function SkipMark(s: bytes): (r: nat)
    ensures r <= |s|
  {
    if |s| > 4 && At(s, 0, BYTE_ORDER_MARK) then 3 else 0
  }

  /** cJSON_ParseWithOpts on the NUL-terminated text s. */
  ghost function ReadDocument(s: bytes, requireTerminated: bool): Option<Value>
    requires Terminated(s)
  {
    var r := ReadValue(s, SkipBlank(s, SkipMark(s)), 0);
    if r.None? then None
    else if requireTerminated then
      var q := SkipBlank(s, r.value.next);
      if q == |s| || s[q] != NUL then None else Some(r.value.value)
    else Some(r.value.value)
  }

  // ----- the loops, one round at a time -----

  function PrependItems(vs: seq<Value>, r: Option<ReadItems>): Option<ReadItems> {
    if r.None? then None else Some(ReadItems(vs + r.value.items, r.value.next))
  }

  function PrependMembers(ms: seq<Member>, r: Option<ReadMembers>): Option<ReadMembers> {
    if r.None? then None else Some(ReadMembers(ms + r.value.members, r.value.next))
  }

  lemma PrependItemsOnce(vs: seq<Value>, v: Value, r: Option<ReadItems>)
    ensures PrependItems(vs, PrependItems([v], r)) == PrependItems(vs + [v], r)
    ensures PrependItems([], r) == r
  {
    if r.Some? {
      assert vs + ([v] + r.value.items) == vs + [v] + r.value.items;
      assert [] + r.value.items == r.value.items;
    }
  }

  lemma PrependMembersOnce(ms: seq<Member>, m: Member, r: Option<ReadMembers>)
    ensures PrependMembers(ms, PrependMembers([m], r)) == PrependMembers(ms + [m], r)
    ensures PrependMembers([], r) == r
  {
    if r.Some? {
      assert ms + ([m] + r.value.members) == ms + [m] + r.value.members;
      assert [] + r.value.members == r.value.members;
    }
  }

  /** What one element and the byte behind it make of the loop over the elements. */
  lemma ElementsRound(s: bytes, p: nat, depth: nat)
    requires p <= |s|
    ensures var v := ReadValue(s, SkipBlank(s, p), depth);
            if v.None? then ReadElements(s, p, depth) == None
            else
              var e := SkipBlank(s, v.value.next);
              if e < |s| && s[e] == COMMA then
                ReadElements(s, p, depth) == PrependItems([v.value.value], ReadElements(s, e + 1, depth))
              else if e < |s| && s[e] == CLOSE_BRACKET then
                ReadElements(s, p, depth) == Some(ReadItems([v.value.value], e + 1))
              else ReadElements(s, p, depth) == None
  {
    hide ReadValue, SkipBlank;
  }

  lemma FieldsRound(s: bytes, p: nat, depth: nat)
    requires p <= |s|
    ensures var k := ReadKey(s, p);
            if k.None? then ReadFields(s, p, depth) == None
            else
              var v := ReadValue(s, SkipBlank(s, k.value.next), depth);
              if v.None? then ReadFields(s, p, depth) == None
              else
                var m := Member(k.value.text, v.value.value);
                var e := SkipBlank(s, v.value.next);
                if e < |s| && s[e] == COMMA then
                  ReadFields(s, p, depth) == PrependMembers([m], ReadFields(s, e + 1, depth))
                else if e < |s| && s[e] == CLOSE_BRACE then
                  ReadFields(s, p, depth) == Some(ReadMembers([m], e + 1))
                else ReadFields(s, p, depth) == None
  {
    hide ReadValue, SkipBlank, ReadKey;
  }

  // ----- white space -----

  lemma {:induction false} BlankEndIs(s: bytes, p: nat, q: nat)
    requires p <= q <= |s| && Blank(s[p..q]) && (q < |s| ==> s[q] > SPACE)
    ensures BlankEnd(s, p) == q
    decreases q - p
  {
    if p < q {
      assert s[p] == s[p..q][0];
      assert s[p + 1..q] == s[p..q][1..];
      BlankEndIs(s, p + 1, q);
    }
  }

  lemma SkipsBlank(s: bytes, off: nat, w: bytes)
    requires At(s, off, w) && Blank(w) && off + |w| < |s| && s[off + |w|] > SPACE
    ensures SkipBlank(s, off) == off + |w|
  {
    BlankEndIs(s, off, off + |w|);
  }

  lemma SkipTwice(s: bytes, off: nat)
    requires off <= |s|
    ensures SkipBlank(s, SkipBlank(s, off)) == SkipBlank(s, off)
  {
    var q := SkipBlank(s, off);
    if off < |s| && s[q] <= SPACE {
      assert s[q..] == [s[q]];
      BlankEndIs(s, q, |s|);
    }
  }

  /** What was skipped is white space. */
  lemma SkippedBlank(s: bytes, off: nat)
    requires off <= |s|
    ensures At(s, off, s[off..SkipBlank(s, off)]) && Blank(s[off..SkipBlank(s, off)])
    ensures SkipBlank(s, off) < |s| && s[SkipBlank(s, off)] <= SPACE ==> SkipBlank(s, off) == |s| - 1
  {
    if off < |s| {
      var r := BlankEnd(s, off);
      assert forall k | off <= k < r :: s[k] == s[off..r][k - off];
    }
  }
}
