/**
  The recursive-descent parser of cJSON.c on its mutable parse buffer, building linked items. Every method is
  proved against the functions of module Reader; that each index into content is in range is part of the proof.
 */
module Parser {
  import opened Bytes
  import opened Utf
  import opened Json
  import opened Literal
  import opened Numeral
  import opened Reader
  import opened Nodes

  class ParseBuffer {
    const content: bytes
    var offset: nat
    var depth: nat

    constructor (text: bytes)
      ensures content == text && offset == 0 && depth == 0
    {
      content := text;
      offset, depth := 0, 0;
    }

    ghost predicate Valid()
      reads this
    {
      Terminated(content) && offset <= |content| && depth <= NESTING_LIMIT
    }

    /** buffer_skip_whitespace: it never steps back behind its start. */
    method SkipWhitespace()
      requires Valid()
      modifies this`offset
      ensures Valid() && offset == SkipBlank(content, old(offset))
    {
      if offset == |content| {
        return;
      }
      while offset < |content| && content[offset] <= SPACE
        invariant old(offset) <= offset <= |content|
        invariant BlankEnd(content, old(offset)) == BlankEnd(content, offset)
      {
        offset := offset + 1;
      }
      if offset == |content| {
        offset := offset - 1;
      }
    }

    /** skip_utf8_bom */
    method SkipByteOrderMark()
      requires Valid() && offset == 0
      modifies this`offset
      ensures Valid() && offset == SkipMark(content)
    {
      if offset + 4 < |content| && SeesWord(BYTE_ORDER_MARK) {
        offset := offset + 3;
      }
    }

    predicate Sees(b: byte)
      reads this
    {
      offset < |content| && content[offset] == b
    }

    /** strncmp of the text at the offset with a word. */
    predicate SeesWord(w: bytes)
      reads this
    {
      offset + |w| <= |content| && content[offset..offset + |w|] == w
    }

    method ParseNumber(item: Node) returns (ok: bool)
      requires Valid()
      modifies this`offset, item`kind, item`valuedouble
      ensures Valid()
      ensures ok <==> ReadNumber(content, old(offset)).Some?
      ensures ok ==> ReadNumber(content, old(offset)) == Some(ReadNum(item.valuedouble, offset)) && item.kind == IsNumber
    {
      hide ReadNumber;
      var value, next;
      ok, value, next := ParseDigits(content, offset);
      if ok {
        item.valuedouble := value;
        item.kind := IsNumber;
        offset := next;
      }
    }

    method ParseString(item: Node) returns (ok: bool)
      requires Valid() && offset < |content|
      modifies this`offset, item`kind, item`valuestring
      ensures Valid()
      ensures ok <==> ReadLiteral(content, old(offset)).Some?
      ensures ok ==> ReadLiteral(content, old(offset)) == Some(Read(item.valuestring.GetOr([]), offset))
      ensures ok ==> item.kind == IsString && item.valuestring.Some?
    {
      hide ScanEnd, Decode, CString, Escapes;
      var start := offset + 1;
      if content[offset] != QUOTE {
        offset := start;
        return false;
      }
      var end, skipped, text, stop;
      ok, end, skipped := FindLiteralEnd(content, start);
      if !ok {
        offset := start;
        return;
      }
      ok, text, stop := DecodeLiteral(content, start, end, skipped);
      if !ok {
        offset := stop;
        return;
      }
      item.kind := IsString;
      item.valuestring := Some(text);
      offset := end + 1;
    }

    /** parse_value */
    method ParseValue(item: Node) returns (ok: bool, ghost kids: seq<Shape>)
      requires Valid() && item.child == null
      modifies this`offset, this`depth, item`kind, item`valuestring, item`valuedouble, item`child
      ensures Valid()
      ensures ok <==> ReadValue(content, old(offset), old(depth)).Some?
      ensures ok ==>
                var r := ReadValue(content, old(offset), old(depth)).value;
                offset == r.next && depth == old(depth) && Rep(Shape(item, kids), r.value) && fresh(NodesOf(kids))
      decreases |content| - offset, 1
    {
      hide ReadArray, ReadObject, ReadNumber, ReadLiteral;
      kids := [];
      ok := true;
      if SeesWord(NULL_TEXT) {
        item.kind := IsNull;
        offset := offset + 4;
      } else if SeesWord(FALSE_TEXT) {
        item.kind := IsFalse;
        offset := offset + 5;
      } else if SeesWord(TRUE_TEXT) {
        item.kind := IsTrue;
        offset := offset + 4;
      } else if Sees(QUOTE) {
        ok := ParseString(item);
      } else if Sees(MINUS) || (offset < |content| && Digit(content[offset])) {
        ok := ParseNumber(item);
      } else if Sees(OPEN_BRACKET) {
        ok, kids := ParseArray(item);
      } else if Sees(OPEN_BRACE) {
        ok, kids := ParseObject(item);
      } else {
        ok := false;
      }
    }

    /** parse_array */
    method ParseArray(item: Node) returns (ok: bool, ghost kids: seq<Shape>)
      requires Valid() && Sees(OPEN_BRACKET) && item.child == null
      modifies this`offset, this`depth, item`kind, item`child
      ensures Valid()
      ensures ok <==> ReadArray(content, old(offset), old(depth)).Some?
      ensures ok ==>
                var r := ReadArray(content, old(offset), old(depth)).value;
                offset == r.next && depth == old(depth) && Rep(Shape(item, kids), r.value) && fresh(NodesOf(kids))
      decreases |content| - offset, 0
    {
      hide Terminated, ReadElements, SkipBlank, Rep, RepAll, Chain, Apart, NodesOf, Spine, Below;
      kids := [];
      NoKids();
      if depth >= NESTING_LIMIT {
        return false, [];
      }
      depth := depth + 1;
      TerminatedIndex(content, offset);
      offset := offset + 1;
      SkipWhitespace();
      var head: Node? := null;
      ghost var items := [];
      if !Sees(CLOSE_BRACKET) {
        // The source checks here that the end of the buffer was not reached: a terminated text guarantees it.
        assert offset < |content|;
        offset := offset - 1;
        items := ReadElements(content, offset + 1, depth).GetOr(ReadItems([], 0)).items;
        ok, head, kids := ParseElements();
        if !ok {
          return;
        }
      }
      assert item !in NodesOf(kids) && item !in Spine(kids) && item !in Below(kids);
      depth := depth - 1;
      item.kind := IsArray;
      item.child := head;
      RepArray(item, kids, items);
      offset := offset + 1;
      ok := true;
    }

    /** The loop of parse_array over the comma separated elements; it stops in front of the closing bracket. */
    method ParseElements() returns (ok: bool, head: Node?, ghost kids: seq<Shape>)
      requires Valid() && offset < |content|
      modifies this`offset, this`depth
      ensures Valid()
      ensures ok <==> ReadElements(content, old(offset) + 1, old(depth)).Some?
      ensures ok ==>
                var r := ReadElements(content, old(offset) + 1, old(depth)).value;
                && offset + 1 == r.next && depth == old(depth)
                && Chain(head, Spine(kids)) && Apart(kids) && RepAll(kids, r.items) && fresh(NodesOf(kids))
      decreases |content| - offset - 1, 3
    {
      hide Terminated, ReadElements, ReadValue, SkipBlank, Built, Chain, RepAll, Apart, NodesOf, Spine;
      head, kids := null, [];
      var current: Node? := null;
      ghost var items, owned := [], {};
      ghost var all := ReadElements(content, offset + 1, depth);
      PrependItemsOnce([], Null, all);
      BuiltNothing();
      while true
        invariant Valid() && old(offset) <= offset < |content| && depth == old(depth)
        invariant Built(head, current, kids, items, owned) && fresh(owned)
        invariant all == PrependItems(items, ReadElements(content, offset + 1, depth))
        decreases |content| - offset
      {
        ElementsRound(content, offset + 1, depth);
        ghost var vs, v := items, ReadValue(content, SkipBlank(content, offset + 1), depth);
        BuiltLast(head, current, kids, items, owned);
        ok, head, current, kids, owned := ParseElement(head, current, kids, items, owned);
        if !ok {
          return;
        }
        items := items + [v.value.value];
        SkipWhitespace();
        if !Sees(COMMA) {
          break;
        }
        PrependItemsOnce(vs, v.value.value, ReadElements(content, offset + 1, depth));
      }
      ok := Sees(CLOSE_BRACKET);
      if ok {
        BuiltLast(head, current, kids, items, owned);
        Close(head, current, kids, items, owned);
      }
    }

    /** One round of that loop: a new item is attached and its value parsed. */
    method ParseElement(first: Node?, last: Node?, ghost before: seq<Shape>, ghost items: seq<Value>, ghost had: set<Node>)
      returns (ok: bool, head: Node, current: Node, ghost kids: seq<Shape>, ghost owned: set<Node>)
      requires Valid() && offset < |content|
      requires Built(first, last, before, items, had)
      modifies this`offset, this`depth, (if last == null then {} else {last})`next
      ensures Valid()
      ensures var v := ReadValue(content, SkipBlank(content, old(offset) + 1), old(depth));
              && (ok <==> v.Some?)
              && (ok ==>
                    && offset == v.value.next && depth == old(depth)
                    && Built(head, current, kids, items + [v.value.value], owned) && kids != [] && fresh(owned - had))
      decreases |content| - offset - 1, 2
    {
      hide ReadValue, SkipBlank, Rep, Attached, Built, NodesOf;
      kids, owned := before, had;
      head, current := Extend(first, last, before, items, had);
      offset := offset + 1;
      SkipWhitespace();
      ghost var sub;
      ghost var v := ReadValue(content, offset, depth);
      ok, sub := ParseValue(current);
      if ok {
        kids, owned := Extended(head, current, before, sub, items, v.value.value, had);
      }
    }

    /** parse_object */
    method ParseObject(item: Node) returns (ok: bool, ghost kids: seq<Shape>)
      requires Valid() && Sees(OPEN_BRACE) && item.child == null
      modifies this`offset, this`depth, item`kind, item`child
      ensures Valid()
      ensures ok <==> ReadObject(content, old(offset), old(depth)).Some?
      ensures ok ==>
                var r := ReadObject(content, old(offset), old(depth)).value;
                offset == r.next && depth == old(depth) && Rep(Shape(item, kids), r.value) && fresh(NodesOf(kids))
      decreases |content| - offset, 0
    {
      hide Terminated, ReadFields, SkipBlank, Rep, RepAll, Chain, Apart, NodesOf, Spine, Below, Keyed, ValuesOf;
      kids := [];
      NoKids();
      if depth >= NESTING_LIMIT {
        return false, [];
      }
      depth := depth + 1;
      TerminatedIndex(content, offset);
      offset := offset + 1;
      SkipWhitespace();
      var head: Node? := null;
      ghost var members := [];
      if !Sees(CLOSE_BRACE) {
        // The source checks here that the end of the buffer was not reached: a terminated text guarantees it.
        assert offset < |content|;
        offset := offset - 1;
        members := ReadFields(content, offset + 1, depth).GetOr(ReadMembers([], 0)).members;
        ok, head, kids := ParseMembers();
        if !ok {
          return;
        }
      }
      assert item !in NodesOf(kids) && item !in Spine(kids) && item !in Below(kids);
      depth := depth - 1;
      item.kind := IsObject;
      item.child := head;
      RepObject(item, kids, members);
      offset := offset + 1;
      ok := true;
    }

    /** The loop of parse_object over the comma separated members; it stops in front of the closing brace. */
    method ParseMembers() returns (ok: bool, head: Node?, ghost kids: seq<Shape>)
      requires Valid() && offset + 1 < |content|
      modifies this`offset, this`depth
      ensures Valid()
      ensures ok <==> ReadFields(content, old(offset) + 1, old(depth)).Some?
      ensures ok ==>
                var r := ReadFields(content, old(offset) + 1, old(depth)).value;
                && offset + 1 == r.next && depth == old(depth) && Chain(head, Spine(kids)) && Apart(kids)
                && RepAll(kids, ValuesOf(r.members)) && Keyed(kids, r.members) && fresh(NodesOf(kids))
      decreases |content| - offset - 1, 3
    {
      hide Terminated, ReadFields, ReadValue, ReadKey, SkipBlank, BuiltMembers, Chain, RepAll, Apart, NodesOf, Spine, Keyed, ValuesOf;
      head, kids := null, [];
      var current: Node? := null;
      ghost var members, owned := [], {};
      ghost var all := ReadFields(content, offset + 1, depth);
      PrependMembersOnce([], Member([], Null), all);
      BuiltNothing();
      while true
        invariant Valid() && old(offset) <= offset && offset + 1 < |content| && depth == old(depth)
        invariant BuiltMembers(head, current, kids, members, owned) && fresh(owned)
        invariant all == PrependMembers(members, ReadFields(content, offset + 1, depth))
        decreases |content| - offset
      {
        FieldsRound(content, offset + 1, depth);
        ghost var ms, k := members, ReadKey(content, offset + 1);
        ghost var v := if k.None? then None else ReadValue(content, SkipBlank(content, k.value.next), depth);
        BuiltMembersLast(head, current, kids, members, owned);
        ok, head, current, kids, owned := ParseMember(head, current, kids, members, owned);
        if !ok {
          return;
        }
        members := members + [Member(k.value.text, v.value.value)];
        SkipWhitespace();
        if !Sees(COMMA) {
          break;
        }
        TerminatedIndex(content, offset);
        PrependMembersOnce(ms, Member(k.value.text, v.value.value), ReadFields(content, offset + 1, depth));
      }
      ok := Sees(CLOSE_BRACE);
      if ok {
        BuiltMembersWhole(head, current, kids, members, owned);
        Close(head, current, kids, ValuesOf(members), owned);
      }
    }

    /** The name of a member and the colon behind it: the parsed string is moved from valuestring to key. */
    method ParseKey(item: Node) returns (ok: bool)
      requires Valid() && offset < |content|
      modifies this`offset, item`kind, item`valuestring, item`key
      ensures Valid()
      ensures ok <==> ReadKey(content, old(offset)).Some?
      ensures ok ==> ReadKey(content, old(offset)) == Some(Read(item.key.GetOr([]), offset)) && item.key.Some?
      ensures ok ==> item.valuestring == None
    {
      hide ReadLiteral, SkipBlank;
      SkipWhitespace();
      ok := ParseString(item);
      if !ok {
        return;
      }
      SkipWhitespace();
      item.key := item.valuestring;
      item.valuestring := None;
      if !Sees(COLON) {
        return false;
      }
      offset := offset + 1;
    }

    /** One round of the loop over the members. */
    method ParseMember(first: Node?, last: Node?, ghost before: seq<Shape>, ghost members: seq<Member>, ghost had: set<Node>)
      returns (ok: bool, head: Node, current: Node, ghost kids: seq<Shape>, ghost owned: set<Node>)
      requires Valid() && offset + 1 < |content|
      requires BuiltMembers(first, last, before, members, had)
      modifies this`offset, this`depth, (if last == null then {} else {last})`next
      ensures Valid()
      ensures var k := ReadKey(content, old(offset) + 1);
              var v := if k.None? then None else ReadValue(content, SkipBlank(content, k.value.next), old(depth));
              && (ok <==> v.Some?)
              && (ok ==>
                    var ms := members + [Member(k.value.text, v.value.value)];
                    && offset == v.value.next && depth == old(depth)
                    && BuiltMembers(head, current, kids, ms, owned) && kids != [] && fresh(owned - had))
      decreases |content| - offset - 1, 2
    {
      hide ReadValue, ReadKey, SkipBlank, Rep, Attached, Built, NodesOf, BuiltMembers, ValuesOf;
      kids, owned := before, had;
      head, current := ExtendMembers(first, last, before, members, had);
      offset := offset + 1;
      ok := ParseKey(current);
      if !ok {
        return;
      }
      ghost var m := current.key.value;
      SkipWhitespace();
      ghost var sub;
      ghost var v := ReadValue(content, offset, depth);
      ok, sub := ParseValue(current);
      if ok {
        kids, owned := ExtendedMembers(head, current, before, sub, members, Member(m, v.value.value), had);
      }
    }
  }

  /**
    cJSON_ParseWithOpts on the NUL-terminated text value. A tree is built exactly when the text is accepted;
    otherwise the error position lies inside the text or on its terminator.
   */
  method ParseWithOpts(value: bytes, requireTerminated: bool)
    returns (item: Node?, errorPosition: nat, ghost kids: seq<Shape>)
    requires Terminated(value)
    ensures item != null <==> ReadDocument(value, requireTerminated).Some?
    ensures item != null ==>
              && Rep(Shape(item, kids), ReadDocument(value, requireTerminated).value)
              && fresh(item) && fresh(NodesOf(kids))
    ensures item == null ==> errorPosition < |value|
  {
    hide ReadValue, SkipBlank, SkipMark, Rep, NodesOf, Terminated;
    var buffer := new ParseBuffer(value);
    var root := new Node();
    buffer.SkipByteOrderMark();
    buffer.SkipWhitespace();
    var ok;
    ok, kids := buffer.ParseValue(root);
    if ok && requireTerminated {
      KidsAllocated(kids);
      buffer.SkipWhitespace();
      ok := buffer.Sees(NUL);
    }
    if ok {
      return root, 0, kids;
    }
    errorPosition := if buffer.offset < |value| then buffer.offset else |value| - 1;
    item := null;
  }

  /** The list under construction: its head, its last node, and no prev of the head yet. */
  ghost predicate Growing(head: Node?, current: Node?, kids: seq<Shape>)
    reads Spine(kids)`next, Spine(kids)`prev
  {
    var ns := Spine(kids);
    if ns == [] then head == null && current == null
    else head == ns[0] && current == ns[|ns| - 1] && ns[|ns| - 1].next == null && Linked(ns)
  }

  /** A list under construction whose items denote vs; owned are all the nodes it is made of. */
  ghost predicate Built(head: Node?, current: Node?, kids: seq<Shape>, vs: seq<Value>, owned: set<Node>)
    reads owned
  {
    owned == NodesOf(kids) && Growing(head, current, kids) && Apart(kids) && RepAll(kids, vs)
  }

  ghost predicate BuiltMembers(head: Node?, current: Node?, kids: seq<Shape>, ms: seq<Member>, owned: set<Node>)
    reads owned
  {
    Built(head, current, kids, ValuesOf(ms), owned) && Keyed(kids, ms)
  }

  lemma BuiltNothing()
    ensures Built(null, null, [], [], {}) && BuiltMembers(null, null, [], [], {})
  {
    NoKids();
  }

  lemma BuiltLast(head: Node?, current: Node?, kids: seq<Shape>, vs: seq<Value>, owned: set<Node>)
    requires Built(head, current, kids, vs, owned)
    ensures current != null ==> current in owned
    ensures kids != [] ==> head != null && head in owned && current != null
  {
    assert kids != [] ==> head in Spine(kids) && current in Spine(kids);
  }

  lemma BuiltMembersLast(head: Node?, current: Node?, kids: seq<Shape>, ms: seq<Member>, owned: set<Node>)
    requires BuiltMembers(head, current, kids, ms, owned)
    ensures current != null ==> current in owned
  {
    BuiltLast(head, current, kids, ValuesOf(ms), owned);
  }

  lemma BuiltMembersWhole(head: Node?, current: Node?, kids: seq<Shape>, ms: seq<Member>, owned: set<Node>)
    requires BuiltMembers(head, current, kids, ms, owned)
    ensures kids != [] ==> head != null && head in owned && current != null
    ensures Built(head, current, kids, ValuesOf(ms), owned) && Keyed(kids, ms) && owned == NodesOf(kids)
    ensures forall i | 0 <= i < |kids| :: Spine(kids)[i] in owned
  {
    BuiltLast(head, current, kids, ValuesOf(ms), owned);
  }

  /** Such a list with a new item behind it that has no value yet. */
  ghost predicate Attached(head: Node, node: Node, kids: seq<Shape>, vs: seq<Value>, had: set<Node>)
    reads had, node`next, node`prev
  {
    && had == NodesOf(kids) && node !in had && Apart(kids) && RepAll(kids, vs)
    && head == (if kids == [] then node else kids[0].node)
    && node.next == null && Linked(Spine(kids) + [node])
  }

  /** Attaching a new item to the list under construction. */
  method Extend(head: Node?, current: Node?, ghost kids: seq<Shape>, ghost vs: seq<Value>, ghost owned: set<Node>)
    returns (newHead: Node, node: Node)
    requires Built(head, current, kids, vs, owned)
    modifies (if current == null then {} else {current})`next
    ensures fresh(node) && node.child == null
    ensures Attached(newHead, node, kids, vs, owned)
  {
    hide RepAll, Rep, Apart, NodesOf, Below, Spine;
    SpineApart(kids);
    assert (forall i | 0 <= i < |kids| :: Spine(kids)[i] in owned) && Below(kids) <= owned;
    node := new Node();
    assert node !in owned;
    if head == null {
      newHead := node;
    } else {
      newHead := head;
      assert current in Spine(kids) && current !in Below(kids);
      current.next := node;
      node.prev := current;
    }
    ghost var ns := Spine(kids) + [node];
    forall i | 0 <= i < |ns| - 1
      ensures ns[i].next == ns[i + 1] && ns[i + 1].prev == ns[i]
    {
      assert ns[i] == Spine(kids)[i];
      if i < |ns| - 2 {
        assert ns[i + 1] == Spine(kids)[i + 1];
      }
    }
  }

  method ExtendMembers(head: Node?, current: Node?, ghost kids: seq<Shape>, ghost ms: seq<Member>, ghost owned: set<Node>)
    returns (newHead: Node, node: Node)
    requires BuiltMembers(head, current, kids, ms, owned)
    modifies (if current == null then {} else {current})`next
    ensures fresh(node) && node.child == null
    ensures Attached(newHead, node, kids, ValuesOf(ms), owned) && KeyedIn(kids, ms, owned)
  {
    hide Attached, Built, NodesOf, Spine, Keyed, ValuesOf;
    BuiltMembersWhole(head, current, kids, ms, owned);
    newHead, node := Extend(head, current, kids, ValuesOf(ms), owned);
  }

  ghost predicate KeyedIn(kids: seq<Shape>, ms: seq<Member>, owned: set<Node>)
    reads owned`key
  {
    owned == NodesOf(kids) && Keyed(kids, ms)
  }

  /** The last link: the head's prev caches the last item. */
  method Close(head: Node, current: Node, ghost kids: seq<Shape>, ghost vs: seq<Value>, ghost owned: set<Node>)
    requires Built(head, current, kids, vs, owned) && kids != []
    modifies head`prev
    ensures Chain(head, Spine(kids)) && Apart(kids) && RepAll(kids, vs) && owned == NodesOf(kids)
  {
    hide RepAll, Rep, Apart, NodesOf, Below, Spine;
    SpineApart(kids);
    assert head in Spine(kids) && head !in Below(kids);
    head.prev := current;
  }

  /** The grown list, once the new item has its value. */
  lemma Extended(head: Node, node: Node, kids: seq<Shape>, sub: seq<Shape>, vs: seq<Value>, v: Value, had: set<Node>)
    returns (newKids: seq<Shape>, owned: set<Node>)
    requires Attached(head, node, kids, vs, had) && Rep(Shape(node, sub), v) && had !! NodesOf(sub)
    ensures newKids == kids + [Shape(node, sub)] && owned == had + {node} + NodesOf(sub)
    ensures Built(head, node, newKids, vs + [v], owned)
  {
    hide Rep, Linked;
    var k := Shape(node, sub);
    newKids := kids + [k];
    owned := NodesOf(newKids);
    NodeApart(k, v);
    Append(kids, k);
    RepAppend(kids, vs, k, v);
  }

  lemma NodeApart(k: Shape, v: Value)
    requires Rep(k, v)
    ensures k.node !in NodesOf(k.kids)
  {
  }

  lemma ExtendedMembers(head: Node, node: Node, kids: seq<Shape>, sub: seq<Shape>, ms: seq<Member>, m: Member, had: set<Node>)
    returns (newKids: seq<Shape>, owned: set<Node>)
    requires Attached(head, node, kids, ValuesOf(ms), had) && KeyedIn(kids, ms, had)
    requires Rep(Shape(node, sub), m.value) && had !! NodesOf(sub) && node.key == Some(m.key)
    ensures newKids == kids + [Shape(node, sub)] && owned == had + {node} + NodesOf(sub)
    ensures BuiltMembers(head, node, newKids, ms + [m], owned)
  {
    hide Rep, Attached, Built;
    newKids, owned := Extended(head, node, kids, sub, ValuesOf(ms), m.value, had);
    KeyedMore(kids, ms, Shape(node, sub), m);
  }

  lemma KeyedMore(kids: seq<Shape>, members: seq<Member>, k: Shape, m: Member)
    requires Keyed(kids, members) && k.node.key == Some(m.key)
    ensures Keyed(kids + [k], members + [m])
    ensures ValuesOf(members + [m]) == ValuesOf(members) + [m.value]
  {
  }
}
