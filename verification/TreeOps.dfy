/**
  cJSON_Compare and cJSON_Duplicate on linked trees, and the look-up of object members they rest on.
 */
module TreeOps {
  import opened Bytes
  import opened Utf
  import opened Json
  import opened Equality
  import opened Nodes
  import opened Parser

  /** get_object_item, case sensitive: the search also stops at an item without a key, and then finds nothing. */
  method GetObjectItem(parent: Node?, name: Option<bytes>, ghost ns: seq<Node>) returns (item: Node?, ghost i: nat)
    requires parent != null ==> Chain(parent.child, ns)
    ensures parent == null || name == None ==> item == null
    ensures parent != null && name != None ==>
              && i <= |ns| && (forall j | 0 <= j < i :: ns[j].key != None && ns[j].key != name)
              && (i < |ns| ==> ns[i].key == None || ns[i].key == name)
              && item == if i < |ns| && ns[i].key == name then ns[i] else null
  {
    i := 0;
    if parent == null || name == None {
      return null, 0;
    }
    item := parent.child;
    while item != null && item.key != None && item.key != name
      invariant i <= |ns| && item == if i < |ns| then ns[i] else null
      invariant forall j | 0 <= j < i :: ns[j].key != None && ns[j].key != name
      decreases |ns| - i
    {
      item := item.next;
      i := i + 1;
    }
    if item == null || item.key == None {
      item := null;
    }
  }

  /** In a tree that denotes an object the member found is the first one under its key. */
  lemma FoundFirst(parent: Node, sh: Shape, members: seq<Member>, owned: set<Node>, key: bytes, i: nat)
    requires Tree(parent, sh, Object(members), owned)
    requires i <= |sh.kids| && (forall j | 0 <= j < i :: sh.kids[j].node.key != Some(key))
    requires i < |sh.kids| ==> sh.kids[i].node.key == None || sh.kids[i].node.key == Some(key)
    ensures |sh.kids| == |members| && i == First(members, key, 0) && (i < |members| ==> sh.kids[i].node.key == Some(key))
  {
    hide Rep, Tree;
    TreeKids(parent, sh, Object(members), owned);
    forall j | 0 <= j < |members|
      ensures sh.kids[j].node.key == Some(members[j].key)
    {
      TreeKid(parent, sh, Object(members), owned, j);
    }
  }

  lemma ObjectChain(parent: Node, sh: Shape, members: seq<Member>, owned: set<Node>)
    requires Tree(parent, sh, Object(members), owned)
    ensures Chain(parent.child, Spine(sh.kids))
  {
    hide RepAll, Apart, Chain, Spine, Keyed;
  }

  /** An item carries the type and the scalar of a value. */
  ghost predicate Stamped(item: Node, v: Value)
    reads item`kind, item`valuestring, item`valuedouble
  {
    match v
    case Null => item.kind == IsNull
    case False => item.kind == IsFalse
    case True => item.kind == IsTrue
    case Number(n) => item.kind == IsNumber && item.valuedouble == n
    case String(t) => item.kind == IsString && item.valuestring == Some(t)
    case Raw(t) => item.kind == IsRaw && item.valuestring == Some(t)
    case Array(items) => item.kind == IsArray
    case Object(members) => item.kind == IsObject
  }

  lemma ScalarKind(sh: Shape, v: Value)
    requires Rep(sh, v)
    ensures Stamped(sh.node, v)
  {
    hide RepAll, Apart, Chain, Spine, Keyed, NodesOf;
  }

  lemma SmallerPart(v: Value, i: nat)
    requires i < Count(v)
    ensures Size(Part(v, i)) < Size(v)
  {
  }

  /** cJSON_Compare, case sensitive, on two separate trees or on one and the same item */
  method Compare(a: Node?, b: Node?, ghost sha: Shape, ghost va: Value, ghost ga: set<Node>,
                 ghost shb: Shape, ghost vb: Value, ghost gb: set<Node>)
    returns (r: bool)
    requires a != null ==> Tree(a, sha, va, ga)
    requires b != null ==> Tree(b, shb, vb, gb)
    requires a != null && b != null ==> a == b || ga !! gb
    ensures r <==> a != null && b != null && (a == b || Compared(va, vb))
    decreases Size(va) + Size(vb), 1
  {
    hide Rep, Compared, Found, Nodes.Nodes;
    if a == null || b == null {
      return false;
    }
    ScalarKind(sha, va);
    ScalarKind(shb, vb);
    KindsDiffer(va, vb);
    if a.kind != b.kind || a.kind == IsInvalid {
      return false;
    }
    if a == b {
      return true;
    }
    match a.kind
    case IsFalse | IsTrue | IsNull =>
      return true;
    case IsNumber =>
      return CompareDouble(a.valuedouble, b.valuedouble);
    case IsString | IsRaw =>
      if a.valuestring == None || b.valuestring == None {
        return false;
      }
      return a.valuestring == b.valuestring;
    case IsArray =>
      r := CompareElements(a, b, sha, va, ga, shb, vb, gb);
    case IsObject =>
      r := MembersIn(a, b, sha, va, ga, shb, vb, gb);
      if r {
        r := MembersIn(b, a, shb, vb, gb, sha, va, ga);
      }
    case _ => return false;
  }

  /** Values of different kinds are told apart before anything else. */
  lemma KindsDiffer(a: Value, b: Value)
    ensures a.Number? && b.Number? ==> (Compared(a, b) <==> CompareDouble(a.n, b.n))
    ensures a.Object? && b.Object? ==> (Compared(a, b) <==> AllFound(a.members, b) && AllFound(b.members, a))
    ensures !(a.Number? && b.Number?) && !(a.Array? && b.Array?) && !(a.Object? && b.Object?) ==>
              (Compared(a, b) <==> a == b)
  {
  }

  ghost predicate AllFound(members: seq<Member>, o: Value)
    requires o.Object?
  {
    forall i | 0 <= i < |members| :: Found(members[i], o)
  }

  method CompareElements(a: Node, b: Node, ghost sha: Shape, ghost va: Value, ghost ga: set<Node>,
                         ghost shb: Shape, ghost vb: Value, ghost gb: set<Node>)
    returns (r: bool)
    requires Tree(a, sha, va, ga) && Tree(b, shb, vb, gb) && ga !! gb && va.Array? && vb.Array?
    ensures r <==> Compared(va, vb)
    decreases Size(va) + Size(vb), 0
  {
    hide Rep, Tree, Found, Nodes.Nodes;
    TreeKids(a, sha, va, ga);
    TreeKids(b, shb, vb, gb);
    var x, y := a.child, b.child;
    ghost var i := 0;
    while x != null && y != null
      invariant i <= |va.items| && i <= |vb.items|
      invariant x == if i < |va.items| then sha.kids[i].node else null
      invariant y == if i < |vb.items| then shb.kids[i].node else null
      invariant forall j | 0 <= j < i :: Compared(va.items[j], vb.items[j])
      decreases |va.items| - i
    {
      TreeKid(a, sha, va, ga, i);
      TreeKid(b, shb, vb, gb, i);
      SmallerPart(va, i);
      SmallerPart(vb, i);
      var same := Compare(x, y, sha.kids[i], va.items[i], Nodes.Nodes(sha.kids[i]),
                          shb.kids[i], vb.items[i], Nodes.Nodes(shb.kids[i]));
      if !same {
        return false;
      }
      x, y := x.next, y.next;
      i := i + 1;
    }
    return x == y;
  }

  /** One pass of the object comparison: each member of a is looked up in b. */
  method MembersIn(a: Node, b: Node, ghost sha: Shape, ghost va: Value, ghost ga: set<Node>,
                   ghost shb: Shape, ghost vb: Value, ghost gb: set<Node>)
    returns (r: bool)
    requires Tree(a, sha, va, ga) && Tree(b, shb, vb, gb) && ga !! gb && va.Object? && vb.Object?
    ensures r <==> AllFound(va.members, vb)
    decreases Size(va) + Size(vb), 0
  {
    hide Rep, Tree, Compared, Nodes.Nodes;
    TreeKids(a, sha, va, ga);
    TreeKids(b, shb, vb, gb);
    ObjectChain(b, shb, vb.members, gb);
    var x := a.child;
    ghost var i := 0;
    while x != null
      invariant i <= |va.members|
      invariant x == if i < |va.members| then sha.kids[i].node else null
      invariant forall j | 0 <= j < i :: Found(va.members[j], vb)
      decreases |va.members| - i
    {
      TreeKid(a, sha, va, ga, i);
      var y, k := GetObjectItem(b, x.key, Spine(shb.kids));
      FoundFirst(b, shb, vb.members, gb, va.members[i].key, k);
      if y == null {
        assert !Found(va.members[i], vb);
        return false;
      }
      TreeKid(b, shb, vb, gb, k);
      SmallerPart(va, i);
      SmallerPart(vb, k);
      var same := Compare(x, y, sha.kids[i], va.members[i].value, Nodes.Nodes(sha.kids[i]),
                          shb.kids[k], vb.members[k].value, Nodes.Nodes(shb.kids[k]));
      assert same <==> Found(va.members[i], vb);
      if !same {
        return false;
      }
      x := x.next;
      i := i + 1;
    }
    return true;
  }

  // ----- duplication -----

  function Parts(v: Value): (vs: seq<Value>)
    ensures |vs| == Count(v) && forall i | 0 <= i < |vs| :: vs[i] == Part(v, i)
  {
    match v
    case Array(items) => items
    case Object(members) => ValuesOf(members)
    case _ => []
  }

  /** A copy that is not recursive has no children. */
  function Bare(v: Value): Value {
    match v
    case Array(items) => Array([])
    case Object(members) => Object([])
    case _ => v
  }

  /** Linking a finished copy behind the last one. */
  method Attach(last: Node?, copy: Node, ghost head: Node?, ghost kids: seq<Shape>, ghost vs: seq<Value>,
                ghost owned: set<Node>, ghost sh: Shape, ghost v: Value)
    requires Built(head, last, kids, vs, owned)
    requires sh.node == copy && Rep(sh, v) && copy.next == null && owned !! Nodes.Nodes(sh)
    modifies (if last == null then {} else {last})`next, copy`prev
    ensures Built(if last == null then copy else head, copy, kids + [sh], vs + [v], owned + Nodes.Nodes(sh))
  {
    hide RepAll, Rep, Apart, NodesOf, Below, Spine, Chain;
    SpineApart(kids);
    ShapeAllocated(sh);
    NodeApart(sh, v);
    assert (forall i | 0 <= i < |kids| :: Spine(kids)[i] in owned) && Below(kids) <= owned;
    if last != null {
      assert last in Spine(kids) && last !in Below(kids);
      last.next := copy;
      copy.prev := last;
    }
    Append(kids, sh);
    RepAppend(kids, vs, sh, v);
    ghost var ns := Spine(kids) + [copy];
    forall i | 0 <= i < |ns| - 1
      ensures ns[i].next == ns[i + 1] && ns[i + 1].prev == ns[i]
    {
      assert ns[i] == Spine(kids)[i];
      if i < |ns| - 2 {
        assert ns[i + 1] == Spine(kids)[i + 1];
      }
    }
  }

  /** cJSON_Duplicate: the copy is made of new nodes only and denotes the same value. */
  method Duplicate(item: Node?, recurse: bool, ghost sh: Shape, ghost v: Value, ghost owned: set<Node>)
    returns (copy: Node?, ghost copied: Shape)
    requires item != null ==> Tree(item, sh, v, owned)
    ensures item == null ==> copy == null
    ensures item != null ==>
              && copy != null && copied.node == copy && fresh(Nodes.Nodes(copied))
              && Rep(copied, if recurse then v else Bare(v))
              && copy.key == item.key && copy.next == null
    decreases v, 1
  {
    hide Rep, RepAll, Apart, NodesOf, Below, Spine, Chain, Keyed, ValuesOf, Tree, Stamped, Parts, Count, Bare;
    if item == null {
      return null, sh;
    }
    TreeKids(item, sh, v, owned);
    TreeStamped(item, sh, v, owned);
    var newitem := new Node();
    newitem.kind := item.kind;
    newitem.valuedouble := item.valuedouble;
    if item.valuestring != None {
      newitem.valuestring := item.valuestring;
    }
    if item.key != None {
      newitem.key := item.key;
    }
    SameStamp(item, newitem, v);
    copied := Shape(newitem, []);
    copy := newitem;
    if !recurse {
      BareDenotes(newitem, v);
      return;
    }
    ghost var kids := DuplicateKids(item, newitem, sh, v, owned);
    copied := Shape(newitem, kids);
    CopyDenotes(newitem, kids, v);
  }

  lemma TreeStamped(item: Node, sh: Shape, v: Value, owned: set<Node>)
    requires Tree(item, sh, v, owned)
    ensures Stamped(item, v)
  {
    ScalarKind(sh, v);
  }

  lemma SameStamp(item: Node, copy: Node, v: Value)
    requires Stamped(item, v)
    requires copy.kind == item.kind && copy.valuestring == item.valuestring && copy.valuedouble == item.valuedouble
    ensures Stamped(copy, v) && Stamped(copy, Bare(v))
  {
  }

  lemma CopyDenotes(copy: Node, kids: seq<Shape>, v: Value)
    requires copy !in NodesOf(kids) && Apart(kids) && Chain(copy.child, Spine(kids)) && RepAll(kids, Parts(v))
    requires v.Object? ==> Keyed(kids, v.members)
    requires Stamped(copy, v)
    ensures Rep(Shape(copy, kids), v)
  {
    hide Apart, Chain, NodesOf, Spine, Keyed;
  }

  lemma KeyedInNothing()
    ensures KeyedIn([], [], {})
  {
    NoKids();
  }

  lemma {:induction false} KeyedInMore(kids: seq<Shape>, members: seq<Member>, owned: set<Node>, k: Shape, m: Member)
    requires KeyedIn(kids, members, owned) && k.node.key == Some(m.key)
    ensures KeyedIn(kids + [k], members + [m], owned + Nodes.Nodes(k))
  {
    assert (kids + [k])[..|kids|] == kids;
  }

  /** The finished list, before its head is closed. */
  lemma KeyedInWhole(head: Node?, last: Node?, kids: seq<Shape>, vs: seq<Value>, v: Value, owned: set<Node>)
    requires Built(head, last, kids, vs, owned) && (v.Object? ==> KeyedIn(kids, v.members, owned))
    ensures owned == NodesOf(kids) && Apart(kids) && RepAll(kids, vs) && (v.Object? ==> Keyed(kids, v.members))
    ensures kids == [] ==> Chain(head, Spine(kids))
    ensures kids != [] ==> head != null && head in owned && last != null
  {
    BuiltLast(head, last, kids, vs, owned);
  }

  lemma BareDenotes(copy: Node, v: Value)
    requires Stamped(copy, Bare(v)) && copy.child == null
    ensures Rep(Shape(copy, []), Bare(v)) && Nodes.Nodes(Shape(copy, [])) == {copy}
  {
    hide Rep;
    NoKids();
    CopyDenotes(copy, [], Bare(v));
  }

  /** The loop over the children, which copies and relinks them below the new item. */
  method DuplicateKids(item: Node, newitem: Node, ghost sh: Shape, ghost v: Value, ghost owned: set<Node>)
    returns (ghost kids: seq<Shape>)
    requires Tree(item, sh, v, owned) && newitem !in owned && newitem.child == null
    modifies newitem`child
    ensures fresh(NodesOf(kids)) && Apart(kids) && Chain(newitem.child, Spine(kids)) && RepAll(kids, Parts(v))
    ensures v.Object? ==> Keyed(kids, v.members)
    decreases v, 0
  {
    hide Rep, RepAll, Apart, NodesOf, Below, Spine, Chain, Tree, Keyed, ValuesOf, Built, KeyedIn;
    TreeKids(item, sh, v, owned);
    BuiltNothing();
    NoKids();
    kids := [];
    ghost var made, i := {}, 0;
    KeyedInNothing();
    var child := item.child;
    var next: Node? := null;
    while child != null
      invariant i <= Count(v) && child == if i < Count(v) then sh.kids[i].node else null
      invariant Tree(item, sh, v, owned)
      invariant Built(newitem.child, next, kids, Parts(v)[..i], made) && fresh(made)
      invariant |kids| == i && (i == 0 <==> newitem.child == null) && (i == 0 <==> next == null)
      invariant v.Object? ==> KeyedIn(kids, v.members[..i], made)
      decreases Count(v) - i
    {
      ghost var parts := Parts(v);
      BuiltLast(newitem.child, next, kids, parts[..i], made);
      TreeKid(item, sh, v, owned, i);
      var newchild, copied := Duplicate(child, true, sh.kids[i], Part(v, i), Nodes.Nodes(sh.kids[i]));
      Attach(next, newchild, newitem.child, kids, Parts(v)[..i], made, copied, Part(v, i));
      if next == null {
        newitem.child := newchild;
      }
      next := newchild;
      if v.Object? {
        KeyedInMore(kids, v.members[..i], made, copied, v.members[i]);
        assert v.members[..i + 1] == v.members[..i] + [v.members[i]];
      }
      assert parts[..i + 1] == parts[..i] + [parts[i]];
      kids := kids + [copied];
      made := made + Nodes.Nodes(copied);
      child := child.next;
      i := i + 1;
    }
    assert Parts(v)[..i] == Parts(v) && (v.Object? ==> v.members[..i] == v.members);
    KeyedInWhole(newitem.child, next, kids, Parts(v), v, made);
    if newitem.child != null {
      Close(newitem.child, next, kids, Parts(v), made);
    }
  }
}
