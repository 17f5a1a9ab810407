/**
  Items of a cJSON tree on the heap: struct cJSON with its next, prev and child pointers. A ghost Shape names the
  nodes of a tree; Rep(shape, v) says that the nodes are linked as cJSON links them and denote v.
 */
module Nodes {
  import opened Bytes
  import opened Utf
  import opened Json

  datatype Kind = IsInvalid | IsFalse | IsTrue | IsNull | IsNumber | IsString | IsRaw | IsArray | IsObject

  class Node {
    var next: Node?
    var prev: Node?
    var child: Node?
    var kind: Kind
    var valuestring: Option<bytes>
    var valuedouble: real
    var key: Option<bytes>

    /** cJSON_New_Item: all fields zero. */
    constructor ()
      ensures next == null && prev == null && child == null && kind == IsInvalid
      ensures valuestring == None && valuedouble == 0.0 && key == None
    {
      next, prev, child := null, null, null;
      kind, valuestring, valuedouble, key := IsInvalid, None, 0.0, None;
    }
  }

  // ----- sibling lists -----

  /** Neighbours point at each other. */
  ghost predicate Linked(ns: seq<Node>)
    reads ns`next, ns`prev
  {
    forall i | 0 <= i < |ns| - 1 :: ns[i].next == ns[i + 1] && ns[i + 1].prev == ns[i]
  }

  /** ns is the whole list behind the child pointer first; the head's prev is the last node. */
  ghost predicate Chain(first: Node?, ns: seq<Node>)
    reads ns`next, ns`prev
  {
    if ns == [] then first == null
    else first == ns[0] && ns[0].prev == ns[|ns| - 1] && ns[|ns| - 1].next == null && Linked(ns)
  }

  ghost predicate Distinct(ns: seq<Node>) {
    forall i, j | 0 <= i < j < |ns| :: ns[i] != ns[j]
  }

  // ----- trees -----

  datatype Shape = Shape(node: Node, kids: seq<Shape>)

  ghost function Nodes(sh: Shape): set<Node>
  {
    {sh.node} + NodesOf(sh.kids)
  }

  ghost function NodesOf(kids: seq<Shape>): (r: set<Node>)
    ensures forall i | 0 <= i < |kids| :: Nodes(kids[i]) <= r
  {
    if kids == [] then {} else NodesOf(kids[..|kids| - 1]) + Nodes(kids[|kids| - 1])
  }

  /** The nodes of a list of siblings. */
  ghost function Spine(kids: seq<Shape>): (ns: seq<Node>)
    ensures |ns| == |kids| && forall i | 0 <= i < |kids| :: ns[i] == kids[i].node
    ensures forall n | n in ns :: n in NodesOf(kids)
  {
    if kids == [] then [] else Spine(kids[..|kids| - 1]) + [kids[|kids| - 1].node]
  }

  /** Everything below the siblings. */
  ghost function Below(kids: seq<Shape>): (r: set<Node>)
    ensures r <= NodesOf(kids)
    ensures forall i | 0 <= i < |kids| :: NodesOf(kids[i].kids) <= r
  {
    if kids == [] then {} else Below(kids[..|kids| - 1]) + NodesOf(kids[|kids| - 1].kids)
  }

  /** The nodes of a shape at hand exist. */
  lemma {:induction false} ShapeAllocated(sh: Shape)
    ensures forall n | n in Nodes(sh) :: allocated(n)
    decreases sh, 0
  {
    KidsAllocated(sh.kids);
  }

  lemma {:induction false} KidsAllocated(kids: seq<Shape>)
    ensures forall n | n in NodesOf(kids) :: allocated(n)
    decreases kids, 1
  {
    if kids != [] {
      KidsAllocated(kids[..|kids| - 1]);
      ShapeAllocated(kids[|kids| - 1]);
    }
  }

  ghost predicate Apart(kids: seq<Shape>) {
    && (forall i, j | 0 <= i < j < |kids| :: Nodes(kids[i]) !! Nodes(kids[j]))
    && (forall i | 0 <= i < |kids| :: kids[i].node !in NodesOf(kids[i].kids))
  }

  ghost predicate Rep(sh: Shape, v: Value)
    reads sh.node`kind, sh.node`valuestring, sh.node`valuedouble, sh.node`child, NodesOf(sh.kids)
    decreases sh
  {
    && sh.node !in NodesOf(sh.kids) && Apart(sh.kids) && Chain(sh.node.child, Spine(sh.kids))
    && match v
       case Null => sh.node.kind == IsNull && sh.kids == []
       case False => sh.node.kind == IsFalse && sh.kids == []
       case True => sh.node.kind == IsTrue && sh.kids == []
       case Number(n) => sh.node.kind == IsNumber && sh.node.valuedouble == n && sh.kids == []
       case String(t) => sh.node.kind == IsString && sh.node.valuestring == Some(t) && sh.kids == []
       case Raw(t) => sh.node.kind == IsRaw && sh.node.valuestring == Some(t) && sh.kids == []
       case Array(items) => sh.node.kind == IsArray && RepAll(sh.kids, items)
       case Object(members) => sh.node.kind == IsObject && RepAll(sh.kids, ValuesOf(members)) && Keyed(sh.kids, members)
  }

  ghost predicate RepAll(kids: seq<Shape>, vs: seq<Value>)
    reads Spine(kids)`kind, Spine(kids)`valuestring, Spine(kids)`valuedouble, Spine(kids)`child, Below(kids)
    decreases kids
  {
    |kids| == |vs| && forall i | 0 <= i < |kids| :: Rep(kids[i], vs[i])
  }

  function ValuesOf(members: seq<Member>): (vs: seq<Value>)
    ensures |vs| == |members| && forall i | 0 <= i < |members| :: vs[i] == members[i].value
  {
    seq(|members|, i requires 0 <= i < |members| => members[i].value)
  }

  ghost predicate Keyed(kids: seq<Shape>, members: seq<Member>)
    reads Spine(kids)`key
  {
    |kids| == |members| && forall i | 0 <= i < |kids| :: kids[i].node.key == Some(members[i].key)
  }

  // ----- growing a list of siblings at its end -----

  lemma Append(kids: seq<Shape>, k: Shape)
    requires Apart(kids) && NodesOf(kids) !! Nodes(k) && k.node !in NodesOf(k.kids)
    ensures Apart(kids + [k]) && NodesOf(kids + [k]) == NodesOf(kids) + Nodes(k)
    ensures Spine(kids + [k]) == Spine(kids) + [k.node] && Below(kids + [k]) == Below(kids) + NodesOf(k.kids)
  {
    var all := kids + [k];
    assert all[..|kids|] == kids;
  }

  lemma RepAppend(kids: seq<Shape>, vs: seq<Value>, k: Shape, v: Value)
    requires RepAll(kids, vs) && Rep(k, v)
    ensures RepAll(kids + [k], vs + [v])
  {
  }

  /** An item whose child pointer heads a well-linked list denotes the array of its elements. */
  lemma RepArray(item: Node, kids: seq<Shape>, items: seq<Value>)
    requires item !in NodesOf(kids) && Apart(kids) && Chain(item.child, Spine(kids))
    requires item.kind == IsArray && RepAll(kids, items)
    ensures Rep(Shape(item, kids), Array(items))
  {
    hide RepAll, NodesOf, Apart, Chain, Spine;
  }

  lemma RepObject(item: Node, kids: seq<Shape>, members: seq<Member>)
    requires item !in NodesOf(kids) && Apart(kids) && Chain(item.child, Spine(kids))
    requires item.kind == IsObject && RepAll(kids, ValuesOf(members)) && Keyed(kids, members)
    ensures Rep(Shape(item, kids), Object(members))
  {
    hide RepAll, NodesOf, Apart, Chain, Spine, Keyed;
  }

  lemma NoKids()
    ensures NodesOf([]) == {} && Spine([]) == [] && Apart([]) && Chain(null, []) && RepAll([], [])
    ensures ValuesOf([]) == [] && Keyed([], [])
  {
  }

  lemma {:induction false} SpineApart(kids: seq<Shape>)
    requires Apart(kids)
    ensures Distinct(Spine(kids)) && forall n | n in Spine(kids) :: n !in Below(kids)
    decreases |kids|
  {
    if kids != [] {
      var front, k := kids[..|kids| - 1], kids[|kids| - 1];
      SpineApart(front);
      FrontApart(kids);
      assert forall n | n in Spine(front) :: n !in Nodes(k);
    }
  }

  lemma {:induction false} FrontApart(kids: seq<Shape>)
    requires kids != [] && Apart(kids)
    ensures NodesOf(kids[..|kids| - 1]) !! Nodes(kids[|kids| - 1])
  {
    NodesOfDisjoint(kids[..|kids| - 1], Nodes(kids[|kids| - 1]));
  }

  lemma {:induction false} NodesOfDisjoint(kids: seq<Shape>, ns: set<Node>)
    requires forall i | 0 <= i < |kids| :: Nodes(kids[i]) !! ns
    ensures NodesOf(kids) !! ns
    decreases |kids|
  {
    if kids != [] {
      NodesOfDisjoint(kids[..|kids| - 1], ns);
    }
  }

  // ----- a whole tree -----

  /** The tree of item: owned are its nodes, v is its value. */
  ghost predicate Tree(item: Node, sh: Shape, v: Value, owned: set<Node>)
    reads owned
  {
    sh.node == item && owned == Nodes(sh) && Rep(sh, v)
  }

  function Count(v: Value): nat {
    if v.Array? then |v.items| else if v.Object? then |v.members| else 0
  }

  function Part(v: Value, i: nat): Value
    requires i < Count(v)
  {
    if v.Array? then v.items[i] else v.members[i].value
  }

  /** From an item to its children, and from one child to the next. */
  lemma TreeKids(item: Node, sh: Shape, v: Value, owned: set<Node>)
    requires Tree(item, sh, v, owned)
    ensures |sh.kids| == Count(v) && (v.Array? || v.Object? || item.child == null)
    ensures item in owned && (if sh.kids == [] then item.child == null else item.child == sh.kids[0].node)
  {
    assert v.Array? ==> RepAll(sh.kids, v.items);
    assert sh.kids != [] ==> Spine(sh.kids)[0] == sh.kids[0].node;
  }

  lemma TreeKid(item: Node, sh: Shape, v: Value, owned: set<Node>, i: nat)
    requires Tree(item, sh, v, owned) && i < Count(v)
    ensures i < |sh.kids| && Nodes(sh.kids[i]) < owned && sh.kids[i].node in owned
    ensures Tree(sh.kids[i].node, sh.kids[i], Part(v, i), Nodes(sh.kids[i]))
    ensures if i + 1 < |sh.kids| then sh.kids[i].node.next == sh.kids[i + 1].node else sh.kids[i].node.next == null
    ensures v.Object? ==> sh.kids[i].node.key == Some(v.members[i].key)
  {
    TreeKids(item, sh, v, owned);
    hide Apart, Nodes;
    assert Spine(sh.kids)[i] == sh.kids[i].node;
    assert RepAll(sh.kids, if v.Array? then v.items else ValuesOf(v.members));
    assert i + 1 < |sh.kids| ==> Spine(sh.kids)[i + 1] == sh.kids[i + 1].node;
    KidInside(sh, i);
  }

  lemma KidInside(sh: Shape, i: nat)
    requires i < |sh.kids| && sh.node !in NodesOf(sh.kids)
    ensures Nodes(sh.kids[i]) < Nodes(sh) && sh.kids[i].node in Nodes(sh.kids[i])
  {
  }

  /** Well-linked nodes denote one value only. */
  lemma {:induction false} DenotesOne(sh: Shape, v: Value, w: Value)
    requires Rep(sh, v) && Rep(sh, w)
    ensures v == w
    decreases sh, 1
  {
    hide Apart, Chain, NodesOf, RepAll;
    if v.Array? {
      DenoteOne(sh.kids, v.items, w.items);
    } else if v.Object? {
      DenoteOne(sh.kids, ValuesOf(v.members), ValuesOf(w.members));
      MembersOne(v.members, w.members, sh.kids);
    }
  }

  lemma MembersOne(ms: seq<Member>, ns: seq<Member>, kids: seq<Shape>)
    requires Keyed(kids, ms) && Keyed(kids, ns) && ValuesOf(ms) == ValuesOf(ns)
    ensures ms == ns
  {
    forall i | 0 <= i < |ms|
      ensures ms[i] == ns[i]
    {
      assert ValuesOf(ms)[i] == ValuesOf(ns)[i];
      assert kids[i].node.key == Some(ms[i].key) == Some(ns[i].key);
    }
  }

  lemma {:induction false} DenoteOne(kids: seq<Shape>, vs: seq<Value>, ws: seq<Value>)
    requires RepAll(kids, vs) && RepAll(kids, ws)
    ensures vs == ws
    decreases kids, 0
  {
    forall i | 0 <= i < |kids|
      ensures vs[i] == ws[i]
    {
      DenotesOne(kids[i], vs[i], ws[i]);
    }
  }

  /** How the children of an item point at each other: the first one's prev closes the list. */
  lemma KidsLinked(sh: Shape, v: Value)
    requires Rep(sh, v)
    ensures sh.kids == [] ==> sh.node.child == null
    ensures sh.kids != [] ==>
              && sh.node.child == sh.kids[0].node
              && sh.kids[0].node.prev == sh.kids[|sh.kids| - 1].node && sh.kids[|sh.kids| - 1].node.next == null
    ensures forall i | 0 <= i < |sh.kids| - 1 ::
              sh.kids[i].node.next == sh.kids[i + 1].node && sh.kids[i + 1].node.prev == sh.kids[i].node
    ensures forall i, j | 0 <= i < j < |sh.kids| :: Nodes(sh.kids[i]) !! Nodes(sh.kids[j])
    ensures forall i | 0 <= i < |sh.kids| :: sh.node !in Nodes(sh.kids[i])
  {
    hide RepAll, Nodes;
    var ns := Spine(sh.kids);
    assert forall i | 0 <= i < |ns| - 1 :: ns[i].next == ns[i + 1] && ns[i + 1].prev == ns[i];
  }
}
