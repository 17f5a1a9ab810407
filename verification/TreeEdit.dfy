/**
  The public editing calls of cJSON.c on whole trees: after a call the container denotes the old value with one part
  appended, inserted, removed or replaced, and the part taken out is a tree of its own.
 */
module TreeEdit {
  import opened Json
  import opened Nodes
  import opened SiblingList

  // ----- shapes under edits -----

  lemma {:induction false} OwnerOf(kids: seq<Shape>, n: Node) returns (i: nat)
    requires n in NodesOf(kids)
    ensures i < |kids| && n in Nodes.Nodes(kids[i])
    decreases |kids|
  {
    var last := |kids| - 1;
    if n in Nodes.Nodes(kids[last]) {
      i := last;
    } else {
      i := OwnerOf(kids[..last], n);
    }
  }

  /** The nodes of some kids are among ns. */
  lemma NodesWithin(kids: seq<Shape>, ns: set<Node>)
    requires forall i | 0 <= i < |kids| :: Nodes.Nodes(kids[i]) <= ns
    ensures NodesOf(kids) <= ns
  {
    hide *;
    forall n | n in NodesOf(kids)
      ensures n in ns
    {
      var i := OwnerOf(kids, n);
      assert n in Nodes.Nodes(kids[i]);
    }
  }

  lemma KidsInserted(kids: seq<Shape>, k: nat, kid: Shape)
    requires k <= |kids| && Apart(kids) && NodesOf(kids) !! Nodes.Nodes(kid)
    ensures Apart(InsertAt(kids, k, kid)) <== kid.node !in NodesOf(kid.kids)
    ensures Spine(InsertAt(kids, k, kid)) == InsertAt(Spine(kids), k, kid.node)
    ensures NodesOf(InsertAt(kids, k, kid)) == NodesOf(kids) + Nodes.Nodes(kid)
  {
    hide NodesOf, Spine, Nodes.Nodes;
    var all := InsertAt(kids, k, kid);
    NodesWithin(all, NodesOf(kids) + Nodes.Nodes(kid));
    forall i | 0 <= i < |kids|
      ensures Nodes.Nodes(kids[i]) <= NodesOf(all)
    {
      assert kids[i] == all[if i < k then i else i + 1];
    }
    NodesWithin(kids, NodesOf(all));
    assert kid == all[k];
  }

  lemma KidsRemoved(kids: seq<Shape>, k: nat)
    requires k < |kids| && Apart(kids)
    ensures Apart(RemoveAt(kids, k)) && Spine(RemoveAt(kids, k)) == RemoveAt(Spine(kids), k)
    ensures NodesOf(RemoveAt(kids, k)) == NodesOf(kids) - Nodes.Nodes(kids[k])
  {
    hide NodesOf, Spine, Nodes.Nodes, Apart;
    var rest := RemoveAt(kids, k);
    RestApart(kids, k);
    KidsInserted(rest, k, kids[k]);
    InsertRemove(kids, k, kids[k]);
    assert Spine(rest) == RemoveAt(Spine(kids), k);
  }

  lemma RestApart(kids: seq<Shape>, k: nat)
    requires k < |kids| && Apart(kids)
    ensures Apart(RemoveAt(kids, k)) && NodesOf(RemoveAt(kids, k)) !! Nodes.Nodes(kids[k])
  {
    hide NodesOf, Spine, Nodes.Nodes;
    NodesOfDisjoint(RemoveAt(kids, k), Nodes.Nodes(kids[k]));
  }

  lemma KidsReplaced(kids: seq<Shape>, k: nat, kid: Shape)
    requires k < |kids| && Apart(kids) && NodesOf(kids) !! Nodes.Nodes(kid) && kid.node !in NodesOf(kid.kids)
    ensures Apart(kids[k := kid]) && Spine(kids[k := kid]) == Spine(kids)[k := kid.node]
    ensures NodesOf(kids[k := kid]) == NodesOf(kids) - Nodes.Nodes(kids[k]) + Nodes.Nodes(kid)
  {
    hide NodesOf, Spine, Nodes.Nodes, Apart;
    KidsRemoved(kids, k);
    KidsInserted(RemoveAt(kids, k), k, kid);
    assert kids[k := kid] == InsertAt(RemoveAt(kids, k), k, kid);
    assert Spine(kids)[k := kid.node] == InsertAt(RemoveAt(Spine(kids), k), k, kid.node);
  }

  lemma NotBelow(sh: Shape, v: Value)
    requires Rep(sh, v)
    ensures sh.node !in NodesOf(sh.kids)
    ensures forall n | n in NodesOf(sh.kids) :: allocated(n)
  {
    hide RepAll, NodesOf, Apart, Chain, Spine;
    KidsAllocated(sh.kids);
  }

  lemma ArrayParts(sh: Shape, items: seq<Value>)
    requires Rep(sh, Array(items))
    ensures sh.node !in NodesOf(sh.kids) && Apart(sh.kids) && Chain(sh.node.child, Spine(sh.kids))
    ensures sh.node.kind == IsArray && RepAll(sh.kids, items) && |sh.kids| == |items|
  {
    hide NodesOf, Apart, Chain, Spine;
    assert RepAll(sh.kids, items);
  }

  /** The children of an array, as the list operations see them. */
  lemma ArrayList(sh: Shape, items: seq<Value>)
    requires Rep(sh, Array(items))
    ensures List(sh.node, Spine(sh.kids)) && |sh.kids| == |items|
    ensures forall n | n in Below(sh.kids) :: allocated(n)
    ensures sh.node !in NodesOf(sh.kids) && Apart(sh.kids) && sh.node.kind == IsArray && RepAll(sh.kids, items)
    ensures sh.node !in Below(sh.kids) && forall n | n in Spine(sh.kids) :: n !in Below(sh.kids)
  {
    hide Rep, RepAll, Apart, Below, NodesOf;
    ArrayParts(sh, items);
    SpineApart(sh.kids);
    KidsAllocated(sh.kids);
  }

  lemma ArrayBuilt(parent: Node, kids: seq<Shape>, items: seq<Value>)
    requires parent !in NodesOf(kids) && Apart(kids) && List(parent, Spine(kids))
    requires parent.kind == IsArray && RepAll(kids, items)
    ensures Rep(Shape(parent, kids), Array(items))
  {
    hide Rep, RepAll, Apart, NodesOf, Spine;
    RepArray(parent, kids, items);
  }

  lemma RepEdited(kids: seq<Shape>, vs: seq<Value>, k: nat, kid: Shape, v: Value)
    requires RepAll(kids, vs)
    ensures k <= |kids| && Rep(kid, v) ==> RepAll(InsertAt(kids, k, kid), InsertAt(vs, k, v))
    ensures k < |kids| ==> Rep(kids[k], vs[k]) && RepAll(RemoveAt(kids, k), RemoveAt(vs, k))
    ensures k < |kids| && Rep(kid, v) ==> RepAll(kids[k := kid], vs[k := v])
  {
    hide Rep;
  }

  /** cJSON_AddItemToArray on an array and a detached tree */
  method AddToArray(parent: Node, item: Node, ghost sh: Shape, ghost items: seq<Value>, ghost kid: Shape, ghost v: Value)
    returns (ok: bool, ghost after: Shape)
    requires sh.node == parent && Rep(sh, Array(items)) && kid.node == item && Rep(kid, v) && item.next == null
    requires Nodes.Nodes(sh) !! Nodes.Nodes(kid)
    modifies parent`child, Spine(sh.kids)`next, Spine(sh.kids)`prev, item`next, item`prev
    ensures ok && after.node == parent && Nodes.Nodes(after) == Nodes.Nodes(sh) + Nodes.Nodes(kid)
    ensures Rep(after, Array(items + [v]))
  {
    hide Rep, RepAll, Apart, Below, NodesOf, Spine, List;
    ArrayList(sh, items);
    NotBelow(kid, v);
    ok := AddItemToArray(parent, item, Spine(sh.kids));
    ghost var k := |sh.kids|;
    KidsInserted(sh.kids, k, kid);
    RepEdited(sh.kids, items, k, kid, v);
    assert InsertAt(items, k, v) == items + [v];
    assert InsertAt(Spine(sh.kids), k, item) == Spine(sh.kids) + [item];
    after := Shape(parent, InsertAt(sh.kids, k, kid));
    ArrayBuilt(parent, after.kids, items + [v]);
  }

  /** cJSON_InsertItemInArray on an array and a detached tree */
  method InsertInArray(parent: Node, which: int, item: Node,
                       ghost sh: Shape, ghost items: seq<Value>, ghost kid: Shape, ghost v: Value)
    returns (ok: bool, ghost after: Shape)
    requires sh.node == parent && Rep(sh, Array(items)) && kid.node == item && Rep(kid, v) && item.next == null
    requires Nodes.Nodes(sh) !! Nodes.Nodes(kid)
    modifies parent`child, Spine(sh.kids)`next, Spine(sh.kids)`prev, item`next, item`prev
    ensures ok <==> which >= 0
    ensures ok ==> after.node == parent && Nodes.Nodes(after) == Nodes.Nodes(sh) + Nodes.Nodes(kid)
    ensures ok ==> Rep(after, Array(InsertAt(items, if which < |items| then which else |items|, v)))
    ensures !ok ==> Rep(sh, Array(items)) && Rep(kid, v)
  {
    hide Rep, RepAll, Apart, Below, NodesOf, Spine, List;
    after := sh;
    ArrayList(sh, items);
    NotBelow(kid, v);
    ok := InsertItemInArray(parent, which, item, Spine(sh.kids));
    if ok {
      ghost var k := if which < |items| then which else |items|;
      KidsInserted(sh.kids, k, kid);
      RepEdited(sh.kids, items, k, kid, v);
      after := Shape(parent, InsertAt(sh.kids, k, kid));
      ArrayBuilt(parent, after.kids, InsertAt(items, k, v));
    } else {
      ArrayBuilt(parent, sh.kids, items);
    }
  }

  /** cJSON_DetachItemFromArray: the part comes out as a tree of its own. */
  method DetachFromArray(parent: Node, which: int, ghost sh: Shape, ghost items: seq<Value>)
    returns (item: Node?, ghost after: Shape)
    requires sh.node == parent && Rep(sh, Array(items))
    modifies parent`child, Spine(sh.kids)`next, Spine(sh.kids)`prev
    ensures item != null <==> 0 <= which < |items|
    ensures item == null ==> Rep(sh, Array(items))
    ensures item != null ==>
              && after.node == parent && Rep(after, Array(RemoveAt(items, which)))
              && which < |sh.kids| && item == sh.kids[which].node && Rep(sh.kids[which], items[which])
              && item.next == null && Nodes.Nodes(after) == Nodes.Nodes(sh) - Nodes.Nodes(sh.kids[which])
  {
    hide Rep, RepAll, Apart, Below, NodesOf, Spine, List;
    after := sh;
    ArrayList(sh, items);
    if which < 0 {
      return null, sh;
    }
    item := GetArrayItem(parent, which, Spine(sh.kids));
    ghost var ns := Spine(sh.kids);
    item := DetachItemViaPointer(parent, item, ns, which);
    if item != null {
      KidsRemoved(sh.kids, which);
      RepEdited(sh.kids, items, which, sh.kids[which], items[which]);
      after := Shape(parent, RemoveAt(sh.kids, which));
      ArrayBuilt(parent, after.kids, RemoveAt(items, which));
    } else {
      ArrayBuilt(parent, sh.kids, items);
    }
  }

  /** cJSON_ReplaceItemInArray */
  method ReplaceInArray(parent: Node, which: int, item: Node,
                        ghost sh: Shape, ghost items: seq<Value>, ghost kid: Shape, ghost v: Value)
    returns (ok: bool, ghost after: Shape)
    requires sh.node == parent && Rep(sh, Array(items)) && kid.node == item && Rep(kid, v)
    requires Nodes.Nodes(sh) !! Nodes.Nodes(kid)
    modifies parent`child, Spine(sh.kids)`next, Spine(sh.kids)`prev, item`next, item`prev
    ensures ok <==> 0 <= which < |items|
    ensures !ok ==> Rep(sh, Array(items)) && Rep(kid, v)
    ensures ok ==>
              && after.node == parent && Rep(after, Array(items[which := v])) && which < |sh.kids|
              && Nodes.Nodes(after) == Nodes.Nodes(sh) - Nodes.Nodes(sh.kids[which]) + Nodes.Nodes(kid)
  {
    hide Rep, RepAll, Apart, Below, NodesOf, Spine, List;
    after := sh;
    ArrayList(sh, items);
    NotBelow(kid, v);
    if which < 0 {
      return false, sh;
    }
    var replaced := GetArrayItem(parent, which, Spine(sh.kids));
    ok := ReplaceItemViaPointer(parent, replaced, item, Spine(sh.kids), which);
    if ok {
      KidsReplaced(sh.kids, which, kid);
      RepEdited(sh.kids, items, which, kid, v);
      after := Shape(parent, sh.kids[which := kid]);
      ArrayBuilt(parent, after.kids, items[which := v]);
    } else {
      ArrayBuilt(parent, sh.kids, items);
    }
  }
}
