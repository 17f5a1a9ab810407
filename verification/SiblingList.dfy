/**
  The list operations of cJSON.c through pointers. A list of siblings is doubly linked, the head's prev caches the
  last node and the last node's next is null; ns is the sequence of its nodes.
 */
module SiblingList {
  import opened Nodes

  /** ns are the children of parent. */
  ghost predicate List(parent: Node, ns: seq<Node>)
    reads parent`child, ns`next, ns`prev
  {
    Chain(parent.child, ns) && Distinct(ns) && parent !in ns
  }

  function Opt(n: Node?): set<Node> {
    if n == null then {} else {n}
  }

  function RemoveAt<T>(s: seq<T>, k: nat): (r: seq<T>)
    requires k < |s|
    ensures |r| == |s| - 1 && forall i | 0 <= i < |r| :: r[i] == if i < k then s[i] else s[i + 1]
  {
    s[..k] + s[k + 1..]
  }

  function InsertAt<T>(s: seq<T>, k: nat, x: T): (r: seq<T>)
    requires k <= |s|
    ensures |r| == |s| + 1
    ensures forall i | 0 <= i < |r| :: r[i] == if i < k then s[i] else if i == k then x else s[i - 1]
  {
    s[..k] + [x] + s[k..]
  }

  /** Detaching undoes inserting, and inserting the detached item again undoes detaching. */
  lemma InsertRemove<T>(s: seq<T>, k: nat, x: T)
    requires k <= |s|
    ensures RemoveAt(InsertAt(s, k, x), k) == s
    ensures k < |s| ==> InsertAt(RemoveAt(s, k), k, s[k]) == s
  {
    assert RemoveAt(InsertAt(s, k, x), k) == s;
    if k < |s| {
      assert InsertAt(RemoveAt(s, k), k, s[k]) == s;
    }
  }

  /** The neighbours of one node of a list. */
  lemma Neighbours(parent: Node, ns: seq<Node>, k: nat)
    requires List(parent, ns) && k < |ns|
    ensures ns[k].prev == (if k == 0 then ns[|ns| - 1] else ns[k - 1])
    ensures ns[k].next == (if k + 1 < |ns| then ns[k + 1] else null)
    ensures k == 0 <==> ns[k] == parent.child
    ensures k > 0 ==> ns[k - 1].next == ns[k]
    ensures k + 1 < |ns| ==> ns[k + 1].prev == ns[k]
  {
    if k > 0 {
      assert ns[k - 1].next == ns[k - 1 + 1] && ns[k - 1 + 1].prev == ns[k - 1];
    }
  }

  /** get_array_item */
  method GetArrayItem(parent: Node?, index: nat, ghost ns: seq<Node>) returns (item: Node?)
    requires parent != null ==> List(parent, ns)
    ensures item == if parent != null && index < |ns| then ns[index] else null
  {
    if parent == null {
      return null;
    }
    var rest: nat := index;
    item := parent.child;
    ghost var i := 0;
    while item != null && rest > 0
      invariant i + rest == index && i <= |ns|
      invariant if i < |ns| then item == ns[i] else item == null
      decreases rest
    {
      Neighbours(parent, ns, i);
      rest := rest - 1;
      item := item.next;
      i := i + 1;
    }
  }

  /** add_item_to_array: a detached item is appended. */
  method AddItemToArray(parent: Node?, item: Node?, ghost ns: seq<Node>) returns (ok: bool)
    requires parent != null ==> List(parent, ns)
    requires parent != null && item != null && parent != item ==> item !in ns && item.next == null
    modifies Opt(parent)`child, ns`next, ns`prev, Opt(item)`next, Opt(item)`prev
    ensures ok <==> parent != null && item != null && parent != item
    ensures ok ==> List(parent, ns + [item])
    ensures !ok && parent != null ==> List(parent, ns)
  {
    if item == null || parent == null || parent == item {
      return false;
    }
    var child := parent.child;
    if child == null {
      parent.child := item;
      item.prev := item;
      item.next := null;
    } else {
      if child.prev != null {
        child.prev.next := item;
        item.prev := child.prev;
        parent.child.prev := item;
      }
    }
    Linking(parent, ns + [item]);
    ok := true;
  }

  /** A list spelt out. */
  lemma Linking(parent: Node, ns: seq<Node>)
    requires ns != [] && Distinct(ns) && parent !in ns
    requires parent.child == ns[0] && ns[0].prev == ns[|ns| - 1] && ns[|ns| - 1].next == null
    requires forall i | 0 <= i < |ns| - 1 :: ns[i].next == ns[i + 1]
    requires forall i | 0 < i < |ns| :: ns[i].prev == ns[i - 1]
    ensures List(parent, ns)
  {
  }

  /** cJSON_DetachItemViaPointer */
  method DetachItemViaPointer(parent: Node?, item: Node?, ghost ns: seq<Node>, ghost k: nat) returns (detached: Node?)
    requires parent != null ==> List(parent, ns) && (item != null ==> k < |ns| && ns[k] == item)
    modifies Opt(parent)`child, ns`next, ns`prev
    ensures parent == null || item == null ==> detached == null
    ensures parent != null && item == null ==> List(parent, ns)
    ensures parent != null && item != null ==>
              detached == item && List(parent, RemoveAt(ns, k)) && item.prev == null && item.next == null
  {
    if parent == null || item == null {
      return null;
    }
    Neighbours(parent, ns, k);
    if item != parent.child {
      item.prev.next := item.next;
    }
    if item.next != null {
      item.next.prev := item.prev;
    }
    if item == parent.child {
      parent.child := item.next;
    } else if item.next == null {
      parent.child.prev := item.prev;
    }
    item.prev := null;
    item.next := null;
    if |ns| > 1 {
      Linking(parent, RemoveAt(ns, k));
    }
    return item;
  }

  /** cJSON_InsertItemInArray: an index past the end appends. */
  method InsertItemInArray(parent: Node?, which: int, item: Node?, ghost ns: seq<Node>) returns (ok: bool)
    requires parent != null ==> List(parent, ns)
    requires parent != null && item != null && parent != item ==> item !in ns && item.next == null
    requires parent != null && 0 <= which < |ns| ==> item != null && item != parent
    modifies Opt(parent)`child, ns`next, ns`prev, Opt(item)`next, Opt(item)`prev
    ensures ok <==> which >= 0 && parent != null && item != null && parent != item
    ensures !ok && parent != null ==> List(parent, ns)
    ensures ok ==> List(parent, InsertAt(ns, if which < |ns| then which else |ns|, item))
  {
    if which < 0 {
      return false;
    }
    var after := GetArrayItem(parent, which, ns);
    if after == null {
      ok := AddItemToArray(parent, item, ns);
      if ok {
        assert InsertAt(ns, |ns|, item) == ns + [item];
      }
      return;
    }
    Neighbours(parent, ns, which);
    item.next := after;
    item.prev := after.prev;
    after.prev := item;
    if after == parent.child {
      parent.child := item;
    } else {
      item.prev.next := item;
    }
    Linking(parent, InsertAt(ns, which, item));
    ok := true;
  }

  /** cJSON_ReplaceItemViaPointer, up to the deallocation of the item replaced. */
  method ReplaceItemViaPointer(parent: Node?, item: Node?, replacement: Node?, ghost ns: seq<Node>, ghost k: nat)
    returns (ok: bool)
    requires parent != null ==> List(parent, ns) && (item != null ==> k < |ns| && ns[k] == item)
    requires parent != null && item != null && replacement != null && replacement != item ==>
               replacement !in ns && replacement != parent
    modifies Opt(parent)`child, ns`next, ns`prev, Opt(replacement)`next, Opt(replacement)`prev
    ensures ok <==> parent != null && item != null && replacement != null
    ensures !ok && parent != null ==> List(parent, ns)
    ensures ok ==> List(parent, ns[k := replacement])
    ensures ok && replacement != item ==> item.next == null && item.prev == null
  {
    if parent == null || replacement == null || item == null {
      return false;
    }
    if replacement == item {
      assert ns[k := replacement] == ns;
      return true;
    }
    Neighbours(parent, ns, k);
    replacement.next := item.next;
    replacement.prev := item.prev;
    if replacement.next != null {
      replacement.next.prev := replacement;
    }
    if parent.child == item {
      if parent.child.prev == parent.child {
        replacement.prev := replacement;
      }
      parent.child := replacement;
    } else {
      if replacement.prev != null {
        replacement.prev.next := replacement;
      }
      if replacement.next == null {
        parent.child.prev := replacement;
      }
    }
    item.next := null;
    item.prev := null;
    Linking(parent, ns[k := replacement]);
    ok := true;
  }
}
