/**
  The recursive walk of httpclient.go over a fetched menu, which keeps the current table name in one global string that
  it cuts and extends; it refines a walk that carries the index path of every element.
 */
module MenuWalk {
  import opened MenuNames

  datatype Item = Null | Text(s: string) | Number(n: int) | Flag(b: bool) | Arr(items: seq<Item>) | Obj(members: seq<Member>)

  datatype Member = Member(key: string, value: Item)

  /** A row of a menu table */
  datatype Row = Row(prevMenu: string, nextMenu: string, dishId: int, grade: nat, context: string, spell: string)

  /** What the walk does, element by element: the element's name, its table if it is no dish, its row. */
  datatype Event = Named(name: string) | Created(name: string) | Inserted(into: string, row: Row)

  /** The member under a key; a key that is missing reads like null. */
  function Get(members: seq<Member>, key: string): Item {
    if members == [] then Null
    else if members[|members| - 1].key == key then members[|members| - 1].value
    else Get(members[..|members| - 1], key)
  }

  /** Of several members under one key the last is read. */
  lemma GetLast(members: seq<Member>, m: Member, key: string)
    ensures Get(members + [m], key) == if m.key == key then m.value else Get(members, key)
    ensures Get([], key) == Null
  {
    assert (members + [m])[..|members|] == members;
  }

  // ----- menus the walk is made for -----

  /** Arrays an object holds, directly or in objects inside it. */
  function ArraysIn(members: seq<Member>): nat {
    if members == [] then 0
    else
      ArraysIn(members[..|members| - 1])
      + match members[|members| - 1].value
        case Arr(_) => 1
        case Obj(ms) => ArraysIn(ms)
        case _ => 0
  }

  /** The fields the walk asserts a type of have it. */
  predicate Typed(members: seq<Member>) {
    && (Get(members, "id").Null? || Get(members, "id").Number?)
    && (Get(members, "name").Null? || Get(members, "name").Text?)
    && (Get(members, "nameInitial").Null? || Get(members, "nameInitial").Text?)
  }

  /** No array lies directly in an array, and every object holds at most one array. */
  ghost predicate MenuObject(members: seq<Member>) {
    && ArraysIn(members) <= 1
    && forall i | 0 <= i < |members| ::
         && (members[i].value.Arr? ==> MenuItems(members[i].value.items))
         && (members[i].value.Obj? ==> MenuObject(members[i].value.members))
  }

  ghost predicate MenuItems(items: seq<Item>) {
    forall i | 0 <= i < |items| ::
      !items[i].Arr? && (items[i].Obj? ==> Typed(items[i].members) && MenuObject(items[i].members))
  }

  // ----- the walk by index paths -----

  function RowOf(members: seq<Member>, path: seq<nat>, i: nat): Row
    requires Typed(members) && Get(members, "name").Text?
  {
    var id, initial := Get(members, "id"), Get(members, "nameInitial");
    Row(if path == [] then "" else Name(path[..|path| - 1]),
        if id.Number? then "" else Name(path + [i]),
        if id.Number? then id.n else -1,
        |path| + 1,
        Get(members, "name").s,
        if initial.Text? then initial.s else "")
  }

  /** The element that is number i (from 1) below path: its row goes into the table of path. */
  function OwnEvents(members: seq<Member>, path: seq<nat>, i: nat): seq<Event>
    requires Typed(members)
  {
    [Named(Name(path + [i]))]
    + (if Get(members, "id").Null? then [Created(Name(path + [i]))] else [])
    + (if Get(members, "name").Text? then [Inserted(Name(path), RowOf(members, path, i))] else [])
  }

  ghost function ItemsEvents(items: seq<Item>, path: seq<nat>): seq<Event>
    requires MenuItems(items)
    decreases items, 1
  {
    if items == [] then []
    else
      var n := |items|;
      ItemsEvents(items[..n - 1], path) + ItemEvents(items[n - 1], path, n)
  }

  ghost function ItemEvents(item: Item, path: seq<nat>, i: nat): seq<Event>
    requires item.Obj? ==> Typed(item.members) && MenuObject(item.members)
    decreases item, 0
  {
    if item.Obj? then OwnEvents(item.members, path, i) + MembersEvents(item.members, path + [i]) else []
  }

  ghost function MembersEvents(members: seq<Member>, path: seq<nat>): seq<Event>
    requires MenuObject(members)
    decreases members, 0
  {
    if members == [] then []
    else
      var front, last := members[..|members| - 1], members[|members| - 1].value;
      FrontIsMenu(members);
      MembersEvents(front, path)
      + match last
        case Arr(items) => ItemsEvents(items, path)
        case Obj(ms) => MembersEvents(ms, path)
        case _ => []
  }

  lemma {:induction false} FrontIsMenu(members: seq<Member>)
    requires MenuObject(members) && members != []
    ensures MenuObject(members[..|members| - 1])
  {
    assert ArraysIn(members[..|members| - 1]) <= ArraysIn(members);
  }

  // ----- the walk with one global name -----

  /** The global name is that of an element or of something below it. */
  ghost predicate Under(s: string, path: seq<nat>) {
    s == Name(path) || Name(path) + "_" <= s
  }

  lemma ItemsMore(items: seq<Item>, path: seq<nat>, i: nat)
    requires MenuItems(items) && i < |items|
    ensures MenuItems(items[..i]) && MenuItems(items[..i + 1])
    ensures ItemsEvents(items[..i + 1], path) == ItemsEvents(items[..i], path) + ItemEvents(items[i], path, i + 1)
  {
    hide ItemEvents, MenuObject, Typed;
    assert items[..i + 1][..i] == items[..i];
  }

  lemma {:induction false} MembersMore(members: seq<Member>, path: seq<nat>, k: nat)
    requires MenuObject(members) && k < |members|
    ensures MenuObject(members[..k]) && MenuObject(members[..k + 1])
    ensures ArraysIn(members[..k + 1]) <= ArraysIn(members)
    ensures MembersEvents(members[..k + 1], path) == MembersEvents(members[..k], path)
         + match members[k].value
           case Arr(items) => ItemsEvents(items, path)
           case Obj(ms) => MembersEvents(ms, path)
           case _ => []
    decreases |members|
  {
    hide MenuItems;
    var n := |members| - 1;
    FrontIsMenu(members);
    if k < n {
      MembersMore(members[..n], path, k);
      assert members[..n][..k] == members[..k] && members[..n][..k + 1] == members[..k + 1];
    } else {
      assert members[..k + 1] == members;
    }
  }

  /** With at most one array in all, whatever meets one has met none before. */
  lemma ArraysBefore(members: seq<Member>, k: nat)
    requires MenuObject(members) && k < |members| && ArraysIn(members[..k + 1]) <= ArraysIn(members)
    ensures members[k].value.Arr? ==> ArraysIn(members[..k]) == 0 && MenuItems(members[k].value.items)
    ensures members[k].value.Obj? ==> MenuObject(members[k].value.members)
    ensures members[k].value.Obj? && ArraysIn(members[k].value.members) > 0 ==>
              ArraysIn(members[..k]) == 0 && ArraysIn(members[..k + 1]) > 0
    ensures members[k].value.Arr? ==> ArraysIn(members[..k + 1]) > 0
    ensures ArraysIn(members[..k + 1]) == 0 ==> ArraysIn(members[..k]) == 0
  {
    hide MenuItems;
    assert members[..k + 1][..k] == members[..k];
  }

  lemma NoMembers(path: seq<nat>)
    ensures MenuObject([]) && MembersEvents([], path) == []
  {
  }

  class MenuWalker {
    var menuLev: string
    ghost var log: seq<Event>

    constructor ()
      ensures menuLev == ROOT && log == []
    {
      menuLev, log := ROOT, [];
    }

    /** jsonArrayParse */
    method JsonArrayParse(items: seq<Item>, lev: nat, ghost path: seq<nat>)
      requires MenuItems(items) && lev == |path| + 1 && Name(path) + "_" <= menuLev
      modifies this
      ensures Name(path) + "_" <= menuLev && log == old(log) + ItemsEvents(items, path)
      decreases items, 2
    {
      hide Name, MenuObject, Typed, OwnEvents, MembersEvents;
      for i := 0 to |items|
        invariant MenuItems(items[..i])
        invariant Name(path) + "_" <= menuLev && log == old(log) + ItemsEvents(items[..i], path)
      {
        ItemsMore(items, path, i);
        if items[i].Obj? {
          JsonElementParse(items[i].members, i, lev, path);
        }
      }
      assert items[..|items|] == items;
    }

    /** The body of that loop for an object */
    method JsonElementParse(members: seq<Member>, i: nat, lev: nat, ghost path: seq<nat>)
      requires Typed(members) && MenuObject(members) && lev == |path| + 1 && Name(path) + "_" <= menuLev
      modifies this
      ensures Name(path) + "_" <= menuLev
      ensures log == old(log) + OwnEvents(members, path, i + 1) + MembersEvents(members, path + [i + 1])
      decreases members, 1
    {
      hide Name, MenuObject, MembersEvents, Cut, LastIndex, Get, Itoa;
      var addnum := FindCut(menuLev, lev);
      CutAtName(path, menuLev);
      menuLev := menuLev[..addnum];
      menuLev := menuLev + "_" + Itoa(i + 1);
      NameMore(path, i + 1);
      ghost var here := path + [i + 1];
      assert menuLev == Name(here) && here[..|here| - 1] == path;
      log := log + [Named(menuLev)];
      var id, name, initial := Get(members, "id"), Get(members, "name"), Get(members, "nameInitial");
      if id.Null? {
        log := log + [Created(menuLev)];
      }
      LastIndexOfName(here);
      var prevMenu := "";
      if lev != 1 {
        var menubak := menuLev[..LastIndex(menuLev)];
        LastIndexOfName(path);
        prevMenu := menuLev[..LastIndex(menubak)];
        assert prevMenu == Name(path)[..LastIndex(menubak)];
      }
      var dishId, nextMenu := -1, menuLev;
      if !id.Null? {
        dishId, nextMenu := id.n, "";
      }
      var spell := if initial.Null? then "" else initial.s;
      if !name.Null? {
        log := log + [Inserted(menuLev[..LastIndex(menuLev)], Row(prevMenu, nextMenu, dishId, lev, name.s, spell))];
      }
      assert log == old(log) + OwnEvents(members, path, i + 1);
      JsonObjectParse(members, lev, here);
    }

    /** jsonObjectParse: lev counts the arrays met so far; with one array it is right whenever it is used. */
    method JsonObjectParse(members: seq<Member>, lev: nat, ghost path: seq<nat>)
      requires MenuObject(members) && Under(menuLev, path) && (ArraysIn(members) > 0 ==> lev == |path|)
      modifies this
      ensures Under(menuLev, path) && log == old(log) + MembersEvents(members, path)
      decreases members, 0
    {
      hide Name, ItemsEvents, MenuItems, MenuObject, MembersEvents, ArraysIn, Itoa;
      NoMembers(path);
      var level := lev;
      for k := 0 to |members|
        invariant MenuObject(members[..k]) && Under(menuLev, path)
        invariant ArraysIn(members[..k]) == 0 ==> level == lev
        invariant log == old(log) + MembersEvents(members[..k], path)
      {
        MembersMore(members, path, k);
        ArraysBefore(members, k);
        match members[k].value
        case Arr(items) =>
          level := level + 1;
          menuLev := menuLev + "_" + Itoa(level);
          JsonArrayParse(items, level, path);
        case Obj(ms) =>
          JsonObjectParse(ms, level, path);
        case _ =>
      }
      assert members[..|members|] == members;
    }
  }

  // ----- distinct elements, distinct names -----

  /** A name of some element below path, by way of its children numbered from lo to hi. */
  ghost predicate NamedBelow(name: string, path: seq<nat>, lo: nat, hi: nat) {
    exists q: seq<nat> :: |path| < |q| && path == q[..|path|] && lo <= q[|path|] <= hi && name == Name(q)
  }

  ghost predicate AllBelow(log: seq<Event>, path: seq<nat>, lo: nat, hi: nat) {
    forall i | 0 <= i < |log| && log[i].Named? :: NamedBelow(log[i].name, path, lo, hi)
  }

  ghost predicate NoRepeats(log: seq<Event>) {
    forall i, j | 0 <= i < j < |log| && log[i].Named? && log[j].Named? :: log[i].name != log[j].name
  }

  lemma BelowApart(name: string, path: seq<nat>, a: nat, b: nat, c: nat, d: nat)
    requires NamedBelow(name, path, a, b) && NamedBelow(name, path, c, d)
    ensures a <= d && c <= b
  {
    var p: seq<nat> :| |path| < |p| && path == p[..|path|] && a <= p[|path|] <= b && name == Name(p);
    var q: seq<nat> :| |path| < |q| && path == q[..|path|] && c <= q[|path|] <= d && name == Name(q);
    NameInjective(p, q);
  }

  lemma Joined(a: seq<Event>, b: seq<Event>, path: seq<nat>, n: nat)
    requires NoRepeats(a) && NoRepeats(b) && AllBelow(a, path, 1, n) && AllBelow(b, path, n + 1, n + 1)
    ensures NoRepeats(a + b) && AllBelow(a + b, path, 1, n + 1)
  {
    var c := a + b;
    forall i | 0 <= i < |c| && c[i].Named?
      ensures NamedBelow(c[i].name, path, 1, n + 1)
    {
      if i < |a| {
        Widened(a[i].name, path, 1, n, n + 1);
      } else {
        Widened(b[i - |a|].name, path, n + 1, n + 1, n + 1);
      }
    }
    forall i, j | 0 <= i < j < |c| && c[i].Named? && c[j].Named?
      ensures c[i].name != c[j].name
    {
      if i < |a| <= j && c[i].name == c[j].name {
        BelowApart(c[i].name, path, 1, n, n + 1, n + 1);
      }
    }
  }

  lemma Widened(name: string, path: seq<nat>, lo: nat, hi: nat, wide: nat)
    requires NamedBelow(name, path, lo, hi) && 1 <= lo && hi <= wide
    ensures NamedBelow(name, path, 1, wide)
  {
    var q: seq<nat> :| |path| < |q| && path == q[..|path|] && lo <= q[|path|] <= hi && name == Name(q);
  }

  /** One element and all below it. */
  lemma ElementApart(own: seq<Event>, below: seq<Event>, path: seq<nat>, n: nat, hi: nat)
    requires |own| >= 1 && own[0] == Named(Name(path + [n])) && forall i | 0 < i < |own| :: !own[i].Named?
    requires NoRepeats(below) && AllBelow(below, path + [n], 1, hi)
    ensures NoRepeats(own + below) && AllBelow(own + below, path, n, n)
  {
    var all := own + below;
    var here := path + [n];
    forall i | 0 <= i < |all| && all[i].Named?
      ensures NamedBelow(all[i].name, path, n, n)
      ensures i > 0 ==> all[i].name != all[0].name
    {
      if i < |own| {
        assert here[..|path|] == path;
      } else {
        var q: seq<nat> :| |here| < |q| && here == q[..|here|] && 1 <= q[|here|] <= hi && below[i - |own|].name == Name(q);
        assert q[..|path|] == here[..|path|] == path && q[|path|] == here[|path|];
        if all[i].name == all[0].name {
          NameInjective(q, here);
        }
      }
    }
  }

  function MostItems(members: seq<Member>): nat {
    if members == [] then 0
    else
      var front := MostItems(members[..|members| - 1]);
      match members[|members| - 1].value
      case Arr(items) => front + |items|
      case Obj(ms) => front + MostItems(ms)
      case _ => front
  }

  lemma {:induction false} ItemsApart(items: seq<Item>, path: seq<nat>)
    requires MenuItems(items)
    ensures NoRepeats(ItemsEvents(items, path)) && AllBelow(ItemsEvents(items, path), path, 1, |items|)
    decreases items, 2
  {
    hide NoRepeats, AllBelow, MenuObject, Typed;
    if items == [] {
      Silence(path);
    } else {
      var n := |items|;
      ItemsApart(items[..n - 1], path);
      ItemApart(items[n - 1], path, n);
      Joined(ItemsEvents(items[..n - 1], path), ItemEvents(items[n - 1], path, n), path, n - 1);
    }
  }

  lemma Silence(path: seq<nat>)
    ensures NoRepeats([]) && forall lo: nat, hi: nat :: AllBelow([], path, lo, hi)
  {
  }

  lemma {:induction false} ItemApart(item: Item, path: seq<nat>, n: nat)
    requires item.Obj? ==> Typed(item.members) && MenuObject(item.members)
    ensures NoRepeats(ItemEvents(item, path, n)) && AllBelow(ItemEvents(item, path, n), path, n, n)
    decreases item, 1
  {
    hide NoRepeats, AllBelow, MenuObject, Get, Name;
    if item.Obj? {
      MembersApart(item.members, path + [n]);
      ElementApart(OwnEvents(item.members, path, n), MembersEvents(item.members, path + [n]), path, n, MostItems(item.members));
    } else {
      Silence(path);
    }
  }

  lemma {:induction false} MembersApart(members: seq<Member>, path: seq<nat>)
    requires MenuObject(members)
    ensures NoRepeats(MembersEvents(members, path)) && AllBelow(MembersEvents(members, path), path, 1, MostItems(members))
    ensures ArraysIn(members) == 0 ==> MembersEvents(members, path) == [] && MostItems(members) == 0
    decreases members, 0
  {
    hide NoRepeats, AllBelow, MenuItems, ItemsEvents, NamedBelow;
    if members == [] {
      Silence(path);
    } else {
      var front, last := members[..|members| - 1], members[|members| - 1].value;
      FrontIsMenu(members);
      MembersApart(front, path);
      match last
      case Arr(items) =>
        ItemsApart(items, path);
        assert [] + ItemsEvents(items, path) == ItemsEvents(items, path);
      case Obj(ms) =>
        MembersApart(ms, path);
        var a, b := MembersEvents(front, path), MembersEvents(ms, path);
        assert a + [] == a && [] + b == b;
      case _ =>
        assert MembersEvents(front, path) + [] == MembersEvents(front, path);
    }
  }

  /** Over a whole menu no two elements share a name. */
  lemma DistinctNames(members: seq<Member>)
    requires MenuObject(members)
    ensures NoRepeats(MembersEvents(members, []))
  {
    MembersApart(members, []);
  }

  // ----- rows go to the parent's table -----

  /** The element named last */
  function Owner(log: seq<Event>): string {
    if log == [] then ""
    else if log[|log| - 1].Named? then log[|log| - 1].name
    else Owner(log[..|log| - 1])
  }

  /**
    A table created is that of the element named last; a row goes into the table whose name lacks that element's last
    number, leads on to that element's own table or nowhere, and is graded by the element's depth.
   */
  ghost predicate HousedAt(before: seq<Event>, e: Event) {
    var o := Owner(before);
    match e
    case Named(_) => true
    case Created(name) => o != "" && name == o
    case Inserted(into, row) =>
      && o != "" && LastIndex(o) >= 0 && into == o[..LastIndex(o)]
      && (row.nextMenu == "" || row.nextMenu == o) && row.grade + 1 == Underscores(o)
  }

  ghost predicate Housed(log: seq<Event>) {
    forall i | 0 <= i < |log| :: HousedAt(log[..i], log[i])
  }

  lemma {:induction false} OwnerJoin(a: seq<Event>, b: seq<Event>)
    requires Owner(b) != ""
    ensures Owner(a + b) == Owner(b)
    decreases |b|
  {
    assert (a + b)[..|a + b| - 1] == a + b[..|b| - 1];
    if !b[|b| - 1].Named? {
      OwnerJoin(a, b[..|b| - 1]);
    }
  }

  lemma HousedJoin(a: seq<Event>, b: seq<Event>)
    requires Housed(a) && Housed(b)
    ensures Housed(a + b)
  {
    hide Owner, Underscores, LastIndex;
    var c := a + b;
    forall i | 0 <= i < |c|
      ensures HousedAt(c[..i], c[i])
    {
      if i < |a| {
        assert c[..i] == a[..i];
      } else {
        var j := i - |a|;
        assert c[..i] == a + b[..j] && HousedAt(b[..j], b[j]);
        if !b[j].Named? {
          OwnerJoin(a, b[..j]);
        }
      }
    }
  }

  lemma OneHoused(before: seq<Event>, e: Event)
    requires Housed(before) && HousedAt(before, e)
    ensures Housed(before + [e])
    ensures !e.Named? ==> Owner(before + [e]) == Owner(before)
  {
    hide HousedAt;
    var log := before + [e];
    assert log[..|before|] == before;
    forall i | 0 <= i < |before|
      ensures HousedAt(log[..i], log[i])
    {
      assert log[..i] == before[..i];
    }
  }

  lemma OwnHoused(members: seq<Member>, path: seq<nat>, i: nat)
    requires Typed(members)
    ensures Housed(OwnEvents(members, path, i))
  {
    hide Get, Housed, Name, LastIndex, Underscores;
    var here := path + [i];
    NameUnderscores(here);
    LastIndexOfName(here);
    assert here[..|here| - 1] == path;
    var log := [Named(Name(here))];
    NoneHoused();
    OneHoused([], Named(Name(here)));
    assert [] + log == log;
    assert Owner(log) == Name(here);
    if Get(members, "id").Null? {
      OneHoused(log, Created(Name(here)));
      log := log + [Created(Name(here))];
    }
    if Get(members, "name").Text? {
      OneHoused(log, Inserted(Name(path), RowOf(members, path, i)));
      log := log + [Inserted(Name(path), RowOf(members, path, i))];
    }
    assert log == OwnEvents(members, path, i);
  }

  lemma NoneHoused()
    ensures Housed([])
  {
  }

  lemma {:induction false} ItemsHoused(items: seq<Item>, path: seq<nat>)
    requires MenuItems(items)
    ensures Housed(ItemsEvents(items, path))
    decreases items, 1
  {
    hide Housed, MenuObject, Typed, OwnEvents;
    if items == [] {
      NoneHoused();
    } else {
      var n := |items|;
      var item := items[n - 1];
      ItemsHoused(items[..n - 1], path);
      if item.Obj? {
        OwnHoused(item.members, path, n);
        MembersHoused(item.members, path + [n]);
        HousedJoin(OwnEvents(item.members, path, n), MembersEvents(item.members, path + [n]));
      } else {
        NoneHoused();
      }
      HousedJoin(ItemsEvents(items[..n - 1], path), ItemEvents(item, path, n));
    }
  }

  /** Over a whole menu. */
  lemma {:induction false} MembersHoused(members: seq<Member>, path: seq<nat>)
    requires MenuObject(members)
    ensures Housed(MembersEvents(members, path))
    decreases members, 0
  {
    hide Housed, MenuItems;
    if members == [] {
      NoneHoused();
    } else {
      var front, last := members[..|members| - 1], members[|members| - 1].value;
      FrontIsMenu(members);
      MembersHoused(front, path);
      match last
      case Arr(items) =>
        ItemsHoused(items, path);
        HousedJoin(MembersEvents(front, path), ItemsEvents(items, path));
      case Obj(ms) =>
        MembersHoused(ms, path);
        HousedJoin(MembersEvents(front, path), MembersEvents(ms, path));
      case _ =>
        assert MembersEvents(front, path) + [] == MembersEvents(front, path);
    }
  }

  // ----- what is told of each element -----

  /** An object in the arrays of the menu, and the numbers (from 1) that lead to it. */
  datatype Element = Element(path: seq<nat>, members: seq<Member>)

  /** All elements of an array and below them, in the order of the text. */
  function ElementsOf(items: seq<Item>, path: seq<nat>): seq<Element> {
    if items == [] then []
    else
      ElementsOf(items[..|items| - 1], path)
      + match items[|items| - 1]
        case Obj(ms) => [Element(path + [|items|], ms)] + ElementsIn(ms, path + [|items|])
        case _ => []
  }

  /** All elements in the arrays of an object, directly or in objects inside it. */
  function ElementsIn(members: seq<Member>, path: seq<nat>): seq<Element> {
    if members == [] then []
    else
      ElementsIn(members[..|members| - 1], path)
      + match members[|members| - 1].value
        case Arr(items) => ElementsOf(items, path)
        case Obj(ms) => ElementsIn(ms, path)
        case _ => []
  }

  /**
    What the row of an element says: a dish, which has an id, carries it and leads nowhere; anything else leads to the
    table of its own name. The menu before is the table that holds the parent's row, and none on the first level.
   */
  predicate RowTells(row: Row, e: Element)
    requires e.path != []
  {
    && (match Get(e.members, "id")
        case Number(n) => row.dishId == n && row.nextMenu == ""
        case _ => row.dishId == -1 && row.nextMenu == Name(e.path))
    && Get(e.members, "name") == Text(row.context)
    && (match Get(e.members, "nameInitial") case Text(s) => row.spell == s case _ => row.spell == "")
    && row.grade == |e.path|
    && row.prevMenu == if |e.path| == 1 then "" else Name(e.path[..|e.path| - 2])
  }

  /** These events name the element, create its table unless it is a dish, and insert one row if it has a name. */
  predicate Tells(log: seq<Event>, e: Element) {
    var tables := if Get(e.members, "id").Number? then 0 else 1;
    var rows := if Get(e.members, "name").Text? then 1 else 0;
    && e.path != [] && |log| == 1 + tables + rows
    && log[0] == Named(Name(e.path))
    && (tables == 1 ==> log[1] == Created(Name(e.path)))
    && (rows == 1 ==>
          && log[1 + tables].Inserted? && log[1 + tables].into == Name(e.path[..|e.path| - 1])
          && RowTells(log[1 + tables].row, e))
  }

  /** The log consists of what is told of each element, one behind the other, and of nothing else. */
  ghost predicate TellsAll(log: seq<Event>, es: seq<Element>)
    decreases |es|
  {
    if es == [] then log == []
    else exists n :: 0 <= n <= |log| && Tells(log[..n], es[0]) && TellsAll(log[n..], es[1..])
  }

  lemma {:induction false} TellsJoin(a: seq<Event>, x: seq<Element>, b: seq<Event>, y: seq<Element>)
    requires TellsAll(a, x) && TellsAll(b, y)
    ensures TellsAll(a + b, x + y)
    decreases |x|
  {
    hide Tells;
    if x == [] {
      assert a + b == b && x + y == y;
    } else {
      var n :| 0 <= n <= |a| && Tells(a[..n], x[0]) && TellsAll(a[n..], x[1..]);
      TellsJoin(a[n..], x[1..], b, y);
      assert (a + b)[..n] == a[..n] && (a + b)[n..] == a[n..] + b;
      assert (x + y)[0] == x[0] && (x + y)[1..] == x[1..] + y;
    }
  }

  lemma OneTold(log: seq<Event>, e: Element)
    requires Tells(log, e)
    ensures TellsAll(log, [e])
  {
    hide Tells;
    assert log[..|log|] == log && log[|log|..] == [] && [e][1..] == [];
    assert TellsAll([], []);
  }

  lemma OwnTold(members: seq<Member>, path: seq<nat>, i: nat)
    requires Typed(members)
    ensures Tells(OwnEvents(members, path, i), Element(path + [i], members))
  {
    hide Get, Name;
    var here := path + [i];
    assert here[..|here| - 1] == path;
    if path != [] {
      assert here[..|here| - 2] == path[..|path| - 1];
    }
  }

  lemma {:induction false} ItemsTold(items: seq<Item>, path: seq<nat>)
    requires MenuItems(items)
    ensures TellsAll(ItemsEvents(items, path), ElementsOf(items, path))
    decreases items, 1
  {
    hide TellsAll, MenuObject, Typed, OwnEvents, Tells;
    if items == [] {
      NothingTold();
    } else {
      var n := |items|;
      var item, here := items[n - 1], path + [n];
      ItemsTold(items[..n - 1], path);
      if item.Obj? {
        OwnTold(item.members, path, n);
        OneTold(OwnEvents(item.members, path, n), Element(here, item.members));
        MenuTold(item.members, here);
        TellsJoin(OwnEvents(item.members, path, n), [Element(here, item.members)],
                  MembersEvents(item.members, here), ElementsIn(item.members, here));
        TellsJoin(ItemsEvents(items[..n - 1], path), ElementsOf(items[..n - 1], path), ItemEvents(item, path, n),
                  [Element(here, item.members)] + ElementsIn(item.members, here));
      } else {
        NothingTold();
        TellsJoin(ItemsEvents(items[..n - 1], path), ElementsOf(items[..n - 1], path), [], []);
      }
    }
  }

  lemma NothingTold()
    ensures TellsAll([], [])
  {
  }

  /** Over a whole menu exactly what belongs to each element is told, in the order of the text. */
  lemma {:induction false} MenuTold(members: seq<Member>, path: seq<nat>)
    requires MenuObject(members)
    ensures TellsAll(MembersEvents(members, path), ElementsIn(members, path))
    decreases members, 0
  {
    hide TellsAll, MenuItems;
    if members == [] {
      NothingTold();
    } else {
      var front, last := members[..|members| - 1], members[|members| - 1].value;
      FrontIsMenu(members);
      MenuTold(front, path);
      match last
      case Arr(items) =>
        ItemsTold(items, path);
        TellsJoin(MembersEvents(front, path), ElementsIn(front, path), ItemsEvents(items, path), ElementsOf(items, path));
      case Obj(ms) =>
        MenuTold(ms, path);
        TellsJoin(MembersEvents(front, path), ElementsIn(front, path), MembersEvents(ms, path), ElementsIn(ms, path));
      case _ =>
        NothingTold();
        TellsJoin(MembersEvents(front, path), ElementsIn(front, path), [], []);
    }
  }

  /** Whatever an earlier fetch left behind the first component does not matter. */
  method Fetch(w: MenuWalker, members: seq<Member>)
    requires MenuObject(members) && Under(w.menuLev, [])
    modifies w
    ensures Under(w.menuLev, []) && w.log == old(w.log) + MembersEvents(members, [])
  {
    w.JsonObjectParse(members, 0, []);
  }
}
