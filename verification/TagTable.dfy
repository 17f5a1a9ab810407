/**
  The table of plates on the reader in rewrCardTask.c: ten slots, a bitmap that hands out ids, and departure after two
  scans in a row without the tag.
 */
module TagTable {

  const MAX_TAG_NUM: nat := 10
  const NO_ID: nat := 0x0F
  const MAX_READ_ZERO_NUM: nat := 5

  type Uid = seq<bv8>

  datatype TagState = NullSta | ExitSta | ExistSta | EntryBlockOkSta | EntryBlockFailSta

  datatype Tag = Tag(used: bool, state: TagState, id: nat, uid: Uid)

  /** The slots, the stored number of tags, and the bitmap of ids, bit by bit. */
  datatype Table = Table(slots: seq<Tag>, total: nat, bits: seq<bool>)

  predicate Shaped(t: Table) {
    && |t.slots| == MAX_TAG_NUM && |t.bits| == 32
    && forall k | 0 <= k < MAX_TAG_NUM :: t.slots[k].id <= NO_ID
  }

  // ----- what each helper does to the table -----

  /** find_avalib_node: MAX_TAG_NUM stands for the 0xFF of a full table. */
  function FirstFree(slots: seq<Tag>, from: nat): (k: nat)
    requires from <= |slots|
    ensures from <= k <= |slots| && (k < |slots| ==> !slots[k].used)
    ensures forall i | from <= i < k :: slots[i].used
    decreases |slots| - from
  {
    if from == |slots| || !slots[from].used then from else FirstFree(slots, from + 1)
  }

  /** find_alike_card */
  function FirstAlike(slots: seq<Tag>, uid: Uid, from: nat): (k: nat)
    requires from <= |slots|
    ensures from <= k <= |slots| && (k < |slots| ==> slots[k].used && slots[k].uid == uid)
    ensures forall i | from <= i < k :: !(slots[i].used && slots[i].uid == uid)
    decreases |slots| - from
  {
    if from == |slots| || (slots[from].used && slots[from].uid == uid) then from
    else FirstAlike(slots, uid, from + 1)
  }

  /** get_cstm_tag_id: the lowest clear bit below NO_ID, or NO_ID. */
  function LowestClear(bits: seq<bool>, from: nat): (i: nat)
    requires from <= NO_ID < |bits|
    ensures from <= i <= NO_ID && (i < NO_ID ==> !bits[i]) && forall j | from <= j < i :: bits[j]
    decreases NO_ID - from
  {
    if from == NO_ID || !bits[from] then from else LowestClear(bits, from + 1)
  }

  function AllClear(): (bits: seq<bool>)
    ensures |bits| == 32 && forall i | 0 <= i < 32 :: !bits[i]
  {
    seq(32, i => false)
  }

  /** CLEAR_TAG_CSTM_ID: clearing NO_ID clears everything. */
  function Cleared(bits: seq<bool>, id: nat): (r: seq<bool>)
    requires |bits| == 32 && id <= NO_ID
    ensures |r| == 32
  {
    if id == NO_ID then AllClear() else bits[id := false]
  }

  /** add_nowitem */
  function Added(t: Table, uid: Uid, state: TagState): (r: Table)
    requires Shaped(t) && FirstFree(t.slots, 0) < MAX_TAG_NUM
    ensures Shaped(r)
  {
    var k, id := FirstFree(t.slots, 0), LowestClear(t.bits, 0);
    Table(t.slots[k := Tag(true, state, id, uid)], t.total + 1, if id < NO_ID then t.bits[id := true] else t.bits)
  }

  /** delete_node_index */
  function Deleted(t: Table, k: nat): (r: Table)
    requires Shaped(t) && k < MAX_TAG_NUM
    ensures Shaped(r)
  {
    Table(t.slots[k := Tag(false, NullSta, 0, t.slots[k].uid)],
          if t.total > 0 then t.total - 1 else 0,
          Cleared(t.bits, t.slots[k].id))
  }

  // ----- what keeps the table sound -----

  function UsedCount(slots: seq<Tag>): (n: nat)
    ensures n <= |slots|
  {
    if slots == [] then 0
    else UsedCount(slots[..|slots| - 1]) + if slots[|slots| - 1].used then 1 else 0
  }

  ghost predicate Live(slots: seq<Tag>, id: nat) {
    exists k :: 0 <= k < |slots| && slots[k].used && slots[k].id == id
  }

  /** The count is that of the used slots, ids are distinct and below MAX_TAG_NUM, and the bitmap holds exactly them. */
  ghost predicate Sound(t: Table) {
    && Shaped(t) && t.total == UsedCount(t.slots)
    && (forall k | 0 <= k < MAX_TAG_NUM && t.slots[k].used :: t.slots[k].id < MAX_TAG_NUM)
    && (forall j, k | 0 <= j < k < MAX_TAG_NUM && t.slots[j].used && t.slots[k].used :: t.slots[j].id != t.slots[k].id)
    && (forall id | 0 <= id < 32 :: t.bits[id] <==> Live(t.slots, id))
  }

  lemma {:induction false} UsedCountUpdate(slots: seq<Tag>, k: nat, tag: Tag)
    requires k < |slots|
    ensures UsedCount(slots[k := tag])
         == UsedCount(slots) - (if slots[k].used then 1 else 0) + if tag.used then 1 else 0
    decreases |slots|
  {
    var n := |slots| - 1;
    if k == n {
      assert slots[k := tag][..n] == slots[..n];
    } else {
      assert slots[k := tag][..n] == slots[..n][k := tag];
      UsedCountUpdate(slots[..n], k, tag);
    }
  }

  function IdsOf(slots: seq<Tag>): set<nat> {
    set k | 0 <= k < |slots| && slots[k].used :: slots[k].id
  }

  lemma {:induction false} FewIds(slots: seq<Tag>)
    ensures |IdsOf(slots)| <= UsedCount(slots)
    decreases |slots|
  {
    if slots == [] {
      assert IdsOf(slots) == {};
    } else {
      var n := |slots| - 1;
      FewIds(slots[..n]);
      var front := IdsOf(slots[..n]);
      if slots[n].used {
        assert IdsOf(slots) == front + {slots[n].id} by {
          SplitIds(slots);
        }
      } else {
        assert IdsOf(slots) == front by {
          SplitIds(slots);
        }
      }
    }
  }

  lemma SplitIds(slots: seq<Tag>)
    requires slots != []
    ensures var n := |slots| - 1;
            IdsOf(slots) == IdsOf(slots[..n]) + if slots[n].used then {slots[n].id} else {}
  {
    var n := |slots| - 1;
    forall id | id in IdsOf(slots[..n])
      ensures id in IdsOf(slots)
    {
      var k :| 0 <= k < n && slots[..n][k].used && slots[..n][k].id == id;
      assert slots[k].used && slots[k].id == id;
    }
    var ids, both := IdsOf(slots), IdsOf(slots[..n]) + if slots[n].used then {slots[n].id} else {};
    forall id | id in ids
      ensures id in both
    {
      var k :| 0 <= k <= n && slots[k].used && slots[k].id == id;
      if k < n {
        assert slots[..n][k] == slots[k];
      }
    }
  }

  function UpTo(n: nat): (r: set<nat>)
    ensures forall i :: i in r <==> 0 <= i < n
  {
    if n == 0 then {} else UpTo(n - 1) + {n - 1}
  }

  lemma {:induction false} UpToSize(n: nat)
    ensures |UpTo(n)| == n
  {
    if n > 0 {
      UpToSize(n - 1);
    }
  }

  lemma Smaller<T>(a: set<T>, b: set<T>)
    requires a <= b
    ensures |a| <= |b|
  {
    assert b == a + (b - a);
  }

  /** The id handed out is at most the number of used slots, so NO_ID is never reached. */
  lemma LowestIsSmall(t: Table)
    requires Sound(t)
    ensures LowestClear(t.bits, 0) <= UsedCount(t.slots)
  {
    var m := LowestClear(t.bits, 0);
    forall i | i in UpTo(m)
      ensures i in IdsOf(t.slots)
    {
      assert t.bits[i] && Live(t.slots, i);
    }
    UpToSize(m);
    Smaller(UpTo(m), IdsOf(t.slots));
    FewIds(t.slots);
  }

  /** Filling a free slot makes one more id live. */
  lemma LiveAdded(slots: seq<Tag>, k: nat, tag: Tag, i: nat)
    requires k < |slots| && !slots[k].used && tag.used
    ensures Live(slots[k := tag], i) <==> Live(slots, i) || i == tag.id
  {
    var after := slots[k := tag];
    if Live(slots, i) {
      var j :| 0 <= j < |slots| && slots[j].used && slots[j].id == i;
      assert after[j] == slots[j];
    }
    if Live(after, i) && i != tag.id {
      var j :| 0 <= j < |after| && after[j].used && after[j].id == i;
      assert after[j] == slots[j];
    }
    assert after[k] == tag;
  }

  lemma AddedSound(t: Table, uid: Uid, state: TagState)
    requires Sound(t) && FirstFree(t.slots, 0) < MAX_TAG_NUM
    ensures Sound(Added(t, uid, state))
  {
    hide UsedCount, LowestClear, FirstFree;
    var k, id := FirstFree(t.slots, 0), LowestClear(t.bits, 0);
    var tag := Tag(true, state, id, uid);
    LowestIsSmall(t);
    UsedCountUpdate(t.slots, k, tag);
    RoomLeft(t.slots, k);
    assert !Live(t.slots, id);
    forall i: nat | i < 32
      ensures Live(t.slots[k := tag], i) <==> Live(t.slots, i) || i == id
    {
      LiveAdded(t.slots, k, tag, i);
    }
    FreshId(t, k, id);
  }

  lemma FreshId(t: Table, k: nat, id: nat)
    requires Sound(t) && k < MAX_TAG_NUM && !Live(t.slots, id)
    ensures forall j | 0 <= j < MAX_TAG_NUM && t.slots[j].used :: t.slots[j].id != id
  {
    hide UsedCount;
    forall j | 0 <= j < MAX_TAG_NUM && t.slots[j].used
      ensures t.slots[j].id != id
    {
    }
  }

  /** A free slot leaves room in the count. */
  lemma RoomLeft(slots: seq<Tag>, k: nat)
    requires k < |slots| && !slots[k].used
    ensures UsedCount(slots) < |slots|
  {
    UsedCountUpdate(slots, k, Tag(true, NullSta, 0, []));
    var full := slots[k := Tag(true, NullSta, 0, [])];
    assert UsedCount(full) <= |full|;
  }

  lemma DeletedSound(t: Table, k: nat)
    requires Sound(t) && k < MAX_TAG_NUM && t.slots[k].used
    ensures Sound(Deleted(t, k)) && Deleted(t, k).total == t.total - 1
    ensures Deleted(t, k).bits == t.bits[t.slots[k].id := false]
  {
    var id := t.slots[k].id;
    UsedCountUpdate(t.slots, k, Tag(false, NullSta, 0, t.slots[k].uid));
    var r := Deleted(t, k);
    forall i | 0 <= i < 32
      ensures r.bits[i] <==> Live(r.slots, i)
    {
      if Live(t.slots, i) {
        var j :| 0 <= j < MAX_TAG_NUM && t.slots[j].used && t.slots[j].id == i;
        assert j != k ==> r.slots[j] == t.slots[j];
      }
      if Live(r.slots, i) {
        var j :| 0 <= j < MAX_TAG_NUM && r.slots[j].used && r.slots[j].id == i;
        assert r.slots[j] == t.slots[j];
      }
    }
  }

  /** Only the state of a used slot changes. */
  function Restated(t: Table, k: nat, state: TagState): Table
    requires Shaped(t) && k < MAX_TAG_NUM
  {
    t.(slots := t.slots[k := t.slots[k].(state := state)])
  }

  lemma RestatedSound(t: Table, k: nat, state: TagState)
    requires Sound(t) && k < MAX_TAG_NUM
    ensures Sound(Restated(t, k, state))
  {
    UsedCountUpdate(t.slots, k, t.slots[k].(state := state));
    var r := Restated(t, k, state);
    forall i | 0 <= i < 32
      ensures r.bits[i] <==> Live(r.slots, i)
    {
      if Live(t.slots, i) {
        var j :| 0 <= j < MAX_TAG_NUM && t.slots[j].used && t.slots[j].id == i;
        assert r.slots[j].used && r.slots[j].id == i;
      }
      if Live(r.slots, i) {
        var j :| 0 <= j < MAX_TAG_NUM && r.slots[j].used && r.slots[j].id == i;
        assert t.slots[j].used && t.slots[j].id == i;
      }
    }
  }

  // ----- one scan (compare_all_tag) -----

  datatype Marking = Marking(t: Table, operated: set<nat>)

  /** tag_compare_remark: a known tag exists, an unknown one gets a slot and an id. */
  function Remarked(m: Marking, uid: Uid): (r: Marking)
    requires Shaped(m.t)
    ensures Shaped(r.t)
  {
    var k := FirstAlike(m.t.slots, uid, 0);
    if k < MAX_TAG_NUM then Marking(Restated(m.t, k, ExistSta), m.operated + {k})
    else if FirstFree(m.t.slots, 0) < MAX_TAG_NUM
    then Marking(Added(m.t, uid, EntryBlockOkSta), m.operated + {FirstFree(m.t.slots, 0)})
    else m
  }

  function Marked(t: Table, cards: seq<Uid>): (r: Marking)
    requires Shaped(t)
    ensures Shaped(r.t)
  {
    if cards == [] then Marking(t, {}) else Remarked(Marked(t, cards[..|cards| - 1]), cards[|cards| - 1])
  }

  /** find_lose_card at one slot: the second miss in a row frees it. */
  function SweptOne(t: Table, operated: set<nat>, k: nat): (r: Table)
    requires Shaped(t) && k < MAX_TAG_NUM
    ensures Shaped(r)
  {
    if !t.slots[k].used || k in operated then t
    else if t.slots[k].state == ExitSta then Deleted(t, k)
    else Restated(t, k, ExitSta)
  }

  function Swept(t: Table, operated: set<nat>, n: nat): (r: Table)
    requires Shaped(t) && n <= MAX_TAG_NUM
    ensures Shaped(r)
  {
    if n == 0 then t else SweptOne(Swept(t, operated, n - 1), operated, n - 1)
  }

  /** The empty table takes every card under the identifier of the first. */
  function Filled(t: Table, uid: Uid, n: nat): (r: Table)
    requires Shaped(t)
    ensures Shaped(r)
  {
    if n == 0 then t
    else
      var f := Filled(t, uid, n - 1);
      if FirstFree(f.slots, 0) < MAX_TAG_NUM then Added(f, uid, EntryBlockFailSta) else f
  }

  function Compared(t: Table, cards: seq<Uid>): (r: Table)
    requires Shaped(t)
    ensures Shaped(r)
  {
    if t.total == 0
    then Filled(t.(bits := AllClear()), if cards == [] then [] else cards[0], |cards|).(total := |cards|)
    else
      var m := Marked(t, cards);
      Swept(m.t, m.operated, MAX_TAG_NUM)
  }

  // ----- room -----

  function UidsOf(cards: seq<Uid>): set<Uid> {
    set i | 0 <= i < |cards| :: cards[i]
  }

  function LiveUids(slots: seq<Tag>): (r: set<Uid>)
    ensures forall uid :: uid in r <==> FirstAlike(slots, uid, 0) < |slots|
  {
    var r := set k | 0 <= k < |slots| && slots[k].used :: slots[k].uid;
    assert forall uid :: FirstAlike(slots, uid, 0) < |slots| ==> uid in r;
    r
  }

  /** Each tag that has no slot needs one. */
  ghost predicate Roomy(t: Table, cards: seq<Uid>)
    requires Shaped(t)
  {
    if t.total == 0 then |cards| <= MAX_TAG_NUM
    else t.total + |UidsOf(cards) - LiveUids(t.slots)| <= MAX_TAG_NUM
  }

  lemma {:induction false} AllUsed(slots: seq<Tag>)
    requires forall k | 0 <= k < |slots| :: slots[k].used
    ensures UsedCount(slots) == |slots|
    decreases |slots|
  {
    if slots != [] {
      AllUsed(slots[..|slots| - 1]);
    }
  }

  lemma IsLive(slots: seq<Tag>, k: nat)
    requires k < |slots| && slots[k].used
    ensures slots[k].uid in LiveUids(slots)
  {
  }

  lemma WhoIsLive(slots: seq<Tag>, uid: Uid) returns (k: nat)
    requires uid in LiveUids(slots)
    ensures k < |slots| && slots[k].used && slots[k].uid == uid
  {
    k := FirstAlike(slots, uid, 0);
  }

  /** Giving a free slot to a tag makes that tag live; restating a slot changes nothing there. */
  lemma LiveUidsUpdate(slots: seq<Tag>, k: nat, tag: Tag)
    requires k < |slots| && tag.used && (slots[k].used ==> slots[k].uid == tag.uid)
    ensures LiveUids(slots[k := tag]) == LiveUids(slots) + {tag.uid}
  {
    hide LiveUids;
    var after := slots[k := tag];
    var live, grown := LiveUids(after), LiveUids(slots) + {tag.uid};
    forall uid | uid in live
      ensures uid in grown
    {
      var j := WhoIsLive(after, uid);
      if j != k {
        IsLive(slots, j);
      }
    }
    forall uid | uid in grown
      ensures uid in live
    {
      IsLive(after, k);
      if uid != tag.uid {
        var j := WhoIsLive(slots, uid);
        IsLive(after, j);
      }
    }
  }

  lemma UidsMore(cards: seq<Uid>)
    requires cards != []
    ensures UidsOf(cards) == UidsOf(cards[..|cards| - 1]) + {cards[|cards| - 1]}
  {
    var front, last := cards[..|cards| - 1], cards[|cards| - 1];
    forall i | 0 <= i < |front|
      ensures cards[i] == front[i]
    {
    }
    assert forall i | 0 <= i < |cards| :: cards[i] == if i < |front| then front[i] else last;
    assert forall uid | uid in UidsOf(front) + {last} :: uid in UidsOf(cards);
  }

  lemma {:induction false} MarkedSound(t: Table, cards: seq<Uid>)
    requires Sound(t) && t.total + |UidsOf(cards) - LiveUids(t.slots)| <= MAX_TAG_NUM
    ensures var r := Marked(t, cards).t;
            && Sound(r) && r.total == t.total + |UidsOf(cards) - LiveUids(t.slots)|
            && LiveUids(r.slots) == LiveUids(t.slots) + UidsOf(cards)
    decreases |cards|
  {
    hide Sound, LiveUids, UsedCount, UidsOf, Remarked, Shaped;
    var live := LiveUids(t.slots);
    if cards == [] {
      NoUids();
      assert UidsOf(cards) - live == {} && live + UidsOf(cards) == live;
    } else {
      var front, last := cards[..|cards| - 1], cards[|cards| - 1];
      UidsMore(cards);
      OneMoreUid(live, UidsOf(front), last);
      SoundShape(t);
      MarkedSound(t, front);
      if last in live + UidsOf(front) {
        RemarkedKnown(Marked(t, front), last);
      } else {
        RemarkedUnknown(Marked(t, front), last);
      }
    }
  }

  lemma OneMoreUid(live: set<Uid>, front: set<Uid>, last: Uid)
    ensures var all := front + {last};
            && |front - live| <= |all - live|
            && (last in live + front ==> |all - live| == |front - live| && live + all == live + front)
            && (last !in live + front ==> |all - live| == |front - live| + 1 && live + all == live + front + {last})
  {
    var all := front + {last};
    if last in live + front {
      assert all - live == front - live && live + all == live + front;
    } else {
      assert all - live == (front - live) + {last} && live + all == live + front + {last};
    }
  }

  lemma NoUids()
    ensures UidsOf([]) == {}
  {
  }

  lemma RemarkedKnown(m: Marking, uid: Uid)
    requires Sound(m.t) && uid in LiveUids(m.t.slots)
    ensures var r := Remarked(m, uid).t;
            Sound(r) && r.total == m.t.total && LiveUids(r.slots) == LiveUids(m.t.slots)
  {
    hide Sound, LiveUids, UsedCount;
    SoundShape(m.t);
    var k := FirstAlike(m.t.slots, uid, 0);
    RestatedSound(m.t, k, ExistSta);
    LiveUidsUpdate(m.t.slots, k, m.t.slots[k].(state := ExistSta));
  }

  lemma RemarkedUnknown(m: Marking, uid: Uid)
    requires Sound(m.t) && uid !in LiveUids(m.t.slots) && m.t.total < MAX_TAG_NUM
    ensures var r := Remarked(m, uid).t;
            Sound(r) && r.total == m.t.total + 1 && LiveUids(r.slots) == LiveUids(m.t.slots) + {uid}
  {
    hide LiveUids, UsedCount;
    var k := FirstFree(m.t.slots, 0);
    if k == MAX_TAG_NUM {
      AllUsed(m.t.slots);
    }
    AddedSound(m.t, uid, EntryBlockOkSta);
    LiveUidsUpdate(m.t.slots, k, Added(m.t, uid, EntryBlockOkSta).slots[k]);
  }

  lemma SoundShape(t: Table)
    requires Sound(t)
    ensures Shaped(t)
  {
  }

  // ----- departure -----

  lemma {:induction false} SweptSound(t: Table, operated: set<nat>, n: nat)
    requires Sound(t) && n <= MAX_TAG_NUM
    ensures Sound(Swept(t, operated, n))
    decreases n
  {
    hide Sound, Deleted, Restated;
    SoundShape(t);
    if n > 0 {
      SweptSound(t, operated, n - 1);
      var s, k := Swept(t, operated, n - 1), n - 1;
      if s.slots[k].used && k !in operated {
        if s.slots[k].state == ExitSta {
          DeletedSound(s, k);
        } else {
          RestatedSound(s, k, ExitSta);
        }
      }
    }
  }

  /** What the sweep leaves in slot k. */
  function SweptTag(tag: Tag, operated: bool): Tag {
    if !tag.used || operated then tag
    else if tag.state == ExitSta then Tag(false, NullSta, 0, tag.uid)
    else tag.(state := ExitSta)
  }

  lemma {:induction false} SweptSlots(t: Table, operated: set<nat>, n: nat)
    requires Shaped(t) && n <= MAX_TAG_NUM
    ensures var r := Swept(t, operated, n);
            forall k | 0 <= k < MAX_TAG_NUM ::
              r.slots[k] == if k < n then SweptTag(t.slots[k], k in operated) else t.slots[k]
    decreases n
  {
    hide Cleared;
    if n > 0 {
      SweptSlots(t, operated, n - 1);
      SweptOneSlots(Swept(t, operated, n - 1), operated, n - 1);
    }
  }

  lemma SweptOneSlots(t: Table, operated: set<nat>, k: nat)
    requires Shaped(t) && k < MAX_TAG_NUM
    ensures SweptOne(t, operated, k).slots == t.slots[k := SweptTag(t.slots[k], k in operated)]
  {
    hide Cleared;
  }

  /** Slot k is the first one of a tag that is among the cards. */
  ghost predicate Matched(t: Table, cards: seq<Uid>, k: nat)
    requires Shaped(t) && k < MAX_TAG_NUM
  {
    && t.slots[k].used && FirstAlike(t.slots, t.slots[k].uid, 0) == k
    && exists i :: 0 <= i < |cards| && cards[i] == t.slots[k].uid
  }

  /** What marking leaves in slot k: a known tag exists, a new one is none of those that were live before. */
  ghost predicate MarkedTag(was: Tag, now: Tag, operated: bool, live: set<Uid>) {
    if was.used then now == if operated then was.(state := ExistSta) else was
    else
      && now.used == operated
      && (operated ==> (now.state == EntryBlockOkSta || now.state == ExistSta) && now.uid !in live)
  }

  ghost predicate MarkedAll(t: Table, m: Marking) {
    && Shaped(t) && Shaped(m.t)
    && forall k | 0 <= k < MAX_TAG_NUM :: MarkedTag(t.slots[k], m.t.slots[k], k in m.operated, LiveUids(t.slots))
  }

  lemma {:induction false} MarkedSlots(t: Table, cards: seq<Uid>)
    requires Shaped(t)
    ensures MarkedAll(t, Marked(t, cards))
    decreases |cards|
  {
    hide LiveUids;
    if cards != [] {
      MarkedSlots(t, cards[..|cards| - 1]);
      RemarkedSlots(t, Marked(t, cards[..|cards| - 1]), cards[|cards| - 1]);
    }
  }

  lemma RemarkedSlots(t: Table, m: Marking, uid: Uid)
    requires MarkedAll(t, m)
    ensures MarkedAll(t, Remarked(m, uid))
  {
    hide LowestClear, LiveUids;
    SameFirst(t, m, uid);
  }

  /** Marking does not change which slot is the first of a tag that was live. */
  lemma SameFirst(t: Table, m: Marking, uid: Uid)
    requires MarkedAll(t, m)
    ensures uid in LiveUids(t.slots) ==> FirstAlike(m.t.slots, uid, 0) == FirstAlike(t.slots, uid, 0)
    ensures uid !in LiveUids(t.slots) && FirstAlike(m.t.slots, uid, 0) < MAX_TAG_NUM ==>
              !t.slots[FirstAlike(m.t.slots, uid, 0)].used
  {
    hide LiveUids, FirstAlike;
    var a, b := FirstAlike(m.t.slots, uid, 0), FirstAlike(t.slots, uid, 0);
    if uid in LiveUids(t.slots) {
      assert m.t.slots[b].used && m.t.slots[b].uid == uid;
      assert a <= b;
      assert t.slots[a].used && t.slots[a].uid == uid;
    }
  }

  /** The slots operated on are the matched ones, besides those given to new tags. */
  lemma {:induction false} OperatedMatched(t: Table, cards: seq<Uid>, k: nat)
    requires Shaped(t) && k < MAX_TAG_NUM && t.slots[k].used
    ensures k in Marked(t, cards).operated <==> Matched(t, cards, k)
    decreases |cards|
  {
    hide LiveUids, Matched, LowestClear, FirstFree;
    if cards != [] {
      var front, last := cards[..|cards| - 1], cards[|cards| - 1];
      var m := Marked(t, front);
      OperatedMatched(t, front, k);
      MarkedSlots(t, front);
      SameFirst(t, m, last);
      IsLive(t.slots, k);
      assert MarkedTag(t.slots[k], m.t.slots[k], k in m.operated, LiveUids(t.slots));
      assert cards == front + [last];
      MatchedMore(t, front, last, k);
    } else {
      NothingMatched(t, k);
    }
  }

  lemma NothingMatched(t: Table, k: nat)
    requires Shaped(t) && k < MAX_TAG_NUM
    ensures !Matched(t, [], k)
  {
  }

  lemma MatchedMore(t: Table, front: seq<Uid>, last: Uid, k: nat)
    requires Shaped(t) && k < MAX_TAG_NUM
    ensures Matched(t, front + [last], k) <==>
            Matched(t, front, k) || (t.slots[k].used && FirstAlike(t.slots, last, 0) == k)
  {
    var cards := front + [last];
    if Matched(t, front, k) {
      var i :| 0 <= i < |front| && front[i] == t.slots[k].uid;
      assert cards[i] == t.slots[k].uid;
    }
    assert cards[|front|] == last;
  }

  /** What one scan does to a used slot. */
  lemma SlotAfterScan(t: Table, cards: seq<Uid>, k: nat)
    requires Shaped(t) && t.total > 0 && k < MAX_TAG_NUM && t.slots[k].used
    ensures var was, now := t.slots[k], Compared(t, cards).slots[k];
            if Matched(t, cards, k) then now == was.(state := ExistSta)
            else if was.state == ExitSta then !now.used
            else now == was.(state := ExitSta)
  {
    hide LiveUids, Shaped, Matched;
    MarkedSlots(t, cards);
    OperatedMatched(t, cards, k);
    var m := Marked(t, cards);
    MarkedIsShaped(t, m);
    SweptSlots(m.t, m.operated, MAX_TAG_NUM);
    assert MarkedTag(t.slots[k], m.t.slots[k], k in m.operated, LiveUids(t.slots));
  }

  lemma MarkedIsShaped(t: Table, m: Marking)
    requires MarkedAll(t, m)
    ensures Shaped(t) && Shaped(m.t)
  {
  }

  /** A slot that was free is taken, if at all, by a tag that was not live, and that is not about to leave. */
  lemma FreeSlotAfterScan(t: Table, cards: seq<Uid>, k: nat)
    requires Shaped(t) && t.total > 0 && k < MAX_TAG_NUM && !t.slots[k].used
    ensures var now := Compared(t, cards).slots[k];
            now.used ==> (now.state == EntryBlockOkSta || now.state == ExistSta) && now.uid !in LiveUids(t.slots)
  {
    hide LiveUids, Shaped, Matched;
    MarkedSlots(t, cards);
    var m := Marked(t, cards);
    MarkedIsShaped(t, m);
    SweptSlots(m.t, m.operated, MAX_TAG_NUM);
    assert MarkedTag(t.slots[k], m.t.slots[k], k in m.operated, LiveUids(t.slots));
  }

  // ----- soundness over every run -----

  /** With no tag left the bitmap may be stale; the next scan clears it. */
  ghost predicate Resting(t: Table) {
    if t.total == 0 then Shaped(t) && forall k | 0 <= k < MAX_TAG_NUM :: !t.slots[k].used else Sound(t)
  }

  /** Every used slot carries a new tag's state. */
  ghost predicate AllNew(slots: seq<Tag>) {
    forall k | 0 <= k < |slots| && slots[k].used :: slots[k].state == EntryBlockFailSta
  }

  lemma {:induction false} FilledSlots(t: Table, uid: Uid, n: nat)
    requires Shaped(t) && AllNew(t.slots)
    ensures AllNew(Filled(t, uid, n).slots)
    decreases n
  {
    hide LowestClear, Shaped;
    if n > 0 {
      FilledSlots(t, uid, n - 1);
      AddedNew(Filled(t, uid, n - 1), uid);
    }
  }

  lemma AddedNew(t: Table, uid: Uid)
    requires Shaped(t) && AllNew(t.slots)
    ensures FirstFree(t.slots, 0) < MAX_TAG_NUM ==> AllNew(Added(t, uid, EntryBlockFailSta).slots)
  {
    hide LowestClear;
  }

  /**
    A slot is freed exactly by two scans in a row that miss its tag: of a slot still used between two scans, the second
    frees it if and only if the tag was there before the first and neither scan matched it.
   */
  lemma FreedAfterTwoMisses(t: Table, first: seq<Uid>, second: seq<Uid>, k: nat)
    requires Shaped(t) && Resting(t) && Compared(t, first).total > 0 && k < MAX_TAG_NUM
    requires Compared(t, first).slots[k].used
    ensures var between := Compared(t, first);
            !Compared(between, second).slots[k].used <==>
            && t.slots[k].used && between.slots[k] == t.slots[k].(state := ExitSta)
            && !Matched(t, first, k) && !Matched(between, second, k)
  {
    hide LiveUids, Matched, Marked, Swept, Filled;
    SlotAfterScan(Compared(t, first), second, k);
    if t.total == 0 {
      RestingEmpty(t);
      var clear, uid := t.(bits := AllClear()), if first == [] then [] else first[0];
      FilledSlots(clear, uid, |first|);
      assert Compared(t, first).slots == Filled(clear, uid, |first|).slots;
    } else if t.slots[k].used {
      SlotAfterScan(t, first, k);
    } else {
      FreeSlotAfterScan(t, first, k);
    }
  }

  lemma RestingEmpty(t: Table)
    requires Resting(t) && t.total == 0
    ensures Shaped(t) && forall k | 0 <= k < MAX_TAG_NUM :: !t.slots[k].used
  {
  }

  lemma {:induction false} NoneUsed(slots: seq<Tag>)
    requires forall k | 0 <= k < |slots| :: !slots[k].used
    ensures UsedCount(slots) == 0
    decreases |slots|
  {
    if slots != [] {
      NoneUsed(slots[..|slots| - 1]);
    }
  }

  lemma ResetSound(t: Table)
    requires Resting(t) && t.total == 0
    ensures Sound(t.(bits := AllClear())) && LiveUids(t.slots) == {}
  {
    hide UsedCount;
    if Sound(t) {
      SoundEmpty(t);
    }
    NoneUsed(t.slots);
  }

  lemma SoundEmpty(t: Table)
    requires Sound(t) && t.total == 0
    ensures forall k | 0 <= k < MAX_TAG_NUM :: !t.slots[k].used
  {
    hide UsedCount;
    forall k | 0 <= k < MAX_TAG_NUM
      ensures !t.slots[k].used
    {
      if t.slots[k].used {
        UsedCountUpdate(t.slots, k, Tag(false, NullSta, 0, []));
      }
    }
  }

  lemma {:induction false} FilledSound(t: Table, uid: Uid, n: nat)
    requires Sound(t) && t.total == 0 && n <= MAX_TAG_NUM && LiveUids(t.slots) == {}
    ensures var r := Filled(t, uid, n);
            Sound(r) && r.total == n && LiveUids(r.slots) == if n == 0 then {} else {uid}
  {
    hide Sound, LiveUids, UsedCount, FirstFree, LowestClear;
    SoundShape(t);
    if n > 0 {
      FilledSound(t, uid, n - 1);
      var f := Filled(t, uid, n - 1);
      SoundCount(f);
      AddedSound(f, uid, EntryBlockFailSta);
      LiveUidsUpdate(f.slots, FirstFree(f.slots, 0), Added(f, uid, EntryBlockFailSta).slots[FirstFree(f.slots, 0)]);
    }
  }

  lemma SoundCount(t: Table)
    requires Sound(t)
    ensures t.total < MAX_TAG_NUM ==> FirstFree(t.slots, 0) < MAX_TAG_NUM
    ensures t.total <= MAX_TAG_NUM
  {
    hide UsedCount;
    if FirstFree(t.slots, 0) == MAX_TAG_NUM {
      AllUsed(t.slots);
    }
  }

  /** After every scan that finds room the table is sound; in particular no tag ever carries NO_ID. */
  lemma ScanSound(t: Table, cards: seq<Uid>)
    requires Resting(t) && Roomy(t, cards)
    ensures Sound(Compared(t, cards)) && Resting(Compared(t, cards))
  {
    hide Sound, LiveUids, UidsOf, Filled, Marked, Swept;
    RestingShaped(t);
    if t.total == 0 {
      var clear := t.(bits := AllClear());
      ResetSound(t);
      FilledSound(clear, if cards == [] then [] else cards[0], |cards|);
    } else {
      MarkedSound(t, cards);
      SweptSound(Marked(t, cards).t, Marked(t, cards).operated, MAX_TAG_NUM);
    }
    SoundRests(Compared(t, cards));
  }

  lemma RestingShaped(t: Table)
    requires Resting(t)
    ensures Shaped(t)
  {
  }

  lemma SoundRests(t: Table)
    requires Sound(t)
    ensures Resting(t)
  {
    if t.total == 0 {
      SoundEmpty(t);
    }
  }

  lemma {:induction false} CardsOperated(t: Table, cards: seq<Uid>, uid: Uid)
    requires Sound(t) && t.total + |UidsOf(cards) - LiveUids(t.slots)| <= MAX_TAG_NUM && uid in UidsOf(cards)
    ensures var m := Marked(t, cards);
            var k := FirstAlike(m.t.slots, uid, 0);
            k < MAX_TAG_NUM && k in m.operated
    decreases |cards|
  {
    hide Sound, LiveUids, UidsOf, LowestClear;
    if cards == [] {
      NoUids();
      assert false;
    } else {
      var front, last := cards[..|cards| - 1], cards[|cards| - 1];
      UidsMore(cards);
      OneMoreUid(LiveUids(t.slots), UidsOf(front), last);
      SoundShape(t);
      MarkedSound(t, front);
      MarkedSound(t, cards);
      if uid in UidsOf(front) {
        CardsOperated(t, front, uid);
        StillFirst(Marked(t, front), last, uid);
      } else {
        NowFirst(Marked(t, front), last);
      }
    }
  }

  lemma StillFirst(m: Marking, last: Uid, uid: Uid)
    requires Shaped(m.t) && FirstAlike(m.t.slots, uid, 0) < MAX_TAG_NUM
    ensures FirstAlike(Remarked(m, last).t.slots, uid, 0) == FirstAlike(m.t.slots, uid, 0)
  {
    hide LowestClear;
    var r := Remarked(m, last).t;
    var a, b := FirstAlike(m.t.slots, uid, 0), FirstAlike(r.slots, uid, 0);
    assert r.slots[a].used && r.slots[a].uid == uid;
    assert b <= a;
  }

  lemma NowFirst(m: Marking, uid: Uid)
    requires Shaped(m.t) && Shaped(Remarked(m, uid).t)
    requires FirstAlike(m.t.slots, uid, 0) < MAX_TAG_NUM || FirstFree(m.t.slots, 0) < MAX_TAG_NUM
    ensures var r := Remarked(m, uid);
            FirstAlike(r.t.slots, uid, 0) < MAX_TAG_NUM && FirstAlike(r.t.slots, uid, 0) in r.operated
  {
    hide LowestClear;
    var r, a := Remarked(m, uid), FirstAlike(m.t.slots, uid, 0);
    var k := if a < MAX_TAG_NUM then a else FirstFree(m.t.slots, 0);
    assert r.t.slots[k].used && r.t.slots[k].uid == uid;
    assert FirstAlike(r.t.slots, uid, 0) <= k;
  }

  /** Every card just scanned has a live slot afterwards, unless the table was empty before. */
  lemma CardsLive(t: Table, cards: seq<Uid>)
    requires Sound(t) && t.total > 0 && Roomy(t, cards)
    ensures UidsOf(cards) <= LiveUids(Compared(t, cards).slots)
  {
    hide Sound, LiveUids, UidsOf, LowestClear, Marked, Swept;
    SoundShape(t);
    var m, r := Marked(t, cards), Compared(t, cards);
    SweptSlots(m.t, m.operated, MAX_TAG_NUM);
    forall uid | uid in UidsOf(cards)
      ensures uid in LiveUids(r.slots)
    {
      CardsOperated(t, cards, uid);
      IsLive(r.slots, FirstAlike(m.t.slots, uid, 0));
    }
  }

  /**
    rfid_find_tag compares twice when it saw cards. The second comparison needs new slots only after an empty table,
    where the first one stored every card under the identifier of the first card.
   */
  lemma SecondComparison(t: Table, cards: seq<Uid>)
    requires Resting(t) && cards != [] && Roomy(t, cards)
    ensures Sound(Compared(t, cards))
    ensures Roomy(Compared(t, cards), cards)
       <==> t.total > 0 || |cards| + |UidsOf(cards)| - 1 <= MAX_TAG_NUM
  {
    hide Sound, LiveUids, UidsOf, Filled, Marked, Swept;
    RestingShaped(t);
    ScanSound(t, cards);
    var r := Compared(t, cards);
    SoundCount(r);
    if t.total == 0 {
      var clear := t.(bits := AllClear());
      ResetSound(t);
      FilledSound(clear, cards[0], |cards|);
      FirstCard(cards);
      assert |UidsOf(cards) - {cards[0]}| == |UidsOf(cards)| - 1;
    } else {
      CardsLive(t, cards);
      assert UidsOf(cards) - LiveUids(r.slots) == {};
      if r.total == 0 {
        SoundEmpty(r);
        FirstCard(cards);
        var k := WhoIsLive(r.slots, cards[0]);
      }
    }
  }

  predicate Distinct(cards: seq<Uid>) {
    forall i, j | 0 <= i < j < |cards| :: cards[i] != cards[j]
  }

  lemma {:induction false} DistinctCount(cards: seq<Uid>)
    requires Distinct(cards)
    ensures |UidsOf(cards)| == |cards|
    decreases |cards|
  {
    if cards == [] {
      NoUids();
    } else {
      DistinctCount(cards[..|cards| - 1]);
      UidsMore(cards);
    }
  }

  lemma {:induction false} FullSlots(slots: seq<Tag>)
    ensures UsedCount(slots) <= |slots|
    ensures UsedCount(slots) == |slots| ==> forall k | 0 <= k < |slots| :: slots[k].used
    decreases |slots|
  {
    if slots != [] {
      FullSlots(slots[..|slots| - 1]);
    }
  }

  /**
    Six cards put on an empty reader at once: the first comparison stores the first card six times, and when the
    second one has found slots for four more, none is left for the sixth card.
   */
  lemma SixCards(t: Table, cards: seq<Uid>)
    requires Resting(t) && t.total == 0 && |cards| == 6 && Distinct(cards)
    ensures Roomy(t, cards) && !Roomy(Compared(t, cards), cards)
    ensures var m := Marked(Compared(t, cards), cards[..5]).t;
            FirstAlike(m.slots, cards[5], 0) == MAX_TAG_NUM && FirstFree(m.slots, 0) == MAX_TAG_NUM
  {
    hide Sound, LiveUids, UidsOf, Filled, Marked;
    RestingShaped(t);
    DistinctCount(cards);
    SecondComparison(t, cards);
    ResetSound(t);
    FilledSound(t.(bits := AllClear()), cards[0], 6);
    var r, five := Compared(t, cards), cards[..5];
    DistinctCount(five);
    FirstCard(five);
    assert |UidsOf(five) - {cards[0]}| == 4;
    MarkedSound(r, five);
    var m := Marked(r, five).t;
    SoundUsed(m);
    FullSlots(m.slots);
    UidsMore(cards);
    assert cards[..5] == five;
    assert UidsOf(cards) == UidsOf(five) + {cards[5]};
    assert cards[5] !in LiveUids(m.slots);
  }

  lemma SoundUsed(t: Table)
    requires Sound(t)
    ensures t.total == UsedCount(t.slots) && |t.slots| == MAX_TAG_NUM
  {
  }

  lemma FirstCard(cards: seq<Uid>)
    requires cards != []
    ensures cards[0] in UidsOf(cards)
  {
  }

  // ----- the reader task -----

  datatype Reader = Reader(t: Table, zeros: nat)

  function CleanTag(tag: Tag): Tag {
    Tag(false, NullSta, tag.id, seq(8, i => 0xFF))
  }

  /** context_clear: every slot is freed, ids and bitmap stay as they are. */
  function Forgotten(t: Table): (r: Table)
    requires Shaped(t)
    ensures Shaped(r) && r.total == 0 && r.bits == t.bits
  {
    Table(seq(MAX_TAG_NUM, k requires 0 <= k < MAX_TAG_NUM => CleanTag(t.slots[k])), 0, t.bits)
  }

  /** rfid_find_tag on the cards the radio reported */
  function Scanned(r: Reader, cards: seq<Uid>): (after: Reader)
    requires Shaped(r.t)
    ensures Shaped(after.t)
  {
    var t := Compared(r.t, cards);
    if cards != [] then Reader(Compared(t, cards), 0)
    else if t.total == 0 then Reader(t, r.zeros)
    else if r.zeros + 1 > MAX_READ_ZERO_NUM then Reader(Forgotten(t), 0)
    else Reader(t, r.zeros + 1)
  }

  ghost predicate ScanRoomy(t: Table, cards: seq<Uid>)
    requires Shaped(t)
  {
    && Roomy(t, cards)
    && (t.total == 0 && cards != [] ==> |cards| + |UidsOf(cards)| - 1 <= MAX_TAG_NUM)
  }

  lemma ScannedSound(r: Reader, cards: seq<Uid>)
    requires Resting(r.t) && ScanRoomy(r.t, cards)
    ensures Resting(Scanned(r, cards).t)
  {
    hide Sound, LiveUids, UidsOf, Compared;
    RestingShaped(r.t);
    ScanSound(r.t, cards);
    var t := Compared(r.t, cards);
    if cards != [] {
      SecondComparison(r.t, cards);
      SoundRests(t);
      ScanSound(t, cards);
    }
  }

  function Scans(r: Reader, runs: seq<seq<Uid>>): (after: Reader)
    requires Shaped(r.t)
    ensures Shaped(after.t)
  {
    if runs == [] then r else Scanned(Scans(r, runs[..|runs| - 1]), runs[|runs| - 1])
  }

  ghost predicate AllRoomy(r: Reader, runs: seq<seq<Uid>>)
    requires Shaped(r.t)
  {
    forall i | 0 <= i < |runs| :: ScanRoomy(Scans(r, runs[..i]).t, runs[i])
  }

  /** Tags in use have distinct ids below ten, and their bits are set. */
  ghost predicate IdsApart(t: Table)
    requires Shaped(t)
  {
    && (forall j, k | 0 <= j < k < MAX_TAG_NUM && t.slots[j].used && t.slots[k].used :: t.slots[j].id != t.slots[k].id)
    && (forall k | 0 <= k < MAX_TAG_NUM && t.slots[k].used :: t.slots[k].id < MAX_TAG_NUM && t.bits[t.slots[k].id])
  }

  lemma RestingIds(t: Table)
    requires Resting(t)
    ensures Shaped(t) && IdsApart(t) && t.total == UsedCount(t.slots)
  {
    if t.total == 0 {
      NoneUsed(t.slots);
    } else {
      assert forall k | 0 <= k < MAX_TAG_NUM && t.slots[k].used :: Live(t.slots, t.slots[k].id);
    }
  }

  /** Over every run in which ten slots are enough: the count is right and the ids are distinct, after every scan. */
  lemma {:induction false} RunSound(r: Reader, runs: seq<seq<Uid>>)
    requires Resting(r.t) && Shaped(r.t) && AllRoomy(r, runs)
    ensures Resting(Scans(r, runs).t)
    ensures var t := Scans(r, runs).t; IdsApart(t) && t.total == UsedCount(t.slots)
    decreases |runs|
  {
    hide Resting, ScanRoomy, Shaped, Scanned, IdsApart;
    RestingIds(r.t);
    if runs != [] {
      var n := |runs| - 1;
      forall i | 0 <= i < n
        ensures ScanRoomy(Scans(r, runs[..n][..i]).t, runs[..n][i])
      {
        assert runs[..n][..i] == runs[..i];
      }
      RunSound(r, runs[..n]);
      ScannedSound(Scans(r, runs[..n]), runs[n]);
      RestingIds(Scans(r, runs).t);
    }
  }

  // ----- what a scan leaves in the table -----

  lemma LiveAfterSweep(t: Table, cards: seq<Uid>, k: nat)
    requires Shaped(t) && t.total > 0 && k < MAX_TAG_NUM && Compared(t, cards).slots[k].used
    ensures Compared(t, cards).slots[k].uid in LiveUids(Marked(t, cards).t.slots)
  {
    hide LiveUids, Marked;
    var m := Marked(t, cards);
    SweptSlots(m.t, m.operated, MAX_TAG_NUM);
    IsLive(m.t.slots, k);
  }

  /** After one comparison a slot in use holds a card just seen, or is about to be freed. */
  lemma SeenOrLeaving(t: Table, cards: seq<Uid>, k: nat)
    requires Sound(t) && Shaped(t) && t.total > 0 && Roomy(t, cards) && k < MAX_TAG_NUM && Compared(t, cards).slots[k].used
    ensures var tag := Compared(t, cards).slots[k];
            tag.uid in UidsOf(cards) || (tag.state == ExitSta && t.slots[k].used)
  {
    hide Sound, LiveUids, Marked, Swept, Compared, UidsOf;
    if t.slots[k].used {
      SlotAfterScan(t, cards, k);
      if Matched(t, cards, k) {
        SeenUid(cards, t.slots[k].uid);
      }
    } else {
      FreeSlotAfterScan(t, cards, k);
      LiveAfterSweep(t, cards, k);
      MarkedSound(t, cards);
    }
  }

  lemma SeenUid(cards: seq<Uid>, uid: Uid)
    requires exists i :: 0 <= i < |cards| && cards[i] == uid
    ensures uid in UidsOf(cards)
  {
  }

  lemma OneUid(t: Table, cards: seq<Uid>, k: nat)
    requires Resting(t) && Shaped(t) && t.total == 0 && cards != [] && Roomy(t, cards)
    requires k < MAX_TAG_NUM && Compared(t, cards).slots[k].used
    ensures Compared(t, cards).slots[k].uid in UidsOf(cards)
  {
    hide Sound, LiveUids, UidsOf, Filled;
    ResetSound(t);
    FilledSound(t.(bits := AllClear()), cards[0], |cards|);
    IsLive(Compared(t, cards).slots, k);
    FirstCard(cards);
  }

  lemma StillTags(t: Table, cards: seq<Uid>)
    requires Resting(t) && cards != [] && Roomy(t, cards)
    ensures Shaped(t) && Sound(Compared(t, cards)) && Compared(t, cards).total > 0
  {
    hide Sound, LiveUids, UidsOf, Filled, Marked, Swept;
    RestingShaped(t);
    ScanSound(t, cards);
    if t.total > 0 {
      CardsLive(t, cards);
      FirstCard(cards);
      var r := Compared(t, cards);
      var k := WhoIsLive(r.slots, cards[0]);
      if r.total == 0 {
        SoundEmpty(r);
      }
    }
  }

  /**
    A scan that sees cards leaves exactly those in the table, because it compares twice: whatever was not seen is marked
    by the first comparison and freed by the second.
   */
  lemma ScanSees(r: Reader, cards: seq<Uid>)
    requires Resting(r.t) && Shaped(r.t) && ScanRoomy(r.t, cards) && cards != []
    ensures LiveUids(Scanned(r, cards).t.slots) == UidsOf(cards) && Scanned(r, cards).zeros == 0
  {
    hide Sound, Resting, LiveUids, UidsOf, Compared, Matched, Roomy;
    RoomyFirst(r.t, cards);
    var t := Compared(r.t, cards);
    StillTags(r.t, cards);
    SecondComparison(r.t, cards);
    var after := Compared(t, cards);
    CardsLive(t, cards);
    forall uid | uid in LiveUids(after.slots)
      ensures uid in UidsOf(cards)
    {
      var k := WhoIsLive(after.slots, uid);
      SlotSeen(r.t, cards, k);
    }
  }

  lemma RoomyFirst(t: Table, cards: seq<Uid>)
    requires Shaped(t) && ScanRoomy(t, cards)
    ensures Roomy(t, cards)
    ensures t.total == 0 && cards != [] ==> |cards| + |UidsOf(cards)| - 1 <= MAX_TAG_NUM
  {
    hide Roomy, UidsOf;
  }

  lemma SlotSeen(t: Table, cards: seq<Uid>, k: nat)
    requires Resting(t) && Shaped(t) && Roomy(t, cards) && cards != [] && k < MAX_TAG_NUM
    requires var r := Compared(t, cards);
             Sound(r) && r.total > 0 && Roomy(r, cards) && Compared(r, cards).slots[k].used
    ensures Compared(Compared(t, cards), cards).slots[k].uid in UidsOf(cards)
  {
    hide Sound, LiveUids, UidsOf, Compared, Roomy;
    var r := Compared(t, cards);
    SeenOrLeaving(r, cards, k);
    if r.slots[k].used {
      SlotAfterScan(r, cards, k);
      if t.total > 0 {
        RestingSound(t);
        SeenOrLeaving(t, cards, k);
      } else {
        OneUid(t, cards, k);
      }
    }
  }

  lemma RestingSound(t: Table)
    requires Resting(t) && t.total > 0
    ensures Sound(t)
  {
  }

  // ----- scans that see nothing -----

  ghost predicate AllLeaving(t: Table)
    requires Shaped(t)
  {
    forall k | 0 <= k < MAX_TAG_NUM && t.slots[k].used :: t.slots[k].state == ExitSta
  }

  lemma NothingSeen(t: Table)
    requires Resting(t) && Shaped(t)
    ensures Roomy(t, []) && Resting(Compared(t, [])) && AllLeaving(Compared(t, []))
    ensures AllLeaving(t) ==> Compared(t, []).total == 0
  {
    hide Sound, LiveUids, UidsOf, Marked, Swept;
    NoUids();
    if t.total > 0 {
      SoundCount(t);
    }
    ScanSound(t, []);
    var r := Compared(t, []);
    forall k | 0 <= k < MAX_TAG_NUM && r.slots[k].used
      ensures r.slots[k].state == ExitSta && t.slots[k].used && t.slots[k].state != ExitSta
    {
      NothingMatched(t, k);
      if t.total > 0 {
        SlotUnseen(t, k);
      }
    }
    if AllLeaving(t) {
      SoundUsed(r);
      NoneUsed(r.slots);
    }
  }

  lemma SlotUnseen(t: Table, k: nat)
    requires Resting(t) && Shaped(t) && t.total > 0 && k < MAX_TAG_NUM && Roomy(t, []) && Compared(t, []).slots[k].used
    ensures t.slots[k].used && t.slots[k].state != ExitSta && Compared(t, []).slots[k].state == ExitSta
  {
    hide Sound, LiveUids, UidsOf, Compared, Roomy;
    RestingSound(t);
    NoUids();
    SeenOrLeaving(t, [], k);
    NothingMatched(t, k);
    SlotAfterScan(t, [], k);
  }

  /** Two scans in a row that see nothing empty the table. */
  lemma TwoEmptyScans(r: Reader)
    requires Resting(r.t) && Shaped(r.t) && r.zeros == 0
    ensures var after := Scanned(Scanned(r, []), []).t; after.total == 0 && LiveUids(after.slots) == {}
  {
    hide Compared, LiveUids;
    NothingSeen(r.t);
    RestingShaped(Compared(r.t, []));
    NothingSeen(Compared(r.t, []));
    var after := Compared(Compared(r.t, []), []);
    RestingShaped(after);
    assert forall k | 0 <= k < MAX_TAG_NUM :: !after.slots[k].used;
    if uid: Uid :| uid in LiveUids(after.slots) {
      var k := WhoIsLive(after.slots, uid);
    }
  }

  /** The counter of empty reads never exceeds one, since at its second step no tag is left. */
  ghost predicate Counting(r: Reader) {
    Resting(r.t) && Shaped(r.t) && r.zeros <= 1 && (r.zeros == 1 ==> AllLeaving(r.t))
  }

  lemma CountingShaped(r: Reader)
    requires Counting(r)
    ensures Shaped(r.t)
  {
  }

  lemma CountingStep(r: Reader, cards: seq<Uid>)
    requires Counting(r) && ScanRoomy(r.t, cards)
    ensures Counting(Scanned(r, cards))
    ensures cards == [] ==> Scanned(r, cards).t == Compared(r.t, cards)
  {
    hide Resting, Compared, ScanRoomy, Shaped, AllLeaving;
    ScannedSound(r, cards);
    RestingShaped(Scanned(r, cards).t);
    NothingSeen(r.t);
  }

  /** So over every run the clearing of the whole table after several empty reads is never reached. */
  lemma {:induction false} NeverForgotten(r: Reader, runs: seq<seq<Uid>>)
    requires Counting(r) && AllRoomy(r, runs)
    ensures Counting(Scans(r, runs))
    ensures forall i | 0 <= i < |runs| && runs[i] == [] :: Scans(r, runs[..i + 1]).t == Compared(Scans(r, runs[..i]).t, [])
    decreases |runs|
  {
    hide Counting, ScanRoomy, Scanned, Compared;
    if runs != [] {
      var n := |runs| - 1;
      var front := runs[..n];
      CountingShaped(r);
      forall i | 0 <= i < n
        ensures ScanRoomy(Scans(r, front[..i]).t, front[i])
      {
        assert front[..i] == runs[..i];
      }
      NeverForgotten(r, front);
      CountingStep(Scans(r, front), runs[n]);
      forall i | 0 <= i < |runs| && runs[i] == []
        ensures Scans(r, runs[..i + 1]).t == Compared(Scans(r, runs[..i]).t, [])
      {
        if i < n {
          assert front[..i] == runs[..i] && front[..i + 1] == runs[..i + 1] && front[i] == [];
        } else {
          assert runs[..n + 1] == runs;
        }
      }
    }
  }

  /** What an empty read would do with a larger count: the sixth in a row frees every slot and keeps the bitmap. */
  lemma EmptyRead(r: Reader)
    requires Shaped(r.t) && Compared(r.t, []).total > 0
    ensures var after := Scanned(r, []);
            if r.zeros < 5 then after == Reader(Compared(r.t, []), r.zeros + 1)
            else
              && after.zeros == 0 && after.t.total == 0 && after.t.bits == Compared(r.t, []).bits
              && forall k | 0 <= k < MAX_TAG_NUM ::
                   var tag := after.t.slots[k];
                   !tag.used && tag.state == NullSta && |tag.uid| == 8 && forall i | 0 <= i < 8 :: tag.uid[i] == 0xFF
  {
    hide Compared;
  }

  // ----- the table updated in place -----

  /** Before each card of a scan there is a slot for it. */
  lemma RoomForCard(t: Table, cards: seq<Uid>, i: nat)
    requires Sound(t) && t.total > 0 && Roomy(t, cards) && i < |cards|
    ensures var m := Marked(t, cards[..i]).t;
            FirstAlike(m.slots, cards[i], 0) < MAX_TAG_NUM || FirstFree(m.slots, 0) < MAX_TAG_NUM
  {
    hide Sound, LiveUids, UidsOf, Marked;
    SoundShape(t);
    var live, upTo := LiveUids(t.slots), cards[..i + 1];
    UidsPrefix(cards, i + 1);
    Smaller(UidsOf(upTo) - live, UidsOf(cards) - live);
    assert upTo[..i] == cards[..i];
    UidsMore(upTo);
    OneMoreUid(live, UidsOf(cards[..i]), cards[i]);
    MarkedSound(t, cards[..i]);
    SoundCount(Marked(t, cards[..i]).t);
  }

  lemma UidsPrefix(cards: seq<Uid>, n: nat)
    requires n <= |cards|
    ensures UidsOf(cards[..n]) <= UidsOf(cards)
  {
    forall i | 0 <= i < n
      ensures cards[..n][i] in UidsOf(cards)
    {
      assert cards[..n][i] == cards[i];
    }
  }

  class TagReader {
    const slots: array<Tag>
    var total: nat
    var bits: seq<bool>
    var zeros: nat

    constructor ()
      ensures Valid() && Resting(State()) && zeros == 0 && fresh(slots)
    {
      slots := new Tag[MAX_TAG_NUM](i => Tag(false, NullSta, 0, []));
      total, bits, zeros := 0, AllClear(), 0;
    }

    ghost function State(): Table
      reads this`total, this`bits, slots
    {
      Table(slots[..], total, bits)
    }

    ghost predicate Valid()
      reads this`total, this`bits, slots
    {
      Shaped(State())
    }

    method GetCstmTagId() returns (id: nat)
      requires Valid()
      modifies this`bits
      ensures id == LowestClear(old(bits), 0)
      ensures bits == if id < NO_ID then old(bits)[id := true] else old(bits)
    {
      for i := 0 to NO_ID
        invariant LowestClear(bits, 0) == LowestClear(bits, i) && bits == old(bits)
      {
        if !bits[i] {
          bits := bits[i := true];
          return i;
        }
      }
      return NO_ID;
    }

    method FindAvalibNode() returns (k: nat)
      requires Valid()
      ensures k == FirstFree(slots[..], 0)
    {
      for i := 0 to MAX_TAG_NUM
        invariant FirstFree(slots[..], 0) == FirstFree(slots[..], i)
      {
        if !slots[i].used {
          return i;
        }
      }
      return MAX_TAG_NUM;
    }

    method FindAlikeCard(uid: Uid) returns (k: nat)
      requires Valid()
      ensures k == FirstAlike(slots[..], uid, 0)
    {
      for i := 0 to MAX_TAG_NUM
        invariant FirstAlike(slots[..], uid, 0) == FirstAlike(slots[..], uid, i)
      {
        if slots[i].used && slots[i].uid == uid {
          return i;
        }
      }
      return MAX_TAG_NUM;
    }

    method DeleteNodeIndex(k: nat)
      requires Valid() && k < MAX_TAG_NUM
      modifies this`total, this`bits, slots
      ensures Valid() && State() == Deleted(old(State()), k)
    {
      var id := slots[k].id;
      slots[k] := slots[k].(used := false, state := NullSta);
      bits := if id == NO_ID then AllClear() else bits[id := false];
      slots[k] := slots[k].(id := 0);
      if total > 0 {
        total := total - 1;
      } else {
        total := 0;
      }
      assert slots[..] == Deleted(old(State()), k).slots;
    }

    method AddNewItem(uid: Uid) returns (k: nat)
      requires Valid() && FirstFree(slots[..], 0) < MAX_TAG_NUM
      modifies this`total, this`bits, slots
      ensures Valid() && k == FirstFree(old(slots[..]), 0)
      ensures State() == Added(old(State()), uid, EntryBlockFailSta)
    {
      hide LowestClear, FirstFree;
      k := FindAvalibNode();
      slots[k] := slots[k].(uid := uid, state := EntryBlockFailSta, used := true);
      total := total + 1;
      var id := GetCstmTagId();
      slots[k] := slots[k].(id := id);
      assert slots[..] == Added(old(State()), uid, EntryBlockFailSta).slots;
    }

    method FindLoseCard(operated: set<nat>)
      requires Valid()
      modifies this`total, this`bits, slots
      ensures Valid() && State() == Swept(old(State()), operated, MAX_TAG_NUM)
    {
      hide Deleted, Shaped;
      for i := 0 to MAX_TAG_NUM
        invariant Valid() && State() == Swept(old(State()), operated, i)
      {
        LoseOne(operated, i);
      }
    }

    /** One slot of that loop */
    method LoseOne(operated: set<nat>, i: nat)
      requires Valid() && i < MAX_TAG_NUM
      modifies this`total, this`bits, slots
      ensures Valid() && State() == SweptOne(old(State()), operated, i)
    {
      hide Cleared;
      if slots[i].used {
        if i !in operated {
          if slots[i].state == ExitSta {
            slots[i] := slots[i].(state := NullSta);
            DeleteNodeIndex(i);
            assert slots[..] == Deleted(old(State()), i).slots;
          } else {
            slots[i] := slots[i].(state := ExitSta);
            assert slots[..] == Restated(old(State()), i, ExitSta).slots;
          }
        }
      }
    }

    method TagCompareRemark(uid: Uid, ghost operated: set<nat>) returns (k: nat)
      requires Valid()
      requires FirstAlike(slots[..], uid, 0) < MAX_TAG_NUM || FirstFree(slots[..], 0) < MAX_TAG_NUM
      modifies this`total, this`bits, slots
      ensures Valid() && k < MAX_TAG_NUM
      ensures Marking(State(), operated + {k}) == Remarked(Marking(old(State()), operated), uid)
    {
      hide FirstAlike, FirstFree, LowestClear;
      k := FindAlikeCard(uid);
      if k != MAX_TAG_NUM {
        slots[k] := slots[k].(state := ExistSta);
        assert slots[..] == Restated(old(State()), k, ExistSta).slots;
      } else {
        k := AddNewItem(uid);
        slots[k] := slots[k].(state := EntryBlockOkSta);
        assert slots[..] == Added(old(State()), uid, EntryBlockOkSta).slots;
      }
    }

    method CompareAllTag(cards: seq<Uid>)
      requires Valid() && Resting(State()) && Roomy(State(), cards)
      modifies this`total, this`bits, slots
      ensures Valid() && Sound(State()) && State() == Compared(old(State()), cards)
    {
      hide Sound, Resting, Roomy, Shaped, Filled, Marked, Swept, FirstFree, FirstAlike, LiveUids, UidsOf;
      ghost var before := State();
      ScanSound(before, cards);
      if total == 0 {
        FillAll(cards);
        return;
      }
      var operated := MarkAll(cards);
      FindLoseCard(operated);
    }

    /** The empty table: every card is stored under the identifier of the first. */
    method FillAll(cards: seq<Uid>)
      requires Valid() && Resting(State()) && Roomy(State(), cards) && total == 0
      modifies this`total, this`bits, slots
      ensures Valid() && State() == Compared(old(State()), cards)
    {
      hide Sound, LiveUids, UidsOf, FirstFree, LowestClear, Added;
      ghost var clear := State().(bits := AllClear());
      ResetSound(State());
      bits := AllClear();
      ghost var uid := if cards == [] then [] else cards[0];
      for i := 0 to |cards|
        invariant Valid() && State() == Filled(clear, uid, i)
      {
        FilledSound(clear, uid, i);
        SoundCount(State());
        var k := AddNewItem(cards[0]);
      }
      total := |cards|;
    }

    method MarkAll(cards: seq<Uid>) returns (operated: set<nat>)
      requires Valid() && Resting(State()) && Roomy(State(), cards) && total > 0
      modifies this`total, this`bits, slots
      ensures Valid() && Marking(State(), operated) == Marked(old(State()), cards)
    {
      hide Sound, LiveUids, UidsOf, FirstFree, FirstAlike, LowestClear, Remarked, Shaped, Roomy;
      ghost var before := State();
      operated := {};
      for i := 0 to |cards|
        invariant Valid() && Marking(State(), operated) == Marked(before, cards[..i])
      {
        RoomForCard(before, cards, i);
        assert cards[..i + 1][..i] == cards[..i];
        var k := TagCompareRemark(cards[i], operated);
        operated := operated + {k};
      }
      assert cards[..|cards|] == cards;
    }

    method ContextClear()
      requires Valid()
      modifies this`total, slots
      ensures Valid() && State() == Forgotten(old(State()))
    {
      total := 0;
      for i := 0 to MAX_TAG_NUM
        invariant total == 0
        invariant slots[..i] == Forgotten(old(State())).slots[..i] && slots[i..] == old(slots[i..])
      {
        slots[i] := slots[i].(used := false, state := NullSta, uid := seq(8, j => 0xFF));
      }
      assert slots[..] == Forgotten(old(State())).slots;
    }

    /** rfid_find_tag */
    method RfidFindTag(cards: seq<Uid>)
      requires Valid() && Resting(State()) && ScanRoomy(State(), cards)
      modifies this, slots
      ensures Valid() && Resting(State())
      ensures Reader(State(), zeros) == Scanned(Reader(old(State()), old(zeros)), cards)
    {
      hide Sound, Compared, Roomy, Resting, Shaped;
      ghost var before := State();
      ScannedSound(Reader(before, zeros), cards);
      CompareAllTag(cards);
      SoundRests(State());
      if |cards| != 0 {
        SecondComparison(before, cards);
        CompareAllTag(cards);
        zeros := 0;
      } else {
        if total > 0 {
          zeros := zeros + 1;
          if zeros > MAX_READ_ZERO_NUM {
            zeros := 0;
            ContextClear();
          }
        }
      }
    }
  }
}
