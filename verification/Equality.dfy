/**
  What cJSON_Compare decides, as a function of the two values, and the equality it stands for: objects read as maps
  from keys to meanings, members in any order.
 */
module Equality {
  import opened Bytes
  import opened Json

  // ----- numbers (compare_double) -----

  const EPSILON: real := 1.0 / 4503599627370496.0

  function Abs(x: real): real {
    if x < 0.0 then -x else x
  }

  predicate CompareDouble(a: real, b: real) {
    Abs(a - b) <= (if Abs(a) > Abs(b) then Abs(a) else Abs(b)) * EPSILON
  }

  predicate WholeNumber(x: real) {
    x == x.Floor as real && -LARGEST < x.Floor < LARGEST
  }

  /** Below 10^15 the tolerance is too small to confuse two integers. */
  lemma CompareDoubleExact(a: real, b: real)
    requires WholeNumber(a) && WholeNumber(b)
    ensures CompareDouble(a, b) <==> a == b
  {
    if a.Floor != b.Floor {
      assert Abs(a - b) >= 1.0;
    }
  }

  /** In units of a part in 2^52: the difference does not exceed one of the two numbers in absolute value. */
  lemma CompareDoubleMeans(a: real, b: real)
    ensures var d := (a - b) * 4503599627370496.0;
            CompareDouble(a, b) <==> -a <= d <= a || a <= d <= -a || -b <= d <= b || b <= d <= -b
  {
    assert EPSILON * 4503599627370496.0 == 1.0;
  }

  // ----- the meaning of a value -----

  datatype Meaning =
    | Leaf(v: Value)
    | Sequence(items: seq<Meaning>)
    | Mapping(entries: map<bytes, Meaning>)

  function Keys(members: seq<Member>): (r: set<bytes>)
    ensures forall k :: k in r <==> exists i :: 0 <= i < |members| && members[i].key == k
  {
    set i | 0 <= i < |members| :: members[i].key
  }

  /** Where a search from the front first meets a key. */
  function First(members: seq<Member>, key: bytes, from: nat): (i: nat)
    requires from <= |members|
    ensures from <= i <= |members| && (i < |members| ==> members[i].key == key)
    ensures forall j | from <= j < i :: members[j].key != key
    decreases |members| - from
  {
    if from == |members| || members[from].key == key then from else First(members, key, from + 1)
  }

  /** An object maps each of its keys to the first value held under it. */
  function MeaningOf(v: Value): Meaning {
    match v
    case Array(items) => Sequence(seq(|items|, i requires 0 <= i < |items| => MeaningOf(items[i])))
    case Object(members) =>
      Mapping(map k | k in Keys(members) :: MeaningOf(members[First(members, k, 0)].value))
    case _ => Leaf(v)
  }

  ghost predicate Whole(v: Value) {
    match v
    case Number(n) => WholeNumber(n)
    case Array(items) => forall i | 0 <= i < |items| :: Whole(items[i])
    case Object(members) => forall i | 0 <= i < |members| :: Whole(members[i].value)
    case _ => true
  }

  /** Wherever a key is repeated in an object, it is repeated with the same meaning. */
  ghost predicate Coherent(v: Value) {
    match v
    case Array(items) => forall i | 0 <= i < |items| :: Coherent(items[i])
    case Object(members) =>
      forall i | 0 <= i < |members| ::
        && Coherent(members[i].value)
        && MeaningOf(members[i].value) == MeaningOf(members[First(members, members[i].key, 0)].value)
    case _ => true
  }

  ghost predicate DistinctKeys(v: Value) {
    match v
    case Array(items) => forall i | 0 <= i < |items| :: DistinctKeys(items[i])
    case Object(members) =>
      && (forall i, j | 0 <= i < j < |members| :: members[i].key != members[j].key)
      && forall i | 0 <= i < |members| :: DistinctKeys(members[i].value)
    case _ => true
  }

  lemma {:induction false} DistinctCoherent(v: Value)
    requires DistinctKeys(v)
    ensures Coherent(v)
  {
    match v
    case Array(items) =>
      forall i | 0 <= i < |items| ensures Coherent(items[i]) {
        DistinctCoherent(items[i]);
      }
    case Object(members) =>
      forall i | 0 <= i < |members|
        ensures Coherent(members[i].value) && First(members, members[i].key, 0) == i
      {
        DistinctCoherent(members[i].value);
        assert First(members, members[i].key, 0) <= i;
      }
    case _ =>
  }

  // ----- size of a value, which every recursive comparison shrinks -----

  function Size(v: Value): nat {
    match v
    case Array(items) => 1 + SizeOfItems(items)
    case Object(members) => 1 + SizeOfMembers(members)
    case _ => 1
  }

  function SizeOfItems(items: seq<Value>): (r: nat)
    ensures forall i | 0 <= i < |items| :: Size(items[i]) <= r
  {
    if items == [] then 0 else SizeOfItems(items[..|items| - 1]) + Size(items[|items| - 1])
  }

  function SizeOfMembers(members: seq<Member>): (r: nat)
    ensures forall i | 0 <= i < |members| :: Size(members[i].value) <= r
  {
    if members == [] then 0 else SizeOfMembers(members[..|members| - 1]) + Size(members[|members| - 1].value)
  }

  // ----- cJSON_Compare, case sensitive -----

  /** Arrays compare pointwise; objects look each member of one up in the other, both ways, arguments swapped. */
  ghost predicate Compared(a: Value, b: Value)
    decreases Size(a) + Size(b), 1
  {
    match (a, b)
    case (Number(x), Number(y)) => CompareDouble(x, y)
    case (Array(xs), Array(ys)) => |xs| == |ys| && forall i | 0 <= i < |xs| :: Compared(xs[i], ys[i])
    case (Object(ms), Object(ns)) =>
      && (forall i | 0 <= i < |ms| :: Found(ms[i], b))
      && (forall i | 0 <= i < |ns| :: Found(ns[i], a))
    case _ => a == b
  }

  /** One member's key is in the object, first with a matching value. */
  ghost predicate Found(m: Member, o: Value)
    requires o.Object?
    decreases Size(m.value) + Size(o), 0
  {
    var i := First(o.members, m.key, 0);
    i < |o.members| && Compared(m.value, o.members[i].value)
  }

  lemma {:induction false} ComparedMeans(a: Value, b: Value)
    requires Whole(a) && Whole(b) && Compared(a, b)
    ensures MeaningOf(a) == MeaningOf(b) && Coherent(a) && Coherent(b)
    decreases Size(a) + Size(b)
  {
    match (a, b)
    case (Number(x), Number(y)) => CompareDoubleExact(x, y);
    case (Array(xs), Array(ys)) =>
      forall i | 0 <= i < |xs|
        ensures MeaningOf(xs[i]) == MeaningOf(ys[i]) && Coherent(xs[i]) && Coherent(ys[i])
      {
        ComparedMeans(xs[i], ys[i]);
      }
    case (Object(ms), Object(ns)) =>
      MembersMean(ms, ns);
      MembersMean(ns, ms);
      SameMapping(ms, ns);
    case _ =>
  }

  /** Every member means what the other object holds first under its key. */
  ghost predicate Echoed(ms: seq<Member>, ns: seq<Member>) {
    forall i | 0 <= i < |ms| ::
      var j := First(ns, ms[i].key, 0);
      j < |ns| && MeaningOf(ms[i].value) == MeaningOf(ns[j].value) && Coherent(ms[i].value)
  }

  lemma SameMapping(ms: seq<Member>, ns: seq<Member>)
    requires Echoed(ms, ns) && Echoed(ns, ms)
    ensures MeaningOf(Object(ms)) == MeaningOf(Object(ns)) && Coherent(Object(ms)) && Coherent(Object(ns))
  {
    assert Keys(ms) == Keys(ns);
    EchoedCoherent(ms, ns);
    EchoedCoherent(ns, ms);
    var f, g := MeaningOf(Object(ms)).entries, MeaningOf(Object(ns)).entries;
    forall k | k in Keys(ms) ensures f[k] == g[k] {
      var i := First(ms, k, 0);
      assert i < |ms| && ms[i].key == k;
    }
    assert f == g;
  }

  lemma EchoedCoherent(ms: seq<Member>, ns: seq<Member>)
    requires Echoed(ms, ns)
    ensures Coherent(Object(ms))
  {
    hide MeaningOf;
    forall i | 0 <= i < |ms|
      ensures MeaningOf(ms[i].value) == MeaningOf(ms[First(ms, ms[i].key, 0)].value)
    {
      var h := First(ms, ms[i].key, 0);
      assert h <= i;
    }
  }

  /** Members found in the other object mean what is found there. */
  lemma {:induction false} MembersMean(ms: seq<Member>, ns: seq<Member>)
    requires Whole(Object(ms)) && Whole(Object(ns)) && forall i | 0 <= i < |ms| :: Found(ms[i], Object(ns))
    ensures Echoed(ms, ns)
    decreases Size(Object(ms)) + Size(Object(ns)), 0
  {
    forall i | 0 <= i < |ms|
      ensures var j := First(ns, ms[i].key, 0);
              j < |ns| && MeaningOf(ms[i].value) == MeaningOf(ns[j].value) && Coherent(ms[i].value)
    {
      assert Found(ms[i], Object(ns));
      ComparedMeans(ms[i].value, ns[First(ns, ms[i].key, 0)].value);
    }
  }

  lemma {:induction false} MeansCompared(a: Value, b: Value)
    requires Whole(a) && Whole(b) && MeaningOf(a) == MeaningOf(b) && Coherent(a) && Coherent(b)
    ensures Compared(a, b)
    decreases Size(a) + Size(b)
  {
    match (a, b)
    case (Number(x), Number(y)) => CompareDoubleExact(x, y);
    case (Array(xs), Array(ys)) =>
      forall i | 0 <= i < |xs| ensures Compared(xs[i], ys[i]) {
        assert MeaningOf(a).items[i] == MeaningOf(b).items[i];
        MeansCompared(xs[i], ys[i]);
      }
    case (Object(ms), Object(ns)) =>
      MembersFound(ms, ns);
      MembersFound(ns, ms);
    case _ =>
  }

  lemma {:induction false} MembersFound(ms: seq<Member>, ns: seq<Member>)
    requires Whole(Object(ms)) && Whole(Object(ns)) && Coherent(Object(ms)) && Coherent(Object(ns))
    requires MeaningOf(Object(ms)) == MeaningOf(Object(ns))
    ensures forall i | 0 <= i < |ms| :: Found(ms[i], Object(ns))
    decreases Size(Object(ms)) + Size(Object(ns)), 0
  {
    forall i | 0 <= i < |ms| ensures Found(ms[i], Object(ns)) {
      var k := ms[i].key;
      assert k in MeaningOf(Object(ms)).entries && k in MeaningOf(Object(ns)).entries;
      assert k in Keys(ns);
      MeansCompared(ms[i].value, ns[First(ns, k, 0)].value);
    }
  }

  /** The comparison is true exactly for equal values whose repeated keys, if any, are repeated consistently. */
  lemma ComparedExactly(a: Value, b: Value)
    requires Whole(a) && Whole(b)
    ensures Compared(a, b) <==> MeaningOf(a) == MeaningOf(b) && Coherent(a) && Coherent(b)
  {
    if Compared(a, b) {
      ComparedMeans(a, b);
    } else if MeaningOf(a) == MeaningOf(b) && Coherent(a) && Coherent(b) {
      MeansCompared(a, b);
    }
  }

  /** So with distinct keys it decides equality of objects as unordered maps. */
  lemma ComparedDistinct(a: Value, b: Value)
    requires Whole(a) && Whole(b) && DistinctKeys(a) && DistinctKeys(b)
    ensures Compared(a, b) <==> MeaningOf(a) == MeaningOf(b)
  {
    ComparedExactly(a, b);
    DistinctCoherent(a);
    DistinctCoherent(b);
  }

  /** Whatever its numbers, a value with distinct keys compares equal to itself. */
  lemma {:induction false} ComparedReflexive(v: Value)
    requires DistinctKeys(v)
    ensures Compared(v, v)
  {
    match v
    case Array(items) =>
      forall i | 0 <= i < |items| ensures Compared(items[i], items[i]) {
        ComparedReflexive(items[i]);
      }
    case Object(members) =>
      forall i | 0 <= i < |members| ensures Found(members[i], v) {
        ComparedReflexive(members[i].value);
        assert First(members, members[i].key, 0) == i;
      }
    case _ =>
  }

  /** A value compares equal to its own copy exactly when its repeated keys are consistent. */
  lemma ComparedWithCopy(v: Value)
    requires Whole(v)
    ensures Compared(v, v) <==> Coherent(v)
  {
    ComparedExactly(v, v);
  }

  /** An object that repeats a key with different values does not compare equal to a copy of itself. */
  lemma RepeatedKeyDiffers(key: bytes)
    ensures var v := Object([Member(key, True), Member(key, False)]); !Compared(v, v)
  {
    var members := [Member(key, True), Member(key, False)];
    assert First(members, key, 0) == 0;
    assert !Found(members[1], Object(members));
  }
}
