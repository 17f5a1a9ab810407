/**
  The plate-writing state machine of rewrCardTask.c, one visit at a time: find one plate, write the dish to
  it, wait until it is taken away.
 */
module PlateWriter {
  import opened Bytes

  const MAX_WRITE_PLATE: nat := 1
  const FILTER_NUM: nat := 3

  type Uid = seq<byte>

  datatype Result = WriteOk | WriteError | MultipleError | NullError | ReadError

  /** What a visit does to the plates and tells the peer. */
  datatype Event =
    | ReadBlock(uid: Uid, block: nat, data: bytes)
    | WroteBlock(uid: Uid, block: nat, data: bytes, ok: bool)
    | Status(result: Result)
    | Removed

  /**
    What one visit meets: the mode flags, what each poll of the radio finds, the dish the database holds, what the two
    blocks of the plate hold, and whether the writes succeed.
   */
  datatype Visit = Visit(factory: bool, allowed: bool, polls: seq<seq<Uid>>, dish: Dish,
                         block3: bytes, block2: bytes, writes: bool, writes3: bool)

  datatype Dish = NoDish | Dish(id: int)

  predicate Complete(v: Visit) {
    |v.polls| == FILTER_NUM
  }

  /** The static variables: the state, the counts of the last polls, the tag in front and the one last written. */
  datatype Writer = Writer(status: nat, counts: seq<nat>, front: Uid, written: Uid)

  predicate Shaped(w: Writer) {
    |w.counts| == 8
  }

  /** One byte of the identification code, and eighteen bits of the dish. */
  function DishBytes(code: nat, dish: int): (r: bytes)
    ensures |r| == 4
  {
    [code % 256, (dish / 1024) % 256, (dish / 4) % 256, (dish * 64) % 256]
  }

  // ----- one visit as a function -----

  datatype Turn = Turn(w: Writer, events: seq<Event>)

  function Found(front: Uid, poll: seq<Uid>): Uid {
    if poll == [] then front else poll[0]
  }

  /** FILTER_NUM polls in a row */
  function Polled(w: Writer, v: Visit): (r: Writer)
    requires Shaped(w) && Complete(v)
    ensures Shaped(r) && r.status == w.status && r.written == w.written
    ensures forall i | FILTER_NUM <= i < 8 :: r.counts[i] == w.counts[i]
  {
    w.(counts := w.counts[0 := |v.polls[0]|][1 := |v.polls[1]|][2 := |v.polls[2]|],
       front := Found(Found(Found(w.front, v.polls[0]), v.polls[1]), v.polls[2]))
  }

  /** What the polls leave: each one's count, and the first tag of the last poll that found any. */
  lemma PollsKept(w: Writer, v: Visit)
    requires Shaped(w) && Complete(v)
    ensures forall i | 0 <= i < 8 :: Polled(w, v).counts[i] == if i < 3 then |v.polls[i]| else w.counts[i]
    ensures forall i | 0 <= i < 3 && v.polls[i] != [] && (forall j | i < j < 3 :: v.polls[j] == []) ::
              Polled(w, v).front == v.polls[i][0]
    ensures (forall i | 0 <= i < 3 :: v.polls[i] == []) ==> Polled(w, v).front == w.front
  {
  }

  function Searching(w: Writer, v: Visit): Turn
    requires Shaped(w) && Complete(v)
  {
    var p, n := Polled(w, v), |v.polls[2]|;
    if |v.polls[0]| != n || |v.polls[1]| != n || n == 0 then Turn(p, [])
    else if n > MAX_WRITE_PLATE then Turn(p.(status := 3), [Status(MultipleError)])
    else Turn(p.(status := 1), [])
  }

  function Writing(w: Writer, v: Visit, code: nat): Turn
    requires Complete(v)
  {
    if v.polls[0] == [] then Turn(w.(status := 0), [])
    else
      var uid := v.polls[0][0];
      var p := w.(front := uid);
      var seen := [ReadBlock(uid, 3, v.block3), ReadBlock(uid, 2, v.block2)];
      var data := DishBytes(code, if v.dish.Dish? then v.dish.id else 0);
      if v.dish == NoDish then Turn(p.(status := 2), [Status(NullError)])
      else if v.block2 == [] || v.block2[0] != code
      then
        Turn(p.(status := if FirstByte(v) != code then 3 else 2), seen + [Status(ReadError)])
      else if !v.writes then Turn(p.(status := 2), seen + [WroteBlock(uid, 2, data, false), Status(WriteError)])
      else
        Turn(p.(status := 2, written := uid),
             seen + [WroteBlock(uid, 2, data, true), Status(WriteOk), WroteBlock(uid, 3, [0, 0, 0, 0], v.writes3)])
  }

  /** The buffer's first byte after both seen: a read that fails leaves what was there. */
  function FirstByte(v: Visit): byte {
    if v.block2 != [] then v.block2[0] else if v.block3 != [] then v.block3[0] else 0
  }

  /** The comparison with counts[3] compares with a count that is never stored. */
  function Waiting(w: Writer, v: Visit): Turn
    requires Shaped(w) && Complete(v)
  {
    var p, n := Polled(w, v), |v.polls[2]|;
    var many := p.counts[FILTER_NUM] != n && n > 1;
    var warned := if many then [Status(MultipleError)] else [];
    if n == 0 || p.written != p.front then Turn(p.(status := 0), warned + [Removed])
    else Turn(if many then p.(status := 3) else p, warned)
  }

  function Clearing(w: Writer, v: Visit): Turn
    requires Shaped(w) && Complete(v)
  {
    var p := Polled(w, v);
    if v.polls[2] == [] then Turn(p.(status := 0), [Removed]) else Turn(p, [])
  }

  /** nfc_write_plate_task */
  function Task(w: Writer, v: Visit, code: nat): (r: Turn)
    requires Shaped(w) && Complete(v)
    ensures Shaped(r.w)
  {
    if v.factory then Turn(Polled(w, v), [])
    else if !v.allowed && w.status == 0 then Turn(w, [])
    else
      match w.status
      case 0 => Searching(w, v)
      case 1 => Writing(w, v, code)
      case 2 => Waiting(w, v)
      case 3 => Clearing(w, v)
      case _ => Turn(w, [])
  }

  function Run(w: Writer, visits: seq<Visit>, code: nat): (r: Turn)
    requires Shaped(w) && forall v | v in visits :: Complete(v)
    ensures Shaped(r.w)
  {
    if visits == [] then Turn(w, [])
    else
      var last := visits[|visits| - 1];
      assert last in visits;
      var before := Run(w, visits[..|visits| - 1], code);
      var turn := Task(before.w, last, code);
      Turn(turn.w, before.events + turn.events)
  }

  // ----- between two writes the plate is taken away -----

  predicate Writes(e: Event) {
    e.WroteBlock? && e.block == 2 && e.ok
  }

  /** A plate was written and its removal has not been announced since. */
  function Owed(log: seq<Event>): bool {
    log != [] && (Writes(log[|log| - 1]) || (log[|log| - 1] != Removed && Owed(log[..|log| - 1])))
  }

  /** No plate is written while a removal is owed. */
  predicate Orderly(log: seq<Event>) {
    log == [] || (Orderly(log[..|log| - 1]) && (Writes(log[|log| - 1]) ==> !Owed(log[..|log| - 1])))
  }

  lemma {:induction false} OwedAppend(a: seq<Event>, b: seq<Event>)
    ensures Owed(a + b) <==> Owed(b) || (Owed(a) && Removed !in b)
    ensures Orderly(a) && Orderly(b) && (Owed(a) ==> forall e | e in b :: !Writes(e)) ==> Orderly(a + b)
    decreases |b|
  {
    if b == [] {
      assert a + b == a;
    } else {
      var front, last := b[..|b| - 1], b[|b| - 1];
      OwedAppend(a, front);
      assert (a + b)[..|a + b| - 1] == a + front;
      assert b == front + [last];
    }
  }

  /** In an orderly log a removal lies between any two successful writes. */
  lemma {:induction false} RemovalBetween(log: seq<Event>, i: nat, j: nat) returns (k: nat)
    requires Orderly(log) && i < j < |log| && Writes(log[i]) && Writes(log[j])
    ensures i < k < j && log[k] == Removed
    decreases |log|
  {
    var n := |log| - 1;
    if j < n {
      k := RemovalBetween(log[..n], i, j);
    } else {
      k := SettledBy(log[..n], i);
    }
  }

  lemma {:induction false} SettledBy(log: seq<Event>, i: nat) returns (k: nat)
    requires i < |log| && Writes(log[i]) && !Owed(log)
    ensures i < k < |log| && log[k] == Removed
    decreases |log|
  {
    var n := |log| - 1;
    if log[n] == Removed {
      k := n;
    } else {
      k := SettledBy(log[..n], i);
    }
  }

  /** One more event that is no write leaves a log as orderly as it was. */
  lemma Extended(log: seq<Event>, e: Event)
    ensures Orderly(log + [e]) <==> Orderly(log) && (Writes(e) ==> !Owed(log))
    ensures Owed(log + [e]) <==> Writes(e) || (e != Removed && Owed(log))
  {
    assert (log + [e])[..|log|] == log;
  }

  lemma WritingOrderly(w: Writer, v: Visit, code: nat)
    requires Complete(v)
    ensures var r := Writing(w, v, code);
            Orderly(r.events) && (Owed(r.events) ==> r.w.status == 2)
  {
    hide DishBytes;
    if v.polls[0] != [] {
      var uid := v.polls[0][0];
      var a, b := ReadBlock(uid, 3, v.block3), ReadBlock(uid, 2, v.block2);
      var data := DishBytes(code, if v.dish.Dish? then v.dish.id else 0);
      var c := WroteBlock(uid, 2, data, v.writes);
      Extended([], a);
      assert [] + [a] == [a];
      Extended([a], b);
      assert [a] + [b] == [a, b];
      Extended([a, b], Status(ReadError));
      Extended([a, b], c);
      assert [a, b] + [c] == [a, b, c];
      Extended([a, b, c], Status(WriteError));
      assert [a, b, c] + [Status(WriteError)] == [a, b] + [c, Status(WriteError)];
      Extended([a, b, c], Status(WriteOk));
      var d := WroteBlock(uid, 3, [0, 0, 0, 0], v.writes3);
      assert [a, b, c] + [Status(WriteOk)] == [a, b, c, Status(WriteOk)];
      Extended([a, b, c, Status(WriteOk)], d);
      assert [a, b, c, Status(WriteOk)] + [d] == [a, b] + [c, Status(WriteOk), d];
    }
  }

  lemma NoWriteOrderly(log: seq<Event>)
    requires |log| <= 2 && forall e | e in log :: !Writes(e)
    ensures Orderly(log) && !Owed(log)
  {
    if log != [] {
      assert log[|log| - 1] in log;
      NoWriteOrderly(log[..|log| - 1]);
    }
  }

  /** One visit: it writes only after the search, and then waits for the removal. */
  lemma TaskOrderly(w: Writer, v: Visit, code: nat)
    requires Shaped(w) && Complete(v)
    ensures var r := Task(w, v, code);
            && Orderly(r.events)
            && (w.status != 1 ==> forall e | e in r.events :: !Writes(e))
            && (Owed(r.events) ==> r.w.status == 2)
            && (w.status == 2 || w.status == 3 ==> Removed in r.events || r.w.status == 2 || r.w.status == 3)
  {
    hide Orderly, Owed;
    var r := Task(w, v, code);
    if !v.factory && w.status == 1 {
      WritingOrderly(w, v, code);
    } else {
      if r.events != [] && r.events[|r.events| - 1] == Removed {
        assert Removed in r.events;
      }
      NoWriteOrderly(r.events);
    }
  }

  /** A removal that is owed is awaited. */
  lemma {:induction false} RunOrderly(w: Writer, visits: seq<Visit>, code: nat)
    requires Shaped(w) && forall v | v in visits :: Complete(v)
    ensures var r := Run(w, visits, code);
            Orderly(r.events) && (Owed(r.events) ==> r.w.status == 2 || r.w.status == 3)
    decreases |visits|
  {
    hide Task, Orderly, Owed;
    if visits == [] {
      NoWriteOrderly([]);
    } else {
      var front, last := visits[..|visits| - 1], visits[|visits| - 1];
      assert last in visits;
      RunOrderly(w, front, code);
      var before := Run(w, front, code);
      TaskOrderly(before.w, last, code);
      OwedAppend(before.events, Task(before.w, last, code).events);
    }
  }

  /** In every run, between two successful writes the removal of a plate was announced. */
  lemma WritesAreSeparated(w: Writer, visits: seq<Visit>, code: nat, i: nat, j: nat) returns (k: nat)
    requires Shaped(w) && forall v | v in visits :: Complete(v)
    requires var log := Run(w, visits, code).events; i < j < |log| && Writes(log[i]) && Writes(log[j])
    ensures i < k < j && Run(w, visits, code).events[k] == Removed
  {
    RunOrderly(w, visits, code);
    k := RemovalBetween(Run(w, visits, code).events, i, j);
  }

  // ----- a written plate was found and identified -----

  predicate OnePlate(v: Visit)
    requires Complete(v)
  {
    !v.factory && v.allowed && forall i | 0 <= i < FILTER_NUM :: |v.polls[i]| == 1
  }

  /** One visit leads into the writing state only by three polls in a row that find one plate each. */
  lemma TaskFinds(w: Writer, v: Visit, code: nat)
    requires Shaped(w) && Complete(v) && w.status != 1
    ensures Task(w, v, code).w.status == 1 <==> w.status == 0 && OnePlate(v)
  {
  }

  /**
    In every run: before a plate is written, some visit i found one plate in three polls in a row, and from there on
    the writing state was not left.
   */
  lemma {:induction false} FoundBefore(w: Writer, visits: seq<Visit>, code: nat) returns (i: nat)
    requires Shaped(w) && w.status != 1 && forall v | v in visits :: Complete(v)
    requires Run(w, visits, code).w.status == 1
    ensures i < |visits| && (forall v | v in visits[..i] :: Complete(v)) && Complete(visits[i])
    ensures Run(w, visits[..i], code).w.status == 0 && OnePlate(visits[i])
    ensures forall m | i < m <= |visits| ::
              (forall v | v in visits[..m] :: Complete(v)) && Run(w, visits[..m], code).w.status == 1
    decreases |visits|
  {
    hide Task, OnePlate;
    var n := |visits| - 1;
    var front, last := visits[..n], visits[n];
    assert last in visits && visits[..n + 1] == visits;
    if Run(w, front, code).w.status == 1 {
      i := FoundBefore(w, front, code);
      forall m | i < m <= |visits|
        ensures (forall v | v in visits[..m] :: Complete(v)) && Run(w, visits[..m], code).w.status == 1
      {
        if m <= n {
          assert front[..m] == visits[..m];
        }
      }
      assert front[..i] == visits[..i];
    } else {
      i := n;
      TaskFinds(Run(w, front, code).w, last, code);
    }
  }

  /** The event at j writes the dish of the visit v to a plate just read, which carries the identification code. */
  predicate Identified(log: seq<Event>, j: nat, v: Visit, code: nat)
    requires j < |log| && log[j].WroteBlock?
  {
    && j > 0 && log[j - 1] == ReadBlock(log[j].uid, 2, v.block2)
    && v.block2 != [] && v.block2[0] == code
    && v.polls != [] && v.polls[0] != [] && log[j].uid == v.polls[0][0]
    && v.dish.Dish? && log[j].data == DishBytes(code, v.dish.id) && log[j].ok == v.writes
    && j + 1 < |log| && log[j + 1] == Status(if v.writes then WriteOk else WriteError)
    && (v.writes ==> j + 2 < |log| && log[j + 2] == WroteBlock(log[j].uid, 3, [0, 0, 0, 0], v.writes3))
  }

  lemma TaskIdentifies(w: Writer, v: Visit, code: nat, j: nat)
    requires Shaped(w) && Complete(v)
    requires var log := Task(w, v, code).events; j < |log| && log[j].WroteBlock? && log[j].block == 2
    ensures Identified(Task(w, v, code).events, j, v, code) && !v.factory && w.status == 1
    ensures Task(w, v, code).w.status == 2
  {
    hide DishBytes;
  }

  lemma IdentifiedBehind(a: seq<Event>, b: seq<Event>, j: nat, v: Visit, code: nat)
    requires j < |b| && b[j].WroteBlock?
    ensures Identified(b, j, v, code) ==> Identified(a + b, |a| + j, v, code)
  {
    hide DishBytes;
  }

  lemma IdentifiedBefore(a: seq<Event>, b: seq<Event>, j: nat, v: Visit, code: nat)
    requires j < |a| && a[j].WroteBlock?
    ensures Identified(a, j, v, code) ==> Identified(a + b, j, v, code)
  {
    hide DishBytes;
  }

  /**
    In every run each write of block 2, in visit k, comes directly behind a read of block 2 of the same plate that
    began with the identification code, and writes the dish of that visit; the status told next says whether it
    succeeded, and if so block 3 is cleared. Then the plate is waited for.
   */
  lemma {:induction false} WrittenPlateIsIdentified(w: Writer, visits: seq<Visit>, code: nat, j: nat) returns (k: nat)
    requires Shaped(w) && forall v | v in visits :: Complete(v)
    requires var log := Run(w, visits, code).events; j < |log| && log[j].WroteBlock? && log[j].block == 2
    ensures k < |visits| && (forall v | v in visits[..k] :: Complete(v))
    ensures Identified(Run(w, visits, code).events, j, visits[k], code)
    ensures !visits[k].factory && Run(w, visits[..k], code).w.status == 1
    ensures (forall v | v in visits[..k + 1] :: Complete(v)) && Run(w, visits[..k + 1], code).w.status == 2
    decreases |visits|
  {
    hide Task, Identified;
    var n := |visits| - 1;
    var front, last := visits[..n], visits[n];
    assert last in visits && visits[..n + 1] == visits;
    var before := Run(w, front, code);
    var events := Task(before.w, last, code).events;
    if j < |before.events| {
      k := WrittenPlateIsIdentified(w, front, code, j);
      assert front[..k] == visits[..k] && front[..k + 1] == visits[..k + 1];
      IdentifiedBefore(before.events, events, j, visits[k], code);
    } else {
      k := n;
      TaskIdentifies(before.w, last, code, j - |before.events|);
      IdentifiedBehind(before.events, events, j - |before.events|, last, code);
    }
  }

  // ----- what is told -----

  /** When a visit that searches or writes tells a result. */
  predicate Told(status: nat, v: Visit, code: nat, x: Result)
    requires Complete(v)
  {
    var served := !v.factory && status == 1 && v.polls[0] != [] && v.dish.Dish?;
    var marked := v.block2 != [] && v.block2[0] == code;
    match x
    case MultipleError =>
      !v.factory && v.allowed && status == 0 && |v.polls[0]| == |v.polls[1]| == |v.polls[2]| && |v.polls[2]| > 1
    case NullError => !v.factory && status == 1 && v.polls[0] != [] && v.dish.NoDish?
    case ReadError => served && !marked
    case WriteOk => served && marked && v.writes
    case WriteError => served && marked && !v.writes
  }

  /**
    Each result is told exactly when it is due, and decides what comes next: the removal of several plates or of one
    that is not ours is awaited apart from that of a plate dealt with. Nothing told, nothing happened: the search found
    one plate, or goes on.
   */
  lemma ToldExactly(w: Writer, v: Visit, code: nat)
    requires Shaped(w) && Complete(v) && w.status <= 1
    ensures var r := Task(w, v, code);
            && (forall x :: Status(x) in r.events <==> Told(w.status, v, code, x))
            && (forall x | Status(x) in r.events ::
                  r.w.status == match x
                                case MultipleError => 3
                                case ReadError => if (v.block2 + v.block3 + [0])[0] == code then 2 else 3
                                case _ => 2)
            && ((forall x :: !Told(w.status, v, code, x)) ==>
                  r.events == [] && r.w.status == if v.factory then w.status else if w.status == 0 && OnePlate(v) then 1 else 0)
  {
    hide DishBytes;
    var r := Task(w, v, code);
    if !v.factory && w.status == 1 {
      WritingTells(w, v, code);
    } else if !v.factory && v.allowed {
      SearchTells(w, v, code);
    }
  }

  lemma SearchTells(w: Writer, v: Visit, code: nat)
    requires Shaped(w) && Complete(v) && w.status == 0 && !v.factory && v.allowed
    ensures var r, n := Task(w, v, code), |v.polls[2]|;
            if |v.polls[0]| == |v.polls[1]| == n && n > 1 then r.events == [Status(MultipleError)] && r.w.status == 3
            else r.events == [] && r.w.status == if OnePlate(v) then 1 else 0
  {
  }

  lemma WritingTells(w: Writer, v: Visit, code: nat)
    requires Shaped(w) && Complete(v) && w.status == 1 && !v.factory
    ensures var r := Task(w, v, code);
            if v.polls[0] == [] then r.events == [] && r.w.status == 0
            else
              var x := if v.dish.NoDish? then NullError
                       else if v.block2 == [] || v.block2[0] != code then ReadError
                       else if v.writes then WriteOk else WriteError;
              && Status(x) in r.events && (forall y | Status(y) in r.events :: y == x)
              && r.w.status == if x == ReadError && (v.block2 + v.block3 + [0])[0] != code then 3 else 2
  {
    hide DishBytes;
    if v.polls[0] != [] {
      var uid := v.polls[0][0];
      var data := DishBytes(code, if v.dish.Dish? then v.dish.id else 0);
      var seen := [ReadBlock(uid, 3, v.block3), ReadBlock(uid, 2, v.block2)];
      var events := Task(w, v, code).events;
      if v.dish.NoDish? {
        assert events[0] == Status(NullError);
      } else if v.block2 == [] || v.block2[0] != code {
        assert events[2] == Status(ReadError);
      } else {
        assert events[3] == Status(if v.writes then WriteOk else WriteError);
      }
    }
  }

  // ----- the plate remembered -----

  /** The plate last written, the one given when there is none */
  function LastWritten(log: seq<Event>, none: Uid): Uid {
    if log == [] then none
    else if Writes(log[|log| - 1]) then log[|log| - 1].uid
    else LastWritten(log[..|log| - 1], none)
  }

  lemma {:induction false} LastWrittenJoin(a: seq<Event>, b: seq<Event>, none: Uid)
    ensures LastWritten(a + b, none) == LastWritten(b, LastWritten(a, none))
    decreases |b|
  {
    if b == [] {
      assert a + b == a;
    } else {
      assert (a + b)[..|a + b| - 1] == a + b[..|b| - 1];
      LastWrittenJoin(a, b[..|b| - 1], none);
    }
  }

  lemma {:induction false} NotWritten(log: seq<Event>, none: Uid)
    requires forall e | e in log :: !Writes(e)
    ensures LastWritten(log, none) == none
    decreases |log|
  {
    if log != [] {
      assert log[|log| - 1] in log;
      NotWritten(log[..|log| - 1], none);
    }
  }

  lemma TaskRemembers(w: Writer, v: Visit, code: nat)
    requires Shaped(w) && Complete(v)
    ensures Task(w, v, code).w.written == LastWritten(Task(w, v, code).events, w.written)
  {
    hide LastWritten, DishBytes;
    var events := Task(w, v, code).events;
    var written := !v.factory && w.status == 1 && v.polls[0] != [] && v.dish.Dish? && v.writes
                   && v.block2 != [] && v.block2[0] == code;
    if !written {
      NotWritten(events, w.written);
    } else {
      var uid := v.polls[0][0];
      var data := DishBytes(code, if v.dish.Dish? then v.dish.id else 0);
      var a := [ReadBlock(uid, 3, v.block3), ReadBlock(uid, 2, v.block2)];
      var b, c := WroteBlock(uid, 2, data, true), [Status(WriteOk), WroteBlock(uid, 3, [0, 0, 0, 0], v.writes3)];
      assert events == (a + [b]) + c;
      LastWrittenJoin(a + [b], c, w.written);
      NotWritten(c, LastWritten(a + [b], w.written));
      WrittenLast(a, b, w.written);
    }
  }

  lemma WrittenLast(a: seq<Event>, e: Event, none: Uid)
    requires Writes(e)
    ensures LastWritten(a + [e], none) == e.uid
  {
  }

  /** In every run the plate remembered is the one last written. */
  lemma {:induction false} WrittenIsRemembered(w: Writer, visits: seq<Visit>, code: nat)
    requires Shaped(w) && forall v | v in visits :: Complete(v)
    ensures Run(w, visits, code).w.written == LastWritten(Run(w, visits, code).events, w.written)
    decreases |visits|
  {
    hide Task, LastWritten;
    if visits == [] {
      NotWritten([], w.written);
    } else {
      var front, last := visits[..|visits| - 1], visits[|visits| - 1];
      assert last in visits;
      WrittenIsRemembered(w, front, code);
      var before := Run(w, front, code);
      TaskRemembers(before.w, last, code);
      LastWrittenJoin(before.events, Task(before.w, last, code).events, w.written);
    }
  }

  /**
    So after a write nothing is announced, and the wait goes on, as long as the last poll of each visit finds the plate
    last written and no other.
   */
  lemma {:induction false} PlateStays(w: Writer, visits: seq<Visit>, more: seq<Visit>, code: nat)
    requires Shaped(w) && (forall v | v in visits :: Complete(v)) && Run(w, visits, code).w.status == 2
    requires forall v | v in more :: Complete(v) && !v.factory
                                     && v.polls[2] == [LastWritten(Run(w, visits, code).events, w.written)]
    ensures forall v | v in visits + more :: Complete(v)
    ensures Run(w, visits + more, code).events == Run(w, visits, code).events
    ensures Run(w, visits + more, code).w.status == 2
    ensures Run(w, visits + more, code).w.written == Run(w, visits, code).w.written
    decreases |more|
  {
    hide LastWritten, Task;
    if more == [] {
      assert visits + more == visits;
    } else {
      var front, last := more[..|more| - 1], more[|more| - 1];
      assert last in more && forall v | v in front :: v in more;
      PlateStays(w, visits, front, code);
      WrittenIsRemembered(w, visits, code);
      var all := visits + more;
      assert all[..|all| - 1] == visits + front && all[|all| - 1] == last;
      var before := Run(w, visits + front, code);
      VisitStays(before.w, last, code);
      assert before.events + [] == before.events;
    }
  }

  lemma VisitStays(w: Writer, v: Visit, code: nat)
    requires Shaped(w) && Complete(v) && w.status == 2 && !v.factory && v.polls[2] == [w.written]
    ensures var r := Task(w, v, code); r.events == [] && r.w.status == 2 && r.w.written == w.written
  {
  }

  /** How the dish is read back from a plate */
  function DishOf(d: bytes): int
    requires |d| == 4
  {
    (d[1] as int) * 1024 + (d[2] as int) * 4 + (d[3] as int) / 64
  }

  /** The bytes written give the dish back exactly when it fits into eighteen bits. */
  lemma DishIsRecovered(code: nat, dish: int)
    ensures DishOf(DishBytes(code, dish)) == dish % 0x4_0000
    ensures DishOf(DishBytes(code, dish)) == dish <==> 0 <= dish < 0x4_0000
    ensures code < 256 ==> DishBytes(code, dish)[0] == code
  {
    assert (dish * 64) % 256 == (dish % 4) * 64;
    assert dish == (dish / 4) * 4 + dish % 4;
    assert dish / 1024 == dish / 4 / 256;
  }

  // ----- after the stop command -----

  function WriteCount(log: seq<Event>): nat {
    if log == [] then 0
    else WriteCount(log[..|log| - 1]) + if log[|log| - 1].WroteBlock? && log[|log| - 1].block == 2 then 1 else 0
  }

  lemma {:induction false} WriteCountAppend(a: seq<Event>, b: seq<Event>)
    ensures WriteCount(a + b) == WriteCount(a) + WriteCount(b)
    decreases |b|
  {
    if b == [] {
      assert a + b == a;
    } else {
      var front, last := b[..|b| - 1], b[|b| - 1];
      WriteCountAppend(a, front);
      assert (a + b)[..|a + b| - 1] == a + front;
    }
  }

  lemma WriteCountOne(log: seq<Event>, e: Event)
    ensures WriteCount(log + [e]) == WriteCount(log) + if e.WroteBlock? && e.block == 2 then 1 else 0
  {
    assert (log + [e])[..|log|] == log;
  }

  /** While writing is not allowed one visit writes at most once, only in state 1, and never leads back there. */
  lemma StoppedTask(w: Writer, v: Visit, code: nat)
    requires Shaped(w) && Complete(v) && !v.allowed && w.status <= 3
    ensures var r := Task(w, v, code);
            && r.w.status <= 3
            && WriteCount(r.events) <= (if w.status == 1 then 1 else 0)
            && (r.w.status == 1 ==> w.status == 1 && WriteCount(r.events) == 0)
  {
    hide DishBytes;
    WriteCountOne([], Removed);
    WriteCountOne([], Status(MultipleError));
    WriteCountOne([Status(MultipleError)], Removed);
    assert [] + [Removed] == [Removed] && [] + [Status(MultipleError)] == [Status(MultipleError)];
    if w.status == 1 && v.polls[0] != [] {
      WritingCount(w, v, code);
    }
  }

  lemma WritingCount(w: Writer, v: Visit, code: nat)
    requires Complete(v) && v.polls[0] != []
    ensures WriteCount(Writing(w, v, code).events) <= 1 && 2 <= Writing(w, v, code).w.status <= 3
  {
    hide WriteCount, DishBytes;
    NoEvents();
    var uid := v.polls[0][0];
    var a, b := ReadBlock(uid, 3, v.block3), ReadBlock(uid, 2, v.block2);
    var data := DishBytes(code, if v.dish.Dish? then v.dish.id else 0);
    var c, d := WroteBlock(uid, 2, data, v.writes), WroteBlock(uid, 3, [0, 0, 0, 0], v.writes3);
    WriteCountOne([], Status(NullError));
    assert [] + [Status(NullError)] == [Status(NullError)];
    WriteCountOne([], a);
    WriteCountOne([a], b);
    assert [] + [a] == [a] && [a] + [b] == [a, b];
    WriteCountOne([a, b], Status(ReadError));
    WriteCountOne([a, b], c);
    WriteCountOne([a, b, c], Status(WriteError));
    WriteCountOne([a, b, c], Status(WriteOk));
    WriteCountOne([a, b, c, Status(WriteOk)], d);
    assert [a, b] + [c] == [a, b, c];
    assert [a, b, c] + [Status(WriteError)] == [a, b] + [c, Status(WriteError)];
    assert [a, b, c] + [Status(WriteOk)] == [a, b, c, Status(WriteOk)];
    assert [a, b, c, Status(WriteOk)] + [d] == [a, b] + [c, Status(WriteOk), d];
  }

  /** Until writing is allowed again at most one more write is attempted, and none unless a plate was already found. */
  lemma {:induction false} AtMostOneMoreWrite(w: Writer, visits: seq<Visit>, code: nat)
    requires Shaped(w) && w.status <= 3 && forall v | v in visits :: Complete(v) && !v.allowed
    ensures var r := Run(w, visits, code);
            && r.w.status <= 3
            && WriteCount(r.events) <= (if w.status == 1 then 1 else 0)
            && (r.w.status == 1 ==> w.status == 1 && WriteCount(r.events) == 0)
    decreases |visits|
  {
    hide Task, WriteCount;
    if visits == [] {
      assert WriteCount([]) == 0 by {
        NoEvents();
      }
    } else {
      var front, last := visits[..|visits| - 1], visits[|visits| - 1];
      assert last in visits;
      AtMostOneMoreWrite(w, front, code);
      var before := Run(w, front, code);
      StoppedTask(before.w, last, code);
      WriteCountAppend(before.events, Task(before.w, last, code).events);
    }
  }

  lemma NoEvents()
    ensures WriteCount([]) == 0
  {
  }

  // ----- the count that is never stored -----

  lemma {:induction false} LastCountStays(w: Writer, visits: seq<Visit>, code: nat)
    requires Shaped(w) && forall v | v in visits :: Complete(v)
    ensures Run(w, visits, code).w.counts[FILTER_NUM] == w.counts[FILTER_NUM]
    decreases |visits|
  {
    if visits != [] {
      var last := visits[|visits| - 1];
      assert last in visits;
      LastCountStays(w, visits[..|visits| - 1], code);
    }
  }

  /**
    So a waiting writer warns of several plates exactly when its last poll found several, whatever the polls before it
    found; and it lets go, even then, if the plate in front is not the one it wrote. Once it has warned, it lets go
    only when the last poll is empty. Either way it stops waiting exactly when it announces a removal.
   */
  lemma WaitingWarns(w: Writer, visits: seq<Visit>, v: Visit, code: nat)
    requires Shaped(w) && w.counts[FILTER_NUM] == 0 && Complete(v) && forall u | u in visits :: Complete(u)
    requires 2 <= Run(w, visits, code).w.status <= 3 && !v.factory
    ensures var now := Run(w, visits, code).w;
            var r := Task(now, v, code);
            && (Status(MultipleError) in r.events <==> now.status == 2 && |v.polls[2]| > 1)
            && (Removed in r.events <==> v.polls[2] == [] || (now.status == 2 && v.polls[2][0] != now.written))
            && r.w.status == if Removed in r.events then 0 else if Status(MultipleError) in r.events then 3 else now.status
  {
    LastCountStays(w, visits, code);
  }

  // ----- the static variables, updated in place -----

  class PlateTask {
    const code: nat
    const tagnumbak: array<nat>
    var writePlataStatus: nat
    var tag: Uid
    var tagBak: Uid
    ghost var log: seq<Event>

    constructor (identification: nat)
      ensures Valid() && code == identification && log == [] && fresh(tagnumbak)
      ensures State() == Writer(0, [0, 0, 0, 0, 0, 0, 0, 0], [], [])
    {
      code := identification;
      tagnumbak := new nat[8](i => 0);
      writePlataStatus, tag, tagBak, log := 0, [], [], [];
    }

    ghost predicate Valid()
      reads this
    {
      tagnumbak.Length == 8
    }

    ghost function State(): Writer
      reads this, tagnumbak
    {
      Writer(writePlataStatus, tagnumbak[..], tag, tagBak)
    }

    /** rfal_find_tag: the tags found go to the front of the static array. */
    method FindTag(poll: seq<Uid>) returns (n: nat)
      modifies this`tag
      ensures n == |poll| && tag == Found(old(tag), poll)
    {
      if |poll| > 0 {
        tag := poll[0];
      }
      return |poll|;
    }

    method PollTags(v: Visit) returns (tagNum: nat)
      requires Valid() && Complete(v)
      modifies this`tag, tagnumbak
      ensures Valid() && State() == Polled(old(State()), v) && tagNum == |v.polls[2]|
    {
      tagNum := 0;
      ghost var was: seq<nat> := tagnumbak[..];
      for i := 0 to FILTER_NUM
        invariant i >= 1 ==> tagNum == |v.polls[i - 1]|
        invariant tagnumbak[..] == if i == 0 then was
                                   else if i == 1 then was[0 := |v.polls[0]|]
                                   else if i == 2 then was[0 := |v.polls[0]|][1 := |v.polls[1]|]
                                   else was[0 := |v.polls[0]|][1 := |v.polls[1]|][2 := |v.polls[2]|]
        invariant tag == if i == 0 then old(tag)
                         else if i == 1 then Found(old(tag), v.polls[0])
                         else if i == 2 then Found(Found(old(tag), v.polls[0]), v.polls[1])
                         else Found(Found(Found(old(tag), v.polls[0]), v.polls[1]), v.polls[2])
      {
        tagNum := FindTag(v.polls[i]);
        tagnumbak[i] := tagNum;
      }
    }

    method Search(v: Visit)
      requires Valid() && Complete(v)
      modifies this`tag, this`writePlataStatus, this`log, tagnumbak
      ensures Valid() && State() == Searching(old(State()), v).w && log == old(log) + Searching(old(State()), v).events
    {
      var tagNum := PollTags(v);
      assert forall i | 0 <= i < FILTER_NUM :: tagnumbak[..][i] == |v.polls[i]|;
      for i := 0 to FILTER_NUM
        invariant forall j | 0 <= j < i :: tagnumbak[j] == tagNum
        modifies {}
      {
        if tagnumbak[i] != tagNum {
          return;
        }
      }
      if tagNum == 0 {
        return;
      }
      if tagNum > MAX_WRITE_PLATE {
        log := log + [Status(MultipleError)];
        writePlataStatus := 3;
      } else {
        writePlataStatus := 1;
      }
    }

    method Write(v: Visit)
      requires Valid() && Complete(v)
      modifies this`tag, this`tagBak, this`writePlataStatus, this`log
      ensures Valid() && State() == Writing(old(State()), v, code).w
      ensures log == old(log) + Writing(old(State()), v, code).events
    {
      var tagNum := FindTag(v.polls[0]);
      if tagNum == 0 {
        writePlataStatus := 0;
        return;
      }
      if v.dish.NoDish? {
        log := log + [Status(NullError)];
        writePlataStatus := 2;
        return;
      }
      // Every branch of the loop over the tags found returns: only the first tag is read and written.
      var first: byte := 0;
      var uid := v.polls[0][0];
      log := log + [ReadBlock(uid, 3, v.block3)];
      if |v.block3| > 0 {
        first := v.block3[0];
      }
      log := log + [ReadBlock(uid, 2, v.block2)];
      var length := |v.block2|;
      if length > 0 {
        first := v.block2[0];
      }
      if length == 0 || first != code {
        log := log + [Status(ReadError)];
        writePlataStatus := 2;
        if first != code {
          writePlataStatus := 3;
        }
        return;
      }
      var data := DishBytes(code, v.dish.id);
      log := log + [WroteBlock(uid, 2, data, v.writes)];
      if v.writes {
        log := log + [Status(WriteOk)];
        writePlataStatus := 2;
        log := log + [WroteBlock(uid, 3, [0, 0, 0, 0], v.writes3)];
        writePlataStatus := 2;
        tagBak := uid;
      } else {
        log := log + [Status(WriteError)];
        writePlataStatus := 2;
      }
    }

    method Wait(v: Visit)
      requires Valid() && Complete(v)
      modifies this`tag, this`writePlataStatus, this`log, tagnumbak
      ensures Valid() && State() == Waiting(old(State()), v).w && log == old(log) + Waiting(old(State()), v).events
    {
      var tagNum := PollTags(v);
      if tagnumbak[FILTER_NUM] != tagNum && tagNum > 1 {
        log := log + [Status(MultipleError)];
        writePlataStatus := 3;
      }
      if tagNum == 0 {
        log := log + [Removed];
        writePlataStatus := 0;
      } else {
        if tagBak != tag {
          log := log + [Removed];
          writePlataStatus := 0;
        }
      }
    }

    method Clear(v: Visit)
      requires Valid() && Complete(v)
      modifies this`tag, this`writePlataStatus, this`log, tagnumbak
      ensures Valid() && State() == Clearing(old(State()), v).w && log == old(log) + Clearing(old(State()), v).events
    {
      var tagNum := PollTags(v);
      if tagNum == 0 {
        log := log + [Removed];
        writePlataStatus := 0;
      }
    }

    method NfcWritePlateTask(v: Visit)
      requires Valid() && Complete(v)
      modifies this, tagnumbak
      ensures Valid() && State() == Task(old(State()), v, code).w && log == old(log) + Task(old(State()), v, code).events
    {
      hide Searching, Writing, Waiting, Clearing;
      if v.factory {
        var n := PollTags(v);
        return;
      }
      if !v.allowed && writePlataStatus == 0 {
        return;
      }
      match writePlataStatus
      case 0 => Search(v);
      case 1 => Write(v);
      case 2 => Wait(v);
      case 3 => Clear(v);
      case _ =>
    }
  }
}
