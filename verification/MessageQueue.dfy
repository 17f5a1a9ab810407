/**
  The send queue of msgTask.c: a ring of fifty slots that drops its oldest message when full, keeps the head until the
  peer acknowledges its command, and sends the head again when the acknowledgement is late.
 */
module MessageQueue {

  const MAX_LEN: nat := 512
  const MAX_CHANCE: nat := 50
  const RETRY_TIME: nat := 3
  const WORD: nat := 0x1_0000_0000

  const QT_GET_NET_STATUS_CMD: bv8 := 0x08
  const WRPLATE_STAS_CMD: bv8 := 0xA1
  const WRPLATE_REMOVE_CMD: bv8 := 0xA2

  datatype Message = Message(len: nat, data: seq<bv8>)

  /** What memset leaves in a slot. */
  function Free(): (m: Message)
    ensures m.len == 0 && |m.data| == MAX_LEN && forall i | 0 <= i < MAX_LEN :: m.data[i] == 0
  {
    Message(0, seq(MAX_LEN, i => 0))
  }

  predicate Fits(m: Message) {
    |m.data| == MAX_LEN && m.len <= MAX_LEN
  }

  function Frame(m: Message): seq<bv8>
    requires Fits(m)
  {
    m.data[..m.len]
  }

  // ----- the queue as a bounded first-in first-out line -----

  /** How a message leaves: acknowledged by a command, or dropped by a push to a full queue. */
  datatype Departure = Acknowledged(m: Message, cmd: bv8) | Dropped(m: Message)

  /** One frame handed to the peer: the position of its message among all messages pushed, and its bytes. */
  datatype Transmission = Transmission(position: nat, frame: seq<bv8>)

  datatype Line = Line(waiting: seq<Message>, left: seq<Departure>, sent: seq<Transmission>, seen: nat, last: nat)

  predicate Sound(l: Line) {
    |l.waiting| <= MAX_CHANCE && forall i | 0 <= i < |l.waiting| :: Fits(l.waiting[i])
  }

  datatype Event =
    | Push(m: Message)
    | Received(cmd: bv8)
    | Tick(now: nat, sendTime: nat)

  /** Which waiting command a received command acknowledges; a status query falls through to the status reply. */
  function Answers(cmd: bv8): (r: bv8)
    ensures r == 0 || r == WRPLATE_STAS_CMD || r == WRPLATE_REMOVE_CMD
  {
    if cmd == QT_GET_NET_STATUS_CMD || cmd == WRPLATE_STAS_CMD then WRPLATE_STAS_CMD
    else if cmd == WRPLATE_REMOVE_CMD then WRPLATE_REMOVE_CMD
    else 0
  }

  function Pushed(l: Line, m: Message): Line {
    if |l.waiting| < MAX_CHANCE then l.(waiting := l.waiting + [m])
    else l.(waiting := l.waiting[1..] + [m], left := l.left + [Dropped(l.waiting[0])])
  }

  function Popped(l: Line, cmd: bv8): Line
    requires Sound(l)
  {
    if l.waiting != [] && l.waiting[0].data[1] == cmd
    then l.(waiting := l.waiting[1..], left := l.left + [Acknowledged(l.waiting[0], cmd)])
    else l
  }

  /** Unsigned seconds since the last transmission. */
  function Elapsed(now: nat, last: nat): nat {
    (now - last) % WORD
  }

  predicate Ready(l: Line, now: nat) {
    l.seen != |l.waiting| || (l.waiting != [] && Elapsed(now, l.last) > RETRY_TIME)
  }

  /** Sending takes the head slot as it is: nothing goes out from an empty queue. */
  function Sent(l: Line, now: nat): Line
    requires Sound(l)
  {
    if l.waiting == [] || l.waiting[0].len == 0 then l.(last := now)
    else l.(last := now, sent := l.sent + [Transmission(|l.left|, Frame(l.waiting[0]))])
  }

  function Ticked(l: Line, now: nat, sendTime: nat): Line
    requires Sound(l)
  {
    var seen := l.(seen := |l.waiting|);
    if Ready(l, now) then Sent(seen, sendTime) else seen
  }

  predicate Sendable(e: Event) {
    e.Push? ==> Fits(e.m)
  }

  function Next(l: Line, e: Event): (r: Line)
    requires Sound(l) && Sendable(e)
    ensures Sound(r)
  {
    match e
    case Push(m) => Pushed(l, m)
    case Received(cmd) => if Answers(cmd) == 0 then l else Popped(l, Answers(cmd))
    case Tick(now, sendTime) => Ticked(l, now, sendTime)
  }

  function Run(l: Line, events: seq<Event>): (r: Line)
    requires Sound(l) && forall e | e in events :: Sendable(e)
    ensures Sound(r)
  {
    if events == [] then l
    else
      var last := events[|events| - 1];
      assert last in events;
      Next(Run(l, events[..|events| - 1]), last)
  }

  // ----- what holds over every run -----

  function Gone(left: seq<Departure>): (r: seq<Message>)
    ensures |r| == |left| && forall i | 0 <= i < |left| :: r[i] == left[i].m
  {
    seq(|left|, i requires 0 <= i < |left| => left[i].m)
  }

  /** All messages pushed so far, oldest first: those that have left and those that wait. */
  function Everything(l: Line): seq<Message> {
    Gone(l.left) + l.waiting
  }

  function Pushes(events: seq<Event>): seq<Message> {
    if events == [] then []
    else
      var last := events[|events| - 1];
      Pushes(events[..|events| - 1]) + if last.Push? then [last.m] else []
  }

  lemma GoneMore(left: seq<Departure>, d: Departure)
    ensures Gone(left + [d]) == Gone(left) + [d.m]
  {
  }

  lemma NextKeeps(l: Line, e: Event)
    requires Sound(l) && Sendable(e)
    ensures Everything(Next(l, e)) == Everything(l) + if e.Push? then [e.m] else []
  {
    if l.waiting != [] {
      var head := l.waiting[0];
      assert l.waiting == [head] + l.waiting[1..];
      GoneMore(l.left, Dropped(head));
      if e.Received? {
        GoneMore(l.left, Acknowledged(head, Answers(e.cmd)));
      }
    }
  }

  /** Nothing is lost, made up or overtaken: what has left and what waits are the messages pushed, in their order. */
  lemma {:induction false} RunKeeps(l: Line, events: seq<Event>)
    requires Sound(l) && forall e | e in events :: Sendable(e)
    ensures Everything(Run(l, events)) == Everything(l) + Pushes(events)
    decreases |events|
  {
    if events != [] {
      var front, last := events[..|events| - 1], events[|events| - 1];
      assert last in events;
      RunKeeps(l, front);
      NextKeeps(Run(l, front), last);
    }
  }

  /** Only the head leaves: by its own command being acknowledged, or by a push while fifty messages wait. */
  lemma WhoLeaves(l: Line, e: Event)
    requires Sound(l) && Sendable(e)
    ensures var r := Next(l, e);
            || r.left == l.left
            || (&& l.waiting != [] && |r.left| == |l.left| + 1 && r.left[..|l.left|] == l.left
                && match r.left[|l.left|]
                   case Acknowledged(m, cmd) =>
                     m == l.waiting[0] && m.data[1] == cmd && e.Received? && cmd == Answers(e.cmd) && cmd != 0
                   case Dropped(m) => m == l.waiting[0] && e.Push? && |l.waiting| == MAX_CHANCE)
  {
  }

  ghost predicate Justified(left: seq<Departure>) {
    forall i | 0 <= i < |left| && left[i].Acknowledged? ::
      |left[i].m.data| == MAX_LEN && left[i].m.data[1] == left[i].cmd
      && (left[i].cmd == WRPLATE_STAS_CMD || left[i].cmd == WRPLATE_REMOVE_CMD)
  }

  lemma {:induction false} RunJustified(l: Line, events: seq<Event>)
    requires Sound(l) && Justified(l.left) && forall e | e in events :: Sendable(e)
    ensures Justified(Run(l, events).left)
    decreases |events|
  {
    if events != [] {
      var front, last := events[..|events| - 1], events[|events| - 1];
      assert last in events;
      RunJustified(l, front);
      WhoLeaves(Run(l, front), last);
    }
  }

  /** Every frame that went out is that of a message pushed, and frames go out in the order of the pushes. */
  ghost predicate InOrder(l: Line) {
    && (forall j | 0 <= j < |l.sent| ::
          var p := l.sent[j].position;
          p < |Everything(l)| && p <= |l.left| && Fits(Everything(l)[p]) && l.sent[j].frame == Frame(Everything(l)[p]))
    && (forall i, j | 0 <= i < j < |l.sent| :: l.sent[i].position <= l.sent[j].position)
  }

  lemma NextInOrder(l: Line, e: Event)
    requires Sound(l) && Sendable(e) && InOrder(l)
    ensures InOrder(Next(l, e))
  {
    NextKeeps(l, e);
    WhoLeaves(l, e);
    var r := Next(l, e);
    forall j | 0 <= j < |l.sent|
      ensures Everything(r)[l.sent[j].position] == Everything(l)[l.sent[j].position]
    {
    }
  }

  lemma {:induction false} RunInOrder(l: Line, events: seq<Event>)
    requires Sound(l) && InOrder(l) && forall e | e in events :: Sendable(e)
    ensures InOrder(Run(l, events))
    decreases |events|
  {
    if events != [] {
      var front, last := events[..|events| - 1], events[|events| - 1];
      assert last in events;
      RunInOrder(l, front);
      NextInOrder(Run(l, front), last);
    }
  }

  /**
    A tick transmits the head exactly when it is due: when the number of messages changed since the last tick, or more
    than three seconds have passed since the last transmission. An empty queue transmits nothing even when it looks ready.
   */
  lemma TickSends(l: Line, now: nat, sendTime: nat)
    requires Sound(l)
    ensures var r := Ticked(l, now, sendTime);
            var due := l.seen != |l.waiting| || (l.waiting != [] && (now - l.last) % 0x1_0000_0000 > 3);
            && (r.sent != l.sent <==> l.waiting != [] && l.waiting[0].len != 0 && due)
            && (r.sent != l.sent ==> r.sent == l.sent + [Transmission(|l.left|, l.waiting[0].data[..l.waiting[0].len])])
            && r.waiting == l.waiting && r.left == l.left && r.seen == |l.waiting|
            && r.last == if due then sendTime else l.last
  {
  }

  /**
    The switch over received commands lacks a break: a message leaves without its own command having been received
    exactly when a status query arrives while a status message is the head.
   */
  lemma QueryAcknowledges(l: Line, cmd: bv8)
    requires Sound(l)
    ensures Next(l, Received(cmd)).left != l.left && l.waiting[0].data[1] != cmd <==>
            cmd == QT_GET_NET_STATUS_CMD && l.waiting != [] && l.waiting[0].data[1] == WRPLATE_STAS_CMD
  {
  }

  /** What a received command does: the head leaves as acknowledged, or nothing happens at all. */
  lemma ReceivedExactly(l: Line, cmd: bv8)
    requires Sound(l)
    ensures var waits := if l.waiting == [] then 0 else l.waiting[0].data[1];
            Next(l, Received(cmd)) ==
            if (waits == 0xA1 && (cmd == 0xA1 || cmd == 0x08)) || (waits == 0xA2 && cmd == 0xA2)
            then Line(l.waiting[1..], l.left + [Acknowledged(l.waiting[0], waits)], l.sent, l.seen, l.last)
            else l
  {
  }

  /** What made a message leave the line l. */
  predicate Caused(l: Line, e: Event, d: Departure)
    requires Sound(l)
  {
    && l.waiting != [] && d.m == l.waiting[0]
    && match d
       case Acknowledged(m, cmd) =>
         && e.Received? && cmd == m.data[1]
         && (e.cmd == m.data[1] || (e.cmd == QT_GET_NET_STATUS_CMD && m.data[1] == WRPLATE_STAS_CMD))
       case Dropped(_) => e.Push? && |l.waiting| == MAX_CHANCE
  }

  lemma CausedNext(l: Line, e: Event)
    requires Sound(l) && Sendable(e)
    ensures var r := Next(l, e);
            r.left == l.left || (|r.left| == |l.left| + 1 && r.left[..|l.left|] == l.left && Caused(l, e, r.left[|l.left|]))
  {
    WhoLeaves(l, e);
  }

  /**
    Over every run: behind each departure stands the step k that caused it. The message was the head, and its own
    command or a status query was received, or a push found fifty messages waiting.
   */
  lemma {:induction false} RunAnswered(l: Line, events: seq<Event>, i: nat) returns (k: nat)
    requires Sound(l) && (forall e | e in events :: Sendable(e)) && |l.left| <= i < |Run(l, events).left|
    ensures k < |events| && (forall e | e in events[..k] :: Sendable(e)) && (forall e | e in events[..k + 1] :: Sendable(e))
    ensures |Run(l, events[..k]).left| == i && Run(l, events[..k + 1]).left == Run(l, events).left[..i + 1]
    ensures Caused(Run(l, events[..k]), events[k], Run(l, events).left[i])
    decreases |events|
  {
    hide Caused, Next;
    var front, last := events[..|events| - 1], events[|events| - 1];
    assert last in events;
    CausedNext(Run(l, front), last);
    assert events[..|events|] == events;
    if i < |Run(l, front).left| {
      k := RunAnswered(l, front, i);
      assert front[..k] == events[..k] && front[..k + 1] == events[..k + 1];
    } else {
      k := |events| - 1;
    }
  }

  // ----- frames -----

  const BODY: nat := 252

  /** A message for the peer: datalen counts the length byte, the command and the body. */
  datatype QtData = QtData(datalen: bv8, cmd: bv8, data: seq<bv8>) {
    function Length(): nat {
      datalen as int
    }
  }

  predicate Framable(d: QtData) {
    2 <= d.Length() <= BODY + 2 && |d.data| == BODY
  }

  function Xor(x: bv8, y: bv8): bv8 {
    x ^ y
  }

  function XorSum(t: seq<bv8>): bv8 {
    if t == [] then 0 else Xor(XorSum(t[..|t| - 1]), t[|t| - 1])
  }

  /** Cal_Crc */
  method CalCrc(data: array<bv8>, len: nat) returns (crc: bv8)
    requires len < 256 && len <= data.Length
    ensures crc == XorSum(data[..len])
  {
    crc := 0;
    for i := 0 to len
      invariant crc == XorSum(data[..i])
    {
      assert data[..i + 1][..i] == data[..i];
      crc := Xor(crc, data[i]);
    }
  }

  function Body(d: QtData): (r: seq<bv8>)
    requires Framable(d)
    ensures |r| == d.Length()
  {
    [d.datalen, d.cmd] + d.data[..d.Length() - 2]
  }

  function FrameOf(d: QtData): seq<bv8>
    requires Framable(d)
  {
    Body(d) + [XorSum(Body(d))]
  }

  /** The sum of a message in two parts; so nothing is summed to zero, and one byte to itself. */
  lemma {:induction false} XorSumConcat(t: seq<bv8>, u: seq<bv8>)
    ensures XorSum(t + u) == Xor(XorSum(t), XorSum(u))
    decreases |u|
  {
    hide Xor;
    if u == [] {
      assert t + u == t;
      XorNothing(XorSum(t));
    } else {
      var front, last := u[..|u| - 1], u[|u| - 1];
      XorSumConcat(t, front);
      assert (t + u)[..|t + u| - 1] == t + front;
      XorThree(XorSum(t), XorSum(front), last);
    }
  }

  lemma XorNothing(x: bv8)
    ensures Xor(x, 0) == x && Xor(0, x) == x
  {
  }

  lemma XorThree(x: bv8, y: bv8, z: bv8)
    ensures Xor(Xor(x, y), z) == Xor(x, Xor(y, z))
  {
  }

  lemma XorSumOne(b: bv8)
    ensures XorSum([b]) == b
  {
    hide Xor;
    assert [b][..0] == [];
    XorNothing(b);
  }

  /** A receiver finds its way: the first byte counts what precedes the checksum, and the whole frame sums to zero. */
  lemma FrameChecks(d: QtData)
    requires Framable(d)
    ensures |FrameOf(d)| == d.Length() + 1 && FrameOf(d)[0] == d.datalen && FrameOf(d)[1] == d.cmd
    ensures FrameOf(d)[2..d.Length()] == d.data[..d.Length() - 2]
    ensures XorSum(FrameOf(d)) == 0
  {
    hide Xor;
    assert FrameOf(d)[..d.Length()] == Body(d);
    XorSelf(XorSum(Body(d)));
  }

  lemma XorSelf(x: bv8)
    ensures Xor(x, x) == 0
  {
  }

  lemma XorApart(x: bv8, y: bv8, z: bv8)
    requires x != y
    ensures Xor(x, z) != Xor(y, z) && Xor(z, x) != Xor(z, y)
  {
  }

  /** One wrong byte anywhere in a frame shows in the sum. */
  lemma {:induction false} OneByteShows(t: seq<bv8>, k: nat, x: bv8)
    requires k < |t| && t[k] != x
    ensures XorSum(t[k := x]) != XorSum(t)
    decreases |t|
  {
    hide Xor;
    var n := |t| - 1;
    if k == n {
      assert t[k := x][..n] == t[..n];
      XorApart(x, t[k], XorSum(t[..n]));
    } else {
      assert t[k := x][..n] == t[..n][k := x];
      OneByteShows(t[..n], k, x);
      XorApart(XorSum(t[..n][k := x]), XorSum(t[..n]), t[n]);
    }
  }

  /** memcpy */
  method Copy(from: seq<bv8>, n: nat, to: array<bv8>, at: nat)
    requires n <= |from| && at + n <= to.Length
    modifies to
    ensures to[..at] == old(to[..at]) && to[at..at + n] == from[..n]
  {
    for i := 0 to n
      invariant to[..at] == old(to[..at]) && forall j | 0 <= j < i :: to[at + j] == from[j]
    {
      to[at + i] := from[i];
    }
  }

  /** The frame is built in a local whose remaining bytes are whatever the stack held. */
  method BuildFrame(d: QtData, stack: array<bv8>)
    requires Framable(d) && stack.Length == MAX_LEN
    modifies stack
    ensures stack[..d.Length() + 1] == FrameOf(d)
  {
    hide XorSum;
    var n := d.Length();
    stack[0] := d.datalen;
    stack[1] := d.cmd;
    assert stack[..2] == [d.datalen, d.cmd];
    Copy(d.data, n - 2, stack, 2);
    assert stack[..n] == stack[..2] + stack[2..2 + (n - 2)];
    var crc := CalCrc(stack, n);
    Append(stack, n, crc);
  }

  method Append(t: array<bv8>, n: nat, b: bv8)
    requires n < t.Length
    modifies t
    ensures t[..n + 1] == old(t[..n]) + [b]
  {
    t[n] := b;
  }

  // ----- the ring -----

  function Slot(rd: nat, i: nat): (r: nat)
    requires rd < MAX_CHANCE && i <= MAX_CHANCE
    ensures r < MAX_CHANCE && r == (rd + i) % MAX_CHANCE
  {
    if rd + i < MAX_CHANCE then rd + i else rd + i - MAX_CHANCE
  }

  /** Slot k of the ring lies in the window of count slots from rd. */
  predicate Occupied(k: nat, rd: nat, count: nat)
    requires k < MAX_CHANCE && rd < MAX_CHANCE
  {
    if rd <= k then k - rd < count else k + MAX_CHANCE - rd < count
  }

  /** Every free slot is zeroed. */
  ghost predicate Zeroed(slots: seq<Message>, rd: nat, count: nat) {
    && |slots| == MAX_CHANCE && rd < MAX_CHANCE && count <= MAX_CHANCE
    && forall k | 0 <= k < MAX_CHANCE ::
         (Occupied(k, rd, count) ==> Fits(slots[k])) && (!Occupied(k, rd, count) ==> slots[k] == Free())
  }

  /** The messages in the window, oldest first. */
  ghost function Window(slots: seq<Message>, rd: nat, count: nat): (r: seq<Message>)
    requires |slots| == MAX_CHANCE && rd < MAX_CHANCE && count <= MAX_CHANCE
    ensures |r| == count && forall i | 0 <= i < count :: r[i] == slots[Slot(rd, i)]
  {
    seq(count, i requires 0 <= i < count => slots[Slot(rd, i)])
  }

  lemma WindowPush(slots: seq<Message>, rd: nat, count: nat, m: Message)
    requires Zeroed(slots, rd, count) && count < MAX_CHANCE && Fits(m)
    ensures Zeroed(slots[Slot(rd, count) := m], rd, count + 1)
    ensures Window(slots[Slot(rd, count) := m], rd, count + 1) == Window(slots, rd, count) + [m]
  {
    var grown := slots[Slot(rd, count) := m];
    forall i | 0 <= i < count
      ensures Window(grown, rd, count + 1)[i] == Window(slots, rd, count)[i]
    {
      assert Slot(rd, i) != Slot(rd, count);
    }
  }

  lemma WindowPop(slots: seq<Message>, rd: nat, count: nat)
    requires Zeroed(slots, rd, count) && count > 0
    ensures Zeroed(slots[rd := Free()], Slot(rd, 1), count - 1)
    ensures Window(slots[rd := Free()], Slot(rd, 1), count - 1) == Window(slots, rd, count)[1..]
    ensures Window(slots, rd, count)[0] == slots[rd] && Fits(slots[rd])
  {
    var shrunk := slots[rd := Free()];
    assert Occupied(rd, rd, count) && Slot(rd, 0) == rd;
    var before, after := Window(slots, rd, count), Window(shrunk, Slot(rd, 1), count - 1);
    forall i | 0 <= i < count - 1
      ensures after[i] == before[1..][i]
    {
      assert Slot(Slot(rd, 1), i) == Slot(rd, i + 1) != rd;
    }
  }

  class SendQueue {
    const queue: array<Message>
    var wp: nat
    var rd: nat
    var count: nat
    var sendNumBak: nat
    var lastTs: nat
    ghost var left: seq<Departure>
    ghost var sent: seq<Transmission>

    constructor ()
      ensures Valid() && fresh(queue) && State() == Line([], [], [], 0, 0)
    {
      queue := new Message[MAX_CHANCE](i => Free());
      wp, rd, count, sendNumBak, lastTs := 0, 0, 0, 0, 0;
      left, sent := [], [];
    }

    /** The write position follows from the read position and the count, and every free slot is zeroed. */
    ghost predicate Valid()
      reads this`rd, this`count, this`wp, queue
    {
      Zeroed(queue[..], rd, count) && wp == Slot(rd, count)
    }

    ghost function State(): Line
      requires Valid()
      reads this, queue
    {
      Line(Window(queue[..], rd, count), left, sent, sendNumBak, lastTs)
    }

    lemma Head()
      requires Valid()
      ensures queue.Length == MAX_CHANCE && rd < MAX_CHANCE && count <= MAX_CHANCE && wp < MAX_CHANCE
      ensures Fits(queue[rd]) && Sound(State())
      ensures if count > 0 then State().waiting[0] == queue[rd] else queue[rd] == Free()
    {
      if count > 0 {
        WindowPop(queue[..], rd, count);
      } else {
        assert !Occupied(rd, rd, count);
      }
      forall i | 0 <= i < count
        ensures Fits(State().waiting[i])
      {
        assert Occupied(Slot(rd, i), rd, count);
      }
    }

    /** msg_queue_push */
    method PushMessage(m: Message)
      requires Valid() && Fits(m)
      modifies this`wp, this`rd, this`count, this`left, queue
      ensures Valid() && State() == Pushed(old(State()), m)
    {
      hide Zeroed, Window;
      Head();
      ghost var slots, first, n := queue[..], rd, count;
      if count >= MAX_CHANCE {
        WindowPop(slots, rd, count);
        left := left + [Dropped(queue[rd])];
        queue[rd] := Free();
        rd := (rd + 1) % MAX_CHANCE;
        slots, first, n := slots[first := Free()], Slot(first, 1), n - 1;
      } else {
        count := count + 1;
      }
      assert queue[..] == slots && rd == first && wp == Slot(rd, n);
      WindowPush(slots, rd, n, m);
      queue[wp] := m;
      wp := wp + 1;
      if wp >= MAX_CHANCE {
        wp := 0;
      }
      assert queue[..] == slots[Slot(rd, n) := m];
    }

    /**
      msg_queue_pop. An acknowledgement by a command that is not zero finds nothing in an empty queue, because the slot
      it looks at is zeroed; the command zero would move the read position of an empty queue.
     */
    method PopMessage(cmd: bv8)
      requires Valid()
      modifies this`rd, this`count, this`left, queue
      ensures Valid() <==> cmd != 0 || old(count) > 0
      ensures cmd != 0 || old(count) > 0 ==> Sound(old(State())) && State() == Popped(old(State()), cmd)
    {
      hide Zeroed, Window;
      Head();
      if queue[rd].data[1] == cmd {
        ghost var slots := queue[..];
        if count > 0 {
          WindowPop(slots, rd, count);
          left := left + [Acknowledged(queue[rd], cmd)];
        }
        queue[rd] := Free();
        assert queue[..] == slots[rd := Free()];
        if count > 0 {
          count := count - 1;
        }
        rd := rd + 1;
        if rd >= MAX_CHANCE {
          rd := 0;
        }
      }
    }

    /** msg_queue_ready */
    method MessageReady(now: nat) returns (ready: bool)
      requires Valid()
      modifies this`sendNumBak
      ensures Valid() && ready == Ready(old(State()), now)
      ensures State() == old(State()).(seen := count)
    {
      var num := count;
      if sendNumBak != num {
        sendNumBak := num;
        return true;
      }
      return num > 0 && (now - lastTs) % WORD > RETRY_TIME;
    }

    /** msg_queue_send and send_msg_data: a length of zero is not sent. */
    method SendMessage(now: nat)
      requires Valid()
      modifies this`lastTs, this`sent
      ensures Valid() && Sound(old(State())) && State() == Sent(old(State()), now)
    {
      Head();
      lastTs := now;
      var message := queue[rd];
      if message.len == 0 {
        return;
      }
      sent := sent + [Transmission(|left|, message.data[..message.len])];
    }

    /** send_qt_msg_data_task */
    method SendTask(now: nat, sendTime: nat)
      requires Valid()
      modifies this`sendNumBak, this`lastTs, this`sent
      ensures Valid() && Sound(old(State())) && State() == Ticked(old(State()), now, sendTime)
    {
      Head();
      var ready := MessageReady(now);
      if ready {
        SendMessage(sendTime);
      }
    }

    /** receive_qt_msg_data_task, as far as it concerns the queue */
    method Receive(cmd: bv8)
      requires Valid()
      modifies this`rd, this`count, this`left, queue
      ensures Valid() && Sound(old(State()))
      ensures State() == Next(old(State()), Received(cmd))
    {
      Head();
      match cmd
      case 0x08 =>
        PopMessage(WRPLATE_STAS_CMD);
      case 0xA1 =>
        PopMessage(WRPLATE_STAS_CMD);
      case 0xA2 =>
        PopMessage(WRPLATE_REMOVE_CMD);
      case _ =>
    }

    /** Any schedule of pushes, received commands and timer ticks */
    method Drive(events: seq<Event>)
      requires Valid() && forall e | e in events :: Sendable(e)
      modifies this`wp, this`rd, this`count, this`sendNumBak, this`lastTs, this`left, this`sent, queue
      ensures Valid() && Sound(old(State())) && State() == Run(old(State()), events)
    {
      Head();
      for i := 0 to |events|
        invariant Valid() && State() == Run(old(State()), events[..i])
      {
        assert events[..i + 1][..i] == events[..i] && events[i] in events;
        Head();
        match events[i]
        case Push(m) => PushMessage(m);
        case Received(cmd) => Receive(cmd);
        case Tick(now, sendTime) => SendTask(now, sendTime);
      }
      assert events[..|events|] == events;
    }

    /** qt_push_data_to_msg */
    method QtPushDataToMsg(d: QtData, stack: array<bv8>) returns (ghost m: Message)
      requires Valid() && Framable(d) && stack.Length == MAX_LEN
      modifies this`wp, this`rd, this`count, this`left, queue, stack
      ensures Valid() && Fits(m) && Frame(m) == FrameOf(d) && m.data[1] == d.cmd
      ensures Sound(old(State())) && State() == Pushed(old(State()), m)
    {
      hide FrameOf, Window, Zeroed, XorSum;
      Head();
      BuildFrame(d, stack);
      var message := Message(d.Length() + 1, stack[..]);
      m := message;
      FrameChecks(d);
      assert Frame(m)[1] == m.data[1];
      if d.Length() != 0 {
        PushMessage(message);
      }
    }
  }
}
