/**
 * The bounded queue between the dispatcher and the workers. A mutex makes push and pop atomic; what a worker
 * does later with the slot that pop gave it happens outside the lock.
 */
module RingQueue {

  // ---- the state and its two steps ----

  /** struct task_queue: a ring in which one slot always stays empty. */
  datatype Ring<T> = Ring(data: seq<T>, head: nat, tail: nat, curNum: int)

  predicate Good<T>(r: Ring<T>) {
    && r.head < |r.data| && r.tail < |r.data|
    && r.curNum == Length(r)
  }

  predicate IsEmpty<T>(r: Ring<T>) {
    r.head == r.tail
  }

  function Length<T>(r: Ring<T>): nat
    requires r.head < |r.data| && r.tail < |r.data|
  {
    (r.tail - r.head + |r.data|) % |r.data|
  }

  /** The messages waiting, oldest first. */
  function Contents<T>(r: Ring<T>): (c: seq<T>)
    requires r.head < |r.data| && r.tail < |r.data|
    ensures |c| == Length(r)
  {
    seq(Length(r), i requires 0 <= i => r.data[(r.head + i) % |r.data|])
  }

  predicate IsFull<T>(r: Ring<T>)
    requires r.head < |r.data| && r.tail < |r.data|
  {
    r.head == (r.tail + 1) % |r.data|
  }

  function Pushed<T>(r: Ring<T>, msg: T): Ring<T>
    requires r.head < |r.data| && r.tail < |r.data|
  {
    if IsFull(r) then r
    else Ring(r.data[r.tail := msg], r.head, (r.tail + 1) % |r.data|, r.curNum + 1)
  }

  function Popped<T>(r: Ring<T>): Ring<T>
    requires r.head < |r.data|
  {
    r.(head := (r.head + 1) % |r.data|, curNum := r.curNum - 1)
  }

  /** `d` slots further round the ring. */
  function Forward(x: nat, d: nat, n: nat): nat
    requires x < n && d <= n
  {
    if x + d < n then x + d else x + d - n
  }

  lemma {:induction false} WrapOnce(x: nat, n: nat)
    requires x < 2 * n
    ensures x % n == if x < n then x else x - n
  {
    if x >= n { assert (x - n) + n == x && 0 <= x - n < n; }
  }

  lemma {:induction false} LengthOf<T>(r: Ring<T>)
    requires r.head < |r.data| && r.tail < |r.data|
    ensures Length(r) == (if r.head <= r.tail then r.tail - r.head else r.tail - r.head + |r.data|) < |r.data|
    ensures IsEmpty(r) <==> Length(r) == 0
    ensures IsFull(r) <==> Length(r) == |r.data| - 1
  {
    WrapOnce(r.tail - r.head + |r.data|, |r.data|);
    WrapOnce(r.tail + 1, |r.data|);
  }

  /** A push is refused exactly when size - 1 messages wait; otherwise it goes to the end of the queue. */
  lemma {:induction false} PushAppends<T>(r: Ring<T>, msg: T)
    requires Good(r)
    ensures Good(Pushed(r, msg)) && |Pushed(r, msg).data| == |r.data|
    ensures IsFull(r) <==> |Contents(r)| == |r.data| - 1
    ensures Length(Pushed(r, msg)) == Length(r) + (if IsFull(r) then 0 else 1)
    ensures Contents(Pushed(r, msg)) == if IsFull(r) then Contents(r) else Contents(r) + [msg]
  {
    LengthOf(r);
    if !IsFull(r) {
      var p := Pushed(r, msg);
      WrapOnce(r.tail + 1, |r.data|);
      LengthOf(p);
      forall i | 0 <= i < Length(p) ensures Contents(p)[i] == (Contents(r) + [msg])[i] {
        WrapOnce(r.head + i, |r.data|);
      }
    }
  }

  /** A pop takes the oldest message. */
  lemma {:induction false} PopRemovesFirst<T>(r: Ring<T>)
    requires Good(r) && !IsEmpty(r)
    ensures Good(Popped(r)) && Contents(r) == [r.data[r.head]] + Contents(Popped(r))
    ensures Length(r) == 1 + Length(Popped(r))
  {
    var p := Popped(r);
    LengthOf(r);
    WrapOnce(r.head + 1, |r.data|);
    LengthOf(p);
    forall i | 0 <= i < Length(r) ensures Contents(r)[i] == ([r.data[r.head]] + Contents(p))[i] {
      WrapOnce(r.head + i, |r.data|);
      if i > 0 { WrapOnce(p.head + (i - 1), |r.data|); }
    }
  }

  // ---- whole runs ----

  /** One locked body; threads interleave in any order. */
  datatype Event<T> = Push(msg: T) | Pop

  /** The ring, and every message accepted and popped so far. */
  datatype History<T> = History(ring: Ring<T>, accepted: seq<T>, popped: seq<T>)

  predicate Runnable<T>(h: History<T>) {
    h.ring.head < |h.ring.data| && h.ring.tail < |h.ring.data|
  }

  function Step<T>(h: History<T>, e: Event<T>): (h1: History<T>)
    requires Runnable(h)
  {
    match e
    case Push(msg) =>
      History(Pushed(h.ring, msg), if IsFull(h.ring) then h.accepted else h.accepted + [msg], h.popped)
    case Pop =>
      History(Popped(h.ring), h.accepted, h.popped + [h.ring.data[h.ring.head]])
  }

  /** Nobody pops from an empty queue: pop waits. */
  predicate Possible<T>(h: History<T>, events: seq<Event<T>>)
    requires Runnable(h)
    decreases |events|
  {
    events != [] ==>
      && (events[0].Pop? ==> !IsEmpty(h.ring))
      && Possible(Step(h, events[0]), events[1..])
  }

  function Run<T>(h: History<T>, events: seq<Event<T>>): (h1: History<T>)
    requires Runnable(h) && Possible(h, events)
    ensures Runnable(h1)
    decreases |events|
  {
    if events == [] then h else Run(Step(h, events[0]), events[1..])
  }

  /** What one step does to the counts, the tail and the slots. */
  ghost predicate Moved<T>(h: History<T>, h1: History<T>)
    requires Good(h.ring)
  {
    && Good(h1.ring) && |h1.ring.data| == |h.ring.data|
    && Length(h1.ring) == Length(h.ring) + (|h1.accepted| - |h.accepted|) - (|h1.popped| - |h.popped|)
    && |h.accepted| <= |h1.accepted| <= |h.accepted| + 1 && |h.popped| <= |h1.popped|
    && h1.ring.tail == Forward(h.ring.tail, |h1.accepted| - |h.accepted|, |h.ring.data|)
    && (forall k :: 0 <= k < |h.ring.data| && (k != h.ring.tail || |h1.accepted| == |h.accepted|) ==>
          h1.ring.data[k] == h.ring.data[k])
  }

  lemma {:induction false} PushMoves<T>(h: History<T>, msg: T)
    requires Good(h.ring)
    ensures Moved(h, Step(h, Push(msg)))
  {
    hide Contents, Length;
    PushAppends(h.ring, msg);
    WrapOnce(h.ring.tail + 1, |h.ring.data|);
  }

  lemma {:induction false} PopMoves<T>(h: History<T>)
    requires Good(h.ring) && !IsEmpty(h.ring)
    ensures Moved(h, Step(h, Pop))
  {
    hide Contents, Length;
    PopRemovesFirst(h.ring);
  }

  lemma {:induction false} PushQueues<T>(h: History<T>, msg: T)
    requires Good(h.ring) && h.accepted == h.popped + Contents(h.ring)
    ensures var h1 := Step(h, Push(msg)); Good(h1.ring) && h1.accepted == h1.popped + Contents(h1.ring)
  {
    hide Contents, Length, IsFull;
    PushAppends(h.ring, msg);
  }

  lemma {:induction false} PopDelivers<T>(h: History<T>)
    requires Good(h.ring) && !IsEmpty(h.ring) && h.accepted == h.popped + Contents(h.ring)
    ensures var h1 := Step(h, Pop); Good(h1.ring) && h1.accepted == h1.popped + Contents(h1.ring)
  {
    hide Contents, Length;
    PopRemovesFirst(h.ring);
  }

  lemma {:induction false} StepKeeps<T>(h: History<T>, e: Event<T>)
    requires Good(h.ring) && (e.Pop? ==> !IsEmpty(h.ring))
    ensures Moved(h, Step(h, e))
    ensures h.accepted == h.popped + Contents(h.ring) ==>
              Good(Step(h, e).ring) && Step(h, e).accepted == Step(h, e).popped + Contents(Step(h, e).ring)
  {
    hide Step, Moved, Contents, Length;
    var queued := h.accepted == h.popped + Contents(h.ring);
    match e
    case Push(msg) =>
      PushMoves(h, msg);
      if queued { PushQueues(h, msg); }
    case Pop =>
      PopMoves(h);
      if queued { PopDelivers(h); }
  }

  /** Exactly once and in order, and the counter tells the truth: `curNum` is the length, below the size. */
  lemma {:induction false} FifoExactlyOnce<T>(h: History<T>, events: seq<Event<T>>)
    requires Good(h.ring) && h.accepted == h.popped + Contents(h.ring) && Possible(h, events)
    ensures var h1 := Run(h, events);
            && Good(h1.ring) && h1.accepted == h1.popped + Contents(h1.ring)
            && h1.ring.curNum == |Contents(h1.ring)| < |h1.ring.data| == |h.ring.data|
    decreases |events|
  {
    if events == [] {
      LengthOf(h.ring);
    } else {
      StepKeeps(h, events[0]);
      FifoExactlyOnce(Step(h, events[0]), events[1..]);
    }
  }

  lemma {:induction false} RunCounts<T>(h: History<T>, events: seq<Event<T>>)
    requires Good(h.ring) && Possible(h, events)
    ensures var h1 := Run(h, events);
            && Good(h1.ring) && |h1.ring.data| == |h.ring.data|
            && |h.accepted| <= |h1.accepted| && |h.popped| <= |h1.popped|
            && Length(h1.ring) == Length(h.ring) + (|h1.accepted| - |h.accepted|) - (|h1.popped| - |h.popped|)
            && (|h1.accepted| - |h.accepted| <= |h.ring.data| ==>
                  h1.ring.tail == Forward(h.ring.tail, |h1.accepted| - |h.accepted|, |h.ring.data|))
    decreases |events|
  {
    if events != [] {
      StepKeeps(h, events[0]);
      RunCounts(Step(h, events[0]), events[1..]);
    }
  }

  // ---- the slot a worker reads after pop ----

  /** The slot pop handed out, and how many later pushes it survives. */
  function Handed<T>(r: Ring<T>): History<T>
    requires r.head < |r.data|
  {
    History(Popped(r), [], [])
  }

  /** A slot `d` places ahead of the tail keeps its message for the next `d` accepted pushes. */
  lemma {:induction false} SlotAhead<T>(h: History<T>, d: nat, events: seq<Event<T>>)
    requires Good(h.ring) && Possible(h, events) && d < |h.ring.data|
    requires |Run(h, events).accepted| <= |h.accepted| + d
    ensures var k := Forward(h.ring.tail, d, |h.ring.data|);
            && |Run(h, events).ring.data| == |h.ring.data|
            && Run(h, events).ring.data[k] == h.ring.data[k]
    decreases |events|
  {
    if events != [] {
      var h1 := Step(h, events[0]);
      StepKeeps(h, events[0]);
      RunCounts(h1, events[1..]);
      SlotAhead(h1, d - (|h1.accepted| - |h.accepted|), events[1..]);
    }
  }

  /** The slot that pop hands out lies size - 1 - L places ahead of the tail, if L messages are left. */
  lemma {:induction false} HandedAhead<T>(r: Ring<T>)
    requires Good(r) && !IsEmpty(r)
    ensures Good(Popped(r)) && Length(Popped(r)) < |r.data|
    ensures Forward(r.tail, |r.data| - 1 - Length(Popped(r)), |r.data|) == r.head
  {
    PopRemovesFirst(r);
    WrapOnce(r.head + 1, |r.data|);
    LengthOf(Popped(r));
  }

  /**
   * After a pop that leaves L messages: as long as fewer than size - L pushes were accepted the slot holds the
   * message that was popped; after size - L - 1 of them, and not before, it is the slot the next one will take.
   */
  lemma {:induction false} SlotStability<T>(r: Ring<T>, events: seq<Event<T>>)
    requires Good(r) && !IsEmpty(r) && Possible(Handed(r), events)
    ensures var h, room := Run(Handed(r), events), |r.data| - Length(Popped(r));
            && |h.ring.data| == |r.data|
            && (|h.accepted| < room ==> h.ring.data[r.head] == r.data[r.head])
            && (|h.accepted| < room ==> (h.ring.tail == r.head <==> |h.accepted| == room - 1))
  {
    var h, room := Run(Handed(r), events), |r.data| - Length(Popped(r));
    HandedAhead(r);
    PopRemovesFirst(r);
    RunCounts(Handed(r), events);
    if |h.accepted| < room {
      SlotAhead(Handed(r), room - 1, events);
    }
  }

  /** The (size - L)-th accepted push replaces the message, read or not. */
  lemma {:induction false} SlotOverwritten<T>(r: Ring<T>, events: seq<Event<T>>, msg: T)
    requires Good(r) && !IsEmpty(r) && Possible(Handed(r), events)
    requires |Run(Handed(r), events).accepted| == |r.data| - Length(Popped(r)) - 1
    requires !IsFull(Run(Handed(r), events).ring)
    ensures var p := Pushed(Run(Handed(r), events).ring, msg);
            |p.data| == |r.data| && p.data[r.head] == msg
  {
    SlotStability(r, events);
  }

  /**
   * It does happen: in a queue of two slots, after one pop by a second consumer, the next push takes the slot that
   * the first consumer has still to read.
   */
  lemma {:induction false} MessageLost<T>(first: T, second: T, third: T)
    requires first != third
    ensures var r, events := Ring([first, first], 0, 1, 1), [Push(second), Pop];
            && Good(r) && !IsEmpty(r) && Contents(r) == [first] && Possible(Handed(r), events)
            && |Run(Handed(r), events).accepted| == |r.data| - Length(Popped(r)) - 1
            && !IsFull(Run(Handed(r), events).ring)
            && Pushed(Run(Handed(r), events).ring, third).data[r.head] == third != r.data[r.head]
  {
    var r, events := Ring([first, first], 0, 1, 1), [Push(second), Pop];
    var h := Handed(r);
    assert Step(h, Push(second)) == History(Ring([first, second], 1, 0, 1), [second], []);
    assert Step(Step(h, Push(second)), Pop) == History(Ring([first, second], 0, 0, 0), [second], [second]);
    RunOfTwo(h, Push(second), Pop);
  }

  lemma {:induction false} RunOfTwo<T>(h: History<T>, a: Event<T>, b: Event<T>)
    requires Runnable(h) && (a.Pop? ==> !IsEmpty(h.ring)) && Runnable(Step(h, a))
    requires b.Pop? ==> !IsEmpty(Step(h, a).ring)
    ensures Possible(h, [a, b]) && Run(h, [a, b]) == Step(Step(h, a), b)
  {
    assert [a, b][1..] == [b] && [b][1..] == [];
    assert Run(Step(h, a), [b]) == Run(Step(Step(h, a), b), []);
  }

  /** That push cannot be accepted before somebody pops again. */
  lemma {:induction false} OverwritingNeedsAPop<T>(r: Ring<T>, events: seq<Event<T>>)
    requires Good(r) && !IsEmpty(r) && Possible(Handed(r), events)
    ensures var h := Run(Handed(r), events);
            |h.accepted| >= |r.data| - Length(Popped(r)) ==> h.popped != []
  {
    HandedAhead(r);
    RunCounts(Handed(r), events);
    LengthOf(Run(Handed(r), events).ring);
  }

  /** A lone consumer that reads before its next pop always sees the message it was handed. */
  lemma {:induction false} LoneConsumerReadsItsOwn<T>(r: Ring<T>, events: seq<Event<T>>)
    requires Good(r) && !IsEmpty(r) && Possible(Handed(r), events)
    requires forall e :: e in events ==> e.Push?
    ensures var h := Run(Handed(r), events);
            |h.ring.data| == |r.data| && h.ring.data[r.head] == r.data[r.head]
  {
    HandedAhead(r);
    PushesPopNothing(Handed(r), events);
    OverwritingNeedsAPop(r, events);
    SlotStability(r, events);
  }

  lemma {:induction false} PushesPopNothing<T>(h: History<T>, events: seq<Event<T>>)
    requires Good(h.ring) && Possible(h, events) && forall e :: e in events ==> e.Push?
    ensures Run(h, events).popped == h.popped
    decreases |events|
  {
    if events != [] {
      StepKeeps(h, events[0]);
      PushesPopNothing(Step(h, events[0]), events[1..]);
    }
  }

  // ---- the queue in memory ----

  class TaskQueue<T(0)> {
    const data: array<T>
    const taskQueueSize: nat
    var head: nat
    var tail: nat
    var curNum: int

    ghost predicate Valid()
      reads this, data
    {
      data.Length == taskQueueSize && Good(State())
    }

    ghost function State(): Ring<T>
      reads this, data
    {
      Ring(data[..], head, tail, curNum)
    }

    /** task_queue_init */
    constructor (taskQueueSize: nat)
      requires taskQueueSize >= 1
      ensures Valid() && fresh(data) && this.taskQueueSize == taskQueueSize && Contents(State()) == []
    {
      this.taskQueueSize := taskQueueSize;
      data := new T[taskQueueSize];
      head, tail, curNum := 0, 0, 0;
    }

    /** is_empty */
    method IsEmptyNow() returns (res: bool)
      requires Valid()
      ensures res <==> Contents(State()) == []
    {
      LengthOf(State());
      res := head == tail;
    }

    /** length */
    method LengthNow() returns (len: int)
      requires Valid()
      ensures len == |Contents(State())|
    {
      len := (tail - head + taskQueueSize) % taskQueueSize;
    }

    /** push */
    method Push(arg: T) returns (res: int)
      requires Valid()
      modifies this, data
      ensures Valid() && State() == Pushed(old(State()), arg)
      ensures res == 1 || res == -1
      ensures res == 1 <==> |old(Contents(State()))| < taskQueueSize - 1
      ensures Contents(State()) == old(Contents(State())) + (if res == 1 then [arg] else [])
    {
      PushAppends(State(), arg);
      LengthOf(State());
      if head == (tail + 1) % taskQueueSize {
        return -1;
      }
      data[tail] := arg;
      curNum := curNum + 1;
      tail := (tail + 1) % taskQueueSize;
      res := 1;
    }

    /** pop, from when the queue is not empty: the slot it returns is read later, outside the lock. */
    method Pop() returns (slot: nat)
      requires Valid() && Contents(State()) != []
      modifies this
      ensures Valid() && State() == Popped(old(State()))
      ensures slot < data.Length && [data[slot]] + Contents(State()) == old(Contents(State()))
    {
      LengthOf(State());
      PopRemovesFirst(State());
      curNum := curNum - 1;
      slot := head;
      head := (head + 1) % taskQueueSize;
    }
  }
}
