/**
  The bounded event queue of the Godot binding (bindings/godot/src/nearcade_godot.cpp): the event
  callback pushes, `poll_event` pops, each under the queue mutex, hence as one step.
 */
module EventQueue {
  import opened CStrings
  import opened Subsequences

  const CAPACITY: nat := 256

  /** The queue with everything that ever happened to it. */
  datatype History<E> = History(queue: seq<E>, fired: seq<E>, delivered: seq<E>, dropped: seq<E>)

  datatype Op<E> = Fire(event: E) | Poll

  function Step<E>(h: History<E>, op: Op<E>): History<E> {
    match op
    case Fire(e) =>
      if |h.queue| < CAPACITY then h.(queue := h.queue + [e], fired := h.fired + [e])
      else h.(fired := h.fired + [e], dropped := h.dropped + [e])
    case Poll =>
      if h.queue == [] then h
      else h.(queue := h.queue[1..], delivered := h.delivered + [h.queue[0]])
  }

  function Run<E>(h: History<E>, ops: seq<Op<E>>): History<E>
    decreases |ops|
  {
    if ops == [] then h else Run(Step(h, ops[0]), ops[1..])
  }

  function Empty<E>(): History<E> { History([], [], [], []) }

  /** Bounded, ordered, and nothing is lost from the books. */
  ghost predicate Sound<E>(h: History<E>) {
    && |h.queue| <= 256
    && Subsequence(h.delivered + h.queue, h.fired)
    && |h.fired| == |h.delivered| + |h.queue| + |h.dropped|
    && multiset(h.fired) == multiset(h.delivered) + multiset(h.queue) + multiset(h.dropped)
  }

  lemma FireSound<E>(h: History<E>, e: E)
    requires Sound(h)
    ensures Sound(Step(h, Fire(e)))
  {
    var kept := h.delivered + h.queue;
    SubsequenceRefl([e]);
    if |h.queue| < CAPACITY {
      SubsequenceConcat(kept, h.fired, [e], [e]);
      assert kept + [e] == h.delivered + (h.queue + [e]);
    } else {
      SubsequenceConcat(kept, h.fired, [], [e]);
      assert kept + [] == kept;
    }
  }

  lemma PollSound<E>(h: History<E>)
    requires Sound(h)
    ensures Sound(Step(h, Poll))
  {
    if h.queue != [] {
      var h' := Step(h, Poll);
      assert h'.delivered + h'.queue == h.delivered + h.queue;
      assert h.queue == [h.queue[0]] + h.queue[1..];
    }
  }

  /** Over every interleaving of callbacks and polls. */
  lemma {:induction false} RunSound<E>(h: History<E>, ops: seq<Op<E>>)
    requires Sound(h)
    ensures Sound(Run(h, ops))
    decreases |ops|
  {
    if ops != [] {
      if ops[0].Fire? { FireSound(h, ops[0].event); } else { PollSound(h); }
      RunSound(Step(h, ops[0]), ops[1..]);
    }
  }

  /** The events that fire while 256 are already waiting, in order. */
  function FiredWhileFull<E>(h: History<E>, ops: seq<Op<E>>): seq<E>
    decreases |ops|
  {
    if ops == [] then []
    else
      (if ops[0].Fire? && |h.queue| == CAPACITY then [ops[0].event] else [])
      + FiredWhileFull(Step(h, ops[0]), ops[1..])
  }

  /** Exactly the events that fire with 256 already waiting are dropped. */
  lemma {:induction false} DroppedOnlyWhenFull<E>(h: History<E>, ops: seq<Op<E>>)
    requires |h.queue| <= CAPACITY
    ensures Run(h, ops).dropped == h.dropped + FiredWhileFull(h, ops)
    decreases |ops|
  {
    if ops != [] { DroppedOnlyWhenFull(Step(h, ops[0]), ops[1..]); }
  }

  /** The queue never decides what is delivered first: what was delivered stays a prefix. */
  lemma {:induction false} DeliveryIsFinal<E>(h: History<E>, ops: seq<Op<E>>)
    ensures h.delivered <= Run(h, ops).delivered && h.fired <= Run(h, ops).fired
    decreases |ops|
  {
    if ops != [] { DeliveryIsFinal(Step(h, ops[0]), ops[1..]); }
  }

  /** The events that fire while fewer than 256 wait, in order. */
  function Accepted<E>(h: History<E>, ops: seq<Op<E>>): seq<E>
    decreases |ops|
  {
    if ops == [] then []
    else
      (if ops[0].Fire? && |h.queue| < 256 then [ops[0].event] else [])
      + Accepted(Step(h, ops[0]), ops[1..])
  }

  /** Every accepted event is delivered or still waits, in the order in which it fired. */
  lemma {:induction false} AcceptedInOrder<E>(h: History<E>, ops: seq<Op<E>>)
    ensures Run(h, ops).delivered + Run(h, ops).queue == h.delivered + h.queue + Accepted(h, ops)
    decreases |ops|
  {
    if ops != [] {
      var h' := Step(h, ops[0]);
      AcceptedInOrder(h', ops[1..]);
      var now := if ops[0].Fire? && |h.queue| < 256 then [ops[0].event] else [];
      assert h'.delivered + h'.queue == h.delivered + h.queue + now;
      assert h.delivered + h.queue + now + Accepted(h', ops[1..]) == h.delivered + h.queue + (now + Accepted(h', ops[1..]));
    }
  }

  function Polls<E>(n: nat): (ops: seq<Op<E>>) {
    if n == 0 then [] else [Poll] + Polls(n - 1)
  }

  /** The history once the `k` oldest waiting events have been delivered. */
  function Delivering<E>(h: History<E>, k: nat): History<E>
    requires k <= |h.queue|
  {
    History(h.queue[k..], h.fired, h.delivered + h.queue[..k], h.dropped)
  }

  lemma DeliverOneMore<E>(h: History<E>, k: nat)
    requires 0 < k <= |h.queue|
    ensures Delivering(Step(h, Poll), k - 1) == Delivering(h, k)
  {
    assert h.queue[1..][k - 1..] == h.queue[k..];
    assert [h.queue[0]] + h.queue[1..][..k - 1] == h.queue[..k];
    assert h.delivered + [h.queue[0]] + h.queue[1..][..k - 1] == h.delivered + ([h.queue[0]] + h.queue[1..][..k - 1]);
  }

  /** Polls deliver what waits, oldest first, each event once, and leave the rest. */
  lemma {:induction false} PollsDeliver<E>(h: History<E>, n: nat)
    ensures Run(h, Polls(n)) == Delivering(h, if n < |h.queue| then n else |h.queue|)
    decreases n
  {
    if n > 0 {
      var h' := Step(h, Poll);
      assert Polls<E>(n)[1..] == Polls(n - 1);
      PollsDeliver(h', n - 1);
      if h.queue != [] {
        DeliverOneMore(h, if n < |h.queue| then n else |h.queue|);
      }
    } else {
      assert h.queue[0..] == h.queue && h.delivered + h.queue[..0] == h.delivered;
    }
  }

  class NearcadeQueue<E> {
    var queue: seq<E>
    ghost var history: History<E>

    ghost predicate Valid()
      reads this
    {
      queue == history.queue && Sound(history)
    }

    constructor ()
      ensures Valid() && history == Empty()
    {
      queue, history := [], Empty();
    }

    /** `_event_callback`; `None` is a null event. */
    method EventCallback(ev: Option<E>)
      requires Valid()
      modifies this
      ensures Valid()
      ensures history == if ev.None? then old(history) else Step(old(history), Fire(ev.value))
      ensures queue == if ev.None? || |old(queue)| >= 256 then old(queue) else old(queue) + [ev.value]
    {
      if ev.None? { return; }
      FireSound(history, ev.value);
      if |queue| < CAPACITY { queue := queue + [ev.value]; }
      history := Step(history, Fire(ev.value));
    }

    /** `poll_event`; `None` is the empty Dictionary. */
    method PollEvent() returns (ev: Option<E>)
      requires Valid()
      modifies this
      ensures Valid() && history == Step(old(history), Poll)
      ensures ev == if old(queue) == [] then None else Some(old(queue)[0])
      ensures queue == if old(queue) == [] then [] else old(queue)[1..]
      ensures history.delivered == old(history.delivered) + (if ev.None? then [] else [ev.value])
    {
      if queue == [] { return None; }
      PollSound(history);
      ev := Some(queue[0]);
      queue := queue[1..];
      history := Step(history, Poll);
    }
  }
}
