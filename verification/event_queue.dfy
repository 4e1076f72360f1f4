/**
 * The firmware's bounded circular event queue (`evtQueue`, `evtHead`,
 * `evtTail`, `evtPush`, `evtPop`). One slot is always left empty so that a
 * full queue (`head + 1 == tail` modulo the capacity) can be told apart from an
 * empty one (`head == tail`); at most `Capacity - 1` events are pending.
 */
module EventQueue {
  import opened Events

  /** `EVENT_QUEUE_SIZE`: the number of slots in the ring. */
  const Capacity: int := 32

  /**
   * The pending events of a ring whose slots are `s`, read from `tail`
   * (oldest) up to, but not including, `head`.
   */
  function Ring<T>(s: seq<T>, tail: int, head: int): seq<T>
    requires 0 <= tail < |s| && 0 <= head < |s|
  {
    if tail <= head then s[tail..head] else s[tail..] + s[..head]
  }

  // Euclidean remainder facts for a symbolic modulus.
  lemma ModBelow(a: int, n: int)
    requires 0 <= a < n
    ensures a % n == a
  {
  }

  lemma ModNegative(a: int, n: int)
    requires 0 < n && -n <= a < 0
    ensures a % n == a + n
  {
  }

  lemma ModSelf(n: int)
    requires 0 < n
    ensures n % n == 0
  {
  }

  /** The number of pending events is `(head - tail) mod n`, hence below `n`. */
  lemma RingLength<T>(s: seq<T>, tail: int, head: int)
    requires 0 <= tail < |s| && 0 <= head < |s|
    ensures |Ring(s, tail, head)| == (head - tail) % |s|
    ensures |Ring(s, tail, head)| < |s|
  {
    if tail <= head {
      ModBelow(head - tail, |s|);
    } else {
      ModNegative(head - tail, |s|);
    }
  }

  /** The ring is empty exactly when `head == tail`. */
  lemma RingEmpty<T>(s: seq<T>, tail: int, head: int)
    requires 0 <= tail < |s| && 0 <= head < |s|
    ensures Ring(s, tail, head) == [] <==> tail == head
  {
    RingLength(s, tail, head);
  }

  /** The ring holds `n - 1` events exactly when `(head + 1) mod n == tail`. */
  lemma RingFull<T>(s: seq<T>, tail: int, head: int)
    requires 0 <= tail < |s| && 0 <= head < |s|
    ensures |Ring(s, tail, head)| == |s| - 1 <==> (head + 1) % |s| == tail
  {
    RingLength(s, tail, head);
    if head + 1 < |s| {
      ModBelow(head + 1, |s|);
    } else {
      ModSelf(|s|);
    }
  }

  /**
   * Writing `x` at `head` and advancing `head` appends `x` to the pending
   * events, provided the ring was not full.
   */
  lemma RingPush<T>(s: seq<T>, tail: int, head: int, x: T)
    requires 0 <= tail < |s| && 0 <= head < |s|
    requires (head + 1) % |s| != tail
    ensures Ring(s[head := x], tail, (head + 1) % |s|) == Ring(s, tail, head) + [x]
  {
    var s' := s[head := x];
    if head + 1 < |s| {
      ModBelow(head + 1, |s|);
      if tail <= head {
        assert s'[tail..head + 1] == s[tail..head] + [x];
      } else {
        assert s'[tail..] == s[tail..];
        assert s'[..head + 1] == s[..head] + [x];
      }
    } else {
      ModSelf(|s|);
      assert 0 < tail <= head;
      assert s'[tail..] + s'[..0] == s[tail..head] + [x];
    }
  }

  /**
   * On a non-empty ring the slot at `tail` holds the oldest event, and
   * advancing `tail` removes exactly that event.
   */
  lemma RingPop<T>(s: seq<T>, tail: int, head: int)
    requires 0 <= tail < |s| && 0 <= head < |s|
    requires tail != head
    ensures Ring(s, tail, head) != [] && Ring(s, tail, head)[0] == s[tail]
    ensures Ring(s, (tail + 1) % |s|, head) == Ring(s, tail, head)[1..]
  {
    if tail + 1 < |s| {
      ModBelow(tail + 1, |s|);
      if tail > head {
        assert (s[tail..] + s[..head])[1..] == s[tail + 1..] + s[..head];
      }
    } else {
      ModSelf(|s|);
      assert head < tail;
      assert (s[tail..] + s[..head])[1..] == s[..head];
    }
  }

  /** The ring buffer: the slots array and the two indices the firmware keeps as globals. */
  class Queue {
    /** The pending events, oldest first (the queue's abstract value). */
    ghost var Contents: seq<Event>
    /** `evtQueue`: the slots themselves. */
    const slots: array<Event>
    /** `evtHead`: where the next event is written. */
    var head: int
    /** `evtTail`: where the oldest pending event is read. */
    var tail: int

    ghost predicate Valid()
      reads this, slots
    {
      && slots.Length == Capacity
      && 0 <= head < Capacity && 0 <= tail < Capacity
      && Contents == Ring(slots[..], tail, head)
    }

    /** The zero-initialised globals: both indices 0, nothing pending. */
    constructor ()
      ensures Valid() && fresh(slots)
      ensures head == 0 && tail == 0 && Contents == []
    {
      slots := new Event[Capacity];
      head, tail := 0, 0;
      Contents := [];
    }

    /**
     * `evtPush`: refuses (and changes nothing) when the queue is full;
     * otherwise writes `e` into slot `head` only and advances `head`.
     */
    method Push(e: Event) returns (ok: bool)
      requires Valid()
      modifies this, slots
      ensures Valid()
      ensures ok <==> (old(head) + 1) % Capacity != old(tail)
      ensures ok <==> |old(Contents)| < Capacity - 1
      ensures ok ==> head == (old(head) + 1) % Capacity && slots[..] == old(slots[..])[old(head) := e]
      ensures !ok ==> head == old(head) && slots[..] == old(slots[..])
      ensures tail == old(tail)
      ensures Contents == if ok then old(Contents) + [e] else old(Contents)
    {
      RingFull(slots[..], tail, head);
      var next := (head + 1) % Capacity;
      if next == tail {
        return false;
      }
      RingPush(slots[..], tail, head, e);
      slots[head] := e;
      head := next;
      Contents := Contents + [e];
      return true;
    }

    /**
     * `evtPop`: reports failure (and changes nothing) when the queue is
     * empty, leaving the caller's `prev` in place; otherwise yields the
     * oldest event and advances `tail`.
     */
    method Pop(prev: Event) returns (ok: bool, out: Event)
      requires Valid()
      modifies this
      ensures Valid()
      ensures ok <==> old(tail) != old(head)
      ensures ok <==> old(Contents) != []
      ensures ok ==> out == slots[old(tail)] == old(Contents)[0] && tail == (old(tail) + 1) % Capacity
      ensures !ok ==> out == prev && tail == old(tail)
      ensures head == old(head)
      ensures Contents == if ok then old(Contents)[1..] else old(Contents)
    {
      RingEmpty(slots[..], tail, head);
      if tail == head {
        return false, prev;
      }
      RingPop(slots[..], tail, head);
      out := slots[tail];
      tail := (tail + 1) % Capacity;
      Contents := Contents[1..];
      ok := true;
    }
  }

  /**
   * Fills an empty queue: 31 pushes succeed, the 32nd is refused, and after
   * one pop the next push succeeds again.
   */
  method CapacityScenario(e: Event) returns (accepted: nat, refused: bool, acceptedAfterPop: bool)
    ensures accepted == Capacity - 1 && refused && acceptedAfterPop
  {
    var q := new Queue();
    accepted := 0;
    var ok := true;
    while accepted < Capacity - 1
      invariant q.Valid() && 0 <= accepted <= Capacity - 1
      invariant |q.Contents| == accepted
    {
      ok := q.Push(e);
      accepted := accepted + 1;
    }
    ok := q.Push(e);
    refused := !ok;
    var _, _ := q.Pop(e);
    acceptedAfterPop := q.Push(e);
  }

  /**
   * First in, first out: pushing up to `Capacity - 1` events into an empty
   * queue and then popping until it reports empty yields them in push order.
   */
  method FifoRoundTrip(events: seq<Event>) returns (popped: seq<Event>)
    requires |events| < Capacity
    ensures popped == events
  {
    var q := new Queue();
    var i := 0;
    while i < |events|
      invariant q.Valid() && 0 <= i <= |events|
      invariant q.Contents == events[..i]
    {
      var _ := q.Push(events[i]);
      assert events[..i + 1] == events[..i] + [events[i]];
      i := i + 1;
    }
    popped := [];
    var ok := true;
    var ev := NoEvent;
    while ok
      invariant q.Valid()
      invariant popped + q.Contents == events
      invariant !ok ==> q.Contents == []
      decreases |q.Contents|, ok
    {
      ok, ev := q.Pop(ev);
      if ok {
        popped := popped + [ev];
      }
    }
  }
}
