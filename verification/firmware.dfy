/**
 * One pass of the firmware's `loop()`: sample the keypad, the encoder position
 * and the button edge, push the resulting events in that order, then dispatch
 * at most `MaxPerTick` events from the queue, stopping early when it is empty.
 * The peripheral readings are the tick's inputs; the display is the sequence
 * of labels shown so far.
 */
module Firmware {
  import opened Wrappers
  import opened Events
  import opened EventQueue

  /** The per-tick dispatch cap (`processed < 4`). */
  const MaxPerTick: int := 4

  function Min(a: int, b: int): int
  {
    if a <= b then a else b
  }

  /** A keypad sample other than "no key" becomes one `Key` event carrying that character. */
  function KeyEvents(key: Option<char>): (es: seq<Event>)
    ensures |es| <= 1 && NoEvent !in es
    ensures forall c :: Key(c) in es <==> key == Some(c)
  {
    match key
    case Some(c) => [Key(c)]
    case None => []
  }

  /** A changed encoder position becomes one direction event; an unchanged one, none. */
  function EncoderEvents(lastEncPos: int, pos: int): (es: seq<Event>)
    ensures |es| == (if pos != lastEncPos then 1 else 0) && NoEvent !in es
    ensures EncRight in es <==> pos > lastEncPos
    ensures EncLeft in es <==> pos < lastEncPos
  {
    if pos == lastEncPos then []
    else if pos > lastEncPos then [EncRight]
    else [EncLeft]
  }

  /** A falling button edge becomes one `EncBtn` event. */
  function ButtonEvents(fell: bool): (es: seq<Event>)
    ensures |es| <= 1 && NoEvent !in es
    ensures EncBtn in es <==> fell
  {
    if fell then [EncBtn] else []
  }

  /** The events one tick tries to push, in push order: key, encoder, button. */
  function Sampled(key: Option<char>, lastEncPos: int, pos: int, fell: bool): (es: seq<Event>)
    ensures |es| <= 3 && NoEvent !in es
  {
    KeyEvents(key) + EncoderEvents(lastEncPos, pos) + ButtonEvents(fell)
  }

  /**
   * What one tick samples: a key event iff a key was reported, exactly one
   * direction event iff the position moved (`EncRight` iff it grew), a button
   * event iff the debouncer saw a fall, in that order and nothing else.
   */
  lemma SampledEvents(key: Option<char>, lastEncPos: int, pos: int, fell: bool)
    ensures var es := Sampled(key, lastEncPos, pos, fell);
      && |es| == |KeyEvents(key)| + (if pos != lastEncPos then 1 else 0) + (if fell then 1 else 0)
      && (forall c :: Key(c) in es <==> key == Some(c))
      && (EncRight in es <==> pos > lastEncPos)
      && (EncLeft in es <==> pos < lastEncPos)
      && (EncBtn in es <==> fell)
      && NoEvent !in es
      && (key.Some? ==> es[0] == Key(key.value))
      && (fell ==> es[|es| - 1] == EncBtn)
  {
  }

  /** The queue contents after one push attempt: `e` is appended unless the queue is full. */
  function Enqueue(q: seq<Event>, e: Event): seq<Event>
  {
    if |q| < Capacity - 1 then q + [e] else q
  }

  /** The queue contents after pushing `es` one after another, each dropped when full. */
  function PushAll(q: seq<Event>, es: seq<Event>): seq<Event>
  {
    if es == [] then q else Enqueue(PushAll(q, es[..|es| - 1]), es[|es| - 1])
  }

  /** Pushing one event is one push attempt; pushing none changes nothing. */
  lemma PushAllOne(q: seq<Event>, e: Event)
    ensures PushAll(q, [e]) == Enqueue(q, e) && PushAll(q, []) == q
  {
    assert [e][..0] == [];
  }

  /** Pushing two batches in turn is pushing their concatenation. */
  lemma {:induction false} PushAllAppend(q: seq<Event>, a: seq<Event>, b: seq<Event>)
    ensures PushAll(q, a + b) == PushAll(PushAll(q, a), b)
    decreases |b|
  {
    if b == [] {
      assert a + b == a;
    } else {
      assert (a + b)[..|a + b| - 1] == a + b[..|b| - 1];
      PushAllAppend(q, a, b[..|b| - 1]);
    }
  }

  /**
   * Drop-on-full: pushing `es` keeps every pending event in place and appends
   * the longest prefix of `es` that fits into `Capacity - 1` slots; the rest
   * is lost.
   */
  lemma {:induction false} PushAllKeepsPrefix(q: seq<Event>, es: seq<Event>)
    requires |q| <= Capacity - 1
    ensures PushAll(q, es) == q + es[..Min(|es|, Capacity - 1 - |q|)]
    ensures |PushAll(q, es)| <= Capacity - 1
  {
    if es != [] {
      var init := es[..|es| - 1];
      PushAllKeepsPrefix(q, init);
      var k := Min(|init|, Capacity - 1 - |q|);
      if |q| + k < Capacity - 1 {
        assert init[..k] + [es[|es| - 1]] == es[..k + 1];
      } else {
        assert init[..k] == es[..Min(|es|, Capacity - 1 - |q|)];
      }
    }
  }

  /** How many events one tick dispatches from `pending`: the cap, or fewer only when the queue runs empty. */
  function Batch(pending: seq<Event>): (n: nat)
    ensures n <= MaxPerTick && n <= |pending|
    ensures n < MaxPerTick ==> n == |pending|
  {
    Min(MaxPerTick, |pending|)
  }

  /**
   * Dispatching the oldest of the events still pending after `k` dispatches
   * handles event `k` and extends the display by its label.
   */
  lemma DispatchStep(shown0: seq<string>, shown: seq<string>, pending: seq<Event>, k: nat)
    requires k < |pending| && shown == shown0 + Labels(pending[..k])
    ensures pending[k..] != [] && pending[k..][0] == pending[k] && pending[k..][1..] == pending[k + 1..]
    ensures shown + Shown(pending[k]) == shown0 + Labels(pending[..k + 1])
  {
    LabelsStep(pending, k);
  }

  /** The loop's state: the event queue, the encoder snapshot and the display history. */
  class Controller {
    /** The event queue (`evtQueue`, `evtHead`, `evtTail`). */
    const queue: Queue
    /** `lastEncPos`: the encoder position seen at the previous tick. */
    var lastEncPos: int
    /** Every label written to the display so far, oldest first. */
    var shown: seq<string>

    /** The queue is a well-formed ring, and the `None` sentinel is never queued. */
    ghost predicate Valid()
      reads this, queue, queue.slots
    {
      queue.Valid() && NoEvent !in queue.Contents
    }

    /** `setup()`: empty queue, and `lastEncPos` snapshots the encoder's current position. */
    constructor (initialPos: int)
      ensures Valid() && fresh(queue) && fresh(queue.slots)
      ensures queue.Contents == [] && lastEncPos == initialPos && shown == []
    {
      queue := new Queue();
      lastEncPos := initialPos;
      shown := [];
    }

    /** `processEvent`: shows the event's label, if it has one, and touches nothing else. */
    method ProcessEvent(e: Event)
      modifies this`shown
      ensures shown == old(shown) + Shown(e)
    {
      match Label(e)
      case Some(s) => shown := shown + [s];
      case None =>
    }

    /**
     * Steps 1-3 of `loop()`: push the keypad, encoder and button events, in
     * that order, each dropped if the queue is full; `lastEncPos` ends equal
     * to `pos`. Nothing is dispatched.
     */
    method SampleInputs(key: Option<char>, pos: int, fell: bool)
      requires Valid()
      modifies this`lastEncPos, queue, queue.slots
      ensures Valid() && shown == old(shown)
      ensures lastEncPos == pos
      ensures queue.Contents == PushAll(old(queue.Contents), Sampled(key, old(lastEncPos), pos, fell))
    {
      ghost var q0 := queue.Contents;
      var keyEvents := KeyEvents(key);
      var encEvents := EncoderEvents(lastEncPos, pos);
      Offer(keyEvents);    // 1) keypad
      Offer(encEvents);    // 2) encoder
      lastEncPos := pos;
      PushAllAppend(q0, keyEvents, encEvents);
      Offer(ButtonEvents(fell));    // 3) button
      PushAllAppend(q0, keyEvents + encEvents, ButtonEvents(fell));
    }

    /** Pushes the at most one event a single input produced this tick; a full queue drops it. */
    method Offer(es: seq<Event>)
      requires Valid() && |es| <= 1 && NoEvent !in es
      modifies queue, queue.slots
      ensures Valid()
      ensures queue.Contents == PushAll(old(queue.Contents), es)
    {
      ghost var q := queue.Contents;
      PushAllOne(q, NoEvent);
      if |es| == 1 {
        var _ := queue.Push(es[0]);
        PushAllOne(q, es[0]);
        assert es == [es[0]];
      }
    }

    /**
     * Step 4 of `loop()`: pop and process events until `MaxPerTick` have been
     * processed or the queue is empty. The oldest `Batch` events are shown in
     * order; the rest stay queued in order.
     */
    method Dispatch()
      requires Valid()
      modifies this`shown, queue
      ensures Valid() && lastEncPos == old(lastEncPos)
      ensures var pending := old(queue.Contents);
        && queue.Contents == pending[Batch(pending)..]
        && shown == old(shown) + Labels(pending[..Batch(pending)])
        && |shown| == |old(shown)| + Batch(pending)
    {
      ghost var pending := queue.Contents;
      ghost var shown0 := shown;
      var ev := NoEvent;
      var processed := 0;
      var popped := true;
      while processed < MaxPerTick && popped
        invariant queue.Valid() && 0 <= processed <= MaxPerTick && processed <= |pending|
        invariant queue.Contents == pending[processed..]
        invariant shown == shown0 + Labels(pending[..processed])
        invariant !popped ==> processed == |pending|
        decreases MaxPerTick - processed, popped
      {
        popped, ev := queue.Pop(ev);
        if popped {
          DispatchStep(shown0, shown, pending, processed);
          ProcessEvent(ev);
          processed := processed + 1;
        }
      }
      assert processed == Batch(pending);
      // Every dispatched event is a real one, so each adds exactly one label.
      ghost var done := pending[..processed];
      assert forall i :: 0 <= i < |done| ==> done[i] == pending[i] && pending[i] in pending;
      LabelsOneEach(done);
      assert forall e :: e in queue.Contents ==> e in pending;
    }

    /**
     * One `loop()` pass. `key` is the keypad sample (`None` for no key),
     * `pos` the encoder reading, `fell` the debouncer's falling-edge report.
     * The sampled events are pushed (each dropped if the queue is full), then
     * the oldest `Batch` of them are dispatched in order and the rest stay
     * queued in order; `lastEncPos` ends equal to `pos`.
     */
    method Tick(key: Option<char>, pos: int, fell: bool)
      requires Valid()
      modifies this, queue, queue.slots
      ensures Valid()
      ensures lastEncPos == pos
      ensures var pending := PushAll(old(queue.Contents), Sampled(key, old(lastEncPos), pos, fell));
        && queue.Contents == pending[Batch(pending)..]
        && shown == old(shown) + Labels(pending[..Batch(pending)])
        && |shown| == |old(shown)| + Batch(pending)
    {
      SampleInputs(key, pos, fell);
      Dispatch();
    }
  }

  /**
   * The tick specification on an empty queue with key '5' pressed, the
   * encoder one step clockwise and the button pressed: all three events are
   * dispatched, labelled "Key: 5", "Enc: Right", "Enc: Btn" in that order,
   * and nothing is left pending.
   */
  lemma KeyRightButtonTick()
    ensures var pending := PushAll([], Sampled(Some('5'), 0, 1, true));
      && Batch(pending) == |pending| == 3
      && Labels(pending[..Batch(pending)]) == ["Key: 5", "Enc: Right", "Enc: Btn"]
  {
    var es := Sampled(Some('5'), 0, 1, true);
    assert KeyEvents(Some('5')) == [Key('5')];
    assert EncoderEvents(0, 1) == [EncRight] && ButtonEvents(true) == [EncBtn];
    assert es == [Key('5'), EncRight, EncBtn];
    PushAllKeepsPrefix([], es);
    assert PushAll([], es) == es;
    assert es[..3] == es;
    LabelsOneEach(es);
    assert "Key: " + ['5'] == "Key: 5";
  }

  /**
   * The tick specification with five keys pending and no new input: the
   * first four are dispatched in push order and the fifth stays queued.
   */
  lemma BacklogTick(backlog: seq<Event>)
    requires backlog == [Key('1'), Key('2'), Key('3'), Key('4'), Key('5')]
    ensures var pending := PushAll(backlog, Sampled(None, 7, 7, false));
      && Batch(pending) == 4
      && pending[Batch(pending)..] == [Key('5')]
      && Labels(pending[..Batch(pending)]) == ["Key: 1", "Key: 2", "Key: 3", "Key: 4"]
  {
    assert Sampled(None, 7, 7, false) == [];
    var done := backlog[..4];
    assert done == [Key('1'), Key('2'), Key('3'), Key('4')];
    LabelsOneEach(done);
    assert "Key: " + ['1'] == "Key: 1" && "Key: " + ['2'] == "Key: 2";
    assert "Key: " + ['3'] == "Key: 3" && "Key: " + ['4'] == "Key: 4";
  }

  /** Runs the first end-to-end scenario on a freshly set-up controller. */
  method KeyRightButtonScenario() returns (shown: seq<string>, drained: bool)
    ensures shown == ["Key: 5", "Enc: Right", "Enc: Btn"] && drained
  {
    var c := new Controller(0);
    c.Tick(Some('5'), 1, true);
    KeyRightButtonTick();
    shown := c.shown;
    RingEmpty(c.queue.slots[..], c.queue.tail, c.queue.head);
    drained := c.queue.head == c.queue.tail;
  }
}
