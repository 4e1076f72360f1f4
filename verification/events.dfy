/**
 * The firmware's input events and their dispatch (`processEvent`): each event
 * becomes one short label written to the display, except the `None` sentinel,
 * which produces no output.
 */
module Events {
  import opened Wrappers

  /**
   * One input event. `NoEvent` is the `EventType::None` sentinel; a `Key`
   * carries the keymap character; the encoder and button events have no payload.
   */
  datatype Event = NoEvent | Key(key: char) | EncLeft | EncRight | EncBtn

  /** The text `processEvent` hands to the display for `e`, if any. */
  function Label(e: Event): (l: Option<string>)
    ensures l.None? <==> e == NoEvent
  {
    match e
    case NoEvent => None
    case Key(c) => Some("Key: " + [c])
    case EncLeft => Some("Enc: Left")
    case EncRight => Some("Enc: Right")
    case EncBtn => Some("Enc: Btn")
  }

  /** Reads a display label back into the event that produced it. */
  function EventOfLabel(s: string): Event
  {
    if |s| == 6 && s[..5] == "Key: " then Key(s[5])
    else if s == "Enc: Left" then EncLeft
    else if s == "Enc: Right" then EncRight
    else if s == "Enc: Btn" then EncBtn
    else NoEvent
  }

  /**
   * Only the sentinel is silent, and every label names its event uniquely:
   * reading the label back gives the event that was dispatched.
   */
  lemma LabelRoundTrip(e: Event)
    ensures Label(e).None? <==> e == NoEvent
    ensures Label(e).Some? ==> EventOfLabel(Label(e).value) == e
  {
    match e
    case Key(c) =>
      assert ("Key: " + [c])[..5] == "Key: ";
      assert ("Key: " + [c])[5] == c;
    case _ =>
  }

  /** Two events with the same label are the same event. */
  lemma LabelInjective(e1: Event, e2: Event)
    requires Label(e1).Some? && Label(e1) == Label(e2)
    ensures e1 == e2
  {
    LabelRoundTrip(e1);
    LabelRoundTrip(e2);
  }

  /** What dispatching `e` adds to the display: its label, or nothing. */
  function Shown(e: Event): (out: seq<string>)
    ensures |out| <= 1
  {
    match Label(e)
    case Some(s) => [s]
    case None => []
  }

  /** The labels shown, in order, when `evs` are dispatched one after another. */
  function Labels(evs: seq<Event>): (out: seq<string>)
    ensures |out| <= |evs|
  {
    if evs == [] then [] else Labels(evs[..|evs| - 1]) + Shown(evs[|evs| - 1])
  }

  /** Dispatching one more event shows that event's label after the earlier ones. */
  lemma LabelsStep(evs: seq<Event>, i: int)
    requires 0 <= i < |evs|
    ensures Labels(evs[..i + 1]) == Labels(evs[..i]) + Shown(evs[i])
  {
    assert evs[..i + 1][..i] == evs[..i];
  }

  /** Dispatching two batches in turn shows the first batch's labels, then the second's. */
  lemma {:induction false} LabelsAppend(a: seq<Event>, b: seq<Event>)
    ensures Labels(a + b) == Labels(a) + Labels(b)
    decreases |b|
  {
    if b == [] {
      assert a + b == a;
    } else {
      var b' := b[..|b| - 1];
      assert (a + b)[..|a + b| - 1] == a + b';
      LabelsAppend(a, b');
    }
  }

  /**
   * When no sentinel is dispatched, every event shows exactly one label and
   * the i-th label shown is the i-th event's.
   */
  lemma {:induction false} LabelsOneEach(evs: seq<Event>)
    requires forall i :: 0 <= i < |evs| ==> evs[i] != NoEvent
    ensures |Labels(evs)| == |evs|
    ensures forall i :: 0 <= i < |evs| ==> Label(evs[i]) == Some(Labels(evs)[i])
  {
    if evs != [] {
      var init := evs[..|evs| - 1];
      LabelsOneEach(init);
      LabelRoundTrip(evs[|evs| - 1]);
    }
  }
}
