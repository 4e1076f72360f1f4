/**
 * The polling quadrature decoder that the single-file sketch defines in place
 * of the interrupt-driven Encoder library. Each `read()` samples the two phase
 * pins as a 2-bit state `(A << 1) | B`; a change along the clockwise cycle
 * 00 -> 01 -> 11 -> 10 -> 00 counts one step up, any other change (including
 * an impossible diagonal jump such as 00 -> 11) counts one step down.
 */
module Quadrature {

  /** A 2-bit phase-pin sample. */
  type PinState = s: int | 0 <= s < 4

  /** `(digitalRead(a) << 1) | digitalRead(b)`, with a high pin read as 1. */
  function Sample(a: bool, b: bool): (s: PinState)
    ensures (s / 2 == 1) == a && (s % 2 == 1) == b
  {
    (if a then 2 else 0) + (if b then 1 else 0)
  }

  /** The transitions the decoder counts as one clockwise step. */
  predicate Clockwise(last: PinState, s: PinState)
    ensures Clockwise(last, s) ==> s != last
  {
    (last == 0 && s == 1) || (last == 1 && s == 3) || (last == 3 && s == 2) || (last == 2 && s == 0)
  }

  /** The next state along the clockwise Gray-code cycle 0, 1, 3, 2. */
  function CwNext(s: PinState): PinState
  {
    match s
    case 0 => 1
    case 1 => 3
    case 3 => 2
    case 2 => 0
  }

  /** The clockwise transitions are exactly the steps along the Gray-code cycle. */
  lemma ClockwiseIsCycleStep(last: PinState, s: PinState)
    ensures Clockwise(last, s) <==> s == CwNext(last)
  {
  }

  /** The change one `read()` applies to the position when the pins move from `last` to `s`. */
  function Delta(last: PinState, s: PinState): (d: int)
    ensures d == 0 <==> s == last
    ensures d == 1 <==> s == CwNext(last)
    ensures d == -1 <==> s != last && s != CwNext(last)
  {
    if s == last then 0 else if Clockwise(last, s) then 1 else -1
  }

  /** The position change over a run of samples, starting from pin state `last`. */
  function Travel(last: PinState, samples: seq<PinState>): int
    decreases |samples|
  {
    if samples == [] then 0 else Delta(last, samples[0]) + Travel(samples[0], samples[1..])
  }

  /** `samples` walks the clockwise cycle one step per sample, starting after `last`. */
  ghost predicate ClockwiseWalk(last: PinState, samples: seq<PinState>)
  {
    var trail := [last] + samples;
    forall i :: 0 <= i < |samples| ==> trail[i + 1] == CwNext(trail[i])
  }

  /** `samples` walks the cycle backwards one step per sample, starting after `last`. */
  ghost predicate CounterClockwiseWalk(last: PinState, samples: seq<PinState>)
  {
    var trail := [last] + samples;
    forall i :: 0 <= i < |samples| ==> CwNext(trail[i + 1]) == trail[i]
  }

  /** Turning clockwise by n steps raises the position by exactly n. */
  lemma {:induction false} ClockwiseTravel(last: PinState, samples: seq<PinState>)
    requires ClockwiseWalk(last, samples)
    ensures Travel(last, samples) == |samples|
    decreases |samples|
  {
    if samples != [] {
      var trail := [last] + samples;
      assert [samples[0]] + samples[1..] == trail[1..];
      assert trail[1] == CwNext(trail[0]);
      ClockwiseTravel(samples[0], samples[1..]);
    }
  }

  /** Turning counter-clockwise by n steps lowers the position by exactly n. */
  lemma {:induction false} CounterClockwiseTravel(last: PinState, samples: seq<PinState>)
    requires CounterClockwiseWalk(last, samples)
    ensures Travel(last, samples) == -|samples|
    decreases |samples|
  {
    if samples != [] {
      var trail := [last] + samples;
      assert [samples[0]] + samples[1..] == trail[1..];
      assert CwNext(trail[1]) == trail[0];
      assert Delta(last, samples[0]) == -1;
      CounterClockwiseTravel(samples[0], samples[1..]);
    }
  }

  /** The decoder object: the accumulated position and the last pin sample. */
  class Encoder {
    /** `pos`: net clockwise steps since construction. */
    var pos: int
    /** `last`: the pin state seen at the previous read. */
    var last: PinState

    /** Starts at position 0 with `last` taken from the current pin levels. */
    constructor (a: bool, b: bool)
      ensures pos == 0 && last == Sample(a, b)
    {
      pos := 0;
      last := Sample(a, b);
    }

    /**
     * `read()`: an unchanged sample leaves everything as it was; a change
     * moves `pos` by one step in the decoded direction and records the sample.
     * Returns the (new) position.
     */
    method Read(a: bool, b: bool) returns (p: int)
      modifies this
      ensures last == Sample(a, b)
      ensures pos == old(pos) + Delta(old(last), Sample(a, b))
      ensures Sample(a, b) == old(last) ==> pos == old(pos)
      ensures Clockwise(old(last), Sample(a, b)) ==> pos == old(pos) + 1
      ensures Sample(a, b) != old(last) && !Clockwise(old(last), Sample(a, b)) ==> pos == old(pos) - 1
      ensures p == pos
    {
      var s := Sample(a, b);
      if s != last {
        if Clockwise(last, s) {
          pos := pos + 1;
        } else {
          pos := pos - 1;
        }
        last := s;
      }
      return pos;
    }
  }
}
