/**
 * The hierarchical timer of src/timer_object.c. A timer accumulates the
 * ticks of its parent timer (or of the system clock when it has none),
 * scaled, and can be paused and resumed. All tick fields are uint64_t.
 *
 * The state lives in the class `TimerObject`; its methods are specified by
 * the pure step functions on `Clock`, and the properties of running,
 * pausing and resuming are lemmas on those functions.
 */
module TimerObject {
  import opened CInt

  /** A snapshot of a timer's fields (the parent link is not part of it). */
  datatype Clock = Clock(current: nat, delta: nat, bias: nat, scale: real, paused: bool)

  predicate Ticks(x: int) { 0 <= x < TWO_64 }

  ghost predicate ClockValid(c: Clock) {
    Ticks(c.current) && Ticks(c.delta) && Ticks(c.bias)
  }

  /** The C conversion of a double to an integer: truncation toward zero. */
  function Truncate(x: real): (r: int)
    ensures x >= 0.0 ==> 0 <= r && r as real <= x < r as real + 1.0
    ensures x < 0.0 ==> r <= 0 && r as real - 1.0 < x <= r as real
  {
    if x >= 0.0 then x.Floor else -((-x).Floor)
  }

  /**
   * (uint64_t)((parent_ticks - bias_ticks) * scale): the unsigned
   * difference, scaled and truncated back to 64 bits.
   */
  function ScaledDelta(parentTicks: nat, bias: nat, scale: real): (r: nat)
    ensures Ticks(r)
    ensures scale == 1.0 && Ticks(parentTicks) && bias <= parentTicks ==> r == parentTicks - bias
    ensures parentTicks == bias ==> r == 0
    ensures 0.0 <= scale && Ticks(parentTicks) && bias <= parentTicks
            && (parentTicks - bias) as real * scale < TWO_64 as real
            ==> r as real <= (parentTicks - bias) as real * scale < r as real + 1.0
  {
    Wrap64(Truncate(Wrap64(parentTicks - bias) as real * scale))
  }

  /** The timer's state right after timerObjectCreate: `start` is the parent's ticks, or the system clock's. */
  function Created(start: nat): (c: Clock)
    ensures c.current == 0 && c.delta == 0 && c.bias == start
    ensures c.scale == 1.0 && !c.paused
  {
    Clock(0, 0, start, 1.0, false)
  }

  /** timerObjectUpdate, given the parent's (or the system clock's) current ticks. */
  function UpdateStep(c: Clock, parentTicks: nat): (r: Clock)
    requires Ticks(parentTicks)
    ensures c.paused ==> r == c
    ensures !c.paused ==> r.bias == parentTicks && r.scale == c.scale && !r.paused
    ensures !c.paused ==> r.delta == ScaledDelta(parentTicks, c.bias, c.scale)
    ensures !c.paused ==> r.current == Wrap64(c.current + r.delta)
    ensures ClockValid(c) ==> ClockValid(r)
  {
    if c.paused then c
    else
      var delta := ScaledDelta(parentTicks, c.bias, c.scale);
      c.(delta := delta, current := Wrap64(c.current + delta), bias := parentTicks)
  }

  /** timerObjectPause: only `paused` changes. */
  function PauseStep(c: Clock): (r: Clock)
    ensures r.paused
    ensures r.(paused := c.paused) == c
  {
    c.(paused := true)
  }

  /** timerObjectResume: a paused timer restarts from the parent's current ticks; a running one is untouched. */
  function ResumeStep(c: Clock, parentTicks: nat): (r: Clock)
    ensures !r.paused
    ensures !c.paused ==> r == c
    ensures c.paused ==> r == c.(bias := parentTicks, paused := false)
  {
    if c.paused then c.(bias := parentTicks, paused := false) else c
  }

  /** timerObjectSetScale: only `scale` changes. */
  function SetScaleStep(c: Clock, s: real): (r: Clock)
    ensures r.scale == s
    ensures r.(scale := c.scale) == c
  {
    c.(scale := s)
  }

  /** Updates at a series of parent readings. */
  function UpdateAll(c: Clock, readings: seq<nat>): Clock
    requires forall i :: 0 <= i < |readings| ==> Ticks(readings[i])
    decreases |readings|
  {
    if readings == [] then c else UpdateAll(UpdateStep(c, readings[0]), readings[1..])
  }

  /** Readings that never run backwards and start at or after `from`. */
  ghost predicate Monotone(from: nat, readings: seq<nat>) {
    && (forall i :: 0 <= i < |readings| ==> Ticks(readings[i]) && from <= readings[i])
    && (forall i, j :: 0 <= i < j < |readings| ==> readings[i] <= readings[j])
  }

  /** A running timer at scale 1 updated with the parent's unchanged time yields a zero delta the second time. */
  lemma SecondUpdateHasZeroDelta(c: Clock, parentTicks: nat)
    requires ClockValid(c) && Ticks(parentTicks)
    ensures UpdateStep(UpdateStep(c, parentTicks), parentTicks).delta == 0 || c.paused
    ensures !c.paused ==> UpdateStep(UpdateStep(c, parentTicks), parentTicks).current
                          == UpdateStep(c, parentTicks).current
  {
  }

  /** A paused timer ignores any number of updates. */
  lemma {:induction false} PausedIgnoresUpdates(c: Clock, readings: seq<nat>)
    requires c.paused
    requires forall i :: 0 <= i < |readings| ==> Ticks(readings[i])
    ensures UpdateAll(c, readings) == c
    decreases |readings|
  {
    if readings != [] {
      PausedIgnoresUpdates(UpdateStep(c, readings[0]), readings[1..]);
    }
  }

  /**
   * Running at scale 1 without overflow, a timer's ticks advance by exactly
   * the parent time elapsed since its bias, however the updates are spaced.
   */
  lemma {:induction false} UpdatesTelescope(c: Clock, readings: seq<nat>)
    requires ClockValid(c) && !c.paused && c.scale == 1.0
    requires readings != [] && Monotone(c.bias, readings)
    requires c.current + (readings[|readings| - 1] - c.bias) < TWO_64
    ensures UpdateAll(c, readings).current == c.current + (readings[|readings| - 1] - c.bias)
    ensures UpdateAll(c, readings).bias == readings[|readings| - 1]
    ensures !UpdateAll(c, readings).paused && UpdateAll(c, readings).scale == 1.0
    decreases |readings|
  {
    var next := UpdateStep(c, readings[0]);
    assert next.current == c.current + (readings[0] - c.bias) by {
      assert readings[0] <= readings[|readings| - 1];
    }
    if |readings| > 1 {
      var rest := readings[1..];
      assert rest[|rest| - 1] == readings[|readings| - 1];
      assert Monotone(next.bias, rest) by {
        forall i | 0 <= i < |rest| ensures Ticks(rest[i]) && next.bias <= rest[i] {
          assert rest[i] == readings[i + 1];
        }
        forall i, j | 0 <= i < j < |rest| ensures rest[i] <= rest[j] {
          assert rest[i] == readings[i + 1] && rest[j] == readings[j + 1];
        }
      }
      UpdatesTelescope(next, rest);
    }
  }

  /**
   * Time spent paused is not counted: pause, any updates, resume at `resumeAt`,
   * update at `now`, and the timer has gained exactly now - resumeAt ticks.
   */
  lemma PauseExcludesElapsedTime(c: Clock, whilePaused: seq<nat>, resumeAt: nat, now: nat)
    requires ClockValid(c) && c.scale == 1.0
    requires forall i :: 0 <= i < |whilePaused| ==> Ticks(whilePaused[i])
    requires Ticks(now) && resumeAt <= now && c.current + (now - resumeAt) < TWO_64
    ensures UpdateStep(ResumeStep(UpdateAll(PauseStep(c), whilePaused), resumeAt), now).current
            == c.current + (now - resumeAt)
  {
    PausedIgnoresUpdates(PauseStep(c), whilePaused);
  }

  /**
   * After setScale(s) on a running timer, the next update gains the parent
   * time since the bias multiplied by s, truncated toward zero, while that
   * product and the new total stay below 2^64.
   */
  lemma ScaledUpdateGain(c: Clock, s: real, parentTicks: nat)
    requires ClockValid(c) && !c.paused && 0.0 <= s
    requires Ticks(parentTicks) && c.bias <= parentTicks
    requires (parentTicks - c.bias) as real * s < TWO_64 as real
    requires c.current as real + (parentTicks - c.bias) as real * s < TWO_64 as real
    ensures var r := UpdateStep(SetScaleStep(c, s), parentTicks);
            && r.scale == s && r.bias == parentTicks
            && r.delta as real <= (parentTicks - c.bias) as real * s < r.delta as real + 1.0
            && r.current == c.current + r.delta
  {
    var d := ScaledDelta(parentTicks, c.bias, s);
    assert d as real <= (parentTicks - c.bias) as real * s;
    assert c.current + d < TWO_64 by {
      assert (c.current + d) as real == c.current as real + d as real;
    }
  }

  /** At scale 0 a running timer stands still: an update gains nothing, whatever the parent did. */
  lemma ZeroScaleFreezes(c: Clock, parentTicks: nat)
    requires ClockValid(c) && !c.paused && Ticks(parentTicks) && c.bias <= parentTicks
    ensures UpdateStep(SetScaleStep(c, 0.0), parentTicks).delta == 0
    ensures UpdateStep(SetScaleStep(c, 0.0), parentTicks).current == c.current
  {
    ScaledUpdateGain(c, 0.0, parentTicks);
  }

  class TimerObject {
    var current: nat
    var delta: nat
    var bias: nat
    var scale: real
    var paused: bool
    const parent: TimerObject?

    ghost function State(): Clock
      reads this
    {
      Clock(current, delta, bias, scale, paused)
    }

    ghost predicate Valid()
      reads this
    {
      ClockValid(State())
    }

    /** The ticks this timer follows: its parent's, or the system clock's reading `now`. */
    function ParentTicks(now: nat): (r: nat)
      reads this, parent
      ensures parent == null ==> r == now
      ensures parent != null ==> r == parent.current
    {
      if parent != null then parent.current else now
    }

    /** timerObjectCreate; `now` is the system clock's reading, used when there is no parent. */
    constructor Create(parent: TimerObject?, now: nat)
      requires parent != null ==> Ticks(parent.current)
      requires parent == null ==> Ticks(now)
      ensures Valid() && this.parent == parent
      ensures State() == Created(if parent != null then parent.current else now)
    {
      this.parent := parent;
      current := 0;
      delta := 0;
      bias := if parent != null then parent.current else now;
      scale := 1.0;
      paused := false;
    }

    /** timerObjectUpdate. */
    method Update(now: nat)
      requires Valid() && Ticks(ParentTicks(now))
      modifies this
      ensures Valid()
      ensures State() == UpdateStep(old(State()), old(ParentTicks(now)))
    {
      if !paused {
        var parentTicks := if parent != null then parent.current else now;
        delta := ScaledDelta(parentTicks, bias, scale);
        current := Wrap64(current + delta);
        bias := parentTicks;
      }
    }

    /** timerObjectSetScale. */
    method SetScale(s: real)
      modifies this
      ensures State() == SetScaleStep(old(State()), s)
    {
      scale := s;
    }

    /** timerObjectPause. */
    method Pause()
      modifies this
      ensures State() == PauseStep(old(State()))
    {
      paused := true;
    }

    /** timerObjectResume. */
    method Resume(now: nat)
      requires Valid() && Ticks(ParentTicks(now))
      modifies this
      ensures Valid()
      ensures State() == ResumeStep(old(State()), old(ParentTicks(now)))
    {
      if paused {
        bias := if parent != null then parent.current else now;
        paused := false;
      }
    }
  }
}
