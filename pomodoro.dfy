// The Pomodoro timer: work phases and breaks counted down a second at a
// time, a long break after every `cyclesBeforeLong` work phases.

module Pomodoro {
  import opened Clock

  datatype Phase = Work | Short | Long

  /** `nextCycle % cyclesBeforeLong === 0`: JavaScript's remainder, so a count of 0
      (a NaN remainder) never gives a long break. */
  predicate LongBreakDue(nextCycle: int, cyclesBeforeLong: int)
  {
    cyclesBeforeLong != 0 && JsRem(nextCycle, cyclesBeforeLong) == 0
  }

  /** The phase and cycle after the phase-advance effect fires in (phase, cycle). */
  function AdvancePhase(phase: Phase, cycle: int, cyclesBeforeLong: int): (r: (Phase, int))
    ensures phase == Work ==> r.1 == cycle + 1 && r.0 != Work
    ensures phase == Work ==> (r.0 == Long <==> LongBreakDue(cycle + 1, cyclesBeforeLong))
    ensures phase != Work ==> r == (Work, cycle)
  {
    if phase == Work then
      (if LongBreakDue(cycle + 1, cyclesBeforeLong) then Long else Short, cycle + 1)
    else (Work, cycle)
  }

  /** With a positive count c, of the work phases numbered 1..c only the c-th is
      followed by a long break; a count of 0 never gives one. */
  lemma LongBreakOncePerRound(c: int, k: int)
    ensures c > 0 && k >= 0 ==> (LongBreakDue(k, c) <==> k % c == 0)
    ensures c > 0 && 1 <= k <= c ==> (LongBreakDue(k, c) <==> k == c)
    ensures c == 0 ==> !LongBreakDue(k, c)
  {
    if c != 0 {
      JsRemAgrees(k, c);
    }
    if c > 0 && 1 <= k < c {
      BelowDivisor(k, c);
    }
    if c > 0 && k == c {
      assert c % c == 0;
    }
  }

  /** A number strictly between 0 and c is not a multiple of c. */
  lemma BelowDivisor(k: int, c: int)
    requires 0 < k < c
    ensures k % c != 0
  {
    assert k / c == 0;
  }

  /** The phase and cycle after `steps` phase changes from the reset state. */
  function Run(c: int, steps: nat): (r: (Phase, int))
  {
    if steps == 0 then (Work, 0)
    else AdvancePhase(Run(c, steps - 1).0, Run(c, steps - 1).1, c)
  }

  /** From a reset, work and breaks alternate: after 2k changes it is work phase k + 1
      with cycle k, and the break after the (k + 1)-th work phase is long exactly when
      k + 1 is a multiple of c. */
  lemma {:induction false} RunAlternates(c: int, k: nat)
    requires c > 0
    ensures Run(c, 2 * k) == (Work, k)
    ensures Run(c, 2 * k + 1) == (if (k + 1) % c == 0 then Long else Short, k + 1)
  {
    if k > 0 {
      RunAlternates(c, k - 1);
      assert 2 * k == (2 * (k - 1) + 1) + 1;
    }
    LongBreakOncePerRound(c, k + 1);
  }

  /** The Pomodoro card's state. */
  class Timer {
    var running: bool
    var secondsLeft: int
    var phase: Phase
    var cycle: int
    var workMin: int
    var shortMin: int
    var longMin: int
    var cyclesBeforeLong: int
    var setupOpen: bool

    /** The first render: 25 minutes of work, cycle 0, stopped; 25/5/15 minutes and a
        long break every 4 work phases. */
    constructor()
      ensures !running && secondsLeft == 25 * 60 && phase == Work && cycle == 0
      ensures workMin == 25 && shortMin == 5 && longMin == 15 && cyclesBeforeLong == 4
      ensures !setupOpen
    {
      running := false;
      secondsLeft := 25 * 60;
      phase := Work;
      cycle := 0;
      workMin := 25;
      shortMin := 5;
      longMin := 15;
      cyclesBeforeLong := 4;
      setupOpen := false;
    }

    /** The state of a card just mounted, as the constructor leaves it. */
    predicate Initial()
      reads this
    {
      !running && secondsLeft == 25 * 60 && phase == Work && cycle == 0 &&
      workMin == 25 && shortMin == 5 && longMin == 15 && cyclesBeforeLong == 4 &&
      !setupOpen
    }

    /** One interval tick while running: one second less. */
    method Tick()
      requires running
      modifies this
      ensures secondsLeft == old(secondsLeft) - 1
      ensures running && phase == old(phase) && cycle == old(cycle)
      ensures workMin == old(workMin) && shortMin == old(shortMin) && longMin == old(longMin)
      ensures cyclesBeforeLong == old(cyclesBeforeLong) && setupOpen == old(setupOpen)
    {
      secondsLeft := secondsLeft - 1;
    }

    /** The phase-advance effect: nothing while time is left; at 0 (or below) a work
        phase counts one more cycle and becomes a long or a short break, and a break
        becomes work, each with its full length in seconds. */
    method Advance()
      modifies this
      ensures old(secondsLeft) > 0 ==> phase == old(phase) && cycle == old(cycle) && secondsLeft == old(secondsLeft)
      ensures old(secondsLeft) <= 0 ==> (phase, cycle) == AdvancePhase(old(phase), old(cycle), cyclesBeforeLong)
      ensures old(secondsLeft) <= 0 ==>
        secondsLeft == (match phase case Work => workMin case Short => shortMin case Long => longMin) * 60
      ensures running == old(running) && setupOpen == old(setupOpen)
      ensures workMin == old(workMin) && shortMin == old(shortMin) && longMin == old(longMin)
      ensures cyclesBeforeLong == old(cyclesBeforeLong)
    {
      if secondsLeft <= 0 {
        if phase == Work {
          var nextCycle := cycle + 1;
          cycle := nextCycle;
          if cyclesBeforeLong != 0 && JsRem(nextCycle, cyclesBeforeLong) == 0 {
            phase := Long;
            secondsLeft := longMin * 60;
          } else {
            phase := Short;
            secondsLeft := shortMin * 60;
          }
        } else {
          phase := Work;
          secondsLeft := workMin * 60;
        }
      }
    }

    /** Start: a used-up phase restarts as a full work phase; then run. */
    method Start()
      modifies this
      ensures running
      ensures old(secondsLeft) <= 0 ==> secondsLeft == workMin * 60
      ensures old(secondsLeft) > 0 ==> secondsLeft == old(secondsLeft)
      ensures phase == old(phase) && cycle == old(cycle)
      ensures workMin == old(workMin) && shortMin == old(shortMin) && longMin == old(longMin)
      ensures cyclesBeforeLong == old(cyclesBeforeLong) && setupOpen == old(setupOpen)
    {
      if secondsLeft <= 0 {
        secondsLeft := workMin * 60;
      }
      running := true;
    }

    method Stop()
      modifies this
      ensures !running
      ensures secondsLeft == old(secondsLeft) && phase == old(phase) && cycle == old(cycle)
      ensures workMin == old(workMin) && shortMin == old(shortMin) && longMin == old(longMin)
      ensures cyclesBeforeLong == old(cyclesBeforeLong) && setupOpen == old(setupOpen)
    {
      running := false;
    }

    /** Reset: stopped, a full work phase, cycle 0; the settings stay. */
    method Reset()
      modifies this
      ensures !running && phase == Work && cycle == 0 && secondsLeft == workMin * 60
      ensures workMin == old(workMin) && shortMin == old(shortMin) && longMin == old(longMin)
      ensures cyclesBeforeLong == old(cyclesBeforeLong) && setupOpen == old(setupOpen)
    {
      running := false;
      phase := Work;
      cycle := 0;
      secondsLeft := workMin * 60;
    }

    /** The Setup/Close button. */
    method ToggleSetup()
      modifies this
      ensures setupOpen == !old(setupOpen)
      ensures running == old(running) && secondsLeft == old(secondsLeft)
      ensures phase == old(phase) && cycle == old(cycle)
      ensures workMin == old(workMin) && shortMin == old(shortMin) && longMin == old(longMin)
      ensures cyclesBeforeLong == old(cyclesBeforeLong)
    {
      setupOpen := !setupOpen;
    }

    /** The four number inputs: a new work, short-break or long-break length in minutes
        and a new count of work phases before a long break. Only the edited setting
        changes; the running phase keeps its seconds. */
    method SetSettings(work: int, short: int, long: int, cycles: int)
      modifies this
      ensures workMin == work && shortMin == short && longMin == long && cyclesBeforeLong == cycles
      ensures running == old(running) && secondsLeft == old(secondsLeft)
      ensures phase == old(phase) && cycle == old(cycle) && setupOpen == old(setupOpen)
    {
      workMin := work;
      shortMin := short;
      longMin := long;
      cyclesBeforeLong := cycles;
    }

    /** The big display: `format(secondsLeft)`. */
    function Display(): (t: string)
      reads this
      ensures secondsLeft >= 0 ==> |t| >= 5
    {
      if secondsLeft >= 0 then FormatRoundTrip(secondsLeft); Format(secondsLeft)
      else Format(secondsLeft)
    }
  }
}
