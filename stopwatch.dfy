// The timer card: a stopwatch counting up a second at a time, and the
// switch between the stopwatch and the Pomodoro timer. The Pomodoro card is
// mounted only while its mode is shown; leaving the mode unmounts it, which
// stops its interval, and coming back mounts a new one.

module Stopwatch {
  import opened Clock
  import Pomodoro

  datatype Mode = TimerMode | PomodoroMode

  class Stopwatch {
    var running: bool
    var seconds: int
    var mode: Mode
    var card: Pomodoro.Timer?

    /** The Pomodoro card is mounted exactly while its mode is shown. */
    ghost predicate Valid()
      reads this
    {
      mode == PomodoroMode <==> card != null
    }

    /** The first render: stopped at 0, the stopwatch shown, no Pomodoro card. */
    constructor()
      ensures Valid() && !running && seconds == 0 && mode == TimerMode && card == null
    {
      running := false;
      seconds := 0;
      mode := TimerMode;
      card := null;
    }

    /** One interval tick while running: one second more. */
    method Tick()
      requires running
      modifies this
      ensures seconds == old(seconds) + 1 && running && mode == old(mode) && card == old(card)
    {
      seconds := seconds + 1;
    }

    /** Start/Stop: flip running; the count stays. */
    method Toggle()
      modifies this
      ensures running == !old(running) && seconds == old(seconds)
      ensures mode == old(mode) && card == old(card)
    {
      running := !running;
    }

    /** Reset: stopped at 0. */
    method Reset()
      modifies this
      ensures !running && seconds == 0 && mode == old(mode) && card == old(card)
    {
      running := false;
      seconds := 0;
    }

    /** The Timer and Pomodoro buttons: show one of the two. The stopwatch stays
        mounted and keeps its state (its interval goes on counting). Leaving the
        Pomodoro mode drops the card; entering it mounts a new card in its initial
        state; pressing the shown mode's button again keeps the card it has. */
    method SetMode(m: Mode)
      requires Valid()
      modifies this
      ensures Valid() && mode == m && running == old(running) && seconds == old(seconds)
      ensures m == TimerMode ==> card == null
      ensures m == PomodoroMode && old(mode) == PomodoroMode ==> card == old(card)
      ensures m == PomodoroMode && old(mode) == TimerMode ==>
        card != null && fresh(card) && card.Initial()
    {
      if m == TimerMode {
        card := null;
      } else if mode == TimerMode {
        card := new Pomodoro.Timer();
      }
      mode := m;
    }

    /** The display while the stopwatch is shown: `format(seconds)`, which reads back as
        the count of seconds. */
    function Display(): (t: string)
      reads this
      ensures seconds >= 0 ==> |t| >= 5 && t[|t| - 3] == ':'
      ensures 0 <= seconds < 6000 ==> |t| == 5
    {
      if seconds >= 0 then
        FormatRoundTrip(seconds);
        FormatWidth(seconds);
        Format(seconds)
      else Format(seconds)
    }
  }
}
