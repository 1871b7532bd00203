/** The Pomodoro component: its four state cells and the handlers that the
    view and the one-second interval call on them. Each handler is one
    atomic update of the cells.
 */
module PomodoroTimer {
  import opened Sessions

  const FOCUS_STEP := 5
  const MIN_FOCUS := 5
  const MAX_FOCUS := 60
  const BREAK_STEP := 1
  const MIN_BREAK := 1
  const MAX_BREAK := 15

  class Pomodoro {
    var isTimerRunning: bool
    var session: Option<Session>
    var focusDuration: int
    var breakDuration: int

    /** What every handler keeps: the durations stay on their grids, a
        session has a phase label and a non-negative countdown, and the timer
        only runs while there is a session for it to count down. */
    ghost predicate Valid()
      reads this
    {
      && MIN_FOCUS <= focusDuration <= MAX_FOCUS && focusDuration % FOCUS_STEP == 0
      && MIN_BREAK <= breakDuration <= MAX_BREAK
      && (session.Some? ==> IsPhaseLabel(session.value.phase) && session.value.timeRemaining >= 0)
      && (isTimerRunning ==> session.Some?)
    }

    /** The countdown lies within the phase as the current durations define
        it. The view disables the duration buttons while a session exists,
        which is what keeps this true: the handlers themselves do not check. */
    predicate Consistent()
      reads this
    {
      session.Some? ==> WithinPhase(focusDuration, breakDuration, session.value)
    }

    /** The initial state: stopped, no session, 25 minutes of focus and 5
        of break. */
    constructor ()
      ensures Valid() && Consistent()
      ensures !isTimerRunning && session == None
      ensures focusDuration == 25 && breakDuration == 5
    {
      isTimerRunning := false;
      session := None;
      focusDuration := 25;
      breakDuration := 5;
    }

    method OnIncreaseFocus()
      requires Valid()
      modifies this`focusDuration
      ensures Valid()
      ensures focusDuration == if old(focusDuration) == MAX_FOCUS then MAX_FOCUS else old(focusDuration) + FOCUS_STEP
    {
      if focusDuration == MAX_FOCUS {
        return;
      }
      focusDuration := focusDuration + FOCUS_STEP;
    }

    method OnDecreaseFocus()
      requires Valid()
      modifies this`focusDuration
      ensures Valid()
      ensures focusDuration == if old(focusDuration) == MIN_FOCUS then MIN_FOCUS else old(focusDuration) - FOCUS_STEP
    {
      if focusDuration == MIN_FOCUS {
        return;
      }
      focusDuration := focusDuration - FOCUS_STEP;
    }

    method OnIncreaseBreak()
      requires Valid()
      modifies this`breakDuration
      ensures Valid()
      ensures breakDuration == if old(breakDuration) == MAX_BREAK then MAX_BREAK else old(breakDuration) + BREAK_STEP
    {
      if breakDuration == MAX_BREAK {
        return;
      }
      breakDuration := breakDuration + BREAK_STEP;
    }

    method OnDecreaseBreak()
      requires Valid()
      modifies this`breakDuration
      ensures Valid()
      ensures breakDuration == if old(breakDuration) == MIN_BREAK then MIN_BREAK else old(breakDuration) - BREAK_STEP
    {
      if breakDuration == MIN_BREAK {
        return;
      }
      breakDuration := breakDuration - BREAK_STEP;
    }

    /** Stop from any state: the timer halts and the session is discarded;
        the durations are kept. */
    method OnStop()
      requires Valid()
      modifies this`isTimerRunning, this`session
      ensures Valid() && Consistent()
      ensures !isTimerRunning && session == None
    {
      isTimerRunning := false;
      session := None;
    }

    /** The play/pause button: the running flag is negated; starting with no
        session opens a full focusing session, and otherwise the session is
        left as it was. */
    method PlayPause()
      requires Valid()
      modifies this`isTimerRunning, this`session
      ensures Valid()
      ensures old(Consistent()) ==> Consistent()
      ensures isTimerRunning == !old(isTimerRunning)
      ensures session == if isTimerRunning && old(session).None?
                         then Some(Session(FOCUSING, focusDuration * 60))
                         else old(session)
      ensures old(session).None? && isTimerRunning ==> Progress() == Some(0.0)
    {
      var nextState := !isTimerRunning;
      if nextState && session.None? {
        session := Some(Session(FOCUSING, focusDuration * 60));
      }
      isTimerRunning := nextState;
    }

    /** One run of the interval callback, which is scheduled only while the
        timer runs: at zero the session switches phase, otherwise it ticks.
        The durations and the running flag are not touched. */
    method Tick()
      requires Valid() && isTimerRunning
      modifies this`session
      ensures Valid()
      ensures old(Consistent()) ==> Consistent()
      ensures session == Some(if old(session).value.timeRemaining == 0
                              then NextSession(focusDuration, breakDuration, old(session).value)
                              else NextTick(old(session).value))
      ensures session == Some(Step(focusDuration, breakDuration, old(session).value))
      ensures old(session).value.timeRemaining == 0 ==> Progress() == Some(0.0)
    {
      var current := session.value;
      if current.timeRemaining == 0 {
        session := Some(NextSession(focusDuration, breakDuration, current));
        return;
      }
      session := Some(NextTick(current));
    }

    /** The minutes of the current phase, as shown beside the progress bar. */
    function TotalDuration(): (minutes: int)
      reads this
      requires Valid()
      ensures session.Some? && session.value.phase == FOCUSING ==> minutes == focusDuration
      ensures session.Some? && session.value.phase == ON_BREAK ==> minutes == breakDuration
      ensures MIN_BREAK <= minutes <= MAX_FOCUS
    {
      Sessions.TotalDuration(focusDuration, breakDuration, session)
    }

    /** The elapsed percentage of the current phase: defined exactly when
        there is a session, and then between 0 and 100 as long as the
        countdown lies within its phase. */
    function Progress(): (p: Option<real>)
      reads this
      requires Valid()
      ensures p.Some? <==> session.Some?
      ensures Consistent() && p.Some? ==> 0.0 <= p.value <= 100.0
    {
      if session.Some? && Consistent() then
        ProgressBounded(focusDuration, breakDuration, session.value);
        Sessions.Progress(focusDuration, breakDuration, session)
      else
        Sessions.Progress(focusDuration, breakDuration, session)
    }
  }
}
