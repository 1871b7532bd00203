/** The pure half of the Pomodoro timer: session records, the two state
    transition functions that the component applies to them, the callback
    that the one-second interval runs, and the derived progress percentage.
    Everything here is a value; the mutable component is in Pomodoro.dfy.
 */
module Sessions {

  /** A nullable value: `None` stands for JavaScript's `null`. */
  datatype Option<T> = None | Some(value: T)

  /** The two labels the timer ever gives a session. */
  const FOCUSING: string := "Focusing"
  const ON_BREAK: string := "On Break"

  /** A session record `{label, timeRemaining}`; the countdown is in seconds.
      The `label` field is called `phase` here, `label` being a Dafny keyword. */
  datatype Session = Session(phase: string, timeRemaining: int)

  predicate IsPhaseLabel(phase: string) {
    phase == FOCUSING || phase == ON_BREAK
  }

  /** One second of countdown: the remaining time drops by one, never below
      zero, and every other field of the record is kept. */
  function NextTick(prev: Session): (r: Session)
    ensures r.phase == prev.phase
    ensures r.timeRemaining >= 0
    ensures prev.timeRemaining > 0 ==> r.timeRemaining == prev.timeRemaining - 1
    ensures prev.timeRemaining <= 0 ==> r.timeRemaining == 0
  {
    var timeRemaining := if prev.timeRemaining - 1 > 0 then prev.timeRemaining - 1 else 0;
    prev.(timeRemaining := timeRemaining)
  }

  /** The phase switch at timeout, with the configured minutes already
      applied: a focusing session becomes a full break, anything else
      becomes a full focusing session. */
  function NextSession(focusDuration: int, breakDuration: int, current: Session): Session {
    if current.phase == FOCUSING then
      Session(ON_BREAK, breakDuration * 60)
    else
      Session(FOCUSING, focusDuration * 60)
  }

  /** What one run of the interval callback does to an existing session:
      switch phase when the countdown is at zero, otherwise tick. */
  function Step(focusDuration: int, breakDuration: int, s: Session): Session {
    if s.timeRemaining == 0 then NextSession(focusDuration, breakDuration, s) else NextTick(s)
  }

  /** The session after `n` runs of the interval callback with unchanged
      durations. */
  function Steps(focusDuration: int, breakDuration: int, s: Session, n: nat): Session
    decreases n
  {
    if n == 0 then s else Steps(focusDuration, breakDuration, Step(focusDuration, breakDuration, s), n - 1)
  }

  /** The minutes of the current phase: the focus duration for a focusing
      session and the break duration otherwise, including when there is no
      session at all (`session?.label` is then undefined). */
  function TotalDuration(focusDuration: int, breakDuration: int, session: Option<Session>): int {
    if session.Some? && session.value.phase == FOCUSING then focusDuration else breakDuration
  }

  /** The length of the current phase in seconds. */
  function DurationInSecs(focusDuration: int, breakDuration: int, session: Option<Session>): int {
    TotalDuration(focusDuration, breakDuration, session) * 60
  }

  /** The percentage of the current phase that has elapsed. `None` stands
      for the values that are not finite numbers in the source (NaN with no
      session, NaN or an infinity when the phase is zero seconds long). */
  function Progress(focusDuration: int, breakDuration: int, session: Option<Session>): (p: Option<real>)
    ensures p.Some? <==> session.Some? && DurationInSecs(focusDuration, breakDuration, session) != 0
    ensures p.Some? ==>
      p.value * DurationInSecs(focusDuration, breakDuration, session) as real
        == (DurationInSecs(focusDuration, breakDuration, session) - session.value.timeRemaining) as real * 100.0
  {
    var durationInSecs := DurationInSecs(focusDuration, breakDuration, session);
    if session.None? || durationInSecs == 0 then
      None
    else
      var elapsed := (durationInSecs - session.value.timeRemaining) as real;
      var fraction := elapsed / durationInSecs as real;
      assert fraction * durationInSecs as real == elapsed;
      Some(fraction * 100.0)
  }

  /** A session lies within its phase when its countdown is between zero
      and the full length of that phase. */
  predicate WithinPhase(focusDuration: int, breakDuration: int, s: Session) {
    0 <= s.timeRemaining <= DurationInSecs(focusDuration, breakDuration, Some(s))
  }

  // ---------------------------------------------------------------------
  // Properties of the transitions

  /** The phase switch turns a focusing session into a break and any other
      session into a focusing one, and the new session starts at the full
      length of its phase, as the current durations define it. */
  lemma NextSessionStartsFullPhase(focusDuration: int, breakDuration: int, s: Session)
    ensures NextSession(focusDuration, breakDuration, s).phase
         == if s.phase == FOCUSING then ON_BREAK else FOCUSING
    ensures NextSession(focusDuration, breakDuration, s).timeRemaining
         == DurationInSecs(focusDuration, breakDuration, Some(NextSession(focusDuration, breakDuration, s)))
  {
  }

  /** The phase switch alternates between the two labels: applied twice to
      a session with one of them, it gives back that label. */
  lemma NextSessionAlternates(focusDuration: int, breakDuration: int, s: Session)
    requires IsPhaseLabel(s.phase)
    ensures IsPhaseLabel(NextSession(focusDuration, breakDuration, s).phase)
    ensures NextSession(focusDuration, breakDuration, s).phase != s.phase
    ensures NextSession(focusDuration, breakDuration, NextSession(focusDuration, breakDuration, s)).phase == s.phase
  {
  }

  /** One run of the interval callback keeps a session with a phase label
      inside its phase, as long as the durations do not change. */
  lemma StepWithinPhase(focusDuration: int, breakDuration: int, s: Session)
    requires focusDuration >= 0 && breakDuration >= 0
    requires IsPhaseLabel(s.phase) && WithinPhase(focusDuration, breakDuration, s)
    ensures IsPhaseLabel(Step(focusDuration, breakDuration, s).phase)
    ensures WithinPhase(focusDuration, breakDuration, Step(focusDuration, breakDuration, s))
  {
  }

  /** A freshly started or switched session shows zero progress, provided
      its phase is not empty. */
  lemma ProgressZeroAtPhaseStart(focusDuration: int, breakDuration: int, s: Session)
    requires focusDuration > 0 && breakDuration > 0
    ensures Progress(focusDuration, breakDuration, Some(Session(FOCUSING, focusDuration * 60))) == Some(0.0)
    ensures Progress(focusDuration, breakDuration, Some(NextSession(focusDuration, breakDuration, s))) == Some(0.0)
  {
  }

  /** Progress is a percentage: between 0 and 100 whenever the countdown
      lies within a non-empty phase, and 100 exactly when it reaches zero. */
  lemma ProgressBounded(focusDuration: int, breakDuration: int, s: Session)
    requires focusDuration > 0 && breakDuration > 0
    requires WithinPhase(focusDuration, breakDuration, s)
    ensures Progress(focusDuration, breakDuration, Some(s)).Some?
    ensures 0.0 <= Progress(focusDuration, breakDuration, Some(s)).value <= 100.0
    ensures Progress(focusDuration, breakDuration, Some(s)).value == 100.0 <==> s.timeRemaining == 0
  {
  }

  // ---------------------------------------------------------------------
  // Properties of repeated ticks

  /** Running the callback once more is stepping from the last session. */
  lemma {:induction false} StepsSnoc(focusDuration: int, breakDuration: int, s: Session, n: nat)
    ensures Steps(focusDuration, breakDuration, s, n + 1)
         == Step(focusDuration, breakDuration, Steps(focusDuration, breakDuration, s, n))
    decreases n
  {
    if n > 0 {
      StepsSnoc(focusDuration, breakDuration, Step(focusDuration, breakDuration, s), n - 1);
    }
  }

  /** While the countdown is positive, each run of the callback takes one
      second off it and keeps the label. */
  lemma {:induction false} CountdownSteps(focusDuration: int, breakDuration: int, s: Session, k: nat)
    requires k <= s.timeRemaining
    ensures Steps(focusDuration, breakDuration, s, k) == s.(timeRemaining := s.timeRemaining - k)
    decreases k
  {
    if k > 0 {
      var next := Step(focusDuration, breakDuration, s);
      assert next == s.(timeRemaining := s.timeRemaining - 1);
      CountdownSteps(focusDuration, breakDuration, next, k - 1);
    }
  }

  /** A phase with `r` seconds left reaches zero after exactly `r` runs of
      the callback, and the next run switches to the other phase at its
      full length. */
  lemma PhaseRunsOut(focusDuration: int, breakDuration: int, s: Session)
    requires s.timeRemaining >= 0
    ensures forall k :: 0 <= k < s.timeRemaining ==>
      Steps(focusDuration, breakDuration, s, k).timeRemaining > 0
    ensures Steps(focusDuration, breakDuration, s, s.timeRemaining) == Session(s.phase, 0)
    ensures Steps(focusDuration, breakDuration, s, s.timeRemaining + 1)
         == NextSession(focusDuration, breakDuration, s)
  {
    forall k | 0 <= k < s.timeRemaining
      ensures Steps(focusDuration, breakDuration, s, k).timeRemaining > 0
    {
      CountdownSteps(focusDuration, breakDuration, s, k);
    }
    CountdownSteps(focusDuration, breakDuration, s, s.timeRemaining);
    StepsSnoc(focusDuration, breakDuration, s, s.timeRemaining);
  }

  /** From a focusing session with `r` seconds left, run `r + 1` switches to
      a full break. */
  lemma FocusRunEndsInBreak(focusDuration: int, breakDuration: int, s: Session)
    requires s.phase == FOCUSING && s.timeRemaining >= 0
    ensures Steps(focusDuration, breakDuration, s, s.timeRemaining + 1)
         == Session(ON_BREAK, breakDuration * 60)
  {
    PhaseRunsOut(focusDuration, breakDuration, s);
  }

  /** With the default durations of 25 and 5 minutes, a freshly started
      session counts 1500 seconds down to zero and the 1501st run of the
      callback starts a 300-second break. */
  lemma DefaultCycle()
    ensures Steps(25, 5, Session(FOCUSING, 1500), 1500) == Session(FOCUSING, 0)
    ensures Steps(25, 5, Session(FOCUSING, 1500), 1501) == Session(ON_BREAK, 300)
  {
    PhaseRunsOut(25, 5, Session(FOCUSING, 1500));
  }
}
