/**
 * The Pomodoro session controller of the productivity dashboard, as pure values:
 * phase lengths, the `MM:SS` display, the progress percentage, and every
 * transition of the session (start, pause, reset, switch, tick, completion).
 * The component that holds this state in mutable fields is module PomodoroComponent.
 */
module Pomodoro {
  import opened Wrappers

  /** Which part of the cycle the countdown belongs to (the component's TimerState). */
  datatype Phase = Work | ShortBreak | LongBreak

  /** Whether the countdown is ticking (the component's TimerStatus). */
  datatype Status = Idle | Running | Paused

  const WorkTime: nat := 25 * 60
  const ShortBreakTime: nat := 5 * 60
  const LongBreakTime: nat := 15 * 60

  /** The full length of a phase in seconds (getTimerDuration). */
  function Duration(p: Phase): (d: nat)
    ensures 0 < d <= WorkTime
  {
    match p
    case Work => WorkTime
    case ShortBreak => ShortBreakTime
    case LongBreak => LongBreakTime
  }

  lemma DurationValues()
    ensures Duration(Work) == 1500 && Duration(ShortBreak) == 300 && Duration(LongBreak) == 900
  {
  }

  // ---------------------------------------------------------------------------
  // The session state and its invariant
  // ---------------------------------------------------------------------------

  /**
   * The component's state: `timeLeft`, `timerState`, `timerStatus`,
   * `completedSessions`, and whether `intervalRef` holds a live interval.
   */
  datatype Session = Session(phase: Phase, status: Status, timeLeft: nat, completedSessions: nat, armed: bool)

  /**
   * The controller's invariant: the countdown never exceeds the length of its
   * phase, and an interval is armed exactly while the status is Running, so at
   * most one tick source exists.
   */
  predicate WellFormed(s: Session) {
    s.timeLeft <= Duration(s.phase) && (s.armed <==> s.status == Running)
  }

  /** The state the component mounts with. */
  function Initial(): (s: Session)
    ensures WellFormed(s) && s.timeLeft == Duration(s.phase) && !s.armed
  {
    Session(Work, Idle, WorkTime, 0, false)
  }

  lemma InitialState()
    ensures Initial() == Session(Work, Idle, 1500, 0, false)
  {
  }

  /**
   * startTimer: mark the session running and arm a one-second interval. The
   * source does not clear an interval that is already armed; the UI offers Start
   * only when the status is not Running, which the precondition states.
   */
  function Start(s: Session): (r: Session)
    requires WellFormed(s) && s.status != Running
    ensures WellFormed(r) && r.status == Running
    ensures r.timeLeft == s.timeLeft && r.phase == s.phase && r.completedSessions == s.completedSessions
  {
    s.(status := Running, armed := true)
  }

  /** pauseTimer: mark the session paused and clear the interval. */
  function Pause(s: Session): (r: Session)
    requires WellFormed(s)
    ensures WellFormed(r) && !r.armed && r.status == Paused
    ensures r.timeLeft == s.timeLeft && r.phase == s.phase && r.completedSessions == s.completedSessions
  {
    s.(status := Paused, armed := false)
  }

  /** resetTimer: back to idle with the current phase's full length. */
  function Reset(s: Session): (r: Session)
    ensures WellFormed(r) && !r.armed
  {
    s.(status := Idle, armed := false, timeLeft := Duration(s.phase))
  }

  /** switchMode: reset, then select phase `m` with its full length. */
  function SwitchMode(s: Session, m: Phase): (r: Session)
    ensures WellFormed(r) && !r.armed
  {
    Reset(s).(phase := m, timeLeft := Duration(m))
  }

  /** The phase the completion policy chooses after `n` completed work sessions. */
  function BreakAfter(n: nat): Phase {
    if n % 4 == 0 then LongBreak else ShortBreak
  }

  /**
   * handleTimerComplete: stop the countdown and move to the next phase. A work
   * phase counts one more completed session and leads to a long break every
   * fourth time, a short break otherwise; a break leads back to work.
   *
   * This function sets `timeLeft` to the next phase's full length, the value
   * the handler queues (PomodoroTimer.tsx lines 86 and 94). The tick updater
   * that calls it then returns 0 (line 48), and which of the two updates the
   * component keeps depends on the order of React's update queue. The model
   * takes the value lines 86 and 94 intend; TickAsWritten keeps the 0.
   */
  function Complete(s: Session): (r: Session)
    ensures WellFormed(r) && r.status == Idle && !r.armed
    ensures r.phase != s.phase
  {
    var stopped := s.(status := Idle, armed := false);
    if s.phase == Work then
      var n := s.completedSessions + 1;
      var next := BreakAfter(n);
      stopped.(completedSessions := n, phase := next, timeLeft := Duration(next))
    else
      stopped.(phase := Work, timeLeft := Duration(Work))
  }

  /** The body of the interval callback: count down one second, completing at 1 or below. */
  function Tick(s: Session): (r: Session)
    requires WellFormed(s) && s.armed
    ensures WellFormed(r)
    ensures r.completedSessions >= s.completedSessions
  {
    if s.timeLeft <= 1 then Complete(s) else s.(timeLeft := s.timeLeft - 1)
  }

  /** The unmount cleanup: the interval is cleared, so no tick can arrive afterwards. */
  function Teardown(s: Session): (r: Session)
    ensures !r.armed
    ensures r.(armed := s.armed) == s
  {
    s.(armed := false)
  }

  /**
   * The tick as the updater can end when React applies the queued full length
   * before the updater's own result: the completion happens, but the 0 that the
   * updater returns overwrites the next phase's length.
   */
  function TickAsWritten(s: Session): (r: Session)
    requires WellFormed(s) && s.armed
    ensures WellFormed(r)
  {
    if s.timeLeft <= 1 then Complete(s).(timeLeft := 0) else s.(timeLeft := s.timeLeft - 1)
  }

  /**
   * As written, a completing tick leaves the next phase at 00:00, and starting
   * it completes that phase after a single tick, skipping the break (or the
   * work session) altogether.
   */
  lemma AsWrittenSkipsNextPhase(s: Session)
    requires WellFormed(s) && s.armed && s.timeLeft <= 1
    ensures var r := TickAsWritten(s);
      && r.timeLeft == 0 && r.phase == Complete(s).phase && r.status == Idle
      && Tick(Start(r)) == Complete(r)
      && Tick(Start(r)).phase != r.phase
  {
  }

  /**
   * With the intended value, the phase after a completion starts at its full
   * length (at least 300 s), and its first tick only counts down.
   */
  lemma CompletionStartsFullPhase(s: Session)
    requires WellFormed(s) && s.armed && s.timeLeft <= 1
    ensures var r := Tick(s);
      && r.timeLeft == Duration(r.phase) >= ShortBreakTime
      && Tick(Start(r)) == Start(r).(timeLeft := r.timeLeft - 1)
  {
  }

  /** The notification shown when a countdown completes. */
  datatype Toast = WorkSessionCompleted(nextBreak: Phase) | BreakFinished

  function CompletionToast(s: Session): (t: Toast)
    ensures t.WorkSessionCompleted? <==> s.phase == Work
    ensures t.WorkSessionCompleted? ==> t.nextBreak == Complete(s).phase
  {
    if s.phase == Work then WorkSessionCompleted(BreakAfter(s.completedSessions + 1)) else BreakFinished
  }

  // ---------------------------------------------------------------------------
  // Properties of the transitions
  // ---------------------------------------------------------------------------

  lemma TickDecrements(s: Session)
    requires WellFormed(s) && s.armed && s.timeLeft > 1
    ensures Tick(s) == s.(timeLeft := s.timeLeft - 1)
  {
  }

  lemma WorkCompletion(s: Session)
    requires WellFormed(s) && s.armed && s.timeLeft <= 1 && s.phase == Work
    ensures var r := Tick(s);
      && r.completedSessions == s.completedSessions + 1
      && (r.phase == LongBreak <==> r.completedSessions % 4 == 0)
      && (r.phase == ShortBreak <==> r.completedSessions % 4 != 0)
      && r.timeLeft == Duration(r.phase)
      && r.status == Idle && !r.armed
  {
  }

  lemma BreakCompletion(s: Session)
    requires WellFormed(s) && s.armed && s.timeLeft <= 1 && s.phase != Work
    ensures Tick(s) == Session(Work, Idle, 1500, s.completedSessions, false)
  {
  }

  /** Pausing keeps the countdown exactly, and starting again resumes the very same running state. */
  lemma PauseThenResume(s: Session)
    requires WellFormed(s) && s.status == Running
    ensures var p := Pause(s);
      && p.status == Paused && !p.armed
      && p.timeLeft == s.timeLeft && p.phase == s.phase && p.completedSessions == s.completedSessions
      && Start(p) == s
  {
  }

  lemma ResetRestores(s: Session)
    ensures var r := Reset(s);
      && r.status == Idle && !r.armed
      && r.phase == s.phase && r.timeLeft == Duration(s.phase)
      && r.completedSessions == s.completedSessions
  {
  }

  /** Switching discards the remaining time whatever the status, and never touches the session count. */
  lemma SwitchDiscards(s: Session, m: Phase)
    ensures var r := SwitchMode(s, m);
      && r.status == Idle && !r.armed
      && r.phase == m && r.timeLeft == Duration(m)
      && r.completedSessions == s.completedSessions
  {
  }

  // ---------------------------------------------------------------------------
  // Uninterrupted runs: the cadence of breaks
  // ---------------------------------------------------------------------------

  /** The session after `n` deliveries of the interval callback; deliveries stop once it is disarmed. */
  function Ticks(s: Session, n: nat): (r: Session)
    requires WellFormed(s)
    ensures WellFormed(r)
    decreases n
  {
    if n == 0 || !s.armed then s else Ticks(Tick(s), n - 1)
  }

  /** A running countdown with `k` seconds left completes after exactly `k` ticks. */
  lemma {:induction false} TicksRunToCompletion(s: Session, k: nat)
    requires WellFormed(s) && s.armed && 1 <= k == s.timeLeft
    ensures Ticks(s, k) == Complete(s)
    decreases k
  {
    if k > 1 {
      var t := Tick(s);
      assert t == s.(timeLeft := k - 1);
      TicksRunToCompletion(t, k - 1);
      assert Complete(t) == Complete(s);
    }
  }

  /** From mount, Start and 1500 ticks reach a short break with one completed session. */
  lemma FirstWorkSession()
    ensures Ticks(Start(Initial()), 1500) == Session(ShortBreak, Idle, 300, 1, false)
  {
    TicksRunToCompletion(Start(Initial()), 1500);
  }

  /** An idle work phase at its full length after `n` completed sessions. */
  function FreshWork(n: nat): Session {
    Session(Work, Idle, WorkTime, n, false)
  }

  /** Start a phase that is not running and let it tick until the interval disarms itself. */
  function RunPhase(s: Session): (r: Session)
    requires WellFormed(s) && s.status != Running
  {
    Ticks(Start(s), s.timeLeft)
  }

  lemma {:induction false} RunPhaseCompletes(s: Session)
    requires WellFormed(s) && s.status != Running && 1 <= s.timeLeft
    ensures RunPhase(s) == Complete(s)
  {
    TicksRunToCompletion(Start(s), s.timeLeft);
  }

  /** `k` uninterrupted work-and-break cycles; it stops early on a state that cannot be run. */
  function Cycles(s: Session, k: nat): (r: Session)
    requires WellFormed(s)
    decreases k
  {
    if k == 0 || s.status == Running then s
    else
      var a := RunPhase(s);
      if a.status == Running then a else Cycles(RunPhase(a), k - 1)
  }

  /** One uninterrupted work phase and the break after it add one completed session. */
  lemma OneCycle(n: nat)
    ensures RunPhase(FreshWork(n)).status == Idle
    ensures RunPhase(RunPhase(FreshWork(n))) == FreshWork(n + 1)
  {
    var w := FreshWork(n);
    RunPhaseCompletes(w);
    var a := RunPhase(w);
    assert a == Complete(w);
    RunPhaseCompletes(a);
  }

  lemma {:induction false} CyclesFromFreshWork(n: nat, k: nat)
    ensures Cycles(FreshWork(n), k) == FreshWork(n + k)
    decreases k
  {
    if k > 0 {
      OneCycle(n);
      CyclesFromFreshWork(n + 1, k - 1);
    }
  }

  /**
   * Uninterrupted from the mount state `s0`, cycle `i` (counting from 0) starts
   * as a fresh work phase with `i` completed sessions. (The mount state is a
   * parameter so that the solver does not try to evaluate 1500 ticks on a
   * constant.)
   */
  lemma CyclesFromMount(s0: Session, i: nat)
    requires s0 == Initial()
    ensures Cycles(s0, i) == FreshWork(i)
  {
    assert s0 == FreshWork(s0.completedSessions);
    CyclesFromFreshWork(s0.completedSessions, i);
  }

  /** The work phase of cycle `i` ends in a long break exactly when `i + 1` is a multiple of 4. */
  lemma {:induction false} BreakCadence(i: nat)
    ensures RunPhase(FreshWork(i)).phase == (if (i + 1) % 4 == 0 then LongBreak else ShortBreak)
    ensures RunPhase(FreshWork(i)).completedSessions == i + 1
  {
    RunPhaseCompletes(FreshWork(i));
  }

  /** The first five work sessions are followed by short, short, short, long, short. */
  lemma FirstFiveBreaks()
    ensures forall i :: 0 <= i < 5 ==>
      RunPhase(FreshWork(i)).phase == [ShortBreak, ShortBreak, ShortBreak, LongBreak, ShortBreak][i]
  {
    forall i | 0 <= i < 5
      ensures RunPhase(FreshWork(i)).phase == [ShortBreak, ShortBreak, ShortBreak, LongBreak, ShortBreak][i]
    {
      BreakCadence(i);
    }
  }

  // ---------------------------------------------------------------------------
  // getProgress
  // ---------------------------------------------------------------------------

  /** Elapsed share of the current phase, in percent. */
  function Progress(s: Session): real {
    var total := Duration(s.phase) as real;
    ((total - s.timeLeft as real) / total) * 100.0
  }

  lemma ProgressBounds(s: Session)
    requires WellFormed(s)
    ensures 0.0 <= Progress(s) <= 100.0
  {
  }

  lemma ProgressEndpoints(s: Session)
    ensures Progress(s) == 0.0 <==> s.timeLeft == Duration(s.phase)
    ensures Progress(s) == 100.0 <==> s.timeLeft == 0
  {
  }

  // ---------------------------------------------------------------------------
  // formatTime
  // ---------------------------------------------------------------------------

  predicate IsDigit(c: char) {
    '0' <= c <= '9'
  }

  predicate AllDigits(s: string) {
    forall i :: 0 <= i < |s| ==> IsDigit(s[i])
  }

  function DigitChar(d: nat): (c: char)
    requires d < 10
    ensures IsDigit(c) && DigitValue(c) == d
  {
    ('0' as int + d) as char
  }

  function DigitValue(c: char): nat
    requires IsDigit(c)
  {
    c as int - '0' as int
  }

  /** Number.prototype.toString for a non-negative integer: its decimal digits without leading zeros. */
  function NatToString(n: nat): (s: string)
    ensures 1 <= |s| && AllDigits(s)
    ensures n < 10 <==> |s| == 1
    ensures n < 100 <==> |s| <= 2
    decreases n
  {
    if n < 10 then [DigitChar(n)] else NatToString(n / 10) + [DigitChar(n % 10)]
  }

  /** String.prototype.padStart with a one-character filler. */
  function PadStart(s: string, width: nat, filler: char): (r: string)
    ensures |r| == if |s| >= width then |s| else width
    ensures r[|r| - |s|..] == s
    ensures forall i :: 0 <= i < |r| - |s| ==> r[i] == filler
  {
    if |s| >= width then s else seq(width - |s|, _ => filler) + s
  }

  function Pad2(n: nat): string {
    PadStart(NatToString(n), 2, '0')
  }

  /** formatTime: whole minutes and remaining seconds, each padded to two digits, joined by a colon. */
  function FormatTime(seconds: nat): string {
    Pad2(seconds / 60) + ":" + Pad2(seconds % 60)
  }

  /** The decimal value of a digit string, leading zeros allowed. */
  function ParseNat(s: string): nat
    requires AllDigits(s)
    decreases |s|
  {
    if s == [] then 0 else ParseNat(s[..|s| - 1]) * 10 + DigitValue(s[|s| - 1])
  }

  /** Reads back a `M..M:SS` display as a number of seconds; None for anything else. */
  function ParseTime(t: string): Option<nat> {
    if |t| >= 5 && t[|t| - 3] == ':' && AllDigits(t[..|t| - 3]) && AllDigits(t[|t| - 2..]) then
      var secs := ParseNat(t[|t| - 2..]);
      if secs < 60 then Some(ParseNat(t[..|t| - 3]) * 60 + secs) else None
    else
      None
  }

  lemma {:induction false} ParseNatToString(n: nat)
    ensures ParseNat(NatToString(n)) == n
    decreases n
  {
    var s := NatToString(n);
    if n >= 10 {
      ParseNatToString(n / 10);
      assert s[..|s| - 1] == NatToString(n / 10);
    }
  }

  lemma Pad2Shape(n: nat)
    ensures AllDigits(Pad2(n)) && ParseNat(Pad2(n)) == n
    ensures |Pad2(n)| == (if n < 100 then 2 else |NatToString(n)|)
  {
    var d := NatToString(n);
    ParseNatToString(n);
    if n < 10 {
      assert Pad2(n) == ['0'] + d;
      assert Pad2(n)[..1] == ['0'];
    }
  }

  /**
   * The seconds part of the display is always two digits reading 00 to 59,
   * behind a colon; the minutes part holds at least two digits.
   */
  lemma FormatTimeShape(seconds: nat)
    ensures var r := FormatTime(seconds);
      && |r| >= 5 && r[|r| - 3] == ':'
      && AllDigits(r[..|r| - 3]) && AllDigits(r[|r| - 2..])
      && ParseNat(r[..|r| - 3]) == seconds / 60
      && ParseNat(r[|r| - 2..]) == seconds % 60 < 60
  {
    var m, sec := Pad2(seconds / 60), Pad2(seconds % 60);
    Pad2Shape(seconds / 60);
    Pad2Shape(seconds % 60);
    SplitAtColon(m, sec);
  }

  lemma SplitAtColon(a: string, b: string)
    requires |b| == 2
    ensures var r := a + ":" + b;
      |r| == |a| + 3 && r[|r| - 3] == ':' && r[..|r| - 3] == a && r[|r| - 2..] == b
  {
  }

  /** The display is exactly five characters long precisely below 100 minutes. */
  lemma FormatTimeLength(seconds: nat)
    ensures |FormatTime(seconds)| == 5 <==> seconds < 6000
  {
    Pad2Shape(seconds / 60);
    Pad2Shape(seconds % 60);
  }

  /** Reading the display back gives `mins * 60 + secs`, the seconds it was made from. */
  lemma FormatTimeRoundTrip(seconds: nat)
    ensures ParseTime(FormatTime(seconds)) == Some(seconds)
  {
    FormatTimeShape(seconds);
  }
}
