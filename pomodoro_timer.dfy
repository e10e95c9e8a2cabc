/**
 * The PomodoroTimer component as an object: its React state variables and the
 * interval reference are mutable fields, and each handler updates them in place.
 * Every method is tied to the matching transition of module Pomodoro, whose
 * lemmas state what the transitions promise.
 */
module PomodoroComponent {
  import opened Pomodoro

  class PomodoroTimer {
    var timeLeft: nat
    var timerState: Phase
    var timerStatus: Status
    var completedSessions: nat
    /** Whether `intervalRef.current` holds a live interval. */
    var armed: bool
    /** The toasts shown so far, oldest first. */
    ghost var toasts: seq<Toast>

    function State(): Session
      reads this
    {
      Session(timerState, timerStatus, timeLeft, completedSessions, armed)
    }

    ghost predicate Valid()
      reads this
    {
      WellFormed(State())
    }

    constructor ()
      ensures Valid() && State() == Initial() && toasts == []
    {
      timeLeft := WorkTime;
      timerState := Work;
      timerStatus := Idle;
      completedSessions := 0;
      armed := false;
      toasts := [];
    }

    /**
     * Whether the controls show Pause rather than Start/Resume. Start is offered
     * only when no interval is armed, so a second tick source cannot be created.
     */
    method OffersPause() returns (pause: bool)
      requires Valid()
      ensures pause <==> timerStatus == Running
      ensures pause <==> armed
    {
      pause := timerStatus == Running;
    }

    method StartTimer()
      requires Valid() && timerStatus != Running
      modifies this
      ensures Valid() && State() == Pomodoro.Start(old(State())) && toasts == old(toasts)
    {
      timerStatus := Running;
      armed := true;
    }

    method PauseTimer()
      requires Valid()
      modifies this
      ensures Valid() && State() == Pomodoro.Pause(old(State())) && toasts == old(toasts)
    {
      timerStatus := Paused;
      if armed {
        armed := false;
      }
    }

    method ResetTimer()
      requires Valid()
      modifies this
      ensures Valid() && State() == Pomodoro.Reset(old(State())) && toasts == old(toasts)
    {
      timerStatus := Idle;
      if armed {
        armed := false;
      }
      timeLeft := Duration(timerState);
    }

    /**
     * handleTimerComplete. `timeLeft` is set to the next phase's full length,
     * the value lines 86 and 94 intend; whether the component keeps it or the 0
     * the tick updater returns depends on the order of React's update queue.
     */
    method HandleTimerComplete()
      requires Valid()
      modifies this
      ensures Valid() && State() == Pomodoro.Complete(old(State()))
      ensures toasts == old(toasts) + [CompletionToast(old(State()))]
    {
      timerStatus := Idle;
      if armed {
        armed := false;
      }
      if timerState == Work {
        var newSessionCount := completedSessions + 1;
        completedSessions := newSessionCount;
        var nextState := if newSessionCount % 4 == 0 then LongBreak else ShortBreak;
        timerState := nextState;
        timeLeft := Duration(nextState);
        toasts := toasts + [WorkSessionCompleted(nextState)];
      } else {
        timerState := Work;
        timeLeft := Duration(Work);
        toasts := toasts + [BreakFinished];
      }
    }

    /** One firing of the interval armed by StartTimer. */
    method Tick()
      requires Valid() && armed
      modifies this
      ensures Valid() && State() == Pomodoro.Tick(old(State()))
      ensures toasts == old(toasts) + if old(timeLeft) <= 1 then [CompletionToast(old(State()))] else []
    {
      if timeLeft <= 1 {
        HandleTimerComplete();
      } else {
        timeLeft := timeLeft - 1;
      }
    }

    method SwitchMode(mode: Phase)
      requires Valid()
      modifies this
      ensures Valid() && State() == Pomodoro.SwitchMode(old(State()), mode) && toasts == old(toasts)
    {
      ResetTimer();
      timerState := mode;
      timeLeft := Duration(mode);
    }

    /** The unmount cleanup: clears the interval, so no further Tick can be delivered. */
    method Unmount()
      modifies this
      ensures State() == Teardown(old(State())) && toasts == old(toasts)
    {
      if armed {
        armed := false;
      }
    }
  }
}
