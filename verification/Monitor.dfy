/**
 as_monitor.h with one waiter, which begins, starts an operation and waits for it, over and over,
 and a notifier that ends each operation with as_monitor_notify.
 */
module Monitor {
  import opened Runs

  datatype Lock = Free | ByWaiter | ByNotifier

  datatype Waiter =
    | AtBegin    // before the first of as_monitor_begin and the start of the operation
    | Between    // after the first, before the second
    | Waiting    // at pthread_mutex_lock in as_monitor_wait
    | Checking   // holds the lock, at the loop test
    | Asleep     // in pthread_cond_wait, lock released
    | Woken      // in pthread_cond_wait, to take the lock again
    | Leaving    // holds the lock, loop left

  datatype Notifier =
    | Off
    | Running    // the operation runs; next is pthread_mutex_lock in as_monitor_notify
    | Setting    // holds the lock, complete is still to be set
    | Signalling // holds the lock, complete is set
    | Unlocking  // holds the lock, the signal is sent

  datatype State = State(
    waiter: Waiter, notifier: Notifier, lock: Lock, complete: bool,
    begun: nat, notified: nat, returned: nat,
    beginFirst: bool  // the waiter's order of as_monitor_begin and the start of the operation
  )

  datatype Action = WaiterStep | NotifierStep | SpuriousWakeup

  function Begin(s: State): State { s.(complete := false, begun := s.begun + 1) }

  function StartOperation(s: State): State { s.(notifier := Running) }

  function StepWaiter(s: State): State {
    match s.waiter
    case AtBegin => (if s.beginFirst then Begin(s) else StartOperation(s)).(waiter := Between)
    case Between => (if s.beginFirst then StartOperation(s) else Begin(s)).(waiter := Waiting)
    case Waiting => if s.lock.Free? then s.(lock := ByWaiter, waiter := Checking) else s
    case Checking => if s.complete then s.(waiter := Leaving) else s.(lock := Free, waiter := Asleep)
    case Asleep => s
    case Woken => if s.lock.Free? then s.(lock := ByWaiter, waiter := Checking) else s
    case Leaving => s.(lock := Free, waiter := AtBegin, returned := s.returned + 1)
  }

  function StepNotifier(s: State): State {
    match s.notifier
    case Off => s
    case Running => if s.lock.Free? then s.(lock := ByNotifier, notifier := Setting) else s
    case Setting => s.(complete := true, notified := s.notified + 1, notifier := Signalling)
    case Signalling => s.(notifier := Unlocking, waiter := if s.waiter.Asleep? then Woken else s.waiter)
    case Unlocking => s.(lock := Free, notifier := Off)
  }

  function Step(s: State, a: Action): State {
    match a
    case WaiterStep => StepWaiter(s)
    case NotifierStep => StepNotifier(s)
    case SpuriousWakeup => if s.waiter.Asleep? then s.(waiter := Woken) else s
  }

  function Init(beginFirst: bool): State { State(AtBegin, Off, Free, false, 0, 0, 0, beginFirst) }

  // ------------------------------------------------------------- the invariant

  ghost predicate Inv(s: State) {
    var waiting := !s.waiter.AtBegin? && !s.waiter.Between?;
    var toNotify := s.notifier.Running? || s.notifier.Setting?;
    && s.beginFirst
    && (s.lock.ByWaiter? <==> s.waiter.Checking? || s.waiter.Leaving?)
    && (s.lock.ByNotifier? <==> s.notifier.Setting? || s.notifier.Signalling? || s.notifier.Unlocking?)
    && (!waiting ==> s.notifier.Off? && s.returned == s.notified)
    && (s.waiter.AtBegin? ==> s.notified == s.begun)
    && (s.waiter.Between? ==> s.begun == s.notified + 1 && !s.complete)
    && (waiting ==> s.begun == s.returned + 1)
    && (waiting && toNotify ==> !s.complete && s.notified == s.returned)
    && (waiting && !toNotify ==> s.complete && s.notified == s.begun)
    && (s.waiter.Leaving? ==> s.complete)
    && (s.waiter.Asleep? && s.complete ==> s.notifier.Signalling?)
  }

  lemma {:induction false} RunKeepsInv(s: State, actions: seq<Action>)
    requires Inv(s)
    ensures Inv(Run(Step, s, actions))
    decreases |actions|
  {
    if actions != [] { RunKeepsInv(Step(s, actions[0]), actions[1..]); }
  }

  // --------------------------------------------------------------- every run

  /** The waiter sleeps, nothing will wake it and the operation it waits for is over. */
  predicate Lost(s: State) {
    s.waiter.Asleep? && s.notifier.Off? && s.begun > 0
  }

  /**
   In every interleaving in which as_monitor_begin comes before the start of the operation:
   with complete set and the lock free the waiter is not asleep, no wake-up is lost, and each
   return follows the notification of its own round.
   */
  lemma NoLostWakeup(actions: seq<Action>)
    ensures
      var s := Run(Step, Init(true), actions);
      && (s.complete && s.lock.Free? ==> !s.waiter.Asleep?)
      && !Lost(s)
      && (s.waiter.Leaving? ==> s.notified == s.begun)
      && s.returned <= s.notified <= s.begun <= s.returned + 1
  {
    RunKeepsInv(Init(true), actions);
  }

  /** Once the operation's notification is over, the waiter returns within three of its own steps. */
  lemma NotifiedWaiterReturns(actions: seq<Action>)
    ensures
      var s := Run(Step, Init(true), actions);
      s.returned < s.notified && s.notifier.Off? ==>
        Run(Step, s, [WaiterStep, WaiterStep, WaiterStep]).returned == s.returned + 1
  {
    RunKeepsInv(Init(true), actions);
    var s := Run(Step, Init(true), actions);
    var s1 := StepWaiter(s);
    var s2 := StepWaiter(s1);
    RunThree(Step, s, WaiterStep, WaiterStep, WaiterStep);
  }

  /** Who can move: the waiter when it holds the lock or nothing runs, otherwise the notifier. */
  function Mover(s: State): Action {
    if s.notifier.Off? || s.lock.ByWaiter? then WaiterStep else NotifierStep
  }

  /** A bound on the steps to the next return. */
  function StepsLeft(s: State): nat {
    var w := match s.waiter
      case AtBegin => 60 case Between => 50 case Waiting => 3 case Checking => 2
      case Asleep => 0 case Woken => 3 case Leaving => 1;
    var n := match s.notifier
      case Off => 0 case Running => 40 case Setting => 30 case Signalling => 20 case Unlocking => 10;
    w + n
  }

  lemma MoverGetsOn(s: State)
    requires Inv(s)
    ensures
      var s' := Step(s, Mover(s));
      s'.returned == s.returned + 1 || (s'.returned == s.returned && StepsLeft(s') < StepsLeft(s))
  {
  }

  lemma {:induction false} CompleteRound(s: State) returns (later: seq<Action>)
    requires Inv(s)
    ensures Run(Step, s, later).returned == s.returned + 1 && SpuriousWakeup !in later
    decreases StepsLeft(s)
  {
    var s' := Step(s, Mover(s));
    MoverGetsOn(s);
    if s'.returned == s.returned + 1 {
      later := [Mover(s)];
      RunOne(Step, s, Mover(s));
    } else {
      RunKeepsInv(s, [Mover(s)]);
      RunOne(Step, s, Mover(s));
      var rest := CompleteRound(s');
      later := [Mover(s)] + rest;
      assert later[1..] == rest;
    }
  }

  /** Nothing gets stuck: from every point of every run the round in progress can be completed. */
  lemma NeverStuck(actions: seq<Action>) returns (later: seq<Action>)
    ensures
      var s := Run(Step, Init(true), actions);
      Run(Step, s, later).returned == s.returned + 1 && SpuriousWakeup !in later
  {
    RunKeepsInv(Init(true), actions);
    later := CompleteRound(Run(Step, Init(true), actions));
  }

  /** A spurious wake-up before the notification only makes the waiter look at the flag and sleep again. */
  lemma SpuriousWakeupIsHarmless(s: State)
    requires s.waiter.Asleep? && s.lock.Free? && !s.complete
    ensures Step(s, SpuriousWakeup).waiter.Woken?
    ensures Run(Step, s, [SpuriousWakeup, WaiterStep, WaiterStep]) == s
  {
    RunThree(Step, s, SpuriousWakeup, WaiterStep, WaiterStep);
  }

  /** The operation notifies between its start and a late begin, which wipes the flag. */
  lemma LateBeginLosesWakeup() returns (actions: seq<Action>)
    ensures Lost(Run(Step, Init(false), actions))
  {
    var first := [WaiterStep, NotifierStep, NotifierStep];
    var second := [NotifierStep, NotifierStep, WaiterStep];
    var third := [WaiterStep, WaiterStep, WaiterStep];
    actions := first + (second + third);
    RunAppend(Step, Init(false), first, second + third);
    RunThree(Step, Init(false), WaiterStep, NotifierStep, NotifierStep);
    var s1 := State(Between, Signalling, ByNotifier, true, 0, 1, 0, false);
    assert Run(Step, Init(false), first) == s1;
    RunAppend(Step, s1, second, third);
    RunThree(Step, s1, NotifierStep, NotifierStep, WaiterStep);
    var s2 := State(Waiting, Off, Free, false, 1, 1, 0, false);
    assert Run(Step, s1, second) == s2;
    RunThree(Step, s2, WaiterStep, WaiterStep, WaiterStep);
  }

  /** Whether some interleaving loses a wake-up. */
  ghost predicate CanLose(beginFirst: bool) {
    exists actions :: Lost(Run(Step, Init(beginFirst), actions))
  }

  /** No interleaving loses a wake-up exactly when begin comes before the start. */
  lemma BeginFirstIff(beginFirst: bool)
    ensures CanLose(beginFirst) <==> !beginFirst
  {
    if CanLose(beginFirst) && beginFirst {
      var actions :| Lost(Run(Step, Init(beginFirst), actions));
      NoLostWakeup(actions);
    }
    if !beginFirst {
      var actions := LateBeginLosesWakeup();
      assert Lost(Run(Step, Init(beginFirst), actions));
    }
  }
}
