/**
 newSteward of fig-example-steward-usage.go:45-93 as a step system.  The steward
 restarts a ward that stays silent for too long; every ward runs under
 or(wardDone, done).  Each channel operation of the steward is a step of its own;
 ticks and timeouts may come at any time.
 */
module Steward {

  // What the steward's goroutine does next.
  datatype Phase =
    | NotStarted
    | Monitoring              // at the select
    | Pulsing                 // after a tick: about to offer a heartbeat
    | TimedOut                // about to close wardDone
    | Restarting              // wardDone is closed, its replacement not yet started
    | Leaving                 // has seen done: about to run the deferred close
    | Returned

  // One started ward: how often its wardDone was closed, and whether the
  // channel or(wardDone, done) that it was given has closed.
  datatype Ward = Ward(closes: nat, cancelled: bool)

  datatype State = State(
    phase: Phase,
    wards: seq<Ward>,
    restarts: nat,
    done: bool,               // the caller has closed done
    heartbeats: nat,          // pulses passed on to the caller
    heartbeatCloses: nat
  )

  datatype Step =
    | Begin                   // startWard before the loop
    | Tick                    // case <-pulse
    | Beat(taken: bool)       // the heartbeat is sent only if somebody receives
    | WardPulse               // case <-wardHeartbeat: a new timeout begins
    | Timeout                 // case <-timeoutSignal
    | CloseWard               // close(wardDone)
    | Restart                 // startWard()
    | SeeDone                 // case <-done
    | CloseHeartbeat          // the deferred close
    | CloseDone               // the caller
    | Cancel(i: nat)          // the goroutine of or(wardDone, done) of ward i closes its channel

  const FreshWard := Ward(0, false)

  predicate Enabled(s: State, step: Step)
  {
    match step
    case Begin => s.phase == NotStarted
    case Tick => s.phase == Monitoring
    case Beat(_) => s.phase == Pulsing
    case WardPulse => s.phase == Monitoring
    case Timeout => s.phase == Monitoring
    case CloseWard => s.phase == TimedOut && s.wards != []
    case Restart => s.phase == Restarting
    case SeeDone => s.phase == Monitoring && s.done
    case CloseHeartbeat => s.phase == Leaving
    case CloseDone => !s.done
    case Cancel(i) => i < |s.wards| && !s.wards[i].cancelled && (s.wards[i].closes > 0 || s.done)
  }

  function Next(s: State, step: Step): State
    requires Enabled(s, step)
  {
    match step
    case Begin => s.(phase := Monitoring, wards := s.wards + [FreshWard])
    case Tick => s.(phase := Pulsing)
    case Beat(taken) => s.(phase := Monitoring, heartbeats := s.heartbeats + if taken then 1 else 0)
    case WardPulse => s
    case Timeout => s.(phase := TimedOut)
    case CloseWard =>
      var last := |s.wards| - 1;
      s.(phase := Restarting, wards := s.wards[last := s.wards[last].(closes := s.wards[last].closes + 1)])
    case Restart => s.(phase := Monitoring, wards := s.wards + [FreshWard], restarts := s.restarts + 1)
    case SeeDone => s.(phase := Leaving)
    case CloseHeartbeat => s.(phase := Returned, heartbeatCloses := s.heartbeatCloses + 1)
    case CloseDone => s.(done := true)
    case Cancel(i) => s.(wards := s.wards[i := s.wards[i].(cancelled := true)])
  }

  function Start(): State
  {
    State(NotStarted, [], 0, false, 0, 0)
  }

  ghost predicate Runs(s: State, steps: seq<Step>, s': State)
    decreases steps
  {
    if steps == [] then s == s' else Enabled(s, steps[0]) && Runs(Next(s, steps[0]), steps[1..], s')
  }

  ghost predicate Reachable(s: State)
  {
    exists steps :: Runs(Start(), steps, s)
  }

  // Has the steward done with ward i: replaced it, or closed it to replace it?
  predicate GivenUp(s: State, i: nat)
  {
    i + 1 < |s.wards| || s.phase == Restarting
  }

  ghost predicate Inv(s: State)
  {
    && (s.phase == NotStarted <==> s.wards == [])
    && |s.wards| == (if s.phase == NotStarted then 0 else s.restarts + 1)
    && (s.phase == NotStarted ==> s.restarts == 0)
    && (forall i :: 0 <= i < |s.wards| ==> s.wards[i].closes == if GivenUp(s, i) then 1 else 0)
    && (forall i :: 0 <= i < |s.wards| && s.wards[i].cancelled ==> s.wards[i].closes > 0 || s.done)
    && (s.phase == Leaving || s.phase == Returned ==> s.done)
    && s.heartbeatCloses == (if s.phase == Returned then 1 else 0)
  }

  lemma StepKeepsInv(s: State, step: Step)
    requires Inv(s) && Enabled(s, step)
    ensures Inv(Next(s, step))
  {
  }

  lemma {:induction false} RunKeepsInv(s: State, steps: seq<Step>, s': State)
    requires Inv(s) && Runs(s, steps, s')
    ensures Inv(s')
    decreases steps
  {
    if steps != [] {
      StepKeepsInv(s, steps[0]);
      RunKeepsInv(Next(s, steps[0]), steps[1..], s');
    }
  }

  // In every run: at most the newest ward has an open wardDone, and it has one
  // except between its close and the start of its replacement; no wardDone is
  // closed twice; wards number restarts plus one; and the heartbeat is closed
  // exactly when the steward has returned.
  lemma OneOpenWard(s: State)
    requires Reachable(s) && s.phase != NotStarted
    ensures |s.wards| == s.restarts + 1
    ensures forall i :: 0 <= i < |s.wards| ==> s.wards[i].closes <= 1
    ensures forall i :: 0 <= i < |s.wards| ==>
      (s.wards[i].closes == 0 <==> i == |s.wards| - 1 && s.phase != Restarting)
    ensures s.heartbeatCloses == if s.phase == Returned then 1 else 0
  {
    var steps :| Runs(Start(), steps, s);
    RunKeepsInv(Start(), steps, s);
  }

  // A ward is told to stop only because it was or is being replaced, or because of done.
  lemma NoNeedlessCancel(s: State, i: nat)
    requires Reachable(s) && i < |s.wards| && s.wards[i].cancelled
    ensures i + 1 < |s.wards| || s.phase == Restarting || s.done
  {
    var steps :| Runs(Start(), steps, s);
    RunKeepsInv(Start(), steps, s);
  }

  // For a moment no ward has an open wardDone, and the only one may be gone already.
  lemma GapBetweenWards()
    ensures exists s :: Reachable(s) && !s.done && s.wards == [Ward(1, true)]
  {
    var s0 := Start();
    var s1 := Next(s0, Begin);
    var s2 := Next(s1, Timeout);
    var s3 := Next(s2, CloseWard);
    var s4 := Next(s3, Cancel(0));
    assert Runs(s4, [], s4);
    assert Runs(s3, [Cancel(0)], s4);
    assert [CloseWard, Cancel(0)][1..] == [Cancel(0)];
    assert Runs(s2, [CloseWard, Cancel(0)], s4);
    assert [Timeout, CloseWard, Cancel(0)][1..] == [CloseWard, Cancel(0)];
    assert Runs(s1, [Timeout, CloseWard, Cancel(0)], s4);
    assert [Begin, Timeout, CloseWard, Cancel(0)][1..] == [Timeout, CloseWard, Cancel(0)];
    assert Runs(s0, [Begin, Timeout, CloseWard, Cancel(0)], s4);
  }

  // Once the steward has returned, every ward ever started has a closed cancel
  // source; when its `or` goroutines have come to rest, every ward is cancelled.
  lemma ReturnCancelsAll(s: State)
    requires Reachable(s) && s.phase == Returned
    ensures forall i :: 0 <= i < |s.wards| ==> s.wards[i].closes > 0 || s.done
    ensures (forall i: nat :: !Enabled(s, Cancel(i))) ==> forall i :: 0 <= i < |s.wards| ==> s.wards[i].cancelled
  {
    var steps :| Runs(Start(), steps, s);
    RunKeepsInv(Start(), steps, s);
    if forall i: nat :: !Enabled(s, Cancel(i)) {
      forall i | 0 <= i < |s.wards| ensures s.wards[i].cancelled {
        assert !Enabled(s, Cancel(i));
      }
    }
  }

  // After the return nothing is sent on the closed heartbeat and no ward is started.
  lemma ReturnIsFinal(s: State, step: Step)
    requires Reachable(s) && s.phase == Returned && Enabled(s, step)
    ensures var s' := Next(s, step);
      s'.phase == Returned && s'.heartbeats == s.heartbeats && s'.heartbeatCloses == 1 && |s'.wards| == |s.wards|
  {
    var steps :| Runs(Start(), steps, s);
    RunKeepsInv(Start(), steps, s);
  }

  // ----- restarts, and that the steward goes on

  function Timeouts(steps: seq<Step>): nat
  {
    if steps == [] then 0 else (if steps[0] == Timeout then 1 else 0) + Timeouts(steps[1..])
  }

  // Timeouts that have been noticed and not yet answered by a new ward.
  function Unanswered(s: State): nat
  {
    if s.phase == TimedOut || s.phase == Restarting then 1 else 0
  }

  // In every run each timeout leads to one restart, and nothing else does.
  lemma {:induction false} RestartsAreTimeouts(s: State, steps: seq<Step>, s': State)
    requires Runs(s, steps, s')
    ensures s'.restarts + Unanswered(s') == s.restarts + Unanswered(s) + Timeouts(steps)
    decreases steps
  {
    if steps != [] {
      RestartsAreTimeouts(Next(s, steps[0]), steps[1..], s');
    }
  }

  lemma RestartsFromStart(s: State, steps: seq<Step>)
    requires Runs(Start(), steps, s)
    ensures s.restarts <= Timeouts(steps) <= s.restarts + 1
    ensures s.phase == Monitoring ==> s.restarts == Timeouts(steps) && |s.wards| == s.restarts + 1
  {
    RestartsAreTimeouts(Start(), steps, s);
    RunKeepsInv(Start(), steps, s);
  }

  // At its select the steward listens to everything; elsewhere it has one thing to do.
  lemma StewardGoesOn(s: State)
    requires Reachable(s)
    ensures match s.phase
      case NotStarted => Enabled(s, Begin) && Next(s, Begin).phase == Monitoring
      case Monitoring =>
        Enabled(s, Tick) && Enabled(s, WardPulse) && Enabled(s, Timeout) && (s.done ==> Enabled(s, SeeDone))
      case Pulsing => Enabled(s, Beat(true)) && Enabled(s, Beat(false)) && Next(s, Beat(true)).phase == Monitoring
      case TimedOut => Enabled(s, CloseWard) && Next(s, CloseWard).phase == Restarting
      case Restarting => Enabled(s, Restart) && Next(s, Restart).wards == s.wards + [FreshWard]
      case Leaving => Enabled(s, CloseHeartbeat) && Next(s, CloseHeartbeat).phase == Returned
      case Returned => true
  {
    var steps :| Runs(Start(), steps, s);
    RunKeepsInv(Start(), steps, s);
  }

  function StepsLeft(p: Phase): nat
  {
    match p
    case Returned => 0
    case Leaving => 1
    case Monitoring => 2
    case NotStarted => 3
    case Pulsing => 3
    case Restarting => 3
    case TimedOut => 4
  }

  // Once done is closed the steward can return within four steps of its own, wherever it is.
  lemma CanReturn(s: State) returns (steps: seq<Step>, s': State)
    requires Inv(s) && s.done
    ensures Runs(s, steps, s') && s'.phase == Returned && |steps| == StepsLeft(s.phase) <= 4
    decreases StepsLeft(s.phase)
  {
    if s.phase == Returned {
      return [], s;
    }
    var step := match s.phase
      case NotStarted => Begin
      case Pulsing => Beat(false)
      case TimedOut => CloseWard
      case Restarting => Restart
      case Leaving => CloseHeartbeat
      case _ => SeeDone;
    StepKeepsInv(s, step);
    var rest;
    rest, s' := CanReturn(Next(s, step));
    steps := [step] + rest;
  }
}
