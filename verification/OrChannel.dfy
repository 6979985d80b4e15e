/**
 The recursive `or` channel of fig-or-channel.go:10-38 as a step system.

 A call with n >= 2 channels starts a chain of goroutines, one per level of
 recursion.  Level j waits for its first three channels and for the orDone
 channel of level j + 1; its own orDone channel goes to the end of the channel
 list of level j + 1.  So the goroutines wait for each other in cycles.
 */
module OrChannel {

  datatype Chan = Input(i: nat) | OrDone(level: nat)

  // ----- who waits for what

  // Number of goroutines started for n channels.
  function Levels(n: nat): nat
  {
    n / 2
  }

  function Inputs(n: nat): (cs: seq<Chan>)
    ensures |cs| == n && forall i :: 0 <= i < n ==> cs[i] == Input(i)
  {
    seq(n, i requires 0 <= i < n => Input(i))
  }

  // The argument list of the call at level j: append(channels[3:], orDone) of the level above.
  function Channels(n: nat, j: nat): (cs: seq<Chan>)
    requires j < Levels(n)
    ensures |cs| == n - 2 * j >= 2
  {
    if j == 0 then Inputs(n) else Channels(n, j - 1)[3..] + [OrDone(j - 1)]
  }

  // What the inner call `or(append(channels[3:], orDone)...)` returns: a new
  // channel, or its only argument.
  function Inner(n: nat, j: nat): Chan
    requires j < Levels(n)
  {
    if |Channels(n, j)| == 3 then OrDone(j) else OrDone(j + 1)
  }

  // The channels in the select statement at level j.
  function Waits(n: nat, j: nat): set<Chan>
    requires j < Levels(n)
  {
    var cs := Channels(n, j);
    if |cs| == 2 then {cs[0], cs[1]} else {cs[0], cs[1], cs[2], Inner(n, j)}
  }

  // Every channel passed to level j is waited for at level j or below.
  lemma {:induction false} PassedIsAwaited(n: nat, j: nat, c: Chan) returns (k: nat)
    requires j < Levels(n) && c in Channels(n, j)
    ensures j <= k < Levels(n) && c in Waits(n, k)
    decreases Levels(n) - j
  {
    var cs := Channels(n, j);
    if c in Waits(n, j) {
      k := j;
    } else {
      assert |cs| > 3;
      assert c in cs[3..];
      k := PassedIsAwaited(n, j + 1, c);
    }
  }

  // ----- the step system

  datatype Phase = Idle | Spawned | Waiting | Exited   // Exited: the deferred close has run

  datatype State = State(
    closed: set<nat>,      // inputs that have been closed
    received: set<nat>,    // inputs from which a value has been received
    go: seq<Phase>         // one goroutine per level
  )

  datatype Step =
    | CloseInput(i: nat)              // the environment closes an input
    | Receive(level: nat, i: nat)     // a waiting goroutine receives a value from an input
    | Evaluate(level: nat)            // a goroutine makes the inner call and enters its select
    | Fire(level: nat, c: Chan)       // a waiting goroutine sees a closed channel

  predicate IsClosed(s: State, c: Chan)
  {
    match c
    case Input(i) => i in s.closed
    case OrDone(j) => j < |s.go| && s.go[j] == Exited
  }

  predicate Enabled(n: nat, s: State, step: Step)
    requires |s.go| == Levels(n)
  {
    match step
    case CloseInput(i) => i < n
    case Receive(j, i) => j < Levels(n) && s.go[j] == Waiting && Input(i) in Waits(n, j)
    case Evaluate(j) => j < Levels(n) && s.go[j] == Spawned
    case Fire(j, c) => j < Levels(n) && s.go[j] == Waiting && c in Waits(n, j) && IsClosed(s, c)
  }

  function Next(n: nat, s: State, step: Step): State
    requires |s.go| == Levels(n) && Enabled(n, s, step)
  {
    match step
    case CloseInput(i) => s.(closed := s.closed + {i})
    case Receive(j, i) => s.(received := s.received + {i}, go := s.go[j := Exited])
    case Evaluate(j) =>
      var go := s.go[j := Waiting];
      s.(go := if j + 1 < Levels(n) then go[j + 1 := Spawned] else go)
    case Fire(j, c) => s.(go := s.go[j := Exited])
  }

  function Start(n: nat): State
    requires n >= 2
  {
    State({}, {}, seq(Levels(n), j => if j == 0 then Spawned else Idle))
  }

  // A run is the sequence of its steps.
  ghost predicate Runs(n: nat, s: State, steps: seq<Step>, s': State)
    requires |s.go| == Levels(n)
    decreases steps
  {
    if steps == [] then s == s'
    else Enabled(n, s, steps[0]) && Runs(n, Next(n, s, steps[0]), steps[1..], s')
  }

  ghost predicate Reachable(n: nat, s: State)
    requires n >= 2
  {
    |s.go| == Levels(n) && exists steps :: Runs(n, Start(n), steps, s)
  }

  // ----- safety

  predicate SomeInputFired(s: State)
  {
    s.closed != {} || s.received != {}
  }

  ghost predicate Inv(n: nat, s: State)
  {
    && n >= 2 && |s.go| == Levels(n)
    && s.go[0] != Idle
    && (forall j :: 0 <= j < Levels(n) - 1 ==>
          (s.go[j] == Waiting || s.go[j] == Exited <==> s.go[j + 1] != Idle))
    && (forall i :: i in s.closed ==> i < n)
    && ((exists j :: 0 <= j < Levels(n) && s.go[j] == Exited) ==> SomeInputFired(s))
    && (s.received != {} ==> exists j :: 0 <= j < Levels(n) && s.go[j] == Exited)
  }

  lemma StepKeepsInv(n: nat, s: State, step: Step)
    requires Inv(n, s) && Enabled(n, s, step)
    ensures Inv(n, Next(n, s, step))
  {
    var s' := Next(n, s, step);
    match step {
      case CloseInput(i) =>
        assert s'.go == s.go;
        assert i in s'.closed;
      case Receive(j, i) =>
        assert s'.go[j] == Exited;
        assert i in s'.received;
      case Evaluate(j) =>
        assert forall k :: 0 <= k < Levels(n) ==> (s'.go[k] == Exited <==> s.go[k] == Exited);
      case Fire(j, c) =>
        assert s'.go[j] == Exited;
        match c {
          case Input(i) => assert i in s.closed;
          case OrDone(k) => assert s.go[k] == Exited;
        }
    }
  }

  lemma {:induction false} RunKeepsInv(n: nat, s: State, steps: seq<Step>, s': State)
    requires Inv(n, s) && Runs(n, s, steps, s')
    ensures Inv(n, s')
    decreases steps
  {
    if steps != [] {
      StepKeepsInv(n, s, steps[0]);
      RunKeepsInv(n, Next(n, s, steps[0]), steps[1..], s');
    }
  }

  // No orDone channel closes before some original input has been closed or has delivered a value.
  lemma NoEarlyClose(n: nat, s: State, j: nat)
    requires n >= 2 && Reachable(n, s)
    requires IsClosed(s, OrDone(j))
    ensures SomeInputFired(s)
  {
    var steps :| Runs(n, Start(n), steps, s);
    RunKeepsInv(n, Start(n), steps, s);
  }

  // ----- every orDone closes in the end

  predicate Internal(step: Step)
  {
    step.Evaluate? || step.Fire?
  }

  // No goroutine can move by itself.
  ghost predicate Quiescent(n: nat, s: State)
    requires |s.go| == Levels(n)
  {
    forall step :: Internal(step) ==> !Enabled(n, s, step)
  }

  lemma {:induction false} AllStarted(n: nat, s: State, j: nat)
    requires Inv(n, s) && Quiescent(n, s) && j < Levels(n)
    ensures s.go[j] == Waiting || s.go[j] == Exited
  {
    if j > 0 {
      AllStarted(n, s, j - 1);
    }
    assert !Enabled(n, s, Evaluate(j));
  }

  // A level that waits for a closed channel has exited.
  lemma SeesClosed(n: nat, s: State, j: nat, c: Chan)
    requires Inv(n, s) && Quiescent(n, s) && j < Levels(n)
    requires c in Waits(n, j) && IsClosed(s, c)
    ensures s.go[j] == Exited
  {
    AllStarted(n, s, j);
    assert !Enabled(n, s, Fire(j, c));
  }

  // Closing spreads upwards, through the inner calls ...
  lemma {:induction false} SpreadsUp(n: nat, s: State, j: nat, k: nat)
    requires Inv(n, s) && Quiescent(n, s) && k <= j < Levels(n) && s.go[j] == Exited
    ensures s.go[k] == Exited
    decreases j - k
  {
    if k < j {
      SpreadsUp(n, s, j, k + 1);
      assert |Channels(n, k)| >= 4;
      SeesClosed(n, s, k, OrDone(k + 1));
    }
  }

  // ... and downwards, through the appended channels.
  lemma {:induction false} SpreadsDown(n: nat, s: State, j: nat, k: nat)
    requires Inv(n, s) && Quiescent(n, s) && j <= k < Levels(n) && s.go[j] == Exited
    ensures s.go[k] == Exited
    decreases k - j
  {
    if j < k {
      assert OrDone(j) in Channels(n, j + 1) by {
        var cs := Channels(n, j + 1);
        assert cs[|cs| - 1] == OrDone(j);
      }
      var m := PassedIsAwaited(n, j + 1, OrDone(j));
      SeesClosed(n, s, m, OrDone(j));
      SpreadsUp(n, s, m, j + 1);
      SpreadsDown(n, s, j + 1, k);
    }
  }

  // Once an input has fired, every quiescent state has all orDone channels
  // closed and all goroutines gone.
  lemma AllClose(n: nat, s: State)
    requires n >= 2 && Reachable(n, s) && SomeInputFired(s) && Quiescent(n, s)
    ensures forall j :: 0 <= j < Levels(n) ==> s.go[j] == Exited
  {
    var steps :| Runs(n, Start(n), steps, s);
    RunKeepsInv(n, Start(n), steps, s);
    var first: nat;
    if s.received != {} {
      first :| first < Levels(n) && s.go[first] == Exited;
    } else {
      var i :| i in s.closed;
      assert Inputs(n)[i] == Input(i);
      assert Input(i) in Channels(n, 0);
      first := PassedIsAwaited(n, 0, Input(i));
      SeesClosed(n, s, first, Input(i));
    }
    SpreadsUp(n, s, first, 0);
    forall j | 0 <= j < Levels(n) ensures s.go[j] == Exited {
      SpreadsDown(n, s, 0, j);
    }
  }

  // ----- and it does end

  function Rank(p: Phase): nat
  {
    match p
    case Idle => 3
    case Spawned => 2
    case Waiting => 1
    case Exited => 0
  }

  function Work(go: seq<Phase>): nat
  {
    if go == [] then 0 else Rank(go[0]) + Work(go[1..])
  }

  lemma {:induction false} WorkUpdate(go: seq<Phase>, j: nat, p: Phase)
    requires j < |go|
    ensures Work(go[j := p]) == Work(go) - Rank(go[j]) + Rank(p)
  {
    if j > 0 {
      assert go[j := p][1..] == go[1..][j - 1 := p];
      WorkUpdate(go[1..], j - 1, p);
    } else {
      assert go[j := p][1..] == go[1..];
    }
  }

  // Goroutine steps use up work, so that at most Work(s.go) of them can follow.
  lemma {:induction false} InternalRunsEnd(n: nat, s: State, steps: seq<Step>, s': State)
    requires Inv(n, s) && Runs(n, s, steps, s')
    requires forall i :: 0 <= i < |steps| ==> Internal(steps[i])
    ensures |steps| + Work(s'.go) <= Work(s.go)
    decreases steps
  {
    if steps != [] {
      var step := steps[0];
      assert Internal(step);
      StepKeepsInv(n, s, step);
      match step {
        case Evaluate(j) =>
          WorkUpdate(s.go, j, Waiting);
          if j + 1 < Levels(n) {
            WorkUpdate(s.go[j := Waiting], j + 1, Spawned);
          }
        case Fire(j, c) =>
          WorkUpdate(s.go, j, Exited);
      }
      InternalRunsEnd(n, Next(n, s, step), steps[1..], s');
    }
  }

  // From every state the goroutines can run on until none can move.
  lemma {:induction false} ToRest(n: nat, s: State) returns (steps: seq<Step>, s': State)
    requires Inv(n, s)
    ensures Inv(n, s') && Runs(n, s, steps, s') && Quiescent(n, s')
    ensures forall i :: 0 <= i < |steps| ==> Internal(steps[i])
    decreases Work(s.go)
  {
    if Quiescent(n, s) {
      steps, s' := [], s;
    } else {
      var step :| Internal(step) && Enabled(n, s, step);
      var t := Next(n, s, step);
      StepKeepsInv(n, s, step);
      assert Runs(n, t, [], t);
      InternalRunsEnd(n, s, [step], t);
      var rest;
      rest, s' := ToRest(n, t);
      steps := [step] + rest;
    }
  }

  // Any single input will do: when it closes, the goroutines can run on until every level has exited.
  lemma OneInputClosesAll(n: nat, i: nat)
    requires i < n && n >= 2
    ensures exists steps, s :: ClosesAll(n, i, steps, s)
  {
    var t := Next(n, Start(n), CloseInput(i));
    StepKeepsInv(n, Start(n), CloseInput(i));
    var rest, s := ToRest(n, t);
    OnlyGoroutines(n, t, rest, s);
    var steps := [CloseInput(i)] + rest;
    assert steps[1..] == rest;
    assert Runs(n, Start(n), steps, s);
    AllClose(n, s);
    assert ClosesAll(n, i, steps, s);
  }

  // A run in which only input i is closed, everything else is done by goroutines, and all of them exit.
  ghost predicate ClosesAll(n: nat, i: nat, steps: seq<Step>, s: State)
    requires n >= 2
  {
    && steps != [] && steps[0] == CloseInput(i) && (forall k :: 1 <= k < |steps| ==> Internal(steps[k]))
    && Runs(n, Start(n), steps, s) && s.closed == {i} && s.received == {} && |s.go| == Levels(n)
    && forall j :: 0 <= j < Levels(n) ==> s.go[j] == Exited
  }

  lemma {:induction false} OnlyGoroutines(n: nat, s: State, steps: seq<Step>, s': State)
    requires |s.go| == Levels(n) && Runs(n, s, steps, s')
    requires forall i :: 0 <= i < |steps| ==> Internal(steps[i])
    ensures s'.closed == s.closed && s'.received == s.received && |s'.go| == Levels(n)
    decreases steps
  {
    if steps != [] {
      assert Internal(steps[0]);
      OnlyGoroutines(n, Next(n, s, steps[0]), steps[1..], s');
    }
  }
}
