/**
 fanIn of fig-fan-out-naive-prime-finder.go:86-117 as a step system: one
 multiplexer per input channel, a WaitGroup, and a goroutine that closes the
 output when the WaitGroup reaches zero.  All channels are unbuffered, so that
 a send and the matching receive are one step.
 */
module FanIn {

  // Where a multiplexer is in its loop.
  datatype Mux<T> =
    | Receiving                // at `range c`
    | Sending(v: T)            // in the select, with a value in hand
    | Leaving(dropped: bool)   // out of the loop; `dropped` if a value was given up on done
    | Returned(dropped: bool)  // the deferred wg.Done has run

  // The goroutine that closes the output.
  datatype Closer = Waiting | Released | Exited

  datatype State<T> = State(
    sent: seq<seq<T>>,         // what each producer has handed over so far
    inputClosed: seq<bool>,
    mux: seq<Mux<T>>,
    wg: int,
    closer: Closer,
    out: seq<(nat, T)>,        // what the consumer has received, with its origin
    outClosed: nat,            // how often the output has been closed
    done: bool
  )

  datatype Step<T> =
    | Produce(i: nat, v: T)    // a producer hands v to its multiplexer
    | CloseInput(i: nat)
    | EndRange(i: nat)         // the range loop ends on a closed input
    | Deliver(i: nat)          // the select sends to the output
    | Drop(i: nat)             // the select takes the done case
    | Finish(i: nat)           // the deferred wg.Done
    | CloseDone
    | WaitReturns              // wg.Wait returns
    | CloseOut                 // close(multiplexedStream)

  predicate Sized<T>(n: nat, s: State<T>)
  {
    |s.sent| == n && |s.inputClosed| == n && |s.mux| == n
  }

  predicate Enabled<T>(n: nat, s: State<T>, step: Step<T>)
    requires Sized(n, s)
  {
    match step
    case Produce(i, v) => i < n && s.mux[i].Receiving? && !s.inputClosed[i]
    case CloseInput(i) => i < n && !s.inputClosed[i]
    case EndRange(i) => i < n && s.mux[i].Receiving? && s.inputClosed[i]
    case Deliver(i) => i < n && s.mux[i].Sending?
    case Drop(i) => i < n && s.mux[i].Sending? && s.done
    case Finish(i) => i < n && s.mux[i].Leaving?
    case CloseDone => !s.done
    case WaitReturns => s.closer.Waiting? && s.wg == 0
    case CloseOut => s.closer.Released?
  }

  function Next<T>(n: nat, s: State<T>, step: Step<T>): State<T>
    requires Sized(n, s) && Enabled(n, s, step)
  {
    match step
    case Produce(i, v) => s.(sent := s.sent[i := s.sent[i] + [v]], mux := s.mux[i := Sending(v)])
    case CloseInput(i) => s.(inputClosed := s.inputClosed[i := true])
    case EndRange(i) => s.(mux := s.mux[i := Leaving(false)])
    case Deliver(i) => s.(out := s.out + [(i, s.mux[i].v)], mux := s.mux[i := Receiving])
    case Drop(i) => s.(mux := s.mux[i := Leaving(true)])
    case Finish(i) => s.(mux := s.mux[i := Returned(s.mux[i].dropped)], wg := s.wg - 1)
    case CloseDone => s.(done := true)
    case WaitReturns => s.(closer := Released)
    case CloseOut => s.(closer := Exited, outClosed := s.outClosed + 1)
  }

  function Start<T>(n: nat): (s: State<T>)
    ensures Sized(n, s)
  {
    State(seq(n, i => []), seq(n, i => false), seq(n, i => Receiving), n, Waiting, [], 0, false)
  }

  ghost predicate Runs<T>(n: nat, s: State<T>, steps: seq<Step<T>>, s': State<T>)
    requires Sized(n, s)
    decreases steps
  {
    if steps == [] then s == s'
    else Enabled(n, s, steps[0]) && Runs(n, Next(n, s, steps[0]), steps[1..], s')
  }

  ghost predicate Reachable<T(!new)>(n: nat, s: State<T>)
  {
    exists steps :: Runs(n, Start(n), steps, s)
  }

  // ----- the invariant

  // What the consumer got from input i, in order.
  function From<T>(out: seq<(nat, T)>, i: nat): seq<T>
  {
    if out == [] then []
    else From(out[..|out| - 1], i) + if out[|out| - 1].0 == i then [out[|out| - 1].1] else []
  }

  // What input i handed over and the consumer has not got: the value in hand or the one dropped.
  predicate InFlight<T(==)>(s: State<T>, i: nat, rest: seq<T>)
    requires i < |s.mux|
  {
    match s.mux[i]
    case Receiving => rest == []
    case Sending(v) => rest == [v]
    case _ => |rest| == (if s.mux[i].dropped then 1 else 0) && (s.mux[i].dropped ==> s.done)
  }

  function Live<T>(mux: seq<Mux<T>>): nat
  {
    if mux == [] then 0 else (if mux[0].Returned? then 0 else 1) + Live(mux[1..])
  }

  ghost predicate Inv<T>(n: nat, s: State<T>)
  {
    && Sized(n, s)
    && s.wg == Live(s.mux)
    && s.outClosed == (if s.closer.Exited? then 1 else 0)
    && (!s.closer.Waiting? ==> s.wg == 0)
    && FromInputs(s.out, n)
    && (forall i :: 0 <= i < n ==> InOrder(n, s, i))
  }

  // Everything in the output comes from one of the n inputs.
  ghost predicate FromInputs<T>(out: seq<(nat, T)>, n: nat)
  {
    forall k :: 0 <= k < |out| ==> out[k].0 < n
  }

  // Per-input order is kept, and what is missing is in flight.
  ghost predicate InOrder<T>(n: nat, s: State<T>, i: nat)
    requires Sized(n, s) && i < n
  {
    && From(s.out, i) <= s.sent[i]
    && InFlight(s, i, s.sent[i][|From(s.out, i)|..])
    && (s.mux[i] == Leaving(false) || s.mux[i] == Returned(false) ==> s.inputClosed[i])
  }

  lemma {:induction false} LiveUpdate<T>(mux: seq<Mux<T>>, i: nat, m: Mux<T>)
    requires i < |mux|
    ensures Live(mux[i := m]) == Live(mux) - (if mux[i].Returned? then 0 else 1) + (if m.Returned? then 0 else 1)
  {
    if i == 0 {
      assert mux[i := m][1..] == mux[1..];
    } else {
      assert mux[i := m][1..] == mux[1..][i - 1 := m];
      LiveUpdate(mux[1..], i - 1, m);
    }
  }

  lemma {:induction false} NoneLive<T>(mux: seq<Mux<T>>)
    ensures Live(mux) == 0 <==> forall i :: 0 <= i < |mux| ==> mux[i].Returned?
  {
    if mux != [] {
      NoneLive(mux[1..]);
      if forall i :: 0 <= i < |mux| ==> mux[i].Returned? {
        assert mux[0].Returned?;
        assert forall i :: 0 <= i < |mux[1..]| ==> mux[1..][i] == mux[i + 1];
      }
      if Live(mux) == 0 {
        forall i | 0 <= i < |mux| ensures mux[i].Returned? {
          if i > 0 {
            assert mux[i] == mux[1..][i - 1];
          }
        }
      }
    }
  }

  lemma {:induction false} StartLive<T>(mux: seq<Mux<T>>)
    requires forall i :: 0 <= i < |mux| ==> mux[i].Receiving?
    ensures Live(mux) == |mux|
  {
    if mux != [] {
      StartLive(mux[1..]);
    }
  }

  lemma StartInv<T>(n: nat)
    ensures Inv<T>(n, Start(n))
  {
    StartLive(Start<T>(n).mux);
  }

  lemma FromSnoc<T>(out: seq<(nat, T)>, e: (nat, T), i: nat)
    ensures From(out + [e], i) == From(out, i) + if e.0 == i then [e.1] else []
  {
    assert (out + [e])[..|out|] == out;
  }

  lemma StepKeepsOrder<T>(n: nat, s: State<T>, step: Step<T>, k: nat)
    requires Sized(n, s) && Enabled(n, s, step) && k < n && InOrder(n, s, k)
    ensures InOrder(n, Next(n, s, step), k)
  {
    hide From;
    var s' := Next(n, s, step);
    var got := From(s.out, k);
    assert s.sent[k] == got + s.sent[k][|got|..];
    if step.Produce? && step.i == k {
      assert s'.sent[k][|got|..] == s.sent[k][|got|..] + [step.v];
    }
    if step.Deliver? {
      FromSnoc(s.out, (step.i, s.mux[step.i].v), k);
    }
  }

  lemma StepKeepsInv<T>(n: nat, s: State<T>, step: Step<T>)
    requires Inv(n, s) && Enabled(n, s, step)
    ensures Inv(n, Next(n, s, step))
  {
    var s' := Next(n, s, step);
    forall k | 0 <= k < n ensures InOrder(n, s', k) {
      StepKeepsOrder(n, s, step, k);
    }
    NoneLive(s.mux);
    match step {
      case Produce(i, v) => LiveUpdate(s.mux, i, Sending(v));
      case CloseInput(i) =>
      case EndRange(i) => LiveUpdate(s.mux, i, Leaving(false));
      case Deliver(i) => LiveUpdate(s.mux, i, Receiving);
      case Drop(i) => LiveUpdate(s.mux, i, Leaving(true));
      case Finish(i) => LiveUpdate(s.mux, i, Returned(s.mux[i].dropped));
      case CloseDone =>
      case WaitReturns =>
      case CloseOut =>
    }
  }

  lemma {:induction false} RunKeepsInv<T>(n: nat, s: State<T>, steps: seq<Step<T>>, s': State<T>)
    requires Inv(n, s) && Runs(n, s, steps, s')
    ensures Inv(n, s')
    decreases steps
  {
    if steps != [] {
      StepKeepsInv(n, s, steps[0]);
      RunKeepsInv(n, Next(n, s, steps[0]), steps[1..], s');
    }
  }

  // ----- what it means for every run

  // The output is an interleaving of prefixes of the n inputs: every value comes
  // from one of them, those from input i are a prefix of what it handed over,
  // at most one value of each input is missing, and a value is given up only after done.
  lemma OutputInterleavesPrefixes<T(!new)>(n: nat, s: State<T>, i: nat)
    requires Reachable(n, s) && i < n
    ensures Sized(n, s) && From(s.out, i) <= s.sent[i]
    ensures forall k :: 0 <= k < |s.out| ==> s.out[k].0 < n
    ensures |s.sent[i]| <= |From(s.out, i)| + 1
    ensures s.mux[i] == Returned(false) ==> From(s.out, i) == s.sent[i]
    ensures s.mux[i] == Returned(true) ==> s.done
  {
    ReachableInv(n, s);
    assert InOrder(n, s, i);
  }

  lemma ReachableInv<T(!new)>(n: nat, s: State<T>)
    requires Reachable(n, s)
    ensures Inv(n, s)
  {
    var steps :| Runs(n, Start(n), steps, s);
    StartInv<T>(n);
    RunKeepsInv(n, Start(n), steps, s);
  }

  // No value is made up or doubled: the output is as long as what came through from all inputs.
  function Total<T>(out: seq<(nat, T)>, n: nat): nat
  {
    if n == 0 then 0 else Total(out, n - 1) + |From(out, n - 1)|
  }

  lemma {:induction false} TotalSnoc<T>(out: seq<(nat, T)>, e: (nat, T), n: nat)
    ensures Total(out + [e], n) == Total(out, n) + if e.0 < n then 1 else 0
  {
    if n > 0 {
      TotalSnoc(out, e, n - 1);
      FromSnoc(out, e, n - 1);
    }
  }

  lemma {:induction false} TotalNone<T>(n: nat)
    ensures Total<T>([], n) == 0
  {
    if n > 0 {
      TotalNone<T>(n - 1);
    }
  }

  lemma {:induction false} AllFromInputs<T>(out: seq<(nat, T)>, n: nat)
    requires FromInputs(out, n)
    ensures Total(out, n) == |out|
  {
    if out == [] {
      TotalNone<T>(n);
    } else {
      var init, last := out[..|out| - 1], out[|out| - 1];
      assert out == init + [last];
      AllFromInputs(init, n);
      TotalSnoc(init, last, n);
    }
  }

  // In every run the output holds exactly the values that came through from the n inputs.
  lemma OutputConserved<T(!new)>(n: nat, s: State<T>)
    requires Reachable(n, s)
    ensures |s.out| == Total(s.out, n)
  {
    ReachableInv(n, s);
    AllFromInputs(s.out, n);
  }

  // The output is closed at most once and only when every multiplexer has
  // returned; after that nothing is sent, and the WaitGroup never goes negative.
  lemma ClosedOnceAndLast<T(!new)>(n: nat, s: State<T>, step: Step<T>)
    requires Reachable(n, s)
    ensures Sized(n, s) && s.outClosed <= 1 && s.wg >= 0
    ensures s.outClosed == 1 ==> forall i :: 0 <= i < n ==> s.mux[i].Returned?
    ensures s.outClosed == 1 && Enabled(n, s, step) ==> Next(n, s, step).out == s.out && !step.CloseOut?
  {
    ReachableInv(n, s);
    NoneLive(s.mux);
  }

  // Steps that need neither a producer nor the caller who closes done, with a
  // consumer that keeps receiving.
  predicate Internal<T>(step: Step<T>)
  {
    !step.Produce? && !step.CloseInput? && !step.CloseDone?
  }

  ghost predicate Quiescent<T(!new)>(n: nat, s: State<T>)
    requires Sized(n, s)
  {
    forall step: Step<T> :: Internal(step) ==> !Enabled(n, s, step)
  }

  // A run that has come to rest has closed its output exactly if every input
  // was closed or has handed over a value that the consumer did not get.
  // Closing done alone is not enough: a multiplexer at `range c` does not look at it.
  lemma RestsClosedIff<T(!new)>(n: nat, s: State<T>)
    requires Reachable(n, s) && Sized(n, s) && Quiescent(n, s)
    ensures s.outClosed == 1 <==> forall i :: 0 <= i < n ==> s.inputClosed[i] || |From(s.out, i)| < |s.sent[i]|
  {
    ReachableInv(n, s);
    assert !Enabled(n, s, WaitReturns) && !Enabled(n, s, CloseOut);
    NoneLive(s.mux);
    forall i | 0 <= i < n
      ensures s.mux[i].Returned? <==> s.inputClosed[i] || |From(s.out, i)| < |s.sent[i]|
    {
      assert InOrder(n, s, i);
      assert !Enabled(n, s, EndRange(i)) && !Enabled(n, s, Deliver(i)) && !Enabled(n, s, Finish(i));
    }
  }

  // ----- and it does come to rest

  function Rank<T>(m: Mux<T>): nat
  {
    match m
    case Sending(_) => 3
    case Receiving => 2
    case Leaving(_) => 1
    case Returned(_) => 0
  }

  function Work<T>(mux: seq<Mux<T>>): nat
  {
    if mux == [] then 0 else Rank(mux[0]) + Work(mux[1..])
  }

  function WorkLeft<T>(s: State<T>): nat
  {
    Work(s.mux) + if s.closer.Waiting? then 2 else if s.closer.Released? then 1 else 0
  }

  lemma {:induction false} WorkUpdate<T>(mux: seq<Mux<T>>, i: nat, m: Mux<T>)
    requires i < |mux|
    ensures Work(mux[i := m]) == Work(mux) - Rank(mux[i]) + Rank(m)
  {
    if i == 0 {
      assert mux[i := m][1..] == mux[1..];
    } else {
      assert mux[i := m][1..] == mux[1..][i - 1 := m];
      WorkUpdate(mux[1..], i - 1, m);
    }
  }

  // Internal steps use up work, so that from any state on only boundedly many can follow.
  lemma {:induction false} InternalRunsEnd<T>(n: nat, s: State<T>, steps: seq<Step<T>>, s': State<T>)
    requires Sized(n, s) && Runs(n, s, steps, s')
    requires forall i :: 0 <= i < |steps| ==> Internal(steps[i])
    ensures |steps| + WorkLeft(s') <= WorkLeft(s)
    decreases steps
  {
    if steps != [] {
      var step := steps[0];
      assert Internal(step);
      var t := Next(n, s, step);
      if step.EndRange? || step.Deliver? || step.Drop? || step.Finish? {
        WorkUpdate(s.mux, step.i, t.mux[step.i]);
      }
      InternalRunsEnd(n, t, steps[1..], s');
    }
  }

  // From every state the goroutines can run on until none can move.
  lemma {:induction false} ToRest<T(!new)>(n: nat, s: State<T>) returns (steps: seq<Step<T>>, s': State<T>)
    requires Inv(n, s)
    ensures Inv(n, s') && Runs(n, s, steps, s') && Quiescent(n, s')
    ensures forall i :: 0 <= i < |steps| ==> Internal(steps[i])
    decreases WorkLeft(s)
  {
    if Quiescent(n, s) {
      steps, s' := [], s;
    } else {
      var step: Step<T> :| Internal(step) && Enabled(n, s, step);
      var t := Next(n, s, step);
      StepKeepsInv(n, s, step);
      assert Runs(n, t, [], t);
      InternalRunsEnd(n, s, [step], t);
      var rest;
      rest, s' := ToRest(n, t);
      steps := [step] + rest;
    }
  }

  // At rest with done open nothing is missing, and every input that is still open can hand over its next value.
  lemma RestsOpen<T(!new)>(n: nat, s: State<T>, i: nat, v: T)
    requires Reachable(n, s) && Sized(n, s) && Quiescent(n, s) && i < n && !s.done
    ensures From(s.out, i) == s.sent[i]
    ensures !s.inputClosed[i] ==> Enabled(n, s, Produce(i, v)) && Next(n, s, Produce(i, v)).sent[i] == s.sent[i] + [v]
    ensures !s.inputClosed[i] ==> Enabled(n, s, CloseInput(i))
  {
    ReachableInv(n, s);
    assert InOrder(n, s, i);
    assert !Enabled(n, s, Deliver(i)) && !Enabled(n, s, Finish(i));
  }

  // And then the consumer gets it.
  lemma NextValueArrives<T(!new)>(n: nat, s: State<T>, i: nat, v: T) returns (s': State<T>)
    requires Reachable(n, s) && Sized(n, s) && Quiescent(n, s) && i < n && !s.done && !s.inputClosed[i]
    ensures Runs(n, s, [Produce(i, v), Deliver(i)], s') && s'.out == s.out + [(i, v)]
  {
    RestsOpen(n, s, i, v);
    var t := Next(n, s, Produce(i, v));
    s' := Next(n, t, Deliver(i));
    assert Runs(n, s', [], s');
    assert [Produce(i, v), Deliver(i)][1..] == [Deliver(i)];
    assert Runs(n, t, [Deliver(i)], s');
  }

  // A run in which done is closed and the output never will be.
  lemma DoneAloneDoesNotClose()
    ensures exists s: State<int> :: Reachable(1, s) && Sized(1, s) && s.done && Quiescent(1, s) && s.outClosed == 0
  {
    var s0 := Start<int>(1);
    var s := Next(1, s0, CloseDone);
    assert Runs(1, s, [], s);
    assert Runs(1, s0, [CloseDone], s);
    assert Reachable(1, s);
    assert Quiescent(1, s);
  }
}
