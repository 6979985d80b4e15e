/**
 The shared queue of pthread_cond.c: how a batch is inserted and an item taken
 (lines 119-132 and 179-183), and the locking protocol around them with one
 producer, any number of consumers and a broadcast (lines 83-195).
 */
module CondQueue {

  const MAX_Q_SIZE := 20
  const NEWLINE := 10

  // ----- the ring, as a value

  // The items that consumers will take, in that order.
  function Pending(q: seq<int>, idx: nat, cnt: nat): (p: seq<int>)
    requires |q| == MAX_Q_SIZE
    ensures |p| == cnt && forall j :: 0 <= j < cnt ==> p[j] == q[(idx + j) % MAX_Q_SIZE]
  {
    seq(cnt, j requires 0 <= j < cnt => q[(idx + j) % MAX_Q_SIZE])
  }

  // The part of a batch that is inserted: up to a newline, and while there is room.
  function Accepted(buf: seq<int>, cnt: nat): seq<int>
  {
    if buf == [] || cnt >= MAX_Q_SIZE || buf[0] == NEWLINE then []
    else [buf[0]] + Accepted(buf[1..], cnt + 1)
  }

  lemma {:induction false} AcceptedBound(buf: seq<int>, cnt: nat)
    requires cnt <= MAX_Q_SIZE
    ensures |Accepted(buf, cnt)| <= MAX_Q_SIZE - cnt
    ensures Accepted(buf, cnt) <= buf && NEWLINE !in Accepted(buf, cnt)
    ensures var m := |Accepted(buf, cnt)|; m < |buf| ==> buf[m] == NEWLINE || cnt + m == MAX_Q_SIZE
  {
    if buf != [] && cnt < MAX_Q_SIZE && buf[0] != NEWLINE {
      AcceptedBound(buf[1..], cnt + 1);
      assert buf == [buf[0]] + buf[1..];
    }
  }

  // Insertion starts at the read index, whatever is still pending there.
  function Overwrite(q: seq<int>, idx: nat, items: seq<int>): (r: seq<int>)
    requires |q| == MAX_Q_SIZE && |items| <= MAX_Q_SIZE
    ensures |r| == MAX_Q_SIZE
    decreases |items|
  {
    if items == [] then q
    else
      var last := |items| - 1;
      Overwrite(q, idx, items[..last])[(idx + last) % MAX_Q_SIZE := items[last]]
  }

  lemma {:induction false} OverwriteAt(q: seq<int>, idx: nat, items: seq<int>, j: nat)
    requires |q| == MAX_Q_SIZE && |items| <= MAX_Q_SIZE && j < MAX_Q_SIZE
    ensures Overwrite(q, idx, items)[(idx + j) % MAX_Q_SIZE] ==
            if j < |items| then items[j] else q[(idx + j) % MAX_Q_SIZE]
    decreases |items|
  {
    if items != [] {
      var last := |items| - 1;
      OverwriteAt(q, idx, items[..last], j);
      if j != last {
        RingDistinct(idx, j, last);
      }
    }
  }

  lemma RingDistinct(idx: nat, a: nat, b: nat)
    requires a < MAX_Q_SIZE && b < MAX_Q_SIZE && a != b
    ensures (idx + a) % MAX_Q_SIZE != (idx + b) % MAX_Q_SIZE
  {
  }

  lemma RingIndex(idx: nat, i: nat, j: nat)
    requires j < MAX_Q_SIZE && (j == idx + i || j == idx + i - MAX_Q_SIZE)
    ensures (idx + i) % MAX_Q_SIZE == j
  {
  }

  // A batch that meets an empty queue comes out as it went in.
  lemma EmptyQueueIsFifo(q: seq<int>, idx: nat, items: seq<int>)
    requires |q| == MAX_Q_SIZE && |items| <= MAX_Q_SIZE
    ensures Pending(Overwrite(q, idx, items), idx, |items|) == items
  {
    forall j | 0 <= j < |items| ensures Overwrite(q, idx, items)[(idx + j) % MAX_Q_SIZE] == items[j] {
      OverwriteAt(q, idx, items, j);
    }
  }

  // Does inserting m items on top of c pending ones always append them?
  ghost predicate KeepsOrder(c: nat, m: nat)
    requires c + m <= MAX_Q_SIZE
  {
    forall q: seq<int>, idx: nat, items: seq<int> ::
      |q| == MAX_Q_SIZE && |items| == m ==>
        Pending(Overwrite(q, idx, items), idx, c + m) == Pending(q, idx, c) + items
  }

  // Exactly when there is nothing pending or nothing to insert.
  lemma FifoIff(c: nat, m: nat)
    requires c + m <= MAX_Q_SIZE
    ensures KeepsOrder(c, m) <==> c == 0 || m == 0
  {
    if c == 0 {
      forall q: seq<int>, idx: nat, items: seq<int> | |q| == MAX_Q_SIZE && |items| == m
        ensures Pending(Overwrite(q, idx, items), idx, c + m) == Pending(q, idx, c) + items
      {
        EmptyQueueIsFifo(q, idx, items);
        assert Pending(q, idx, c) == [];
      }
    } else if m > 0 {
      var q, items := seq(MAX_Q_SIZE, _ => 0), seq(m, _ => 1);
      OverwriteAt(q, 0, items, 0);
      assert Pending(Overwrite(q, 0, items), 0, c + m)[0] == 1;
      assert (Pending(q, 0, c) + items)[0] == 0;
    }
  }

  // ----- the ring in place

  class Shared {
    const queue: array<int>
    var idx: nat
    var cnt: nat

    // calloc and memset (lines 55-58).
    constructor ()
      ensures Valid() && idx == 0 && cnt == 0 && fresh(queue)
      ensures queue[..] == seq(MAX_Q_SIZE, _ => 0)
    {
      queue := new int[MAX_Q_SIZE](_ => 0);
      idx, cnt := 0, 0;
    }

    ghost predicate Valid()
      reads this, queue
    {
      queue.Length == MAX_Q_SIZE && idx <= MAX_Q_SIZE && cnt <= MAX_Q_SIZE
    }

    /** Thread A under the lock (lines 120-132). */
    method Insert(buf: seq<int>) returns (flagEmpty: bool)
      requires Valid()
      modifies this`cnt, queue
      ensures Valid() && flagEmpty == (old(cnt) == 0)
      ensures var items := Accepted(buf, old(cnt));
        && |items| <= MAX_Q_SIZE
        && cnt == old(cnt) + |items| && queue[..] == Overwrite(old(queue[..]), idx, items)
    {
      flagEmpty := cnt == 0;
      AcceptedBound(buf, cnt);
      ghost var items := Accepted(buf, cnt);
      var i, j := 0, idx;
      while i < MAX_Q_SIZE && i < |buf|
        invariant 0 <= i <= |items| && i <= |buf|
        invariant 0 <= j <= MAX_Q_SIZE && (j == idx + i || j == idx + i - MAX_Q_SIZE)
        invariant cnt == old(cnt) + i
        invariant queue[..] == Overwrite(old(queue[..]), idx, items[..i])
      {
        if j == MAX_Q_SIZE {
          j := 0;
        }
        if cnt == MAX_Q_SIZE {
          break;
        }
        if buf[i] == NEWLINE {
          break;
        }
        assert items[..i + 1][..i] == items[..i];
        RingIndex(idx, i, j);
        queue[j] := buf[i];
        cnt := cnt + 1;
        i, j := i + 1, j + 1;
      }
      assert items[..i] == items;
    }

    /** Thread B under the lock, with an item to take (lines 179-183). */
    method Take() returns (item: int)
      requires Valid() && cnt > 0
      modifies this
      ensures Valid() && queue[..] == old(queue[..])
      ensures [item] + Pending(queue[..], idx, cnt) == old(Pending(queue[..], idx, cnt))
    {
      if idx == MAX_Q_SIZE {
        idx := 0;
      }
      item := queue[idx];
      idx := idx + 1;
      cnt := cnt - 1;
    }
  }

  // The second of two batches, what it left of the first one, and slots never written.
  ghost function Jumbled(first: seq<int>, second: seq<int>): (r: seq<int>)
    ensures |r| == |first| + |second|
  {
    seq(|first| + |second|, j requires 0 <= j < |first| + |second| =>
      if j < |second| then second[j] else if j < |first| then first[j] else 0)
  }

  lemma OverwrittenTwice(zeros: seq<int>, idx: nat, first: seq<int>, second: seq<int>)
    requires |zeros| == MAX_Q_SIZE && |first| + |second| <= MAX_Q_SIZE
    requires forall j :: 0 <= j < MAX_Q_SIZE ==> zeros[j] == 0
    ensures Pending(Overwrite(Overwrite(zeros, idx, first), idx, second), idx, |first| + |second|)
         == Jumbled(first, second)
  {
    hide Overwrite;
    var once := Overwrite(zeros, idx, first);
    forall j | 0 <= j < |first| + |second|
      ensures Overwrite(once, idx, second)[(idx + j) % MAX_Q_SIZE] == Jumbled(first, second)[j]
    {
      OverwriteAt(zeros, idx, first, j);
      OverwriteAt(once, idx, second, j);
    }
  }

  /** Two batches in a row on a new queue, without a newline in them. */
  method TwoBatches(first: seq<int>, second: seq<int>) returns (shared: Shared)
    requires NEWLINE !in first && NEWLINE !in second && |first| + |second| <= MAX_Q_SIZE
    ensures fresh(shared) && fresh(shared.queue) && shared.Valid() && shared.cnt == |first| + |second|
    ensures Pending(shared.queue[..], shared.idx, shared.cnt) == Jumbled(first, second)
  {
    hide Pending, Jumbled, Overwrite, Accepted;
    shared := new Shared();
    ghost var zeros := shared.queue[..];
    AcceptedAll(first, 0);
    AcceptedAll(second, |first|);
    var wasEmpty := shared.Insert(first);
    wasEmpty := shared.Insert(second);
    OverwrittenTwice(zeros, 0, first, second);
  }

  lemma {:induction false} AcceptedAll(buf: seq<int>, cnt: nat)
    requires NEWLINE !in buf && cnt + |buf| <= MAX_Q_SIZE
    ensures Accepted(buf, cnt) == buf
  {
    if buf != [] {
      AcceptedAll(buf[1..], cnt + 1);
      assert buf == [buf[0]] + buf[1..];
    }
  }

  /**
   Order fails on a new queue: of 'a' and then 'b' a consumer gets 'b', and after
   it a zero that nobody inserted; 'a' is lost.
   */
  method FifoFails() returns (one: int, two: int)
    ensures one == 98 && two == 0
  {
    hide Pending, Shared.Valid;
    var shared := TwoBatches([97], [98]);
    assert Jumbled([97], [98]) == [98] + [0];
    one := shared.Take();
    ghost var left := Pending(shared.queue[..], shared.idx, shared.cnt);
    assert [one] + left == [98] + [0];
    assert ([one] + left)[0] == 98 && left == ([one] + left)[1..] == [0] + [];
    two := shared.Take();
    ghost var none := Pending(shared.queue[..], shared.idx, shared.cnt);
    assert [two] + none == left;
    assert ([two] + none)[0] == 0;
  }

  // ----- the protocol

  datatype Producer =
    | Reading
    | Locked
    | Inserted(flagEmpty: bool)
    | Unlocked(flagEmpty: bool)     // about to broadcast if flagEmpty

  datatype Consumer =
    | Outside
    | Holding                        // holds the mutex and is about to look at cnt
    | Waits(signalled: bool)         // in pthread_cond_wait, without the mutex
    | Took                           // has taken an item, still holds the mutex

  datatype State = State(prod: Producer, cons: seq<Consumer>, cnt: nat, inserted: nat, consumed: nat)

  datatype Step =
    | ProdLock
    | ProdInsert(items: nat)
    | ProdUnlock
    | ProdSignal                     // broadcast if the queue was empty
    | ConsLock(c: nat)
    | ConsWait(c: nat)               // cnt == 0: release the mutex and wait, atomically
    | ConsTake(c: nat)
    | ConsUnlock(c: nat)
    | Spurious(c: nat)
    | Wake(c: nat)                   // leave the wait with the mutex

  predicate HasMutex(k: Consumer)
  {
    k.Holding? || k.Took?
  }

  predicate MutexFree(s: State)
  {
    (s.prod.Reading? || s.prod.Unlocked?) && forall c :: 0 <= c < |s.cons| ==> !HasMutex(s.cons[c])
  }

  predicate Enabled(s: State, step: Step)
  {
    match step
    case ProdLock => s.prod.Reading? && MutexFree(s)
    case ProdInsert(m) => s.prod.Locked? && s.cnt + m <= MAX_Q_SIZE
    case ProdUnlock => s.prod.Inserted?
    case ProdSignal => s.prod.Unlocked?
    case ConsLock(c) => c < |s.cons| && s.cons[c].Outside? && MutexFree(s)
    case ConsWait(c) => c < |s.cons| && s.cons[c].Holding? && s.cnt == 0
    case ConsTake(c) => c < |s.cons| && s.cons[c].Holding? && s.cnt > 0
    case ConsUnlock(c) => c < |s.cons| && s.cons[c].Took?
    case Spurious(c) => c < |s.cons| && s.cons[c].Waits?
    case Wake(c) => c < |s.cons| && s.cons[c] == Waits(true) && MutexFree(s)
  }

  function Signalled(cons: seq<Consumer>): seq<Consumer>
  {
    seq(|cons|, c requires 0 <= c < |cons| => if cons[c].Waits? then Waits(true) else cons[c])
  }

  function Next(s: State, step: Step): State
    requires Enabled(s, step)
  {
    match step
    case ProdLock => s.(prod := Locked)
    case ProdInsert(m) => s.(prod := Inserted(s.cnt == 0), cnt := s.cnt + m, inserted := s.inserted + m)
    case ProdUnlock => s.(prod := Unlocked(s.prod.flagEmpty))
    case ProdSignal => s.(prod := Reading, cons := if s.prod.flagEmpty then Signalled(s.cons) else s.cons)
    case ConsLock(c) => s.(cons := s.cons[c := Holding])
    case ConsWait(c) => s.(cons := s.cons[c := Waits(false)])
    case ConsTake(c) => s.(cons := s.cons[c := Took], cnt := s.cnt - 1, consumed := s.consumed + 1)
    case ConsUnlock(c) => s.(cons := s.cons[c := Outside])
    case Spurious(c) => s.(cons := s.cons[c := Waits(true)])
    case Wake(c) => s.(cons := s.cons[c := Holding])
  }

  function Start(n: nat): State
  {
    State(Reading, seq(n, _ => Outside), 0, 0, 0)
  }

  ghost predicate Runs(s: State, steps: seq<Step>, s': State)
    decreases steps
  {
    if steps == [] then s == s' else Enabled(s, steps[0]) && Runs(Next(s, steps[0]), steps[1..], s')
  }

  ghost predicate Reachable(n: nat, s: State)
  {
    exists steps :: Runs(Start(n), steps, s)
  }

  // ----- what every run keeps

  predicate OwesBroadcast(s: State)
  {
    s.prod == Inserted(true) || s.prod == Unlocked(true)
  }

  ghost predicate Inv(s: State)
  {
    && s.cnt <= MAX_Q_SIZE && s.inserted == s.consumed + s.cnt
    // one holder of the mutex
    && (forall c :: 0 <= c < |s.cons| && HasMutex(s.cons[c]) ==> s.prod.Reading? || s.prod.Unlocked?)
    && (forall c, d :: 0 <= c < d < |s.cons| ==> !(HasMutex(s.cons[c]) && HasMutex(s.cons[d])))
    // no wakeup is lost
    && (forall c :: 0 <= c < |s.cons| && s.cons[c] == Waits(false) && s.cnt > 0 ==> OwesBroadcast(s))
  }

  lemma StepKeepsInv(s: State, step: Step)
    requires Inv(s) && Enabled(s, step)
    ensures Inv(Next(s, step))
  {
  }

  lemma {:induction false} RunKeepsInv(s: State, steps: seq<Step>, s': State)
    requires Inv(s) && Runs(s, steps, s')
    ensures Inv(s') && |s'.cons| == |s.cons|
    decreases steps
  {
    if steps != [] {
      StepKeepsInv(s, steps[0]);
      RunKeepsInv(Next(s, steps[0]), steps[1..], s');
    }
  }

  // In every reachable state: the counter is in range and conserved, and a
  // consumer that waits unsignalled while there are items is owed a broadcast.
  lemma NoLostWakeup(n: nat, s: State)
    requires Reachable(n, s)
    ensures |s.cons| == n && s.cnt <= MAX_Q_SIZE && s.cnt == s.inserted - s.consumed
    ensures forall c, d :: 0 <= c < d < n ==> !(HasMutex(s.cons[c]) && HasMutex(s.cons[d]))
    ensures forall c :: 0 <= c < n && s.cons[c] == Waits(false) && s.cnt > 0 ==> OwesBroadcast(s)
  {
    var steps :| Runs(Start(n), steps, s);
    RunKeepsInv(Start(n), steps, s);
  }

  // The producer under the lock can insert what the code accepts of any batch.
  lemma InsertIsAStep(n: nat, s: State, buf: seq<int>)
    requires Reachable(n, s) && s.prod == Locked
    ensures var m := |Accepted(buf, s.cnt)|;
      && Enabled(s, ProdInsert(m)) && Next(s, ProdInsert(m)).cnt == s.cnt + m
      && Next(s, ProdInsert(m)).prod == Inserted(s.cnt == 0)
  {
    NoLostWakeup(n, s);
    AcceptedBound(buf, s.cnt);
  }

  predicate CanGoOn(s: State, c: nat)
  {
    Enabled(s, ConsWait(c)) || Enabled(s, ConsTake(c)) || Enabled(s, ConsUnlock(c))
  }

  // Whoever holds the mutex can go on, so that the producer is never locked out for good.
  lemma LockIsGranted(n: nat, s: State)
    requires Reachable(n, s)
    ensures s.prod == Reading ==>
      Enabled(s, ProdLock) || exists c :: 0 <= c < n && CanGoOn(s, c)
    ensures match s.prod
      case Reading => true
      case Locked => Enabled(s, ProdInsert(0))
      case Inserted(_) => Enabled(s, ProdUnlock)
      case Unlocked(_) => Enabled(s, ProdSignal)
  {
    NoLostWakeup(n, s);
    if s.prod == Reading && !MutexFree(s) {
      var c :| 0 <= c < n && HasMutex(s.cons[c]);
      assert CanGoOn(s, c);
    }
  }

  // The producer waits for input and no consumer can move without a spurious wakeup.
  ghost predicate AtRest(s: State)
  {
    s.prod.Reading? && forall step: Step :: !step.ProdLock? && !step.Spurious? ==> !Enabled(s, step)
  }

  // Then there is nothing left to take: no item is stranded.
  lemma NothingStranded(n: nat, s: State)
    requires Reachable(n, s) && AtRest(s) && n >= 1
    ensures s.cnt == 0
  {
    NoLostWakeup(n, s);
    forall c | 0 <= c < n ensures s.cons[c] == Waits(false) {
      assert !Enabled(s, ConsWait(c)) && !Enabled(s, ConsTake(c)) && !Enabled(s, ConsUnlock(c));
      assert MutexFree(s) by {
        forall d | 0 <= d < n ensures !HasMutex(s.cons[d]) {
          assert !Enabled(s, ConsWait(d)) && !Enabled(s, ConsTake(d)) && !Enabled(s, ConsUnlock(d));
        }
      }
      assert !Enabled(s, ConsLock(c)) && !Enabled(s, Wake(c));
    }
    assert s.cons[0] == Waits(false);
  }
}
