/**
 The parallel check queue (src/checkqueue.h).

 One master and any number of workers share a queue under a mutex.  Each critical section
 of `Loop` and `Add`, each execution of one check and each wake-up is one atomic step, and
 a run is any interleaving of enabled steps.  A wait on a condition variable may end at any
 time, notified or not.
 */
module CheckQueue {

  /** A check and the verdict it returns when it is executed. */
  datatype Check = Check(id: nat, ok: bool)

  /**
   Where a thread is.  `nNow`, `fOk` and the batch are the locals of Loop; `left` are the
   checks of the batch that have not been executed.
   */
  datatype Thread =
    | Outside
    | AtLock(nNow: nat, fOk: bool, left: seq<Check>)
    | Waiting
    | Woken
    | Working(nNow: nat, fOk: bool, left: seq<Check>)

  /**
   Thread 0 is the master.  `added`, `ran` and `dropped` are history: the checks added
   since Wait last returned, those executed, and those whose batch was given up.
   */
  datatype State = State(
    nBatchSize: nat,
    queue: seq<Check>,
    nTodo: int,
    fAllOk: bool,
    nIdle: int,
    nTotal: int,
    threads: seq<Thread>,
    added: multiset<Check>,
    ran: multiset<Check>,
    dropped: multiset<Check>)

  datatype Step =
    | Add(checks: seq<Check>, notified: nat)
    | StartWait
    | StartWorker(t: nat)
    | Lock(t: nat)
    | Work(t: nat)
    | Spurious(t: nat)

  function Init(nBatchSize: nat, workers: nat): State {
    State(nBatchSize, [], 0, true, 0, 0, seq(workers + 1, _ => Outside), multiset{}, multiset{}, multiset{})
  }

  predicate Enabled(s: State, step: Step) {
    |s.threads| > 0 &&
    match step
    case Add(checks, n) =>
      && s.threads[0].Outside?
      && (|checks| == 1 && AnyWaiting(s.threads) ==> 0 < n < |s.threads| && s.threads[n].Waiting?)
    case StartWait => s.threads[0].Outside?
    case StartWorker(t) => 0 < t < |s.threads| && s.threads[t].Outside?
    case Lock(t) => t < |s.threads| && (s.threads[t].AtLock? || s.threads[t].Woken?)
    case Work(t) => t < |s.threads| && s.threads[t].Working?
    case Spurious(t) => t < |s.threads| && s.threads[t].Waiting?
  }

  predicate AnyWaiting(ts: seq<Thread>) {
    exists i :: 0 < i < |ts| && ts[i].Waiting?
  }

  /** A step whose behaviour is undefined may lead anywhere. */
  predicate Next(s: State, step: Step, s': State) {
    Enabled(s, step) && (Defined(s, step) ==> s' == Apply(s, step))
  }

  function Apply(s: State, step: Step): State
    requires Enabled(s, step) && Defined(s, step)
  {
    match step
    case Add(checks, n) => AddChecks(s, checks, n)
    case StartWait => s.(threads := s.threads[0 := AtLock(0, true, [])])
    case StartWorker(t) => s.(threads := s.threads[t := AtLock(0, true, [])])
    case Lock(t) => CriticalSection(s, t)
    case Work(t) => ExecuteNext(s, t)
    case Spurious(t) => s.(threads := s.threads[t := Woken])
  }

  function WakeWorkers(ts: seq<Thread>): seq<Thread> {
    seq(|ts|, i requires 0 <= i < |ts| => if i > 0 && ts[i].Waiting? then Woken else ts[i])
  }

  /** Add: one waiting worker is notified for a single check, all of them for more. */
  function AddChecks(s: State, checks: seq<Check>, n: nat): State
    requires Enabled(s, Add(checks, n))
  {
    var threads :=
      if |checks| == 1 && AnyWaiting(s.threads) then s.threads[n := Woken]
      else if |checks| > 1 then WakeWorkers(s.threads)
      else s.threads;
    s.(queue := s.queue + checks, nTodo := s.nTodo + |checks|, threads := threads, added := s.added + multiset(checks))
  }

  /** What a thread does between taking the mutex and the loop over an empty queue. */
  function CleanUp(s: State, t: nat): State
    requires Enabled(s, Lock(t))
  {
    match s.threads[t]
    case AtLock(nNow, fOk, left) =>
      if nNow == 0 then s.(nTotal := s.nTotal + 1)
      else
        var todo := s.nTodo - nNow;
        var notify := todo == 0 && t != 0 && s.threads[0].Waiting?;
        s.(nTodo := todo,
           fAllOk := s.fAllOk && fOk,
           threads := if notify then s.threads[0 := Woken] else s.threads,
           dropped := s.dropped + multiset(left))
    case _ => s.(nIdle := s.nIdle - 1)
  }

  function BatchSize(s: State): nat
    requires s.nTotal + s.nIdle + 1 > 0
  {
    var share := |s.queue| / (s.nTotal + s.nIdle + 1);
    var capped := if share < s.nBatchSize then share else s.nBatchSize;
    if capped < 1 then 1 else capped
  }

  /** The last n checks, taken from the back. */
  function Popped(queue: seq<Check>, n: nat): seq<Check>
    requires n <= |queue|
  {
    if n == 0 then [] else [queue[|queue| - 1]] + Popped(queue[..|queue| - 1], n - 1)
  }

  predicate Returns(s: State, t: nat)
    requires Enabled(s, Lock(t))
  {
    var c := CleanUp(s, t);
    c.queue == [] && t == 0 && c.nTodo == 0
  }

  /** The verdict of Wait when this critical section returns. */
  predicate Verdict(s: State)
    requires Enabled(s, Lock(0))
  {
    CleanUp(s, 0).fAllOk
  }

  /** A critical section that divides by a positive number and pops no more than there is. */
  predicate Defined(s: State, step: Step)
    requires Enabled(s, step)
  {
    step.Lock? ==>
      var c := CleanUp(s, step.t);
      c.queue != [] ==> c.nTotal + c.nIdle + 1 > 0 && BatchSize(c) <= |c.queue|
  }

  function CriticalSection(s: State, t: nat): State
    requires Enabled(s, Lock(t)) && Defined(s, Lock(t))
  {
    var c := CleanUp(s, t);
    if Returns(s, t) then
      c.(nTotal := c.nTotal - 1, fAllOk := true, threads := c.threads[t := Outside],
         added := multiset{}, ran := multiset{}, dropped := multiset{})
    else if c.queue == [] then
      c.(nIdle := c.nIdle + 1, threads := c.threads[t := Waiting])
    else
      var n := BatchSize(c);
      c.(queue := c.queue[..|c.queue| - n], threads := c.threads[t := Working(n, c.fAllOk, Popped(c.queue, n))])
  }

  /** A batch has at least one check, at most nBatchSize, and otherwise as many as an equal share of the queue. */
  lemma BatchIsShare(s: State)
    requires s.nTotal + s.nIdle + 1 > 0
    ensures var n, parts := BatchSize(s), s.nTotal + s.nIdle + 1;
      && 1 <= n && (n == 1 || (n <= s.nBatchSize && n * parts <= |s.queue|))
      && (n >= s.nBatchSize || (n + 1) * parts > |s.queue|)
  {
    var parts := s.nTotal + s.nIdle + 1;
    var share := |s.queue| / parts;
    assert |s.queue| == parts * share + |s.queue| % parts;
    assert (share + 1) * parts == parts * share + parts;
  }

  /** One turn of the loop over the batch, or its end. */
  function ExecuteNext(s: State, t: nat): State
    requires Enabled(s, Work(t))
  {
    var Working(nNow, fOk, left) := s.threads[t];
    if fOk && left != [] then
      s.(threads := s.threads[t := Working(nNow, left[0].ok, left[1..])], ran := s.ran + multiset{left[0]})
    else
      s.(threads := s.threads[t := AtLock(nNow, fOk, left)])
  }

  /** A batch taken after a failure was recorded is given up: none of its checks is executed. */
  lemma NothingRunsAfterFailure(s: State, t: nat)
    requires Enabled(s, Lock(t)) && Defined(s, Lock(t)) && s.queue != [] && !s.fAllOk
    ensures Enabled(Apply(s, Lock(t)), Work(t))
    ensures var s1 := Apply(s, Lock(t));
      var s2 := Apply(s1, Work(t));
      && s2.ran == s1.ran == s.ran && s2.threads[t].AtLock? && !s2.threads[t].fOk
      && |s2.threads[t].left| == s2.threads[t].nNow > 0
  {
    PoppedLength(CleanUp(s, t).queue, BatchSize(CleanUp(s, t)));
  }

  lemma {:induction false} PoppedLength(queue: seq<Check>, n: nat)
    requires n <= |queue|
    ensures |Popped(queue, n)| == n
  {
    if n > 0 {
      PoppedLength(queue[..|queue| - 1], n - 1);
    }
  }

  /** So is the rest of a batch after a check that fails. */
  lemma NothingRunsAfterFailedCheck(s: State, t: nat)
    requires Enabled(s, Work(t)) && s.threads[t].fOk && s.threads[t].left != [] && !s.threads[t].left[0].ok
    ensures var s1 := Apply(s, Work(t));
      && s1.ran == s.ran + multiset{s.threads[t].left[0]} && Enabled(s1, Work(t))
      && var s2 := Apply(s1, Work(t)); s2.ran == s1.ran && s2.threads[t].AtLock? && !s2.threads[t].fOk
  {
  }

  // ----- Sums over threads

  function Sum(ts: seq<Thread>, f: Thread -> int): int {
    if ts == [] then 0 else f(ts[0]) + Sum(ts[1..], f)
  }

  lemma {:induction false} SumUpdate(ts: seq<Thread>, i: nat, t: Thread, f: Thread -> int)
    requires i < |ts|
    ensures Sum(ts[i := t], f) == Sum(ts, f) - f(ts[i]) + f(t)
  {
    if i == 0 {
      assert ts[0 := t][1..] == ts[1..];
    } else {
      assert ts[i := t][1..] == ts[1..][i - 1 := t];
      SumUpdate(ts[1..], i - 1, t, f);
    }
  }

  lemma {:induction false} SumEqual(ts: seq<Thread>, ts': seq<Thread>, f: Thread -> int)
    requires |ts| == |ts'| && forall i :: 0 <= i < |ts| ==> f(ts[i]) == f(ts'[i])
    ensures Sum(ts, f) == Sum(ts', f)
  {
    if ts != [] {
      SumEqual(ts[1..], ts'[1..], f);
    }
  }

  lemma {:induction false} SumZero(ts: seq<Thread>, f: Thread -> int)
    requires forall i :: 0 <= i < |ts| ==> f(ts[i]) >= 0
    ensures Sum(ts, f) >= 0
    ensures forall i :: 0 <= i < |ts| ==> f(ts[i]) <= Sum(ts, f)
    ensures Sum(ts, f) > 0 ==> exists i :: 0 <= i < |ts| && f(ts[i]) > 0
  {
    if ts != [] {
      SumZero(ts[1..], f);
      assert forall i :: 0 < i < |ts| ==> ts[i] == ts[1..][i - 1];
      if Sum(ts, f) > 0 && f(ts[0]) == 0 {
        var i :| 0 <= i < |ts[1..]| && f(ts[1..][i]) > 0;
        assert f(ts[i + 1]) > 0;
      }
    }
  }

  function Now(t: Thread): int {
    if t.AtLock? || t.Working? then t.nNow else 0
  }

  function Idle(t: Thread): int {
    if t.Waiting? || t.Woken? then 1 else 0
  }

  function Inside(t: Thread): int {
    if t.Outside? || (t.AtLock? && t.nNow == 0) then 0 else 1
  }

  /** How often a check is among those a thread has yet to execute. */
  function Left(t: Thread, c: Check): nat {
    if t.AtLock? || t.Working? then multiset(t.left)[c] else 0
  }

  function AllLeft(ts: seq<Thread>, c: Check): nat {
    if ts == [] then 0 else Left(ts[0], c) + AllLeft(ts[1..], c)
  }

  lemma {:induction false} AllLeftUpdate(ts: seq<Thread>, i: nat, t: Thread, c: Check)
    requires i < |ts|
    ensures AllLeft(ts[i := t], c) == AllLeft(ts, c) - Left(ts[i], c) + Left(t, c)
  {
    if i == 0 {
      assert ts[0 := t][1..] == ts[1..];
    } else {
      assert ts[i := t][1..] == ts[1..][i - 1 := t];
      AllLeftUpdate(ts[1..], i - 1, t, c);
    }
  }

  lemma {:induction false} AllLeftEqual(ts: seq<Thread>, ts': seq<Thread>, c: Check)
    requires |ts| == |ts'| && forall i :: 0 <= i < |ts| ==> Left(ts[i], c) == Left(ts'[i], c)
    ensures AllLeft(ts, c) == AllLeft(ts', c)
  {
    if ts != [] {
      AllLeftEqual(ts[1..], ts'[1..], c);
    }
  }

  lemma {:induction false} PoppedIsSuffix(queue: seq<Check>, n: nat)
    requires n <= |queue|
    ensures |Popped(queue, n)| == n
    ensures forall i :: 0 <= i < n ==> Popped(queue, n)[i] == queue[|queue| - 1 - i]
  {
    if n > 0 {
      PoppedIsSuffix(queue[..|queue| - 1], n - 1);
    }
  }

  function Count(s: seq<Check>, x: Check): nat {
    multiset(s)[x]
  }

  lemma CountConcat(s: seq<Check>, t: seq<Check>, x: Check)
    ensures Count(s + t, x) == Count(s, x) + Count(t, x)
  {
  }

  lemma PopLast(queue: seq<Check>, rest: seq<Check>, last: seq<Check>, n: nat, x: Check)
    requires 0 < n <= |queue| && rest == queue[..|queue| - 1] && last == [queue[|queue| - 1]]
    ensures Count(queue, x) == Count(rest, x) + Count(last, x)
    ensures Count(Popped(queue, n), x) == Count(last, x) + Count(Popped(rest, n - 1), x)
    ensures rest[..|rest| - (n - 1)] == queue[..|queue| - n]
  {
    hide Count;
    assert queue == rest + last;
    CountConcat(rest, last, x);
    CountConcat(last, Popped(rest, n - 1), x);
  }

  lemma {:induction false} PoppedCounts(queue: seq<Check>, n: nat, x: Check)
    requires n <= |queue|
    ensures Count(queue, x) == Count(queue[..|queue| - n], x) + Count(Popped(queue, n), x)
  {
    if n == 0 {
      assert queue[..|queue|] == queue;
    } else {
      hide Count, Popped;
      var rest, last := queue[..|queue| - 1], [queue[|queue| - 1]];
      PoppedCounts(rest, n - 1, x);
      PopLast(queue, rest, last, n, x);
    }
  }

  // ----- The invariant

  predicate ThreadOk(t: Thread) {
    match t
    case AtLock(n, ok, left) => (n == 0 ==> ok) && (ok ==> left == []) && |left| <= n
    case Working(n, _, left) => n > 0 && |left| <= n
    case _ => true
  }

  predicate Failed(ran: multiset<Check>) {
    exists c :: c in ran && !c.ok
  }

  /** A thread that has seen a failure it has not reported yet. */
  predicate CarriesFailure(t: Thread) {
    (t.AtLock? || t.Working?) && !t.fOk
  }

  predicate Active(t: Thread) {
    t.AtLock? || t.Working? || t.Woken?
  }

  predicate Counts(s: State) {
    && s.nTodo == |s.queue| + Sum(s.threads, Now)
    && s.nIdle == Sum(s.threads, Idle)
    && s.nTotal == Sum(s.threads, Inside)
  }

  /** Every added check is queued, in a thread's hands, executed or given up, exactly once. */
  predicate Accounted(s: State, c: Check) {
    s.added[c] == multiset(s.queue)[c] + AllLeft(s.threads, c) + s.ran[c] + s.dropped[c]
  }

  ghost predicate Conserved(s: State) {
    && (forall c :: Accounted(s, c))
    && (s.fAllOk ==> s.dropped == multiset{})
  }

  predicate SomeFailure(ts: seq<Thread>) {
    exists i :: 0 <= i < |ts| && CarriesFailure(ts[i])
  }

  predicate Honest(s: State) {
    && (!s.fAllOk || SomeFailure(s.threads) ==> Failed(s.ran))
    && (Failed(s.ran) ==> !s.fAllOk || SomeFailure(s.threads))
  }

  predicate SomeActiveWorker(ts: seq<Thread>) {
    exists i :: 0 < i < |ts| && Active(ts[i])
  }

  predicate NoWorker(ts: seq<Thread>) {
    forall i :: 0 < i < |ts| ==> ts[i].Outside?
  }

  /** No wake-up is lost: neither the master's nor, while there is queued work, the workers'. */
  predicate Awake(s: State) {
    && |s.threads| > 0
    && (s.threads[0].Waiting? ==> s.queue == [] && s.nTodo > 0)
    && (s.queue != [] ==> NoWorker(s.threads) || SomeActiveWorker(s.threads))
  }

  ghost predicate Inv(s: State) {
    Local(s) && Counts(s) && Conserved(s) && Honest(s) && Awake(s)
  }

  predicate Local(s: State) {
    forall i :: 0 <= i < |s.threads| ==> ThreadOk(s.threads[i])
  }

  lemma InitInv(nBatchSize: nat, workers: nat)
    ensures Inv(Init(nBatchSize, workers))
  {
    var ts := Init(nBatchSize, workers).threads;
    AllOutside(ts);
  }

  lemma {:induction false} AllOutside(ts: seq<Thread>)
    requires forall i :: 0 <= i < |ts| ==> ts[i].Outside?
    ensures Sum(ts, Now) == Sum(ts, Idle) == Sum(ts, Inside) == 0
    ensures forall c :: AllLeft(ts, c) == 0
  {
    if ts != [] {
      AllOutside(ts[1..]);
    }
  }

  /** Replacing one thread shifts each count by that thread's share. */
  lemma Replace(ts: seq<Thread>, i: nat, t: Thread)
    requires i < |ts|
    ensures Sum(ts[i := t], Now) == Sum(ts, Now) - Now(ts[i]) + Now(t)
    ensures Sum(ts[i := t], Idle) == Sum(ts, Idle) - Idle(ts[i]) + Idle(t)
    ensures Sum(ts[i := t], Inside) == Sum(ts, Inside) - Inside(ts[i]) + Inside(t)
  {
    SumUpdate(ts, i, t, Now);
    SumUpdate(ts, i, t, Idle);
    SumUpdate(ts, i, t, Inside);
  }

  lemma ReplaceFailure(ts: seq<Thread>, i: nat, t: Thread)
    requires i < |ts|
    ensures CarriesFailure(t) ==> SomeFailure(ts[i := t])
    ensures SomeFailure(ts[i := t]) ==> CarriesFailure(t) || SomeFailure(ts)
    ensures SomeFailure(ts) && !CarriesFailure(ts[i]) ==> SomeFailure(ts[i := t])
  {
    var ts' := ts[i := t];
    assert ts'[i] == t;
    if j :| 0 <= j < |ts'| && CarriesFailure(ts'[j]) {
      assert j == i || CarriesFailure(ts[j]);
    }
    if j :| 0 <= j < |ts| && CarriesFailure(ts[j]) {
      assert j == i || CarriesFailure(ts'[j]);
    }
  }

  lemma ReplaceActive(ts: seq<Thread>, i: nat, t: Thread)
    requires i < |ts|
    ensures i > 0 && Active(t) ==> SomeActiveWorker(ts[i := t])
    ensures SomeActiveWorker(ts) && !(i > 0 && Active(ts[i])) ==> SomeActiveWorker(ts[i := t])
    ensures i == 0 ==> NoWorker(ts[i := t]) == NoWorker(ts)
  {
    var ts' := ts[i := t];
    assert ts'[i] == t;
    assert i == 0 ==> forall j :: 0 < j < |ts| ==> ts'[j] == ts[j];
    if j :| 0 < j < |ts| && Active(ts[j]) {
      assert j == i || Active(ts'[j]);
    }
  }

  lemma CountsNonNegative(s: State)
    requires Local(s) && Counts(s)
    ensures s.nIdle >= 0 && s.nTotal >= 0 && s.nTodo >= |s.queue|
    ensures forall i :: 0 <= i < |s.threads| ==> Now(s.threads[i]) <= s.nTodo - |s.queue|
    ensures s.nTodo > |s.queue| ==> exists i :: 0 <= i < |s.threads| && Now(s.threads[i]) > 0
  {
    SumZero(s.threads, Now);
    SumZero(s.threads, Idle);
    SumZero(s.threads, Inside);
  }

  // ----- Each step keeps the invariant

  lemma AddKeepsInv(s: State, checks: seq<Check>, n: nat)
    requires Inv(s) && Enabled(s, Add(checks, n))
    ensures Inv(AddChecks(s, checks, n))
  {
    var s' := AddChecks(s, checks, n);
    var ts, ts' := s.threads, s'.threads;
    assert forall i :: 0 <= i < |ts| ==> ts'[i] == ts[i] || (i > 0 && ts[i].Waiting? && ts'[i].Woken?);
    assert Counts(s') by {
      SumEqual(ts, ts', Now);
      SumEqual(ts, ts', Idle);
      SumEqual(ts, ts', Inside);
    }
    assert Conserved(s') by {
      forall c ensures Accounted(s', c) {
        AllLeftEqual(ts, ts', c);
        assert Accounted(s, c);
      }
    }
    assert SomeFailure(ts') == SomeFailure(ts) by {
      assert forall i :: 0 <= i < |ts| ==> CarriesFailure(ts'[i]) == CarriesFailure(ts[i]);
    }
    assert Awake(s') by {
      AddKeepsAwake(s, checks, n);
    }
  }

  lemma AddKeepsAwake(s: State, checks: seq<Check>, n: nat)
    requires Awake(s) && Enabled(s, Add(checks, n))
    ensures Awake(AddChecks(s, checks, n))
  {
    var s' := AddChecks(s, checks, n);
    var ts, ts' := s.threads, s'.threads;
    assert forall i :: 0 <= i < |ts| ==> ts'[i] == ts[i] || (i > 0 && ts[i].Waiting? && ts'[i].Woken?);
    if i :| 0 < i < |ts| && Active(ts[i]) {
      assert Active(ts'[i]);
    } else if i :| 0 < i < |ts| && !ts[i].Outside? {
      assert ts[i].Waiting?;
      if |checks| > 0 {
        assert Active(ts'[if |checks| == 1 then n else i]);
      }
    } else {
      assert NoWorker(ts');
    }
  }

  lemma StartKeepsInv(s: State, t: nat)
    requires Inv(s) && t < |s.threads| && s.threads[t].Outside?
    ensures Inv(s.(threads := s.threads[t := AtLock(0, true, [])]))
  {
    SwapKeepsInv(s, t, AtLock(0, true, []));
  }

  lemma SpuriousKeepsInv(s: State, t: nat)
    requires Inv(s) && t < |s.threads| && s.threads[t].Waiting?
    ensures Inv(s.(threads := s.threads[t := Woken]))
  {
    SwapKeepsInv(s, t, Woken);
  }

  lemma SwapKeepsInv(s: State, t: nat, th: Thread)
    requires Inv(s) && t < |s.threads|
    requires Now(th) == Now(s.threads[t]) && Idle(th) == Idle(s.threads[t]) && Inside(th) == Inside(s.threads[t])
    requires (forall c :: Left(th, c) == Left(s.threads[t], c)) && CarriesFailure(th) == CarriesFailure(s.threads[t])
    requires ThreadOk(th) && Active(th)
    ensures Inv(s.(threads := s.threads[t := th]))
  {
    var s' := s.(threads := s.threads[t := th]);
    Replace(s.threads, t, th);
    forall c ensures Accounted(s', c) {
      AllLeftUpdate(s.threads, t, th, c);
      assert Accounted(s, c);
    }
    ReplaceFailure(s.threads, t, th);
    ReplaceActive(s.threads, t, th);
  }

  lemma WorkKeepsInv(s: State, t: nat)
    requires Inv(s) && Enabled(s, Work(t))
    ensures Inv(ExecuteNext(s, t))
  {
    var Working(nNow, fOk, left) := s.threads[t];
    if !fOk || left == [] {
      SwapKeepsInv(s, t, AtLock(nNow, fOk, left));
    } else {
      ExecuteKeepsInv(s, t, nNow, left);
    }
  }

  lemma ExecuteKeepsInv(s: State, t: nat, nNow: nat, left: seq<Check>)
    requires Inv(s) && t < |s.threads| && s.threads[t] == Working(nNow, true, left) && left != []
    ensures Inv(ExecuteNext(s, t))
  {
    var s' := ExecuteNext(s, t);
    var th := Working(nNow, left[0].ok, left[1..]);
    assert Counts(s') by {
      Replace(s.threads, t, th);
    }
    assert Conserved(s') by {
      forall c ensures Accounted(s', c) {
        AllLeftUpdate(s.threads, t, th, c);
        assert left == [left[0]] + left[1..];
        assert Accounted(s, c);
      }
    }
    assert Honest(s') by {
      ReplaceFailure(s.threads, t, th);
      assert Failed(s.ran) ==> Failed(s'.ran);
      assert left[0] in s'.ran;
      assert Failed(s'.ran) ==> Failed(s.ran) || !left[0].ok;
    }
    assert Awake(s') by {
      ReplaceActive(s.threads, t, th);
    }
  }

  /** The state inside a critical section, with thread t taken out of the books. */
  function Held(s: State, t: nat): State
    requires Enabled(s, Lock(t))
  {
    var c := CleanUp(s, t);
    c.(threads := c.threads[t := Outside], nTotal := c.nTotal - 1)
  }

  ghost predicate HeldInv(h: State) {
    && Local(h) && Counts(h) && Conserved(h) && Honest(h) && |h.threads| > 0
    && (h.threads[0].Waiting? ==> h.queue == [] && h.nTodo > 0)
  }

  lemma CleanUpInv(s: State, t: nat)
    requires Inv(s) && Enabled(s, Lock(t))
    ensures HeldInv(Held(s, t))
    ensures t == 0 && s.queue != [] ==> NoWorker(Held(s, t).threads) || SomeActiveWorker(Held(s, t).threads)
  {
    if CleanUp(s, t).threads == s.threads {
      QuietCleanUpInv(s, t);
    } else {
      var s1 := s.(threads := s.threads[0 := Woken]);
      SwapKeepsInv(s, 0, Woken);
      QuietCleanUpInv(s1, t);
      assert Held(s, t) == Held(s1, t);
    }
  }

  lemma QuietCleanUpInv(s: State, t: nat)
    requires Inv(s) && Enabled(s, Lock(t)) && CleanUp(s, t).threads == s.threads
    ensures HeldInv(Held(s, t))
    ensures t == 0 && s.queue != [] ==> NoWorker(Held(s, t).threads) || SomeActiveWorker(Held(s, t).threads)
  {
    var h, ts := Held(s, t), s.threads;
    Replace(ts, t, Outside);
    assert Conserved(h) by {
      forall x ensures Accounted(h, x) {
        AllLeftUpdate(ts, t, Outside, x);
        assert Accounted(s, x);
      }
    }
    assert Honest(h) by {
      ReplaceFailure(ts, t, Outside);
    }
    CountsNonNegative(s);
    ReplaceActive(ts, t, Outside);
  }

  lemma LockIsDefined(s: State, t: nat)
    requires Inv(s) && Enabled(s, Lock(t))
    ensures Defined(s, Lock(t))
  {
    CleanUpInv(s, t);
    var h := Held(s, t);
    CountsNonNegative(h);
    hide Inv, HeldInv, Sum;
    var n, m := |h.queue|, h.nTotal + 1 + h.nIdle + 1;
    if m >= 1 {
      ShareFits(n, m);
    }
  }

  lemma ShareFits(n: nat, m: nat)
    requires m >= 1
    ensures 0 <= n / m <= n
  {
    assert n == m * (n / m) + n % m;
  }

  lemma LockKeepsInv(s: State, t: nat)
    requires Inv(s) && Enabled(s, Lock(t)) && Defined(s, Lock(t))
    ensures Inv(CriticalSection(s, t))
  {
    CleanUpInv(s, t);
    var h, c, s' := Held(s, t), CleanUp(s, t), CriticalSection(s, t);
    assert s'.threads == h.threads[t := s'.threads[t]];
    if Returns(s, t) {
      JoinReturn(h, s');
    } else if c.queue == [] {
      CountsNonNegative(h);
      JoinWait(h, t, s');
    } else {
      JoinWork(h, t, BatchSize(c), s');
    }
  }

  lemma JoinReturn(h: State, s': State)
    requires HeldInv(h) && h.queue == [] && h.nTodo == 0 && h.threads[0].Outside?
    requires s' == h.(fAllOk := true, added := multiset{}, ran := multiset{}, dropped := multiset{})
    ensures Inv(s')
  {
    ReturnResets(h);
    assert forall x :: Accounted(s', x);
  }

  lemma JoinWait(h: State, t: nat, s': State)
    requires HeldInv(h) && t < |h.threads| && h.threads[t].Outside?
    requires h.queue == [] && (t == 0 ==> h.nTodo > 0)
    requires s' == h.(nTotal := h.nTotal + 1, nIdle := h.nIdle + 1, threads := h.threads[t := Waiting])
    ensures Inv(s')
  {
    Replace(h.threads, t, Waiting);
    ReplaceFailure(h.threads, t, Waiting);
    forall x ensures Accounted(s', x) {
      AllLeftUpdate(h.threads, t, Waiting, x);
      assert Accounted(h, x);
    }
  }

  lemma JoinWorkConserves(h: State, t: nat, n: nat, s': State)
    requires Conserved(h) && t < |h.threads| && h.threads[t].Outside? && n <= |h.queue|
    requires s' == h.(nTotal := h.nTotal + 1, queue := h.queue[..|h.queue| - n],
                      threads := h.threads[t := Working(n, h.fAllOk, Popped(h.queue, n))])
    ensures Conserved(s')
  {
    hide Popped, AllLeft;
    forall x ensures Accounted(s', x) {
      AllLeftUpdate(h.threads, t, Working(n, h.fAllOk, Popped(h.queue, n)), x);
      PoppedCounts(h.queue, n, x);
      assert Accounted(h, x);
    }
  }

  lemma JoinWork(h: State, t: nat, n: nat, s': State)
    requires HeldInv(h) && t < |h.threads| && h.threads[t].Outside?
    requires 0 < n <= |h.queue|
    requires t == 0 ==> NoWorker(h.threads) || SomeActiveWorker(h.threads)
    requires s' == h.(nTotal := h.nTotal + 1, queue := h.queue[..|h.queue| - n],
                      threads := h.threads[t := Working(n, h.fAllOk, Popped(h.queue, n))])
    ensures Inv(s')
  {
    JoinWorkConserves(h, t, n, s');
    PoppedIsSuffix(h.queue, n);
    var th := Working(n, h.fAllOk, Popped(h.queue, n));
    hide Conserved, Popped;
    Replace(h.threads, t, th);
    ReplaceFailure(h.threads, t, th);
    ReplaceActive(h.threads, t, th);
  }

  /** With nothing left to do, no thread holds a batch. */
  lemma ReturnResets(h: State)
    requires HeldInv(h) && h.queue == [] && h.nTodo == 0
    ensures !SomeFailure(h.threads)
    ensures forall x :: AllLeft(h.threads, x) == 0
  {
    CountsNonNegative(h);
    assert forall i :: 0 <= i < |h.threads| ==> Now(h.threads[i]) <= 0;
    assert forall i, x :: 0 <= i < |h.threads| ==> Left(h.threads[i], x) == 0;
    forall x ensures AllLeft(h.threads, x) == 0 {
      NoneLeft(h.threads, x);
    }
  }

  lemma {:induction false} NoneLeft(ts: seq<Thread>, x: Check)
    requires forall i :: 0 <= i < |ts| ==> Left(ts[i], x) == 0
    ensures AllLeft(ts, x) == 0
  {
    if ts != [] {
      NoneLeft(ts[1..], x);
    }
  }

  /** The behaviour of every step is defined, and every step keeps the invariant. */
  lemma NextKeepsInv(s: State, step: Step, s': State)
    requires Inv(s) && Next(s, step, s')
    ensures Defined(s, step) && Inv(s')
  {
    match step
    case Add(checks, n) => AddKeepsInv(s, checks, n);
    case StartWait => StartKeepsInv(s, 0);
    case StartWorker(t) => StartKeepsInv(s, t);
    case Lock(t) =>
      LockIsDefined(s, t);
      LockKeepsInv(s, t);
    case Work(t) => WorkKeepsInv(s, t);
    case Spurious(t) => SpuriousKeepsInv(s, t);
  }

  // ----- Whole runs

  predicate IsRun(trace: seq<State>, steps: seq<Step>) {
    && |trace| == |steps| + 1
    && forall i :: 0 <= i < |steps| ==> Next(trace[i], steps[i], trace[i + 1])
  }

  /** Every state of every run, by any number of workers and in any interleaving, is sound. */
  lemma {:induction false} RunInv(nBatchSize: nat, workers: nat, trace: seq<State>, steps: seq<Step>, k: nat)
    requires IsRun(trace, steps) && trace[0] == Init(nBatchSize, workers) && k < |trace|
    ensures Inv(trace[k])
  {
    if k == 0 {
      InitInv(nBatchSize, workers);
    } else {
      RunInv(nBatchSize, workers, trace, steps, k - 1);
      NextKeepsInv(trace[k - 1], steps[k - 1], trace[k]);
    }
  }

  /** nTodo counts the checks that are queued or in a thread's batch. */
  lemma TodoIsExact(nBatchSize: nat, workers: nat, trace: seq<State>, steps: seq<Step>, k: nat)
    requires IsRun(trace, steps) && trace[0] == Init(nBatchSize, workers) && k < |trace|
    ensures trace[k].nTodo == |trace[k].queue| + Sum(trace[k].threads, Now)
    ensures trace[k].nTodo >= 0
  {
    RunInv(nBatchSize, workers, trace, steps, k);
    CountsNonNegative(trace[k]);
  }

  /**
   Wait returns true exactly when every check added since it last returned was executed
   and succeeded; it returns false only if an added check was executed and failed.
   */
  lemma WaitVerdict(nBatchSize: nat, workers: nat, trace: seq<State>, steps: seq<Step>, k: nat)
    requires IsRun(trace, steps) && trace[0] == Init(nBatchSize, workers)
    requires k < |steps| && steps[k] == Lock(0) && Enabled(trace[k], Lock(0)) && Returns(trace[k], 0)
    ensures trace[k].ran <= trace[k].added
    ensures Verdict(trace[k]) <==> trace[k].ran == trace[k].added && forall c :: c in trace[k].added ==> c.ok
    ensures !Verdict(trace[k]) <==> exists c :: c in trace[k].ran && !c.ok
  {
    RunInv(nBatchSize, workers, trace, steps, k);
    var s := trace[k];
    CleanUpInv(s, 0);
    var h := Held(s, 0);
    ReturnResets(h);
    forall c ensures s.added[c] == s.ran[c] + h.dropped[c] {
      assert Accounted(h, c);
    }
    if Verdict(s) {
      assert s.ran == s.added;
      assert !Failed(s.ran);
    } else {
      assert Failed(s.ran);
    }
  }

  /** While checks are queued, some worker is on its way to them, unless there are no workers at all. */
  lemma QueuedWorkIsNoticed(nBatchSize: nat, workers: nat, trace: seq<State>, steps: seq<Step>, k: nat)
    requires IsRun(trace, steps) && trace[0] == Init(nBatchSize, workers) && k < |trace|
    requires trace[k].queue != []
    ensures NoWorker(trace[k].threads) || SomeActiveWorker(trace[k].threads)
  {
    RunInv(nBatchSize, workers, trace, steps, k);
  }

  /** A master blocked with no wake-up pending always leaves a worker that holds unfinished checks. */
  lemma BlockedMasterHasWorker(nBatchSize: nat, workers: nat, trace: seq<State>, steps: seq<Step>, k: nat)
    requires IsRun(trace, steps) && trace[0] == Init(nBatchSize, workers) && k < |trace|
    requires |trace[k].threads| > 0 && trace[k].threads[0].Waiting?
    ensures exists i :: 0 < i < |trace[k].threads| && Now(trace[k].threads[i]) > 0
  {
    RunInv(nBatchSize, workers, trace, steps, k);
    CountsNonNegative(trace[k]);
  }

  // ----- Wait always returns

  function Weight(t: Thread): int {
    match t
    case AtLock(_, _, _) => 3
    case Woken => 2
    case Working(_, _, left) => 4 + |left|
    case _ => 0
  }

  /** What the threads can still do without new checks, new threads or spurious wake-ups. */
  function Rank(s: State): int {
    4 * |s.queue| + Sum(s.threads, Weight)
  }

  predicate OwnStep(step: Step) {
    step.Lock? || step.Work?
  }

  lemma OwnStepsDescend(s: State, step: Step, s': State)
    requires Inv(s) && Next(s, step, s') && OwnStep(step)
    ensures Rank(s') < Rank(s)
  {
    if step.Work? {
      SumUpdate(s.threads, step.t, s'.threads[step.t], Weight);
    } else {
      LockIsDefined(s, step.t);
      LockDescends(s, step.t);
    }
  }

  lemma LockDescends(s: State, t: nat)
    requires Local(s) && Counts(s) && Enabled(s, Lock(t)) && Defined(s, Lock(t))
    ensures Rank(CriticalSection(s, t)) < Rank(s)
  {
    var c, s' := CleanUp(s, t), CriticalSection(s, t);
    CleanUpWeight(s, t);
    SumUpdate(c.threads, t, s'.threads[t], Weight);
    if c.queue != [] {
      PoppedIsSuffix(c.queue, BatchSize(c));
    }
  }

  /** Notifying the master adds to the rank, but only when the queue is empty. */
  lemma CleanUpWeight(s: State, t: nat)
    requires Local(s) && Counts(s) && Enabled(s, Lock(t))
    ensures |CleanUp(s, t).threads| == |s.threads| && CleanUp(s, t).threads[t] == s.threads[t]
    ensures Sum(CleanUp(s, t).threads, Weight) <=
      Sum(s.threads, Weight) + if s.threads[t].AtLock? && s.queue == [] then 2 else 0
  {
    var c := CleanUp(s, t);
    if c.threads != s.threads {
      assert c.threads == s.threads[0 := Woken];
      SumUpdate(s.threads, 0, Woken, Weight);
      CountsNonNegative(s);
    }
  }

  /** While the master is inside Wait, some thread can take a step of its own. */
  lemma NeverStuck(s: State)
    requires Inv(s) && !s.threads[0].Outside?
    ensures exists step :: OwnStep(step) && Enabled(s, step)
  {
    var i := 0;
    if s.threads[0].Waiting? {
      CountsNonNegative(s);
      i :| 0 <= i < |s.threads| && Now(s.threads[i]) > 0;
    }
    var step := if s.threads[i].Working? then Work(i) else Lock(i);
    assert OwnStep(step) && Enabled(s, step);
  }

  /**
   From any reachable state the threads' own steps come to an end, within Rank(s) steps,
   and they cannot end before Wait has returned.
   */
  lemma {:induction false} WaitReturns(s: State, trace: seq<State>, steps: seq<Step>)
    requires Inv(s) && IsRun(trace, steps) && trace[0] == s
    requires forall i :: 0 <= i < |steps| ==> OwnStep(steps[i])
    ensures Inv(trace[|steps|])
    ensures |steps| <= Rank(s)
    ensures (forall step :: OwnStep(step) ==> !Enabled(trace[|steps|], step)) ==> trace[|steps|].threads[0].Outside?
    decreases |steps|
  {
    if steps == [] {
      SumZero(s.threads, Weight);
    } else {
      assert Next(trace[0], steps[0], trace[1]);
      SumZero(trace[1].threads, Weight);
      NextKeepsInv(s, steps[0], trace[1]);
      OwnStepsDescend(s, steps[0], trace[1]);
      assert IsRun(trace[1..], steps[1..]) by {
        forall i | 0 <= i < |steps[1..]| ensures Next(trace[1..][i], steps[1..][i], trace[1..][i + 1]) {
          assert Next(trace[i + 1], steps[i + 1], trace[i + 1 + 1]);
        }
      }
      WaitReturns(trace[1], trace[1..], steps[1..]);
    }
    var last := trace[|steps|];
    if !last.threads[0].Outside? {
      NeverStuck(last);
    }
  }
}
