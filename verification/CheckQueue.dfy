/** The queue on which one master and any number of workers run checks. Each step is one critical section,
    or one check run outside of it; threads interleave in any order, and waits may end without a notification. */
module CheckQueue {
  import opened Common

  /** Where a thread is: not in the loop, holding the lock, waiting for work, or with a batch of which the
      first `done` checks have been run. */
  datatype Thread<T> =
    | Out
    | Inside
    | Waiting(notified: bool)
    | Working(batch: seq<T>, done: nat, ok: bool)

  /** The shared state, the threads (the master is thread 0), and two histories of the current round: all
      checks added since the last wait returned, and those whose batches have been accounted for. */
  datatype State<T(==)> = State(
    queue: seq<T>,
    nIdle: int,
    nTotal: int,
    allOk: bool,
    nTodo: int,
    quit: bool,
    batchSize: nat,
    threads: seq<Thread<T>>,
    added: multiset<T>,
    finished: multiset<T>)

  const MASTER := 0

  function Init<T>(batchSize: nat, quit: bool, threads: nat): State<T> {
    State([], 0, 0, true, 0, quit, batchSize, seq(threads, _ => Out), multiset{}, multiset{})
  }

  function Min(a: int, b: int): int { if a < b then a else b }

  function Reverse<T>(s: seq<T>): seq<T> {
    if s == [] then [] else Reverse(s[1..]) + [s[0]]
  }

  // ---------------------------------------------------------------------
  // Steps
  // ---------------------------------------------------------------------

  function Quotient(a: nat, d: int): int {
    if d == 0 then 0 else a / d
  }

  /** How many checks a thread takes from a queue that is not empty. The divisor is never zero; see BusyThreads. */
  function BatchCount<T>(s: State<T>): int {
    Max(1, Min(s.batchSize, Quotient(|s.queue|, s.nTotal + s.nIdle + 1)))
  }

  lemma BatchCountInRange<T>(s: State<T>)
    requires s.queue != []
    ensures 1 <= BatchCount(s) <= |s.queue|
  {
    QuotientAtMost(|s.queue|, s.nTotal + s.nIdle + 1);
  }

  lemma QuotientAtMost(a: nat, d: int)
    ensures Quotient(a, d) <= a
  {
    if d != 0 {
      var q := a / d;
      assert a == d * q + a % d;
      ProductSign(d, q);
    }
  }

  lemma ProductSign(d: int, q: int)
    ensures d > 0 && q >= 0 ==> d * q >= q
    ensures d < 0 && q > 0 ==> d * q <= -q
  {
  }

  /** The inner loop from its head on: leave, wait, or take a batch. Leaving, the master returns the verdict
      and starts a new round. */
  function LoopHead<T>(s: State<T>, i: nat): (State<T>, Option<bool>)
    requires i < |s.threads|
  {
    if s.queue == [] then
      if (i == MASTER || s.quit) && s.nTodo == 0 then
        var t := s.(nTotal := s.nTotal - 1, threads := s.threads[i := Out]);
        (if i == MASTER then t.(allOk := true, added := multiset{}, finished := multiset{}) else t, Some(s.allOk))
      else
        (s.(nIdle := s.nIdle + 1, threads := s.threads[i := Waiting(false)]), None)
    else
      BatchCountInRange(s);
      var rest := |s.queue| - BatchCount(s);
      (s.(queue := s.queue[..rest], threads := s.threads[i := Working(Reverse(s.queue[rest..]), 0, s.allOk)]), None)
  }

  /** The first critical section of a thread: it is counted from here on. */
  function Join<T>(s: State<T>, i: nat): State<T>
    requires i < |s.threads|
  {
    s.(nTotal := s.nTotal + 1, threads := s.threads[i := Inside])
  }

  /** The end of a wait. */
  function Resume<T>(s: State<T>, i: nat): State<T>
    requires i < |s.threads|
  {
    s.(nIdle := s.nIdle - 1, threads := s.threads[i := Inside])
  }

  /** The clean-up of a batch at the start of the next critical section; the last one notifies the master. */
  function Account<T>(s: State<T>, i: nat): State<T>
    requires i < |s.threads| && s.threads[i].Working?
  {
    var w := s.threads[i];
    var t := s.(allOk := s.allOk && w.ok, nTodo := s.nTodo - |w.batch|, finished := s.finished + multiset(w.batch),
                threads := s.threads[i := Inside]);
    if t.nTodo == 0 && i != MASTER && t.threads[MASTER].Waiting?
    then t.(threads := t.threads[MASTER := Waiting(true)]) else t
  }

  /** Runs the next check of a batch, unless the verdict is already known to be false. */
  function RunCheck<T>(s: State<T>, i: nat, result: T -> bool): State<T>
    requires i < |s.threads| && s.threads[i].Working? && s.threads[i].done < |s.threads[i].batch|
  {
    var w := s.threads[i];
    s.(threads := s.threads[i := w.(done := w.done + 1, ok := w.ok && result(w.batch[w.done]))])
  }

  /** Which waiting workers a call of Add notifies: one for one check, all for more. */
  predicate Notifies<T(==)>(s: State<T>, checks: seq<T>, woken: set<nat>) {
    && (forall i :: i in woken ==> MASTER < i < |s.threads| && s.threads[i].Waiting?)
    && (|checks| == 0 ==> woken == {})
    && (|checks| == 1 ==> |woken| <= 1 && (woken == {} ==> forall i :: MASTER < i < |s.threads| ==> !s.threads[i].Waiting?))
    && (|checks| > 1 ==> forall i: nat :: MASTER < i < |s.threads| && s.threads[i].Waiting? ==> i in woken)
  }

  function Notify<T>(threads: seq<Thread<T>>, woken: set<nat>): seq<Thread<T>> {
    seq(|threads|, i requires 0 <= i < |threads| =>
      if i in woken && threads[i].Waiting? then Waiting(true) else threads[i])
  }

  function AddChecks<T>(s: State<T>, checks: seq<T>, woken: set<nat>): State<T> {
    s.(queue := s.queue + checks, nTodo := s.nTodo + |checks|, added := s.added + multiset(checks),
       threads := Notify(s.threads, woken))
  }

  datatype Step<T> =
    | Add(checks: seq<T>, woken: set<nat>)
    | Start(i: nat)
    | Wake(i: nat)
    | Run(i: nat)
    | Finish(i: nat)

  /** When a step can be taken. Only the master adds, and not while it waits. */
  predicate Enabled<T(==)>(s: State<T>, step: Step<T>) {
    |s.threads| > 0 &&
    match step
    case Add(checks, woken) => s.threads[MASTER].Out? && Notifies(s, checks, woken)
    case Start(i) => i < |s.threads| && s.threads[i].Out?
    case Wake(i) => i < |s.threads| && s.threads[i].Waiting?
    case Run(i) => i < |s.threads| && s.threads[i].Working? && s.threads[i].done < |s.threads[i].batch|
    case Finish(i) => i < |s.threads| && s.threads[i].Working? && s.threads[i].done == |s.threads[i].batch|
  }

  // ---------------------------------------------------------------------
  // Counting over the threads
  // ---------------------------------------------------------------------

  function Held<T>(th: Thread<T>): multiset<T> {
    if th.Working? then multiset(th.batch) else multiset{}
  }

  /** The checks in the threads' own batches. */
  function InFlight<T>(threads: seq<Thread<T>>): multiset<T> {
    if threads == [] then multiset{} else InFlight(threads[..|threads| - 1]) + Held(threads[|threads| - 1])
  }

  function Active<T>(threads: seq<Thread<T>>): nat {
    if threads == [] then 0 else Active(threads[..|threads| - 1]) + if threads[|threads| - 1].Out? then 0 else 1
  }

  function Idle<T>(threads: seq<Thread<T>>): nat {
    if threads == [] then 0 else Idle(threads[..|threads| - 1]) + if threads[|threads| - 1].Waiting? then 1 else 0
  }

  lemma {:induction false} InFlightUpdate<T>(threads: seq<Thread<T>>, i: nat, th: Thread<T>)
    requires i < |threads|
    ensures InFlight(threads[i := th]) + Held(threads[i]) == InFlight(threads) + Held(th)
  {
    var n := |threads| - 1;
    if i < n {
      InFlightUpdate(threads[..n], i, th);
      assert threads[i := th][..n] == threads[..n][i := th];
      var a, b, l := InFlight(threads[..n]), InFlight(threads[..n][i := th]), Held(threads[n]);
      assert b + l + Held(threads[i]) == b + Held(threads[i]) + l;
      assert a + l + Held(th) == a + Held(th) + l;
    } else {
      assert threads[i := th][..n] == threads[..n];
      var a := InFlight(threads[..n]);
      assert a + Held(th) + Held(threads[i]) == a + Held(threads[i]) + Held(th);
    }
  }

  lemma {:induction false} CountUpdate<T>(threads: seq<Thread<T>>, i: nat, th: Thread<T>)
    requires i < |threads|
    ensures Active(threads[i := th]) == Active(threads) - (if threads[i].Out? then 0 else 1) + (if th.Out? then 0 else 1)
    ensures Idle(threads[i := th]) == Idle(threads) - (if threads[i].Waiting? then 1 else 0) + (if th.Waiting? then 1 else 0)
  {
    var n := |threads| - 1;
    if i < n {
      CountUpdate(threads[..n], i, th);
      assert threads[i := th][..n] == threads[..n][i := th];
    } else {
      assert threads[i := th][..n] == threads[..n];
    }
  }

  /** Threads that count the same. */
  ghost predicate Alike<T>(a: Thread<T>, b: Thread<T>) {
    Held(a) == Held(b) && (a.Out? <==> b.Out?) && (a.Waiting? <==> b.Waiting?)
  }

  lemma {:induction false} CountAlike<T>(a: seq<Thread<T>>, b: seq<Thread<T>>)
    requires |a| == |b| && forall i :: 0 <= i < |a| ==> Alike(a[i], b[i])
    ensures InFlight(a) == InFlight(b) && Active(a) == Active(b) && Idle(a) == Idle(b)
  {
    if a != [] {
      var n := |a| - 1;
      CountAlike(a[..n], b[..n]);
      assert Alike(a[n], b[n]);
    }
  }

  /** Notifications change no count. */
  lemma CountNotify<T>(threads: seq<Thread<T>>, woken: set<nat>)
    ensures InFlight(Notify(threads, woken)) == InFlight(threads)
    ensures Active(Notify(threads, woken)) == Active(threads) && Idle(Notify(threads, woken)) == Idle(threads)
  {
    CountAlike(Notify(threads, woken), threads);
  }

  lemma {:induction false} ReverseKeeps<T>(s: seq<T>)
    ensures multiset(Reverse(s)) == multiset(s) && |Reverse(s)| == |s|
  {
    if s != [] {
      ReverseKeeps(s[1..]);
      assert s == [s[0]] + s[1..];
    }
  }

  // ---------------------------------------------------------------------
  // The invariant
  // ---------------------------------------------------------------------

  ghost predicate Failed<T(!new)>(checks: multiset<T>, result: T -> bool) {
    exists c :: c in checks && !result(c)
  }

  ghost predicate CountsOk<T>(s: State<T>) {
    && s.nTotal == Active(s.threads) && s.nIdle == Idle(s.threads)
    && s.nTodo == |s.queue| + |InFlight(s.threads)|
    && s.added == multiset(s.queue) + InFlight(s.threads) + s.finished
  }

  /** A batch in progress is never empty, and its verdict is false only for a check that fails. */
  ghost predicate BatchOk<T(!new)>(th: Thread<T>, finished: multiset<T>, result: T -> bool) {
    th.Working? ==>
      && 0 < |th.batch| && th.done <= |th.batch|
      && (th.ok ==> forall j :: 0 <= j < th.done ==> result(th.batch[j]))
      && (!th.ok ==> Failed(finished, result) || exists j :: 0 <= j < th.done && !result(th.batch[j]))
  }

  ghost predicate VerdictsOk<T(!new)>(s: State<T>, result: T -> bool) {
    && (s.allOk <==> !Failed(s.finished, result))
    && (forall i :: 0 <= i < |s.threads| ==> BatchOk(s.threads[i], s.finished, result))
  }

  /** While the master waits the queue is empty, and unless it is notified there is work to be finished. */
  ghost predicate MasterOk<T>(s: State<T>) {
    && |s.threads| > 0
    && (s.threads[MASTER].Waiting? ==> s.queue == [])
    && (s.threads[MASTER] == Waiting(false) ==> s.nTodo > 0)
  }

  /** What holds at every moment. */
  ghost predicate Core<T(!new)>(s: State<T>, result: T -> bool) {
    CountsOk(s) && VerdictsOk(s, result) && MasterOk(s)
  }

  /** What holds whenever the lock is free. */
  ghost predicate Inv<T(!new)>(s: State<T>, result: T -> bool) {
    Core(s, result) && forall i :: 0 <= i < |s.threads| ==> !s.threads[i].Inside?
  }

  // ---------------------------------------------------------------------
  // Every step keeps it
  // ---------------------------------------------------------------------

  /** A thread without a batch moves on without one. */
  lemma SameFlight<T>(threads: seq<Thread<T>>, i: nat, th: Thread<T>)
    requires i < |threads| && Held(threads[i]) == Held(th)
    ensures InFlight(threads[i := th]) == InFlight(threads)
  {
    InFlightUpdate(threads, i, th);
    var h, a, b := Held(th), InFlight(threads), InFlight(threads[i := th]);
    assert a == (a + h) - h && b == (b + h) - h;
  }

  lemma MoveVerdicts<T(!new)>(s: State<T>, i: nat, th: Thread<T>, t: State<T>, result: T -> bool)
    requires VerdictsOk(s, result) && i < |s.threads| && t.threads == s.threads[i := th]
    requires t.finished == s.finished && t.allOk == s.allOk && BatchOk(th, t.finished, result)
    ensures VerdictsOk(t, result)
  {
  }

  lemma MoveCore<T(!new)>(s: State<T>, i: nat, th: Thread<T>, nIdle: int, nTotal: int, t: State<T>, result: T -> bool)
    requires Core(s, result) && i < |s.threads| && !s.threads[i].Working? && !th.Working?
    requires t == s.(nIdle := nIdle, nTotal := nTotal, threads := s.threads[i := th])
    requires nTotal == s.nTotal - (if s.threads[i].Out? then 0 else 1) + (if th.Out? then 0 else 1)
    requires nIdle == s.nIdle - (if s.threads[i].Waiting? then 1 else 0) + (if th.Waiting? then 1 else 0)
    requires i == MASTER && th.Waiting? ==> s.queue == [] && s.nTodo > 0
    ensures Core(t, result)
  {
    CountUpdate(s.threads, i, th);
    SameFlight(s.threads, i, th);
    MoveVerdicts(s, i, th, t, result);
  }

  lemma MoreFailed<T(!new)>(a: multiset<T>, b: multiset<T>, result: T -> bool)
    ensures Failed(a + b, result) <==> Failed(a, result) || Failed(b, result)
  {
    if Failed(a + b, result) {
      var c :| c in a + b && !result(c);
      assert c in a || c in b;
    }
    if Failed(a, result) { var c :| c in a && !result(c); assert c in a + b; }
    if Failed(b, result) { var c :| c in b && !result(c); assert c in a + b; }
  }

  lemma BatchFailed<T(!new)>(batch: seq<T>, result: T -> bool)
    ensures Failed(multiset(batch), result) <==> exists j :: 0 <= j < |batch| && !result(batch[j])
  {
    if Failed(multiset(batch), result) {
      var c :| c in multiset(batch) && !result(c);
      assert c in batch;
    }
    if j :| 0 <= j < |batch| && !result(batch[j]) {
      assert batch[j] in multiset(batch);
    }
  }

  /** A finished batch is accounted for. */
  lemma AccountCounts<T>(s: State<T>, i: nat, t: State<T>)
    requires CountsOk(s) && i < |s.threads| && s.threads[i].Working?
    requires t == s.(allOk := t.allOk, nTodo := s.nTodo - |s.threads[i].batch|, finished := s.finished + multiset(s.threads[i].batch),
                     threads := s.threads[i := Inside])
    ensures CountsOk(t)
  {
    CountUpdate(s.threads, i, Inside);
    InFlightUpdate(s.threads, i, Inside);
    var h, a, b := multiset(s.threads[i].batch), InFlight(s.threads), InFlight(t.threads);
    assert b + h == a;
    assert multiset(s.queue) + a + s.finished == multiset(s.queue) + b + (s.finished + h);
  }

  lemma AccountVerdicts<T(!new)>(s: State<T>, i: nat, t: State<T>, result: T -> bool)
    requires VerdictsOk(s, result) && i < |s.threads| && s.threads[i].Working? && s.threads[i].done == |s.threads[i].batch|
    requires t.threads == s.threads[i := Inside] && t.finished == s.finished + multiset(s.threads[i].batch)
    requires t.allOk == (s.allOk && s.threads[i].ok)
    ensures VerdictsOk(t, result)
  {
    var w := s.threads[i];
    assert BatchOk(w, s.finished, result);
    MoreFailed(s.finished, multiset(w.batch), result);
    BatchFailed(w.batch, result);
    forall k | 0 <= k < |t.threads| ensures BatchOk(t.threads[k], t.finished, result) {
      if k != i { assert BatchOk(s.threads[k], s.finished, result); }
    }
  }

  lemma AccountCore<T(!new)>(s: State<T>, i: nat, t: State<T>, result: T -> bool)
    requires Core(s, result) && i < |s.threads| && s.threads[i].Working? && s.threads[i].done == |s.threads[i].batch|
    requires t == Account(s, i)
    ensures Core(t, result)
  {
    var w := s.threads[i];
    var u := s.(allOk := s.allOk && w.ok, nTodo := s.nTodo - |w.batch|, finished := s.finished + multiset(w.batch),
                threads := s.threads[i := Inside]);
    AccountCounts(s, i, u);
    AccountVerdicts(s, i, u, result);
    if u.nTodo == 0 && i != MASTER && u.threads[MASTER].Waiting? {
      CountUpdate(u.threads, MASTER, Waiting(true));
      SameFlight(u.threads, MASTER, Waiting(true));
      MoveVerdicts(u, MASTER, Waiting(true), t, result);
    }
  }

  lemma {:induction false} HeldInFlight<T>(threads: seq<Thread<T>>, i: nat)
    requires i < |threads|
    ensures Held(threads[i]) <= InFlight(threads)
  {
    var n := |threads| - 1;
    if i < n { HeldInFlight(threads[..n], i); }
  }

  lemma EmptyFlight<T>(threads: seq<Thread<T>>, i: nat)
    requires i < |threads| && InFlight(threads) == multiset{}
    ensures threads[i].Working? ==> threads[i].batch == []
  {
    HeldInFlight(threads, i);
    if threads[i].Working? { assert |multiset(threads[i].batch)| == 0; }
  }

  /** The master leaves: the verdict it returns is that of exactly the checks added in this round. */
  lemma ReturnCore<T(!new)>(s: State<T>, t: State<T>, result: T -> bool)
    requires Core(s, result) && s.threads[MASTER].Inside? && s.queue == [] && s.nTodo == 0
    requires t == s.(nTotal := s.nTotal - 1, threads := s.threads[MASTER := Out], allOk := true, added := multiset{}, finished := multiset{})
    ensures Core(t, result) && (s.allOk <==> !Failed(s.added, result))
  {
    CountUpdate(s.threads, MASTER, Out);
    SameFlight(s.threads, MASTER, Out);
    assert InFlight(s.threads) == multiset{};
    assert s.added == s.finished;
    forall k | 0 <= k < |t.threads| ensures BatchOk(t.threads[k], t.finished, result) {
      if k != MASTER {
        assert BatchOk(s.threads[k], s.finished, result);
        EmptyFlight(s.threads, k);
      }
    }
  }

  lemma QueueSplit<T>(queue: seq<T>, rest: nat)
    requires rest <= |queue|
    ensures multiset(queue) == multiset(queue[..rest]) + multiset(queue[rest..])
    ensures |multiset(queue[rest..])| == |queue| - rest
  {
    assert queue == queue[..rest] + queue[rest..];
  }

  lemma Regroup<T>(a: multiset<T>, b: multiset<T>, c: multiset<T>, d: multiset<T>)
    ensures a + b + c + d == a + (c + b) + d
  {
  }

  lemma TakeCounts<T>(s: State<T>, i: nat, rest: nat, w: Thread<T>, t: State<T>)
    requires CountsOk(s) && i < |s.threads| && s.threads[i].Inside? && rest <= |s.queue|
    requires w.Working? && multiset(w.batch) == multiset(s.queue[rest..])
    requires t == s.(queue := s.queue[..rest], threads := s.threads[i := w])
    ensures CountsOk(t)
  {
    CountUpdate(s.threads, i, w);
    InFlightUpdate(s.threads, i, w);
    QueueSplit(s.queue, rest);
    var low, high, a := multiset(s.queue[..rest]), multiset(s.queue[rest..]), InFlight(s.threads);
    assert InFlight(t.threads) == a + high;
    assert |a + high| == |a| + |high|;
    Regroup(low, high, a, s.finished);
  }

  lemma TakeCore<T(!new)>(s: State<T>, i: nat, rest: nat, t: State<T>, result: T -> bool)
    requires Core(s, result) && i < |s.threads| && s.threads[i].Inside? && rest < |s.queue|
    requires t == s.(queue := s.queue[..rest], threads := s.threads[i := Working(Reverse(s.queue[rest..]), 0, s.allOk)])
    ensures Core(t, result)
  {
    var w := Working(Reverse(s.queue[rest..]), 0, s.allOk);
    ReverseKeeps(s.queue[rest..]);
    TakeCounts(s, i, rest, w, t);
    MoveVerdicts(s, i, w, t, result);
  }

  lemma TakeStep<T(!new)>(s: State<T>, i: nat, t: State<T>, result: T -> bool)
    requires Core(s, result) && i < |s.threads| && s.threads[i].Inside? && s.queue != [] && t == LoopHead(s, i).0
    ensures Core(t, result) && Free(s, t, i)
  {
    BatchCountInRange(s);
    TakeCore(s, i, |s.queue| - BatchCount(s), t, result);
  }

  lemma MasterLeaves<T(!new)>(s: State<T>, t: State<T>, result: T -> bool)
    requires Core(s, result) && s.threads[MASTER].Inside? && s.queue == [] && s.nTodo == 0 && t == LoopHead(s, MASTER).0
    ensures Core(t, result) && Free(s, t, MASTER) && (s.allOk <==> !Failed(s.added, result))
  {
    ReturnCore(s, t, result);
  }

  lemma WorkerLeaves<T(!new)>(s: State<T>, i: nat, t: State<T>, result: T -> bool)
    requires Core(s, result) && i < |s.threads| && s.threads[i].Inside? && s.queue == []
    requires i != MASTER && s.quit && s.nTodo == 0 && t == LoopHead(s, i).0
    ensures Core(t, result) && Free(s, t, i)
  {
    MoveCore(s, i, Out, s.nIdle, s.nTotal - 1, t, result);
  }

  lemma Sleeps<T(!new)>(s: State<T>, i: nat, t: State<T>, result: T -> bool)
    requires Core(s, result) && i < |s.threads| && s.threads[i].Inside? && s.queue == []
    requires !((i == MASTER || s.quit) && s.nTodo == 0) && t == LoopHead(s, i).0
    ensures Core(t, result) && Free(s, t, i)
  {
    MoveCore(s, i, Waiting(false), s.nIdle + 1, s.nTotal, t, result);
  }

  lemma LoopHeadCore<T(!new)>(s: State<T>, i: nat, result: T -> bool)
    requires Core(s, result) && i < |s.threads| && s.threads[i].Inside?
    ensures Core(LoopHead(s, i).0, result) && Free(s, LoopHead(s, i).0, i)
    ensures i == MASTER && LoopHead(s, i).1.Some? ==> (LoopHead(s, i).1.value <==> !Failed(s.added, result))
  {
    var t := LoopHead(s, i).0;
    if s.queue != [] {
      TakeStep(s, i, t, result);
    } else if !((i == MASTER || s.quit) && s.nTodo == 0) {
      Sleeps(s, i, t, result);
    } else if i == MASTER {
      MasterLeaves(s, t, result);
    } else {
      WorkerLeaves(s, i, t, result);
    }
  }

  /** Thread `i` has left its critical section, and no other thread has moved. */
  ghost predicate Free<T>(s: State<T>, t: State<T>, i: nat) {
    |t.threads| == |s.threads| && forall k :: 0 <= k < |s.threads| ==>
      if k == i then !t.threads[k].Inside? else t.threads[k] == s.threads[k]
  }

  // ---------------------------------------------------------------------
  // Runs
  // ---------------------------------------------------------------------

  /** One step; the second part is the verdict of a thread that leaves the loop. */
  function Next<T>(s: State<T>, step: Step<T>, result: T -> bool): (State<T>, Option<bool>)
    requires Enabled(s, step)
  {
    match step
    case Add(checks, woken) => (AddChecks(s, checks, woken), None)
    case Start(i) => LoopHead(Join(s, i), i)
    case Wake(i) => LoopHead(Resume(s, i), i)
    case Run(i) => (RunCheck(s, i, result), None)
    case Finish(i) => LoopHead(Account(s, i), i)
  }

  /** The verdict that the master's wait returns in a step, if it does. */
  function Verdict<T>(s: State<T>, step: Step<T>, result: T -> bool): Option<bool>
    requires Enabled(s, step)
  {
    match step
    case Start(i) => if i == MASTER then Next(s, step, result).1 else None
    case Wake(i) => if i == MASTER then Next(s, step, result).1 else None
    case Finish(i) => if i == MASTER then Next(s, step, result).1 else None
    case _ => None
  }

  lemma AddCore<T(!new)>(s: State<T>, checks: seq<T>, woken: set<nat>, t: State<T>, result: T -> bool)
    requires Inv(s, result) && s.threads[MASTER].Out? && t == AddChecks(s, checks, woken)
    ensures Inv(t, result)
  {
    CountNotify(s.threads, woken);
    var q, c, f := multiset(s.queue), multiset(checks), InFlight(s.threads);
    assert q + f + s.finished + c == q + c + f + s.finished;
    forall k | 0 <= k < |t.threads| ensures BatchOk(t.threads[k], t.finished, result) && !t.threads[k].Inside? {
      assert BatchOk(s.threads[k], s.finished, result);
    }
  }

  lemma SameBatchInv<T(!new)>(s: State<T>, i: nat, v: Thread<T>, t: State<T>, result: T -> bool)
    requires Inv(s, result) && i < |s.threads| && s.threads[i].Working? && v.Working? && v.batch == s.threads[i].batch
    requires BatchOk(v, s.finished, result) && t == s.(threads := s.threads[i := v])
    ensures Inv(t, result)
  {
    CountUpdate(s.threads, i, v);
    SameFlight(s.threads, i, v);
    MoveVerdicts(s, i, v, t, result);
  }

  lemma RunCheckInv<T(!new)>(s: State<T>, i: nat, t: State<T>, result: T -> bool)
    requires Inv(s, result) && Enabled(s, Run(i)) && t == RunCheck(s, i, result)
    ensures Inv(t, result)
  {
    RunCheckBatch(s.threads[i], s.finished, result);
    SameBatchInv(s, i, t.threads[i], t, result);
  }

  lemma RunCheckBatch<T(!new)>(w: Thread<T>, finished: multiset<T>, result: T -> bool)
    requires w.Working? && w.done < |w.batch| && BatchOk(w, finished, result)
    ensures BatchOk(w.(done := w.done + 1, ok := w.ok && result(w.batch[w.done])), finished, result)
  {
    var v := w.(done := w.done + 1, ok := w.ok && result(w.batch[w.done]));
    if !w.ok {
      if j :| 0 <= j < w.done && !result(w.batch[j]) { assert 0 <= j < v.done && !result(v.batch[j]); }
    } else if !v.ok {
      assert 0 <= w.done < v.done && !result(v.batch[w.done]);
    }
  }

  /** A critical section of thread `i`, entered in state `u`, leaves the lock free. */
  lemma SectionInv<T(!new)>(s: State<T>, i: nat, u: State<T>, result: T -> bool)
    requires i < |u.threads| && Core(u, result) && u.threads[i].Inside? && u.added == s.added
    requires forall k :: 0 <= k < |u.threads| && k != i ==> !u.threads[k].Inside?
    ensures Inv(LoopHead(u, i).0, result)
    ensures i == MASTER && LoopHead(u, i).1.Some? ==> (LoopHead(u, i).1.value <==> !Failed(s.added, result))
  {
    LoopHeadCore(u, i, result);
  }

  lemma StartInv<T(!new)>(s: State<T>, i: nat, u: State<T>, result: T -> bool)
    requires Inv(s, result) && Enabled(s, Start(i)) && u == Join(s, i)
    ensures Inv(LoopHead(u, i).0, result)
    ensures i == MASTER && LoopHead(u, i).1.Some? ==> (LoopHead(u, i).1.value <==> !Failed(s.added, result))
  {
    MoveCore(s, i, Inside, s.nIdle, s.nTotal + 1, u, result);
    SectionInv(s, i, u, result);
  }

  lemma WakeInv<T(!new)>(s: State<T>, i: nat, u: State<T>, result: T -> bool)
    requires Inv(s, result) && Enabled(s, Wake(i)) && u == Resume(s, i)
    ensures Inv(LoopHead(u, i).0, result)
    ensures i == MASTER && LoopHead(u, i).1.Some? ==> (LoopHead(u, i).1.value <==> !Failed(s.added, result))
  {
    MoveCore(s, i, Inside, s.nIdle - 1, s.nTotal, u, result);
    SectionInv(s, i, u, result);
  }

  lemma AccountThreads<T>(s: State<T>, i: nat, u: State<T>)
    requires i < |s.threads| && s.threads[i].Working? && u == Account(s, i)
    ensures u.added == s.added && |u.threads| == |s.threads| && u.threads[i].Inside?
    ensures forall k :: 0 <= k < |u.threads| && k != i ==> (u.threads[k].Inside? <==> s.threads[k].Inside?)
  {
  }

  lemma FinishInv<T(!new)>(s: State<T>, i: nat, u: State<T>, result: T -> bool)
    requires Inv(s, result) && Enabled(s, Finish(i)) && u == Account(s, i)
    ensures Inv(LoopHead(u, i).0, result)
    ensures i == MASTER && LoopHead(u, i).1.Some? ==> (LoopHead(u, i).1.value <==> !Failed(s.added, result))
  {
    AccountCore(s, i, u, result);
    AccountThreads(s, i, u);
    SectionInv(s, i, u, result);
  }

  /** Every step keeps the invariant, and a wait returns true exactly if every check added since the previous
      wait returned passes. */
  lemma NextInv<T(!new)>(s: State<T>, step: Step<T>, result: T -> bool)
    requires Inv(s, result) && Enabled(s, step)
    ensures Inv(Next(s, step, result).0, result)
    ensures Verdict(s, step, result).Some? ==> (Verdict(s, step, result).value <==> !Failed(s.added, result))
  {
    match step
    case Add(checks, woken) => AddCore(s, checks, woken, AddChecks(s, checks, woken), result);
    case Run(i) => RunCheckInv(s, i, RunCheck(s, i, result), result);
    case Start(i) => StartInv(s, i, Join(s, i), result);
    case Wake(i) => WakeInv(s, i, Resume(s, i), result);
    case Finish(i) => FinishInv(s, i, Account(s, i), result);
  }

  lemma {:induction false} InitInv<T(!new)>(batchSize: nat, quit: bool, threads: nat, result: T -> bool)
    requires threads > 0
    ensures Inv(Init(batchSize, quit, threads), result)
  {
    AllOut<T>(threads);
  }

  lemma {:induction false} AllOut<T>(n: nat)
    ensures var ths: seq<Thread<T>> := seq(n, _ => Out); InFlight(ths) == multiset{} && Active(ths) == 0 && Idle(ths) == 0
  {
    if n > 0 {
      AllOut<T>(n - 1);
      var ths: seq<Thread<T>> := seq(n, _ => Out);
      assert ths[..n - 1] == seq(n - 1, _ => Out);
    }
  }

  ghost predicate IsRun<T(!new)>(steps: seq<Step<T>>, trace: seq<State<T>>, result: T -> bool) {
    && |trace| == |steps| + 1
    && forall k :: 0 <= k < |steps| ==> Enabled(trace[k], steps[k]) && trace[k + 1] == Next(trace[k], steps[k], result).0
  }

  /** The checks added in the first `k` steps of a run, since a wait last returned. */
  ghost function Gathered<T(!new)>(steps: seq<Step<T>>, trace: seq<State<T>>, result: T -> bool, k: nat): multiset<T>
    requires IsRun(steps, trace, result) && k <= |steps|
  {
    if k == 0 then multiset{}
    else if Verdict(trace[k - 1], steps[k - 1], result).Some? then multiset{}
    else Gathered(steps, trace, result, k - 1) + if steps[k - 1].Add? then multiset(steps[k - 1].checks) else multiset{}
  }

  lemma NextAdded<T>(s: State<T>, step: Step<T>, result: T -> bool)
    requires Enabled(s, step)
    ensures Next(s, step, result).0.added ==
      if Verdict(s, step, result).Some? then multiset{}
      else s.added + if step.Add? then multiset(step.checks) else multiset{}
  {
  }

  lemma {:induction false} RunInv<T(!new)>(steps: seq<Step<T>>, trace: seq<State<T>>, result: T -> bool, k: nat)
    requires IsRun(steps, trace, result) && k <= |steps| && Inv(trace[0], result) && trace[0].added == multiset{}
    ensures Inv(trace[k], result) && trace[k].added == Gathered(steps, trace, result, k)
  {
    if k > 0 {
      RunInv(steps, trace, result, k - 1);
      assert Enabled(trace[k - 1], steps[k - 1]) && trace[k - 1 + 1] == Next(trace[k - 1], steps[k - 1], result).0;
      NextInv(trace[k - 1], steps[k - 1], result);
      NextAdded(trace[k - 1], steps[k - 1], result);
    }
  }

  /** For any number of threads and any interleaving, every wait returns the conjunction of exactly the checks
      added since the previous one returned: no failure is lost, and none leaks into the next round. */
  lemma WaitVerdict<T(!new)>(batchSize: nat, quit: bool, threads: nat, steps: seq<Step<T>>, trace: seq<State<T>>,
                             result: T -> bool, k: nat)
    requires threads > 0 && IsRun(steps, trace, result) && trace[0] == Init(batchSize, quit, threads) && k < |steps|
    requires Verdict(trace[k], steps[k], result).Some?
    ensures Verdict(trace[k], steps[k], result).value <==> (forall c :: c in Gathered(steps, trace, result, k) ==> result(c))
  {
    InitInv(batchSize, quit, threads, result);
    RunInv(steps, trace, result, k);
    NextInv(trace[k], steps[k], result);
  }

  // ---------------------------------------------------------------------
  // Idleness and progress
  // ---------------------------------------------------------------------

  function Busy<T>(threads: seq<Thread<T>>): nat {
    if threads == [] then 0 else Busy(threads[..|threads| - 1]) + if threads[|threads| - 1].Working? then 1 else 0
  }

  lemma {:induction false} BusyCount<T>(threads: seq<Thread<T>>)
    requires forall i :: 0 <= i < |threads| ==> !threads[i].Inside?
    ensures Active(threads) - Idle(threads) == Busy(threads)
  {
    if threads != [] { BusyCount(threads[..|threads| - 1]); }
  }

  lemma {:induction false} SomeBusy<T>(threads: seq<Thread<T>>) returns (i: nat)
    requires Busy(threads) > 0
    ensures i < |threads| && threads[i].Working?
  {
    var n := |threads| - 1;
    if threads[n].Working? { i := n; } else { i := SomeBusy(threads[..n]); }
  }

  /** With the lock free, the threads that are not idle are those that hold a batch; the batch size is never
      computed by a division by zero. */
  lemma BusyThreads<T(!new)>(s: State<T>, result: T -> bool)
    requires Inv(s, result)
    ensures s.nTotal - s.nIdle == Busy(s.threads) && s.nTotal + s.nIdle + 1 > 0
  {
    BusyCount(s.threads);
  }

  lemma NoFlight<T(!new)>(s: State<T>, result: T -> bool)
    requires Inv(s, result)
    ensures Busy(s.threads) == 0 <==> InFlight(s.threads) == multiset{}
  {
    if Busy(s.threads) == 0 {
      NoWork(s.threads);
    } else {
      var i := SomeBusy(s.threads);
      assert BatchOk(s.threads[i], s.finished, result);
      HeldInFlight(s.threads, i);
      assert s.threads[i].batch[0] in Held(s.threads[i]);
    }
  }

  lemma {:induction false} NoWork<T>(threads: seq<Thread<T>>)
    requires Busy(threads) == 0
    ensures InFlight(threads) == multiset{}
  {
    if threads != [] { NoWork(threads[..|threads| - 1]); }
  }

  predicate IsIdle<T>(s: State<T>) {
    s.nTotal == s.nIdle && s.nTodo == 0 && s.allOk
  }

  /** Between rounds the queue reports that it is idle: the assert of a new controller never fails. */
  lemma IdleBetweenRounds<T(!new)>(s: State<T>, result: T -> bool)
    requires Inv(s, result) && s.added == multiset{}
    ensures IsIdle(s)
  {
    var q, f := multiset(s.queue), InFlight(s.threads);
    assert |q + f + s.finished| == 0;
    assert |q| == |s.queue| && |q| + |f| + |s.finished| == 0;
    assert f == multiset{} && s.finished == multiset{};
    NoFlight(s, result);
    BusyThreads(s, result);
  }

  /** The master's wake-up is never lost: if it waits and has not been notified, a worker still holds a batch. */
  lemma MasterWillBeWoken<T(!new)>(s: State<T>, result: T -> bool)
    requires Inv(s, result) && s.threads[MASTER] == Waiting(false)
    ensures exists i :: MASTER < i < |s.threads| && s.threads[i].Working?
  {
    NoFlight(s, result);
    var i := SomeBusy(s.threads);
  }

  /** While the master is in its wait, some thread can take a step other than waking up without being notified. */
  lemma AlwaysProgress<T(!new)>(s: State<T>, result: T -> bool)
    requires Inv(s, result) && !s.threads[MASTER].Out?
    ensures exists i: nat ::
      Enabled(s, Run(i)) || Enabled(s, Finish(i)) || (Enabled(s, Wake(i)) && s.threads[i].notified)
  {
    var m := MASTER;
    if s.threads[MASTER].Working? {
      assert BatchOk(s.threads[m], s.finished, result);
      assert Enabled(s, Run(m)) || Enabled(s, Finish(m));
    } else if s.threads[MASTER] == Waiting(false) {
      MasterWillBeWoken(s, result);
      var i :| MASTER < i < |s.threads| && s.threads[i].Working?;
      assert BatchOk(s.threads[i], s.finished, result);
      assert Enabled(s, Run(i)) || Enabled(s, Finish(i));
    } else {
      assert Enabled(s, Wake(m));
    }
  }

  /** The work left in a round: each queued check is still to be taken and run, each batch to be run and accounted for. */
  function Left<T>(th: Thread<T>): int {
    if th.Working? then 1 + |th.batch| - th.done else 0
  }

  function LeftAll<T>(threads: seq<Thread<T>>): int {
    if threads == [] then 0 else LeftAll(threads[..|threads| - 1]) + Left(threads[|threads| - 1])
  }

  function Work<T>(s: State<T>): int {
    3 * |s.queue| + LeftAll(s.threads)
  }

  lemma {:induction false} LeftUpdate<T>(threads: seq<Thread<T>>, i: nat, th: Thread<T>)
    requires i < |threads|
    ensures LeftAll(threads[i := th]) == LeftAll(threads) - Left(threads[i]) + Left(th)
  {
    var n := |threads| - 1;
    if i < n {
      LeftUpdate(threads[..n], i, th);
      assert threads[i := th][..n] == threads[..n][i := th];
    } else {
      assert threads[i := th][..n] == threads[..n];
    }
  }

  lemma LoopHeadWork<T>(s: State<T>, i: nat)
    requires i < |s.threads| && s.threads[i].Inside?
    ensures Work(LoopHead(s, i).0) <= Work(s)
  {
    var t := LoopHead(s, i).0;
    LeftUpdate(s.threads, i, t.threads[i]);
    if s.queue != [] {
      BatchCountInRange(s);
      ReverseKeeps(s.queue[|s.queue| - BatchCount(s)..]);
    }
    assert t.threads == s.threads[i := t.threads[i]];
  }

  lemma AccountWork<T>(s: State<T>, i: nat, u: State<T>)
    requires i < |s.threads| && s.threads[i].Working? && s.threads[i].done == |s.threads[i].batch| && u == Account(s, i)
    ensures Work(u) == Work(s) - 1
  {
    LeftUpdate(s.threads, i, Inside);
    LeftUpdate(s.threads[i := Inside], MASTER, Waiting(true));
  }

  /** Running a check and accounting for a batch use up work, and no step but Add makes any; so between two calls
      of Add at most `Work` such steps are taken, whatever the schedule. */
  lemma WorkDecreases<T(!new)>(s: State<T>, step: Step<T>, result: T -> bool)
    requires Inv(s, result) && Enabled(s, step) && !step.Add?
    ensures 0 <= Work(s)
    ensures Work(Next(s, step, result).0) <= Work(s) - if step.Run? || step.Finish? then 1 else 0
  {
    LeftNonNegative(s, result, |s.threads|);
    assert s.threads[..|s.threads|] == s.threads;
    match step
    case Run(i) => LeftUpdate(s.threads, i, RunCheck(s, i, result).threads[i]);
    case Start(i) => LeftUpdate(s.threads, i, Inside); LoopHeadWork(Join(s, i), i);
    case Wake(i) => LeftUpdate(s.threads, i, Inside); LoopHeadWork(Resume(s, i), i);
    case Finish(i) => AccountWork(s, i, Account(s, i)); AccountThreads(s, i, Account(s, i)); LoopHeadWork(Account(s, i), i);
  }

  lemma {:induction false} LeftNonNegative<T(!new)>(s: State<T>, result: T -> bool, n: nat)
    requires VerdictsOk(s, result) && n <= |s.threads|
    ensures LeftAll(s.threads[..n]) >= 0
  {
    if n > 0 {
      LeftNonNegative(s, result, n - 1);
      assert BatchOk(s.threads[n - 1], s.finished, result);
      assert s.threads[..n][..n - 1] == s.threads[..n - 1];
    }
  }

  /** The steps of a sequence that use up work. */
  function Used<T>(steps: seq<Step<T>>): nat {
    if steps == [] then 0
    else Used(steps[..|steps| - 1]) + if steps[|steps| - 1].Run? || steps[|steps| - 1].Finish? then 1 else 0
  }

  lemma UsedNext<T>(steps: seq<Step<T>>, k: nat)
    requires 0 < k <= |steps|
    ensures Used(steps[..k]) == Used(steps[..k - 1]) + if steps[k - 1].Run? || steps[k - 1].Finish? then 1 else 0
  {
    assert steps[..k][..k - 1] == steps[..k - 1];
  }

  lemma RunStep<T(!new)>(steps: seq<Step<T>>, trace: seq<State<T>>, result: T -> bool, k: nat)
    requires IsRun(steps, trace, result) && k < |steps|
    ensures Enabled(trace[k], steps[k]) && trace[k + 1] == Next(trace[k], steps[k], result).0
  {
  }

  lemma WorkStep<T(!new)>(s: State<T>, step: Step<T>, t: State<T>, result: T -> bool)
    requires Inv(s, result) && Enabled(s, step) && !step.Add? && t == Next(s, step, result).0
    ensures Inv(t, result) && Work(t) <= Work(s) - if step.Run? || step.Finish? then 1 else 0
  {
    NextInv(s, step, result);
    WorkDecreases(s, step, result);
  }

  lemma {:induction false} WorkBound<T(!new)>(steps: seq<Step<T>>, trace: seq<State<T>>, result: T -> bool, k: nat)
    requires IsRun(steps, trace, result) && k <= |steps| && Inv(trace[0], result)
    requires forall j :: 0 <= j < |steps| ==> !steps[j].Add?
    ensures Inv(trace[k], result) && Used(steps[..k]) + Work(trace[k]) <= Work(trace[0])
  {
    if k > 0 {
      WorkBound(steps, trace, result, k - 1);
      RunStep(steps, trace, result, k - 1);
      WorkStep(trace[k - 1], steps[k - 1], trace[k], result);
      UsedNext(steps, k);
    }
  }
}
