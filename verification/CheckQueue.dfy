/**
  The parallel check queue: one master and any number of workers run the same
  loop over a shared queue that a mutex protects.  Between acquiring the mutex and
  giving it up (by waiting, returning, or going off to execute a batch) a thread is
  alone, so each critical section is one step.  Which sleeping worker a
  notification wakes, and when a thread wakes for no reason, is arbitrary.
 */
module CheckQueue {
  import opened Basics
  import opened MapSums

  type Tid = nat
  type Check = nat

  /** The thread that adds checks and waits for them. */
  const MASTER: Tid := 0

  /** The maximal batch, and what each check evaluates to. */
  datatype Config = Config(batchSize: nat, eval: Check -> bool)

  /** Where a thread is. */
  datatype Pc =
    | Outside                                // not in the loop
    | Entering                               // about to lock for the first time
    | Holding(batch: seq<Check>, ok: bool)   // executing a batch, with the status it saw when taking it
    | Finished(n: nat, ok: bool)             // executed n checks, about to lock and report
    | Waiting                                // asleep on its condition variable
    | Woken                                  // notified, about to get the mutex back

  datatype State = State(
    queue: seq<Check>,
    nIdle: int,
    nTotal: int,
    allOk: bool,
    nTodo: int,
    threads: map<Tid, Pc>,
    added: seq<Check>)                       // everything added since the last Wait returned

  const Initial := State([], 0, 0, true, 0, map[MASTER := Outside], [])

  predicate AllOk(c: Config, checks: seq<Check>) {
    forall x | x in checks :: c.eval(x)
  }

  // ----- what a thread does while it has the mutex

  /** How many checks to take, aiming for smaller batches as the queue drains. */
  function BatchSize(c: Config, s: State): (n: nat)
    requires s.queue != []
    ensures 1 <= n <= |s.queue|
    ensures n <= Max(1, c.batchSize)
  {
    var threads := s.nTotal + s.nIdle + 1;
    Max(1, Min(c.batchSize, if threads > 0 then Share(|s.queue|, threads) else 0))
  }

  function Share(x: nat, d: nat): (q: nat)
    requires d > 0
    ensures q <= x
  {
    assert x / d <= x by {
      var q := x / d;
      assert q * d <= x;
      assert q * d >= q * 1;
    }
    x / d
  }

  /**
    A batch takes no more than an even share for the threads there are, and one more as
    a master will join them, so that all finish at about the same time; it is the
    largest such batch within the limits.
   */
  lemma FairShare(c: Config, s: State)
    requires s.queue != [] && s.nTotal >= 0 && s.nIdle >= 0
    ensures var n, threads := BatchSize(c, s), s.nTotal + s.nIdle + 1;
            && (n == 1 || n * threads <= |s.queue|)
            && (n >= c.batchSize || (n + 1) * threads > |s.queue|)
  {
    var threads := s.nTotal + s.nIdle + 1;
    var q := |s.queue| / threads;
    assert |s.queue| == q * threads + |s.queue| % threads;
    assert (q + 1) * threads == q * threads + threads;
    if BatchSize(c, s) > q {
      assert 2 * threads >= (q + 1) * threads;
    } else {
      Multiply(BatchSize(c, s), q, threads);
    }
  }

  lemma Multiply(a: nat, b: nat, k: nat)
    requires a <= b
    ensures a * k <= b * k
  {
  }

  /** The batch popped from the back of the queue, in popping order. */
  function Popped(queue: seq<Check>, n: nat): (batch: seq<Check>)
    requires n <= |queue|
    ensures |batch| == n
    ensures forall x :: x in batch <==> x in queue[|queue| - n..]
  {
    if n == 0 then []
    else
      var front := queue[..|queue| - 1];
      assert queue[|queue| - n..] == front[|front| - (n - 1)..] + [queue[|queue| - 1]];
      [queue[|queue| - 1]] + Popped(front, n - 1)
  }

  /** The loop from the test of the queue on. */
  function TestQueue(c: Config, s: State, t: Tid): State {
    if s.queue == [] then
      if t == MASTER && s.nTodo == 0 then
        s.(nTotal := s.nTotal - 1, allOk := true, threads := s.threads[t := Outside], added := [])
      else
        s.(nIdle := s.nIdle + 1, threads := s.threads[t := Waiting])
    else
      var n := BatchSize(c, s);
      s.(queue := s.queue[..|s.queue| - n], threads := s.threads[t := Holding(Popped(s.queue, n), s.allOk)])
  }

  /** Reporting a finished batch: the last worker to finish wakes the master. */
  function Report(s: State, t: Tid, n: nat, ok: bool): State {
    var s1 := s.(allOk := s.allOk && ok, nTodo := s.nTodo - n);
    if s1.nTodo == 0 && t != MASTER then Notified(s1, MASTER) else s1
  }

  /** Waking thread `t` if it sleeps. */
  function Notified(s: State, t: Tid): State {
    if t in s.threads && s.threads[t].Waiting? then s.(threads := s.threads[t := Woken]) else s
  }

  /** Waking all workers. */
  function AllNotified(s: State): State {
    s.(threads := map t | t in s.threads :: if t != MASTER && s.threads[t].Waiting? then Woken else s.threads[t])
  }

  /** Executing a batch: after a failure the remaining checks are skipped. */
  function Execute(c: Config, batch: seq<Check>, ok: bool): (r: bool)
    ensures r <==> ok && AllOk(c, batch)
  {
    if batch == [] then ok
    else
      assert batch == [batch[0]] + batch[1..];
      Execute(c, batch[1..], if ok then c.eval(batch[0]) else ok)
  }

  /** The loop that moves checks from the queue to a batch. */
  method TakeBatch(queue: seq<Check>, n: nat) returns (batch: seq<Check>, rest: seq<Check>)
    requires n <= |queue|
    ensures batch == Popped(queue, n) && rest == queue[..|queue| - n]
  {
    batch, rest := [], queue;
    for i := 0 to n
      invariant |rest| == |queue| - i && rest == queue[..|queue| - i]
      invariant Popped(queue, n) == batch + Popped(rest, n - i)
    {
      batch := batch + [rest[|rest| - 1]];
      rest := rest[..|rest| - 1];
    }
  }

  /** The loop that executes a batch. */
  method ExecuteBatch(c: Config, batch: seq<Check>, ok: bool) returns (r: bool)
    ensures r == Execute(c, batch, ok)
  {
    r := ok;
    for i := 0 to |batch|
      invariant Execute(c, batch, ok) == Execute(c, batch[i..], r)
    {
      if r {
        r := c.eval(batch[i]);
      }
    }
  }

  // ----- steps

  datatype Step =
    | Enter(t: Tid)                              // lock for the first time
    | Resume(t: Tid)                             // get the mutex back after a wait
    | Work(t: Tid)                               // execute the batch
    | Finish(t: Tid)                             // lock and report the batch
    | Add(checks: seq<Check>, woken: Tid)        // the master adds checks
    | CallWait                                   // the master enters the loop
    | Spawn(t: Tid)                              // a worker thread starts
    | Spurious(t: Tid)                           // a thread wakes for no reason

  predicate Enabled(s: State, step: Step) {
    match step
    case Enter(t) => t in s.threads && s.threads[t].Entering?
    case Resume(t) => t in s.threads && s.threads[t].Woken?
    case Work(t) => t in s.threads && s.threads[t].Holding?
    case Finish(t) => t in s.threads && s.threads[t].Finished?
    case Add(checks, woken) =>
      && MASTER in s.threads && s.threads[MASTER].Outside?
      && (|checks| == 1 && (exists t :: t in s.threads && t != MASTER && s.threads[t].Waiting?) ==>
            woken in s.threads && woken != MASTER && s.threads[woken].Waiting?)
    case CallWait => MASTER in s.threads && s.threads[MASTER].Outside?
    case Spawn(t) => t != MASTER && (t in s.threads ==> s.threads[t].Outside?)
    case Spurious(t) => t in s.threads && s.threads[t].Waiting?
  }

  function Apply(c: Config, s: State, step: Step): State
    requires Enabled(s, step)
  {
    match step
    case Enter(t) => TestQueue(c, s.(nTotal := s.nTotal + 1), t)
    case Resume(t) => TestQueue(c, s.(nIdle := s.nIdle - 1), t)
    case Work(t) =>
      var b := s.threads[t];
      s.(threads := s.threads[t := Finished(|b.batch|, Execute(c, b.batch, b.ok))])
    case Finish(t) => TestQueue(c, Report(s, t, s.threads[t].n, s.threads[t].ok), t)
    case Add(checks, woken) =>
      var s1 := s.(queue := s.queue + checks, nTodo := s.nTodo + |checks|, added := s.added + checks);
      if |checks| == 1 && woken != MASTER then Notified(s1, woken)
      else if |checks| > 1 then AllNotified(s1)
      else s1
    case CallWait => s.(threads := s.threads[MASTER := Entering])
    case Spawn(t) => s.(threads := s.threads[t := Entering])
    case Spurious(t) => s.(threads := s.threads[t := Woken])
  }

  // ----- the invariant

  predicate Asleep(pc: Pc) {
    pc.Waiting? || pc.Woken?
  }

  predicate HasBatch(pc: Pc) {
    pc.Holding? || pc.Finished?
  }

  ghost function Sleepers(threads: map<Tid, Pc>): set<Tid> {
    set t | t in threads && Asleep(threads[t])
  }

  ghost function Holders(threads: map<Tid, Pc>): set<Tid> {
    set t | t in threads && HasBatch(threads[t])
  }

  /** The checks that a thread has taken and not yet reported. */
  function Weight(pc: Pc): nat {
    match pc
    case Holding(batch, _) => |batch|
    case Finished(n, _) => n
    case _ => 0
  }

  /** A thread that holds a batch will report success for it. */
  predicate WillSucceed(c: Config, pc: Pc) {
    match pc
    case Holding(batch, ok) => ok && AllOk(c, batch)
    case Finished(_, ok) => ok
    case _ => true
  }

  ghost predicate AllWillSucceed(c: Config, threads: map<Tid, Pc>) {
    forall t | t in threads :: WillSucceed(c, threads[t])
  }

  /** All counters are right, with `extra` threads inside a critical section. */
  ghost predicate Consistent(c: Config, s: State, extra: int) {
    && MASTER in s.threads
    && s.nIdle == |Sleepers(s.threads)|
    && s.nTotal == |Sleepers(s.threads)| + |Holders(s.threads)| + extra
    && s.nTodo == |s.queue| + Sum(s.threads, Weight) <= |s.added|
    && (forall t | t in s.threads && HasBatch(s.threads[t]) :: Weight(s.threads[t]) > 0)
    && (AllOk(c, s.added) <==> s.allOk && AllOk(c, s.queue) && AllWillSucceed(c, s.threads))
    && (s.threads[MASTER].Waiting? ==> s.queue == [] && s.nTodo > 0)
  }

  ghost predicate Inv(c: Config, s: State) {
    Consistent(c, s, 0)
  }

  lemma InitialInv(c: Config)
    ensures Inv(c, Initial)
  {
    SumMoved(map[], Weight, MASTER, Outside);
    assert map[][MASTER := Outside] == Initial.threads;
    assert Sleepers(Initial.threads) == {} && Holders(Initial.threads) == {};
  }

  // ----- every step keeps it

  /** The counts after moving one thread. */
  lemma Moved(threads: map<Tid, Pc>, t: Tid, pc: Pc)
    ensures var was := if t in threads then threads[t] else Outside;
            && |Sleepers(threads[t := pc])| == |Sleepers(threads)|
                 - (if Asleep(was) then 1 else 0) + (if Asleep(pc) then 1 else 0)
            && |Holders(threads[t := pc])| == |Holders(threads)|
                 - (if HasBatch(was) then 1 else 0) + (if HasBatch(pc) then 1 else 0)
            && Sum(threads[t := pc], Weight) == Sum(threads, Weight) - Weight(was) + Weight(pc)
  {
    SumMoved(threads, Weight, t, pc);
    MovedSleepers(threads, t, pc);
    MovedHolders(threads, t, pc);
  }

  lemma MovedSleepers(threads: map<Tid, Pc>, t: Tid, pc: Pc)
    ensures var was := if t in threads then threads[t] else Outside;
            |Sleepers(threads[t := pc])|
            == |Sleepers(threads)| - (if Asleep(was) then 1 else 0) + (if Asleep(pc) then 1 else 0)
  {
    var rest := Sleepers(threads) - {t};
    if t in threads && Asleep(threads[t]) {
      assert Sleepers(threads) == rest + {t};
    } else {
      assert Sleepers(threads) == rest;
    }
    if Asleep(pc) {
      assert Sleepers(threads[t := pc]) == rest + {t};
    } else {
      assert Sleepers(threads[t := pc]) == rest;
    }
  }

  lemma MovedHolders(threads: map<Tid, Pc>, t: Tid, pc: Pc)
    ensures var was := if t in threads then threads[t] else Outside;
            |Holders(threads[t := pc])|
            == |Holders(threads)| - (if HasBatch(was) then 1 else 0) + (if HasBatch(pc) then 1 else 0)
  {
    var rest := Holders(threads) - {t};
    if t in threads && HasBatch(threads[t]) {
      assert Holders(threads) == rest + {t};
    } else {
      assert Holders(threads) == rest;
    }
    if HasBatch(pc) {
      assert Holders(threads[t := pc]) == rest + {t};
    } else {
      assert Holders(threads[t := pc]) == rest;
    }
  }

  /** Whether everybody succeeds after moving one thread. */
  lemma MovedVerdict(c: Config, threads: map<Tid, Pc>, t: Tid, pc: Pc)
    requires t in threads ==> WillSucceed(c, threads[t])
    ensures AllWillSucceed(c, threads[t := pc]) <==> AllWillSucceed(c, threads) && WillSucceed(c, pc)
  {
    if AllWillSucceed(c, threads[t := pc]) {
      forall u | u in threads ensures WillSucceed(c, threads[u]) {
        assert u != t ==> threads[t := pc][u] == threads[u];
      }
      assert threads[t := pc][t] == pc;
    }
  }

  /** Nothing is queued or held: nobody holds a batch. */
  lemma NothingLeft(c: Config, s: State, extra: int)
    requires Consistent(c, s, extra) && s.nTodo == 0
    ensures s.queue == [] && Holders(s.threads) == {} && AllWillSucceed(c, s.threads)
  {
    forall t | t in s.threads ensures !s.threads[t].Holding? && !s.threads[t].Finished? {
      SumWithout(s.threads, Weight, t);
    }
  }

  /** The end of a critical section restores the invariant. */
  lemma TestQueueKeeps(c: Config, s: State, t: Tid)
    requires Consistent(c, s, 1) && t in s.threads && s.threads[t].Outside?
    ensures Inv(c, TestQueue(c, s, t))
  {
    hide AllOk, Sum, Sleepers, Holders, AllWillSucceed;
    if s.queue == [] {
      if t == MASTER && s.nTodo == 0 {
        NothingLeft(c, s, 1);
        Nothing(c);
        assert s.threads[t := Outside] == s.threads;
      } else {
        Moved(s.threads, t, Waiting);
        MovedVerdict(c, s.threads, t, Waiting);
        if t == MASTER {
          assert s.nTodo > 0;
        }
      }
    } else {
      var n := BatchSize(c, s);
      var batch := Popped(s.queue, n);
      Moved(s.threads, t, Holding(batch, s.allOk));
      MovedVerdict(c, s.threads, t, Holding(batch, s.allOk));
      PoppedVerdict(c, s.queue, n);
    }
  }

  lemma Nothing(c: Config)
    ensures AllOk(c, [])
  {
  }

  lemma PoppedVerdict(c: Config, queue: seq<Check>, n: nat)
    requires n <= |queue|
    ensures AllOk(c, queue) <==> AllOk(c, queue[..|queue| - n]) && AllOk(c, Popped(queue, n))
  {
    assert queue == queue[..|queue| - n] + queue[|queue| - n..];
  }

  lemma EnterKeeps(c: Config, s: State, t: Tid)
    requires Inv(c, s) && Enabled(s, Enter(t))
    ensures Inv(c, Apply(c, s, Enter(t)))
  {
    hide AllOk, Sum, Sleepers, Holders, AllWillSucceed;
    var s1 := s.(nTotal := s.nTotal + 1, threads := s.threads[t := Outside]);
    Moved(s.threads, t, Outside);
    MovedVerdict(c, s.threads, t, Outside);
    TestQueueKeeps(c, s1, t);
    SameThreads(c, s.(nTotal := s.nTotal + 1), t);
  }

  /** Where thread `t` was does not matter for the end of its critical section. */
  lemma SameThreads(c: Config, s: State, t: Tid)
    ensures TestQueue(c, s, t) == TestQueue(c, s.(threads := s.threads[t := Outside]), t)
  {
    assert s.threads[t := Outside][t := Outside] == s.threads[t := Outside];
    assert s.threads[t := Outside][t := Waiting] == s.threads[t := Waiting];
    if s.queue != [] {
      var pc := Holding(Popped(s.queue, BatchSize(c, s)), s.allOk);
      assert s.threads[t := Outside][t := pc] == s.threads[t := pc];
    }
  }

  lemma ResumeKeeps(c: Config, s: State, t: Tid)
    requires Inv(c, s) && Enabled(s, Resume(t))
    ensures Inv(c, Apply(c, s, Resume(t)))
  {
    hide AllOk, Sum, Sleepers, Holders, AllWillSucceed;
    var s1 := s.(nIdle := s.nIdle - 1, threads := s.threads[t := Outside]);
    Moved(s.threads, t, Outside);
    MovedVerdict(c, s.threads, t, Outside);
    TestQueueKeeps(c, s1, t);
    SameThreads(c, s.(nIdle := s.nIdle - 1), t);
  }

  lemma WorkKeeps(c: Config, s: State, t: Tid)
    requires Inv(c, s) && Enabled(s, Work(t))
    ensures Inv(c, Apply(c, s, Work(t)))
  {
    hide AllOk, Sum, Sleepers, Holders, AllWillSucceed;
    var b := s.threads[t];
    var pc := Finished(|b.batch|, Execute(c, b.batch, b.ok));
    Moved(s.threads, t, pc);
    SameVerdict(c, s.threads, t, pc);
  }

  /** Moving a thread without changing its prospects. */
  lemma SameVerdict(c: Config, threads: map<Tid, Pc>, t: Tid, pc: Pc)
    requires t in threads && WillSucceed(c, threads[t]) == WillSucceed(c, pc)
    ensures AllWillSucceed(c, threads[t := pc]) <==> AllWillSucceed(c, threads)
  {
    if AllWillSucceed(c, threads[t := pc]) {
      forall u | u in threads ensures WillSucceed(c, threads[u]) {
        assert u in threads[t := pc] && WillSucceed(c, threads[t := pc][u]);
      }
    }
  }

  lemma FinishKeeps(c: Config, s: State, t: Tid)
    requires Inv(c, s) && Enabled(s, Finish(t))
    ensures Inv(c, Apply(c, s, Finish(t)))
  {
    hide AllOk, Sum, Sleepers, Holders, AllWillSucceed, TestQueue;
    var pc := s.threads[t];
    var s1 := s.(allOk := s.allOk && pc.ok, nTodo := s.nTodo - pc.n);
    var s2 := Report(s, t, pc.n, pc.ok);
    ReportKeeps(c, s, t);
    TestQueueKeeps(c, s2.(threads := s2.threads[t := Outside]), t);
    SameThreads(c, s2, t);
  }

  lemma ReportKeeps(c: Config, s: State, t: Tid)
    requires Inv(c, s) && Enabled(s, Finish(t))
    ensures var s2 := Report(s, t, s.threads[t].n, s.threads[t].ok);
            Consistent(c, s2.(threads := s2.threads[t := Outside]), 1)
  {
    hide AllOk, Sum, Sleepers, Holders, AllWillSucceed;
    var pc := s.threads[t];
    var s1 := s.(allOk := s.allOk && pc.ok, nTodo := s.nTodo - pc.n, threads := s.threads[t := Outside]);
    Moved(s.threads, t, Outside);
    FinishedVerdict(c, s.threads, t);
    SumWithout(s.threads, Weight, t);
    if s1.nTodo == 0 && t != MASTER && s.threads[MASTER].Waiting? {
      Moved(s1.threads, MASTER, Woken);
      MovedVerdict(c, s1.threads, MASTER, Woken);
      assert s.threads[MASTER := Woken][t := Outside] == s1.threads[MASTER := Woken];
    }
  }

  lemma FinishedVerdict(c: Config, threads: map<Tid, Pc>, t: Tid)
    requires t in threads && threads[t].Finished?
    ensures AllWillSucceed(c, threads) <==> threads[t].ok && AllWillSucceed(c, threads[t := Outside])
  {
    if threads[t].ok && AllWillSucceed(c, threads[t := Outside]) {
      forall u | u in threads ensures WillSucceed(c, threads[u]) {
        assert u in threads[t := Outside] && WillSucceed(c, threads[t := Outside][u]);
      }
    }
  }

  lemma AddKeeps(c: Config, s: State, checks: seq<Check>, woken: Tid)
    requires Inv(c, s) && Enabled(s, Add(checks, woken))
    ensures Inv(c, Apply(c, s, Add(checks, woken)))
  {
    hide AllOk, Sum, Sleepers, Holders, AllWillSucceed;
    var s1 := s.(queue := s.queue + checks, nTodo := s.nTodo + |checks|, added := s.added + checks);
    BothOk(c, s.queue, checks);
    BothOk(c, s.added, checks);
    assert Inv(c, s1);
    if |checks| == 1 && woken != MASTER {
      if woken in s.threads && s.threads[woken].Waiting? {
        WakeKeeps(c, s1, woken);
      }
    } else if |checks| > 1 {
      AllNotifiedKeeps(c, s1);
    }
  }

  lemma BothOk(c: Config, xs: seq<Check>, ys: seq<Check>)
    ensures AllOk(c, xs + ys) <==> AllOk(c, xs) && AllOk(c, ys)
  {
  }

  /** Waking a thread changes nothing that is counted. */
  lemma WakeKeeps(c: Config, s: State, t: Tid)
    requires Inv(c, s) && t in s.threads && s.threads[t].Waiting?
    ensures Inv(c, s.(threads := s.threads[t := Woken]))
  {
    hide AllOk, Sum, Sleepers, Holders, AllWillSucceed;
    Moved(s.threads, t, Woken);
    MovedVerdict(c, s.threads, t, Woken);
  }

  lemma AllNotifiedKeeps(c: Config, s: State)
    requires Inv(c, s)
    ensures Inv(c, AllNotified(s))
  {
    hide AllOk, Sum, Sleepers, Holders, AllWillSucceed;
    AllNotifiedCounts(s);
    AllNotifiedVerdict(c, s);
  }

  lemma AllNotifiedCounts(s: State)
    ensures var threads := AllNotified(s).threads;
            && Sleepers(threads) == Sleepers(s.threads) && Holders(threads) == Holders(s.threads)
            && Sum(threads, Weight) == Sum(s.threads, Weight)
  {
    SameSum(s.threads, AllNotified(s).threads, Weight);
  }

  lemma AllNotifiedVerdict(c: Config, s: State)
    ensures AllWillSucceed(c, AllNotified(s).threads) <==> AllWillSucceed(c, s.threads)
  {
    var threads := AllNotified(s).threads;
    if AllWillSucceed(c, threads) {
      forall t | t in s.threads ensures WillSucceed(c, s.threads[t]) {
        assert WillSucceed(c, threads[t]);
      }
    }
  }

  lemma StartKeeps(c: Config, s: State, t: Tid)
    requires Inv(c, s) && (t in s.threads ==> s.threads[t].Outside?)
    ensures Inv(c, s.(threads := s.threads[t := Entering]))
  {
    hide AllOk, Sum, Sleepers, Holders, AllWillSucceed;
    Moved(s.threads, t, Entering);
    MovedVerdict(c, s.threads, t, Entering);
  }

  /** Every step of every thread keeps the invariant. */
  lemma StepKeeps(c: Config, s: State, step: Step)
    requires Inv(c, s) && Enabled(s, step)
    ensures Inv(c, Apply(c, s, step))
  {
    match step
    case Enter(t) => EnterKeeps(c, s, t);
    case Resume(t) => ResumeKeeps(c, s, t);
    case Work(t) => WorkKeeps(c, s, t);
    case Finish(t) => FinishKeeps(c, s, t);
    case Add(checks, woken) => AddKeeps(c, s, checks, woken);
    case CallWait => StartKeeps(c, s, MASTER);
    case Spawn(t) => StartKeeps(c, s, t);
    case Spurious(t) => WakeKeeps(c, s, t);
  }

  // ----- whole runs

  ghost predicate CanRun(c: Config, s: State, steps: seq<Step>)
    decreases |steps|
  {
    steps == [] || (Enabled(s, steps[0]) && CanRun(c, Apply(c, s, steps[0]), steps[1..]))
  }

  ghost function Run(c: Config, s: State, steps: seq<Step>): State
    requires CanRun(c, s, steps)
    decreases |steps|
  {
    if steps == [] then s else Run(c, Apply(c, s, steps[0]), steps[1..])
  }

  /** The invariant holds in every state of every interleaving. */
  lemma {:induction false} RunKeeps(c: Config, s: State, steps: seq<Step>)
    requires Inv(c, s) && CanRun(c, s, steps)
    ensures Inv(c, Run(c, s, steps))
    decreases |steps|
  {
    if steps != [] {
      StepKeeps(c, s, steps[0]);
      RunKeeps(c, Apply(c, s, steps[0]), steps[1..]);
    }
  }

  lemma ReachableInv(c: Config, steps: seq<Step>)
    requires CanRun(c, Initial, steps)
    ensures Inv(c, Run(c, Initial, steps))
  {
    InitialInv(c);
    RunKeeps(c, Initial, steps);
  }

  /** A step in which the master leaves the loop, that is, `Wait` returns. */
  ghost predicate WaitReturns(c: Config, s: State, step: Step) {
    && Enabled(s, step) && (step == Enter(MASTER) || step == Resume(MASTER) || step == Finish(MASTER))
    && Apply(c, s, step).threads[MASTER].Outside?
  }

  /** The status that the returning master reads. */
  function Returned(s: State, step: Step): bool
    requires Enabled(s, step)
  {
    if step.Finish? then s.allOk && s.threads[step.t].ok else s.allOk
  }

  predicate IsIdle(s: State) {
    s.nTotal == s.nIdle && s.nTodo == 0 && s.allOk
  }

  /** `Wait` returns true exactly if all checks added since the last `Wait` are true, and leaves the queue idle. */
  lemma WaitVerdict(c: Config, s: State, step: Step)
    requires Inv(c, s) && WaitReturns(c, s, step)
    ensures Returned(s, step) <==> AllOk(c, s.added)
    ensures IsIdle(Apply(c, s, step)) && Apply(c, s, step).added == []
  {
    StepKeeps(c, s, step);
    IdleAfterWait(c, Apply(c, s, step));
    if step.Finish? {
      ReportKeeps(c, s, MASTER);
      var s2 := Report(s, MASTER, s.threads[MASTER].n, s.threads[MASTER].ok);
      NothingLeft(c, s2.(threads := s2.threads[MASTER := Outside]), 1);
    } else {
      NothingLeft(c, s, 0);
    }
  }

  /** While the master is outside, the queue is idle exactly if everything added has been done and was true. */
  lemma IdleIff(c: Config, s: State)
    requires Inv(c, s)
    ensures IsIdle(s) <==> s.nTodo == 0 && AllOk(c, s.added)
  {
    if s.nTodo == 0 {
      NothingLeft(c, s, 0);
    }
  }

  /** A controller created after `Wait`, before anything else is added, finds the queue idle. */
  lemma IdleAfterWait(c: Config, s: State)
    requires Inv(c, s) && s.added == []
    ensures IsIdle(s)
  {
    IdleIff(c, s);
  }

  /** No lost wake-up: a master that sleeps can count on a worker that holds a batch. */
  lemma NoLostWakeup(c: Config, s: State)
    requires Inv(c, s) && s.threads[MASTER].Waiting?
    ensures s.nTodo > 0
    ensures exists t :: t in s.threads && t != MASTER && HasBatch(s.threads[t])
  {
    SumPositive(s.threads, Weight);
    var t :| t in s.threads && Weight(s.threads[t]) > 0;
    assert t != MASTER && HasBatch(s.threads[t]);
  }

  /** A worker that is about to look at the queue again. */
  predicate Up(t: Tid, pc: Pc) {
    t != MASTER && !pc.Waiting? && !pc.Outside?
  }

  /** As long as there is work in the queue the workers do not all sleep. */
  ghost predicate Helped(s: State) {
    s.queue != [] && (exists t :: t in s.threads && t != MASTER && s.threads[t].Waiting?) ==>
      exists t :: t in s.threads && Up(t, s.threads[t])
  }

  lemma TestQueueHelped(c: Config, s: State, t: Tid)
    requires t in s.threads && (t == MASTER ==> Helped(s))
    ensures Helped(TestQueue(c, s, t))
  {
    var w := TestQueue(c, s, t);
    if w.queue != [] {
      if t != MASTER {
        assert Up(t, w.threads[t]);
      } else if exists x :: x in w.threads && x != MASTER && w.threads[x].Waiting? {
        var x :| x in w.threads && x != MASTER && w.threads[x].Waiting?;
        assert s.threads[x].Waiting?;
        var u :| u in s.threads && Up(u, s.threads[u]);
        assert Up(u, w.threads[u]);
      }
    }
  }

  lemma HelpedStep(c: Config, s: State, step: Step)
    requires Helped(s) && Enabled(s, step)
    ensures Helped(Apply(c, s, step))
  {
    hide TestQueue;
    var w := Apply(c, s, step);
    match step
    case Enter(t) => TestQueueHelped(c, s.(nTotal := s.nTotal + 1), t);
    case Resume(t) => TestQueueHelped(c, s.(nIdle := s.nIdle - 1), t);
    case Finish(t) =>
      ReportHelped(s, t, s.threads[t].n, s.threads[t].ok);
      TestQueueHelped(c, Report(s, t, s.threads[t].n, s.threads[t].ok), t);
    case Add(checks, woken) => AddHelped(c, s, checks, woken);
    case _ =>
      if w.queue != [] && exists x :: x in w.threads && x != MASTER && w.threads[x].Waiting? {
        var x :| x in w.threads && x != MASTER && w.threads[x].Waiting?;
        assert s.threads[x].Waiting?;
        var u :| u in s.threads && Up(u, s.threads[u]);
        assert Up(u, w.threads[u]);
      }
  }

  lemma ReportHelped(s: State, t: Tid, n: nat, ok: bool)
    requires Helped(s)
    ensures Helped(Report(s, t, n, ok)) && s.threads.Keys == Report(s, t, n, ok).threads.Keys
  {
    var w := Report(s, t, n, ok);
    forall x | x in s.threads && x != MASTER ensures w.threads[x] == s.threads[x] {
    }
    if exists u :: u in s.threads && Up(u, s.threads[u]) {
      var u :| u in s.threads && Up(u, s.threads[u]);
      assert Up(u, w.threads[u]);
    }
  }

  /** Adding checks wakes a worker if one sleeps, and all of them if there is more than one check. */
  lemma AddHelped(c: Config, s: State, checks: seq<Check>, woken: Tid)
    requires Helped(s) && Enabled(s, Add(checks, woken))
    ensures var w := Apply(c, s, Add(checks, woken));
            && Helped(w)
            && (|checks| > 1 ==> forall t | t in w.threads && t != MASTER :: !w.threads[t].Waiting?)
  {
    var w := Apply(c, s, Add(checks, woken));
    if exists x :: x in w.threads && x != MASTER && w.threads[x].Waiting? {
      var x :| x in w.threads && x != MASTER && w.threads[x].Waiting?;
      assert s.threads[x].Waiting?;
      if |checks| == 1 {
        assert Up(woken, w.threads[woken]);
      } else if s.queue != [] {
        var u :| u in s.threads && Up(u, s.threads[u]);
        assert Up(u, w.threads[u]);
      }
    }
  }

  /** In every state of every interleaving. */
  lemma {:induction false} RunHelped(c: Config, s: State, steps: seq<Step>)
    requires Helped(s) && CanRun(c, s, steps)
    ensures Helped(Run(c, s, steps))
    decreases |steps|
  {
    hide Helped, Apply, Enabled;
    if steps != [] {
      HelpedStep(c, s, steps[0]);
      RunHelped(c, Apply(c, s, steps[0]), steps[1..]);
    }
  }

  // ----- Wait returns

  predicate Real(step: Step) {
    step.Enter? || step.Resume? || step.Work? || step.Finish?
  }

  /** While `Wait` has not returned, some thread can go on without anyone's help. */
  lemma Progress(c: Config, s: State)
    requires Inv(c, s) && !s.threads[MASTER].Outside?
    ensures exists step :: Real(step) && Enabled(s, step)
  {
    var t := MASTER;
    if s.threads[MASTER].Waiting? {
      NoLostWakeup(c, s);
      t :| t in s.threads && t != MASTER && HasBatch(s.threads[t]);
    }
    var step := match s.threads[t]
      case Entering => Enter(t)
      case Woken => Resume(t)
      case Holding(_, _) => Work(t)
      case _ => Finish(t);
    assert Real(step) && Enabled(s, step);
  }

  /** An upper bound for what a thread still has to do with what it has. */
  function Effort(pc: Pc): nat {
    match pc
    case Outside => 0
    case Waiting => 0
    case Entering => 1
    case Woken => 1
    case Finished(_, _) => 2
    case Holding(batch, _) => 3 * |batch|
  }

  ghost function Potential(s: State): nat {
    4 * |s.queue| + Sum(s.threads, Effort)
  }

  lemma TestQueueEffort(c: Config, s: State, t: Tid)
    requires t in s.threads && Effort(s.threads[t]) > 0
    ensures Potential(TestQueue(c, s, t)) <= Potential(s) - Effort(s.threads[t])
  {
    hide Sum;
    SumMoved(s.threads, Effort, t, Outside);
    SumMoved(s.threads, Effort, t, Waiting);
    if s.queue != [] {
      SumMoved(s.threads, Effort, t, Holding(Popped(s.queue, BatchSize(c, s)), s.allOk));
    }
  }

  lemma PotentialDrops(c: Config, s: State, step: Step)
    requires Inv(c, s) && Enabled(s, step) && Real(step)
    ensures Potential(Apply(c, s, step)) < Potential(s)
  {
    hide Sum, AllOk, Sleepers, Holders, AllWillSucceed;
    match step
    case Enter(t) => TestQueueEffort(c, s.(nTotal := s.nTotal + 1), t);
    case Resume(t) => TestQueueEffort(c, s.(nIdle := s.nIdle - 1), t);
    case Work(t) =>
      SumMoved(s.threads, Effort, t, Finished(|s.threads[t].batch|, Execute(c, s.threads[t].batch, s.threads[t].ok)));
    case Finish(t) =>
      var s2 := Report(s, t, s.threads[t].n, s.threads[t].ok);
      SumMoved(s.threads, Effort, MASTER, Woken);
      TestQueueEffort(c, s2, t);
  }

  /** However the threads are scheduled, they stop after a bounded number of steps unless disturbed. */
  lemma {:induction false} RunBounded(c: Config, s: State, steps: seq<Step>)
    requires Inv(c, s) && CanRun(c, s, steps) && forall step | step in steps :: Real(step)
    ensures |steps| <= Potential(s)
    decreases |steps|
  {
    if steps != [] {
      PotentialDrops(c, s, steps[0]);
      StepKeeps(c, s, steps[0]);
      RunBounded(c, Apply(c, s, steps[0]), steps[1..]);
    }
  }

  /** When the threads have stopped, `Wait` has returned. */
  lemma StoppedMeansReturned(c: Config, s: State, steps: seq<Step>)
    requires Inv(c, s) && CanRun(c, s, steps)
    requires forall step | Real(step) :: !Enabled(Run(c, s, steps), step)
    ensures MASTER in Run(c, s, steps).threads && Run(c, s, steps).threads[MASTER].Outside?
  {
    RunKeeps(c, s, steps);
    if !Run(c, s, steps).threads[MASTER].Outside? {
      Progress(c, Run(c, s, steps));
    }
  }
}
