/**
  The master/worker protocol of the script check queue (src/checkqueue.h).

  Every critical section of `Loop` and `Add` is one atomic step of a state machine
  over any number of threads.  A check is a value that carries the verdict its call
  operator would give, so that runs can be compared with what was added.
 */
module CheckQueue {

  datatype Check = Check(id: nat, ok: bool)

  /** Where a thread stands. */
  datatype Pc =
    | Outside                                             // not inside Loop
    | Entering(nNow: nat, fOk: bool)                      // about to lock the mutex at the top of Loop
    | Waiting                                             // blocked on its condition variable
    | Woken                                               // notified, about to lock the mutex again
    | Working(nNow: nat, todo: seq<Check>, fOk: bool)     // running its batch without the mutex

  /** One finished call of Wait: what was added, what was really run, what was returned. */
  datatype Round = Round(added: seq<Check>, ran: multiset<Check>, result: bool)

  datatype State = State(
    queue: seq<Check>,
    nIdle: int,
    nTotal: int,
    fAllOk: bool,
    nTodo: int,
    nBatchSize: nat,
    threads: map<nat, Pc>,
    added: seq<Check>,          // added since the last Wait returned
    ran: multiset<Check>,       // called since the last Wait returned
    rounds: seq<Round>)         // all finished calls of Wait

  /** The thread that holds the control mutex; all others are workers. */
  const MASTER: nat := 0

  ghost predicate Init(s: State) {
    s == State([], 0, 0, true, 0, s.nBatchSize, map[MASTER := Outside], [], multiset{}, [])
  }

  // ----- Steps -----

  datatype Step =
    | Spawn(t: nat)                                // a worker thread calls Loop
    | AddChecks(checks: seq<Check>, wake: nat)     // the master calls Add; `wake` is notify_one's choice
    | CallWait                                     // the master calls Wait
    | Critical(t: nat)                             // a thread takes the mutex and runs to the next release
    | RunOne(t: nat)                               // a thread handles the next check of its batch
    | FinishBatch(t: nat)                          // a thread has handled its whole batch
    | Spurious(t: nat)                             // a wait returns without a notification

  predicate Enabled(s: State, step: Step) {
    match step
    case Spawn(t) => t !in s.threads
    case AddChecks(checks, wake) =>
      && MASTER in s.threads && s.threads[MASTER].Outside?
      && (|checks| == 1 && (exists w :: w in s.threads && IsSleeper(s, w)) ==> IsSleeper(s, wake))
    case CallWait => MASTER in s.threads && s.threads[MASTER].Outside?
    case Critical(t) => t in s.threads && (s.threads[t].Entering? || s.threads[t].Woken?)
    case RunOne(t) => t in s.threads && s.threads[t].Working? && s.threads[t].todo != []
    case FinishBatch(t) => t in s.threads && s.threads[t].Working? && s.threads[t].todo == []
    case Spurious(t) => t in s.threads && s.threads[t].Waiting?
  }

  /** Outside of `Wait` the master can add any checks at any time. */
  lemma AddIsPossible(s: State, checks: seq<Check>)
    requires MASTER in s.threads && s.threads[MASTER].Outside?
    ensures exists wake :: Enabled(s, AddChecks(checks, wake))
  {
    var wake := if exists w :: w in s.threads && IsSleeper(s, w) then
                  var w :| w in s.threads && IsSleeper(s, w); w
                else MASTER;
    assert Enabled(s, AddChecks(checks, wake));
  }

  /** A worker blocked on `condWorker`. */
  predicate IsSleeper(s: State, w: nat) {
    w in s.threads && w != MASTER && s.threads[w].Waiting?
  }

  function Next(s: State, step: Step): State
    requires Enabled(s, step)
  {
    match step
    case Spawn(t) => Goto(s, t, Entering(0, true))
    case AddChecks(checks, wake) => DoAdd(s, checks, wake)
    case CallWait => Goto(s, MASTER, Entering(0, true))
    case Critical(t) => Dispatch(CleanUp(s, t), t)
    case RunOne(t) => DoRunOne(s, t)
    case FinishBatch(t) => Goto(s, t, Entering(s.threads[t].nNow, s.threads[t].fOk))
    case Spurious(t) => Goto(s, t, Woken)
  }

  function Goto(s: State, t: nat, pc: Pc): State {
    s.(threads := s.threads[t := pc])
  }

  /** `Add`: push the checks, then notify one or all workers. */
  function DoAdd(s: State, checks: seq<Check>, wake: nat): State {
    var s1 := s.(queue := s.queue + checks, nTodo := s.nTodo + |checks|, added := s.added + checks);
    if |checks| == 1 then
      if IsSleeper(s, wake) then Goto(s1, wake, Woken) else s1
    else if |checks| > 1 then
      s1.(threads := map t | t in s.threads :: if IsSleeper(s, t) then Woken else s.threads[t])
    else
      s1
  }

  /** `condMaster.notify_one()`; only the master ever waits there. */
  function NotifyMaster(s: State): State {
    if MASTER in s.threads && s.threads[MASTER].Waiting? then Goto(s, MASTER, Woken) else s
  }

  /** Lines 82-92 after locking, or the decrement after a wait returns (line 106). */
  function CleanUp(s: State, t: nat): State
    requires Enabled(s, Critical(t))
  {
    var s1 := Report(s, t);
    if s.threads[t].Entering? && s.threads[t].nNow != 0 && s1.nTodo == 0 && t != MASTER then
      NotifyMaster(s1)
    else
      s1
  }

  /** The counters that CleanUp changes. */
  function Report(s: State, t: nat): State
    requires Enabled(s, Critical(t))
  {
    match s.threads[t]
    case Woken => s.(nIdle := s.nIdle - 1)
    case Entering(nNow, fOk) =>
      if nNow == 0 then s.(nTotal := s.nTotal + 1)
      else s.(fAllOk := s.fAllOk && fOk, nTodo := s.nTodo - nNow)
  }

  /** The only way out of Loop while nobody sets fQuit. */
  predicate Returns(s: State, t: nat) {
    s.queue == [] && t == MASTER && s.nTodo == 0
  }

  /** Lines 94-122: return, wait, or take a batch. */
  function Dispatch(s: State, t: nat): State {
    if s.queue == [] then
      if Returns(s, t) then
        Goto(s, t, Outside).(
        nTotal := s.nTotal - 1,
        fAllOk := true,
        added := [],
        ran := multiset{},
        rounds := s.rounds + [Round(s.added, s.ran, s.fAllOk)])
      else
        Goto(s, t, Waiting).(nIdle := s.nIdle + 1)
    else
      var n := BatchSize(|s.queue|, s.nBatchSize, s.nTotal, s.nIdle);
      var keep := if n <= |s.queue| then |s.queue| - n else 0;
      Goto(s, t, Working(n, Reversed(s.queue[keep..]), s.fAllOk)).(queue := s.queue[..keep])
  }

  /** Line 113. */
  function BatchSize(length: nat, nBatchSize: nat, nTotal: int, nIdle: int): (n: nat)
    ensures 1 <= n
    ensures nTotal >= 1 && nIdle >= 0 && length >= 1 ==> n <= length
    ensures n <= nBatchSize || n == 1
  {
    var share := if nTotal + nIdle + 1 > 0 then length / (nTotal + nIdle + 1) else length;
    var capped := if nBatchSize < share then nBatchSize else share;
    if capped > 1 then capped else 1
  }

  /** Checks leave the queue from its back, one by one. */
  function Reversed(checks: seq<Check>): (r: seq<Check>)
    ensures |r| == |checks|
    ensures multiset(r) == multiset(checks)
  {
    if checks == [] then []
    else
      assert checks == checks[..|checks| - 1] + [checks[|checks| - 1]];
      [checks[|checks| - 1]] + Reversed(checks[..|checks| - 1])
  }

  /** Lines 125-127 for one check: it is called only while no failure is known. */
  function DoRunOne(s: State, t: nat): State
    requires Enabled(s, RunOne(t))
  {
    var pc := s.threads[t];
    var check := pc.todo[0];
    if pc.fOk then
      Goto(s, t, Working(pc.nNow, pc.todo[1..], check.ok)).(ran := s.ran + multiset{check})
    else
      Goto(s, t, Working(pc.nNow, pc.todo[1..], false))
  }

  // ----- Sums over all threads -----

  ghost function Sum(threads: map<nat, Pc>, f: Pc -> nat): nat {
    if threads == map[] then 0
    else
      var t :| t in threads;
      f(threads[t]) + Sum(threads - {t}, f)
  }

  lemma {:induction false} SumRemove(threads: map<nat, Pc>, f: Pc -> nat, t: nat)
    requires t in threads
    ensures Sum(threads, f) == f(threads[t]) + Sum(threads - {t}, f)
    decreases |threads|
  {
    var u :| u in threads && Sum(threads, f) == f(threads[u]) + Sum(threads - {u}, f);
    if u != t {
      SumRemove(threads - {u}, f, t);
      SumRemove(threads - {t}, f, u);
      assert threads - {u} - {t} == threads - {t} - {u};
    }
  }

  lemma SumUpdate(threads: map<nat, Pc>, f: Pc -> nat, t: nat, pc: Pc)
    ensures Sum(threads[t := pc], f) ==
            Sum(threads, f) - (if t in threads then f(threads[t]) else 0) + f(pc)
  {
    SumRemove(threads[t := pc], f, t);
    assert threads[t := pc] - {t} == threads - {t};
    if t in threads {
      SumRemove(threads, f, t);
    } else {
      assert threads - {t} == threads;
    }
  }

  lemma {:induction false} SumSame(a: map<nat, Pc>, b: map<nat, Pc>, f: Pc -> nat)
    requires a.Keys == b.Keys
    requires forall t :: t in a ==> f(a[t]) == f(b[t])
    ensures Sum(a, f) == Sum(b, f)
    decreases |a|
  {
    if a != map[] {
      var t :| t in a;
      SumRemove(a, f, t);
      SumRemove(b, f, t);
      SumSame(a - {t}, b - {t}, f);
    } else {
      assert b == map[];
    }
  }

  lemma {:induction false} SumZero(threads: map<nat, Pc>, f: Pc -> nat)
    ensures Sum(threads, f) == 0 <==> forall t :: t in threads ==> f(threads[t]) == 0
    decreases |threads|
  {
    if threads != map[] {
      var t :| t in threads;
      SumRemove(threads, f, t);
      SumZero(threads - {t}, f);
      assert forall u :: u in threads ==> u == t || u in threads - {t};
    }
  }

  /** All checks that some thread holds in its batch and has not handled yet. */
  ghost function InBatches(threads: map<nat, Pc>): multiset<Check> {
    if threads == map[] then multiset{}
    else
      var t :| t in threads;
      Held(threads[t]) + InBatches(threads - {t})
  }

  ghost function Held(pc: Pc): multiset<Check> {
    if pc.Working? then multiset(pc.todo) else multiset{}
  }

  lemma {:induction false} InBatchesRemove(threads: map<nat, Pc>, t: nat)
    requires t in threads
    ensures InBatches(threads) == Held(threads[t]) + InBatches(threads - {t})
    decreases |threads|
  {
    var u :| u in threads && InBatches(threads) == Held(threads[u]) + InBatches(threads - {u});
    if u != t {
      var both := threads - {t} - {u};
      assert threads - {u} - {t} == both;
      InBatchesRemove(threads - {u}, t);
      InBatchesRemove(threads - {t}, u);
      SumsCommute(Held(threads[u]), Held(threads[t]), InBatches(both));
    }
  }

  lemma SumsCommute(a: multiset<Check>, b: multiset<Check>, c: multiset<Check>)
    ensures a + (b + c) == b + (a + c)
  {
  }

  lemma {:induction false} InBatchesSame(a: map<nat, Pc>, b: map<nat, Pc>)
    requires a.Keys == b.Keys
    requires forall t :: t in a ==> Held(a[t]) == Held(b[t])
    ensures InBatches(a) == InBatches(b)
    decreases |a|
  {
    if a == map[] {
      assert b == map[];
    } else {
      var t :| t in a;
      InBatchesSame(a - {t}, b - {t});
      InBatchesExtend(a, b, t);
    }
  }

  lemma InBatchesExtend(a: map<nat, Pc>, b: map<nat, Pc>, t: nat)
    requires t in a && t in b && Held(a[t]) == Held(b[t])
    requires InBatches(a - {t}) == InBatches(b - {t})
    ensures InBatches(a) == InBatches(b)
  {
    InBatchesRemove(a, t);
    InBatchesRemove(b, t);
  }

  // ----- The invariant -----

  /** The checks a thread has taken and not yet reported. */
  ghost function InFlight(pc: Pc): nat {
    match pc
    case Entering(nNow, _) => nNow
    case Working(nNow, _, _) => nNow
    case _ => 0
  }

  ghost function Idle(pc: Pc): nat {
    if pc.Waiting? || pc.Woken? then 1 else 0
  }

  /** The thread is counted in nTotal. */
  ghost function Inside(pc: Pc): nat {
    if pc.Outside? || (pc.Entering? && pc.nNow == 0) then 0 else 1
  }

  ghost predicate PcWellFormed(pc: Pc) {
    && (pc.Working? ==> pc.nNow >= 1)
    && (pc.Entering? && pc.nNow == 0 ==> pc.fOk)
  }

  /**
    The counters mean what their comments say (src/checkqueue.h:49-63), where
    `threads` are the threads that do not hold the mutex and `inside` counts the one
    that does.
   */
  ghost predicate CountersExact(s: State, threads: map<nat, Pc>, inside: nat) {
    && s.nTodo == |s.queue| + Sum(threads, InFlight)
    && s.nIdle == Sum(threads, Idle)
    && s.nTotal == Sum(threads, Inside) + inside
    && AllWellFormed(threads)
  }

  ghost predicate AllWellFormed(threads: map<nat, Pc>) {
    forall t :: t in threads ==> PcWellFormed(threads[t])
  }

  ghost predicate AllOk(checks: seq<Check>) {
    forall c :: c in checks ==> c.ok
  }

  ghost predicate SawNoFailure(pc: Pc) {
    (pc.Entering? || pc.Working?) ==> pc.fOk
  }

  /** No failure has been seen so far in this round. */
  ghost predicate Clean(fAllOk: bool, threads: map<nat, Pc>) {
    fAllOk && forall t :: t in threads ==> SawNoFailure(threads[t])
  }

  /**
    Every check added in this round is queued, held or was called; nothing is called
    twice; checks are dropped uncalled only after a check that was called has failed.
   */
  ghost predicate ChecksConserved(s: State, threads: map<nat, Pc>) {
    Conserved(multiset(s.added), s.ran, multiset(s.queue), InBatches(threads), Clean(s.fAllOk, threads))
  }

  ghost predicate Conserved(added: multiset<Check>, ran: multiset<Check>, queued: multiset<Check>,
                            held: multiset<Check>, clean: bool) {
    && ran + queued + held <= added
    && (clean ==> ran + queued + held == added && forall c :: c in ran ==> c.ok)
    && (!clean ==> exists c :: c in ran && !c.ok)
  }

  /** No sleeper is forgotten while there is something it would have to do. */
  ghost predicate NoLostWakeUp(s: State) {
    && MASTER in s.threads
    && (s.threads[MASTER].Waiting? ==> s.queue == [] && s.nTodo > 0)
    && (s.queue != [] && (exists w :: IsSleeper(s, w)) ==> exists w :: IsActiveWorker(s, w))
  }

  ghost predicate IsActiveWorker(s: State, w: nat) {
    w in s.threads && w != MASTER && !s.threads[w].Waiting? && !s.threads[w].Outside?
  }

  /**
    A finished call of Wait returned the conjunction of the checks added for it; a
    positive answer means that all of them were called, a negative one that a called
    check failed.
   */
  ghost predicate RoundCorrect(r: Round) {
    && r.result == AllOk(r.added)
    && r.ran <= multiset(r.added)
    && (r.result ==> r.ran == multiset(r.added))
    && (!r.result ==> exists c :: c in r.ran && !c.ok)
  }

  ghost predicate Exact(s: State) {
    CountersExact(s, s.threads, 0) && ChecksConserved(s, s.threads)
  }

  ghost predicate Inv(s: State) {
    && Exact(s)
    && NoLostWakeUp(s)
    && RoundsCorrect(s.rounds)
  }

  ghost predicate RoundsCorrect(rounds: seq<Round>) {
    forall r :: r in rounds ==> RoundCorrect(r)
  }

  /** The same with thread `t` between locking the mutex and releasing it again. */
  ghost predicate HeldInv(s: State, t: nat) {
    && t in s.threads
    && CountersExact(s, s.threads - {t}, 1)
    && ChecksConserved(s, s.threads - {t})
  }

  // ----- Every step keeps the invariant -----

  lemma InitInv(s: State)
    requires Init(s)
    ensures Inv(s)
  {
    SumZero(s.threads, InFlight);
    SumZero(s.threads, Idle);
    SumZero(s.threads, Inside);
    InBatchesRemove(s.threads, MASTER);
    assert s.threads - {MASTER} == map[];
  }

  /** Everything said about all threads splits into one thread and the others. */
  lemma SplitOff(threads: map<nat, Pc>, t: nat, fAllOk: bool)
    requires t in threads
    ensures Sum(threads, InFlight) == InFlight(threads[t]) + Sum(threads - {t}, InFlight)
    ensures Sum(threads, Idle) == Idle(threads[t]) + Sum(threads - {t}, Idle)
    ensures Sum(threads, Inside) == Inside(threads[t]) + Sum(threads - {t}, Inside)
    ensures InBatches(threads) == Held(threads[t]) + InBatches(threads - {t})
    ensures AllWellFormed(threads) <==> PcWellFormed(threads[t]) && AllWellFormed(threads - {t})
    ensures Clean(fAllOk, threads) <==> SawNoFailure(threads[t]) && Clean(fAllOk, threads - {t})
  {
    SumRemove(threads, InFlight, t);
    SumRemove(threads, Idle, t);
    SumRemove(threads, Inside, t);
    InBatchesRemove(threads, t);
    SplitOffForall(threads, t, fAllOk);
  }

  lemma SplitOffForall(threads: map<nat, Pc>, t: nat, fAllOk: bool)
    requires t in threads
    ensures AllWellFormed(threads) <==> PcWellFormed(threads[t]) && AllWellFormed(threads - {t})
    ensures Clean(fAllOk, threads) <==> SawNoFailure(threads[t]) && Clean(fAllOk, threads - {t})
  {
    assert forall u :: u in threads <==> u == t || u in threads - {t};
  }

  /** Waking sleepers changes none of it. */
  lemma WakingKeeps(a: map<nat, Pc>, b: map<nat, Pc>, fAllOk: bool)
    requires a.Keys == b.Keys
    requires forall t :: t in a ==> b[t] == a[t] || (a[t].Waiting? && b[t].Woken?)
    ensures Sum(a, InFlight) == Sum(b, InFlight)
    ensures Sum(a, Idle) == Sum(b, Idle)
    ensures Sum(a, Inside) == Sum(b, Inside)
    ensures InBatches(a) == InBatches(b)
    ensures AllWellFormed(a) <==> AllWellFormed(b)
    ensures Clean(fAllOk, a) <==> Clean(fAllOk, b)
  {
    SumSame(a, b, InFlight);
    SumSame(a, b, Idle);
    SumSame(a, b, Inside);
    InBatchesSame(a, b);
    WakingKeepsForall(a, b, fAllOk);
  }

  lemma WakingKeepsForall(a: map<nat, Pc>, b: map<nat, Pc>, fAllOk: bool)
    requires a.Keys == b.Keys
    requires forall t :: t in a ==> b[t] == a[t] || (a[t].Waiting? && b[t].Woken?)
    ensures AllWellFormed(a) <==> AllWellFormed(b)
    ensures Clean(fAllOk, a) <==> Clean(fAllOk, b)
  {
  }

  /** Taking the mutex: cleaning up leaves the rest of the state exact. */
  lemma CleanUpKeeps(s: State, t: nat)
    requires Exact(s) && Enabled(s, Critical(t))
    ensures HeldInv(CleanUp(s, t), t)
  {
    ReportKeeps(s, t);
    if t != MASTER {
      NotifyKeeps(Report(s, t), t);
    }
  }

  lemma NotifyKeeps(s: State, t: nat)
    requires HeldInv(s, t) && t != MASTER
    ensures HeldInv(NotifyMaster(s), t)
  {
    WakingKeeps(s.threads - {t}, NotifyMaster(s).threads - {t}, s.fAllOk);
  }

  lemma ReportKeeps(s: State, t: nat)
    requires Exact(s) && Enabled(s, Critical(t))
    ensures HeldInv(Report(s, t), t)
  {
    ReportCounts(s, t);
    ReportConserves(s, t);
  }

  lemma ReportCounts(s: State, t: nat)
    requires CountersExact(s, s.threads, 0) && Enabled(s, Critical(t))
    ensures CountersExact(Report(s, t), s.threads - {t}, 1)
  {
    SplitOff(s.threads, t, s.fAllOk);
  }

  lemma ReportConserves(s: State, t: nat)
    requires ChecksConserved(s, s.threads) && Enabled(s, Critical(t))
    requires PcWellFormed(s.threads[t])
    ensures ChecksConserved(Report(s, t), s.threads - {t})
  {
    SplitOff(s.threads, t, s.fAllOk);
    NothingHeld(InBatches(s.threads - {t}));
    assert Clean(Report(s, t).fAllOk, s.threads - {t}) <==> Clean(s.fAllOk, s.threads);
  }

  lemma NothingHeld(held: multiset<Check>)
    ensures multiset{} + held == held
  {
  }

  /** Releasing the mutex again: the master returns. */
  lemma ReturnKeeps(s: State)
    requires HeldInv(s, MASTER) && Returns(s, MASTER)
    ensures Exact(Dispatch(s, MASTER))
    ensures RoundCorrect(Round(s.added, s.ran, s.fAllOk))
  {
    var s' := Dispatch(s, MASTER);
    var others := s.threads - {MASTER};
    NothingLeft(s, others);
    assert s'.threads - {MASTER} == others;
    SplitOff(s'.threads, MASTER, s'.fAllOk);
    assert forall c :: c in s.added <==> c in multiset(s.added);
  }

  /** ... or the thread waits. */
  lemma WaitKeeps(s: State, t: nat)
    requires HeldInv(s, t) && s.queue == [] && !Returns(s, t)
    ensures Exact(Dispatch(s, t))
  {
    var s' := Dispatch(s, t);
    assert s'.threads - {t} == s.threads - {t};
    SplitOff(s'.threads, t, s'.fAllOk);
  }

  /** ... or it leaves with a batch of at least one check and at most the whole queue. */
  lemma TakeBatchKeeps(s: State, t: nat)
    requires HeldInv(s, t) && s.queue != []
    ensures var s' := Dispatch(s, t);
            && Exact(s')
            && s'.threads[t].Working?
            && 1 <= |s'.threads[t].todo| == s'.threads[t].nNow <= |s.queue|
  {
    var s' := Dispatch(s, t);
    TakeFromBack(s, t);
    assert s'.threads - {t} == s.threads - {t};
    TakenCounts(s, s', t);
    TakenConserves(s, s', t);
  }

  lemma TakenCounts(s: State, s': State, t: nat)
    requires CountersExact(s, s.threads - {t}, 1)
    requires t in s'.threads && s'.threads[t].Working? && s'.threads[t].nNow >= 1
    requires s'.threads - {t} == s.threads - {t}
    requires s'.nTodo == s.nTodo && s'.nIdle == s.nIdle && s'.nTotal == s.nTotal
    requires |s'.queue| + s'.threads[t].nNow == |s.queue|
    ensures CountersExact(s', s'.threads, 0)
  {
    SplitOff(s'.threads, t, true);
  }

  lemma TakenConserves(s: State, s': State, t: nat)
    requires ChecksConserved(s, s.threads - {t})
    requires t in s'.threads && s'.threads[t].Working? && s'.threads[t].fOk == s.fAllOk == s'.fAllOk
    requires s'.threads - {t} == s.threads - {t}
    requires s'.added == s.added && s'.ran == s.ran
    requires multiset(s.queue) == multiset(s'.queue) + Held(s'.threads[t])
    ensures ChecksConserved(s', s'.threads)
  {
    SplitOff(s'.threads, t, s.fAllOk);
    Regroup(s.ran, multiset(s'.queue), Held(s'.threads[t]), InBatches(s.threads - {t}));
    assert Clean(s'.fAllOk, s'.threads) <==> Clean(s.fAllOk, s.threads - {t});
  }

  /** The batch and the shortened queue together are the old queue. */
  lemma TakeFromBack(s: State, t: nat)
    requires s.queue != [] && s.nTotal >= 1 && s.nIdle >= 0
    ensures var s' := Dispatch(s, t);
            && s'.threads[t].Working?
            && 1 <= |s'.threads[t].todo| == s'.threads[t].nNow
            && |s'.queue| + s'.threads[t].nNow == |s.queue|
            && multiset(s.queue) == multiset(s'.queue) + Held(s'.threads[t])
  {
    var keep := |Dispatch(s, t).queue|;
    assert s.queue == s.queue[..keep] + s.queue[keep..];
  }

  lemma Regroup(ran: multiset<Check>, kept: multiset<Check>, taken: multiset<Check>, held: multiset<Check>)
    ensures ran + (kept + taken) + held == ran + kept + (taken + held)
  {
  }

  /** With nothing left to do no thread holds a check or an unreported failure. */
  lemma NothingLeft(s: State, threads: map<nat, Pc>)
    requires s.nTodo == |s.queue| + Sum(threads, InFlight)
    requires AllWellFormed(threads)
    requires s.nTodo == 0
    ensures s.queue == []
    ensures InBatches(threads) == multiset{}
    ensures forall ok :: Clean(ok, threads) <==> ok
  {
    SumZero(threads, InFlight);
    NobodyHolds(threads);
  }

  lemma {:induction false} NobodyHolds(threads: map<nat, Pc>)
    requires forall t :: t in threads ==> !threads[t].Working?
    ensures InBatches(threads) == multiset{}
    decreases |threads|
  {
    if threads != map[] {
      var t :| t in threads;
      InBatchesRemove(threads, t);
      NobodyHolds(threads - {t});
    }
  }

  lemma DispatchKeeps(s: State, t: nat)
    requires HeldInv(s, t)
    ensures Exact(Dispatch(s, t))
    ensures Returns(s, t) ==> RoundCorrect(Round(s.added, s.ran, s.fAllOk))
  {
    if s.queue != [] {
      TakeBatchKeeps(s, t);
    } else if Returns(s, t) {
      ReturnKeeps(s);
    } else {
      WaitKeeps(s, t);
    }
  }

  /** A move of one thread that no counter and no check can see. */
  ghost predicate Unseen(threads: map<nat, Pc>, t: nat, pc: Pc) {
    && PcWellFormed(pc)
    && Held(pc) == multiset{}
    && if t in threads then
         && InFlight(pc) == InFlight(threads[t]) && Idle(pc) == Idle(threads[t]) && Inside(pc) == Inside(threads[t])
         && Held(threads[t]) == multiset{} && SawNoFailure(pc) == SawNoFailure(threads[t])
       else
         InFlight(pc) == Idle(pc) == Inside(pc) == 0 && SawNoFailure(pc)
  }

  lemma UnseenKeeps(threads: map<nat, Pc>, t: nat, pc: Pc, fAllOk: bool)
    requires Unseen(threads, t, pc)
    ensures Sum(threads[t := pc], InFlight) == Sum(threads, InFlight)
    ensures Sum(threads[t := pc], Idle) == Sum(threads, Idle)
    ensures Sum(threads[t := pc], Inside) == Sum(threads, Inside)
    ensures InBatches(threads[t := pc]) == InBatches(threads)
    ensures AllWellFormed(threads) ==> AllWellFormed(threads[t := pc])
    ensures Clean(fAllOk, threads[t := pc]) <==> Clean(fAllOk, threads)
  {
    var after, rest := threads[t := pc], threads - {t};
    assert after - {t} == rest && after[t] == pc;
    SplitOff(after, t, fAllOk);
    if t in threads {
      UnseenChange(threads, after, rest, t, fAllOk);
    } else {
      assert rest == threads;
    }
  }

  /** Two sets of threads that differ in one thread which counts the same in both. */
  lemma UnseenChange(threads: map<nat, Pc>, after: map<nat, Pc>, rest: map<nat, Pc>, t: nat, fAllOk: bool)
    requires t in threads && t in after && rest == threads - {t} == after - {t} && Unseen(threads, t, after[t])
    ensures Sum(after, InFlight) == Sum(threads, InFlight)
    ensures Sum(after, Idle) == Sum(threads, Idle)
    ensures Sum(after, Inside) == Sum(threads, Inside)
    ensures InBatches(after) == InBatches(threads)
    ensures AllWellFormed(threads) ==> AllWellFormed(after)
    ensures Clean(fAllOk, after) <==> Clean(fAllOk, threads)
  {
    SplitOff(threads, t, fAllOk);
    SplitOff(after, t, fAllOk);
  }

  lemma GotoKeeps(s: State, t: nat, pc: Pc)
    requires Exact(s) && Unseen(s.threads, t, pc)
    ensures Exact(Goto(s, t, pc))
  {
    UnseenKeeps(s.threads, t, pc, s.fAllOk);
  }

  /** Handling one check of a batch: it is called, or dropped after a failure. */
  lemma RunOneKeeps(s: State, t: nat)
    requires Exact(s)
    requires Enabled(s, RunOne(t))
    ensures Exact(DoRunOne(s, t))
  {
    var s' := DoRunOne(s, t);
    assert s'.threads - {t} == s.threads - {t};
    RunOneCounts(s, s', t);
    RunOneConserves(s, t);
  }

  lemma RunOneCounts(s: State, s': State, t: nat)
    requires CountersExact(s, s.threads, 0) && t in s.threads && t in s'.threads
    requires s'.threads - {t} == s.threads - {t}
    requires s.threads[t].Working? && s'.threads[t].Working? && s.threads[t].nNow == s'.threads[t].nNow
    requires s'.queue == s.queue && s'.nTodo == s.nTodo && s'.nIdle == s.nIdle && s'.nTotal == s.nTotal
    ensures CountersExact(s', s'.threads, 0)
  {
    SplitOff(s.threads, t, true);
    SplitOff(s'.threads, t, true);
  }

  lemma RunOneConserves(s: State, t: nat)
    requires ChecksConserved(s, s.threads) && Enabled(s, RunOne(t))
    ensures ChecksConserved(DoRunOne(s, t), DoRunOne(s, t).threads)
  {
    var s' := DoRunOne(s, t);
    var pc := s.threads[t];
    assert s'.threads - {t} == s.threads - {t};
    SplitOff(s.threads, t, s.fAllOk);
    SplitOff(s'.threads, t, s.fAllOk);
    HandleOne(multiset(s.added), s.ran, multiset(s.queue), pc.todo, InBatches(s.threads - {t}),
              Clean(s.fAllOk, s.threads - {t}), pc.fOk);
  }

  lemma HandleOne(added: multiset<Check>, ran: multiset<Check>, queued: multiset<Check>, todo: seq<Check>,
                  held: multiset<Check>, clean: bool, fOk: bool)
    requires todo != []
    requires Conserved(added, ran, queued, multiset(todo) + held, fOk && clean)
    ensures fOk ==> Conserved(added, ran + multiset{todo[0]}, queued, multiset(todo[1..]) + held, todo[0].ok && clean)
    ensures !fOk ==> Conserved(added, ran, queued, multiset(todo[1..]) + held, false)
  {
    assert todo == [todo[0]] + todo[1..];
    assert multiset(todo) == multiset{todo[0]} + multiset(todo[1..]);
  }

  /** Adding checks. */
  lemma AddKeeps(s: State, checks: seq<Check>, wake: nat)
    requires Exact(s)
    requires Enabled(s, AddChecks(checks, wake))
    ensures Exact(DoAdd(s, checks, wake))
  {
    var s' := DoAdd(s, checks, wake);
    WakingKeeps(s.threads, s'.threads, s.fAllOk);
    EnqueueConserves(s.added, s.ran, s.queue, checks, InBatches(s.threads), Clean(s.fAllOk, s.threads));
  }

  lemma EnqueueConserves(added: seq<Check>, ran: multiset<Check>, queue: seq<Check>, checks: seq<Check>,
                         held: multiset<Check>, clean: bool)
    requires Conserved(multiset(added), ran, multiset(queue), held, clean)
    ensures Conserved(multiset(added + checks), ran, multiset(queue + checks), held, clean)
  {
  }

  /** One critical section, from lock to release. */
  lemma CriticalKeeps(s: State, t: nat)
    requires Exact(s) && Enabled(s, Critical(t))
    ensures Exact(Next(s, Critical(t)))
    ensures var s1 := CleanUp(s, t);
            Returns(s1, t) ==> RoundCorrect(Round(s1.added, s1.ran, s1.fAllOk))
  {
    CleanUpKeeps(s, t);
    DispatchKeeps(CleanUp(s, t), t);
  }

  /** Counters and checks after any step. */
  lemma StepKeepsExact(s: State, step: Step)
    requires Exact(s) && Enabled(s, step)
    ensures Exact(Next(s, step))
  {
    match step
    case Spawn(t) => GotoKeeps(s, t, Entering(0, true));
    case AddChecks(checks, wake) => AddKeeps(s, checks, wake);
    case CallWait => GotoKeeps(s, MASTER, Entering(0, true));
    case Critical(t) => CriticalKeeps(s, t);
    case RunOne(t) => RunOneKeeps(s, t);
    case FinishBatch(t) => FinishKeeps(s, t);
    case Spurious(t) => GotoKeeps(s, t, Woken);
  }

  lemma FinishKeeps(s: State, t: nat)
    requires Exact(s) && Enabled(s, FinishBatch(t))
    ensures Exact(Next(s, FinishBatch(t)))
  {
    GotoKeeps(s, t, Entering(s.threads[t].nNow, s.threads[t].fOk));
  }

  lemma CriticalKeepsRounds(s: State, t: nat)
    requires Exact(s) && Enabled(s, Critical(t))
    requires RoundsCorrect(s.rounds)
    ensures RoundsCorrect(Next(s, Critical(t)).rounds)
  {
    CriticalKeeps(s, t);
    SameRounds(s, t);
    DispatchRounds(CleanUp(s, t), t);
  }

  lemma SameRounds(s: State, t: nat)
    requires Enabled(s, Critical(t))
    ensures CleanUp(s, t).rounds == s.rounds && Next(s, Critical(t)) == Dispatch(CleanUp(s, t), t)
  {
  }

  lemma DispatchRounds(s: State, t: nat)
    requires RoundsCorrect(s.rounds)
    requires Returns(s, t) ==> RoundCorrect(Round(s.added, s.ran, s.fAllOk))
    ensures RoundsCorrect(Dispatch(s, t).rounds)
  {
  }

  /** No step loses a wake-up. */
  lemma StepKeepsWakeUps(s: State, step: Step)
    requires NoLostWakeUp(s) && Enabled(s, step)
    requires step.Critical? ==> CleanUp(s, step.t).nTodo >= 0
    ensures NoLostWakeUp(Next(s, step))
  {
    match step
    case AddChecks(checks, wake) => WorkersAfterAdd(s, checks, wake);
    case Critical(t) => WakeUpsAfterCritical(s, t);
    case _ =>
      var s' := Next(s, step);
      assert s'.queue == s.queue && s'.nTodo == s.nTodo;
      if w :| IsSleeper(s', w) {
        assert IsSleeper(s, w);
        if u :| IsActiveWorker(s, u) {
          assert IsActiveWorker(s', u);
        }
      }
  }

  lemma WorkersAfterAdd(s: State, checks: seq<Check>, wake: nat)
    requires NoLostWakeUp(s) && Enabled(s, AddChecks(checks, wake))
    ensures NoLostWakeUp(DoAdd(s, checks, wake))
  {
    var s' := DoAdd(s, checks, wake);
    if w :| IsSleeper(s', w) {
      assert IsSleeper(s, w);
      if |checks| == 1 {
        assert IsActiveWorker(s', wake);
      } else if u :| IsActiveWorker(s, u) {
        assert IsActiveWorker(s', u);
      }
    }
  }

  lemma WakeUpsAfterCritical(s: State, t: nat)
    requires NoLostWakeUp(s) && Enabled(s, Critical(t))
    requires CleanUp(s, t).nTodo >= 0
    ensures NoLostWakeUp(Next(s, Critical(t)))
  {
    WakeUpsAfterCleanUp(s, t);
    WakeUpsAfterDispatch(CleanUp(s, t), t);
  }

  lemma WakeUpsAfterCleanUp(s: State, t: nat)
    requires NoLostWakeUp(s) && Enabled(s, Critical(t))
    requires CleanUp(s, t).nTodo >= 0
    ensures NoLostWakeUp(CleanUp(s, t))
  {
    var s1 := CleanUp(s, t);
    assert forall w :: IsSleeper(s1, w) <==> IsSleeper(s, w);
    assert forall w :: IsActiveWorker(s1, w) <==> IsActiveWorker(s, w);
  }

  lemma WakeUpsAfterDispatch(s: State, t: nat)
    requires NoLostWakeUp(s) && s.nTodo >= 0 && t in s.threads
    ensures NoLostWakeUp(Dispatch(s, t))
  {
    var s' := Dispatch(s, t);
    if s'.queue != [] && t != MASTER {
      assert IsActiveWorker(s', t);
    } else if s'.queue != [] {
      assert forall w :: IsSleeper(s', w) ==> IsSleeper(s, w);
      if u :| IsActiveWorker(s, u) {
        assert IsActiveWorker(s', u);
      }
    }
  }

  /** Every step keeps the whole invariant. */
  lemma StepKeepsInv(s: State, step: Step)
    requires Inv(s) && Enabled(s, step)
    ensures Inv(Next(s, step))
  {
    if step.Critical? {
      CleanUpKeeps(s, step.t);
      CriticalKeepsRounds(s, step.t);
    }
    StepKeepsExact(s, step);
    StepKeepsWakeUps(s, step);
  }

  // ----- Whole runs -----

  ghost predicate IsRun(s: State, steps: seq<Step>)
    decreases |steps|
  {
    steps == [] || (Enabled(s, steps[0]) && IsRun(Next(s, steps[0]), steps[1..]))
  }

  ghost function After(s: State, steps: seq<Step>): State
    requires IsRun(s, steps)
    decreases |steps|
  {
    if steps == [] then s else After(Next(s, steps[0]), steps[1..])
  }

  lemma {:induction false} RunKeepsInv(s: State, steps: seq<Step>)
    requires Inv(s) && IsRun(s, steps)
    ensures Inv(After(s, steps))
    decreases |steps|
  {
    if steps != [] {
      StepKeepsInv(s, steps[0]);
      RunKeepsInv(Next(s, steps[0]), steps[1..]);
    }
  }

  // ----- What the caller sees -----

  /** The step is the master's return from Wait. */
  predicate IsReturn(s: State, step: Step)
    requires Enabled(s, step)
  {
    step == Critical(MASTER) && Next(s, step).threads[MASTER].Outside?
  }

  /** What Wait hands to its caller in that step: fAllOk after the clean-up (line 97). */
  function ReturnValue(s: State): bool
    requires Enabled(s, Critical(MASTER))
  {
    CleanUp(s, MASTER).fAllOk
  }

  /** `pending` with the checks of the step, if it adds some. */
  function Pending(pending: seq<Check>, step: Step): seq<Check> {
    if step.AddChecks? then pending + step.checks else pending
  }

  /** For each return of Wait in a run, the checks passed to Add since the return before it, and the answer. */
  ghost function Calls(s: State, steps: seq<Step>, pending: seq<Check>): seq<(seq<Check>, bool)>
    requires IsRun(s, steps)
    decreases |steps|
  {
    if steps == [] then []
    else if IsReturn(s, steps[0]) then
      [(pending, ReturnValue(s))] + Calls(Next(s, steps[0]), steps[1..], [])
    else
      Calls(Next(s, steps[0]), steps[1..], Pending(pending, steps[0]))
  }

  /** The checks passed to Add since the last return of Wait. */
  ghost function LeftOver(s: State, steps: seq<Step>, pending: seq<Check>): seq<Check>
    requires IsRun(s, steps)
    decreases |steps|
  {
    if steps == [] then pending
    else
      LeftOver(Next(s, steps[0]), steps[1..], if IsReturn(s, steps[0]) then [] else Pending(pending, steps[0]))
  }

  /** The rounds grow by the calls made. */
  ghost predicate Recorded(before: seq<Round>, after: seq<Round>, calls: seq<(seq<Check>, bool)>) {
    && |after| == |before| + |calls| && before <= after
    && forall k :: 0 <= k < |calls| ==>
         after[|before| + k].added == calls[k].0 && after[|before| + k].result == calls[k].1
  }

  lemma RecordedMore(a: seq<Round>, b: seq<Round>, c: seq<Round>, call: (seq<Check>, bool),
                     calls: seq<(seq<Check>, bool)>)
    requires Recorded(a, b, [call]) && Recorded(b, c, calls)
    ensures Recorded(a, c, [call] + calls)
  {
    assert c[|a|] == b[|a|];
    var all := [call] + calls;
    forall k | 0 <= k < |all| ensures c[|a| + k].added == all[k].0 && c[|a| + k].result == all[k].1 {
      if k == 0 {
        assert b[|a| + 0].added == [call][0].0;
      } else {
        assert all[k] == calls[k - 1] && c[|a| + k] == c[|b| + (k - 1)];
      }
    }
  }

  /** What a step does to the record. */
  ghost predicate StepRecorded(s: State, step: Step, s': State)
    requires Enabled(s, step)
  {
    if IsReturn(s, step) then s'.added == [] && Recorded(s.rounds, s'.rounds, [(s.added, ReturnValue(s))])
    else s'.added == Pending(s.added, step) && s'.rounds == s.rounds
  }

  lemma StepRecords(s: State, step: Step)
    requires Enabled(s, step)
    ensures StepRecorded(s, step, Next(s, step))
  {
    if step.Critical? {
      CriticalRecords(s, step.t);
    }
  }

  lemma CleanUpRecords(s: State, t: nat)
    requires Enabled(s, Critical(t))
    ensures CleanUp(s, t).added == s.added && CleanUp(s, t).rounds == s.rounds
  {
  }

  lemma DispatchRecords(s: State, t: nat)
    ensures var s' := Dispatch(s, t);
            && t in s'.threads && (s'.threads[t].Outside? <==> Returns(s, t))
            && s'.added == (if Returns(s, t) then [] else s.added)
            && s'.rounds == (if Returns(s, t) then s.rounds + [Round(s.added, s.ran, s.fAllOk)] else s.rounds)
  {
  }

  lemma CriticalRecords(s: State, t: nat)
    requires Enabled(s, Critical(t))
    ensures StepRecorded(s, Critical(t), Next(s, Critical(t)))
  {
    CleanUpRecords(s, t);
    DispatchRecords(CleanUp(s, t), t);
  }

  lemma {:induction false} RunRecords(s: State, steps: seq<Step>)
    requires IsRun(s, steps)
    ensures Recorded(s.rounds, After(s, steps).rounds, Calls(s, steps, s.added))
    ensures After(s, steps).added == LeftOver(s, steps, s.added)
    decreases |steps|
  {
    if steps != [] {
      var s1 := Next(s, steps[0]);
      StepRecords(s, steps[0]);
      RunRecords(s1, steps[1..]);
      if IsReturn(s, steps[0]) {
        RecordedMore(s.rounds, s1.rounds, After(s, steps).rounds, (s.added, ReturnValue(s)), Calls(s1, steps[1..], []));
      }
    }
  }

  /**
    The promise of the queue: in every run from the start, with any number of workers
    and any interleaving, each return of Wait answers exactly the conjunction of the
    checks that were passed to Add since the return before it.  The rounds record just
    these calls: on a positive answer all checks of the round were called, on a negative
    one a called check failed.
   */
  lemma WaitReturnsConjunction(s: State, steps: seq<Step>)
    requires Init(s) && IsRun(s, steps)
    ensures forall call :: call in Calls(s, steps, []) ==> call.1 == AllOk(call.0)
    ensures Recorded([], After(s, steps).rounds, Calls(s, steps, []))
    ensures forall r :: r in After(s, steps).rounds ==> RoundCorrect(r)
    ensures After(s, steps).added == LeftOver(s, steps, [])
  {
    InitInv(s);
    RunKeepsInv(s, steps);
    RunRecords(s, steps);
    var rounds, calls := After(s, steps).rounds, Calls(s, steps, []);
    forall call | call in calls ensures call.1 == AllOk(call.0) {
      var k :| 0 <= k < |calls| && calls[k] == call;
      assert rounds[0 + k] in rounds;
    }
  }

  /** The next check of a batch is called exactly if the thread knows of no failure, and its verdict is then known. */
  lemma CalledIff(s: State, t: nat)
    requires Enabled(s, RunOne(t))
    ensures var pc, pc' := s.threads[t], Next(s, RunOne(t)).threads[t];
            && pc'.Working? && pc'.todo == pc.todo[1..] && pc'.nNow == pc.nNow && pc'.fOk == (pc.fOk && pc.todo[0].ok)
            && Next(s, RunOne(t)).ran == if pc.fOk then s.ran + multiset{pc.todo[0]} else s.ran
  {
  }

  /** A batch is at most an equal share for every thread, counting the idle ones twice, and no less if it may. */
  lemma BatchShare(length: nat, nBatchSize: nat, nTotal: int, nIdle: int)
    requires nTotal >= 1 && nIdle >= 0
    ensures var n, d := BatchSize(length, nBatchSize, nTotal, nIdle), nTotal + nIdle + 1;
            && (n > 1 ==> n * d <= length && n <= nBatchSize)
            && (n >= nBatchSize || (n + 1) * d > length)
  {
    var d := nTotal + nIdle + 1;
    Share(length, d);
    ShareGrows(BatchSize(length, nBatchSize, nTotal, nIdle), length / d, d, length);
  }

  lemma Share(length: nat, d: nat)
    requires d > 0
    ensures length / d * d <= length < length / d * d + d
  {
  }

  lemma ShareGrows(n: nat, share: nat, d: nat, length: nat)
    requires share * d <= length < share * d + d
    ensures n <= share ==> n * d <= length
    ensures n >= share ==> (n + 1) * d > length
  {
    if n <= share {
      assert (share - n) * d >= 0;
    }
    if n >= share {
      assert (n - share) * d >= 0;
    }
  }

  // ----- Wait returns -----

  /** A step of a thread inside Loop; no new work, no new threads, no spurious wake-up. */
  predicate Internal(step: Step) {
    step.Critical? || step.RunOne? || step.FinishBatch?
  }

  ghost function Weight(pc: Pc): nat {
    match pc
    case Outside => 0
    case Waiting => 0
    case Woken => 1
    case Entering(_, _) => 3
    case Working(_, todo, _) => 4 + |todo|
  }

  /** What is left to do, in steps. */
  ghost function Measure(s: State): nat {
    6 * |s.queue| + Sum(s.threads, Weight)
  }

  lemma DispatchDecreases(s: State, t: nat)
    requires t in s.threads && s.nTotal >= 1 && s.nIdle >= 0
    requires s.threads[t].Entering? || s.threads[t].Woken?
    ensures Measure(Dispatch(s, t)) + (if s.threads[t].Entering? then 2 else 1) <= Measure(s)
  {
    var s' := Dispatch(s, t);
    SumUpdate(s.threads, Weight, t, s'.threads[t]);
    if s.queue != [] {
      TakeFromBack(s, t);
    }
  }

  lemma CriticalDecreases(s: State, t: nat)
    requires Enabled(s, Critical(t))
    requires CleanUp(s, t).nTotal >= 1 && CleanUp(s, t).nIdle >= 0
    ensures Measure(Next(s, Critical(t))) < Measure(s)
  {
    var s1 := CleanUp(s, t);
    if s1.threads != s.threads {
      SumUpdate(s.threads, Weight, MASTER, Woken);
    }
    DispatchDecreases(s1, t);
  }

  lemma InternalDecreases(s: State, step: Step)
    requires Enabled(s, step) && Internal(step)
    requires step.Critical? ==> CleanUp(s, step.t).nTotal >= 1 && CleanUp(s, step.t).nIdle >= 0
    ensures Measure(Next(s, step)) < Measure(s)
  {
    match step
    case Critical(t) => CriticalDecreases(s, t);
    case RunOne(t) => SumUpdate(s.threads, Weight, t, DoRunOne(s, t).threads[t]);
    case FinishBatch(t) => SumUpdate(s.threads, Weight, t, Entering(s.threads[t].nNow, s.threads[t].fOk));
  }

  /** The spurious wake-ups among the steps. */
  ghost function WakeUps(steps: seq<Step>): nat {
    if steps == [] then 0 else (if steps[0].Spurious? then 1 else 0) + WakeUps(steps[1..])
  }

  /** A spurious wake-up costs one step of its own and one to find that there is nothing to do. */
  lemma SpuriousCosts(s: State, t: nat)
    requires Enabled(s, Spurious(t))
    ensures Measure(Next(s, Spurious(t))) == Measure(s) + 1
  {
    SumUpdate(s.threads, Weight, t, Woken);
  }

  lemma {:induction false} InternalRunsAreBounded(s: State, steps: seq<Step>)
    requires Inv(s) && IsRun(s, steps)
    requires forall i :: 0 <= i < |steps| ==> Internal(steps[i]) || steps[i].Spurious?
    ensures |steps| <= Measure(s) + 2 * WakeUps(steps)
    decreases |steps|
  {
    if steps != [] {
      StepKeepsInv(s, steps[0]);
      if steps[0].Spurious? {
        SpuriousCosts(s, steps[0].t);
      } else {
        if steps[0].Critical? {
          CleanUpKeeps(s, steps[0].t);
        }
        InternalDecreases(s, steps[0]);
      }
      InternalRunsAreBounded(Next(s, steps[0]), steps[1..]);
    }
  }

  /** While the master is inside Wait some thread that is not blocked can go on. */
  lemma NoDeadlock(s: State)
    requires Inv(s) && !s.threads[MASTER].Outside?
    ensures exists step :: Internal(step) && Enabled(s, step)
  {
    if s.threads[MASTER].Waiting? {
      SumZero(s.threads, InFlight);
      var t :| t in s.threads && InFlight(s.threads[t]) != 0;
      CanGoOn(s, t);
    } else {
      CanGoOn(s, MASTER);
    }
  }

  lemma CanGoOn(s: State, t: nat)
    requires t in s.threads && !s.threads[t].Outside? && !s.threads[t].Waiting?
    ensures exists step :: Internal(step) && Enabled(s, step)
  {
    if s.threads[t].Working? {
      if s.threads[t].todo == [] {
        assert Enabled(s, FinishBatch(t));
      } else {
        assert Enabled(s, RunOne(t));
      }
    } else {
      assert Enabled(s, Critical(t));
    }
  }

  /**
    Without new work every schedule is short, by two steps longer for each spurious
    wake-up in it, and the only place where it can stop is after Wait has returned.
   */
  lemma WaitReturns(s: State, steps: seq<Step>)
    requires Inv(s) && IsRun(s, steps)
    requires forall i :: 0 <= i < |steps| ==> Internal(steps[i]) || steps[i].Spurious?
    ensures |steps| <= Measure(s) + 2 * WakeUps(steps)
    ensures Inv(After(s, steps))
    ensures (forall step :: Internal(step) ==> !Enabled(After(s, steps), step)) ==>
              After(s, steps).threads[MASTER].Outside?
  {
    InternalRunsAreBounded(s, steps);
    RunKeepsInv(s, steps);
    var s' := After(s, steps);
    if !s'.threads[MASTER].Outside? {
      NoDeadlock(s');
    }
  }
}
