// The pool of check queues of src/checkqueuepool.h: which queues are idle,
// which are lent to a checker, and the search for the checker to preempt.

module CheckQueuePool {
  import opened Options
  import Q = CheckQueue

  // A lent queue: mChecker, mValue and mValidationStartTime.
  datatype Checker = Checker(queue: nat, value: int, start: int)

  datatype Pool = Pool(
    queues: seq<Q.State>,
    idle: seq<nat>,                 // mIdleQueues, front first
    running: seq<Checker>,          // mRunningCheckers
    opening: Option<nat>)           // mQueuesLock is held while this queue's session is opened

  datatype Event =
    | Inside(i: nat, e: Q.Event)    // a thread of queue i, or its scope guard, takes a step
    | GetChecker(value: int, now: int)
    | Preempt(w: nat, value: int)   // GetChecker finds no idle queue and looks for the worst checker
    | GiveBack(i: nat)              // ReturnQueueToPool

  function Lent(running: seq<Checker>): (r: seq<nat>)
    ensures |r| == |running|
  {
    seq(|running|, k requires 0 <= k < |running| => running[k].queue)
  }

  // The scope guard opens, fills and waits for its own queue, and waits once.
  predicate GuardAllows(p: Pool, i: nat, e: Q.Event)
    requires i < |p.queues|
  {
    match e
    case StartSession => false
    case OpenSession(_) => p.opening == Some(i)
    case Add(_, _) => i in Lent(p.running)
    case CallWait => i in Lent(p.running) && !p.queues[i].waitCalled
    case _ => true
  }

  predicate IsWorst(running: seq<Checker>, w: nat) {
    && w < |running|
    && forall k | 0 <= k < |running| ::
         running[w].value < running[k].value
         || (running[w].value == running[k].value && running[w].start <= running[k].start)
  }

  predicate Enabled(p: Pool, ev: Event) {
    match ev
    case Inside(i, e) =>
      i < |p.queues| && |p.queues[i].threads| > 0 && Q.Enabled(p.queues[i], e) && GuardAllows(p, i, e)
    case GetChecker(_, _) =>
      p.opening == None && p.idle != [] && p.idle[0] < |p.queues| && Q.MutexFree(p.queues[p.idle[0]])
    case Preempt(w, _) => p.opening == None && p.idle == [] && IsWorst(p.running, w)
    case GiveBack(i) =>
      && p.opening == None && i < |p.queues| && i in Lent(p.running)
      && |p.queues[i].threads| > 0 && p.queues[i].threads[0].Off? && p.queues[i].waitCalled
      && Q.MutexFree(p.queues[i])
  }

  function Erase(running: seq<Checker>, i: nat): seq<Checker> {
    if running == [] then []
    else if running[0].queue == i then running[1..]
    else [running[0]] + Erase(running[1..], i)
  }

  // The checks the source makes before each pool step: asserts and the
  // exception of StartCheckingSession.
  predicate Safe(p: Pool, ev: Event) {
    match ev
    case Inside(i, e) => i < |p.queues| && p.queues[i].nTotal >= 0 && p.queues[i].nIdle >= 0
    case GetChecker(_, _) =>
      && p.idle != [] && p.idle[0] < |p.queues|
      && |p.queues[p.idle[0]].threads| > 0 && p.queues[p.idle[0]].nTotal >= 0 && p.queues[p.idle[0]].nIdle >= 0
      && Q.Enabled(p.queues[p.idle[0]], Q.StartSession)
    case Preempt(w, _) => w < |p.running| && p.running[w].queue < |p.queues| && p.queues[p.running[w].queue].session
    case GiveBack(i) => i < |p.queues| && Q.IsIdle(p.queues[i]) && i in Lent(p.running)
  }

  function After(p: Pool, ev: Event): Pool
    requires Enabled(p, ev) && Safe(p, ev)
  {
    match ev
    case Inside(i, e) =>
      p.(queues := p.queues[i := Q.After(p.queues[i], e)],
         opening := if e.OpenSession? then None else p.opening)
    case GetChecker(value, now) =>
      var i := p.idle[0];
      p.(queues := p.queues[i := Q.After(p.queues[i], Q.StartSession)], idle := p.idle[1..],
         running := p.running + [Checker(i, value, now)], opening := Some(i))
    case Preempt(w, value) =>
      var c := p.running[w];
      if c.value < value then p.(queues := p.queues[c.queue := p.queues[c.queue].(canceled := true)]) else p
    case GiveBack(i) => p.(idle := p.idle + [i], running := Erase(p.running, i))
  }

  function Initial(poolSize: nat, batchSize: nat, threadCount: nat): Pool {
    Pool(seq(poolSize, _ => Q.Initial(batchSize, threadCount)), seq(poolSize, k => k), [], None)
  }

  /******* The invariant *******/

  ghost predicate QueueOk(p: Pool, i: nat)
    requires i < |p.queues|
  {
    var q := p.queues[i];
    && Q.Reachable(q) && |q.threads| > 0
    && (i in p.idle ==> q.threads[0].Off? && q.waitCalled)
    && (i in Lent(p.running) ==> if p.opening == Some(i) then q.threads[0].Opening? else q.session && !q.threads[0].Opening?)
  }

  // Every queue is either idle or lent, and only once.
  ghost predicate Partition(p: Pool) {
    multiset(p.idle) + multiset(Lent(p.running)) == multiset(Q.Numbers(0, |p.queues|))
  }

  ghost predicate Inv(p: Pool) {
    && |p.queues| > 0
    && Partition(p)
    && (forall i: nat | i < |p.queues| :: QueueOk(p, i))
    && (p.opening.Some? ==> p.opening.value in Lent(p.running))
  }

  lemma InPartition(p: Pool, i: nat)
    requires Partition(p)
    ensures i in p.idle || i in Lent(p.running) <==> i < |p.queues|
    ensures !(i in p.idle && i in Lent(p.running))
  {
    Q.NumbersOnce(|p.queues|, i);
    assert (multiset(p.idle) + multiset(Lent(p.running)))[i] == multiset(p.idle)[i] + multiset(Lent(p.running))[i];
    assert i in p.idle <==> multiset(p.idle)[i] > 0;
    assert i in Lent(p.running) <==> multiset(Lent(p.running))[i] > 0;
  }

  lemma {:induction false} EraseLent(running: seq<Checker>, i: nat)
    requires i in Lent(running)
    ensures multiset(Lent(running)) == multiset(Lent(Erase(running, i))) + multiset{i}
    ensures forall k :: k in Lent(Erase(running, i)) ==> k in Lent(running)
  {
    assert Lent(running) == [running[0].queue] + Lent(running[1..]);
    if running[0].queue != i {
      EraseLent(running[1..], i);
      assert Lent(Erase(running, i)) == [running[0].queue] + Lent(Erase(running[1..], i));
    }
  }

  lemma ReachableStep(s: Q.State, e: Q.Event)
    requires Q.Reachable(s) && |s.threads| > 0 && s.nTotal >= 0 && s.nIdle >= 0 && Q.Enabled(s, e)
    ensures Q.Reachable(Q.After(s, e))
  {
    var b: nat, w: nat, events :| Q.Reaches(Q.Initial(b, w), events, s);
    ReachesMore(Q.Initial(b, w), events, s, e);
  }

  lemma {:induction false} ReachesMore(s0: Q.State, events: seq<Q.Event>, s: Q.State, e: Q.Event)
    requires Q.Reaches(s0, events, s)
    requires |s.threads| > 0 && s.nTotal >= 0 && s.nIdle >= 0 && Q.Enabled(s, e)
    ensures Q.Reaches(s0, events + [e], Q.After(s, e))
    decreases |events|
  {
    if events == [] {
      assert Q.Reaches(Q.After(s, e), [], Q.After(s, e));
    } else {
      ReachesMore(Q.After(s0, events[0]), events[1..], s, e);
      assert (events + [e])[1..] == events[1..] + [e];
    }
  }

  lemma QueueFacts(s: Q.State)
    requires Q.Reachable(s)
    ensures |s.threads| > 0 && s.nTotal >= 0 && s.nIdle >= 0
    ensures s.threads[0].Opening? ==> s.waitCalled
    ensures !s.threads[0].Off? && !s.threads[0].Opening? ==> s.session && s.waitCalled
  {
    Q.ReachableInv(s);
    Q.NonNegative(s);
  }

  /******* Theorems *******/

  // No assert of the pool fails and StartCheckingSession never throws.
  lemma PoolIsSafe(p: Pool, ev: Event)
    requires Inv(p) && Enabled(p, ev)
    ensures Safe(p, ev)
  {
    match ev
    case Inside(i, e) =>
      assert QueueOk(p, i);
      QueueFacts(p.queues[i]);
    case GetChecker(_, _) =>
      var i := p.idle[0];
      assert i in p.idle && QueueOk(p, i);
      QueueFacts(p.queues[i]);
      Q.IdleAfterWait(p.queues[i]);
    case Preempt(w, _) =>
      var i := Lent(p.running)[w];
      InPartition(p, i);
      assert QueueOk(p, i);
    case GiveBack(i) =>
      assert QueueOk(p, i);
      Q.IdleAfterWait(p.queues[i]);
  }

  // GetChecker's own assert: with no idle queue some checker is running.
  lemma SomeoneRuns(p: Pool)
    requires Inv(p) && p.idle == []
    ensures p.running != []
  {
    InPartition(p, 0);
  }

  // What a step inside a queue can do to its master and its session.
  lemma MasterMoves(s: Q.State, e: Q.Event)
    requires |s.threads| > 0 && s.nTotal >= 0 && s.nIdle >= 0 && Q.Enabled(s, e) && !e.StartSession?
    ensures var s' := Q.After(s, e);
            && |s'.threads| == |s.threads|
            && (s.session || e.OpenSession? ==> s'.session)
            && (s'.threads[0].Opening? <==> s.threads[0].Opening? && !e.OpenSession?)
            && (s.threads[0].Off? && s.waitCalled && !e.CallWait? ==> s'.threads[0].Off? && s'.waitCalled)
  {
    match e
    case Acquire(t) => if s.threads[t].Reporting? { ReportSpares(s, t); }
    case ReadToken(t) => assert Q.Look(s, t).threads[0] == s.threads[0] || Q.Holds(Q.Look(s, t).threads[0]);
    case _ =>
  }

  lemma ReportSpares(s: Q.State, t: nat)
    requires t < |s.threads| && s.threads[t].Reporting?
    ensures var s' := Q.Report(s, t);
            && |s'.threads| == |s.threads| && s'.session == s.session && s'.waitCalled == s.waitCalled
            && (s.threads[0].Off? ==> s'.threads[0].Off?)
            && (s'.threads[0].Opening? <==> s.threads[0].Opening?)
  {
  }

  lemma InsideKeeps(p: Pool, i: nat, e: Q.Event)
    requires Inv(p) && Enabled(p, Inside(i, e)) && Safe(p, Inside(i, e))
    ensures Inv(After(p, Inside(i, e)))
  {
    var p' := After(p, Inside(i, e));
    assert QueueOk(p, i);
    QueueFacts(p.queues[i]);
    ReachableStep(p.queues[i], e);
    MasterMoves(p.queues[i], e);
    InPartition(p, i);
    forall k: nat | k < |p'.queues| ensures QueueOk(p', k) {
      assert QueueOk(p, k);
    }
  }

  lemma GetCheckerKeeps(p: Pool, value: int, now: int)
    requires Inv(p) && Enabled(p, GetChecker(value, now)) && Safe(p, GetChecker(value, now))
    ensures Inv(After(p, GetChecker(value, now)))
  {
    var p' := After(p, GetChecker(value, now));
    var i := p.idle[0];
    assert QueueOk(p, i);
    ReachableStep(p.queues[i], Q.StartSession);
    assert p.idle == [i] + p'.idle;
    assert Lent(p'.running) == Lent(p.running) + [i];
    assert multiset(p.idle) == multiset{i} + multiset(p'.idle);
    InPartition(p', i);
    assert Lent(p'.running)[|p.running|] == i;
    forall k: nat | k < |p'.queues| ensures QueueOk(p', k) {
      assert QueueOk(p, k);
    }
  }

  lemma PreemptKeeps(p: Pool, w: nat, value: int)
    requires Inv(p) && Enabled(p, Preempt(w, value)) && Safe(p, Preempt(w, value))
    ensures Inv(After(p, Preempt(w, value)))
  {
    var p' := After(p, Preempt(w, value));
    var i := p.running[w].queue;
    assert QueueOk(p, i);
    QueueFacts(p.queues[i]);
    ReachableStep(p.queues[i], Q.Cancel);
    forall k: nat | k < |p'.queues| ensures QueueOk(p', k) {
      assert QueueOk(p, k);
    }
  }

  lemma GiveBackKeeps(p: Pool, i: nat)
    requires Inv(p) && Enabled(p, GiveBack(i)) && Safe(p, GiveBack(i))
    ensures Inv(After(p, GiveBack(i)))
  {
    var p' := After(p, GiveBack(i));
    EraseLent(p.running, i);
    assert multiset(p'.idle) == multiset(p.idle) + multiset{i};
    forall k: nat | k < |p'.queues| ensures QueueOk(p', k) {
      assert QueueOk(p, k);
      assert k in p'.idle ==> k in p.idle || k == i;
    }
  }

  lemma PoolStepKeeps(p: Pool, ev: Event)
    requires Inv(p) && Enabled(p, ev)
    ensures Safe(p, ev) && Inv(After(p, ev))
  {
    PoolIsSafe(p, ev);
    match ev
    case Inside(i, e) => InsideKeeps(p, i, e);
    case GetChecker(value, now) => GetCheckerKeeps(p, value, now);
    case Preempt(w, value) => PreemptKeeps(p, w, value);
    case GiveBack(i) => GiveBackKeeps(p, i);
  }

  lemma InitialInv(poolSize: nat, batchSize: nat, threadCount: nat)
    requires poolSize > 0
    ensures Inv(Initial(poolSize, batchSize, threadCount))
  {
    var p := Initial(poolSize, batchSize, threadCount);
    assert p.idle == Q.Numbers(0, poolSize);
    assert Lent(p.running) == [];
    var q := Q.Initial(batchSize, threadCount);
    assert Q.Reaches(q, [], q);
    assert Q.Reachable(q);
  }

  ghost predicate Reaches(p: Pool, events: seq<Event>, p': Pool)
    decreases |events|
  {
    if events == [] then p == p'
    else Enabled(p, events[0]) && (Safe(p, events[0]) ==> Reaches(After(p, events[0]), events[1..], p'))
  }

  // Over every run of a new pool of at least one queue: the idle and lent queues
  // partition the pool, every queue behaves as a queue on its own, and the step
  // about to be taken passes the source's checks.
  lemma {:induction false} PoolRunSafe(p: Pool, events: seq<Event>, p': Pool, next: Event)
    requires Inv(p) && Reaches(p, events, p')
    ensures Inv(p') && (Enabled(p', next) ==> Safe(p', next))
    decreases |events|
  {
    if events == [] {
      if Enabled(p, next) { PoolIsSafe(p, next); }
    } else {
      PoolStepKeeps(p, events[0]);
      PoolRunSafe(After(p, events[0]), events[1..], p', next);
    }
  }

  // The loop of GetChecker over the running checkers: least value first, and
  // among equals the one started earliest.
  method FindWorst(running: seq<Checker>) returns (w: nat)
    requires running != []
    ensures IsWorst(running, w)
  {
    w := 0;
    for k := 1 to |running|
      invariant w < k && IsWorst(running[..k], w)
    {
      if running[w].value > running[k].value {
        w := k;
      } else if running[w].value == running[k].value && running[w].start > running[k].start {
        w := k;
      }
    }
    assert running[..|running|] == running;
  }
}
