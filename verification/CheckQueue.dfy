// The parallel check queue of src/checkqueue.h as a state machine.
//
// Thread 0 is the master, which opens a session, adds checks and joins the
// workers in Wait; the others are the workers.  One step is one critical
// section (acquiring the mutex with the clean-up that opens it, then the rest
// of it up to the wait, the return or the release), one read of the session
// token, or one run of a check.  Shutdown (mQuit) is not modelled.

module CheckQueue {
  import opened Options

  // The k-th check added in a session has number k.
  type CheckId = nat

  // The source's std::optional<bool>: true, false, or empty for cancelled.
  datatype Verdict = Yes | No | Empty

  datatype Thread =
    | Off                                   // outside Loop
    | Opening                               // master between IsIdle and the rest of StartCheckingSession
    | Entering                              // master in Wait, before its first lock
    | Locked                                // holds the mutex, previous batch accounted for
    | Asleep(notified: bool)                // in cond.wait
    | Working(nNow: nat, left: seq<CheckId>, fOk: Verdict)
    | Running(nNow: nat, check: CheckId, left: seq<CheckId>, fOk: Verdict)
    | Reporting(nNow: nat, fOk: Verdict)    // batch done, about to lock
    | Leaving                               // master: result decided, guard still counted

  datatype Outcome = Outcome(id: CheckId, verdict: Verdict)

  // The result of Wait and whether the token read cancelled when it was decided.
  datatype Answer = Answer(result: Verdict, sawCancel: bool)

  datatype State = State(
    nBatchSize: nat,
    queue: seq<CheckId>,
    nTodo: int,
    nIdle: int,
    nTotal: int,
    fAllOk: Verdict,
    session: bool,                          // mSessionToken is set
    canceled: bool,                         // what reading the token gives
    waitCalled: bool,
    mutex: Option<nat>,                     // the thread that holds it
    threads: seq<Thread>,
    // History of the session.
    added: nat,
    log: seq<Outcome>,                      // checks run, in order
    skipped: multiset<CheckId>,             // checks dropped without being run
    answer: Option<Answer>)

  /******* Steps *******/

  datatype Event =
    | Cancel
    | StartSession                          // mWaitCalled and IsIdle were seen
    | OpenSession(preCanceled: bool)
    | Add(count: nat, wakes: nat)           // `wakes` is the worker notify_one picks
    | CallWait
    | Acquire(t: nat)
    | Dispatch(t: nat)
    | ReadToken(t: nat)
    | RunCheck(t: nat, verdict: Verdict)
    | Leave

  predicate MutexFree(s: State) {
    s.mutex == None
  }

  predicate IsIdle(s: State) {
    s.nTotal == s.nIdle && s.nTodo == 0
  }

  predicate Enabled(s: State, e: Event)
    requires |s.threads| > 0
  {
    match e
    case Cancel => s.session
    case StartSession => s.threads[0].Off? && MutexFree(s) && s.waitCalled && IsIdle(s)
    case OpenSession(_) => s.threads[0].Opening? && MutexFree(s)
    case Add(_, wakes) => s.threads[0].Off? && MutexFree(s) && s.session && !s.waitCalled && 0 < wakes
    case CallWait => s.threads[0].Off? && s.session
    case Acquire(t) =>
      && t < |s.threads| && MutexFree(s)
      && match s.threads[t] {
           case Off => t > 0
           case Entering => true
           case Asleep(_) => true
           case Reporting(_, _) => true
           case _ => false
         }
    case Dispatch(t) => t < |s.threads| && s.threads[t].Locked?
    case ReadToken(t) => t < |s.threads| && s.threads[t].Working?
    case RunCheck(t, _) => t < |s.threads| && s.threads[t].Running?
    case Leave => s.threads[0].Leaving? && MutexFree(s)
  }

  function Put(s: State, t: nat, th: Thread): State
    requires t < |s.threads|
  {
    s.(threads := s.threads[t := th])
  }

  function Notified(th: Thread): Thread {
    if th.Asleep? then Asleep(true) else th
  }

  function Fold(all: Verdict, one: Verdict): Verdict {
    if all == Empty || one == Empty then Empty else if all == Yes && one == Yes then Yes else No
  }

  // The clean-up of the previous batch at the head of the critical section:
  // account for it,
  function Settle(s: State, t: nat): State
    requires t < |s.threads| && s.threads[t].Reporting?
  {
    s.(fAllOk := Fold(s.fAllOk, s.threads[t].fOk), nTodo := s.nTodo - s.threads[t].nNow,
       mutex := Some(t), threads := s.threads[t := Locked])
  }

  // drop the queue if the session is cancelled,
  function Drain(s: State): State {
    if s.canceled then
      s.(nTodo := s.nTodo - |s.queue|, skipped := s.skipped + multiset(s.queue), queue := [])
    else s
  }

  // and wake the master if that was the last of the work.
  function Ring(s: State, t: nat): State
    requires |s.threads| > 0
  {
    if s.nTodo == 0 && t != 0 then Put(s, 0, Notified(s.threads[0])) else s
  }

  function Report(s: State, t: nat): State
    requires t < |s.threads| && s.threads[t].Reporting?
  {
    Ring(Drain(Settle(s, t)), t)
  }

  function Take(s: State, t: nat): State
    requires t < |s.threads| && s.nTotal >= 0 && s.nIdle >= 0 && s.queue != []
  {
    var n := BatchOf(s);
    s.(queue := s.queue[n..], mutex := None, threads := s.threads[t := Working(n, s.queue[..n], s.fAllOk)])
  }

  function BatchOf(s: State): (n: nat)
    requires s.nTotal + s.nIdle + 1 > 0 && s.queue != []
    ensures 1 <= n <= |s.queue|
  {
    var share := |s.queue| / (s.nTotal + s.nIdle + 1);
    var capped := if s.nBatchSize < share then s.nBatchSize else share;
    if capped < 1 then 1 else capped
  }

  // The while loop on the empty queue and the choice of the next batch.
  function Proceed(s: State, t: nat): State
    requires t < |s.threads| && s.nTotal >= 0 && s.nIdle >= 0
  {
    if s.queue == [] then
      if t == 0 && s.nTodo == 0 then
        var result := if s.canceled then Empty else s.fAllOk;
        s.(fAllOk := result, mutex := None, threads := s.threads[t := Leaving], answer := Some(Answer(result, s.canceled)))
      else
        s.(nIdle := s.nIdle + 1, mutex := None, threads := s.threads[t := Asleep(false)])
    else Take(s, t)
  }

  // A round of the loop over the batch up to the call of the check.
  function Look(s: State, t: nat): State
    requires t < |s.threads| && s.threads[t].Working?
  {
    var th := s.threads[t];
    if th.left == [] then Put(s, t, Reporting(th.nNow, th.fOk))
    else if th.fOk != Yes || s.canceled then GiveUp(s, t)
    else Put(s, t, Running(th.nNow, th.left[0], th.left[1..], th.fOk))
  }

  function GiveUp(s: State, t: nat): State
    requires t < |s.threads| && s.threads[t].Working?
  {
    var th := s.threads[t];
    s.(skipped := s.skipped + multiset(th.left), threads := s.threads[t := Reporting(th.nNow, th.fOk)])
  }

  function Finish(s: State, t: nat, verdict: Verdict): State
    requires t < |s.threads| && s.threads[t].Running?
  {
    var th := s.threads[t];
    s.(log := s.log + [Outcome(th.check, verdict)], threads := s.threads[t := Working(th.nNow, th.left, verdict)])
  }

  function After(s: State, e: Event): State
    requires |s.threads| > 0 && s.nTotal >= 0 && s.nIdle >= 0 && Enabled(s, e)
  {
    match e
    case Cancel => s.(canceled := true)
    case StartSession => Put(s, 0, Opening)
    case OpenSession(pre) =>
      s.(session := true, canceled := pre, fAllOk := Yes, waitCalled := false,
         threads := s.threads[0 := Off], added := 0, log := [], skipped := multiset{}, answer := None)
    case Add(count, wakes) =>
      var s1 := s.(queue := s.queue + Numbers(s.added, count), nTodo := s.nTodo + count, added := s.added + count);
      s1.(threads := AddWakes(s.threads, count, wakes))
    case CallWait => s.(waitCalled := true, threads := s.threads[0 := Entering])
    case Acquire(t) =>
      if s.threads[t].Reporting? then Report(s, t)
      else if s.threads[t].Asleep? then s.(nIdle := s.nIdle - 1, mutex := Some(t), threads := s.threads[t := Locked])
      else s.(nTotal := s.nTotal + 1, mutex := Some(t), threads := s.threads[t := Locked])
    case Dispatch(t) => Proceed(s, t)
    case ReadToken(t) => Look(s, t)
    case RunCheck(t, verdict) => Finish(s, t, verdict)
    case Leave => s.(nTotal := s.nTotal - 1, threads := s.threads[0 := Off])
  }

  function Numbers(start: nat, count: nat): (r: seq<CheckId>)
    ensures |r| == count
  {
    seq(count, i => start + i)
  }

  // notify_all on condWorker leaves the master alone.
  function WakeAll(ts: seq<Thread>): (r: seq<Thread>)
    ensures |r| == |ts|
  {
    seq(|ts|, t requires 0 <= t < |ts| => if t == 0 then ts[t] else Notified(ts[t]))
  }

  // notify_one after one check, notify_all after more; which worker notify_one
  // reaches, if any, is left open.
  function AddWakes(ts: seq<Thread>, count: nat, wakes: nat): (r: seq<Thread>)
    requires |ts| > 0 && wakes > 0
    ensures |r| == |ts| && r[0] == ts[0]
    ensures forall t | 0 <= t < |ts| :: r[t] == ts[t] || (ts[t].Asleep? && r[t] == Asleep(true))
  {
    if count == 1 && wakes < |ts| then ts[wakes := Notified(ts[wakes])]
    else if count > 1 then WakeAll(ts)
    else ts
  }

  // A queue as constructed: no thread has reached its loop yet.
  function Initial(nBatchSize: nat, workers: nat): State {
    State(nBatchSize, [], 0, 0, 0, Yes, false, false, true, None, seq(workers + 1, _ => Off), 0, [], multiset{}, None)
  }

  /******* Counting over threads *******/

  function SumTo(ts: seq<Thread>, n: nat, f: Thread -> int): int
    requires n <= |ts|
  {
    if n == 0 then 0 else SumTo(ts, n - 1, f) + f(ts[n - 1])
  }

  function Sum(ts: seq<Thread>, f: Thread -> int): int {
    SumTo(ts, |ts|, f)
  }

  function UnionTo(ts: seq<Thread>, n: nat, f: Thread -> multiset<CheckId>): multiset<CheckId>
    requires n <= |ts|
  {
    if n == 0 then multiset{} else UnionTo(ts, n - 1, f) + f(ts[n - 1])
  }

  function Pending(ts: seq<Thread>): multiset<CheckId> {
    UnionTo(ts, |ts|, Held)
  }

  // The checks a thread still has in hand.
  function Held(th: Thread): multiset<CheckId> {
    match th
    case Working(_, left, _) => multiset(left)
    case Running(_, check, left, _) => multiset{check} + multiset(left)
    case _ => multiset{}
  }

  predicate Holds(th: Thread) {
    th.Working? || th.Running? || th.Reporting?
  }

  function Now(th: Thread): int {
    if Holds(th) then th.nNow else 0
  }

  function Sleeps(th: Thread): int {
    if th.Asleep? then 1 else 0
  }

  function Counted(th: Thread): int {
    if th.Off? || th.Opening? || th.Entering? then 0 else 1
  }

  lemma {:induction false} SumToPut(ts: seq<Thread>, n: nat, t: nat, th: Thread, f: Thread -> int)
    requires n <= |ts| && t < |ts|
    ensures SumTo(ts[t := th], n, f) == SumTo(ts, n, f) + (if t < n then f(th) - f(ts[t]) else 0)
  {
    if n > 0 { SumToPut(ts, n - 1, t, th, f); }
  }

  // Checks move between the four places: queue, pending, run, skipped.
  lemma QueueToPending<A>(q: multiset<A>, p: multiset<A>, l: multiset<A>, k: multiset<A>, m: multiset<A>)
    ensures q + (p + m) + l + k == (q + m) + p + l + k
  {
  }

  lemma QueueToSkipped<A>(q: multiset<A>, p: multiset<A>, l: multiset<A>, k: multiset<A>)
    ensures multiset{} + p + l + (k + q) == q + p + l + k
  {
  }

  lemma PendingToSkipped<A>(q: multiset<A>, p: multiset<A>, l: multiset<A>, k: multiset<A>, m: multiset<A>)
    ensures q + p + l + (k + m) == q + (p + m) + l + k
  {
  }

  lemma PendingToRun<A>(q: multiset<A>, p: multiset<A>, l: multiset<A>, k: multiset<A>, m: multiset<A>)
    ensures q + p + (l + m) + k == q + (p + m) + l + k
  {
  }

  lemma AddChecks<A>(q: multiset<A>, p: multiset<A>, l: multiset<A>, k: multiset<A>, m: multiset<A>)
    ensures (q + m) + p + l + k == q + p + l + k + m
  {
  }

  // The two shapes PendingPut is used in.
  lemma CancelSame<A>(p: multiset<A>, h: multiset<A>, p': multiset<A>)
    requires p' + h == p + h
    ensures p' == p
  {
    forall x ensures p'[x] == p[x] {
      assert (p' + h)[x] == (p + h)[x];
    }
  }

  lemma CancelMoved<A>(p: multiset<A>, h: multiset<A>, p': multiset<A>, g: multiset<A>, m: multiset<A>)
    requires p' + h == p + g && h == g + m
    ensures p == p' + m
  {
    forall x ensures p[x] == (p' + m)[x] {
      assert (p' + h)[x] == (p + g)[x];
    }
  }

  lemma PendingStep<A>(a: multiset<A>, x: multiset<A>, b: multiset<A>, y: multiset<A>, h: multiset<A>)
    requires a + x == b + y
    ensures (a + h) + x == (b + h) + y
  {
    assert (a + h) + x == (a + x) + h;
    assert (b + h) + y == (b + y) + h;
  }

  lemma {:induction false} UnionToPut(ts: seq<Thread>, n: nat, t: nat, th: Thread, f: Thread -> multiset<CheckId>)
    requires n <= |ts| && t < |ts|
    ensures t < n ==> UnionTo(ts[t := th], n, f) + f(ts[t]) == UnionTo(ts, n, f) + f(th)
    ensures t >= n ==> UnionTo(ts[t := th], n, f) == UnionTo(ts, n, f)
  {
    if n > 0 {
      UnionToPut(ts, n - 1, t, th, f);
      if t < n - 1 {
        PendingStep(UnionTo(ts[t := th], n - 1, f), f(ts[t]), UnionTo(ts, n - 1, f), f(th), f(ts[n - 1]));
      }
    }
  }

  lemma {:induction false} SumToSame(ts: seq<Thread>, ts': seq<Thread>, n: nat, f: Thread -> int)
    requires n <= |ts| == |ts'| && forall t | 0 <= t < n :: f(ts'[t]) == f(ts[t])
    ensures SumTo(ts', n, f) == SumTo(ts, n, f)
  {
    if n > 0 { SumToSame(ts, ts', n - 1, f); }
  }

  lemma {:induction false} UnionToSame(ts: seq<Thread>, ts': seq<Thread>, n: nat, f: Thread -> multiset<CheckId>)
    requires n <= |ts| == |ts'| && forall t | 0 <= t < n :: f(ts'[t]) == f(ts[t])
    ensures UnionTo(ts', n, f) == UnionTo(ts, n, f)
  {
    if n > 0 { UnionToSame(ts, ts', n - 1, f); }
  }

  // A sum of non-negative shares is positive exactly when one of them is.
  lemma {:induction false} SumPositive(ts: seq<Thread>, n: nat, f: Thread -> int) returns (t: nat)
    requires n <= |ts| && forall th :: f(th) >= 0
    ensures SumTo(ts, n, f) >= 0
    ensures SumTo(ts, n, f) > 0 ==> t < n && f(ts[t]) > 0
    ensures SumTo(ts, n, f) == 0 ==> forall k | 0 <= k < n :: f(ts[k]) == 0
  {
    t := 0;
    if n > 0 {
      t := SumPositive(ts, n - 1, f);
      t := if f(ts[n - 1]) > 0 then n - 1 else t;
    }
  }

  lemma {:induction false} PendingEmpty(ts: seq<Thread>, n: nat)
    requires n <= |ts| && forall t | 0 <= t < n :: !Holds(ts[t])
    ensures UnionTo(ts, n, Held) == multiset{}
  {
    if n > 0 { PendingEmpty(ts, n - 1); }
  }

  /******* The invariant *******/

  // The counters are exact.
  ghost predicate Counters(s: State) {
    && s.nTodo == |s.queue| + Sum(s.threads, Now)
    && s.nIdle == Sum(s.threads, Sleeps)
    && s.nTotal == Sum(s.threads, Counted)
  }

  predicate BatchOk(th: Thread) {
    match th
    case Working(n, left, _) => n >= 1 && |left| <= n
    case Running(n, _, left, fOk) => n >= 1 && |left| < n && fOk == Yes
    case Reporting(n, _) => n >= 1
    case _ => true
  }

  predicate MasterOnly(th: Thread) {
    th.Opening? || th.Entering? || th.Leaving?
  }

  // What the master's place says about the session and the work left.
  predicate MasterOk(s: State)
    requires |s.threads| > 0
  {
    var m := s.threads[0];
    && (m.Opening? ==> s.waitCalled)
    && (!m.Off? && !m.Opening? ==> s.waitCalled && s.session)
    && (!s.session ==> s.nTodo == 0 && s.waitCalled)
    && ((m.Off? && s.waitCalled) || m.Opening? || m.Leaving? ==> s.nTodo == 0)
    && (m.Asleep? ==> s.queue == [])
    && (m.Asleep? && !m.notified ==> s.nTodo > 0)
  }

  ghost predicate Places(s: State) {
    && |s.threads| > 0
    && (forall t | 0 <= t < |s.threads| :: BatchOk(s.threads[t]))
    && (forall t | 0 < t < |s.threads| :: !MasterOnly(s.threads[t]))
    && (forall t: nat | t < |s.threads| :: s.threads[t].Locked? <==> s.mutex == Some(t))
    && (s.mutex.Some? ==> s.mutex.value < |s.threads|)
    && MasterOk(s)
  }

  // Every check of the session is in exactly one place.
  ghost predicate Conserved(s: State) {
    multiset(s.queue) + Pending(s.threads) + multiset(Ids(s.log)) + s.skipped == multiset(Numbers(0, s.added))
  }

  function Ids(log: seq<Outcome>): (r: seq<CheckId>)
    ensures |r| == |log|
  {
    seq(|log|, i requires 0 <= i < |log| => log[i].id)
  }

  predicate Logged(log: seq<Outcome>, v: Verdict) {
    exists i | 0 <= i < |log| :: log[i].verdict == v
  }

  predicate AllTrue(log: seq<Outcome>) {
    forall i | 0 <= i < |log| :: log[i].verdict == Yes
  }

  // A failing verdict was earned: a false by a check, a None by a check or the token.
  predicate Earned(s: State, v: Verdict) {
    && (v == No ==> Logged(s.log, No))
    && (v == Empty ==> s.canceled || Logged(s.log, Empty))
  }

  predicate Clean(s: State) {
    s.fAllOk == Yes && forall t | 0 <= t < |s.threads| :: Holds(s.threads[t]) ==> s.threads[t].fOk == Yes
  }

  // While nothing bad is on record, in the shared verdict or in a batch in
  // flight, nothing bad has happened; and what is on record was earned.
  ghost predicate Verdicts(s: State) {
    && (Clean(s) && !s.canceled ==> AllTrue(s.log) && s.skipped == multiset{})
    && Earned(s, s.fAllOk)
    && (forall t | 0 <= t < |s.threads| :: Holds(s.threads[t]) ==> Earned(s, s.threads[t].fOk))
  }

  // What the result of Wait means for the session.
  ghost predicate AnswerOk(s: State, a: Answer) {
    && (a.result == Yes ==>
          && !a.sawCancel && AllTrue(s.log)
          && multiset(Ids(s.log)) == multiset(Numbers(0, s.added)))
    && (a.result == No ==> !a.sawCancel && Logged(s.log, No))
    && (a.result == Empty ==> a.sawCancel || Logged(s.log, Empty))
    && (a.sawCancel ==> a.result == Empty)
    && (!a.sawCancel && AllTrue(s.log) ==> a.result == Yes)
  }

  ghost predicate Answered(s: State) {
    && |s.threads| > 0 && (s.threads[0].Leaving? ==> s.answer.Some?)
    && (s.answer.Some? ==> s.nTodo == 0 && s.waitCalled && AnswerOk(s, s.answer.value))
  }

  ghost predicate Inv(s: State) {
    Places(s) && Counters(s) && Conserved(s) && Verdicts(s) && Answered(s)
  }

  /******* Every step keeps the counters *******/

  lemma SumsPut(ts: seq<Thread>, t: nat, th: Thread)
    requires t < |ts|
    ensures Sum(ts[t := th], Now) == Sum(ts, Now) - Now(ts[t]) + Now(th)
    ensures Sum(ts[t := th], Sleeps) == Sum(ts, Sleeps) - Sleeps(ts[t]) + Sleeps(th)
    ensures Sum(ts[t := th], Counted) == Sum(ts, Counted) - Counted(ts[t]) + Counted(th)
    ensures Pending(ts[t := th]) + Held(ts[t]) == Pending(ts) + Held(th)
  {
    SumToPut(ts, |ts|, t, th, Now);
    SumToPut(ts, |ts|, t, th, Sleeps);
    SumToPut(ts, |ts|, t, th, Counted);
    UnionToPut(ts, |ts|, t, th, Held);
  }

  lemma NonNegative(s: State)
    requires Counters(s)
    ensures s.nIdle >= 0 && s.nTotal >= 0 && Sum(s.threads, Now) >= 0
  {
    var _ := SumPositive(s.threads, |s.threads|, Sleeps);
    var _ := SumPositive(s.threads, |s.threads|, Counted);
    var _ := SumPositive(s.threads, |s.threads|, Now);
  }

  // With nothing to do no thread holds a batch and the queue is empty.
  lemma NothingHeld(s: State)
    requires Places(s) && Counters(s) && s.nTodo == 0
    ensures s.queue == [] && (forall t | 0 <= t < |s.threads| :: !Holds(s.threads[t]))
    ensures Pending(s.threads) == multiset{}
  {
    NonNegative(s);
    var _ := SumPositive(s.threads, |s.threads|, Now);
    forall t | 0 <= t < |s.threads| ensures !Holds(s.threads[t]) {
      assert Now(s.threads[t]) == 0 && BatchOk(s.threads[t]);
    }
    PendingEmpty(s.threads, |s.threads|);
  }

  /******* Every step keeps the invariant *******/

  // One thread moves; the counters follow.
  lemma CountersPut(s: State, t: nat, th: Thread, s': State)
    requires Counters(s) && t < |s.threads| && s'.threads == s.threads[t := th]
    requires s'.nTodo - |s'.queue| == s.nTodo - |s.queue| + Now(th) - Now(s.threads[t])
    requires s'.nIdle == s.nIdle + Sleeps(th) - Sleeps(s.threads[t])
    requires s'.nTotal == s.nTotal + Counted(th) - Counted(s.threads[t])
    ensures Counters(s')
  {
    SumsPut(s.threads, t, th);
  }

  lemma PlacesPut(s: State, t: nat, th: Thread, s': State)
    requires Places(s) && t < |s.threads| && s'.threads == s.threads[t := th]
    requires BatchOk(th) && (t > 0 ==> !MasterOnly(th))
    requires s'.mutex == if th.Locked? then Some(t) else if s.threads[t].Locked? then None else s.mutex
    requires th.Locked? ==> s.mutex == None || s.mutex == Some(t)
    requires MasterOk(s')
    ensures Places(s')
  {
  }

  // Verdicts, when the log and the skipped checks stay and the thread's own
  // verdict does not improve.
  lemma VerdictsPut(s: State, t: nat, th: Thread, s': State)
    requires Verdicts(s) && t < |s.threads| && s'.threads == s.threads[t := th]
    requires s'.fAllOk == s.fAllOk && s'.log == s.log && s'.canceled == s.canceled
    requires Holds(s.threads[t]) ==> Holds(th) && th.fOk == s.threads[t].fOk
    requires Holds(th) ==> th.fOk == if Holds(s.threads[t]) then s.threads[t].fOk else s.fAllOk
    requires s'.skipped == s.skipped || s.canceled || (Holds(th) && th.fOk != Yes)
    ensures Verdicts(s')
  {
    if Clean(s') {
      assert s'.threads[t] == th;
      forall k | 0 <= k < |s.threads| && Holds(s.threads[k]) ensures s.threads[k].fOk == Yes {
        assert Holds(s'.threads[k]);
      }
    }
  }

  // A thread without a batch moves and stays without one.
  lemma Moved(s: State, t: nat, th: Thread, s': State)
    requires Inv(s) && t < |s.threads| && !Holds(s.threads[t]) && !Holds(th)
    requires s'.threads == s.threads[t := th]
    requires s'.nTotal == s.nTotal + Counted(th) - Counted(s.threads[t])
    requires s'.nIdle == s.nIdle + Sleeps(th) - Sleeps(s.threads[t])
    requires s'.queue == s.queue && s'.nTodo == s.nTodo && s'.added == s.added && s'.log == s.log
    requires s'.skipped == s.skipped && s'.fAllOk == s.fAllOk && s'.canceled == s.canceled
    ensures Counters(s') && Conserved(s') && Verdicts(s')
  {
    CountersPut(s, t, th, s');
    VerdictsPut(s, t, th, s');
    SumsPut(s.threads, t, th);
    CancelSame(Pending(s.threads), multiset{}, Pending(s'.threads));
  }

  lemma StartSessionKeeps(s: State)
    requires Inv(s) && s.threads[0].Off? && MutexFree(s) && s.waitCalled && IsIdle(s)
    ensures Inv(Put(s, 0, Opening))
  {
    Moved(s, 0, Opening, Put(s, 0, Opening));
    PlacesPut(s, 0, Opening, Put(s, 0, Opening));
  }

  lemma OpenSessionKeeps(s: State, pre: bool)
    requires Inv(s) && s.nTotal >= 0 && s.nIdle >= 0 && Enabled(s, OpenSession(pre))
    ensures Inv(After(s, OpenSession(pre)))
  {
    var s' := After(s, OpenSession(pre));
    NothingHeld(s);
    CountersPut(s, 0, Off, s');
    PlacesPut(s, 0, Off, s');
    SumsPut(s.threads, 0, Off);
    CancelSame(Pending(s.threads), multiset{}, Pending(s'.threads));
    assert multiset(s'.queue) + Pending(s'.threads) + multiset(Ids(s'.log)) == multiset{};
  }

  lemma CallWaitKeeps(s: State)
    requires Inv(s) && s.threads[0].Off? && s.session
    ensures Inv(s.(waitCalled := true, threads := s.threads[0 := Entering]))
  {
    var s' := s.(waitCalled := true, threads := s.threads[0 := Entering]);
    Moved(s, 0, Entering, s');
    PlacesPut(s, 0, Entering, s');
  }

  lemma LeaveKeeps(s: State)
    requires Inv(s) && s.threads[0].Leaving? && MutexFree(s)
    ensures Inv(s.(nTotal := s.nTotal - 1, threads := s.threads[0 := Off]))
  {
    var s' := s.(nTotal := s.nTotal - 1, threads := s.threads[0 := Off]);
    Moved(s, 0, Off, s');
    PlacesPut(s, 0, Off, s');
  }

  lemma CancelKeeps(s: State)
    requires Inv(s)
    ensures Inv(s.(canceled := true))
  {
  }

  /******* Adding checks *******/

  lemma WokenClean(s: State, ts: seq<Thread>)
    requires Verdicts(s) && |ts| == |s.threads|
    requires forall t | 0 <= t < |ts| :: ts[t] == s.threads[t] || (s.threads[t].Asleep? && ts[t] == Asleep(true))
    ensures Verdicts(s.(threads := ts))
  {
    var s' := s.(threads := ts);
    if Clean(s') {
      forall k | 0 <= k < |ts| && Holds(s.threads[k]) ensures s.threads[k].fOk == Yes {
        assert Holds(s'.threads[k]);
      }
    }
  }

  lemma WokenCounters(s: State, ts: seq<Thread>)
    requires Counters(s) && |ts| == |s.threads|
    requires forall t | 0 <= t < |ts| :: ts[t] == s.threads[t] || (s.threads[t].Asleep? && ts[t] == Asleep(true))
    ensures Counters(s.(threads := ts)) && Pending(ts) == Pending(s.threads)
  {
    SumToSame(s.threads, ts, |ts|, Now);
    SumToSame(s.threads, ts, |ts|, Sleeps);
    SumToSame(s.threads, ts, |ts|, Counted);
    UnionToSame(s.threads, ts, |ts|, Held);
  }

  // Notifying sleeping workers changes nothing else.
  lemma WokenKeeps(s: State, ts: seq<Thread>)
    requires Inv(s) && |ts| == |s.threads| && ts[0] == s.threads[0]
    requires forall t | 0 <= t < |ts| :: ts[t] == s.threads[t] || (s.threads[t].Asleep? && ts[t] == Asleep(true))
    ensures Inv(s.(threads := ts))
  {
    WokenClean(s, ts);
    WokenCounters(s, ts);
  }

  lemma QueueGrows(s: State, count: nat)
    requires Inv(s) && s.threads[0].Off? && s.session && !s.waitCalled
    ensures Inv(s.(queue := s.queue + Numbers(s.added, count), nTodo := s.nTodo + count, added := s.added + count))
  {
    var more := Numbers(s.added, count);
    assert Numbers(0, s.added + count) == Numbers(0, s.added) + more;
    assert multiset(s.queue + more) == multiset(s.queue) + multiset(more);
    AddChecks(multiset(s.queue), Pending(s.threads), multiset(Ids(s.log)), s.skipped, multiset(more));
    assert s.answer.None?;
  }

  lemma AddKeeps(s: State, count: nat, wakes: nat)
    requires Inv(s) && s.nTotal >= 0 && s.nIdle >= 0 && Enabled(s, Add(count, wakes))
    ensures Inv(After(s, Add(count, wakes)))
  {
    QueueGrows(s, count);
    var s1 := s.(queue := s.queue + Numbers(s.added, count), nTodo := s.nTodo + count, added := s.added + count);
    var ts := AddWakes(s.threads, count, wakes);
    assert After(s, Add(count, wakes)) == s1.(threads := ts);
    WokenKeeps(s1, ts);
  }

  /******* Acquiring the mutex *******/

  lemma WakeKeeps(s: State, t: nat)
    requires Inv(s) && MutexFree(s) && t < |s.threads| && s.threads[t].Asleep?
    ensures Inv(s.(nIdle := s.nIdle - 1, mutex := Some(t), threads := s.threads[t := Locked]))
  {
    var s' := s.(nIdle := s.nIdle - 1, mutex := Some(t), threads := s.threads[t := Locked]);
    Moved(s, t, Locked, s');
    PlacesPut(s, t, Locked, s');
  }

  lemma EnterKeeps(s: State, t: nat)
    requires Inv(s) && MutexFree(s) && t < |s.threads|
    requires s.threads[t].Entering? || (s.threads[t].Off? && t > 0)
    ensures Inv(s.(nTotal := s.nTotal + 1, mutex := Some(t), threads := s.threads[t := Locked]))
  {
    var s' := s.(nTotal := s.nTotal + 1, mutex := Some(t), threads := s.threads[t := Locked]);
    Moved(s, t, Locked, s');
    PlacesPut(s, t, Locked, s');
  }

  lemma SettleCounts(s: State, t: nat)
    requires Counters(s) && Conserved(s) && t < |s.threads| && s.threads[t].Reporting?
    ensures Counters(Settle(s, t)) && Conserved(Settle(s, t)) && Settle(s, t).nTodo >= |s.queue|
  {
    var s' := Settle(s, t);
    CountersPut(s, t, Locked, s');
    SumsPut(s.threads, t, Locked);
    CancelSame(Pending(s.threads), multiset{}, Pending(s'.threads));
    NonNegative(s');
  }

  lemma SettleVerdicts(s: State, t: nat)
    requires Verdicts(s) && t < |s.threads| && s.threads[t].Reporting?
    ensures Verdicts(Settle(s, t))
  {
    var s' := Settle(s, t);
    if Clean(s') {
      forall k | 0 <= k < |s.threads| && Holds(s.threads[k]) ensures s.threads[k].fOk == Yes {
        if k != t { assert s'.threads[k] == s.threads[k]; }
      }
    }
  }

  lemma DrainKeeps(s: State)
    requires Counters(s) && Conserved(s) && Verdicts(s)
    ensures Counters(Drain(s)) && Conserved(Drain(s)) && Verdicts(Drain(s))
  {
    if s.canceled {
      QueueToSkipped(multiset(s.queue), Pending(s.threads), multiset(Ids(s.log)), s.skipped);
      assert Clean(Drain(s)) ==> Clean(s);
    }
  }

  lemma RingKeeps(s: State, t: nat)
    requires |s.threads| > 0 && Counters(s) && Conserved(s) && Verdicts(s)
    ensures Counters(Ring(s, t)) && Conserved(Ring(s, t)) && Verdicts(Ring(s, t))
  {
    if s.nTodo == 0 && t != 0 {
      var ts := s.threads[0 := Notified(s.threads[0])];
      WokenCounters(s, ts);
      WokenClean(s, ts);
    }
  }

  lemma ReportPlaces(s: State, t: nat)
    requires Places(s) && MutexFree(s) && t < |s.threads| && s.threads[t].Reporting? && s.nTodo > 0
    requires Drain(Settle(s, t)).nTodo >= 0
    ensures Places(Ring(Drain(Settle(s, t)), t))
  {
    var s2 := Drain(Settle(s, t));
    if s2.nTodo == 0 && t != 0 {
      assert s.threads[0].Asleep? ==> s.queue == [];
      assert MasterOk(Ring(s2, t));
    } else {
      PlacesPut(s, t, Locked, s2);
    }
  }

  lemma ReportKeeps(s: State, t: nat)
    requires Inv(s) && MutexFree(s) && t < |s.threads| && s.threads[t].Reporting?
    ensures Inv(Report(s, t))
  {
    SettleCounts(s, t);
    SettleVerdicts(s, t);
    DrainKeeps(Settle(s, t));
    var s2 := Drain(Settle(s, t));
    NonNegative(s2);
    if s.nTodo == 0 { NothingHeld(s); }
    NonNegative(s);
    ReportPlaces(s, t);
    RingKeeps(s2, t);
  }

  /******* The rest of the critical section *******/

  lemma ReturnKeeps(s: State)
    requires Inv(s) && s.threads[0].Locked? && s.queue == [] && s.nTodo == 0 && s.nTotal >= 0 && s.nIdle >= 0
    ensures Inv(Proceed(s, 0))
  {
    NothingHeld(s);
    var s' := Proceed(s, 0);
    var s1 := s'.(fAllOk := s.fAllOk);
    Moved(s, 0, Leaving, s1);
    PlacesPut(s, 0, Leaving, s');
    assert Clean(s) <==> s.fAllOk == Yes;
    assert !s.canceled && s.fAllOk == Yes ==> multiset(Ids(s.log)) == multiset(Numbers(0, s.added));
  }

  lemma SleepKeeps(s: State, t: nat)
    requires Inv(s) && t < |s.threads| && s.threads[t].Locked? && s.queue == [] && (t != 0 || s.nTodo != 0)
    ensures Inv(s.(nIdle := s.nIdle + 1, mutex := None, threads := s.threads[t := Asleep(false)]))
  {
    var s' := s.(nIdle := s.nIdle + 1, mutex := None, threads := s.threads[t := Asleep(false)]);
    NonNegative(s);
    Moved(s, t, Asleep(false), s');
    PlacesPut(s, t, Asleep(false), s');
  }

  lemma TakeConserves(s: State, t: nat)
    requires Conserved(s)
    requires s.nTotal >= 0 && s.nIdle >= 0 && t < |s.threads| && s.threads[t].Locked? && s.queue != []
    ensures Conserved(Take(s, t))
  {
    var s' := Take(s, t);
    var n := BatchOf(s);
    SumsPut(s.threads, t, Working(n, s.queue[..n], s.fAllOk));
    assert s.queue == s.queue[..n] + s.queue[n..];
    var m := multiset(s.queue[..n]);
    CancelMoved(Pending(s'.threads), m, Pending(s.threads), multiset{}, m);
    QueueToPending(multiset(s'.queue), Pending(s.threads), multiset(Ids(s.log)), s.skipped, m);
    assert multiset(s.queue) == multiset(s'.queue) + m;
  }

  lemma TakeKeeps(s: State, t: nat)
    requires Inv(s) && s.nTotal >= 0 && s.nIdle >= 0 && t < |s.threads| && s.threads[t].Locked? && s.queue != []
    ensures Inv(Take(s, t))
  {
    TakeConserves(s, t);
    var n := BatchOf(s);
    var th := Working(n, s.queue[..n], s.fAllOk);
    CountersPut(s, t, th, Take(s, t));
    VerdictsPut(s, t, th, Take(s, t));
    NonNegative(s);
    PlacesPut(s, t, th, Take(s, t));
  }

  /******* Running a batch *******/

  lemma DoneKeeps(s: State, t: nat)
    requires Inv(s) && t < |s.threads| && s.threads[t].Working? && s.threads[t].left == []
    ensures Inv(Put(s, t, Reporting(s.threads[t].nNow, s.threads[t].fOk)))
  {
    var th := Reporting(s.threads[t].nNow, s.threads[t].fOk);
    var s' := Put(s, t, th);
    CountersPut(s, t, th, s');
    VerdictsPut(s, t, th, s');
    PlacesPut(s, t, th, s');
    SumsPut(s.threads, t, th);
    CancelSame(Pending(s.threads), multiset{}, Pending(s'.threads));
  }

  lemma GoKeeps(s: State, t: nat)
    requires Inv(s) && t < |s.threads| && s.threads[t].Working? && s.threads[t].left != [] && s.threads[t].fOk == Yes
    ensures var w := s.threads[t]; Inv(Put(s, t, Running(w.nNow, w.left[0], w.left[1..], w.fOk)))
  {
    var w := s.threads[t];
    var th := Running(w.nNow, w.left[0], w.left[1..], w.fOk);
    var s' := Put(s, t, th);
    CountersPut(s, t, th, s');
    VerdictsPut(s, t, th, s');
    PlacesPut(s, t, th, s');
    SumsPut(s.threads, t, th);
    assert w.left == [w.left[0]] + w.left[1..];
    assert Held(th) == Held(w);
    CancelSame(Pending(s.threads), Held(w), Pending(s'.threads));
  }

  lemma GiveUpConserves(s: State, t: nat)
    requires Conserved(s) && t < |s.threads| && s.threads[t].Working?
    ensures Conserved(GiveUp(s, t))
  {
    var w := s.threads[t];
    var p, p', m := Pending(s.threads), Pending(GiveUp(s, t).threads), multiset(w.left);
    SumsPut(s.threads, t, Reporting(w.nNow, w.fOk));
    CancelMoved(p, m, p', multiset{}, m);
    PendingToSkipped(multiset(s.queue), p', multiset(Ids(s.log)), s.skipped, m);
  }

  lemma GiveUpKeeps(s: State, t: nat)
    requires Inv(s) && t < |s.threads| && s.threads[t].Working? && (s.threads[t].fOk != Yes || s.canceled)
    ensures Inv(GiveUp(s, t))
  {
    var th := Reporting(s.threads[t].nNow, s.threads[t].fOk);
    var s' := GiveUp(s, t);
    CountersPut(s, t, th, s');
    VerdictsPut(s, t, th, s');
    PlacesPut(s, t, th, s');
    GiveUpConserves(s, t);
  }

  lemma FinishConserves(s: State, t: nat, v: Verdict)
    requires Conserved(s) && t < |s.threads| && s.threads[t].Running?
    ensures Conserved(Finish(s, t, v))
  {
    var c, left := s.threads[t].check, s.threads[t].left;
    var p, p' := Pending(s.threads), Pending(Finish(s, t, v).threads);
    SumsPut(s.threads, t, Working(s.threads[t].nNow, left, v));
    assert Ids(Finish(s, t, v).log) == Ids(s.log) + [c];
    CancelMoved(p, multiset{c} + multiset(left), p', multiset(left), multiset{c});
    PendingToRun(multiset(s.queue), p', multiset(Ids(s.log)), s.skipped, multiset{c});
  }

  lemma LoggedGrows(log: seq<Outcome>, o: Outcome, v: Verdict)
    ensures Logged(log + [o], o.verdict)
    ensures Logged(log, v) ==> Logged(log + [o], v)
  {
    assert (log + [o])[|log|] == o;
    if Logged(log, v) {
      var i :| 0 <= i < |log| && log[i].verdict == v;
      assert (log + [o])[i].verdict == v;
    }
  }

  lemma FinishVerdicts(s: State, t: nat, v: Verdict)
    requires Verdicts(s) && t < |s.threads| && s.threads[t].Running? && BatchOk(s.threads[t])
    ensures Verdicts(Finish(s, t, v))
  {
    var s' := Finish(s, t, v);
    var o := Outcome(s.threads[t].check, v);
    LoggedGrows(s.log, o, No);
    LoggedGrows(s.log, o, Empty);
    if Clean(s') {
      assert Holds(s'.threads[t]);
      forall k | 0 <= k < |s.threads| && Holds(s.threads[k]) ensures s.threads[k].fOk == Yes {
        assert Holds(s'.threads[k]);
      }
    }
  }

  lemma FinishKeeps(s: State, t: nat, v: Verdict)
    requires Inv(s) && t < |s.threads| && s.threads[t].Running?
    ensures Inv(Finish(s, t, v))
  {
    var s' := Finish(s, t, v);
    var th := Working(s.threads[t].nNow, s.threads[t].left, v);
    CountersPut(s, t, th, s');
    FinishConserves(s, t, v);
    FinishVerdicts(s, t, v);
    PlacesPut(s, t, th, s');
    if s.nTodo == 0 { NothingHeld(s); }
  }

  /******* Theorems *******/

  lemma AcquireKeeps(s: State, t: nat)
    requires Inv(s) && s.nTotal >= 0 && s.nIdle >= 0 && Enabled(s, Acquire(t))
    ensures Inv(After(s, Acquire(t)))
  {
    if s.threads[t].Reporting? {
      ReportKeeps(s, t);
    } else if s.threads[t].Asleep? {
      WakeKeeps(s, t);
    } else {
      EnterKeeps(s, t);
    }
  }

  lemma DispatchKeeps(s: State, t: nat)
    requires Inv(s) && s.nTotal >= 0 && s.nIdle >= 0 && Enabled(s, Dispatch(t))
    ensures Inv(After(s, Dispatch(t)))
  {
    if s.queue != [] {
      TakeKeeps(s, t);
    } else if t == 0 && s.nTodo == 0 {
      ReturnKeeps(s);
    } else {
      SleepKeeps(s, t);
    }
  }

  lemma LookKeeps(s: State, t: nat)
    requires Inv(s) && t < |s.threads| && s.threads[t].Working?
    ensures Inv(Look(s, t))
  {
    if s.threads[t].left == [] {
      DoneKeeps(s, t);
    } else if s.threads[t].fOk != Yes || s.canceled {
      GiveUpKeeps(s, t);
    } else {
      GoKeeps(s, t);
    }
  }

  lemma StepKeeps(s: State, e: Event)
    requires Inv(s) && Enabled(s, e)
    ensures s.nTotal >= 0 && s.nIdle >= 0 && Inv(After(s, e))
  {
    NonNegative(s);
    match e
    case Cancel => CancelKeeps(s);
    case StartSession => StartSessionKeeps(s);
    case OpenSession(pre) => OpenSessionKeeps(s, pre);
    case Add(count, wakes) => AddKeeps(s, count, wakes);
    case CallWait => CallWaitKeeps(s);
    case Acquire(t) => AcquireKeeps(s, t);
    case Dispatch(t) => DispatchKeeps(s, t);
    case ReadToken(t) => LookKeeps(s, t);
    case RunCheck(t, v) => FinishKeeps(s, t, v);
    case Leave => LeaveKeeps(s);
  }

  // A state reached from a new queue by any interleaving of steps.
  ghost predicate Reaches(s: State, events: seq<Event>, s': State)
    decreases |events|
  {
    if events == [] then s == s'
    else
      && |s.threads| > 0 && s.nTotal >= 0 && s.nIdle >= 0 && Enabled(s, events[0])
      && Reaches(After(s, events[0]), events[1..], s')
  }

  ghost predicate Reachable(s: State) {
    exists nBatchSize: nat, workers: nat, events :: Reaches(Initial(nBatchSize, workers), events, s)
  }

  lemma {:induction false} RunKeeps(s: State, events: seq<Event>, s': State)
    requires Inv(s) && Reaches(s, events, s')
    ensures Inv(s')
    decreases |events|
  {
    if events != [] {
      StepKeeps(s, events[0]);
      RunKeeps(After(s, events[0]), events[1..], s');
    }
  }

  lemma {:induction false} SumZero(ts: seq<Thread>, n: nat, f: Thread -> int)
    requires n <= |ts| && forall t | 0 <= t < n :: f(ts[t]) == 0
    ensures SumTo(ts, n, f) == 0
  {
    if n > 0 { SumZero(ts, n - 1, f); }
  }

  lemma InitialInv(nBatchSize: nat, workers: nat)
    ensures Inv(Initial(nBatchSize, workers))
  {
    var s := Initial(nBatchSize, workers);
    SumZero(s.threads, |s.threads|, Now);
    SumZero(s.threads, |s.threads|, Sleeps);
    SumZero(s.threads, |s.threads|, Counted);
    PendingEmpty(s.threads, |s.threads|);
    assert Numbers(0, 0) == [];
  }

  lemma ReachableInv(s: State)
    requires Reachable(s)
    ensures Inv(s)
  {
    var nBatchSize: nat, workers: nat, events :| Reaches(Initial(nBatchSize, workers), events, s);
    InitialInv(nBatchSize, workers);
    RunKeeps(Initial(nBatchSize, workers), events, s);
  }

  // Wait answers true only when the token was not cancelled and every check of
  // the session ran exactly once and returned true; false only when some check
  // returned false; empty only when it was cancelled or some check returned empty; and
  // without cancellation and failing checks nothing but true.
  lemma WaitAnswers(s: State)
    requires Reachable(s) && s.answer.Some?
    ensures var a := s.answer.value;
            && (a.result == Yes ==> !a.sawCancel && forall id: CheckId | id < s.added :: RanOnceTrue(s.log, id))
            && (a.result == No ==> !a.sawCancel && Logged(s.log, No))
            && (a.result == Empty ==> a.sawCancel || Logged(s.log, Empty))
            && (a.sawCancel ==> a.result == Empty)
            && (!a.sawCancel && AllTrue(s.log) ==> a.result == Yes)
  {
    ReachableInv(s);
    if s.answer.value.result == Yes {
      forall id: CheckId | id < s.added ensures RanOnceTrue(s.log, id) {
        NumbersOnce(s.added, id);
      }
    }
  }

  ghost predicate RanOnceTrue(log: seq<Outcome>, id: CheckId) {
    multiset(Ids(log))[id] == 1 && forall i | 0 <= i < |log| && log[i].id == id :: log[i].verdict == Yes
  }

  lemma {:induction false} NumbersOnce(n: nat, id: CheckId)
    ensures multiset(Numbers(0, n))[id] == if id < n then 1 else 0
  {
    if n > 0 {
      NumbersOnce(n - 1, id);
      assert Numbers(0, n) == Numbers(0, n - 1) + [n - 1];
    } else {
      assert Numbers(0, 0) == [];
    }
  }

  // No check is ever run twice, whatever the result.
  lemma NoCheckRunsTwice(s: State, id: CheckId)
    requires Reachable(s)
    ensures multiset(Ids(s.log))[id] <= 1
    ensures multiset(Ids(s.log))[id] == 1 ==> id < s.added
  {
    ReachableInv(s);
    NumbersOnce(s.added, id);
    assert multiset(Numbers(0, s.added))[id] ==
           (multiset(s.queue) + Pending(s.threads) + multiset(Ids(s.log)) + s.skipped)[id];
  }

  function Holding(th: Thread): int {
    if Holds(th) then 1 else 0
  }

  lemma {:induction false} AwakeHolds(ts: seq<Thread>, n: nat)
    requires n <= |ts|
    requires forall t | 0 <= t < n :: !ts[t].Locked? && !ts[t].Leaving?
    ensures SumTo(ts, n, Counted) - SumTo(ts, n, Sleeps) == SumTo(ts, n, Holding)
  {
    if n > 0 { AwakeHolds(ts, n - 1); }
  }

  // With the mutex free, the work left is the queue and the batches in flight,
  // and nTotal - nIdle is the number of batch holders (the master counting
  // once more between deciding its result and leaving).
  lemma CountersExact(s: State)
    requires Reachable(s) && MutexFree(s)
    ensures s.nTodo == |s.queue| + Sum(s.threads, Now)
    ensures |s.threads| > 0 && s.nTotal - s.nIdle == Sum(s.threads, Holding) + (if s.threads[0].Leaving? then 1 else 0)
  {
    ReachableInv(s);
    if s.threads[0].Leaving? {
      var ts := s.threads[0 := Off];
      SumToPut(s.threads, |s.threads|, 0, Off, Counted);
      SumToPut(s.threads, |s.threads|, 0, Off, Sleeps);
      SumToPut(s.threads, |s.threads|, 0, Off, Holding);
      AwakeHolds(ts, |ts|);
    } else {
      AwakeHolds(s.threads, |s.threads|);
    }
  }

  // Once Wait has returned the queue is idle, so a new session can be opened.
  lemma IdleAfterWait(s: State)
    requires Reachable(s) && |s.threads| > 0 && s.threads[0].Off? && s.waitCalled && MutexFree(s)
    ensures IsIdle(s) && Enabled(s, StartSession)
  {
    ReachableInv(s);
    CountersExact(s);
    NothingHeld(s);
    SumZero(s.threads, |s.threads|, Holding);
  }

  // No lost wake-up: a master asleep without a notification is waiting for a
  // worker that still holds a batch.
  lemma NoLostWakeUp(s: State) returns (t: nat)
    requires Reachable(s) && |s.threads| > 0 && s.threads[0] == Asleep(false)
    ensures 0 < t < |s.threads| && Holds(s.threads[t]) && s.queue == []
  {
    ReachableInv(s);
    t := SumPositive(s.threads, |s.threads|, Now);
  }

  /******* Wait terminates *******/

  function Weight(th: Thread): int {
    match th
    case Asleep(notified) => if notified then 3 else 0
    case Leaving => 1
    case Locked => 2
    case Reporting(_, _) => 6
    case Working(_, left, _) => 2 * |left| + 7
    case Running(_, _, left, _) => 2 * |left| + 8
    case _ => 3
  }

  // An upper bound on the steps still to be taken before Wait decides.
  function Effort(s: State): int {
    8 * |s.queue| + Sum(s.threads, Weight)
  }

  predicate InWait(s: State)
    requires |s.threads| > 0
  {
    !s.threads[0].Off? && !s.threads[0].Opening? && !s.threads[0].Leaving?
  }

  // A wake-up nobody asked for, or a cancellation from outside.
  predicate Idles(s: State, e: Event)
    requires |s.threads| > 0 && Enabled(s, e)
  {
    e.Cancel? || (e.Acquire? && s.threads[e.t] == Asleep(false))
  }

  lemma WeightPut(s: State, t: nat, th: Thread)
    requires t < |s.threads|
    ensures Sum(s.threads[t := th], Weight) == Sum(s.threads, Weight) - Weight(s.threads[t]) + Weight(th)
  {
    SumToPut(s.threads, |s.threads|, t, th, Weight);
  }

  lemma ReportProgress(s: State, t: nat)
    requires t < |s.threads| && s.threads[t].Reporting?
    ensures Effort(Report(s, t)) < Effort(s)
  {
    WeightPut(s, t, Locked);
    var s2 := Drain(Settle(s, t));
    WeightPut(s2, 0, Notified(s2.threads[0]));
  }

  lemma DispatchProgress(s: State, t: nat)
    requires t < |s.threads| && s.threads[t].Locked? && s.nTotal >= 0 && s.nIdle >= 0
    ensures Effort(Proceed(s, t)) < Effort(s)
  {
    if s.queue != [] {
      var n := BatchOf(s);
      WeightPut(s, t, Working(n, s.queue[..n], s.fAllOk));
    } else {
      WeightPut(s, t, Leaving);
      WeightPut(s, t, Asleep(false));
    }
  }

  lemma LookProgress(s: State, t: nat)
    requires t < |s.threads| && s.threads[t].Working?
    ensures Effort(Look(s, t)) < Effort(s)
  {
    var w := s.threads[t];
    WeightPut(s, t, Reporting(w.nNow, w.fOk));
    if w.left != [] {
      WeightPut(s, t, Running(w.nNow, w.left[0], w.left[1..], w.fOk));
    }
  }

  // While the master is in Wait every step that does anything brings it closer.
  lemma WaitProgress(s: State, e: Event)
    requires |s.threads| > 0 && s.nTotal >= 0 && s.nIdle >= 0 && InWait(s) && Enabled(s, e)
    ensures !Idles(s, e) ==> Effort(After(s, e)) < Effort(s)
    ensures Idles(s, e) ==> Effort(After(s, e)) <= Effort(s) + 2
  {
    match e
    case Acquire(t) => if s.threads[t].Reporting? { ReportProgress(s, t); } else { WeightPut(s, t, Locked); }
    case Dispatch(t) => DispatchProgress(s, t);
    case ReadToken(t) => LookProgress(s, t);
    case RunCheck(t, v) => WeightPut(s, t, Working(s.threads[t].nNow, s.threads[t].left, v));
    case _ =>
  }

  // ... and some such step can always be taken.
  lemma WaitNeverStuck(s: State) returns (e: Event)
    requires Reachable(s) && |s.threads| > 0 && InWait(s)
    ensures Enabled(s, e) && !Idles(s, e)
  {
    ReachableInv(s);
    var t: nat := 0;
    if s.mutex.Some? {
      return Dispatch(s.mutex.value);
    }
    if s.threads[0] == Asleep(false) {
      t := NoLostWakeUp(s);
    }
    if s.threads[t].Working? {
      return ReadToken(t);
    } else if s.threads[t].Running? {
      return RunCheck(t, Yes);
    } else {
      return Acquire(t);
    }
  }

  // The steps of a run inside one Wait that do nothing for it.
  function IdleSteps(s: State, events: seq<Event>): nat
    requires |events| > 0 ==> |s.threads| > 0
    decreases |events|
  {
    if events == [] || s.nTotal < 0 || s.nIdle < 0 || !Enabled(s, events[0]) then 0
    else
      (if Idles(s, events[0]) then 1 else 0) +
      var s1 := After(s, events[0]);
      if |s1.threads| == 0 then 0 else IdleSteps(s1, events[1..])
  }

  ghost predicate StaysInWait(s: State, events: seq<Event>)
    decreases |events|
  {
    && |s.threads| > 0
    && (events != [] ==>
          && s.nTotal >= 0 && s.nIdle >= 0 && InWait(s) && Enabled(s, events[0])
          && StaysInWait(After(s, events[0]), events[1..]))
  }

  // The steps of any run inside one Wait are bounded by the work there is, up to
  // spurious wake-ups and cancellations.
  lemma {:induction false} WaitBounded(s: State, events: seq<Event>)
    requires StaysInWait(s, events)
    ensures |events| <= Effort(s) + 3 * IdleSteps(s, events)
    decreases |events|
  {
    if events == [] {
      var _ := SumPositive(s.threads, |s.threads|, Weight);
    } else {
      WaitProgress(s, events[0]);
      WaitBounded(After(s, events[0]), events[1..]);
    }
  }

  // Every completed batch lowers the work left.
  lemma ReportLowersTodo(s: State, t: nat)
    requires Reachable(s) && |s.threads| > 0 && Enabled(s, Acquire(t)) && s.threads[t].Reporting?
    ensures s.threads[t].nNow >= 1 && 0 <= Report(s, t).nTodo <= s.nTodo - s.threads[t].nNow
  {
    ReachableInv(s);
    SettleCounts(s, t);
    assert BatchOk(s.threads[t]);
  }
}
