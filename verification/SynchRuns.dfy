/** What holds in every reachable state and along every run of the step machine. */
module SynchRuns {
  import opened Common
  import opened Synch
  import opened SynchInvariant

  // ---- whole runs ----

  /** After thread_start: everyone is outside synch.c, all semaphores are as initialised. */
  ghost predicate Init(st: State) {
    && RunQueueOk(st.cur, st.idle, st.ready, st.status)
    && (forall t | t in st.status && t != st.idle :: st.status[t] != Blocked)
    && (forall t :: t in st.pcs <==> t in st.status) && (forall t | t in st.pcs :: st.pcs[t] == User)
    && (forall s | s in st.semas :: var m := st.semas[s]; m == Sema(m.init, [], m.init, 0, 0, {}))
    && (forall l | l in st.holder :: LockExists(st, l) && st.semas[OfLock(l)].init == 1 && st.holder[l] == None
            && st.owner[l] == None)
    && (forall c | c in st.conds :: CondExists(st, c) && st.conds[c] == [])
  }

  lemma InitInv(st: State)
    requires Init(st)
    ensures Inv(st)
  {
  }

  /** The events ES lead from ST to ST'. */
  ghost predicate Run(st: State, es: seq<Event>, st': State)
    decreases |es|
  {
    if es == [] then st == st' else
      && st.cur in st.pcs && PcOk(st, st.cur, st.pcs[st.cur]) && Enabled(st, es[0])
      && Run(Step(st, es[0]), es[1..], st')
  }

  ghost predicate Reachable(st: State) {
    exists st0, es :: Init(st0) && Run(st0, es, st)
  }

  lemma {:induction false} RunKeepsInv(st: State, es: seq<Event>, st': State)
    requires Inv(st) && Run(st, es, st')
    ensures Inv(st')
    decreases |es|
  {
    if es != [] {
      StepKeepsInv(st, es[0]);
      RunKeepsInv(Step(st, es[0]), es[1..], st');
    }
  }

  lemma ReachableInv(st: State)
    requires Reachable(st)
    ensures Inv(st)
  {
    var st0, es :| Init(st0) && Run(st0, es, st);
    InitInv(st0);
    RunKeepsInv(st0, es, st);
  }

  /** In every reachable state a thread's `elem` is in at most one list: the run queue holds
      READY threads, a semaphore's waiters are BLOCKED (so thread_unblock's assertion in
      sema_up holds), no list has a thread twice, and no thread is in two wait lists. */
  lemma ElemInOneList(st: State, t: Tid, r: SemaId, s: SemaId)
    requires Reachable(st) && r in st.semas && s in st.semas
    ensures NoRepeats(st.ready) && NoRepeats(st.semas[s].waiters)
    ensures t in st.ready ==> t in st.status && st.status[t] == Ready && t !in st.semas[s].waiters
    ensures t in st.semas[s].waiters ==> t in st.status && st.status[t] == Blocked && t !in st.ready
    ensures t in st.semas[r].waiters && t in st.semas[s].waiters ==> r == s
  {
    ReachableInv(st);
    assert SemaOk(st.status, st.pcs, st.idle, r, st.semas[r]) && SemaOk(st.status, st.pcs, st.idle, s, st.semas[s]);
  }

  /** No lost wakeup.  The value is the initial value plus completed ups minus completed
      downs, and while some thread waits, at least `value` other threads have been woken,
      are not blocked, and have yet to retest the value. */
  lemma NoLostWakeup(st: State, s: SemaId)
    requires Reachable(st) && s in st.semas
    ensures var m := st.semas[s];
            && m.value + m.downs == m.init + m.ups
            && (m.waiters != [] ==> m.value <= |m.woken|)
            && forall t | t in m.woken :: t in st.pcs && t in st.status && st.status[t] != Blocked
                  && DownOn(t, st.pcs[t]) == Some(s)
  {
    ReachableInv(st);
    assert SemaOk(st.status, st.pcs, st.idle, s, st.semas[s]);
  }

  /** T is past lock_acquire's sema_down on L and before lock_release's sema_up. */
  predicate Inside(st: State, t: Tid, l: Lid) {
    (t in st.pcs && PassLock(st.pcs[t]) == Some(l)) || (l in st.holder && st.holder[l] == Some(t))
  }

  /** Mutual exclusion, with preemption possible between every semaphore operation and the
      assignment to `holder` next to it. */
  lemma MutualExclusion(st: State, t: Tid, u: Tid, l: Lid)
    requires Reachable(st) && Inside(st, t, l) && Inside(st, u, l)
    ensures t == u
  {
    ReachableInv(st);
    InsideOwns(st, t, l);
    InsideOwns(st, u, l);
  }

  lemma InsideOwns(st: State, t: Tid, l: Lid)
    requires LocksOk(st) && Inside(st, t, l)
    ensures l in st.owner && st.owner[l] == Some(t)
  {
    assert t in st.pcs ==> PcOk(st, t, st.pcs[t]);
    assert l in st.holder && LockOk(st.pcs, l, st.semas[OfLock(l)], st.holder[l], st.owner[l]);
  }

  /** The lists inside condition variables of one lock are never worked on by two threads. */
  lemma CondListsExclusive(st: State, t: Tid, u: Tid, l: Lid)
    requires Reachable(st) && t in st.pcs && u in st.pcs
    requires RelyLock(st.pcs[t]) == Some(l) && RelyLock(st.pcs[u]) == Some(l)
    ensures t == u
  {
    ReachableInv(st);
    RelyingHolds(st, t, l);
    RelyingHolds(st, u, l);
  }

  /** A thread that is about to acquire a lock, directly or at the end of cond_wait, does not hold
      it: lock_acquire's assertion. */
  lemma AcquiresNotHeld(st: State, t: Tid, l: Lid)
    requires Reachable(st) && t in st.pcs && WantLock(st.pcs[t]) == Some(l)
    ensures l in st.holder && st.holder[l] != Some(t)
  {
    ReachableInv(st);
    WantingHoldsNot(st, t, l);
  }

  lemma WantingHoldsNot(st: State, t: Tid, l: Lid)
    requires LocksOk(st) && t in st.pcs && WantLock(st.pcs[t]) == Some(l)
    ensures l in st.holder && st.holder[l] != Some(t)
  {
    assert PcOk(st, t, st.pcs[t]);
    assert LockOk(st.pcs, l, st.semas[OfLock(l)], st.holder[l], st.owner[l]);
  }

  lemma RelyingHolds(st: State, t: Tid, l: Lid)
    requires LocksOk(st) && t in st.pcs && RelyLock(st.pcs[t]) == Some(l)
    ensures l in st.holder && st.holder[l] == Some(t)
  {
    assert PcOk(st, t, st.pcs[t]);
    assert LockOk(st.pcs, l, st.semas[OfLock(l)], st.holder[l], st.owner[l]);
  }

  // ---- the run queue is first in, first out ----

  /** What one step does to the run queue: it may grow at the back, and schedule takes the front. */
  predicate QueueMoves(st: State, st': State) {
    if st'.dispatches == st.dispatches then st.ready <= st'.ready
    else
      && st'.dispatches == st.dispatches + 1
      && (st.ready != [] ==> st'.cur == st.ready[0] && st.ready[1..] <= st'.ready)
  }

  lemma DownMoves(st: State, s: SemaId, next: PC)
    requires s in st.semas
    ensures QueueMoves(st, Down(st, s, next))
  {
  }

  lemma TryMoves(st: State, s: SemaId, next: PC)
    requires s in st.semas
    ensures QueueMoves(st, TryDown(st, s, next))
  {
  }

  lemma UpMoves(st: State, s: SemaId)
    requires s in st.semas
    ensures QueueMoves(st, Up(st, s))
  {
  }

  lemma ExecuteQueue(st: State)
    requires st.cur in st.pcs && PcOk(st, st.cur, st.pcs[st.cur])
    ensures QueueMoves(st, Execute(st))
  {
    match st.pcs[st.cur]
    case SemaDown(s) => DownMoves(st, Plain(s), User);
    case SemaTry(s) => TryMoves(st, Plain(s), User);
    case SemaUp(s) => UpMoves(st, Plain(s));
    case AcqDown(l) => DownMoves(st, OfLock(l), AcqSet(l));
    case AcqTry(l) => TryMoves(st, OfLock(l), AcqSet(l));
    case RelUp(l) => UpMoves(st, OfLock(l));
    case WaitUp(c) => UpMoves(st, OfLock(c.lock));
    case WaitDown(c) => DownMoves(st, Waiter(st.cur), WaitAcq(c));
    case WaitAcq(c) => DownMoves(st, OfLock(c.lock), WaitSet(c));
    case SigUp(c, u, _) => UpMoves(st, Waiter(u));
    case _ =>
  }

  lemma StepQueue(st: State, e: Event)
    requires st.cur in st.pcs && PcOk(st, st.cur, st.pcs[st.cur]) && Enabled(st, e)
    ensures QueueMoves(st, Step(st, e))
  {
    match e
    case Exec => ExecuteQueue(st);
    case IntrUp(s) => UpMoves(st, Plain(s));
    case _ =>
  }

  /** A thread at position k of the run queue is at position k - d after d calls of schedule, ... */
  lemma {:induction false} QueuePosition(st: State, es: seq<Event>, st': State, k: nat)
    requires Run(st, es, st') && k < |st.ready|
    ensures st.dispatches <= st'.dispatches
    ensures st'.dispatches - st.dispatches <= k ==>
              var i := k - (st'.dispatches - st.dispatches); i < |st'.ready| && st'.ready[i] == st.ready[k]
    decreases |es|
  {
    if es != [] {
      var mid := Step(st, es[0]);
      StepQueue(st, es[0]);
      if mid.dispatches == st.dispatches {
        QueuePosition(mid, es[1..], st', k);
      } else if k > 0 {
        assert st.ready[1..][k - 1] == st.ready[k];
        QueuePosition(mid, es[1..], st', k - 1);
      } else {
        DispatchesGrow(mid, es[1..], st');
      }
    }
  }

  lemma {:induction false} DispatchesGrow(st: State, es: seq<Event>, st': State)
    requires Run(st, es, st')
    ensures st.dispatches <= st'.dispatches
    decreases |es|
  {
    if es != [] {
      StepQueue(st, es[0]);
      DispatchesGrow(Step(st, es[0]), es[1..], st');
    }
  }

  /** ... so it is dispatched at exactly the (k+1)-th later call of schedule. */
  lemma DispatchedInTurn(st: State, es: seq<Event>, mid: State, e: Event, k: nat)
    requires Run(st, es, mid) && k < |st.ready| && mid.dispatches == st.dispatches + k
    requires mid.cur in mid.pcs && PcOk(mid, mid.cur, mid.pcs[mid.cur]) && Enabled(mid, e)
    requires Step(mid, e).dispatches > mid.dispatches
    ensures Step(mid, e).cur == st.ready[k]
  {
    hide Step, Enabled, Run, PcOk;
    QueuePosition(st, es, mid, k);
    StepQueue(mid, e);
  }

  // ---- cond_signal releases the longest-waiting waiter ----

  /** T, inside cond_wait on C, has been signalled: its semaphore is up and it is not asleep. */
  ghost predicate Signalled(st: State, c: Cond, t: Tid) {
    && t in st.pcs && st.pcs[t] == WaitDown(c) && c in st.conds && t !in st.conds[c]
    && Waiter(t) in st.semas && st.semas[Waiter(t)].value == 1 && t !in st.semas[Waiter(t)].waiters
  }

  lemma OnlySelfWaits(status: map<Tid, Status>, pcs: map<Tid, PC>, idle: Tid, t: Tid, m: Sema)
    requires SemaOk(status, pcs, idle, Waiter(t), m)
    ensures m.waiters == [] || m.waiters == [t]
  {
    FirstTwo(m.waiters);
    forall u | u in m.waiters ensures u == t {
      assert DownOn(u, pcs[u]) == Some(Waiter(t));
    }
    assert m.waiters != [] ==> m.waiters[0] in m.waiters && m.waiters == [m.waiters[0]];
  }

  lemma FirstTwo(s: seq<Tid>)
    requires NoRepeats(s)
    ensures |s| > 1 ==> s[0] in s && s[1] in s && s[0] != s[1]
  {
    assert Differ(s, 0, 1);
  }

  /** The sema_up in cond_signal releases the waiter taken off the queue, whether or not it sleeps
      yet, and leaves the queues and every other semaphore alone. */
  lemma SignalReleasesTarget(st: State, c: Cond, t: Tid, all: bool)
    requires Reachable(st) && st.cur in st.pcs && st.pcs[st.cur] == SigUp(c, t, all)
    ensures PcOk(st, st.cur, st.pcs[st.cur])
    ensures var up := Execute(st);
            && Signalled(up, c, t) && up.conds == st.conds
            && forall s | s in st.semas && s != Waiter(t) :: s in up.semas && up.semas[s] == st.semas[s]
  {
    hide Execute, Signalled;
    ReachableInv(st);
    UpReleasesTarget(st, c, t, all);
  }

  lemma UpReleasesTarget(st: State, c: Cond, t: Tid, all: bool)
    requires SemasOk(st) && CondsOk(st) && st.cur in st.pcs && st.pcs[st.cur] == SigUp(c, t, all)
             && PcOk(st, st.cur, st.pcs[st.cur])
    ensures var up := Execute(st);
            && Signalled(up, c, t) && up.conds == st.conds
            && forall s | s in st.semas && s != Waiter(t) :: s in up.semas && up.semas[s] == st.semas[s]
  {
    hide SemasOk, CondsOk, PcOk, Execute, Up, Grown, SameLockValues;
    TargetKnown(st, c, t, all);
    SigUpStep(st, c, t, all);
    SignalledShape(st, c, t, if all then SigPop(c, true) else User);
  }

  lemma SigUpStep(st: State, c: Cond, t: Tid, all: bool)
    requires st.cur in st.pcs && st.pcs[st.cur] == SigUp(c, t, all) && PcOk(st, st.cur, st.pcs[st.cur])
    ensures Execute(st) == SetPc(Up(st, Waiter(t)), if all then SigPop(c, true) else User)
  {
  }

  /** The target of a signal that has been taken off the queue has not been "upped" yet. */
  lemma TargetKnown(st: State, c: Cond, t: Tid, all: bool)
    requires SemasOk(st) && CondsOk(st) && st.cur in st.pcs && st.pcs[st.cur] == SigUp(c, t, all)
    requires PcOk(st, st.cur, st.pcs[st.cur])
    ensures t in st.pcs && st.pcs[t] == WaitDown(c) && t != st.cur && CondExists(st, c) && t !in st.conds[c]
    ensures Waiter(t) in st.semas && st.semas[Waiter(t)].value == 0
    ensures st.semas[Waiter(t)].waiters == [] || st.semas[Waiter(t)].waiters == [t]
  {
    assert WaiterOk(st.pcs, st.semas, st.conds, st.cur, st.pcs[st.cur]);
    OnlySelfWaits(st.status, st.pcs, st.idle, t, st.semas[Waiter(t)]);
  }

  /** What concerns thread T at its cond_wait semaphore does not change while others run,
      unless one of them is about to "up" it. */
  ghost predicate SameFor(st: State, st': State, c: Cond, t: Tid) {
    && t in st.pcs && t in st'.pcs && st'.pcs[t] == st.pcs[t] && c in st.conds && c in st'.conds
    && (t !in st.conds[c] ==> t !in st'.conds[c])
    && Waiter(t) in st.semas && Waiter(t) in st'.semas && st'.semas[Waiter(t)] == st.semas[Waiter(t)]
  }

  lemma DownSameFor(st: State, s: SemaId, next: PC, c: Cond, t: Tid)
    requires s in st.semas && s != Waiter(t) && st.cur != t && t in st.pcs && c in st.conds && Waiter(t) in st.semas
    ensures SameFor(st, Down(st, s, next), c, t) && SameFor(st, TryDown(st, s, next), c, t)
  {
    var m := st.semas[s];
    var m' := if m.value == 0 then Slept(m, st.cur) else Taken(m, st.cur);
    assert st.semas[s := m'][Waiter(t)] == st.semas[Waiter(t)];
  }

  lemma UpSameFor(st: State, s: SemaId, next: PC, c: Cond, t: Tid)
    requires s in st.semas && s != Waiter(t) && st.cur != t && t in st.pcs && c in st.conds && Waiter(t) in st.semas
    ensures SameFor(st, SetPc(Up(st, s), next), c, t)
  {
  }

  lemma OthersLeaveAlone(st: State, c: Cond, t: Tid)
    requires st.cur in st.pcs && PcOk(st, st.cur, st.pcs[st.cur]) && st.cur != t
             && (st.pcs[st.cur].SigUp? ==> st.pcs[st.cur].t != t)
    requires t in st.pcs && c in st.conds && Waiter(t) in st.semas
    ensures SameFor(st, Execute(st), c, t)
  {
    match st.pcs[st.cur]
    case SemaDown(s) => DownSameFor(st, Plain(s), User, c, t);
    case SemaTry(s) => DownSameFor(st, Plain(s), User, c, t);
    case SemaUp(s) => UpSameFor(st, Plain(s), User, c, t);
    case AcqDown(l) => DownSameFor(st, OfLock(l), AcqSet(l), c, t);
    case AcqTry(l) => DownSameFor(st, OfLock(l), AcqSet(l), c, t);
    case RelUp(l) => UpSameFor(st, OfLock(l), User, c, t);
    case WaitUp(d) => UpSameFor(st, OfLock(d.lock), WaitDown(d), c, t);
    case WaitDown(d) => DownSameFor(st, Waiter(st.cur), WaitAcq(d), c, t);
    case WaitAcq(d) => DownSameFor(st, OfLock(d.lock), WaitSet(d), c, t);
    case SigUp(d, u, all) => UpSameFor(st, Waiter(u), if all then SigPop(d, true) else User, c, t);
    case _ =>
  }

  /** Once signalled, a waiter stays signalled until it runs, and when it runs it gets through
      its semaphore without sleeping. */
  lemma SignalledUntilItRuns(st: State, e: Event, c: Cond, t: Tid)
    requires CondsOk(st) && Signalled(st, c, t) && st.cur in st.pcs && PcOk(st, st.cur, st.pcs[st.cur])
             && Enabled(st, e)
    requires t in st.status
    ensures Signalled(Step(st, e), c, t) || (e == Exec && st.cur == t && t in Step(st, e).pcs
              && Step(st, e).pcs[t] == WaitAcq(c))
  {
    if e == Exec && st.cur != t {
      assert WaiterOk(st.pcs, st.semas, st.conds, st.cur, st.pcs[st.cur]);
      OthersLeaveAlone(st, c, t);
    }
  }

  // ---- and does so in turn, over whole runs ----

  /** The step takes a waiter off the queue of C. */
  predicate Pops(st: State, e: Event, c: Cond) {
    && e == Exec && st.cur in st.pcs && st.pcs[st.cur].SigPop? && st.pcs[st.cur].c == c
    && c in st.conds && st.conds[c] != []
  }

  ghost function PopCount(st: State, es: seq<Event>, st': State, c: Cond): nat
    requires Run(st, es, st')
    decreases |es|
  {
    if es == [] then 0 else (if Pops(st, es[0], c) then 1 else 0) + PopCount(Step(st, es[0]), es[1..], st', c)
  }

  /** T takes a step of its own inside synch.c. */
  ghost predicate Ran(st: State, es: seq<Event>, st': State, t: Tid)
    requires Run(st, es, st')
    decreases |es|
  {
    es != [] && ((es[0] == Exec && st.cur == t) || Ran(Step(st, es[0]), es[1..], st', t))
  }

  /** A condition's queue grows at the back, and signals take the front. */
  lemma CondMoves(st: State, e: Event, c: Cond)
    requires st.cur in st.pcs && PcOk(st, st.cur, st.pcs[st.cur]) && Enabled(st, e) && c in st.conds
    ensures c in Step(st, e).conds
    ensures if Pops(st, e, c) then Step(st, e).conds[c] == st.conds[c][1..] else st.conds[c] <= Step(st, e).conds[c]
  {
    hide Execute, Up;
    match e
    case Exec => ExecuteFrame(st, st.cur);
    case IntrUp(s) => UpFrame(st, Plain(s));
    case _ =>
  }

  /** What the operations on semaphores leave alone. */
  lemma DownFrame(st: State, s: SemaId, next: PC, u: Tid)
    requires s in st.semas
    ensures Down(st, s, next).conds == st.conds
    ensures u in st.pcs && u != st.cur ==> u in Down(st, s, next).pcs && Down(st, s, next).pcs[u] == st.pcs[u]
  {
  }

  lemma TryFrame(st: State, s: SemaId, next: PC, u: Tid)
    requires s in st.semas
    ensures TryDown(st, s, next).conds == st.conds
    ensures u in st.pcs && u != st.cur ==> u in TryDown(st, s, next).pcs && TryDown(st, s, next).pcs[u] == st.pcs[u]
  {
    hide Down;
    DownFrame(st, s, next, u);
  }

  lemma UpFrame(st: State, s: SemaId)
    requires s in st.semas
    ensures Up(st, s).conds == st.conds && Up(st, s).pcs == st.pcs && Up(st, s).cur == st.cur
  {
  }

  /** Only cond_wait and cond_signal change a condition's queue, and a step of one thread moves no
      other thread's program counter. */
  lemma ExecuteFrame(st: State, u: Tid)
    requires st.cur in st.pcs && PcOk(st, st.cur, st.pcs[st.cur])
    ensures Execute(st).conds == (match st.pcs[st.cur]
              case WaitPush(c) => st.conds[c := st.conds[c] + [st.cur]]
              case SigPop(c, _) => if st.conds[c] == [] then st.conds else st.conds[c := st.conds[c][1..]]
              case _ => st.conds)
    ensures u in st.pcs && u != st.cur ==> u in Execute(st).pcs && Execute(st).pcs[u] == st.pcs[u]
  {
    hide Down, TryDown, Up;
    match st.pcs[st.cur]
    case SemaDown(s) => DownFrame(st, Plain(s), User, u);
    case SemaTry(s) => TryFrame(st, Plain(s), User, u);
    case SemaUp(s) => UpFrame(st, Plain(s));
    case AcqDown(l) => DownFrame(st, OfLock(l), AcqSet(l), u);
    case AcqTry(l) => TryFrame(st, OfLock(l), AcqSet(l), u);
    case RelUp(l) => UpFrame(st, OfLock(l));
    case WaitUp(c) => UpFrame(st, OfLock(c.lock));
    case WaitDown(c) => DownFrame(st, Waiter(st.cur), WaitAcq(c), u);
    case WaitAcq(c) => DownFrame(st, OfLock(c.lock), WaitSet(c), u);
    case SigUp(c, v, _) => UpFrame(st, Waiter(v));
    case _ =>
  }

  /** The waiter at position k is at position k - p after p signals on the condition... */
  lemma {:induction false} CondPosition(st: State, es: seq<Event>, st': State, c: Cond, k: nat)
    requires Run(st, es, st') && c in st.conds && k < |st.conds[c]|
    ensures c in st'.conds
    ensures PopCount(st, es, st', c) <= k ==>
              var i := k - PopCount(st, es, st', c); i < |st'.conds[c]| && st'.conds[c][i] == st.conds[c][k]
    decreases |es|
  {
    hide Step, Enabled, PcOk, Pops;
    if es != [] {
      var mid := Step(st, es[0]);
      CondMoves(st, es[0], c);
      if !Pops(st, es[0], c) {
        CondPosition(mid, es[1..], st', c, k);
      } else if k > 0 {
        assert st.conds[c][1..][k - 1] == st.conds[c][k];
        CondPosition(mid, es[1..], st', c, k - 1);
      } else {
        CondStays(mid, es[1..], st', c);
      }
    }
  }

  lemma {:induction false} CondStays(st: State, es: seq<Event>, st': State, c: Cond)
    requires Run(st, es, st') && c in st.conds
    ensures c in st'.conds
    decreases |es|
  {
    hide Step, Enabled, PcOk, Pops;
    if es != [] {
      CondMoves(st, es[0], c);
      CondStays(Step(st, es[0]), es[1..], st', c);
    }
  }

  /** ... until then it has not got past its semaphore... */
  lemma WaitsItsTurn(st: State, es: seq<Event>, st': State, c: Cond, k: nat)
    requires Reachable(st) && Run(st, es, st') && c in st.conds && k < |st.conds[c]|
    requires PopCount(st, es, st', c) <= k
    ensures var t := st.conds[c][k]; t in st'.pcs && WaitingOn(st'.pcs[t], c)
  {
    hide Run, PopCount;
    ReachableInv(st);
    RunKeepsInv(st, es, st');
    CondPosition(st, es, st', c, k);
    QueuedWaits(st', c, k - PopCount(st, es, st', c));
  }

  lemma QueuedWaits(st: State, c: Cond, i: nat)
    requires CondsOk(st) && c in st.conds && i < |st.conds[c]|
    ensures st.conds[c][i] in st.pcs && WaitingOn(st.pcs[st.conds[c][i]], c)
  {
    assert CondOk(st.pcs, c, st.conds[c]) && st.conds[c][i] in st.conds[c];
  }

  /** ... and the (k+1)-th signal takes it, and no other, as its target. */
  lemma SignalledInTurn(st: State, es: seq<Event>, mid: State, c: Cond, k: nat)
    requires Reachable(st) && Run(st, es, mid) && c in st.conds && k < |st.conds[c]|
    requires PopCount(st, es, mid, c) == k && Pops(mid, Exec, c) && PcOk(mid, mid.cur, mid.pcs[mid.cur])
    ensures var t, popped := st.conds[c][k], Execute(mid);
            && mid.cur in popped.pcs && popped.pcs[mid.cur] == SigUp(c, t, mid.pcs[mid.cur].all)
            && t in popped.pcs && popped.pcs[t] == WaitDown(c) && c in popped.conds && t !in popped.conds[c]
  {
    hide Run, PopCount, LocksOk, CondsOk, SemasOk, ThreadsOk;
    CondPosition(st, es, mid, c, k);
    ReachableInv(st);
    RunKeepsInv(st, es, mid);
    TakenAsTarget(mid, c);
  }

  lemma TakenAsTarget(st: State, c: Cond)
    requires LocksOk(st) && CondsOk(st) && Pops(st, Exec, c) && PcOk(st, st.cur, st.pcs[st.cur])
    ensures var t, popped := st.conds[c][0], Execute(st);
            && st.cur in popped.pcs && popped.pcs[st.cur] == SigUp(c, t, st.pcs[st.cur].all)
            && t in popped.pcs && popped.pcs[t] == WaitDown(c) && c in popped.conds && t !in popped.conds[c]
  {
    FrontHasReleased(st, c, st.conds[c][0]);
    FrontTakenOff(st, c);
    hide LocksOk, CondsOk;
  }

  lemma FrontTakenOff(st: State, c: Cond)
    requires CondsOk(st) && c in st.conds && st.conds[c] != []
    ensures st.conds[c][0] !in st.conds[c][1..]
  {
    assert CondOk(st.pcs, c, st.conds[c]);
    PopFront(st.conds[c]);
  }

  /** The signaller keeps its target until it runs again... */
  lemma {:induction false} PendingMeanwhile(st: State, es: seq<Event>, st': State, u: Tid)
    requires Inv(st) && Run(st, es, st') && !Ran(st, es, st', u) && u in st.pcs && st.pcs[u] != User
    ensures u in st'.pcs && st'.pcs[u] == st.pcs[u]
    decreases |es|
  {
    hide Step, Execute, SemasOk, LocksOk, CondsOk;
    if es != [] {
      StepKeepsInv(st, es[0]);
      OthersPcKept(st, es[0], u);
      PendingMeanwhile(Step(st, es[0]), es[1..], st', u);
    }
  }

  lemma OthersPcKept(st: State, e: Event, u: Tid)
    requires st.cur in st.pcs && PcOk(st, st.cur, st.pcs[st.cur]) && Enabled(st, e)
    requires u in st.pcs && st.pcs[u] != User && !(e == Exec && st.cur == u) && (e.Create? ==> e.t != u)
    ensures u in Step(st, e).pcs && Step(st, e).pcs[u] == st.pcs[u]
  {
    hide Execute, Up;
    match e
    case Exec => ExecuteFrame(st, u);
    case IntrUp(s) => UpFrame(st, Plain(s));
    case _ =>
  }

  /** ... and a signalled waiter stays signalled until it runs. */
  lemma {:induction false} SignalledMeanwhile(st: State, es: seq<Event>, st': State, c: Cond, t: Tid)
    requires Inv(st) && Run(st, es, st') && !Ran(st, es, st', t) && Signalled(st, c, t)
    ensures Signalled(st', c, t)
    decreases |es|
  {
    hide Step, Execute, SemasOk, LocksOk, CondsOk;
    if es != [] {
      StepKeepsInv(st, es[0]);
      SignalledUntilItRuns(st, es[0], c, t);
      SignalledMeanwhile(Step(st, es[0]), es[1..], st', c, t);
    }
  }

  /** From its place on the queue to its release: once U has taken T off the queue of C, then
      whatever happens, when U next runs T is signalled, T stays so whatever happens, and when T
      runs it goes through its semaphore. */
  lemma SignalDelivered(st: State, es: seq<Event>, mid: State, es': seq<Event>, st': State, c: Cond, u: Tid, t: Tid,
                        all: bool)
    requires Reachable(st) && u in st.pcs && st.pcs[u] == SigUp(c, t, all)
    requires Run(st, es, mid) && !Ran(st, es, mid, u) && mid.cur == u
    requires u in mid.pcs && PcOk(mid, u, mid.pcs[u]) && Enabled(mid, Exec)
    requires Run(Step(mid, Exec), es', st') && !Ran(Step(mid, Exec), es', st', t)
    ensures Signalled(st', c, t)
    ensures st'.cur == t && PcOk(st', t, st'.pcs[t]) ==> t in Execute(st').pcs && Execute(st').pcs[t] == WaitAcq(c)
  {
    hide Run, Ran, Execute, LocksOk, CondsOk, SemasOk, ThreadsOk, PcOk;
    ReachableInv(st);
    PendingMeanwhile(st, es, mid, u);
    RunKeepsInv(st, es, mid);
    UpReleasesTarget(mid, c, t, all);
    StepKeepsInv(mid, Exec);
    SignalledMeanwhile(Step(mid, Exec), es', st', c, t);
    if st'.cur == t && PcOk(st', t, st'.pcs[t]) { GoesThrough(st', c, t); }
  }

  lemma GoesThrough(st: State, c: Cond, t: Tid)
    requires Signalled(st, c, t) && st.cur == t && PcOk(st, t, st.pcs[t])
    ensures t in Execute(st).pcs && Execute(st).pcs[t] == WaitAcq(c)
  {
  }

  /** Nobody gets past its cond_wait semaphore without having been signalled. */
  lemma OnlySignalledLeave(st: State, c: Cond)
    requires Reachable(st) && st.cur in st.pcs && st.pcs[st.cur] == WaitDown(c) && PcOk(st, st.cur, st.pcs[st.cur])
    requires st.cur in Execute(st).pcs && Execute(st).pcs[st.cur] == WaitAcq(c)
    ensures Signalled(st, c, st.cur)
  {
    ReachableInv(st);
    LeavesSignalled(st, c);
  }

  lemma LeavesSignalled(st: State, c: Cond)
    requires RunQueueOk(st.cur, st.idle, st.ready, st.status) && SemasOk(st) && CondsOk(st)
    requires st.cur in st.pcs && st.pcs[st.cur] == WaitDown(c) && PcOk(st, st.cur, st.pcs[st.cur])
    requires st.cur in Execute(st).pcs && Execute(st).pcs[st.cur] == WaitAcq(c)
    ensures Signalled(st, c, st.cur)
  {
    assert WaiterOk(st.pcs, st.semas, st.conds, st.cur, st.pcs[st.cur]);
    assert SemaOk(st.status, st.pcs, st.idle, Waiter(st.cur), st.semas[Waiter(st.cur)]);
  }

  /** The semaphore on a thread's stack is not referred to once the thread has left it: no
      condition queues it, no signaller is about to "up" it, nobody waits on it. */
  lemma StackSemaphoreUnreferenced(st: State, t: Tid, c: Cond, x: Tid)
    requires Reachable(st) && (t in st.pcs ==> !WaitingOn(st.pcs[t], c) && !st.pcs[t].WaitDown?)
    ensures c in st.conds ==> t !in st.conds[c]
    ensures x in st.pcs && st.pcs[x].SigUp? ==> st.pcs[x].t != t
    ensures Waiter(t) in st.semas ==> st.semas[Waiter(t)].waiters == []
  {
    ReachableInv(st);
    UnreferencedQueue(st, t, c, x);
    if Waiter(t) in st.semas { UnreferencedSema(st, t); }
  }

  lemma UnreferencedQueue(st: State, t: Tid, c: Cond, x: Tid)
    requires CondsOk(st) && (t in st.pcs ==> !WaitingOn(st.pcs[t], c) && !st.pcs[t].WaitDown?)
    ensures c in st.conds ==> t !in st.conds[c]
    ensures x in st.pcs && st.pcs[x].SigUp? ==> st.pcs[x].t != t
  {
    assert c in st.conds ==> CondOk(st.pcs, c, st.conds[c]);
    assert x in st.pcs ==> WaiterOk(st.pcs, st.semas, st.conds, x, st.pcs[x]);
  }

  lemma UnreferencedSema(st: State, t: Tid)
    requires SemasOk(st) && Waiter(t) in st.semas && (t in st.pcs ==> !st.pcs[t].WaitDown?)
    ensures st.semas[Waiter(t)].waiters == []
  {
    var m := st.semas[Waiter(t)];
    assert SemaOk(st.status, st.pcs, st.idle, Waiter(t), m);
    OnlySelfWaits(st.status, st.pcs, st.idle, t, m);
    assert m.waiters == [t] ==> t in m.waiters;
  }
}
