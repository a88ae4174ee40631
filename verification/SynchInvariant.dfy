/** The invariant of the step machine in module Synch, and the proof that every step
    keeps it.  The invariant has four parts (threads, semaphores, locks, conditions),
    each a property of a few components of the state, and each kept separately. */
module SynchInvariant {
  import opened Common
  import opened Synch

  // ---- lists without repetitions ----

  lemma PushBack(s: seq<Tid>, t: Tid)
    requires NoRepeats(s) && t !in s
    ensures NoRepeats(s + [t]) && forall u :: u in s + [t] <==> u in s || u == t
  {
    forall i: nat, j: nat | i < j ensures Differ(s + [t], i, j) {
      assert Differ(s, i, j);
    }
  }

  lemma PopFront(s: seq<Tid>)
    requires NoRepeats(s) && s != []
    ensures NoRepeats(s[1..]) && s[0] !in s[1..] && forall u :: u in s <==> u in s[1..] || u == s[0]
  {
    forall i: nat, j: nat | i < j ensures Differ(s[1..], i, j) {
      assert Differ(s, i + 1, j + 1);
    }
    forall i: nat | i < |s| - 1 ensures s[1..][i] != s[0] {
      assert Differ(s, 0, i + 1);
    }
    assert s == [s[0]] + s[1..];
  }

  // ---- the invariant ----

  /** The semaphore whose sema_down loop a program counter is in. */
  function DownOn(t: Tid, pc: PC): Option<SemaId> {
    match pc
    case SemaDown(s) => Some(Plain(s))
    case AcqDown(l) => Some(OfLock(l))
    case WaitDown(c) => Some(Waiter(t))
    case WaitAcq(c) => Some(OfLock(c.lock))
    case _ => None
  }

  /** The run queue holds exactly the READY threads, the running thread is the only
      RUNNING one, and the idle thread is never queued. */
  ghost predicate RunQueueOk(cur: Tid, idle: Tid, ready: seq<Tid>, status: map<Tid, Status>) {
    && cur in status && idle in status && NoRepeats(ready)
    && (forall t | t in status :: status[t] == Running <==> t == cur)
    && (forall t | t in ready :: t in status && t != idle && status[t] == Ready)
    && (forall t | t in status && t != idle && status[t] == Ready :: t in ready)
  }

  /** A semaphore's waiters are BLOCKED threads inside sema_down on it; the value is the
      initial value plus ups minus downs; and while anyone waits, every unit of the
      value is spoken for by a thread already woken. */
  ghost predicate SemaOk(status: map<Tid, Status>, pcs: map<Tid, PC>, idle: Tid, s: SemaId, m: Sema) {
    && NoRepeats(m.waiters)
    && (forall t | t in m.waiters :: t in status && t in pcs && t != idle && status[t] == Blocked
            && DownOn(t, pcs[t]) == Some(s))
    && (forall t | t in m.woken :: t in status && t in pcs && status[t] != Blocked && DownOn(t, pcs[t]) == Some(s))
    && m.value + m.downs == m.init + m.ups
    && (m.waiters != [] ==> m.value <= |m.woken|)
  }

  /** A BLOCKED thread other than the idle thread waits in the list of the semaphore it
      is going down on. */
  predicate Queued(pcs: map<Tid, PC>, semas: map<SemaId, Sema>, t: Tid) {
    && t in pcs && DownOn(t, pcs[t]).Some?
    && var s := DownOn(t, pcs[t]).value;
       s in semas && t in semas[s].waiters
  }

  /** The lock whose sema_down a thread has passed, with `holder` not yet or no longer set. */
  function PassLock(pc: PC): Option<Lid> {
    match pc
    case AcqSet(l) => Some(l)
    case RelUp(l) => Some(l)
    case WaitUp(c) => Some(c.lock)
    case WaitSet(c) => Some(c.lock)
    case _ => None
  }

  /** The lock that a point of synch.c relies on holding. */
  function RelyLock(pc: PC): Option<Lid> {
    match pc
    case RelClear(l) => Some(l)
    case WaitPush(c) => Some(c.lock)
    case WaitClear(c) => Some(c.lock)
    case SigPop(c, _) => Some(c.lock)
    case SigUp(c, _, _) => Some(c.lock)
    case _ => None
  }

  /** The lock that a thread is about to acquire, directly or at the end of cond_wait. */
  function WantLock(pc: PC): Option<Lid> {
    match pc
    case AcqDown(l) => Some(l)
    case AcqTry(l) => Some(l)
    case WaitDown(c) => Some(c.lock)
    case WaitAcq(c) => Some(c.lock)
    case _ => None
  }

  /** A lock's semaphore is 1 exactly when nobody is between its sema_down and its
      sema_up, and at most one thread is. */
  ghost predicate LockOk(pcs: map<Tid, PC>, l: Lid, m: Sema, holder: Option<Tid>, owner: Option<Tid>) {
    && m.init == 1 && m.value == (if owner == None then 1 else 0)
    && (holder == None || holder == owner)
    && (forall t | t in pcs && PassLock(pcs[t]) == Some(l) :: owner == Some(t) && holder == None)
    && (forall t | t in pcs && RelyLock(pcs[t]) == Some(l) :: holder == Some(t))
    && (forall t | t in pcs && WantLock(pcs[t]) == Some(l) :: holder != Some(t))
  }

  /** T is inside cond_wait on C and has not left its semaphore. */
  predicate WaitingOn(pc: PC, c: Cond) {
    pc == WaitClear(c) || pc == WaitUp(c) || pc == WaitDown(c)
  }

  /** What a thread's program counter says about condition variables.  A thread inside
      cond_wait is queued, about to be signalled, or signalled, and never two of these;
      a waiter about to be signalled has released the lock, asleep or not. */
  ghost predicate WaiterOk(pcs: map<Tid, PC>, semas: map<SemaId, Sema>, conds: map<Cond, seq<Tid>>, t: Tid, pc: PC) {
    match pc
    case WaitClear(c) => c in conds && t in conds[c] && Waiter(t) in semas && semas[Waiter(t)].value == 0
    case WaitUp(c) => c in conds && t in conds[c] && Waiter(t) in semas && semas[Waiter(t)].value == 0
    case WaitDown(c) =>
      && c in conds && Waiter(t) in semas && semas[Waiter(t)].value <= 1
      && (semas[Waiter(t)].value == 1 ==> t !in conds[c])
      && (semas[Waiter(t)].value == 0 && t !in conds[c] ==> exists x :: SignalPending(pcs, x, c, t))
    case SigUp(c, u, _) =>
      && u in pcs && pcs[u] == WaitDown(c) && c in conds && u !in conds[c]
      && Waiter(u) in semas && semas[Waiter(u)].value == 0
    case _ => true
  }

  predicate SignalPending(pcs: map<Tid, PC>, x: Tid, c: Cond, u: Tid) {
    x in pcs && pcs[x].SigUp? && pcs[x].c == c && pcs[x].t == u
  }

  ghost predicate CondOk(pcs: map<Tid, PC>, c: Cond, q: seq<Tid>) {
    NoRepeats(q) && forall t | t in q :: t in pcs && WaitingOn(pcs[t], c)
  }

  ghost predicate ThreadsOk(st: State) {
    && RunQueueOk(st.cur, st.idle, st.ready, st.status)
    && (forall t :: t in st.pcs <==> t in st.status) && st.pcs[st.idle] == User
  }

  ghost predicate SemasOk(st: State) {
    && (forall s | s in st.semas :: SemaOk(st.status, st.pcs, st.idle, s, st.semas[s]))
    && (forall t | t in st.status && t != st.idle && st.status[t] == Blocked :: Queued(st.pcs, st.semas, t))
  }

  ghost predicate LocksOk(st: State) {
    && (forall t | t in st.pcs :: PcOk(st, t, st.pcs[t]))
    && (forall l | l in st.holder :: LockExists(st, l)
            && LockOk(st.pcs, l, st.semas[OfLock(l)], st.holder[l], st.owner[l]))
  }

  ghost predicate QueuesOk(st: State) {
    forall c | c in st.conds :: CondExists(st, c) && CondOk(st.pcs, c, st.conds[c])
  }

  ghost predicate CondsOk(st: State) {
    QueuesOk(st) && forall t | t in st.pcs :: WaiterOk(st.pcs, st.semas, st.conds, t, st.pcs[t])
  }

  ghost predicate Inv(st: State) {
    ThreadsOk(st) && SemasOk(st) && LocksOk(st) && CondsOk(st)
  }

  // ---- every step keeps the run queue in order ----

  /** The run queue while nobody is running, inside schedule. */
  ghost predicate NoneRunning(idle: Tid, ready: seq<Tid>, status: map<Tid, Status>) {
    && idle in status && NoRepeats(ready) && (forall t | t in status :: status[t] != Running)
    && (forall t | t in ready :: t in status && t != idle && status[t] == Ready)
    && (forall t | t in status && t != idle && status[t] == Ready :: t in ready)
  }

  lemma DispatchQueue(st: State, s: Status)
    requires NoneRunning(st.idle, st.ready, st.status[st.cur := s])
    ensures var st' := Schedule(st, s); RunQueueOk(st'.cur, st'.idle, st'.ready, st'.status)
  {
    if st.ready != [] { PopFront(st.ready); }
  }

  lemma YieldThreads(st: State)
    requires ThreadsOk(st)
    ensures ThreadsOk(Yield(st))
  {
    if st.cur == st.idle {
      DispatchQueue(st, Ready);
    } else {
      PushBack(st.ready, st.cur);
      DispatchQueue(st.(ready := st.ready + [st.cur]), Ready);
    }
  }

  lemma DownThreads(st: State, s: SemaId, next: PC)
    requires ThreadsOk(st) && s in st.semas && st.cur != st.idle
    ensures ThreadsOk(Down(st, s, next))
  {
    var m := st.semas[s];
    if m.value == 0 { DispatchQueue(SetSema(st, s, Slept(m, st.cur)), Blocked); }
  }

  lemma UpThreads(st: State, s: SemaId)
    requires ThreadsOk(st) && SemasOk(st) && s in st.semas
    ensures ThreadsOk(Up(st, s))
  {
    hide SemasOk, RunQueueOk;
    FrontWaiter(st, s);
    var m := st.semas[s];
    if m.waiters != [] { UnblockedQueue(st.cur, st.idle, st.ready, st.status, m.waiters[0]); }
  }

  /** thread_unblock on a BLOCKED thread. */
  lemma UnblockedQueue(cur: Tid, idle: Tid, ready: seq<Tid>, status: map<Tid, Status>, t: Tid)
    requires RunQueueOk(cur, idle, ready, status) && t in status && t != idle && status[t] == Blocked
    ensures RunQueueOk(cur, idle, ready + [t], status[t := Ready])
  {
    PushBack(ready, t);
  }

  lemma FrontWaiter(st: State, s: SemaId)
    requires SemasOk(st) && s in st.semas
    ensures var w := st.semas[s].waiters; w != [] ==>
              w[0] in st.status && w[0] in st.pcs && w[0] != st.idle && st.status[w[0]] == Blocked
  {
    assert SemaOk(st.status, st.pcs, st.idle, s, st.semas[s]);
    assert st.semas[s].waiters != [] ==> st.semas[s].waiters[0] in st.semas[s].waiters;
  }

  lemma ExitThreads(st: State)
    requires ThreadsOk(st) && Enabled(st, Exit)
    ensures ThreadsOk(Exited(st))
  {
    DispatchQueue(st, Blocked);
  }

  // ---- ... and the semaphores ----

  /** No thread that S knows about changed between the two thread tables. */
  ghost predicate Unaffected(m: Sema, except: Tid, status: map<Tid, Status>, pcs: map<Tid, PC>,
                             status': map<Tid, Status>, pcs': map<Tid, PC>) {
    forall t | t != except && (t in m.waiters || t in m.woken) ::
      && t in status && t in pcs && t in status' && t in pcs' && pcs'[t] == pcs[t]
      && (status'[t] == Blocked <==> status[t] == Blocked)
  }

  lemma SemaUnaffected(status: map<Tid, Status>, pcs: map<Tid, PC>, idle: Tid, s: SemaId, m: Sema,
                       status': map<Tid, Status>, pcs': map<Tid, PC>, t: Tid)
    requires SemaOk(status, pcs, idle, s, m) && t !in m.waiters && t !in m.woken
    requires Unaffected(m, t, status, pcs, status', pcs')
    ensures SemaOk(status', pcs', idle, s, m)
  {
  }

  lemma SleptOk(status: map<Tid, Status>, pcs: map<Tid, PC>, idle: Tid, s: SemaId, m: Sema, t: Tid,
                status': map<Tid, Status>)
    requires SemaOk(status, pcs, idle, s, m) && m.value == 0 && t != idle && t !in m.waiters
    requires t in pcs && DownOn(t, pcs[t]) == Some(s) && t in status' && status'[t] == Blocked
    requires Unaffected(m, t, status, pcs, status', pcs)
    ensures SemaOk(status', pcs, idle, s, Slept(m, t))
  {
    PushBack(m.waiters, t);
  }

  lemma TakenOk(status: map<Tid, Status>, pcs: map<Tid, PC>, idle: Tid, s: SemaId, m: Sema, t: Tid, pcs': map<Tid, PC>)
    requires SemaOk(status, pcs, idle, s, m) && m.value > 0 && t !in m.waiters
    requires Unaffected(m, t, status, pcs, status, pcs')
    ensures SemaOk(status, pcs', idle, s, Taken(m, t))
  {
  }

  lemma GivenOk(status: map<Tid, Status>, pcs: map<Tid, PC>, idle: Tid, s: SemaId, m: Sema, status': map<Tid, Status>)
    requires SemaOk(status, pcs, idle, s, m)
    requires status' == (if m.waiters == [] then status else status[m.waiters[0] := Ready])
    ensures SemaOk(status', pcs, idle, s, Given(m))
  {
    if m.waiters != [] { PopFront(m.waiters); }
  }

  /** Scheduling unblocks nobody but possibly the idle thread. */
  lemma ScheduleStatus(st: State, s: Status, t: Tid)
    requires ThreadsOk(st) && t in st.status && t != st.cur && t != st.idle
    ensures var status' := Schedule(st, s).status; t in status' && (status'[t] == Blocked <==> st.status[t] == Blocked)
  {
    assert st.ready != [] ==> st.ready[0] in st.ready;
  }

  lemma SleepSema(st: State, s: SemaId, r: SemaId)
    requires ThreadsOk(st) && s in st.semas && r in st.semas && SemaOk(st.status, st.pcs, st.idle, r, st.semas[r])
    requires st.cur != st.idle && DownOn(st.cur, st.pcs[st.cur]) == Some(s) && st.semas[s].value == 0
    ensures var st' := Down(st, s, User); SemaOk(st'.status, st'.pcs, st'.idle, r, st'.semas[r])
  {
    var status', m := Down(st, s, User).status, st.semas[r];
    assert Unaffected(m, st.cur, st.status, st.pcs, status', st.pcs) by {
      forall t | t != st.cur && (t in m.waiters || t in m.woken)
        ensures t in st.status && t in status' && (status'[t] == Blocked <==> st.status[t] == Blocked)
      {
        ScheduleStatus(SetSema(st, s, Slept(st.semas[s], st.cur)), Blocked, t);
      }
    }
    if r != s {
      SemaUnaffected(st.status, st.pcs, st.idle, r, m, status', st.pcs, st.cur);
    } else {
      SleptOk(st.status, st.pcs, st.idle, s, m, st.cur, status');
    }
  }

  lemma TakeSema(st: State, s: SemaId, next: PC, r: SemaId)
    requires ThreadsOk(st) && s in st.semas && r in st.semas && SemaOk(st.status, st.pcs, st.idle, r, st.semas[r])
    requires st.semas[s].value > 0 && (DownOn(st.cur, st.pcs[st.cur]) == Some(s)
               || DownOn(st.cur, st.pcs[st.cur]) == None)
    ensures var st' := Down(st, s, next); SemaOk(st'.status, st'.pcs, st'.idle, r, st'.semas[r])
  {
    var pcs', m := st.pcs[st.cur := next], st.semas[r];
    assert Unaffected(m, st.cur, st.status, st.pcs, st.status, pcs');
    if r != s {
      SemaUnaffected(st.status, st.pcs, st.idle, r, m, st.status, pcs', st.cur);
    } else {
      TakenOk(st.status, st.pcs, st.idle, s, m, st.cur, pcs');
    }
  }

  lemma UpSema(st: State, s: SemaId, r: SemaId)
    requires ThreadsOk(st) && s in st.semas && r in st.semas
    requires SemaOk(st.status, st.pcs, st.idle, s, st.semas[s]) && SemaOk(st.status, st.pcs, st.idle, r, st.semas[r])
    ensures var st' := Up(st, s); SemaOk(st'.status, st'.pcs, st'.idle, r, st'.semas[r])
  {
    var st', m := Up(st, s), st.semas[r];
    if r != s {
      SemaUnaffected(st.status, st.pcs, st.idle, r, m, st'.status, st'.pcs, st.idle);
    } else {
      GivenOk(st.status, st.pcs, st.idle, s, m, st'.status);
    }
  }

  // ---- ... who is blocked where ----

  lemma SleepQueued(st: State, s: SemaId, t: Tid)
    requires ThreadsOk(st) && s in st.semas && st.cur != st.idle && st.semas[s].value == 0
    requires DownOn(st.cur, st.pcs[st.cur]) == Some(s)
    requires t in st.status && t != st.idle && (st.status[t] == Blocked ==> Queued(st.pcs, st.semas, t))
    ensures var st' := Down(st, s, User);
            t in st'.status
            && (st'.status[t] == Blocked ==> Queued(st'.pcs, st'.semas, t))
  {
    if t != st.cur { ScheduleStatus(SetSema(st, s, Slept(st.semas[s], st.cur)), Blocked, t); }
  }

  lemma UpQueued(st: State, s: SemaId, t: Tid)
    requires ThreadsOk(st) && s in st.semas && SemaOk(st.status, st.pcs, st.idle, s, st.semas[s])
    requires t in st.status && t != st.idle && (st.status[t] == Blocked ==> Queued(st.pcs, st.semas, t))
    ensures var st' := Up(st, s); t in st'.status && (st'.status[t] == Blocked ==> Queued(st'.pcs, st'.semas, t))
  {
    var m := st.semas[s];
    if m.waiters != [] { PopFront(m.waiters); }
  }

  lemma SleepKeeps(st: State, s: SemaId)
    requires ThreadsOk(st) && SemasOk(st) && s in st.semas && st.cur != st.idle && st.semas[s].value == 0
    requires DownOn(st.cur, st.pcs[st.cur]) == Some(s)
    ensures ThreadsOk(Down(st, s, User)) && SemasOk(Down(st, s, User))
  {
    var st' := Down(st, s, User);
    DownThreads(st, s, User);
    forall r | r in st'.semas ensures SemaOk(st'.status, st'.pcs, st'.idle, r, st'.semas[r]) { SleepSema(st, s, r); }
    forall t | t in st'.status && t != st'.idle && st'.status[t] == Blocked ensures Queued(st'.pcs, st'.semas, t) {
      SleepQueued(st, s, t);
    }
  }

  lemma TakeKeeps(st: State, s: SemaId, next: PC)
    requires ThreadsOk(st) && SemasOk(st) && s in st.semas && st.cur != st.idle && st.semas[s].value > 0
    requires DownOn(st.cur, st.pcs[st.cur]) == Some(s) || DownOn(st.cur, st.pcs[st.cur]) == None
    ensures ThreadsOk(Down(st, s, next)) && SemasOk(Down(st, s, next))
  {
    hide SemaOk;
    var st' := Down(st, s, next);
    forall r | r in st'.semas
      ensures SemaOk(st'.status, st'.pcs, st'.idle, r, st'.semas[r])
    {
      TakeSema(st, s, next, r);
    }
  }

  lemma UpKeeps(st: State, s: SemaId)
    requires ThreadsOk(st) && SemasOk(st) && s in st.semas
    ensures ThreadsOk(Up(st, s)) && SemasOk(Up(st, s))
  {
    var st' := Up(st, s);
    UpThreads(st, s);
    forall r | r in st'.semas ensures SemaOk(st'.status, st'.pcs, st'.idle, r, st'.semas[r]) { UpSema(st, s, r); }
    forall t | t in st'.status && t != st'.idle && st'.status[t] == Blocked ensures Queued(st'.pcs, st'.semas, t) {
      UpQueued(st, s, t);
    }
  }

  lemma SetPcKeeps(st: State, pc: PC)
    requires ThreadsOk(st) && SemasOk(st) && st.cur != st.idle && DownOn(st.cur, st.pcs[st.cur]) == None
    ensures ThreadsOk(SetPc(st, pc)) && SemasOk(SetPc(st, pc))
  {
    var st' := SetPc(st, pc);
    forall r | r in st'.semas ensures SemaOk(st'.status, st'.pcs, st'.idle, r, st'.semas[r]) {
      SemaUnaffected(st.status, st.pcs, st.idle, r, st.semas[r], st.status, st'.pcs, st.cur);
    }
  }

  /** Only its own thread waits for the semaphore on its stack. */
  lemma DownElsewhere(t: Tid, pc: PC, u: Tid)
    requires t != u
    ensures DownOn(t, pc) != Some(Waiter(u))
  {
  }

  lemma ResetKeeps(st: State)
    requires ThreadsOk(st) && SemasOk(st) && DownOn(st.cur, st.pcs[st.cur]) == None
    ensures var st' := SetSema(st, Waiter(st.cur), Sema(0, [], 0, 0, 0, {})); ThreadsOk(st') && SemasOk(st')
  {
    var st' := SetSema(st, Waiter(st.cur), Sema(0, [], 0, 0, 0, {}));
    assert SemaOk(st.status, st.pcs, st.idle, Waiter(st.cur), st'.semas[Waiter(st.cur)]);
    hide RunQueueOk, SemaOk, DownOn;
    forall t | t in st'.status && t != st'.idle && st'.status[t] == Blocked ensures Queued(st'.pcs, st'.semas, t) {
      assert Queued(st.pcs, st.semas, t);
      if t != st.cur {
        DownElsewhere(t, st.pcs[t], st.cur);
      }
    }
  }

  // ---- ... the locks ----

  /** The tables only grow. */
  predicate Grown(st: State, st': State) {
    && (forall s | s in st.semas :: s in st'.semas) && (forall l | l in st.holder :: l in st'.holder)
    && (forall l | l in st.owner :: l in st'.owner) && (forall c | c in st.conds :: c in st'.conds)
  }

  lemma PcStaysOk(st: State, st': State, t: Tid, pc: PC)
    requires PcOk(st, t, pc) && Grown(st, st')
    ensures PcOk(st', t, pc)
  {
  }

  /** A lock is unaffected when a thread moves between points that claim nothing about it,
      or claim what is already so. */
  lemma LockUnaffected(pcs: map<Tid, PC>, l: Lid, m: Sema, h: Option<Tid>, o: Option<Tid>, pcs': map<Tid, PC>, m': Sema,
                       cur: Tid)
    requires LockOk(pcs, l, m, h, o) && m'.value == m.value && m'.init == m.init
    requires forall t | t in pcs' && t != cur :: t in pcs && pcs'[t] == pcs[t]
    requires cur in pcs' && PassLock(pcs'[cur]) == Some(l) ==> o == Some(cur) && h == None
    requires cur in pcs' && RelyLock(pcs'[cur]) == Some(l) ==> h == Some(cur)
    requires cur in pcs' && WantLock(pcs'[cur]) == Some(l) ==> h != Some(cur)
    ensures LockOk(pcs', l, m', h, o)
  {
  }

  /** sema_down on a lock's semaphore succeeds: nobody else was inside. */
  lemma LockTaken(pcs: map<Tid, PC>, l: Lid, m: Sema, h: Option<Tid>, o: Option<Tid>, cur: Tid, next: PC)
    requires LockOk(pcs, l, m, h, o) && m.value > 0 && PassLock(next) == Some(l)
    ensures LockOk(pcs[cur := next], l, Taken(m, cur), h, Some(cur))
  {
  }

  lemma LockHeld(pcs: map<Tid, PC>, l: Lid, m: Sema, h: Option<Tid>, o: Option<Tid>, cur: Tid)
    requires LockOk(pcs, l, m, h, o) && cur in pcs && PassLock(pcs[cur]) == Some(l)
    ensures LockOk(pcs[cur := User], l, m, Some(cur), o)
  {
  }

  lemma LockCleared(pcs: map<Tid, PC>, l: Lid, m: Sema, h: Option<Tid>, o: Option<Tid>, cur: Tid, next: PC)
    requires LockOk(pcs, l, m, h, o) && cur in pcs && RelyLock(pcs[cur]) == Some(l) && PassLock(next) == Some(l)
    ensures LockOk(pcs[cur := next], l, m, None, o)
  {
  }

  lemma LockReleased(pcs: map<Tid, PC>, l: Lid, m: Sema, h: Option<Tid>, o: Option<Tid>, cur: Tid, next: PC)
    requires LockOk(pcs, l, m, h, o) && cur in pcs && PassLock(pcs[cur]) == Some(l)
    requires PassLock(next) != Some(l) && RelyLock(next) != Some(l)
    ensures LockOk(pcs[cur := next], l, Given(m), h, None)
  {
  }

  /** Every lock's semaphore keeps its value. */
  ghost predicate SameLockValues(st: State, st': State) {
    forall k | k in st.semas && k.OfLock? ::
      k in st'.semas && st'.semas[k].value == st.semas[k].value && st'.semas[k].init == st.semas[k].init
  }

  /** The running thread may move to PC only if it holds the lock that PC relies on... */
  predicate RelyOk(st: State, pc: PC) {
    match RelyLock(pc)
    case None => true
    case Some(l) => l in st.holder && st.holder[l] == Some(st.cur)
  }

  /** ... and that it does not hold the lock that PC is about to acquire. */
  predicate WantOk(st: State, pc: PC) {
    match WantLock(pc)
    case None => true
    case Some(l) => l in st.holder ==> st.holder[l] != Some(st.cur)
  }

  /** The running thread moves on, and every lock's semaphore value, holder and owner stay. */
  lemma LocksUnaffected(st: State, st': State, next: PC)
    requires LocksOk(st) && Grown(st, st') && st'.holder == st.holder && st'.owner == st.owner
             && SameLockValues(st, st')
    requires st.cur in st.pcs && st'.pcs == st.pcs[st.cur := next] && PcOk(st', st.cur, next) && PassLock(next) == None
             && RelyOk(st, next) && WantOk(st, next)
    ensures LocksOk(st')
  {
    forall t | t in st'.pcs ensures PcOk(st', t, st'.pcs[t]) {
      if t != st.cur { PcStaysOk(st, st', t, st.pcs[t]); }
    }
    forall l | l in st'.holder
      ensures LockExists(st', l) && LockOk(st'.pcs, l, st'.semas[OfLock(l)], st'.holder[l], st'.owner[l])
    {
      LockUnaffected(st.pcs, l, st.semas[OfLock(l)], st.holder[l], st.owner[l], st'.pcs, st'.semas[OfLock(l)], st.cur);
    }
  }

  /** The same when only the thread table's statuses and the queues changed, or the running
      thread, being outside synch.c, came or went. */
  lemma LocksUnmoved(st: State, st': State, t: Tid)
    requires LocksOk(st) && Grown(st, st') && st'.holder == st.holder && st'.owner == st.owner
             && SameLockValues(st, st')
    requires forall u | u in st'.pcs && u != t :: u in st.pcs && st'.pcs[u] == st.pcs[u]
    requires t in st'.pcs ==> st'.pcs[t] == User
    ensures LocksOk(st')
  {
    forall u | u in st'.pcs ensures PcOk(st', u, st'.pcs[u]) {
      if u != t { PcStaysOk(st, st', u, st.pcs[u]); }
    }
    forall l | l in st'.holder
      ensures LockExists(st', l) && LockOk(st'.pcs, l, st'.semas[OfLock(l)], st'.holder[l], st'.owner[l])
    {
      LockUnaffected(st.pcs, l, st.semas[OfLock(l)], st.holder[l], st.owner[l], st'.pcs, st'.semas[OfLock(l)], t);
    }
  }

  predicate SameLock(st: State, st': State, k: Lid) {
    && k in st.holder && k in st'.holder && k in st.owner && k in st'.owner && OfLock(k) in st.semas
        && OfLock(k) in st'.semas
    && st'.semas[OfLock(k)] == st.semas[OfLock(k)] && st'.holder[k] == st.holder[k] && st'.owner[k] == st.owner[k]
  }

  /** All locks but L are as before, and the tables have not shrunk. */
  ghost predicate OtherLocksSame(st: State, st': State, l: Lid) {
    Grown(st, st') && forall k | k != l && LockExists(st, k) :: SameLock(st, st', k)
  }

  /** A step of the running thread that changes lock L only. */
  lemma LocksChangeOne(st: State, st': State, l: Lid, next: PC)
    requires LocksOk(st) && OtherLocksSame(st, st', l) && PcOk(st', st.cur, next)
             && (forall k :: k in st'.holder <==> k in st.holder)
    requires st'.pcs == st.pcs[st.cur := next] && LockExists(st', l)
    requires LockOk(st'.pcs, l, st'.semas[OfLock(l)], st'.holder[l], st'.owner[l])
    requires (PassLock(next) == None || PassLock(next) == Some(l)) && RelyLock(next) == None
    requires WantLock(next) == None || WantLock(next) == Some(l)
    ensures LocksOk(st')
  {
    forall t | t in st'.pcs ensures PcOk(st', t, st'.pcs[t]) {
      if t != st.cur { PcStaysOk(st, st', t, st.pcs[t]); }
    }
    forall k | k in st'.holder && k != l
      ensures LockExists(st', k) && LockOk(st'.pcs, k, st'.semas[OfLock(k)], st'.holder[k], st'.owner[k])
    {
      LockUnaffected(st.pcs, k, st.semas[OfLock(k)], st.holder[k], st.owner[k], st'.pcs, st'.semas[OfLock(k)], st.cur);
    }
  }

  // ---- ... and the condition variables ----

  /** Points of synch.c that the condition variables know nothing about. */
  predicate Neutral(pc: PC) {
    !pc.WaitClear? && !pc.WaitUp? && !pc.WaitDown? && !pc.SigUp?
  }

  /** Every thread's own cond_wait semaphore keeps its value. */
  predicate SameWaiterValues(st: State, st': State) {
    forall s | s in st.semas && s.Waiter? :: s in st'.semas && st'.semas[s].value == st.semas[s].value
  }

  /** The running thread moves between neutral points, or appears or disappears at one. */
  lemma CondsUnaffected(st: State, st': State, t: Tid)
    requires CondsOk(st) && Grown(st, st') && st'.conds == st.conds && SameWaiterValues(st, st')
    requires forall u | u != t :: (u in st'.pcs <==> u in st.pcs) && (u in st.pcs ==> st'.pcs[u] == st.pcs[u])
    requires t in st.pcs ==> Neutral(st.pcs[t])
    requires t in st'.pcs ==> Neutral(st'.pcs[t])
    ensures CondsOk(st')
  {
    forall c | c in st'.conds ensures CondExists(st', c) && CondOk(st'.pcs, c, st'.conds[c]) {
      assert CondOk(st.pcs, c, st.conds[c]);
    }
    forall u | u in st'.pcs ensures WaiterOk(st'.pcs, st'.semas, st'.conds, u, st'.pcs[u]) {
      if u != t {
        assert WaiterOk(st.pcs, st.semas, st.conds, u, st.pcs[u]);
        forall x, c | SignalPending(st.pcs, x, c, u) ensures SignalPending(st'.pcs, x, c, u) {}
      }
    }
  }

  /** The condition queues do not notice a thread that is in none of them. */
  lemma QueuesUnaffected(st: State, st': State, t: Tid)
    requires QueuesOk(st) && Grown(st, st') && st'.conds == st.conds && t in st.pcs
    requires st.pcs[t].SigUp? || Neutral(st.pcs[t])
    requires forall u | u in st.pcs && u != t :: u in st'.pcs && st'.pcs[u] == st.pcs[u]
    ensures QueuesOk(st')
  {
    forall c | c in st'.conds ensures CondExists(st', c) && CondOk(st'.pcs, c, st'.conds[c]) {
      assert CondOk(st.pcs, c, st.conds[c]);
    }
  }

  /** WaiterOk speaks of one thread V and, if V is a signaller, of its target U. */
  lemma WaiterStaysOk(st: State, st': State, v: Tid)
    requires v in st.pcs && v in st'.pcs && st'.pcs[v] == st.pcs[v]
             && WaiterOk(st.pcs, st.semas, st.conds, v, st.pcs[v])
    requires forall c | c in st.conds && WaitingOn(st.pcs[v], c) ::
               c in st'.conds && (v in st'.conds[c] <==> v in st.conds[c])
    requires forall s | s == Waiter(v) && s in st.semas :: s in st'.semas && st'.semas[s].value == st.semas[s].value
    requires forall x, c | SignalPending(st.pcs, x, c, v) :: SignalPending(st'.pcs, x, c, v)
    requires st.pcs[v].SigUp? ==>
               var c, u := st.pcs[v].c, st.pcs[v].t;
               && u in st'.pcs && st'.pcs[u] == st.pcs[u] && c in st'.conds && u !in st'.conds[c]
               && Waiter(u) in st'.semas && st'.semas[Waiter(u)].value == st.semas[Waiter(u)].value
    ensures WaiterOk(st'.pcs, st'.semas, st'.conds, v, st'.pcs[v])
  {
  }

  lemma WaitPushConds(st: State, c: Cond)
    requires CondsOk(st) && st.cur in st.pcs && st.pcs[st.cur] == WaitPush(c) && c in st.conds
    ensures CondsOk(Pushed(st, c))
  {
    var st', me := Pushed(st, c), st.cur;
    assert CondOk(st.pcs, c, st.conds[c]);
    PushBack(st.conds[c], me);
    forall d | d in st'.conds ensures CondExists(st', d) && CondOk(st'.pcs, d, st'.conds[d]) {
      assert CondOk(st.pcs, d, st.conds[d]) && CondExists(st, d);
    }
    forall u | u in st'.pcs ensures WaiterOk(st'.pcs, st'.semas, st'.conds, u, st'.pcs[u]) {
      if u != me {
        assert WaiterOk(st.pcs, st.semas, st.conds, u, st.pcs[u]);
        forall x, d | SignalPending(st.pcs, x, d, u) ensures SignalPending(st'.pcs, x, d, u) {}
      }
    }
  }

  lemma WaitMovesOnFor(st: State, st': State, c: Cond, v: Tid)
    requires v in st.pcs && WaiterOk(st.pcs, st.semas, st.conds, v, st.pcs[v]) && st'.conds == st.conds
             && SameWaiterValues(st, st')
    requires st.cur in st.pcs && (st.pcs[st.cur] == WaitClear(c) || st.pcs[st.cur] == WaitUp(c)) && v != st.cur
    requires st'.pcs == st.pcs[st.cur := WaitUp(c)] || st'.pcs == st.pcs[st.cur := WaitDown(c)]
    ensures WaiterOk(st'.pcs, st'.semas, st'.conds, v, st'.pcs[v])
  {
    WaiterStaysOk(st, st', v);
  }

  /** Inside cond_wait, from one waiting point to the next: WaitClear to WaitUp to WaitDown. */
  lemma WaitMovesOn(st: State, st': State, c: Cond)
    requires CondsOk(st) && Grown(st, st') && st'.conds == st.conds && SameWaiterValues(st, st')
    requires st.cur in st.pcs && (st.pcs[st.cur] == WaitClear(c) || st.pcs[st.cur] == WaitUp(c))
    requires st'.pcs == st.pcs[st.cur := WaitUp(c)] || st'.pcs == st.pcs[st.cur := WaitDown(c)]
    ensures CondsOk(st')
  {
    forall d | d in st'.conds ensures CondExists(st', d) && CondOk(st'.pcs, d, st'.conds[d]) {
      assert CondOk(st.pcs, d, st.conds[d]) && CondExists(st, d);
    }
    assert WaiterOk(st.pcs, st.semas, st.conds, st.cur, st.pcs[st.cur]);
    forall u | u in st'.pcs ensures WaiterOk(st'.pcs, st'.semas, st'.conds, u, st'.pcs[u]) {
      if u != st.cur {
        WaitMovesOnFor(st, st', c, u);
      }
    }
  }

  lemma WaitDownFor(st: State, st': State, c: Cond, v: Tid)
    requires v in st.pcs && WaiterOk(st.pcs, st.semas, st.conds, v, st.pcs[v]) && st'.conds == st.conds && v != st.cur
    requires st.cur in st.pcs && st.pcs[st.cur] == WaitDown(c) && st'.pcs == st.pcs[st.cur := WaitAcq(c)]
    requires Waiter(st.cur) in st.semas && st.semas[Waiter(st.cur)].value > 0
    requires forall s | s in st.semas && s != Waiter(st.cur) :: s in st'.semas && st'.semas[s] == st.semas[s]
    ensures WaiterOk(st'.pcs, st'.semas, st'.conds, v, st'.pcs[v])
  {
    WaiterStaysOk(st, st', v);
  }

  /** A signalled waiter gets through its own semaphore. */
  lemma WaitDownConds(st: State, c: Cond)
    requires CondsOk(st) && st.cur in st.pcs && st.pcs[st.cur] == WaitDown(c) && PcOk(st, st.cur, WaitDown(c))
    requires st.semas[Waiter(st.cur)].value > 0
    ensures CondsOk(Down(st, Waiter(st.cur), WaitAcq(c)))
  {
    var st', me := Down(st, Waiter(st.cur), WaitAcq(c)), st.cur;
    assert WaiterOk(st.pcs, st.semas, st.conds, me, st.pcs[me]);
    forall d | d in st'.conds ensures CondExists(st', d) && CondOk(st'.pcs, d, st'.conds[d]) {
      assert CondOk(st.pcs, d, st.conds[d]) && CondExists(st, d);
    }
    forall u | u in st'.pcs ensures WaiterOk(st'.pcs, st'.semas, st'.conds, u, st'.pcs[u]) {
      if u != me {
        WaitDownFor(st, st', c, u);
      }
    }
  }

  /** The front waiter of a condition whose lock the signaller holds has released that
      lock and is on its way into, or asleep on, its own semaphore. */
  lemma FrontHasReleased(st: State, c: Cond, u: Tid)
    requires LocksOk(st) && CondsOk(st) && c in st.conds && u in st.conds[c]
    requires st.cur in st.pcs && st.pcs[st.cur].SigPop? && st.pcs[st.cur].c == c
    ensures u in st.pcs && st.pcs[u] == WaitDown(c) && Waiter(u) in st.semas && st.semas[Waiter(u)].value == 0
  {
    assert CondOk(st.pcs, c, st.conds[c]) && CondExists(st, c);
    var l := c.lock;
    assert LockOk(st.pcs, l, st.semas[OfLock(l)], st.holder[l], st.owner[l]);
    assert RelyLock(st.pcs[st.cur]) == Some(l) && st.holder[l] == Some(st.cur);
    assert RelyLock(st.pcs[u]) == Some(l) ==> u == st.cur;
    assert PassLock(st.pcs[u]) != Some(l);
    assert WaiterOk(st.pcs, st.semas, st.conds, u, st.pcs[u]);
  }

  lemma SigPopFor(st: State, st': State, c: Cond, all: bool, v: Tid)
    requires v in st.pcs && WaiterOk(st.pcs, st.semas, st.conds, v, st.pcs[v])
    requires st.cur in st.pcs && st.pcs[st.cur] == SigPop(c, all) && c in st.conds && st.conds[c] != []
    requires var u := st.conds[c][0]; u in st.pcs && st.pcs[u] == WaitDown(c) && v != u && v != st.cur
    requires NoRepeats(st.conds[c]) && st'.semas == st.semas && st'.conds == st.conds[c := st.conds[c][1..]]
    requires st'.pcs == st.pcs[st.cur := SigUp(c, st.conds[c][0], all)]
    ensures WaiterOk(st'.pcs, st'.semas, st'.conds, v, st'.pcs[v])
  {
    PopFront(st.conds[c]);
    WaiterStaysOk(st, st', v);
  }

  lemma QueuePopped(st: State, st': State, c: Cond)
    requires QueuesOk(st) && Grown(st, st') && c in st.conds && st.conds[c] != []
             && st'.conds == st.conds[c := st.conds[c][1..]]
    requires st.cur in st.pcs && st.pcs[st.cur].SigPop?
    requires forall u | u in st.pcs && u != st.cur :: u in st'.pcs && st'.pcs[u] == st.pcs[u]
    ensures QueuesOk(st') && NoRepeats(st.conds[c])
  {
    forall d | d in st'.conds ensures CondExists(st', d) && CondOk(st'.pcs, d, st'.conds[d]) {
      assert CondOk(st.pcs, d, st.conds[d]) && CondExists(st, d);
      if d == c { PopFront(st.conds[c]); }
    }
  }

  lemma SigPopConds(st: State, st': State, c: Cond, all: bool)
    requires LocksOk(st) && CondsOk(st) && st.cur in st.pcs && st.pcs[st.cur] == SigPop(c, all)
    requires c in st.conds && st.conds[c] != [] && Grown(st, st')
    requires st'.semas == st.semas && st'.conds == st.conds[c := st.conds[c][1..]]
    requires st'.pcs == st.pcs[st.cur := SigUp(c, st.conds[c][0], all)]
    ensures CondsOk(st')
  {
    var me, u := st.cur, st.conds[c][0];
    FrontHasReleased(st, c, u);
    QueuePopped(st, st', c);
    assert SignalPending(st'.pcs, me, c, u);
    PopFront(st.conds[c]);
    forall v | v in st'.pcs ensures WaiterOk(st'.pcs, st'.semas, st'.conds, v, st'.pcs[v]) {
      if v != me && v != u { SigPopFor(st, st', c, all, v); }
    }
  }

  /** Only one thread can be about to signal a given waiter. */
  /** A signaller's target waits on the signaller's condition. */
  lemma SameCondition(st: State, x: Tid, y: Tid, c: Cond, d: Cond, u: Tid)
    requires CondsOk(st) && SignalPending(st.pcs, x, c, u) && SignalPending(st.pcs, y, d, u)
    ensures c == d && CondExists(st, c)
  {
    hide QueuesOk;
    assert WaiterOk(st.pcs, st.semas, st.conds, x, st.pcs[x]) && WaiterOk(st.pcs, st.semas, st.conds, y, st.pcs[y]);
    assert QueuesOk(st) && c in st.conds;
    CondKnown(st, c);
  }

  lemma CondKnown(st: State, c: Cond)
    requires QueuesOk(st) && c in st.conds
    ensures CondExists(st, c)
  {
  }

  lemma OneSignaller(st: State, x: Tid, y: Tid, c: Cond, d: Cond, u: Tid)
    requires LocksOk(st) && CondsOk(st) && SignalPending(st.pcs, x, c, u) && SignalPending(st.pcs, y, d, u)
    ensures x == y
  {
    hide CondsOk;
    SameCondition(st, x, y, c, d, u);
    var l := c.lock;
    assert LockOk(st.pcs, l, st.semas[OfLock(l)], st.holder[l], st.owner[l]);
    assert RelyLock(st.pcs[x]) == Some(l) && RelyLock(st.pcs[y]) == Some(l);
  }

  lemma NoOtherSignaller(st: State, c: Cond, u: Tid, v: Tid)
    requires LocksOk(st) && CondsOk(st) && SignalPending(st.pcs, st.cur, c, u) && v in st.pcs && v != st.cur
    ensures st.pcs[v].SigUp? ==> st.pcs[v].t != u
  {
    if st.pcs[v].SigUp? && SignalPending(st.pcs, v, st.pcs[v].c, u) {
      OneSignaller(st, st.cur, v, c, st.pcs[v].c, u);
    }
  }

  lemma SigUpFor(st: State, st': State, c: Cond, u: Tid, all: bool, v: Tid)
    requires v in st.pcs && WaiterOk(st.pcs, st.semas, st.conds, v, st.pcs[v])
    requires st.cur in st.pcs && st.pcs[st.cur] == SigUp(c, u, all) && v != st.cur && v != u
    requires u in st.pcs && st.pcs[u] == WaitDown(c) && Waiter(u) in st.semas
    requires st.pcs[v].SigUp? ==> st.pcs[v].t != u
    requires st'.conds == st.conds && st'.semas == st.semas[Waiter(u) := Given(st.semas[Waiter(u)])]
    requires st'.pcs == st.pcs[st.cur := if all then SigPop(c, true) else User]
    ensures WaiterOk(st'.pcs, st'.semas, st'.conds, v, st'.pcs[v])
  {
    WaiterStaysOk(st, st', v);
  }

  lemma SigUpEach(st: State, st': State, c: Cond, u: Tid, all: bool, v: Tid)
    requires LocksOk(st) && CondsOk(st) && st.cur in st.pcs && st.pcs[st.cur] == SigUp(c, u, all)
    requires Waiter(u) in st.semas && v in st.pcs
    requires st'.conds == st.conds && st'.semas == st.semas[Waiter(u) := Given(st.semas[Waiter(u)])]
    requires st'.pcs == st.pcs[st.cur := if all then SigPop(c, true) else User]
    ensures WaiterOk(st'.pcs, st'.semas, st'.conds, v, st'.pcs[v])
  {
    hide LocksOk, QueuesOk;
    assert WaiterOk(st.pcs, st.semas, st.conds, st.cur, st.pcs[st.cur]);
    if v != st.cur && v != u {
      NoOtherSignaller(st, c, u, v);
      SigUpFor(st, st', c, u, all, v);
    }
  }

  lemma SigUpConds(st: State, st': State, c: Cond, u: Tid, all: bool)
    requires LocksOk(st) && CondsOk(st) && st.cur in st.pcs && st.pcs[st.cur] == SigUp(c, u, all)
    requires Waiter(u) in st.semas && Grown(st, st')
    requires st'.conds == st.conds && st'.semas == st.semas[Waiter(u) := Given(st.semas[Waiter(u)])]
    requires st'.pcs == st.pcs[st.cur := if all then SigPop(c, true) else User]
    ensures CondsOk(st')
  {
    QueuesUnaffected(st, st', st.cur);
    forall v | v in st'.pcs ensures WaiterOk(st'.pcs, st'.semas, st'.conds, v, st'.pcs[v]) {
      SigUpEach(st, st', c, u, all, v);
    }
  }

  // ---- every step keeps the whole invariant ----

  /** What a step on semaphore S leaves alone. */
  ghost predicate OnlySema(st: State, st': State, s: SemaId) {
    && Grown(st, st') && st'.conds == st.conds && st'.holder == st.holder && st'.owner == st.owner
    && (!s.Waiter? ==> SameWaiterValues(st, st')) && (!s.OfLock? ==> SameLockValues(st, st'))
    && forall k | k in st.semas && k != s :: st'.semas[k] == st.semas[k]
  }

  lemma OneSemaChanged(st: State, st': State, s: SemaId, m: Sema)
    requires s in st.semas && st'.semas == st.semas[s := m] && st'.conds == st.conds && st'.holder == st.holder
             && st'.owner == st.owner
    ensures OnlySema(st, st', s)
    ensures m.value == st.semas[s].value ==> SameWaiterValues(st, st')
    ensures m.value == st.semas[s].value && m.init == st.semas[s].init ==> SameLockValues(st, st')
  {
  }

  lemma DownOnly(st: State, s: SemaId, next: PC)
    requires s in st.semas
    ensures OnlySema(st, Down(st, s, next), s)
    ensures st.semas[s].value == 0 ==> SameWaiterValues(st, Down(st, s, next)) && SameLockValues(st, Down(st, s, next))
  {
    var m := st.semas[s];
    OneSemaChanged(st, Down(st, s, next), s, if m.value == 0 then Slept(m, st.cur) else Taken(m, st.cur));
  }

  lemma UpOnly(st: State, s: SemaId)
    requires s in st.semas
    ensures OnlySema(st, Up(st, s), s)
  {
    OneSemaChanged(st, Up(st, s), s, Given(st.semas[s]));
  }

  lemma SleepLocks(st: State, s: SemaId)
    requires LocksOk(st) && s in st.semas && st.semas[s].value == 0 && st.idle in st.pcs && st.pcs[st.idle] == User
    ensures LocksOk(Down(st, s, User))
  {
    DownOnly(st, s, User);
    LocksUnmoved(st, Down(st, s, User), st.idle);
  }

  lemma SleepConds(st: State, s: SemaId)
    requires CondsOk(st) && s in st.semas && st.semas[s].value == 0 && st.idle in st.pcs && st.pcs[st.idle] == User
    ensures CondsOk(Down(st, s, User))
  {
    DownOnly(st, s, User);
    CondsUnaffected(st, Down(st, s, User), st.idle);
  }

  lemma TakeLocks(st: State, s: SemaId, next: PC)
    requires LocksOk(st) && s in st.semas && !s.OfLock? && st.semas[s].value > 0 && st.cur in st.pcs
    requires next == User || (next.WaitAcq? && PcOk(st, st.cur, next) && st.pcs[st.cur] == WaitDown(next.c))
    ensures LocksOk(Down(st, s, next))
  {
    WantedNotHeld(st);
    DownOnly(st, s, next);
    PcStaysOk(st, Down(st, s, next), st.cur, next);
    LocksUnaffected(st, Down(st, s, next), next);
  }

  lemma TakeConds(st: State, s: SemaId, next: PC)
    requires CondsOk(st) && s in st.semas && !s.Waiter? && st.semas[s].value > 0
    requires st.cur in st.pcs && Neutral(st.pcs[st.cur]) && Neutral(next)
    ensures CondsOk(Down(st, s, next))
  {
    DownOnly(st, s, next);
    CondsUnaffected(st, Down(st, s, next), st.cur);
  }

  lemma TakenShape(st: State, l: Lid, next: PC)
    requires LockExists(st, l) && st.semas[OfLock(l)].value > 0
    requires next == AcqSet(l) || (next.WaitSet? && next.c.lock == l && CondExists(st, next.c))
    ensures var st' := LockDown(st, l, next);
            && OtherLocksSame(st, st', l) && PcOk(st', st.cur, next) && LockExists(st', l)
            && st'.pcs == st.pcs[st.cur := next] && st'.holder == st.holder && st'.owner[l] == Some(st.cur)
            && st'.semas[OfLock(l)] == Taken(st.semas[OfLock(l)], st.cur)
  {
    DownOnly(st, OfLock(l), next);
  }

  lemma ReleasedShape(st: State, l: Lid, next: PC)
    requires LockExists(st, l) && (next == User
               || (next.WaitDown? && CondExists(st, next.c) && Waiter(st.cur) in st.semas))
    ensures var st' := LockUp(st, l, next);
            && OtherLocksSame(st, st', l) && PcOk(st', st.cur, next) && LockExists(st', l)
            && st'.pcs == st.pcs[st.cur := next] && st'.holder == st.holder && st'.owner[l] == None
            && st'.semas[OfLock(l)] == Given(st.semas[OfLock(l)])
  {
    UpOnly(st, OfLock(l));
  }

  lemma TakeLockLocks(st: State, l: Lid, next: PC)
    requires LocksOk(st) && LockExists(st, l) && st.semas[OfLock(l)].value > 0 && st.cur in st.pcs
    requires next == AcqSet(l) || (next.WaitSet? && next.c.lock == l && CondExists(st, next.c))
    ensures LocksOk(LockDown(st, l, next))
  {
    LockTaken(st.pcs, l, st.semas[OfLock(l)], st.holder[l], st.owner[l], st.cur, next);
    TakenShape(st, l, next);
    LocksChangeOne(st, LockDown(st, l, next), l, next);
  }

  lemma LockDownSleeps(st: State, l: Lid, next: PC)
    requires LockExists(st, l) && st.semas[OfLock(l)].value == 0
    ensures LockDown(st, l, next) == Down(st, OfLock(l), User)
  {
    assert st.owner[l := st.owner[l]] == st.owner;
  }

  lemma LockUpLocks(st: State, l: Lid, next: PC)
    requires LocksOk(st) && LockExists(st, l) && st.cur in st.pcs && PassLock(st.pcs[st.cur]) == Some(l)
    requires next == User
             || (next.WaitDown? && next.c.lock == l && CondExists(st, next.c) && Waiter(st.cur) in st.semas)
    ensures LocksOk(LockUp(st, l, next))
  {
    LockReleased(st.pcs, l, st.semas[OfLock(l)], st.holder[l], st.owner[l], st.cur, next);
    ReleasedShape(st, l, next);
    LocksChangeOne(st, LockUp(st, l, next), l, next);
  }

  lemma LockUpConds(st: State, l: Lid, next: PC)
    requires CondsOk(st) && LockExists(st, l) && st.cur in st.pcs
    requires (st.pcs[st.cur] == RelUp(l) && next == User)
             || (st.pcs[st.cur].WaitUp? && next == WaitDown(st.pcs[st.cur].c))
    ensures CondsOk(LockUp(st, l, next))
  {
    hide CondsOk;
    var st' := LockUp(st, l, next);
    UpOnly(st, OfLock(l));
    if next == User { CondsUnaffected(st, st', st.cur); } else { WaitMovesOn(st, st', next.c); }
  }

  lemma HolderLocks(st: State, l: Lid, h: Option<Tid>, next: PC)
    requires LocksOk(st) && LockExists(st, l) && st.cur in st.pcs && PcOk(st, st.cur, next)
    requires (PassLock(st.pcs[st.cur]) == Some(l) && h == Some(st.cur) && next == User)
          || (RelyLock(st.pcs[st.cur]) == Some(l) && h == None && PassLock(next) == Some(l))
    ensures LocksOk(SetHolder(st, l, h, next))
  {
    hide LockOk;
    var st' := SetHolder(st, l, h, next);
    if h == None {
      LockCleared(st.pcs, l, st.semas[OfLock(l)], st.holder[l], st.owner[l], st.cur, next);
    } else {
      LockHeld(st.pcs, l, st.semas[OfLock(l)], st.holder[l], st.owner[l], st.cur);
    }
    PcStaysOk(st, st', st.cur, next);
    LocksChangeOne(st, st', l, next);
  }

  lemma HolderConds(st: State, l: Lid, h: Option<Tid>, next: PC)
    requires CondsOk(st) && LockExists(st, l) && st.cur in st.pcs
    requires (Neutral(st.pcs[st.cur]) && Neutral(next))
             || (st.pcs[st.cur].WaitClear? && next == WaitUp(st.pcs[st.cur].c))
    ensures CondsOk(SetHolder(st, l, h, next))
  {
    var st' := SetHolder(st, l, h, next);
    if Neutral(next) { CondsUnaffected(st, st', st.cur); } else { WaitMovesOn(st, st', next.c); }
  }

  lemma MoveShape(st: State, next: PC)
    requires PcOk(st, st.cur, next)
    ensures var st' := SetPc(st, next);
            Grown(st, st') && SameLockValues(st, st') && SameWaiterValues(st, st') && PcOk(st', st.cur, next)
  {
    PcStaysOk(st, SetPc(st, next), st.cur, next);
  }

  lemma PushedShape(st: State, c: Cond)
    requires CondExists(st, c)
    ensures var st' := Pushed(st, c); Grown(st, st') && SameLockValues(st, st') && PcOk(st', st.cur, WaitClear(c))
  {
  }

  lemma ReliedOnHeld(st: State)
    requires LocksOk(st) && st.cur in st.pcs
    ensures RelyOk(st, st.pcs[st.cur])
  {
    assert PcOk(st, st.cur, st.pcs[st.cur]);
    if RelyLock(st.pcs[st.cur]).Some? {
      var l := RelyLock(st.pcs[st.cur]).value;
      assert LockOk(st.pcs, l, st.semas[OfLock(l)], st.holder[l], st.owner[l]);
    }
  }

  lemma WantedNotHeld(st: State)
    requires LocksOk(st) && st.cur in st.pcs
    ensures WantOk(st, st.pcs[st.cur])
  {
    if WantLock(st.pcs[st.cur]).Some? && WantLock(st.pcs[st.cur]).value in st.holder {
      var l := WantLock(st.pcs[st.cur]).value;
      assert LockOk(st.pcs, l, st.semas[OfLock(l)], st.holder[l], st.owner[l]);
    }
  }

  lemma SleepSame(st: State, s: SemaId, next: PC)
    requires s in st.semas && st.semas[s].value == 0
    ensures Down(st, s, next) == Down(st, s, User)
  {
  }

  lemma PoppedShape(st: State, c: Cond, all: bool)
    requires CondExists(st, c) && st.conds[c] != [] && Waiter(st.conds[c][0]) in st.semas
    ensures var st' := Popped(st, c, all);
            Grown(st, st') && SameLockValues(st, st') && PcOk(st', st.cur, SigUp(c, st.conds[c][0], all))
  {
  }

  lemma SignalledShape(st: State, c: Cond, u: Tid, next: PC)
    requires CondExists(st, c) && Waiter(u) in st.semas && (next == User || next == SigPop(c, true))
    ensures var st' := SetPc(Up(st, Waiter(u)), next);
            && Grown(st, st') && SameLockValues(st, st') && PcOk(st', st.cur, next) && st'.conds == st.conds
            && st'.semas == st.semas[Waiter(u) := Given(st.semas[Waiter(u)])] && st'.pcs == st.pcs[st.cur := next]
            && st'.holder == st.holder && st'.owner == st.owner
  {
    UpOnly(st, Waiter(u));
  }

  lemma SigUpLocks(st: State, c: Cond, u: Tid, next: PC)
    requires LocksOk(st) && st.cur in st.pcs && st.pcs[st.cur].SigUp? && st.pcs[st.cur].c == c
    requires CondExists(st, c) && Waiter(u) in st.semas && (next == User || next == SigPop(c, true))
    ensures LocksOk(SetPc(Up(st, Waiter(u)), next))
  {
    hide LocksOk, LockOk, PcOk, Up, Grown, SameLockValues;
    SignalledShape(st, c, u, next);
    ReliedOnHeld(st);
    LocksUnaffected(st, SetPc(Up(st, Waiter(u)), next), next);
  }

  lemma LockTryFails(st: State, l: Lid)
    requires LockExists(st, l) && st.semas[OfLock(l)].value == 0
    ensures LockTry(st, l, AcqSet(l)) == SetPc(st, User)
  {
    assert st.owner[l := st.owner[l]] == st.owner;
  }

  lemma RunningFacts(st: State)
    requires Inv(st)
    ensures st.cur in st.pcs && PcOk(st, st.cur, st.pcs[st.cur]) && (st.pcs[st.cur] != User ==> st.cur != st.idle)
  {
  }

  lemma StatusShape(st: State, st': State)
    requires st'.semas == st.semas && st'.holder == st.holder && st'.owner == st.owner && st'.conds == st.conds
    ensures Grown(st, st') && SameLockValues(st, st') && SameWaiterValues(st, st')
  {
  }

  /** Scheduling after a yield or an idle block leaves every other thread as blocked as it was. */
  lemma RescheduledSemas(st: State, st': State)
    requires SemasOk(st) && ThreadsOk(st) && st'.semas == st.semas && st'.pcs == st.pcs && st'.idle == st.idle
    requires forall t | t in st.status && t != st.idle ::
               t in st'.status && (st'.status[t] == Blocked <==> st.status[t] == Blocked)
    requires forall t | t in st'.status :: t in st.status
    ensures SemasOk(st')
  {
    forall r | r in st'.semas ensures SemaOk(st'.status, st'.pcs, st'.idle, r, st'.semas[r]) {
      assert SemaOk(st.status, st.pcs, st.idle, r, st.semas[r]);
      SemaUnaffected(st.status, st.pcs, st.idle, r, st.semas[r], st'.status, st'.pcs, st.idle);
    }
    forall t | t in st'.status && t != st'.idle && st'.status[t] == Blocked ensures Queued(st'.pcs, st'.semas, t) {
      assert Queued(st.pcs, st.semas, t);
    }
  }

  lemma YieldSemas(st: State)
    requires SemasOk(st) && ThreadsOk(st)
    ensures SemasOk(Yield(st))
  {
    hide SemasOk, Yield;
    var st' := Yield(st);
    forall t | t in st.status && t != st.idle
      ensures t in st'.status && (st'.status[t] == Blocked <==> st.status[t] == Blocked)
    {
      YieldStatus(st, t);
    }
    YieldShape(st);
    RescheduledSemas(st, st');
  }

  lemma YieldStatus(st: State, t: Tid)
    requires ThreadsOk(st) && t in st.status && t != st.idle
    ensures t in Yield(st).status && (Yield(st).status[t] == Blocked <==> st.status[t] == Blocked)
  {
    if t != st.cur {
      if st.cur == st.idle { ScheduleStatus(st, Ready, t); }
      else { assert st.ready != [] ==> st.ready[0] in st.ready; }
    }
  }

  lemma YieldShape(st: State)
    requires ThreadsOk(st)
    ensures var st' := Yield(st);
            && st'.semas == st.semas && st'.pcs == st.pcs && st'.idle == st.idle
            && forall t | t in st'.status :: t in st.status
  {
    assert st.ready != [] ==> st.ready[0] in st.ready;
  }

  lemma IdleThreads(st: State)
    requires ThreadsOk(st) && st.cur == st.idle
    ensures ThreadsOk(Schedule(st, Blocked))
  {
    DispatchQueue(st, Blocked);
  }

  lemma CreateSemas(st: State, st': State, t: Tid)
    requires SemasOk(st) && ThreadsOk(st) && t !in st.status && st' == Unblock(st.(pcs := st.pcs[t := User]), t)
    ensures SemasOk(st')
  {
    forall r | r in st'.semas ensures SemaOk(st'.status, st'.pcs, st'.idle, r, st'.semas[r]) {
      assert SemaOk(st.status, st.pcs, st.idle, r, st.semas[r]);
      SemaUnaffected(st.status, st.pcs, st.idle, r, st.semas[r], st'.status, st'.pcs, t);
    }
    forall u | u in st'.status && u != st'.idle && st'.status[u] == Blocked ensures Queued(st'.pcs, st'.semas, u) {
      assert Queued(st.pcs, st.semas, u);
    }
  }

  lemma ExitSemas(st: State)
    requires SemasOk(st) && ThreadsOk(st) && Enabled(st, Exit)
    ensures SemasOk(Exited(st))
  {
    var st' := Exited(st);
    forall t | t in st.status && t != st.idle && t != st.cur
      ensures t in st'.status && (st'.status[t] == Blocked <==> st.status[t] == Blocked)
    {
      ScheduleStatus(st, Blocked, t);
    }
    forall r | r in st'.semas ensures SemaOk(st'.status, st'.pcs, st'.idle, r, st'.semas[r]) {
      assert SemaOk(st.status, st.pcs, st.idle, r, st.semas[r]);
      SemaUnaffected(st.status, st.pcs, st.idle, r, st.semas[r], st'.status, st'.pcs, st.cur);
    }
    forall t | t in st'.status && t != st'.idle && st'.status[t] == Blocked ensures Queued(st'.pcs, st'.semas, t) {
      assert Queued(st.pcs, st.semas, t);
    }
  }

  // ---- assembly: threads and semaphores ----

  lemma DownSemas(st: State, s: SemaId, next: PC)
    requires ThreadsOk(st) && SemasOk(st) && s in st.semas && st.cur != st.idle
             && DownOn(st.cur, st.pcs[st.cur]) == Some(s)
    ensures ThreadsOk(Down(st, s, next)) && SemasOk(Down(st, s, next))
  {
    if st.semas[s].value == 0 { SleepKeeps(st, s); SleepSame(st, s, next); } else { TakeKeeps(st, s, next); }
  }

  lemma TrySemas(st: State, s: SemaId, next: PC)
    requires ThreadsOk(st) && SemasOk(st) && s in st.semas && st.cur != st.idle
             && DownOn(st.cur, st.pcs[st.cur]) == None
    ensures ThreadsOk(TryDown(st, s, next)) && SemasOk(TryDown(st, s, next))
  {
    if st.semas[s].value == 0 { SetPcKeeps(st, User); } else { TakeKeeps(st, s, next); }
  }

  lemma UpSemas(st: State, s: SemaId, next: PC)
    requires ThreadsOk(st) && SemasOk(st) && s in st.semas && st.cur != st.idle
             && DownOn(st.cur, st.pcs[st.cur]) == None
    ensures var st' := SetPc(Up(st, s), next); ThreadsOk(st') && SemasOk(st')
  {
    UpKeeps(st, s);
    SetPcKeeps(Up(st, s), next);
  }

  lemma PushedSemas(st: State, c: Cond)
    requires ThreadsOk(st) && SemasOk(st) && c in st.conds && st.cur != st.idle
             && DownOn(st.cur, st.pcs[st.cur]) == None
    ensures ThreadsOk(Pushed(st, c)) && SemasOk(Pushed(st, c))
  {
    var reset := SetSema(st, Waiter(st.cur), Sema(0, [], 0, 0, 0, {}));
    ResetKeeps(st);
    SetPcKeeps(reset, WaitClear(c));
    TablesIrrelevant(SetPc(reset, WaitClear(c)), Pushed(st, c));
  }

  /** Threads and semaphores do not look at the tables of locks and conditions. */
  lemma TablesIrrelevant(st: State, st': State)
    requires st'.(conds := st.conds, holder := st.holder, owner := st.owner) == st && ThreadsOk(st) && SemasOk(st)
    ensures ThreadsOk(st') && SemasOk(st')
  {
  }

  lemma LockDownSemas(st: State, l: Lid, next: PC)
    requires ThreadsOk(st) && SemasOk(st) && OfLock(l) in st.semas && l in st.owner && st.cur != st.idle
             && DownOn(st.cur, st.pcs[st.cur]) == Some(OfLock(l))
    ensures ThreadsOk(LockDown(st, l, next)) && SemasOk(LockDown(st, l, next))
  {
    DownSemas(st, OfLock(l), next);
    hide ThreadsOk, SemasOk, Down;
    TablesIrrelevant(Down(st, OfLock(l), next), LockDown(st, l, next));
  }

  lemma LockTrySemas(st: State, l: Lid, next: PC)
    requires ThreadsOk(st) && SemasOk(st) && OfLock(l) in st.semas && l in st.owner && st.cur != st.idle
             && DownOn(st.cur, st.pcs[st.cur]) == None
    ensures ThreadsOk(LockTry(st, l, next)) && SemasOk(LockTry(st, l, next))
  {
    TrySemas(st, OfLock(l), next);
    hide ThreadsOk, SemasOk, TryDown;
    TablesIrrelevant(TryDown(st, OfLock(l), next), LockTry(st, l, next));
  }

  lemma LockUpSemas(st: State, l: Lid, next: PC)
    requires ThreadsOk(st) && SemasOk(st) && OfLock(l) in st.semas && st.cur != st.idle
             && DownOn(st.cur, st.pcs[st.cur]) == None
    ensures ThreadsOk(LockUp(st, l, next)) && SemasOk(LockUp(st, l, next))
  {
    UpSemas(st, OfLock(l), next);
    hide ThreadsOk, SemasOk, Up;
    TablesIrrelevant(SetPc(Up(st, OfLock(l)), next), LockUp(st, l, next));
  }

  lemma HolderSemas(st: State, l: Lid, h: Option<Tid>, next: PC)
    requires ThreadsOk(st) && SemasOk(st) && st.cur != st.idle && DownOn(st.cur, st.pcs[st.cur]) == None
    ensures ThreadsOk(SetHolder(st, l, h, next)) && SemasOk(SetHolder(st, l, h, next))
  {
    SetPcKeeps(st, next);
    hide ThreadsOk, SemasOk;
    TablesIrrelevant(SetPc(st, next), SetHolder(st, l, h, next));
  }

  lemma PoppedSemas(st: State, c: Cond, all: bool)
    requires ThreadsOk(st) && SemasOk(st) && st.cur != st.idle && DownOn(st.cur, st.pcs[st.cur]) == None
    requires c in st.conds && st.conds[c] != []
    ensures ThreadsOk(Popped(st, c, all)) && SemasOk(Popped(st, c, all))
  {
    var next := SigUp(c, st.conds[c][0], all);
    SetPcKeeps(st, next);
    hide ThreadsOk, SemasOk;
    TablesIrrelevant(SetPc(st, next), Popped(st, c, all));
  }

  lemma ExecuteSemas(st: State)
    requires ThreadsOk(st) && SemasOk(st) && st.cur in st.pcs && st.cur != st.idle && PcOk(st, st.cur, st.pcs[st.cur])
    ensures ThreadsOk(Execute(st)) && SemasOk(Execute(st))
  {
    hide ThreadsOk, SemasOk, Down, TryDown, Up, LockDown, LockTry, LockUp, SetHolder, Pushed, Popped;
    match st.pcs[st.cur] {
      case SemaDown(s) => DownSemas(st, Plain(s), User);
      case SemaTry(s) => TrySemas(st, Plain(s), User);
      case SemaUp(s) => UpSemas(st, Plain(s), User);
      case AcqDown(l) => LockDownSemas(st, l, AcqSet(l));
      case AcqTry(l) => LockTrySemas(st, l, AcqSet(l));
      case RelUp(l) => LockUpSemas(st, l, User);
      case WaitPush(c) => PushedSemas(st, c);
      case WaitUp(c) => LockUpSemas(st, c.lock, WaitDown(c));
      case WaitDown(c) => DownSemas(st, Waiter(st.cur), WaitAcq(c));
      case WaitAcq(c) => LockDownSemas(st, c.lock, WaitSet(c));
      case SigUp(c, u, all) => UpSemas(st, Waiter(u), if all then SigPop(c, true) else User);
      case User =>
      case AcqSet(l) => HolderSemas(st, l, Some(st.cur), User);
      case RelClear(l) => HolderSemas(st, l, None, RelUp(l));
      case WaitClear(c) => HolderSemas(st, c.lock, None, WaitUp(c));
      case WaitSet(c) => HolderSemas(st, c.lock, Some(st.cur), User);
      case SigPop(c, all) =>
        if st.conds[c] == [] {
          SetPcKeeps(st, User);
        } else {
          PoppedSemas(st, c, all);
        }
    }
  }

  // ---- assembly: locks ----

  ghost predicate IdleOutside(st: State) {
    st.idle in st.pcs && st.pcs[st.idle] == User && st.cur in st.pcs
  }

  lemma DownLocks(st: State, s: SemaId, next: PC)
    requires LocksOk(st) && IdleOutside(st) && s in st.semas && !s.OfLock?
    requires next == User || (next.WaitAcq? && PcOk(st, st.cur, next) && st.pcs[st.cur] == WaitDown(next.c))
    ensures LocksOk(Down(st, s, next))
  {
    if st.semas[s].value == 0 { SleepLocks(st, s); SleepSame(st, s, next); } else { TakeLocks(st, s, next); }
  }

  lemma LockDownLocks(st: State, l: Lid, next: PC)
    requires LocksOk(st) && IdleOutside(st) && LockExists(st, l)
    requires next == AcqSet(l) || (next.WaitSet? && next.c.lock == l && CondExists(st, next.c))
    ensures LocksOk(LockDown(st, l, next))
  {
    if st.semas[OfLock(l)].value == 0 { SleepLocks(st, OfLock(l)); LockDownSleeps(st, l, next); }
    else { TakeLockLocks(st, l, next); }
  }

  lemma MoveLocks(st: State, next: PC)
    requires LocksOk(st) && st.cur in st.pcs && PcOk(st, st.cur, next) && PassLock(next) == None
    requires RelyOk(st, next) && WantOk(st, next)
    ensures LocksOk(SetPc(st, next))
  {
    MoveShape(st, next);
    LocksUnaffected(st, SetPc(st, next), next);
  }

  lemma LockTryLocks(st: State, l: Lid)
    requires LocksOk(st) && IdleOutside(st) && LockExists(st, l)
    ensures LocksOk(LockTry(st, l, AcqSet(l)))
  {
    if st.semas[OfLock(l)].value == 0 { MoveLocks(st, User); LockTryFails(st, l); }
    else { TakeLockLocks(st, l, AcqSet(l)); }
  }

  lemma SemaTryLocks(st: State, n: nat)
    requires LocksOk(st) && IdleOutside(st) && Plain(n) in st.semas
    ensures LocksOk(TryDown(st, Plain(n), User))
  {
    if st.semas[Plain(n)].value == 0 { MoveLocks(st, User); } else { TakeLocks(st, Plain(n), User); }
  }

  lemma PlainUpLocks(st: State, n: nat)
    requires LocksOk(st) && IdleOutside(st) && Plain(n) in st.semas
    ensures LocksOk(Up(st, Plain(n)))
  {
    UpOnly(st, Plain(n));
    LocksUnmoved(st, Up(st, Plain(n)), st.idle);
  }

  lemma PushedLocks(st: State, c: Cond)
    requires LocksOk(st) && st.cur in st.pcs && st.pcs[st.cur] == WaitPush(c) && CondExists(st, c)
    ensures LocksOk(Pushed(st, c))
  {
    PushedShape(st, c);
    ReliedOnHeld(st);
    LocksUnaffected(st, Pushed(st, c), WaitClear(c));
  }

  lemma PoppedLocks(st: State, c: Cond, all: bool)
    requires LocksOk(st) && CondsOk(st) && st.cur in st.pcs && st.pcs[st.cur] == SigPop(c, all) && CondExists(st, c)
             && st.conds[c] != []
    ensures LocksOk(Popped(st, c, all))
  {
    hide LocksOk, CondsOk, LockOk, WaiterOk, Grown, SameLockValues, PcOk;
    FrontHasReleased(st, c, st.conds[c][0]);
    PoppedShape(st, c, all);
    ReliedOnHeld(st);
    LocksUnaffected(st, Popped(st, c, all), SigUp(c, st.conds[c][0], all));
  }

  lemma SemaUpLocks(st: State, n: nat)
    requires LocksOk(st) && IdleOutside(st) && Plain(n) in st.semas
    ensures LocksOk(SetPc(Up(st, Plain(n)), User))
  {
    PlainUpLocks(st, n);
    MoveLocks(Up(st, Plain(n)), User);
  }

  lemma ExecuteLocks(st: State)
    requires LocksOk(st) && CondsOk(st) && IdleOutside(st) && PcOk(st, st.cur, st.pcs[st.cur])
    ensures LocksOk(Execute(st))
  {
    hide LocksOk, LockOk, Down, TryDown, Up, CondsOk;
    var me := st.cur;
    match st.pcs[me]
    case User =>
    case SemaDown(s) => DownLocks(st, Plain(s), User);
    case SemaTry(s) => SemaTryLocks(st, s);
    case SemaUp(s) => SemaUpLocks(st, s);
    case AcqDown(l) => LockDownLocks(st, l, AcqSet(l));
    case AcqTry(l) => LockTryLocks(st, l);
    case AcqSet(l) => HolderLocks(st, l, Some(me), User);
    case RelClear(l) => HolderLocks(st, l, None, RelUp(l));
    case RelUp(l) => LockUpLocks(st, l, User);
    case WaitPush(c) => PushedLocks(st, c);
    case WaitClear(c) => HolderLocks(st, c.lock, None, WaitUp(c));
    case WaitUp(c) => LockUpLocks(st, c.lock, WaitDown(c));
    case WaitDown(c) => DownLocks(st, Waiter(me), WaitAcq(c));
    case WaitAcq(c) => LockDownLocks(st, c.lock, WaitSet(c));
    case WaitSet(c) => HolderLocks(st, c.lock, Some(me), User);
    case SigPop(c, all) => if st.conds[c] == [] { MoveLocks(st, User); } else { PoppedLocks(st, c, all); }
    case SigUp(c, u, all) => SigUpLocks(st, c, u, if all then SigPop(c, true) else User);
  }

  // ---- assembly: conditions ----

  lemma DownConds(st: State, s: SemaId, next: PC)
    requires CondsOk(st) && IdleOutside(st) && s in st.semas && !s.Waiter? && Neutral(st.pcs[st.cur]) && Neutral(next)
    ensures CondsOk(Down(st, s, next))
  {
    if st.semas[s].value == 0 { SleepConds(st, s); SleepSame(st, s, next); } else { TakeConds(st, s, next); }
  }

  lemma MoveConds(st: State, next: PC)
    requires CondsOk(st) && st.cur in st.pcs && Neutral(st.pcs[st.cur]) && Neutral(next)
    ensures CondsOk(SetPc(st, next))
  {
    CondsUnaffected(st, SetPc(st, next), st.cur);
  }

  lemma TryConds(st: State, s: SemaId, next: PC)
    requires CondsOk(st) && IdleOutside(st) && s in st.semas && !s.Waiter? && Neutral(st.pcs[st.cur]) && Neutral(next)
    ensures CondsOk(TryDown(st, s, next))
  {
    if st.semas[s].value == 0 { MoveConds(st, User); } else { TakeConds(st, s, next); }
  }

  lemma OwnerIrrelevant(st: State, owner: map<Lid, Option<Tid>>)
    requires CondsOk(st) && forall l | l in st.owner :: l in owner
    ensures CondsOk(st.(owner := owner))
  {
  }

  lemma LockDownConds(st: State, l: Lid, next: PC)
    requires CondsOk(st) && IdleOutside(st) && LockExists(st, l) && Neutral(st.pcs[st.cur]) && Neutral(next)
    ensures CondsOk(LockDown(st, l, next)) && CondsOk(LockTry(st, l, next))
  {
    DownConds(st, OfLock(l), next);
    TryConds(st, OfLock(l), next);
    OwnerIrrelevant(Down(st, OfLock(l), next), st.owner[l := Taker(st, l)]);
    OwnerIrrelevant(TryDown(st, OfLock(l), next), st.owner[l := Taker(st, l)]);
  }

  lemma PlainUpConds(st: State, n: nat)
    requires CondsOk(st) && IdleOutside(st) && Plain(n) in st.semas
    ensures CondsOk(Up(st, Plain(n)))
  {
    UpOnly(st, Plain(n));
    CondsUnaffected(st, Up(st, Plain(n)), st.idle);
  }

  lemma SemaUpConds(st: State, n: nat)
    requires CondsOk(st) && IdleOutside(st) && Plain(n) in st.semas && Neutral(st.pcs[st.cur])
    ensures CondsOk(SetPc(Up(st, Plain(n)), User))
  {
    PlainUpConds(st, n);
    MoveConds(Up(st, Plain(n)), User);
  }

  lemma OwnWaitConds(st: State, c: Cond)
    requires CondsOk(st) && IdleOutside(st) && st.pcs[st.cur] == WaitDown(c) && PcOk(st, st.cur, WaitDown(c))
    ensures CondsOk(Down(st, Waiter(st.cur), WaitAcq(c)))
  {
    if st.semas[Waiter(st.cur)].value == 0 {
      SleepConds(st, Waiter(st.cur)); SleepSame(st, Waiter(st.cur), WaitAcq(c));
    }
    else { WaitDownConds(st, c); }
  }

  lemma PoppedConds(st: State, c: Cond, all: bool)
    requires LocksOk(st) && CondsOk(st) && st.cur in st.pcs && st.pcs[st.cur] == SigPop(c, all) && CondExists(st, c)
             && st.conds[c] != []
    ensures CondsOk(Popped(st, c, all))
  {
    FrontHasReleased(st, c, st.conds[c][0]);
    PoppedShape(st, c, all);
    SigPopConds(st, Popped(st, c, all), c, all);
  }

  lemma SignalledConds(st: State, c: Cond, u: Tid, all: bool)
    requires LocksOk(st) && CondsOk(st) && st.cur in st.pcs && st.pcs[st.cur] == SigUp(c, u, all)
             && PcOk(st, st.cur, st.pcs[st.cur])
    ensures CondsOk(SetPc(Up(st, Waiter(u)), if all then SigPop(c, true) else User))
  {
    var next := if all then SigPop(c, true) else User;
    SignalledShape(st, c, u, next);
    SigUpConds(st, SetPc(Up(st, Waiter(u)), next), c, u, all);
  }

  lemma ExecuteConds(st: State)
    requires LocksOk(st) && CondsOk(st) && IdleOutside(st) && PcOk(st, st.cur, st.pcs[st.cur])
    ensures CondsOk(Execute(st))
  {
    var me := st.cur;
    match st.pcs[me]
    case User =>
    case SemaDown(s) => DownConds(st, Plain(s), User);
    case SemaTry(s) => TryConds(st, Plain(s), User);
    case SemaUp(s) => SemaUpConds(st, s);
    case AcqDown(l) => LockDownConds(st, l, AcqSet(l));
    case AcqTry(l) => LockDownConds(st, l, AcqSet(l));
    case AcqSet(l) => HolderConds(st, l, Some(me), User);
    case RelClear(l) => HolderConds(st, l, None, RelUp(l));
    case RelUp(l) => LockUpConds(st, l, User);
    case WaitPush(c) => WaitPushConds(st, c);
    case WaitClear(c) => HolderConds(st, c.lock, None, WaitUp(c));
    case WaitUp(c) => LockUpConds(st, c.lock, WaitDown(c));
    case WaitDown(c) => OwnWaitConds(st, c);
    case WaitAcq(c) => LockDownConds(st, c.lock, WaitSet(c));
    case WaitSet(c) => HolderConds(st, c.lock, Some(me), User);
    case SigPop(c, all) => if st.conds[c] == [] { MoveConds(st, User); } else { PoppedConds(st, c, all); }
    case SigUp(c, u, all) => SignalledConds(st, c, u, all);
  }

  // ---- the invariant holds in every reachable state ----

  lemma StepSemas(st: State, e: Event)
    requires ThreadsOk(st) && SemasOk(st) && PcOk(st, st.cur, st.pcs[st.cur]) && Enabled(st, e)
    ensures ThreadsOk(Step(st, e)) && SemasOk(Step(st, e))
  {
    match e
    case Exec => ExecuteSemas(st);
    case Call(pc) => SetPcKeeps(st, pc);
    case Preempt => YieldThreads(st); YieldSemas(st);
    case IntrUp(s) => UpKeeps(st, Plain(s));
    case Create(t) => CreateThreads(st, t); CreateSemas(st, Step(st, e), t);
    case Exit => ExitThreads(st); ExitSemas(st);
    case IdleBlock => IdleThreads(st); IdleSemas(st);
  }

  lemma CreateThreads(st: State, t: Tid)
    requires ThreadsOk(st) && t !in st.status
    ensures ThreadsOk(Unblock(st.(pcs := st.pcs[t := User]), t))
  {
    PushBack(st.ready, t);
  }

  lemma IdleSemas(st: State)
    requires SemasOk(st) && ThreadsOk(st) && st.cur == st.idle
    ensures SemasOk(Schedule(st, Blocked))
  {
    var st' := Schedule(st, Blocked);
    forall t | t in st.status && t != st.idle
      ensures t in st'.status && (st'.status[t] == Blocked <==> st.status[t] == Blocked)
    {
      ScheduleStatus(st, Blocked, t);
    }
    RescheduledSemas(st, st');
  }

  lemma StepLocks(st: State, e: Event)
    requires LocksOk(st) && CondsOk(st) && IdleOutside(st) && PcOk(st, st.cur, st.pcs[st.cur]) && Enabled(st, e)
    ensures LocksOk(Step(st, e))
  {
    match e
    case Exec => ExecuteLocks(st);
    case Call(pc) => MoveLocks(st, pc);
    case Preempt => StatusShape(st, Yield(st)); LocksUnmoved(st, Yield(st), st.idle);
    case IntrUp(s) => PlainUpLocks(st, s);
    case Create(t) => StatusShape(st, Step(st, e)); LocksUnmoved(st, Step(st, e), t);
    case Exit => StatusShape(st, Exited(st)); LocksUnmoved(st, Exited(st), st.cur);
    case IdleBlock => StatusShape(st, Step(st, e)); LocksUnmoved(st, Step(st, e), st.idle);
  }

  lemma StepConds(st: State, e: Event)
    requires LocksOk(st) && CondsOk(st) && IdleOutside(st) && PcOk(st, st.cur, st.pcs[st.cur]) && Enabled(st, e)
    requires e.Create? ==> e.t !in st.pcs
    ensures CondsOk(Step(st, e))
  {
    match e
    case Exec => ExecuteConds(st);
    case Call(pc) => MoveConds(st, pc);
    case Preempt => StatusShape(st, Yield(st)); CondsUnaffected(st, Yield(st), st.idle);
    case IntrUp(s) => PlainUpConds(st, s);
    case Create(t) => StatusShape(st, Step(st, e)); CondsUnaffected(st, Step(st, e), t);
    case Exit => StatusShape(st, Exited(st)); CondsUnaffected(st, Exited(st), st.cur);
    case IdleBlock => StatusShape(st, Step(st, e)); CondsUnaffected(st, Step(st, e), st.idle);
  }

  /** Every step from a good state is defined and leads to a good state. */
  lemma StepKeepsInv(st: State, e: Event)
    requires Inv(st) && st.cur in st.pcs && Enabled(st, e)
    ensures PcOk(st, st.cur, st.pcs[st.cur]) && Inv(Step(st, e))
  {
    RunningFacts(st);
    StepSemas(st, e);
    StepLocks(st, e);
    StepConds(st, e);
  }
}
