/** Threads, semaphores, locks and condition variables: threads/thread.c and
    threads/synch.c as a step machine.

    A section that runs with interrupts off is one atomic step.  Between any two
    steps of a thread the timer may preempt it, and interrupt handlers may "up"
    semaphores.  A thread's program counter records which call of the synch.c
    interface it is inside and how far it has come. */
module Synch {
  import opened Common

  type Tid = nat
  type Lid = nat

  /** A condition variable belongs to one lock. */
  datatype Cond = Cond(lock: Lid, id: nat)

  /** Semaphores: free-standing ones, the one inside each lock, and the one on the
      stack of each thread that is inside cond_wait. */
  datatype SemaId = Plain(n: nat) | OfLock(l: Lid) | Waiter(t: Tid)

  /** `value` and `waiters` are struct semaphore.  The rest is history: the initial
      value, completed ups and downs, and the threads that sema_up has taken off
      `waiters` and that have not yet retested the value. */
  datatype Sema = Sema(value: nat, waiters: seq<Tid>, init: nat, ups: nat, downs: nat, woken: set<Tid>)

  datatype Status = Running | Ready | Blocked

  datatype PC =
    | User                                  // outside synch.c
    | SemaDown(s: nat) | SemaTry(s: nat) | SemaUp(s: nat)
    | AcqDown(l: Lid) | AcqTry(l: Lid) | AcqSet(l: Lid)
    | RelClear(l: Lid) | RelUp(l: Lid)
    | WaitPush(c: Cond) | WaitClear(c: Cond) | WaitUp(c: Cond)
    | WaitDown(c: Cond) | WaitAcq(c: Cond) | WaitSet(c: Cond)
    | SigPop(c: Cond, all: bool) | SigUp(c: Cond, t: Tid, all: bool)

  /** `owner` (who has been through a lock's sema_down but not its sema_up) and
      `dispatches` (calls of schedule) are history. */
  datatype State = State(
    cur: Tid, idle: Tid, ready: seq<Tid>, status: map<Tid, Status>, pcs: map<Tid, PC>,
    semas: map<SemaId, Sema>, holder: map<Lid, Option<Tid>>, conds: map<Cond, seq<Tid>>,
    owner: map<Lid, Option<Tid>>, dispatches: nat)

  datatype Event =
    | Exec                     // the running thread's next step inside synch.c
    | Call(pc: PC)             // the running thread enters synch.c
    | Preempt                  // thread_yield, from the timer or the thread itself
    | IntrUp(s: nat)           // sema_up in an interrupt handler
    | Create(t: Tid)           // thread_create
    | Exit                     // thread_exit
    | IdleBlock                // the idle thread's thread_block

  // ---- thread.c ----

  /** next_thread_to_run */
  function NextThread(st: State): Tid {
    if st.ready == [] then st.idle else st.ready[0]
  }

  /** schedule and thread_schedule_tail, once the current thread's status is S. */
  function Schedule(st: State, s: Status): State {
    var next := NextThread(st);
    st.(cur := next, ready := if st.ready == [] then [] else st.ready[1..],
        status := st.status[st.cur := s][next := Running], dispatches := st.dispatches + 1)
  }

  function Unblock(st: State, t: Tid): State {
    st.(ready := st.ready + [t], status := st.status[t := Ready])
  }

  function Yield(st: State): State {
    Schedule(if st.cur == st.idle then st else st.(ready := st.ready + [st.cur]), Ready)
  }

  /** thread_exit; the dying thread's page is freed by thread_schedule_tail. */
  function Exited(st: State): State {
    var next := Schedule(st, Blocked);
    next.(status := next.status - {st.cur}, pcs := next.pcs - {st.cur})
  }

  function SetPc(st: State, pc: PC): State {
    st.(pcs := st.pcs[st.cur := pc])
  }

  // ---- synch.c ----

  function SetSema(st: State, s: SemaId, m: Sema): State {
    st.(semas := st.semas[s := m])
  }

  function Slept(m: Sema, t: Tid): Sema {
    m.(waiters := m.waiters + [t], woken := m.woken - {t})
  }

  function Taken(m: Sema, t: Tid): Sema
    requires m.value > 0
  {
    m.(value := m.value - 1, downs := m.downs + 1, woken := m.woken - {t})
  }

  function Given(m: Sema): Sema {
    var up := m.(value := m.value + 1, ups := m.ups + 1);
    if m.waiters == [] then up
    else up.(waiters := m.waiters[1..], woken := m.woken + {m.waiters[0]})
  }

  /** One evaluation of sema_down's loop: decrement and go on to NEXT, or sleep. */
  function Down(st: State, s: SemaId, next: PC): State
    requires s in st.semas
  {
    var m := st.semas[s];
    if m.value == 0 then Schedule(SetSema(st, s, Slept(m, st.cur)), Blocked)
    else SetPc(SetSema(st, s, Taken(m, st.cur)), next)
  }

  /** sema_try_down */
  function TryDown(st: State, s: SemaId, next: PC): State
    requires s in st.semas
  {
    if st.semas[s].value == 0 then SetPc(st, User) else Down(st, s, next)
  }

  /** sema_up */
  function Up(st: State, s: SemaId): State
    requires s in st.semas
  {
    var m := st.semas[s];
    var up := SetSema(st, s, Given(m));
    if m.waiters == [] then up else Unblock(up, m.waiters[0])
  }

  /** Whose the lock is once the running thread has tried its semaphore. */
  function Taker(st: State, l: Lid): Option<Tid>
    requires OfLock(l) in st.semas && l in st.owner
  {
    if st.semas[OfLock(l)].value == 0 then st.owner[l] else Some(st.cur)
  }

  function LockDown(st: State, l: Lid, next: PC): State
    requires OfLock(l) in st.semas && l in st.owner
  {
    Down(st, OfLock(l), next).(owner := st.owner[l := Taker(st, l)])
  }

  function LockTry(st: State, l: Lid, next: PC): State
    requires OfLock(l) in st.semas && l in st.owner
  {
    TryDown(st, OfLock(l), next).(owner := st.owner[l := Taker(st, l)])
  }

  function LockUp(st: State, l: Lid, next: PC): State
    requires OfLock(l) in st.semas
  {
    SetPc(Up(st, OfLock(l)).(owner := st.owner[l := None]), next)
  }

  function SetHolder(st: State, l: Lid, h: Option<Tid>, next: PC): State {
    SetPc(st.(holder := st.holder[l := h]), next)
  }

  /** WaitPush: the waiter semaphore is initialised and queued. */
  function Pushed(st: State, c: Cond): State
    requires c in st.conds
  {
    SetPc(SetSema(st, Waiter(st.cur), Sema(0, [], 0, 0, 0, {})).(conds := st.conds[c := st.conds[c] + [st.cur]]),
          WaitClear(c))
  }

  /** SigPop: the front waiter is taken off the queue. */
  function Popped(st: State, c: Cond, all: bool): State
    requires c in st.conds && st.conds[c] != []
  {
    SetPc(st.(conds := st.conds[c := st.conds[c][1..]]), SigUp(c, st.conds[c][0], all))
  }

  /** Program counters only name locks, conditions and semaphores that exist. */
  predicate PcOk(st: State, t: Tid, pc: PC) {
    match pc
    case User => true
    case SemaDown(s) => Plain(s) in st.semas
    case SemaTry(s) => Plain(s) in st.semas
    case SemaUp(s) => Plain(s) in st.semas
    case AcqDown(l) => LockExists(st, l)
    case AcqTry(l) => LockExists(st, l)
    case AcqSet(l) => LockExists(st, l)
    case RelClear(l) => LockExists(st, l)
    case RelUp(l) => LockExists(st, l)
    case WaitPush(c) => CondExists(st, c)
    case WaitClear(c) => CondExists(st, c) && Waiter(t) in st.semas
    case WaitUp(c) => CondExists(st, c) && Waiter(t) in st.semas
    case WaitDown(c) => CondExists(st, c) && Waiter(t) in st.semas
    case WaitAcq(c) => CondExists(st, c)
    case WaitSet(c) => CondExists(st, c)
    case SigPop(c, _) => CondExists(st, c)
    case SigUp(c, u, _) => CondExists(st, c) && Waiter(u) in st.semas
  }

  predicate LockExists(st: State, l: Lid) {
    l in st.holder && l in st.owner && OfLock(l) in st.semas
  }

  predicate CondExists(st: State, c: Cond) {
    c in st.conds && LockExists(st, c.lock)
  }

  /** The running thread's next step. */
  function Execute(st: State): State
    requires st.cur in st.pcs && PcOk(st, st.cur, st.pcs[st.cur])
  {
    var me := st.cur;
    match st.pcs[me]
    case User => st
    case SemaDown(s) => Down(st, Plain(s), User)
    case SemaTry(s) => TryDown(st, Plain(s), User)
    case SemaUp(s) => SetPc(Up(st, Plain(s)), User)
    case AcqDown(l) => LockDown(st, l, AcqSet(l))
    case AcqTry(l) => LockTry(st, l, AcqSet(l))
    case AcqSet(l) => SetHolder(st, l, Some(me), User)
    case RelClear(l) => SetHolder(st, l, None, RelUp(l))
    case RelUp(l) => LockUp(st, l, User)
    case WaitPush(c) => Pushed(st, c)
    case WaitClear(c) => SetHolder(st, c.lock, None, WaitUp(c))
    case WaitUp(c) => LockUp(st, c.lock, WaitDown(c))
    case WaitDown(c) => Down(st, Waiter(me), WaitAcq(c))
    case WaitAcq(c) => LockDown(st, c.lock, WaitSet(c))
    case WaitSet(c) => SetHolder(st, c.lock, Some(me), User)
    case SigPop(c, all) =>
      if st.conds[c] == [] then SetPc(st, User)
      else Popped(st, c, all)
    case SigUp(c, t, all) => SetPc(Up(st, Waiter(t)), if all then SigPop(c, true) else User)
  }

  /** Entry points of synch.c, with the assertions they start with. */
  predicate MayCall(st: State, pc: PC) {
    match pc
    case SemaDown(s) => Plain(s) in st.semas
    case SemaTry(s) => Plain(s) in st.semas
    case SemaUp(s) => Plain(s) in st.semas
    case AcqDown(l) => LockExists(st, l) && st.holder[l] != Some(st.cur)
    case AcqTry(l) => LockExists(st, l) && st.holder[l] != Some(st.cur)
    case RelClear(l) => LockExists(st, l) && st.holder[l] == Some(st.cur)
    case WaitPush(c) => CondExists(st, c) && st.holder[c.lock] == Some(st.cur)
    case SigPop(c, all) => CondExists(st, c) && st.holder[c.lock] == Some(st.cur)
    case _ => false
  }

  predicate Enabled(st: State, e: Event)
    requires st.cur in st.pcs
  {
    match e
    case Exec => st.pcs[st.cur] != User
    case Call(pc) => st.cur != st.idle && st.pcs[st.cur] == User && MayCall(st, pc)
    case Preempt => true
    case IntrUp(s) => Plain(s) in st.semas
    case Create(t) => st.cur != st.idle && t !in st.status
    case Exit => st.cur != st.idle && st.pcs[st.cur] == User
    case IdleBlock => st.cur == st.idle
  }

  function Step(st: State, e: Event): State
    requires st.cur in st.pcs && PcOk(st, st.cur, st.pcs[st.cur]) && Enabled(st, e)
  {
    match e
    case Exec => Execute(st)
    case Call(pc) => SetPc(st, pc)
    case Preempt => Yield(st)
    case IntrUp(s) => Up(st, Plain(s))
    case Create(t) => Unblock(st.(pcs := st.pcs[t := User]), t)
    case Exit => Exited(st)
    case IdleBlock => Schedule(st, Blocked)
  }
}
