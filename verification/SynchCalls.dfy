/** What the calls of thread.c and synch.c achieve, step by step and over whole runs. */
module SynchCalls {
  import opened Common
  import opened Synch
  import opened SynchInvariant
  import opened SynchRuns

  /** The event can happen. */
  predicate CanStep(st: State, e: Event) {
    st.cur in st.pcs && PcOk(st, st.cur, st.pcs[st.cur]) && Enabled(st, e)
  }

  // ---- every up and every down counts ----

  /** The semaphore that a program counter is about to "up". */
  function UpOn(pc: PC): Option<SemaId> {
    match pc
    case SemaUp(n) => Some(Plain(n))
    case RelUp(l) => Some(OfLock(l))
    case WaitUp(c) => Some(OfLock(c.lock))
    case SigUp(_, u, _) => Some(Waiter(u))
    case _ => None
  }

  /** The semaphore that a program counter is about to try. */
  function TryOn(pc: PC): Option<SemaId> {
    match pc
    case SemaTry(n) => Some(Plain(n))
    case AcqTry(l) => Some(OfLock(l))
    case _ => None
  }

  /** The event is a sema_up on S, by the running thread or by an interrupt handler. */
  predicate Ups(st: State, e: Event, s: SemaId)
    requires CanStep(st, e)
  {
    (e.IntrUp? && s == Plain(e.s)) || (e == Exec && UpOn(st.pcs[st.cur]) == Some(s))
  }

  /** The event takes the running thread out of sema_down on S, or is a sema_try_down on S while
      there is a unit to be had. */
  predicate Takes(st: State, e: Event, s: SemaId)
    requires CanStep(st, e)
  {
    var pc := st.pcs[st.cur];
    && e == Exec
    && ((DownOn(st.cur, pc) == Some(s) && st.cur in Execute(st).pcs && Execute(st).pcs[st.cur] != pc)
        || (TryOn(pc) == Some(s) && s in st.semas && st.semas[s].value > 0))
  }

  /** UP ups and DOWN downs lead from M to M'. */
  predicate Moved(m: Sema, m': Sema, up: nat, down: nat) {
    && m'.init == m.init && m'.ups == m.ups + up && m'.downs == m.downs + down
    && m'.value + down == m.value + up
  }

  function One(b: bool): nat { if b then 1 else 0 }

  /** What sema_down and sema_up do to the parts of the state. */
  lemma DownShape(st: State, r: SemaId, next: PC)
    requires r in st.semas
    ensures var st', m := Down(st, r, next), st.semas[r];
            if m.value > 0 then
              && st'.semas == st.semas[r := Taken(m, st.cur)] && st'.pcs == st.pcs[st.cur := next]
              && st'.cur == st.cur && st'.ready == st.ready && st'.status == st.status
            else
              && st'.semas == st.semas[r := Slept(m, st.cur)] && st'.pcs == st.pcs
              && st'.cur == NextThread(st) && st'.status == st.status[st.cur := Blocked][NextThread(st) := Running]
  {
  }

  lemma UpShape(st: State, r: SemaId)
    requires r in st.semas
    ensures Up(st, r).semas == st.semas[r := Given(st.semas[r])]
  {
  }

  lemma OneMoved(semas: map<SemaId, Sema>, r: SemaId, m: Sema, s: SemaId, up: nat, down: nat)
    requires r in semas && s in semas && Moved(semas[r], m, up, down)
    ensures s in semas[r := m]
    ensures Moved(semas[s], semas[r := m][s], if r == s then up else 0, if r == s then down else 0)
  {
  }

  lemma DownUnits(st: State, r: SemaId, next: PC, s: SemaId)
    requires r in st.semas && s in st.semas
    ensures var st' := Down(st, r, next);
            && s in st'.semas && Moved(st.semas[s], st'.semas[s], 0, One(r == s && st.semas[r].value > 0))
            && st'.pcs == if st.semas[r].value > 0 then st.pcs[st.cur := next] else st.pcs
  {
    hide Down;
    DownShape(st, r, next);
    var m := st.semas[r];
    if m.value > 0 {
      OneMoved(st.semas, r, Taken(m, st.cur), s, 0, 1);
    } else {
      OneMoved(st.semas, r, Slept(m, st.cur), s, 0, 0);
    }
  }

  lemma TryUnits(st: State, r: SemaId, next: PC, s: SemaId)
    requires r in st.semas && s in st.semas
    ensures var st' := TryDown(st, r, next);
            s in st'.semas && Moved(st.semas[s], st'.semas[s], 0, One(r == s && st.semas[r].value > 0))
  {
    hide Down;
    DownUnits(st, r, next, s);
  }

  lemma UpUnits(st: State, r: SemaId, s: SemaId)
    requires r in st.semas && s in st.semas
    ensures var st' := Up(st, r); s in st'.semas && Moved(st.semas[s], st'.semas[s], One(r == s), 0)
  {
    hide Up;
    UpShape(st, r);
    OneMoved(st.semas, r, Given(st.semas[r]), s, 1, 0);
  }

  lemma ExecuteUnits(st: State, s: SemaId)
    requires CanStep(st, Exec) && s in st.semas && !s.Waiter?
    ensures s in Execute(st).semas
    ensures Moved(st.semas[s], Execute(st).semas[s], One(Ups(st, Exec, s)), One(Takes(st, Exec, s)))
  {
    hide Down, TryDown, Up, Moved;
    assert Moved(st.semas[s], st.semas[s], 0, 0) by { Unmoved(st.semas[s]); }
    match st.pcs[st.cur]
    case SemaDown(n) => DownUnits(st, Plain(n), User, s);
    case SemaTry(n) => TryUnits(st, Plain(n), User, s);
    case SemaUp(n) => UpUnits(st, Plain(n), s);
    case AcqDown(l) => DownUnits(st, OfLock(l), AcqSet(l), s);
    case AcqTry(l) => TryUnits(st, OfLock(l), AcqSet(l), s);
    case RelUp(l) => UpUnits(st, OfLock(l), s);
    case WaitUp(c) => UpUnits(st, OfLock(c.lock), s);
    case WaitDown(c) => DownUnits(st, Waiter(st.cur), WaitAcq(c), s);
    case WaitAcq(c) => DownUnits(st, OfLock(c.lock), WaitSet(c), s);
    case SigUp(c, u, _) => UpUnits(st, Waiter(u), s);
    case _ =>
  }

  lemma Unmoved(m: Sema)
    ensures Moved(m, m, 0, 0)
  {
  }

  lemma StepUnits(st: State, e: Event, s: SemaId)
    requires CanStep(st, e) && s in st.semas && !s.Waiter?
    ensures s in Step(st, e).semas
    ensures Moved(st.semas[s], Step(st, e).semas[s], One(Ups(st, e, s)), One(Takes(st, e, s)))
  {
    hide Execute, Up, Moved;
    Unmoved(st.semas[s]);
    match e
    case Exec => ExecuteUnits(st, s);
    case IntrUp(n) => UpUnits(st, Plain(n), s);
    case _ =>
  }

  ghost function UpCount(st: State, es: seq<Event>, st': State, s: SemaId): nat
    requires Run(st, es, st')
    decreases |es|
  {
    if es == [] then 0 else One(Ups(st, es[0], s)) + UpCount(Step(st, es[0]), es[1..], st', s)
  }

  ghost function TakeCount(st: State, es: seq<Event>, st': State, s: SemaId): nat
    requires Run(st, es, st')
    decreases |es|
  {
    if es == [] then 0 else One(Takes(st, es[0], s)) + TakeCount(Step(st, es[0]), es[1..], st', s)
  }

  /** Over every run a semaphore's value grows by the calls of sema_up, whoever makes them, less the
      threads that got through sema_down or sema_try_down: no up is lost, no down is free. */
  lemma {:induction false} UnitsCounted(st: State, es: seq<Event>, st': State, s: SemaId)
    requires Run(st, es, st') && s in st.semas && !s.Waiter?
    ensures s in st'.semas
    ensures Moved(st.semas[s], st'.semas[s], UpCount(st, es, st', s), TakeCount(st, es, st', s))
    decreases |es|
  {
    hide Step, Ups, Takes;
    if es != [] {
      StepUnits(st, es[0], s);
      UnitsCounted(Step(st, es[0]), es[1..], st', s);
    }
  }

  // ---- one sema_up, one sema_down ----

  /** sema_up gives a unit and readies the thread that has waited longest, behind all others. */
  ghost predicate Woke(st: State, st': State, s: SemaId) {
    && s in st.semas && s in st'.semas && st'.semas[s].value == st.semas[s].value + 1 && st'.cur == st.cur
    && (forall r | r in st.semas && r != s :: r in st'.semas && st'.semas[r] == st.semas[r])
    && var q := st.semas[s].waiters;
       if q == [] then st'.semas[s].waiters == [] && st'.ready == st.ready && st'.status == st.status
       else
         && q[0] in st.status && st.status[q[0]] == Blocked && st'.semas[s].waiters == q[1..]
         && st'.ready == st.ready + [q[0]] && st'.status == st.status[q[0] := Ready]
  }

  lemma UpWokeFront(st: State, s: SemaId)
    requires SemasOk(st) && s in st.semas
    ensures Woke(st, Up(st, s), s)
  {
    assert SemaOk(st.status, st.pcs, st.idle, s, st.semas[s]);
    var q := st.semas[s].waiters;
    assert q != [] ==> q[0] in q;
  }

  /** In every reachable state, every sema_up does so, in sema_up's own callers, lock_release,
      cond_wait, cond_signal and interrupt handlers, and the caller goes on. */
  lemma UpWakesFront(st: State, e: Event, s: SemaId)
    requires Reachable(st) && CanStep(st, e) && Ups(st, e, s)
    ensures Woke(st, Step(st, e), s)
    ensures e == Exec ==> var pcs := Step(st, e).pcs; st.cur in pcs && pcs[st.cur] != st.pcs[st.cur]
  {
    ReachableInv(st);
    hide Inv, ThreadsOk, LocksOk, CondsOk, Up, Reachable, Woke;
    assert SemasOk(st) by { InvSemas(st); }
    UpWokeFront(st, s);
    if e == Exec {
      UpFrame(st, s);
      WokeThrough(st, e, s);
    }
  }

  lemma InvSemas(st: State)
    requires Inv(st)
    ensures SemasOk(st)
  {
  }

  lemma WokeThrough(st: State, e: Event, s: SemaId)
    requires CanStep(st, e) && e == Exec && Ups(st, e, s) && s in st.semas && Woke(st, Up(st, s), s)
    ensures Woke(st, Step(st, e), s) && var pcs := Step(st, e).pcs; st.cur in pcs && pcs[st.cur] != st.pcs[st.cur]
  {
    hide Up;
  }

  /** sema_down takes a unit and goes on, or there is none and the thread goes to sleep behind the
      other waiters, to test the value again when it is woken. */
  lemma DownExactly(st: State, s: SemaId)
    requires Reachable(st) && CanStep(st, Exec) && DownOn(st.cur, st.pcs[st.cur]) == Some(s)
    ensures s in st.semas && s in Execute(st).semas && st.cur in Execute(st).pcs && st.cur in Execute(st).status
    ensures var st', me := Execute(st), st.cur; var m, m' := st.semas[s], st'.semas[s];
            if m.value > 0 then
              && m'.value == m.value - 1 && m'.waiters == m.waiters && st'.pcs[me] != st.pcs[me]
              && st'.cur == me && st'.ready == st.ready && st'.status == st.status
            else
              && m'.value == 0 && m'.waiters == m.waiters + [me] && st'.pcs[me] == st.pcs[me]
              && st'.cur != me && st'.status[me] == Blocked
  {
    ReachableInv(st);
    NextIsOther(st);
    hide Inv, SemasOk, LocksOk, CondsOk, Reachable, ThreadsOk, Execute, Down;
    var r, next := IsDown(st);
    DownShape(st, r, next);
  }

  /** Inside sema_down, the running thread's next step is sema_down's, apart from history. */
  lemma IsDown(st: State) returns (s: SemaId, next: PC)
    requires CanStep(st, Exec) && DownOn(st.cur, st.pcs[st.cur]).Some?
    ensures DownOn(st.cur, st.pcs[st.cur]) == Some(s) && s in st.semas && next != st.pcs[st.cur]
    ensures var st', down := Execute(st), Down(st, s, next);
            && st'.semas == down.semas && st'.pcs == down.pcs
            && st'.cur == down.cur && st'.ready == down.ready && st'.status == down.status
  {
    hide Down;
    match st.pcs[st.cur] {
      case SemaDown(n) => s, next := Plain(n), User;
      case AcqDown(l) => s, next := OfLock(l), AcqSet(l);
      case WaitDown(c) => s, next := Waiter(st.cur), WaitAcq(c);
      case WaitAcq(c) => s, next := OfLock(c.lock), WaitSet(c);
    }
  }

  lemma NextIsOther(st: State)
    requires ThreadsOk(st) && st.cur in st.pcs && st.pcs[st.cur] != User
    ensures st.cur in st.status && st.cur != st.idle && NextThread(st) != st.cur
  {
    assert st.ready != [] ==> st.ready[0] in st.ready;
  }

  /** sema_try_down takes a unit if there is one and never sleeps; lock_try_acquire goes on to set
      the holder exactly then. */
  lemma TryExactly(st: State, s: SemaId)
    requires CanStep(st, Exec) && TryOn(st.pcs[st.cur]) == Some(s)
    ensures s in st.semas && s in Execute(st).semas && st.cur in Execute(st).pcs
    ensures var st', me := Execute(st), st.cur; var m, m' := st.semas[s], st'.semas[s];
            && m'.value == (if m.value > 0 then m.value - 1 else 0) && m'.waiters == m.waiters
            && st'.cur == me && st'.ready == st.ready && st'.status == st.status
            && st'.pcs[me] == if s.OfLock? && m.value > 0 then AcqSet(s.l) else User
  {
  }

  // ---- the run queue, exactly ----

  /** The threads that can run, in the order of their turns: the running thread, unless it is the
      idle thread, and then the ready list. */
  function Line(st: State): seq<Tid> {
    (if st.cur == st.idle then [] else [st.cur]) + st.ready
  }

  /** The thread that a sema_up of this event wakes. */
  function Wakes(st: State, e: Event): seq<Tid>
    requires CanStep(st, e)
  {
    var s := if e.IntrUp? then Some(Plain(e.s)) else if e == Exec then UpOn(st.pcs[st.cur]) else None;
    if s.None? || s.value !in st.semas || st.semas[s.value].waiters == [] then []
    else [st.semas[s.value].waiters[0]]
  }

  /** The running thread goes to sleep in sema_down. */
  predicate Sleeps(st: State, e: Event)
    requires CanStep(st, e)
  {
    && e == Exec && DownOn(st.cur, st.pcs[st.cur]).Some?
    && var s := DownOn(st.cur, st.pcs[st.cur]).value; s in st.semas && st.semas[s].value == 0
  }

  /** What is left of the line when its first leaves. */
  function Others(q: seq<Tid>): seq<Tid> { if q == [] then [] else q[1..] }

  /** thread_yield sends the running thread to the end of the line; sleep and thread_exit take it
      out; thread_create and sema_up put a thread at the end; and nothing else moves anybody. */
  lemma LineExactly(st: State, e: Event)
    requires Reachable(st) && CanStep(st, e)
    ensures var was, now := Line(st), Line(Step(st, e));
            now == match e
                   case Preempt => if st.cur == st.idle then was else was[1..] + [was[0]]
                   case Exit => Others(was)
                   case Create(t) => was + [t]
                   case _ => (if Sleeps(st, e) then Others(was) else was) + Wakes(st, e)
  {
    ReachableInv(st);
    FrontNotIdle(st);
    hide Inv, Reachable, Step, Line, ThreadsOk, SemasOk, LocksOk, CondsOk, Sleeps, Wakes, Others;
    match e
    case Exec => StepIs(st, e); ExecuteLine(st);
    case IntrUp(n) => IntrLine(st, n);
    case _ => StepLine(st, e);
  }

  lemma StepIs(st: State, e: Event)
    requires CanStep(st, e)
    ensures (e == Exec ==> Step(st, e) == Execute(st)) && (e.IntrUp? ==> Step(st, e) == Up(st, Plain(e.s)))
  {
  }

  lemma IntrLine(st: State, n: nat)
    requires CanStep(st, IntrUp(n))
    ensures Line(Step(st, IntrUp(n))) ==
              (if Sleeps(st, IntrUp(n)) then Others(Line(st)) else Line(st)) + Wakes(st, IntrUp(n))
  {
    hide Step, Up;
    StepIs(st, IntrUp(n));
    UpLine(st, Plain(n));
  }

  lemma FrontNotIdle(st: State)
    requires ThreadsOk(st)
    ensures (st.ready != [] ==> st.ready[0] != st.idle) && st.idle in st.pcs && st.pcs[st.idle] == User
  {
    assert st.ready != [] ==> st.ready[0] in st.ready;
  }

  lemma ScheduleLine(st: State, s: Status)
    requires st.ready != [] ==> st.ready[0] != st.idle
    ensures Line(Schedule(st, s)) == st.ready
  {
  }

  lemma StepLine(st: State, e: Event)
    requires CanStep(st, e) && (st.ready != [] ==> st.ready[0] != st.idle) && e != Exec && !e.IntrUp?
    ensures var was, now := Line(st), Line(Step(st, e));
            now == match e
                   case Preempt => if st.cur == st.idle then was else was[1..] + [was[0]]
                   case Exit => Others(was)
                   case Create(t) => was + [t]
                   case _ => (if Sleeps(st, e) then Others(was) else was) + Wakes(st, e)
  {
    hide Execute;
    match e
    case Preempt =>
      ScheduleLine(if st.cur == st.idle then st else st.(ready := st.ready + [st.cur]), Ready);
      assert st.cur != st.idle ==> Line(st)[1..] == st.ready;
    case Exit => ScheduleLine(st, Blocked); assert Line(st)[1..] == st.ready;
    case IdleBlock => ScheduleLine(st, Blocked);
    case _ =>
  }

  lemma UpLine(st: State, s: SemaId)
    requires s in st.semas
    ensures Line(Up(st, s)) == Line(st) + if st.semas[s].waiters == [] then [] else [st.semas[s].waiters[0]]
  {
  }

  lemma DownLine(st: State, s: SemaId, next: PC)
    requires s in st.semas && st.cur != st.idle && (st.ready != [] ==> st.ready[0] != st.idle)
    ensures Line(Down(st, s, next)) == if st.semas[s].value == 0 then Others(Line(st)) else Line(st)
    ensures Line(TryDown(st, s, next)) == Line(st)
  {
    assert Line(st)[1..] == st.ready;
    if st.semas[s].value == 0 { ScheduleLine(SetSema(st, s, Slept(st.semas[s], st.cur)), Blocked); }
  }

  /** The running thread, the idle thread and the ready list are the same. */
  predicate SameLine(st: State, st': State) { st'.cur == st.cur && st'.idle == st.idle && st'.ready == st.ready }

  lemma ExecuteParts(st: State)
    requires CanStep(st, Exec)
    ensures var pc := st.pcs[st.cur];
            match UpOn(pc)
            case Some(s) => s in st.semas && SameLine(Up(st, s), Execute(st))
            case None =>
              match DownOn(st.cur, pc)
              case Some(s) => s in st.semas && exists next :: SameLine(Down(st, s, next), Execute(st))
              case None =>
                match TryOn(pc)
                case Some(s) => s in st.semas && exists next :: SameLine(TryDown(st, s, next), Execute(st))
                case None => SameLine(st, Execute(st))
  {
    hide Up, Down, TryDown;
    match st.pcs[st.cur]
    case SemaDown(s) => assert SameLine(Down(st, Plain(s), User), Execute(st));
    case AcqDown(l) => assert SameLine(Down(st, OfLock(l), AcqSet(l)), Execute(st));
    case WaitDown(c) => assert SameLine(Down(st, Waiter(st.cur), WaitAcq(c)), Execute(st));
    case WaitAcq(c) => assert SameLine(Down(st, OfLock(c.lock), WaitSet(c)), Execute(st));
    case SemaTry(s) => assert SameLine(TryDown(st, Plain(s), User), Execute(st));
    case AcqTry(l) => assert SameLine(TryDown(st, OfLock(l), AcqSet(l)), Execute(st));
    case _ =>
  }

  lemma ExecuteLine(st: State)
    requires CanStep(st, Exec) && (st.ready != [] ==> st.ready[0] != st.idle) && st.cur != st.idle
    ensures Line(Execute(st)) == (if Sleeps(st, Exec) then Others(Line(st)) else Line(st)) + Wakes(st, Exec)
  {
    hide Up, Down, TryDown, Execute, PcOk;
    ExecuteParts(st);
    var pc := st.pcs[st.cur];
    if UpOn(pc).Some? {
      UpLine(st, UpOn(pc).value);
    } else if DownOn(st.cur, pc).Some? {
      var s := DownOn(st.cur, pc).value;
      var next :| SameLine(Down(st, s, next), Execute(st));
      DownLine(st, s, next);
    } else if TryOn(pc).Some? {
      var s := TryOn(pc).value;
      var next :| SameLine(TryDown(st, s, next), Execute(st));
      DownLine(st, s, next);
    }
  }

  // ---- locks are taken and given back ----

  /** The owner of a lock is inside: it has passed the semaphore or is the holder. */
  predicate OwnerInside(st: State, l: Lid) {
    l in st.owner && (st.owner[l].Some? ==> Inside(st, st.owner[l].value, l))
  }

  predicate OwnerKept(st: State, l: Lid) { OwnerInside(st, l) && l in st.holder }

  ghost predicate OwnersOk(st: State) {
    forall l | l in st.holder :: OwnerInside(st, l)
  }

  /** Nothing about lock L changes while the running thread moves between points outside it. */
  lemma OwnerUnaffected(st: State, st': State, l: Lid)
    requires OwnerInside(st, l) && l in st'.owner && st'.owner[l] == st.owner[l]
    requires l in st.holder && l in st'.holder && st'.holder[l] == st.holder[l]
    requires forall t | t in st.pcs && t != st.cur :: t in st'.pcs && st'.pcs[t] == st.pcs[t]
    requires st.cur in st.pcs && PassLock(st.pcs[st.cur]) != Some(l)
    ensures OwnerInside(st', l)
  {
  }

  lemma DownOwner(st: State, s: SemaId, next: PC)
    requires s in st.semas
    ensures var st' := Down(st, s, next);
            && st'.owner == st.owner && st'.holder == st.holder
            && st'.pcs == if st.semas[s].value > 0 then st.pcs[st.cur := next] else st.pcs
    ensures var st' := TryDown(st, s, next);
            && st'.owner == st.owner && st'.holder == st.holder
            && st'.pcs == st.pcs[st.cur := if st.semas[s].value > 0 then next else User]
  {
  }

  lemma UpOwner(st: State, s: SemaId)
    requires s in st.semas
    ensures var st' := Up(st, s);
            st'.owner == st.owner && st'.holder == st.holder && st'.pcs == st.pcs && st'.cur == st.cur
  {
  }

  /** The running thread is at no point that claims lock L. */
  predicate Elsewhere(st: State, l: Lid) {
    OwnerInside(st, l) && l in st.holder && st.cur in st.pcs && PassLock(st.pcs[st.cur]) != Some(l)
  }

  lemma DownOwnerKept(st: State, s: SemaId, next: PC, l: Lid)
    requires s in st.semas && Elsewhere(st, l)
    ensures OwnerKept(Down(st, s, next), l)
    ensures OwnerKept(TryDown(st, s, next), l)
  {
    hide Down, TryDown;
    DownOwner(st, s, next);
    OwnerUnaffected(st, Down(st, s, next), l);
    OwnerUnaffected(st, TryDown(st, s, next), l);
  }

  lemma UpOwnerKept(st: State, s: SemaId, next: PC, l: Lid)
    requires s in st.semas && Elsewhere(st, l)
    ensures var st' := SetPc(Up(st, s), next); OwnerKept(st', l)
  {
    hide Up;
    UpOwner(st, s);
    OwnerUnaffected(st, SetPc(Up(st, s), next), l);
  }

  lemma QueueOwnerKept(st: State, c: Cond, all: bool, l: Lid)
    requires c in st.conds && Elsewhere(st, l)
    ensures OwnerKept(Pushed(st, c), l)
    ensures st.conds[c] != [] ==> OwnerKept(Popped(st, c, all), l)
  {
    OwnerUnaffected(st, Pushed(st, c), l);
    if st.conds[c] != [] { OwnerUnaffected(st, Popped(st, c, all), l); }
  }

  lemma PcOwnerKept(st: State, next: PC, l: Lid)
    requires Elsewhere(st, l)
    ensures OwnerKept(SetPc(st, next), l)
  {
  }

  /** The running thread works on semaphores and queues. */
  lemma OutsideOwner(st: State, l: Lid)
    requires CanStep(st, Exec) && l in st.holder && OwnerInside(st, l) && PassLock(st.pcs[st.cur]) == None
    requires WantLock(st.pcs[st.cur]) == None || st.pcs[st.cur].WaitDown?
    requires !st.pcs[st.cur].RelClear? && !st.pcs[st.cur].WaitClear?
    ensures OwnerKept(Execute(st), l)
  {
    hide Down, TryDown, Up, Pushed, Popped, SetPc, OwnerKept;
    match st.pcs[st.cur] {
      case SemaDown(s) => DownOwnerKept(st, Plain(s), User, l);
      case SemaTry(s) => DownOwnerKept(st, Plain(s), User, l);
      case SemaUp(s) => UpOwnerKept(st, Plain(s), User, l);
      case WaitPush(c) => QueueOwnerKept(st, c, false, l);
      case WaitDown(c) => DownOwnerKept(st, Waiter(st.cur), WaitAcq(c), l);
      case SigPop(c, all) =>
        PcOwnerKept(st, User, l);
        QueueOwnerKept(st, c, all, l);
      case SigUp(c, u, all) => UpOwnerKept(st, Waiter(u), if all then SigPop(c, true) else User, l);
    }
  }

  lemma ExecuteOwner(st: State, l: Lid)
    requires CanStep(st, Exec) && LockExists(st, l) && OwnerInside(st, l)
    requires LockOk(st.pcs, l, st.semas[OfLock(l)], st.holder[l], st.owner[l])
    ensures OwnerKept(Execute(st), l)
  {
    hide LockDown, LockTry, LockUp, SetHolder, OwnerKept, LockOk, Down, TryDown, Up, Pushed, Popped, SetPc;
    match st.pcs[st.cur] {
      case AcqDown(k) => LockDownOwner(st, k, AcqSet(k), l);
      case AcqTry(k) => LockDownOwner(st, k, AcqSet(k), l);
      case AcqSet(k) => HolderOwner(st, k, Some(st.cur), User, l);
      case RelClear(k) => HolderOwner(st, k, None, RelUp(k), l);
      case RelUp(k) => LockUpOwner(st, k, User, l);
      case WaitClear(c) => HolderOwner(st, c.lock, None, WaitUp(c), l);
      case WaitUp(c) => LockUpOwner(st, c.lock, WaitDown(c), l);
      case WaitAcq(c) => LockDownOwner(st, c.lock, WaitSet(c), l);
      case WaitSet(c) => HolderOwner(st, c.lock, Some(st.cur), User, l);
      case _ =>
        hide Execute;
        OutsideOwner(st, l);
    }
  }

  lemma LockDownOwner(st: State, k: Lid, next: PC, l: Lid)
    requires LockExists(st, k) && l in st.holder && OwnerInside(st, l) && st.cur in st.pcs
    requires PassLock(st.pcs[st.cur]) == None && PassLock(next) == Some(k)
    ensures OwnerKept(LockDown(st, k, next), l)
    ensures OwnerKept(LockTry(st, k, next), l)
  {
    hide Down, TryDown;
    DownOwner(st, OfLock(k), next);
  }

  lemma LockUpOwner(st: State, k: Lid, next: PC, l: Lid)
    requires LockExists(st, k) && l in st.holder && OwnerInside(st, l) && st.cur in st.pcs
    requires PassLock(st.pcs[st.cur]) == Some(k)
    ensures OwnerKept(LockUp(st, k, next), l)
  {
    hide Up;
    UpOwner(st, OfLock(k));
  }

  lemma HolderOwner(st: State, k: Lid, h: Option<Tid>, next: PC, l: Lid)
    requires l in st.holder && OwnerInside(st, l) && st.cur in st.pcs && LockExists(st, l)
    requires LockOk(st.pcs, l, st.semas[OfLock(l)], st.holder[l], st.owner[l])
    requires (PassLock(st.pcs[st.cur]) == Some(k) && h == Some(st.cur))
          || (RelyLock(st.pcs[st.cur]) == Some(k) && h == None && PassLock(next) == Some(k))
    ensures OwnerKept(SetHolder(st, k, h, next), l)
  {
  }

  lemma LockGood(st: State, l: Lid)
    requires LocksOk(st) && l in st.holder
    ensures LockExists(st, l) && LockOk(st.pcs, l, st.semas[OfLock(l)], st.holder[l], st.owner[l])
  {
  }

  lemma StepOwner(st: State, e: Event, l: Lid)
    requires ThreadsOk(st) && LocksOk(st) && CanStep(st, e) && l in st.holder && OwnerInside(st, l)
    ensures OwnerKept(Step(st, e), l)
  {
    hide Execute, Up, LocksOk;
    match e
    case Exec =>
      LockGood(st, l);
      ExecuteOwner(st, l);
    case IntrUp(n) => UpOwner(st, Plain(n));
    case _ =>
  }

  lemma StepOwners(st: State, e: Event)
    requires Inv(st) && OwnersOk(st) && CanStep(st, e)
    ensures OwnersOk(Step(st, e))
  {
    StepHolders(st, e);
    forall l | l in Step(st, e).holder ensures OwnerInside(Step(st, e), l) {
      StepOwner(st, e, l);
    }
  }

  /** Locks are neither made nor destroyed. */
  lemma StepHolders(st: State, e: Event)
    requires Inv(st) && CanStep(st, e)
    ensures Step(st, e).holder.Keys == st.holder.Keys
  {
    hide Inv, Up, Execute;
    match e
    case Exec => ExecuteHolders(st);
    case IntrUp(n) => UpOwner(st, Plain(n));
    case _ =>
  }

  lemma ExecuteHolders(st: State)
    requires CanStep(st, Exec)
    ensures Execute(st).holder.Keys == st.holder.Keys
  {
    hide Down, TryDown, Up;
    match st.pcs[st.cur]
    case SemaDown(s) => DownOwner(st, Plain(s), User);
    case SemaTry(s) => DownOwner(st, Plain(s), User);
    case SemaUp(s) => UpOwner(st, Plain(s));
    case AcqDown(l) => DownOwner(st, OfLock(l), AcqSet(l));
    case AcqTry(l) => DownOwner(st, OfLock(l), AcqSet(l));
    case RelUp(l) => UpOwner(st, OfLock(l));
    case WaitUp(c) => UpOwner(st, OfLock(c.lock));
    case WaitDown(c) => DownOwner(st, Waiter(st.cur), WaitAcq(c));
    case WaitAcq(c) => DownOwner(st, OfLock(c.lock), WaitSet(c));
    case SigUp(c, u, _) => UpOwner(st, Waiter(u));
    case _ =>
  }

  lemma {:induction false} RunOwners(st: State, es: seq<Event>, st': State)
    requires Inv(st) && OwnersOk(st) && Run(st, es, st')
    ensures OwnersOk(st')
    decreases |es|
  {
    hide Step, Inv, OwnersOk;
    if es != [] {
      StepKeepsInv(st, es[0]);
      StepOwners(st, es[0]);
      RunOwners(Step(st, es[0]), es[1..], st');
    }
  }

  lemma ReachableOwners(st: State)
    requires Reachable(st)
    ensures Inv(st) && OwnersOk(st)
  {
    var st0, es :| Init(st0) && Run(st0, es, st);
    InitInv(st0);
    RunKeepsInv(st0, es, st);
    RunOwners(st0, es, st);
  }

  /** In every reachable state a lock's semaphore is down exactly while somebody is inside, so that
      the lock can be had whenever nobody has it. */
  lemma BusyExactly(st: State, l: Lid)
    requires Reachable(st) && l in st.holder
    ensures OfLock(l) in st.semas
    ensures st.semas[OfLock(l)].value == 0 <==> exists t :: Inside(st, t, l)
    ensures st.semas[OfLock(l)].value <= 1
  {
    ReachableOwners(st);
    assert OwnerInside(st, l) && LockExists(st, l);
    assert LockOk(st.pcs, l, st.semas[OfLock(l)], st.holder[l], st.owner[l]);
    if t :| Inside(st, t, l) { InsideOwns(st, t, l); }
  }

  // ---- lock_acquire, cond_wait and lock_release return with and without the lock ----

  /** The lock that a thread inside lock_acquire or cond_wait has when it returns. */
  function Acquiring(pc: PC): Option<Lid> {
    match pc
    case AcqDown(l) => Some(l)
    case AcqSet(l) => Some(l)
    case WaitPush(c) => Some(c.lock)
    case WaitClear(c) => Some(c.lock)
    case WaitUp(c) => Some(c.lock)
    case WaitDown(c) => Some(c.lock)
    case WaitAcq(c) => Some(c.lock)
    case WaitSet(c) => Some(c.lock)
    case _ => None
  }

  /** T is in the call, or has returned from it as the holder of L. */
  predicate Acquires(st: State, t: Tid, l: Lid) {
    && t in st.pcs && l in st.holder
    && (Acquiring(st.pcs[t]) == Some(l) || (st.pcs[t] == User && st.holder[l] == Some(t)))
  }

  /** T is in lock_release on L, or has returned from it and is not inside. */
  predicate Releases(st: State, t: Tid, l: Lid) {
    && t in st.pcs && l in st.holder
    && (st.pcs[t] == RelClear(l) || st.pcs[t] == RelUp(l) || (st.pcs[t] == User && !Inside(st, t, l)))
  }

  /** T begins another call or exits. */
  predicate Begins(st: State, e: Event, t: Tid) { (e.Call? || e.Exit?) && st.cur == t }

  /** Others change neither where T is nor whether it is the holder. */
  lemma OthersHold(st: State, t: Tid, l: Lid)
    requires LocksOk(st) && CanStep(st, Exec) && t in st.pcs && t != st.cur && l in st.holder
    ensures var st' := Execute(st);
            && t in st'.pcs && st'.pcs[t] == st.pcs[t] && l in st'.holder
            && (st'.holder[l] == Some(t) <==> st.holder[l] == Some(t))
  {
    hide LocksOk, Execute;
    ExecuteFrame(st, t);
    HolderMoves(st, l);
    if Claims(st.pcs[st.cur], l) { ClaimExcludes(st, t, l); }
  }

  /** The running thread is about to write `holder` of L. */
  predicate Claims(pc: PC, l: Lid) {
    pc == AcqSet(l) || pc == RelClear(l) || ((pc.WaitClear? || pc.WaitSet?) && pc.c.lock == l)
  }

  lemma HolderMoves(st: State, l: Lid)
    requires CanStep(st, Exec) && l in st.holder
    ensures l in Execute(st).holder
    ensures var pc := st.pcs[st.cur];
            Execute(st).holder[l] == if !Claims(pc, l) then st.holder[l]
                                     else if pc.AcqSet? || pc.WaitSet? then Some(st.cur) else None
  {
    hide Down, TryDown, Up;
    match st.pcs[st.cur]
    case SemaDown(s) => DownOwner(st, Plain(s), User);
    case SemaTry(s) => DownOwner(st, Plain(s), User);
    case SemaUp(s) => UpOwner(st, Plain(s));
    case AcqDown(k) => DownOwner(st, OfLock(k), AcqSet(k));
    case AcqTry(k) => DownOwner(st, OfLock(k), AcqSet(k));
    case RelUp(k) => UpOwner(st, OfLock(k));
    case WaitUp(c) => UpOwner(st, OfLock(c.lock));
    case WaitDown(c) => DownOwner(st, Waiter(st.cur), WaitAcq(c));
    case WaitAcq(c) => DownOwner(st, OfLock(c.lock), WaitSet(c));
    case SigUp(c, u, _) => UpOwner(st, Waiter(u));
    case _ =>
  }

  lemma ClaimExcludes(st: State, t: Tid, l: Lid)
    requires LocksOk(st) && st.cur in st.pcs && l in st.holder && Claims(st.pcs[st.cur], l) && t != st.cur
    ensures st.holder[l] != Some(t)
  {
    assert LockOk(st.pcs, l, st.semas[OfLock(l)], st.holder[l], st.owner[l]);
  }

  /** The running thread's own next step inside the call. */
  lemma OwnStep(st: State, l: Lid)
    requires CanStep(st, Exec) && l in st.holder
    ensures Acquires(st, st.cur, l) ==> Acquires(Execute(st), st.cur, l)
    ensures st.pcs[st.cur] == RelClear(l) ==> st.cur in Execute(st).pcs && Execute(st).pcs[st.cur] == RelUp(l)
    ensures st.pcs[st.cur] == RelUp(l) ==> st.cur in Execute(st).pcs && Execute(st).pcs[st.cur] == User
  {
    hide Down, TryDown, Up;
    HolderMoves(st, l);
    match st.pcs[st.cur]
    case AcqDown(k) => DownOwner(st, OfLock(k), AcqSet(k));
    case RelUp(k) => UpOwner(st, OfLock(k));
    case WaitUp(c) => UpOwner(st, OfLock(c.lock));
    case WaitDown(c) => DownOwner(st, Waiter(st.cur), WaitAcq(c));
    case WaitAcq(c) => DownOwner(st, OfLock(c.lock), WaitSet(c));
    case _ =>
  }

  lemma StepAcquires(st: State, e: Event, t: Tid, l: Lid)
    requires ThreadsOk(st) && LocksOk(st) && CanStep(st, e) && Acquires(st, t, l) && !Begins(st, e, t)
    ensures Acquires(Step(st, e), t, l)
  {
    hide LocksOk, Execute, Up;
    match e
    case Exec => if t == st.cur { OwnStep(st, l); } else { OthersHold(st, t, l); }
    case IntrUp(n) => UpOwner(st, Plain(n));
    case _ =>
  }

  lemma StepReleases(st: State, e: Event, t: Tid, l: Lid)
    requires ThreadsOk(st) && LocksOk(st) && CanStep(st, e) && Releases(st, t, l) && !Begins(st, e, t)
    ensures Releases(Step(st, e), t, l)
  {
    hide LocksOk, Execute, Up;
    match e
    case Exec =>
      if t == st.cur {
        OwnStep(st, l);
        HolderMoves(st, l);
        if st.pcs[t] == RelUp(l) { PassedHoldsNot(st, t, l); }
      } else {
        OthersHold(st, t, l);
      }
    case IntrUp(n) => UpOwner(st, Plain(n));
    case _ =>
  }

  lemma PassedHoldsNot(st: State, t: Tid, l: Lid)
    requires LocksOk(st) && t in st.pcs && PassLock(st.pcs[t]) == Some(l) && l in st.holder
    ensures st.holder[l] == None
  {
    assert LockOk(st.pcs, l, st.semas[OfLock(l)], st.holder[l], st.owner[l]);
  }

  /** T begins no other call and does not exit on the way. */
  ghost predicate StaysInCall(st: State, es: seq<Event>, st': State, t: Tid)
    requires Run(st, es, st')
    decreases |es|
  {
    es == [] || (!Begins(st, es[0], t) && StaysInCall(Step(st, es[0]), es[1..], st', t))
  }

  lemma LockKnown(st: State, t: Tid, l: Lid)
    requires LocksOk(st) && t in st.pcs && (Acquiring(st.pcs[t]) == Some(l) || st.pcs[t] == RelClear(l))
    ensures l in st.holder
  {
    assert PcOk(st, t, st.pcs[t]);
  }

  /** Whatever the others do, lock_acquire and cond_wait return only to the holder of the lock. */
  lemma AcquireReturnsHolding(st: State, es: seq<Event>, st': State, t: Tid, l: Lid)
    requires Reachable(st) && Run(st, es, st') && StaysInCall(st, es, st', t)
    requires t in st.pcs && Acquiring(st.pcs[t]) == Some(l)
    ensures t in st'.pcs && l in st'.holder
    ensures Acquiring(st'.pcs[t]) == Some(l) || (st'.pcs[t] == User && st'.holder[l] == Some(t))
  {
    hide Reachable, Run, StaysInCall, ThreadsOk, SemasOk, LocksOk, CondsOk;
    ReachableInv(st);
    LockKnown(st, t, l);
    RunAcquires(st, es, st', t, l);
  }

  lemma {:induction false} RunAcquires(st: State, es: seq<Event>, st': State, t: Tid, l: Lid)
    requires Inv(st) && Run(st, es, st') && StaysInCall(st, es, st', t) && Acquires(st, t, l)
    ensures Acquires(st', t, l)
    decreases |es|
  {
    hide Step, ThreadsOk, SemasOk, LocksOk, CondsOk, Acquires;
    if es != [] {
      StepKeepsInv(st, es[0]);
      StepAcquires(st, es[0], t, l);
      RunAcquires(Step(st, es[0]), es[1..], st', t, l);
    }
  }

  /** And lock_release returns with the caller outside. */
  lemma ReleaseReturnsOutside(st: State, es: seq<Event>, st': State, t: Tid, l: Lid)
    requires Reachable(st) && Run(st, es, st') && StaysInCall(st, es, st', t)
    requires t in st.pcs && st.pcs[t] == RelClear(l)
    ensures t in st'.pcs && (st'.pcs[t] == RelClear(l) || st'.pcs[t] == RelUp(l) || st'.pcs[t] == User)
    ensures st'.pcs[t] == User ==> !Inside(st', t, l)
  {
    hide Reachable, Run, StaysInCall, ThreadsOk, SemasOk, LocksOk, CondsOk;
    ReachableInv(st);
    LockKnown(st, t, l);
    RunReleases(st, es, st', t, l);
  }

  lemma {:induction false} RunReleases(st: State, es: seq<Event>, st': State, t: Tid, l: Lid)
    requires Inv(st) && Run(st, es, st') && StaysInCall(st, es, st', t) && Releases(st, t, l)
    ensures Releases(st', t, l)
    decreases |es|
  {
    hide Step, ThreadsOk, SemasOk, LocksOk, CondsOk, Releases;
    if es != [] {
      StepKeepsInv(st, es[0]);
      StepReleases(st, es[0], t, l);
      RunReleases(Step(st, es[0]), es[1..], st', t, l);
    }
  }

  // ---- cond_signal releases one waiter, cond_broadcast all of them ----

  /** A thread is inside cond_signal, or cond_broadcast if ALL, on C. */
  predicate Signalling(pc: PC, c: Cond, all: bool) {
    (pc.SigPop? || pc.SigUp?) && pc.c == c && pc.all == all
  }

  /** The waiters of the queue Q that the call has yet to take off it. */
  function Owed(pc: PC, q: seq<Tid>, all: bool): nat {
    if all then |q| else if pc.SigUp? || q == [] then 0 else 1
  }

  /** While U signals C, only U touches the queue, and it does not return before it has done. */
  lemma SignallingStep(st: State, e: Event, c: Cond, u: Tid, all: bool)
    requires ThreadsOk(st) && LocksOk(st) && CanStep(st, e) && u in st.pcs && Signalling(st.pcs[u], c, all)
    ensures c in st.conds && c in Step(st, e).conds && u in Step(st, e).pcs
    ensures var q, q', pc, pc' := st.conds[c], Step(st, e).conds[c], st.pcs[u], Step(st, e).pcs[u];
            && q' == (if Pops(st, e, c) then q[1..] else q)
            && (if Signalling(pc', c, all) then One(Pops(st, e, c)) + Owed(pc', q', all) == Owed(pc, q, all)
                else pc' == User && Owed(pc, q, all) == 0)
  {
    SignalKnown(st, c, u);
    hide LocksOk, Execute, Up, PcOk;
    match e
    case Exec => if st.cur == u { OwnSignal(st, c, all); } else { OthersDoNotSignal(st, c, u); }
    case IntrUp(n) => UpFrame(st, Plain(n));
    case _ =>
  }

  lemma SignalKnown(st: State, c: Cond, u: Tid)
    requires LocksOk(st) && u in st.pcs && (Signalling(st.pcs[u], c, true) || Signalling(st.pcs[u], c, false))
    ensures c in st.conds
  {
    assert PcOk(st, u, st.pcs[u]);
  }

  lemma OwnSignal(st: State, c: Cond, all: bool)
    requires CanStep(st, Exec) && Signalling(st.pcs[st.cur], c, all) && c in st.conds
    ensures c in Execute(st).conds && st.cur in Execute(st).pcs
    ensures var q, q', pc, pc' := st.conds[c], Execute(st).conds[c], st.pcs[st.cur], Execute(st).pcs[st.cur];
            && q' == (if Pops(st, Exec, c) then q[1..] else q)
            && (if Signalling(pc', c, all) then One(Pops(st, Exec, c)) + Owed(pc', q', all) == Owed(pc, q, all)
                else pc' == User && Owed(pc, q, all) == 0)
  {
    hide Up;
    if st.pcs[st.cur].SigUp? { UpFrame(st, Waiter(st.pcs[st.cur].t)); }
  }

  lemma OthersDoNotSignal(st: State, c: Cond, u: Tid)
    requires LocksOk(st) && CanStep(st, Exec) && u in st.pcs && RelyLock(st.pcs[u]) == Some(c.lock) && u != st.cur
    requires c in st.conds
    ensures !Pops(st, Exec, c) && c in Execute(st).conds && Execute(st).conds[c] == st.conds[c]
    ensures u in Execute(st).pcs && Execute(st).pcs[u] == st.pcs[u]
  {
    hide LocksOk, Execute;
    ExecuteFrame(st, u);
    if RelyLock(st.pcs[st.cur]) == Some(c.lock) {
      RelyingHolds(st, u, c.lock);
      RelyingHolds(st, st.cur, c.lock);
    }
  }

  lemma {:induction false} StaysOutside(st: State, es: seq<Event>, st': State, u: Tid)
    requires Inv(st) && Run(st, es, st') && StaysInCall(st, es, st', u) && u in st.pcs && st.pcs[u] == User
    ensures u in st'.pcs && st'.pcs[u] == User
    decreases |es|
  {
    hide Step, SemasOk, LocksOk, CondsOk;
    if es != [] {
      StepKeepsInv(st, es[0]);
      OutsideStep(st, es[0], u);
      StaysOutside(Step(st, es[0]), es[1..], st', u);
    }
  }

  lemma OutsideStep(st: State, e: Event, u: Tid)
    requires ThreadsOk(st) && CanStep(st, e) && u in st.pcs && st.pcs[u] == User && !Begins(st, e, u)
    ensures u in Step(st, e).pcs && Step(st, e).pcs[u] == User
  {
    hide Execute, Up;
    match e
    case Exec => ExecuteFrame(st, u);
    case IntrUp(n) => UpFrame(st, Plain(n));
    case _ =>
  }

  /** Over every run: as long as U is inside cond_signal or cond_broadcast, the queue is the one that
      it found without those that it has taken off; and when it has returned, it has taken off one
      waiter, or all of them, as far as there were any. */
  lemma SignalsAsMany(st: State, es: seq<Event>, st': State, c: Cond, u: Tid, all: bool)
    requires Reachable(st) && Run(st, es, st') && StaysInCall(st, es, st', u)
    requires u in st.pcs && st.pcs[u] == SigPop(c, all)
    ensures c in st.conds && c in st'.conds && u in st'.pcs
    ensures var q, p := st.conds[c], PopCount(st, es, st', c);
            var due := if all then |q| else if q == [] then 0 else 1;
            if Signalling(st'.pcs[u], c, all) then p <= due && st'.conds[c] == q[p..]
            else st'.pcs[u] == User && p >= due
  {
    hide Reachable, Run, StaysInCall, ThreadsOk, SemasOk, LocksOk, CondsOk, PopCount;
    ReachableInv(st);
    SignallingRun(st, es, st', c, u, all);
  }

  lemma {:induction false} SignallingRun(st: State, es: seq<Event>, st': State, c: Cond, u: Tid, all: bool)
    requires Inv(st) && Run(st, es, st') && StaysInCall(st, es, st', u)
    requires u in st.pcs && Signalling(st.pcs[u], c, all)
    ensures c in st.conds && c in st'.conds && u in st'.pcs
    ensures var q, pc, pc', p := st.conds[c], st.pcs[u], st'.pcs[u], PopCount(st, es, st', c);
            if Signalling(pc', c, all) then
              p <= |q| && st'.conds[c] == q[p..] && p + Owed(pc', st'.conds[c], all) == Owed(pc, q, all)
            else pc' == User && p >= Owed(pc, q, all)
    decreases |es|
  {
    hide Step, ThreadsOk, SemasOk, LocksOk, CondsOk, Pops, Enabled;
    if es == [] {
      SignalKnown(st, c, u);
      assert st.conds[c] == st.conds[c][0..];
    } else {
      var mid := Step(st, es[0]);
      StepKeepsInv(st, es[0]);
      SignallingStep(st, es[0], c, u, all);
      if Signalling(mid.pcs[u], c, all) {
        SignallingRun(mid, es[1..], st', c, u, all);
        var p := PopCount(mid, es[1..], st', c);
        assert Pops(st, es[0], c) && p <= |mid.conds[c]| ==> st.conds[c][1..][p..] == st.conds[c][p + 1..];
      } else {
        StaysOutside(mid, es[1..], st', u);
        CondStays(mid, es[1..], st', c);
      }
    }
  }
}
