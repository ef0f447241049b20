/**
  Threads, scheduler, mutexes, barriers and join of kernel/kthread.c and kernel/ksynchro.c,
  as a machine whose steps are the calls of the current thread. On one processor kernel code is
  atomic between two calls of sched_switch, and a thread that gets the processor back finishes
  the call it was blocked in, so one step is one call up to the next election, with what the elected
  thread then completes. Tables and queues hold the slots of threads; ownership is by address.
*/
module Threads {
  import opened Machine

  datatype State = Ready | Running | Wait | Zombie

  /** Where a thread is: in its own code, or in a call that has given the processor away. */
  datatype Where = User | InLock(m: nat) | InBarrier(b: nat) | InJoin(t: nat)

  /**
    A slot of ThreadTab. A thread is known by the address of its page, which a later thread may get again;
    the serial number tells all threads apart.
  */
  datatype Slot = Empty | Thread(addr: nat, serial: nat, st: State, at: Where, retval: int, join: Option<nat>) {
    predicate In(w: Where) { Thread? && at == w }
    predicate Is(x: State) { Thread? && st == x }
  }

  type Table = seq<Slot>

  /**
    A mutex: its fields, then its history: the threads that have returned from lock and not yet
    called unlock, and the order of arrivals and of ownerships. All but the queue are addresses.
  */
  datatype Mutex = Mutex(busy: bool, owner: Option<nat>, wait: seq<nat>,
                         inside: set<nat>, arrivals: seq<nat>, grants: seq<nat>)

  /**
    A barrier: its fields, then its history: completed rounds, all arrivals, the arrivals of each
    thread and the threads that ever arrived.
  */
  datatype Barrier = Barrier(expected: nat, waiting: nat, wait: seq<nat>,
                             rounds: nat, arrivals: nat, counts: seq<nat>, callers: set<nat>)

  /** The values given to thread_exit and returned by thread_join, and the threads released, by serial number. */
  datatype Log = Log(next: nat, exits: map<nat, int>, joined: map<nat, int>, freed: seq<nat>)

  datatype Sys = Sys(tab: Table, cur: nat, ms: seq<Mutex>, bs: seq<Barrier>, log: Log)

  /** A call of the current thread. */
  datatype Action =
    | Yield
    | MutexInit
    | MutexLock(m: nat)
    | MutexUnlock(m: nat)
    | BarrierInit(count: nat)
    | BarrierWait(b: nat)
    | Create(addr: nat)
    | Exit(retval: int)
    | Join(t: nat)

  // ---- Scheduler ---------------------------------------------------------------------------------

  /** sched_elect: the first READY slot from the d-th after cur on, in circular order. */
  function ElectFrom(tab: Table, cur: nat, d: nat): nat
    requires cur < |tab| && d <= |tab|
    decreases |tab| - d
  {
    if d == |tab| then cur
    else
      var th := (cur + 1 + d) % |tab|;
      if tab[th].Is(Ready) then th else ElectFrom(tab, cur, d + 1)
  }

  function Elect(tab: Table, cur: nat): nat
    requires cur < |tab|
  {
    ElectFrom(tab, cur, 0)
  }

  ghost predicate AnyReady(tab: Table) {
    exists i :: 0 <= i < |tab| && tab[i].Is(Ready)
  }

  /** The number of slots strictly between cur and t, going round. */
  function Dist(n: nat, cur: nat, t: nat): nat
    requires cur < n && t < n
  {
    if t > cur then t - cur - 1 else t + n - cur - 1
  }

  /** thread_create: the first empty slot. */
  function FirstEmpty(tab: Table): (i: nat)
    ensures i <= |tab| && (i < |tab| ==> tab[i].Empty?)
    ensures forall j :: 0 <= j < i ==> tab[j].Thread?
  {
    if tab == [] || tab[0].Empty? then 0
    else
      var r := FirstEmpty(tab[1..]);
      assert forall j :: 1 <= j < 1 + r ==> tab[j] == tab[1..][j - 1];
      1 + r
  }

  // ---- Steps -------------------------------------------------------------------------------------

  function SetState(tab: Table, i: nat, x: State): Table
    requires i < |tab| && tab[i].Thread?
  {
    tab[i := tab[i].(st := x)]
  }

  /** The thread leaves its own code and waits in w. */
  function Block(tab: Table, i: nat, w: Where): Table
    requires i < |tab| && tab[i].Thread?
  {
    tab[i := tab[i].(st := Wait, at := w)]
  }

  /** The elected thread runs and leaves the call it was in. */
  function Dispatch(tab: Table, i: nat): Table
    requires i < |tab| && tab[i].Thread?
  {
    tab[i := tab[i].(st := Running, at := User)]
  }

  /** thread_notify of every thread of the list. */
  function WakeAll(tab: Table, ws: seq<nat>): (r: Table)
    requires forall i :: 0 <= i < |ws| ==> ws[i] < |tab| && tab[ws[i]].Thread?
    ensures |r| == |tab|
    ensures forall j :: 0 <= j < |tab| ==> r[j] == if j in ws then tab[j].(st := Ready) else tab[j]
  {
    seq(|tab|, j requires 0 <= j < |tab| => if j in ws then tab[j].(st := Ready) else tab[j])
  }

  /** The end of thread_join: the value is taken and the thread destroyed. */
  function Reaped(log: Log, x: Slot): Log
    requires x.Thread?
  {
    log.(joined := log.joined[x.serial := x.retval], freed := log.freed + [x.serial])
  }

  /** What the elected thread completes: the return from the call it was blocked in. */
  function Resume(s: Sys, i: nat): Sys
    requires i < |s.tab| && s.tab[i].Thread?
    requires match s.tab[i].at
             case InLock(m) => m < |s.ms|
             case InJoin(t) => t < |s.tab| && s.tab[t].Thread?
             case _ => true
  {
    var tab := Dispatch(s.tab, i);
    match s.tab[i].at
    case User => s.(tab := tab, cur := i)
    case InLock(m) => s.(tab := tab, cur := i, ms := s.ms[m := s.ms[m].(inside := s.ms[m].inside + {s.tab[i].addr})])
    case InBarrier(_) => s.(tab := tab, cur := i)
    case InJoin(t) => s.(tab := tab[t := Empty], cur := i, log := Reaped(s.log, s.tab[t]))
  }

  /** thread_mutex_lock, up to a possible election. */
  function Locked(s: Sys, m: nat): Sys
    requires s.cur < |s.tab| && s.tab[s.cur].Thread?
  {
    var me := s.tab[s.cur].addr;
    if m >= |s.ms| || (s.ms[m].busy && s.ms[m].owner == Some(me)) then s
    else
      var x := s.ms[m].(arrivals := s.ms[m].arrivals + [me]);
      if x.busy then s.(tab := Block(s.tab, s.cur, InLock(m)), ms := s.ms[m := x.(wait := x.wait + [s.cur])])
      else s.(ms := s.ms[m := x.(busy := true, owner := Some(me), inside := x.inside + {me},
        grants := x.grants + [me])])
  }

  /** thread_mutex_unlock */
  function Unlocked(s: Sys, m: nat): Sys
    requires s.cur < |s.tab| && s.tab[s.cur].Thread?
    requires m < |s.ms| && s.ms[m].wait != [] ==> s.ms[m].wait[0] < |s.tab| && s.tab[s.ms[m].wait[0]].Thread?
  {
    var me := s.tab[s.cur].addr;
    if m >= |s.ms| || !s.ms[m].busy || s.ms[m].owner != Some(me) then s
    else
      var x := s.ms[m].(inside := s.ms[m].inside - {me});
      if x.wait != [] then
        var w := x.wait[0];
        s.(tab := SetState(s.tab, w, Ready),
        ms := s.ms[m := x.(owner := Some(s.tab[w].addr), wait := x.wait[1..], grants := x.grants + [s.tab[w].addr])])
      else s.(ms := s.ms[m := x.(busy := false, owner := None)])
  }

  /** thread_barrier_wait, up to a possible election. */
  ghost function Arrived(s: Sys, b: nat): Sys
    requires Callable(s, BarrierWait(b))
  {
    if b >= |s.bs| then s
    else
      var y := s.bs[b];
      var x := y.(waiting := y.waiting + 1, arrivals := y.arrivals + 1, callers := y.callers + {s.cur},
      counts := y.counts[s.cur := y.counts[s.cur] + 1]);
      if x.waiting == x.expected then
        s.(tab := WakeAll(s.tab, x.wait), bs := s.bs[b := x.(waiting := 0, wait := [], rounds := x.rounds + 1)])
      else
        s.(tab := Block(s.tab, s.cur, InBarrier(b)), bs := s.bs[b := x.(wait := x.wait + [s.cur])])
  }

  /** thread_exit, up to the election. */
  ghost function Exited(s: Sys, v: int): Sys
    requires Callable(s, Exit(v))
  {
    var x := s.tab[s.cur];
    var tab := s.tab[s.cur := x.(retval := v, st := Zombie)];
    s.(tab := if x.join.Some? then SetState(tab, x.join.value, Ready) else tab,
    log := s.log.(exits := s.log.exits[x.serial := v]))
  }

  /** thread_join, up to a possible election. */
  ghost function JoinCalled(s: Sys, t: nat): Sys
    requires Callable(s, Join(t))
  {
    var tab := s.tab[t := s.tab[t].(join := Some(s.cur))];
    if s.tab[t].st != Zombie then s.(tab := Block(tab, s.cur, InJoin(t)))
    else s.(tab := tab[t := Empty], log := Reaped(s.log, s.tab[t]))
  }

  /** thread_create, when the new thread's page is at the address. */
  function Created(s: Sys, addr: nat): Sys {
    var i := FirstEmpty(s.tab);
    if i == |s.tab| then s
    else s.(tab := s.tab[i := Thread(addr, s.log.next, Ready, User, 0, None)], log := s.log.(next := s.log.next + 1))
  }

  /** What a caller must respect, and what makes the step one that the source goes through. */
  ghost predicate Callable(s: Sys, a: Action) {
    && s.cur < |s.tab| && s.tab[s.cur].Thread?
    && match a
       case MutexUnlock(m) =>
         m < |s.ms| && s.ms[m].wait != [] ==> s.ms[m].wait[0] < |s.tab| && s.tab[s.ms[m].wait[0]].Thread?
       case BarrierInit(count) => count > 0
       case BarrierWait(b) =>
         b < |s.bs| ==>
           (forall i :: 0 <= i < |s.bs[b].wait| ==> s.bs[b].wait[i] < |s.tab| && s.tab[s.bs[b].wait[i]].Thread?)
                        && |s.bs[b].counts| == |s.tab|
       case Create(addr) =>
         FirstEmpty(s.tab) < |s.tab| && forall i :: 0 <= i < |s.tab| && s.tab[i].Thread? ==> s.tab[i].addr != addr
       case Exit(_) =>
         s.tab[s.cur].join.Some? ==> s.tab[s.cur].join.value < |s.tab| && s.tab[s.tab[s.cur].join.value].Thread?
       case Join(t) => t < |s.tab| && s.tab[t].Thread?
       case _ => true
  }

  /** The state in which the call either returns or gives the processor away. */
  ghost function Before(s: Sys, a: Action): Sys
    requires Callable(s, a)
  {
    match a
    case Yield => s.(tab := SetState(s.tab, s.cur, Ready))
    case MutexInit => s.(ms := s.ms + [Mutex(false, None, [], {}, [], [])])
    case MutexLock(m) => Locked(s, m)
    case MutexUnlock(m) => Unlocked(s, m)
    case BarrierInit(count) => s.(bs := s.bs + [Barrier(count, 0, [], 0, 0, seq(|s.tab|, _ => 0), {})])
    case BarrierWait(b) => Arrived(s, b)
    case Create(addr) => Created(s, addr)
    case Exit(v) => Exited(s, v)
    case Join(t) => JoinCalled(s, t)
  }

  /** The call gives the processor away. */
  ghost predicate Switches(s: Sys, a: Action)
    requires Callable(s, a)
  {
    !Before(s, a).tab[s.cur].Is(Running)
  }

  /** sched_switch, when some thread is READY. */
  ghost function Switch(s: Sys): Sys
    requires s.cur < |s.tab| && Elect(s.tab, s.cur) < |s.tab| && s.tab[Elect(s.tab, s.cur)].Thread?
    requires match s.tab[Elect(s.tab, s.cur)].at
             case InLock(m) => m < |s.ms|
             case InJoin(t) => t < |s.tab| && s.tab[t].Thread?
             case _ => true
  {
    Resume(s, Elect(s.tab, s.cur))
  }

  // ---- Invariant ---------------------------------------------------------------------------------

  ghost predicate NoDup(q: seq<nat>) {
    forall i, j :: 0 <= i < j < |q| ==> q[i] != q[j]
  }

  /** A thread in its own code is not waiting; a thread in a call is neither running nor ended. */
  ghost predicate ShapeOk(tab: Table, nm: nat, nb: nat) {
    forall i :: 0 <= i < |tab| && tab[i].Thread? ==>
      match tab[i].at
      case User => tab[i].st != Wait
      case InLock(m) => m < nm && (tab[i].st == Wait || tab[i].st == Ready)
      case InBarrier(b) => b < nb && (tab[i].st == Wait || tab[i].st == Ready)
      case InJoin(t) => tab[i].st == Wait || tab[i].st == Ready
  }

  /** The queue holds exactly the threads that wait in w, each once. */
  ghost predicate QueueOk(tab: Table, w: Where, q: seq<nat>) {
    && NoDup(q)
    && (forall i :: 0 <= i < |q| ==> q[i] < |tab|)
    && (forall j :: 0 <= j < |tab| ==> (j in q <==> tab[j].In(w) && tab[j].st == Wait))
  }

  /** The threads that arrived are those that became owner and then those that wait, in that order. */
  ghost predicate FirstCome(tab: Table, arrivals: seq<nat>, grants: seq<nat>, wait: seq<nat>) {
    && |arrivals| == |grants| + |wait| && grants == arrivals[..|grants|]
    && forall i :: 0 <= i < |wait| ==>
         wait[i] < |tab| && tab[wait[i]].Thread? && arrivals[|grants| + i] == tab[wait[i]].addr
  }

  /**
    Mutex m: busy exactly when owned; when free nobody waits; the owner does not wait; a thread in
    lock that is READY is the owner, so no wake-up is lost; only the owner is between lock
    and unlock; ownership passes in arrival order.
  */
  ghost predicate MutexOk(tab: Table, m: nat, x: Mutex) {
    && (x.busy <==> x.owner.Some?) && (!x.busy ==> x.wait == [])
    && QueueOk(tab, InLock(m), x.wait)
    && (forall j :: 0 <= j < |tab| && tab[j].In(InLock(m)) ==> (tab[j].st == Ready <==> x.owner == Some(tab[j].addr)))
    && (forall a :: a in x.inside ==> x.owner == Some(a))
    && FirstCome(tab, x.arrivals, x.grants, x.wait)
    && (x.busy ==> x.grants != [] && x.owner == Some(x.grants[|x.grants| - 1]))
  }

  /** Barrier b: the count is the queue's length, below the expected one, and accounts for all arrivals. */
  ghost predicate BarrierOk(tab: Table, b: nat, x: Barrier) {
    && x.waiting == |x.wait| < x.expected
    && QueueOk(tab, InBarrier(b), x.wait)
    && x.arrivals == x.expected * x.rounds + x.waiting
    && |x.counts| == |tab|
    && (forall j :: j in x.wait ==> j in x.callers)
    && (forall j :: j in x.callers ==> j < |tab|)
    && (forall j :: 0 <= j < |tab| && j !in x.callers ==> x.counts[j] == 0)
    && (x.rounds > 0 ==> |x.callers| >= x.expected)
    && (|x.callers| <= x.expected ==>
        forall j :: j in x.callers ==> x.counts[j] == x.rounds + if j in x.wait then 1 else 0)
  }

  /** Who waits for t in join, t points back to, and it waits exactly until t has ended. */
  ghost predicate JoinsOk(tab: Table) {
    && (forall i :: 0 <= i < |tab| && tab[i].Thread? && tab[i].at.InJoin? ==>
          var t := tab[i].at.t;
          t < |tab| && tab[t].Thread? && tab[t].join == Some(i) && (tab[i].st == Ready <==> tab[t].st == Zombie))
    && (forall t :: 0 <= t < |tab| && tab[t].Thread? && tab[t].join.Some? ==>
          tab[t].join.value < |tab| && tab[tab[t].join.value].In(InJoin(t)))
  }

  /** Threads have pages of their own. */
  ghost predicate AddrsApart(tab: Table) {
    forall i, j :: 0 <= i < |tab| && 0 <= j < |tab| && i != j && tab[i].Thread? && tab[j].Thread? ==>
      tab[i].addr != tab[j].addr
  }

  /** Each thread is released at most once, after its exit, and its joiner got its exit value. */
  ghost predicate LogOk(tab: Table, log: Log) {
    && (forall i :: 0 <= i < |tab| && tab[i].Thread? ==>
          && tab[i].serial < log.next && tab[i].serial !in log.freed
          && (tab[i].st == Zombie <==> tab[i].serial in log.exits)
          && (tab[i].st == Zombie ==> log.exits[tab[i].serial] == tab[i].retval))
    && (forall i, j :: 0 <= i < j < |tab| && tab[i].Thread? && tab[j].Thread? ==> tab[i].serial != tab[j].serial)
    && AddrsApart(tab)
    && NoDup(log.freed)
    && (forall k :: k in log.exits ==> k < log.next)
    && (forall k :: k in log.joined <==> k in log.freed)
    && (forall k :: k in log.joined ==> k in log.exits && log.joined[k] == log.exits[k])
  }

  ghost predicate MutexesOk(tab: Table, ms: seq<Mutex>) {
    forall m :: 0 <= m < |ms| ==> MutexOk(tab, m, ms[m])
  }

  ghost predicate BarriersOk(tab: Table, bs: seq<Barrier>) {
    forall b :: 0 <= b < |bs| ==> BarrierOk(tab, b, bs[b])
  }

  ghost predicate Core(s: Sys) {
    && ShapeOk(s.tab, |s.ms|, |s.bs|) && MutexesOk(s.tab, s.ms) && BarriersOk(s.tab, s.bs)
    && JoinsOk(s.tab) && LogOk(s.tab, s.log)
  }

  /** Exactly the given slot is RUNNING, or none is. */
  ghost predicate RunningOnly(tab: Table, who: Option<nat>) {
    && (who.Some? ==> who.value < |tab|)
    && forall i :: 0 <= i < |tab| ==> (tab[i].Is(Running) <==> who == Some(i))
  }

  /** The invariant at every switch point: the current thread, and no other, is RUNNING. */
  ghost predicate Inv(s: Sys) {
    Core(s) && RunningOnly(s.tab, Some(s.cur))
  }
}
