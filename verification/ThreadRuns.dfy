/**
  Whole runs of the thread machine: the invariant in every reachable state, what it says about
  mutexes, barriers and joins, and the fairness of the round-robin election.
*/
module ThreadRuns {
  import opened Machine
  import opened Threads
  import opened ThreadProofs
  import opened Arith

  // ---- The election ------------------------------------------------------------------------------

  lemma SlotAtDistance(n: nat, cur: nat, d: nat)
    requires cur < n && d < n
    ensures (cur + 1 + d) % n < n && Dist(n, cur, (cur + 1 + d) % n) == d
  {
    Small(n, cur + 1 + d);
  }

  lemma Small(n: nat, x: nat)
    requires n > 0 && x <= 2 * n
    ensures x % n == if x < n then x else if x < 2 * n then x - n else 0
  {
    if x < n {
      DivModUnique(x, n, 0, x);
    } else if x < 2 * n {
      DivModUnique(x, n, 1, x - n);
    } else {
      DivModUnique(x, n, 2, 0);
    }
  }

  lemma {:induction false} ElectFromFirst(tab: Table, cur: nat, d: nat)
    requires cur < |tab| && d <= |tab| && AnyReady(tab)
    requires forall t :: 0 <= t < |tab| && tab[t].Is(Ready) ==> Dist(|tab|, cur, t) >= d
    ensures var e := ElectFrom(tab, cur, d);
            && e < |tab| && tab[e].Is(Ready)
            && forall t :: 0 <= t < |tab| && tab[t].Is(Ready) ==> Dist(|tab|, cur, e) <= Dist(|tab|, cur, t)
    decreases |tab| - d
  {
    if d < |tab| {
      SlotAtDistance(|tab|, cur, d);
      var th := (cur + 1 + d) % |tab|;
      if !tab[th].Is(Ready) {
        forall t | 0 <= t < |tab| && tab[t].Is(Ready)
          ensures Dist(|tab|, cur, t) >= d + 1
        {
          assert t != th;
        }
        ElectFromFirst(tab, cur, d + 1);
      }
    }
  }

  /** sched_elect picks the first READY thread in circular order after the current one. */
  lemma ElectIsFirst(tab: Table, cur: nat)
    requires cur < |tab| && AnyReady(tab)
    ensures var e := Elect(tab, cur);
            && e < |tab| && tab[e].Is(Ready)
            && forall t :: 0 <= t < |tab| && tab[t].Is(Ready) ==> Dist(|tab|, cur, e) <= Dist(|tab|, cur, t)
  {
    ElectFromFirst(tab, cur, 0);
  }

  // ---- Steps -------------------------------------------------------------------------------------

  /**
    The calls the machine takes: the slots they name exist, nobody else has joined the thread
    to be joined, and when the processor is given away some thread is READY.
  */
  ghost predicate Enabled(s: Sys, a: Action) {
    && Callable(s, a)
    && (a.Join? ==> s.tab[a.t].join == None)
    && (Switches(s, a) ==> AnyReady(Before(s, a).tab))
  }

  lemma BeforeKeeps(s: Sys, a: Action)
    requires Inv(s) && Enabled(s, a)
    ensures Core(Before(s, a))
    ensures RunningOnly(Before(s, a).tab, if Switches(s, a) then None else Some(s.cur))
    ensures Before(s, a).cur == s.cur && |Before(s, a).tab| == |s.tab|
  {
    hide Core, RunningOnly, Inv;
    CurrentThread(s);
    match a {
      case Yield => YieldKeeps(s);
      case MutexInit => FreshMutex(s); InvParts(Before(s, a));
      case MutexLock(m) => LockKeeps(s, m);
      case MutexUnlock(m) => UnlockKeeps(s, m); InvParts(Before(s, a));
      case BarrierInit(count) => FreshBarrier(s, count); InvParts(Before(s, a));
      case BarrierWait(b) => ArrivalSteps(s, b);
      case Create(addr) => CreateKeeps(s, addr); InvParts(Before(s, a)); CurrentThread(Before(s, a));
      case Exit(v) => ExitKeeps(s, v); NotRunning(Before(s, a).tab, s.cur);
      case Join(t) => JoinSteps(s, t);
    }
  }

  lemma NotRunning(tab: Table, i: nat)
    requires RunningOnly(tab, None) && i < |tab|
    ensures !tab[i].Is(Running)
  {
  }

  lemma ArrivalSteps(s: Sys, b: nat)
    requires Inv(s) && Callable(s, BarrierWait(b))
    ensures Core(Arrived(s, b))
    ensures RunningOnly(Arrived(s, b).tab, if Switches(s, BarrierWait(b)) then None else Some(s.cur))
  {
    hide Core, RunningOnly, Inv, WakeAll;
    CurrentThread(s);
    InvParts(s);
    if b < |s.bs| {
      if s.bs[b].waiting + 1 == s.bs[b].expected {
        ArrivalOpens(s, b);
        InvParts(Arrived(s, b));
        CurrentThread(Arrived(s, b));
      } else {
        ArrivalBlocks(s, b);
        NotRunning(Arrived(s, b).tab, s.cur);
      }
    }
  }

  lemma JoinSteps(s: Sys, t: nat)
    requires Inv(s) && Callable(s, Join(t)) && s.tab[t].join == None
    ensures Core(JoinCalled(s, t))
    ensures RunningOnly(JoinCalled(s, t).tab, if Switches(s, Join(t)) then None else Some(s.cur))
  {
    hide Core, RunningOnly, Inv;
    CurrentThread(s);
    if s.tab[t].st == Zombie {
      JoinReaps(s, t);
      InvParts(JoinCalled(s, t));
      CurrentThread(JoinCalled(s, t));
    } else {
      JoinWaits(s, t);
      NotRunning(JoinCalled(s, t).tab, s.cur);
    }
  }

  /** One call, up to the next switch point. */
  ghost function Step(s: Sys, a: Action): (r: Sys)
    requires Inv(s) && Enabled(s, a)
    ensures |r.tab| == |s.tab|
  {
    hide Inv, Core, RunningOnly;
    BeforeKeeps(s, a);
    if !Switches(s, a) then Before(s, a)
    else
      ElectIsFirst(Before(s, a).tab, s.cur);
      ResumeKeeps(Before(s, a), Elect(Before(s, a).tab, s.cur));
      Switch(Before(s, a))
  }

  /** Every call keeps the invariant. */
  lemma StepKeepsInv(s: Sys, a: Action)
    requires Inv(s) && Enabled(s, a)
    ensures Inv(Step(s, a))
  {
    hide Core, RunningOnly;
    BeforeKeeps(s, a);
    if Switches(s, a) {
      ElectIsFirst(Before(s, a).tab, s.cur);
      ResumeKeeps(Before(s, a), Elect(Before(s, a).tab, s.cur));
    }
  }

  // ---- Runs --------------------------------------------------------------------------------------

  /** The machine with n slots, after the first thread, at the address, has been loaded. */
  ghost function Boot(n: nat, addr: nat): (s: Sys)
    requires n > 0
    ensures Inv(s) && |s.tab| == n
  {
    Sys(seq(n, i => if i == 0 then Thread(addr, 0, Running, User, 0, None) else Empty), 0, [], [],
      Log(1, map[], map[], []))
  }

  /** Every call of the run is one the machine takes. */
  ghost predicate Run(s: Sys, acts: seq<Action>)
    requires Inv(s)
    decreases |acts|
  {
    acts == [] || (Enabled(s, acts[0]) && (StepKeepsInv(s, acts[0]); Run(Step(s, acts[0]), acts[1..])))
  }

  /** The state after a run; every state of every run satisfies the invariant. */
  ghost function After(s: Sys, acts: seq<Action>): (r: Sys)
    requires Inv(s) && Run(s, acts)
    ensures Inv(r) && |r.tab| == |s.tab|
    decreases |acts|
  {
    hide Inv;
    if acts == [] then s else StepKeepsInv(s, acts[0]); After(Step(s, acts[0]), acts[1..])
  }

  /** At every switch point of every run, exactly the current thread is RUNNING. */
  lemma OneRunningThread(n: nat, addr: nat, acts: seq<Action>)
    requires n > 0 && Run(Boot(n, addr), acts)
    ensures var s := After(Boot(n, addr), acts);
            s.cur < n && forall i :: 0 <= i < |s.tab| ==> (s.tab[i].Is(Running) <==> i == s.cur)
  {
  }

  /** The queue holds distinct threads, all of them waiting in w. */
  ghost predicate WaitingIn(tab: Table, w: Where, q: seq<nat>) {
    NoDup(q) && forall k :: 0 <= k < |q| ==> q[k] < |tab| && tab[q[k]].Is(Wait) && tab[q[k]].at == w
  }

  /**
    What a mutex promises: busy exactly when owned; at most one thread is between lock and unlock,
    and it is the owner; the queue holds distinct WAIT threads, not the owner, and is empty when
    the mutex is free; ownership has passed in arrival order; and no wake-up is lost: a thread in lock
    is queued, or is owner and READY.
  */
  ghost predicate MutexPromise(tab: Table, m: nat, x: Mutex) {
    && (x.busy <==> x.owner.Some?) && (!x.busy ==> x.wait == [] && x.inside == {})
    && (forall a, b :: a in x.inside && b in x.inside ==> a == b && x.owner == Some(a))
    && WaitingIn(tab, InLock(m), x.wait)
    && FirstCome(tab, x.arrivals, x.grants, x.wait)
    && (forall i :: 0 <= i < |tab| && tab[i].In(InLock(m)) ==>
          if tab[i].st == Wait then i in x.wait && x.owner != Some(tab[i].addr)
          else tab[i].st == Ready && x.owner == Some(tab[i].addr))
  }

  /** Every mutex keeps its promise in every state of every run. */
  lemma MutexOverRuns(n: nat, addr: nat, acts: seq<Action>, m: nat)
    requires n > 0 && Run(Boot(n, addr), acts) && m < |After(Boot(n, addr), acts).ms|
    ensures MutexPromise(After(Boot(n, addr), acts).tab, m, After(Boot(n, addr), acts).ms[m])
  {
    var s := After(Boot(n, addr), acts);
    InvParts(s);
    hide Inv, Core;
    MutexFacts(s, m);
  }

  lemma MutexFacts(s: Sys, m: nat)
    requires Core(s) && m < |s.ms|
    ensures MutexPromise(s.tab, m, s.ms[m])
  {
    hide BarriersOk, JoinsOk, LogOk;
    var x := s.ms[m];
    assert MutexOk(s.tab, m, x);
    forall k | 0 <= k < |x.wait|
      ensures s.tab[x.wait[k]].Is(Wait) && s.tab[x.wait[k]].at == InLock(m)
    {
      assert x.wait[k] in x.wait;
    }
  }

  /**
    What a barrier promises: arrivals are `expected` per completed round plus those waiting;
    `waiting` is the queue's length, below `expected`; and when no more than `expected` threads use
    it, their arrival counts differ by at most one.
  */
  ghost predicate BarrierPromise(tab: Table, b: nat, x: Barrier) {
    && x.arrivals == x.expected * x.rounds + x.waiting && x.waiting == |x.wait| < x.expected
    && WaitingIn(tab, InBarrier(b), x.wait)
    && (forall i :: i in x.callers ==> i < |x.counts|)
    && (|x.callers| <= x.expected ==>
        forall i, j :: i in x.callers && j in x.callers ==> x.counts[i] <= x.counts[j] + 1)
  }

  /** Every barrier keeps its promise in every state of every run. */
  lemma BarrierOverRuns(n: nat, addr: nat, acts: seq<Action>, b: nat)
    requires n > 0 && Run(Boot(n, addr), acts) && b < |After(Boot(n, addr), acts).bs|
    ensures BarrierPromise(After(Boot(n, addr), acts).tab, b, After(Boot(n, addr), acts).bs[b])
  {
    var s := After(Boot(n, addr), acts);
    InvParts(s);
    hide Inv, Core;
    BarrierFacts(s, b);
  }

  lemma BarrierFacts(s: Sys, b: nat)
    requires Core(s) && b < |s.bs|
    ensures BarrierPromise(s.tab, b, s.bs[b])
  {
    hide MutexesOk, JoinsOk, LogOk;
    var x := s.bs[b];
    assert BarrierOk(s.tab, b, x);
    AllWoken(s.tab, InBarrier(b), x.wait);
  }

  /**
    What joins promise: a join has returned only for a thread that had exited, with its exit value;
    a thread is released exactly when its join returns, and once; a joiner that has not returned
    is woken as soon as its target has ended.
  */
  ghost predicate JoinPromise(tab: Table, log: Log) {
    && (forall k :: k in log.joined ==> k in log.exits && log.joined[k] == log.exits[k])
    && (forall k :: k in log.joined <==> k in log.freed) && NoDup(log.freed)
    && (forall i :: 0 <= i < |tab| && tab[i].Thread? ==> tab[i].serial !in log.freed)
    && (forall i :: 0 <= i < |tab| && tab[i].Thread? && tab[i].at.InJoin? ==>
          var t := tab[i].at.t;
          t < |tab| && tab[t].Thread? && (tab[i].st == Ready <==> tab[t].serial in log.exits))
  }

  /** Joins keep their promise in every state of every run. */
  lemma JoinsOverRuns(n: nat, addr: nat, acts: seq<Action>)
    requires n > 0 && Run(Boot(n, addr), acts)
    ensures JoinPromise(After(Boot(n, addr), acts).tab, After(Boot(n, addr), acts).log)
  {
    var s := After(Boot(n, addr), acts);
    InvParts(s);
    hide Inv, Core;
    JoinFacts(s);
  }

  lemma JoinFacts(s: Sys)
    requires Core(s)
    ensures JoinPromise(s.tab, s.log)
  {
    hide MutexesOk, BarriersOk;
  }

  // ---- One joiner --------------------------------------------------------------------------------

  /** A join keeps the invariant exactly if nobody else has joined the thread. */
  lemma JoinKeepsInvExactly(s: Sys, t: nat)
    requires Inv(s) && Callable(s, Join(t))
    ensures Core(JoinCalled(s, t)) <==> s.tab[t].join == None
  {
    hide MutexesOk, BarriersOk, LogOk, RunningOnly;
    CurrentThread(s);
    if s.tab[t].join == None {
      JoinSteps(s, t);
    } else {
      SecondJoiner(s.tab, s.cur, t, |s.ms|, |s.bs|);
    }
  }

  lemma SecondJoiner(tab: Table, cur: nat, t: nat, nm: nat, nb: nat)
    requires ShapeOk(tab, nm, nb) && JoinsOk(tab) && cur < |tab| && tab[cur].In(User) && t < |tab| && tab[t].Thread?
    requires tab[t].join.Some?
    ensures var tab' := tab[t := tab[t].(join := Some(cur))];
            !JoinsOk(if tab[t].st != Zombie then Block(tab', cur, InJoin(t)) else tab'[t := Empty])
  {
    var a := tab[t].join.value;
    assert tab[a].In(InJoin(t));
    var mid := tab[t := tab[t].(join := Some(cur))];
    var tab' := if tab[t].st != Zombie then Block(mid, cur, InJoin(t)) else mid[t := Empty];
    assert a != cur;
    assert tab'[a].Thread? && tab'[a].at == InJoin(t);
  }

  /** Thread 0 waits in join for thread 2; thread 1 runs. */
  function OneJoined(): Sys {
    Sys([Thread(10, 0, Wait, InJoin(2), 0, None), Thread(11, 1, Running, User, 0, None),
      Thread(12, 2, Ready, User, 0, Some(0))],
        1, [], [], Log(3, map[], map[], []))
  }

  /** Then thread 1 has joined thread 2 as well, and thread 2 runs. */
  function BothJoined(): Sys {
    Sys([Thread(10, 0, Wait, InJoin(2), 0, None), Thread(11, 1, Wait, InJoin(2), 0, None),
      Thread(12, 2, Running, User, 0, Some(1))],
        2, [], [], Log(3, map[], map[], []))
  }

  lemma OneJoinedShape(tab: Table)
    requires |tab| == 3 && tab[0] == Thread(10, 0, Wait, InJoin(2), 0, None)
             && tab[1] == Thread(11, 1, Running, User, 0, None)
    requires tab[2] == Thread(12, 2, Ready, User, 0, Some(0))
    ensures ShapeOk(tab, 0, 0) && RunningOnly(tab, Some(1))
  {
  }

  lemma OneJoinedJoins(tab: Table)
    requires |tab| == 3 && tab[0] == Thread(10, 0, Wait, InJoin(2), 0, None)
             && tab[1] == Thread(11, 1, Running, User, 0, None)
    requires tab[2] == Thread(12, 2, Ready, User, 0, Some(0))
    ensures JoinsOk(tab)
  {
  }

  lemma OneJoinedLog(tab: Table, log: Log)
    requires |tab| == 3 && tab[0] == Thread(10, 0, Wait, InJoin(2), 0, None)
             && tab[1] == Thread(11, 1, Running, User, 0, None)
    requires tab[2] == Thread(12, 2, Ready, User, 0, Some(0)) && log == Log(3, map[], map[], [])
    ensures LogOk(tab, log)
  {
  }

  lemma OneJoinedInv()
    ensures Inv(OneJoined())
  {
    hide ShapeOk, JoinsOk, LogOk, RunningOnly;
    var s := OneJoined();
    assert s.tab[0] == Thread(10, 0, Wait, InJoin(2), 0, None);
    assert s.tab[1] == Thread(11, 1, Running, User, 0, None);
    assert s.tab[2] == Thread(12, 2, Ready, User, 0, Some(0));
    OneJoinedShape(s.tab);
    OneJoinedJoins(s.tab);
    OneJoinedLog(s.tab, s.log);
    InvFromParts(s);
  }

  lemma SecondJoinAccepted()
    ensures Inv(OneJoined()) && Callable(OneJoined(), Join(2))
    ensures Elect(JoinCalled(OneJoined(), 2).tab, 1) == 2 && Switch(JoinCalled(OneJoined(), 2)) == BothJoined()
  {
    hide Inv;
    OneJoinedInv();
    var mid := JoinCalled(OneJoined(), 2);
    assert mid.tab[2].Is(Ready);
    assert ElectFrom(mid.tab, 1, 0) == 2;
  }

  /**
    Two joiners: the exit of the joined thread wakes the second joiner only, which takes the value
    and destroys the thread; the first one waits for a thread that no longer exists.
  */
  lemma TwoJoinersStrandOne(v: int)
    ensures Callable(BothJoined(), Exit(v)) && Elect(Exited(BothJoined(), v).tab, 2) == 1
    ensures var ended := Switch(Exited(BothJoined(), v));
            ended.cur == 1 && ended.tab[2] == Empty && ended.tab[0] == Thread(10, 0, Wait, InJoin(2), 0, None)
  {
    var mid := Exited(BothJoined(), v);
    assert !mid.tab[0].Is(Ready) && mid.tab[1].Is(Ready);
    assert ElectFrom(mid.tab, 2, 1) == 1;
    assert ElectFrom(mid.tab, 2, 0) == 1;
  }

  // ---- What a caller can rely on -----------------------------------------------------------------

  /** A caller that is back from thread_mutex_lock owns the mutex. */
  lemma LockReturnsAsOwner(s: Sys, m: nat)
    requires Inv(s) && Enabled(s, MutexLock(m)) && m < |s.ms|
    ensures s.cur < |s.tab| && s.tab[s.cur].Thread? && |Step(s, MutexLock(m)).ms| == |s.ms|
    ensures Step(s, MutexLock(m)).tab[s.cur].In(User) ==>
              Step(s, MutexLock(m)).ms[m].owner == Some(s.tab[s.cur].addr)
  {
    CurrentThread(s);
    BeforeKeeps(s, MutexLock(m));
    var b := Before(s, MutexLock(m));
    hide Inv, Core, RunningOnly;
    if Switches(s, MutexLock(m)) {
      ElectIsFirst(b.tab, s.cur);
      hide Elect, ElectFrom;
      ResumeDefined(b, Elect(b.tab, s.cur));
    }
  }

  /** A thread that leaves thread_mutex_lock when it gets the processor back owns the mutex as well. */
  lemma WaiterReturnsAsOwner(s: Sys, a: Action, t: nat, m: nat)
    requires Inv(s) && Enabled(s, a) && t < |s.tab| && s.tab[t].In(InLock(m)) && Step(s, a).tab[t].In(User)
    ensures m < |Step(s, a).ms| && Step(s, a).ms[m].owner == Some(s.tab[t].addr)
    ensures s.tab[t].addr in Step(s, a).ms[m].inside
  {
    CurrentThread(s);
    BeforeKeeps(s, a);
    var b := Before(s, a);
    WaiterStays(s, a, t, m);
    assert Switches(s, a);
    ElectIsFirst(b.tab, s.cur);
    var e := Elect(b.tab, s.cur);
    ResumeDefined(b, e);
    hide Inv, RunningOnly, Enabled, Before, Elect, ElectFrom;
    OnlyElectedReturns(b, e, t);
    assert MutexOk(b.tab, m, b.ms[m]);
  }

  /** Before the election a thread in thread_mutex_lock stays there, unless it is the one that is joined there. */
  lemma WaiterStays(s: Sys, a: Action, t: nat, m: nat)
    requires Inv(s) && Enabled(s, a) && t < |s.tab| && s.tab[t].In(InLock(m))
    ensures Before(s, a).tab[t].In(InLock(m)) && Before(s, a).tab[t].addr == s.tab[t].addr
  {
    CurrentThread(s);
    assert s.tab[t].st != Zombie;
    hide Inv, Core, RunningOnly, FirstEmpty;
  }

  lemma OnlyElectedReturns(s: Sys, e: nat, t: nat)
    requires e < |s.tab| && s.tab[e].Thread? && t < |s.tab| && s.tab[t].Thread? && s.tab[t].at.InLock?
    requires match s.tab[e].at
             case InLock(m) => m < |s.ms|
             case InJoin(u) => u < |s.tab| && s.tab[u].Thread?
             case _ => true
    requires Resume(s, e).tab[t].In(User)
    ensures e == t
  {
  }

  /** After thread_mutex_unlock the caller does not own the mutex. */
  lemma UnlockGivesUp(s: Sys, m: nat)
    requires Inv(s) && Enabled(s, MutexUnlock(m)) && m < |s.ms|
    ensures s.cur < |s.tab| && s.tab[s.cur].Thread? && |Step(s, MutexUnlock(m)).ms| == |s.ms|
    ensures Step(s, MutexUnlock(m)).ms[m].owner != Some(s.tab[s.cur].addr)
  {
    CurrentThread(s);
    BeforeKeeps(s, MutexUnlock(m));
    InvParts(s);
    assert MutexOk(s.tab, m, s.ms[m]);
    assert AddrsApart(s.tab);
    hide Inv, Core, RunningOnly;
  }

  /** thread_yield hands the processor to the next READY thread, if there is another one. */
  lemma YieldGivesWay(s: Sys)
    requires Inv(s) && Enabled(s, Yield)
    ensures s.cur < |s.tab| && Step(s, Yield).cur < |s.tab|
    ensures var next := Step(s, Yield).cur;
            && (AnyReady(s.tab) ==> next != s.cur && s.tab[next].Is(Ready) && Step(s, Yield).tab[s.cur].Is(Ready))
            && (!AnyReady(s.tab) ==> next == s.cur)
            && forall t :: 0 <= t < |s.tab| && s.tab[t].Is(Ready) ==>
                 Dist(|s.tab|, s.cur, next) <= Dist(|s.tab|, s.cur, t)
  {
    CurrentThread(s);
    BeforeKeeps(s, Yield);
    var b := Before(s, Yield);
    hide Inv, Core, RunningOnly;
    assert b.tab[s.cur].Is(Ready);
    ElectIsFirst(b.tab, s.cur);
    hide Elect, ElectFrom;
    ResumeDefined(b, Elect(b.tab, s.cur));
  }

  // ---- Fairness ----------------------------------------------------------------------------------

  /** No call takes the READY state from another thread before the election. */
  lemma BeforeKeepsReady(s: Sys, a: Action, t: nat)
    requires Inv(s) && Callable(s, a) && t < |s.tab| && s.tab[t].Is(Ready)
    ensures Before(s, a).tab[t].Is(Ready) && |Before(s, a).tab| == |s.tab| && Before(s, a).cur == s.cur
  {
    CurrentThread(s);
    hide Inv, Core, RunningOnly, FirstEmpty;
  }

  /** The elected thread, or one still READY and closer to its turn. */
  lemma StepTowards(s: Sys, a: Action, t: nat)
    requires Inv(s) && Enabled(s, a) && t < |s.tab| && s.tab[t].Is(Ready)
    ensures var s' := Step(s, a);
            && s'.cur < |s.tab|
            && (if s'.cur == t then Switches(s, a)
                else s'.tab[t].Is(Ready)
                     && Dist(|s.tab|, s'.cur, t) <= Dist(|s.tab|, s.cur, t) - (if Switches(s, a) then 1 else 0))
  {
    CurrentThread(s);
    BeforeKeeps(s, a);
    BeforeKeepsReady(s, a, t);
    hide Inv, Core, Before, Enabled;
    if Switches(s, a) {
      var mid := Before(s, a);
      ElectIsFirst(mid.tab, s.cur);
      var e := Elect(mid.tab, s.cur);
      hide Elect, ElectFrom;
      ResumeDefined(mid, e);
      hide RunningOnly;
      ResumeKeeps(mid, e);
    }
  }

  /** The number of elections of a run. */
  ghost function Elections(s: Sys, acts: seq<Action>): nat
    requires Inv(s) && Run(s, acts)
    decreases |acts|
  {
    if acts == [] then 0
    else
      StepKeepsInv(s, acts[0]);
      (if Switches(s, acts[0]) then 1 else 0) + Elections(Step(s, acts[0]), acts[1..])
  }

  /** Some election of the run picks t. */
  ghost predicate Elected(s: Sys, acts: seq<Action>, t: nat)
    requires Inv(s) && Run(s, acts)
    decreases |acts|
  {
    acts != [] && (StepKeepsInv(s, acts[0]);
    (Switches(s, acts[0]) && Step(s, acts[0]).cur == t) || Elected(Step(s, acts[0]), acts[1..], t))
  }

  /** A READY thread is elected before as many others as there are slots between it and the current one. */
  lemma {:induction false} ElectedByDistance(s: Sys, acts: seq<Action>, t: nat)
    requires Inv(s) && Run(s, acts) && t < |s.tab| && s.tab[t].Is(Ready) && s.cur < |s.tab|
    requires Elections(s, acts) > Dist(|s.tab|, s.cur, t)
    ensures Elected(s, acts, t)
    decreases |acts|
  {
    hide Inv, Enabled, Switches, Step;
    StepKeepsInv(s, acts[0]);
    StepTowards(s, acts[0], t);
    var s' := Step(s, acts[0]);
    if s'.cur != t {
      ElectedByDistance(s', acts[1..], t);
    }
  }

  /** Fairness: from any reachable state, a READY thread is among the next n elected, n being the table's size. */
  lemma ReadyIsElected(s: Sys, acts: seq<Action>, t: nat)
    requires Inv(s) && Run(s, acts) && t < |s.tab| && s.tab[t].Is(Ready)
    requires Elections(s, acts) >= |s.tab|
    ensures Elected(s, acts, t)
  {
    CurrentThread(s);
    hide Inv;
    assert Dist(|s.tab|, s.cur, t) <= |s.tab| - 1;
    ElectedByDistance(s, acts, t);
  }
}
