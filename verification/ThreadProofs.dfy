/**
  Every call of the thread and synchronisation interface keeps the invariant of the machine.
*/
module ThreadProofs {
  import opened Machine
  import opened Threads

  // ---- What each part of the invariant depends on ------------------------------------------------

  /** The same threads are in w, in the same states. */
  ghost predicate SameIn(tab: Table, tab': Table, w: Where) {
    && |tab| == |tab'|
    && forall j :: 0 <= j < |tab| ==>
         (tab[j].In(w) <==> tab'[j].In(w)) && (tab[j].In(w) ==> tab[j].st == tab'[j].st && tab[j].addr == tab'[j].addr)
  }

  /** No thread enters, leaves, wakes up or falls asleep except in the calls given. */
  ghost predicate SameExcept(tab: Table, tab': Table, w: Where) {
    forall v: Where :: v != w && !v.User? && !v.InJoin? ==> SameIn(tab, tab', v)
  }

  lemma QueueFrame(tab: Table, tab': Table, w: Where, q: seq<nat>)
    requires QueueOk(tab, w, q) && SameIn(tab, tab', w)
    ensures QueueOk(tab', w, q)
  {
  }

  lemma MutexFrame(tab: Table, tab': Table, m: nat, x: Mutex)
    requires MutexOk(tab, m, x) && SameIn(tab, tab', InLock(m))
    ensures MutexOk(tab', m, x)
  {
    QueueFrame(tab, tab', InLock(m), x.wait);
  }

  lemma BarrierFrame(tab: Table, tab': Table, b: nat, x: Barrier)
    requires BarrierOk(tab, b, x) && SameIn(tab, tab', InBarrier(b))
    ensures BarrierOk(tab', b, x)
  {
    QueueFrame(tab, tab', InBarrier(b), x.wait);
  }

  /** One mutex changed, the others see the same threads. */
  lemma MutexesFrame(tab: Table, tab': Table, ms: seq<Mutex>, m: nat, x: Mutex)
    requires MutexesOk(tab, ms) && SameExcept(tab, tab', InLock(m))
    requires m < |ms| ==> MutexOk(tab', m, x)
    ensures MutexesOk(tab', if m < |ms| then ms[m := x] else ms)
  {
    hide MutexOk, SameIn;
    var ms' := if m < |ms| then ms[m := x] else ms;
    forall k | 0 <= k < |ms'|
      ensures MutexOk(tab', k, ms'[k])
    {
      if k != m {
        MutexFrame(tab, tab', k, ms[k]);
      }
    }
  }

  lemma BarriersFrame(tab: Table, tab': Table, bs: seq<Barrier>, b: nat, x: Barrier)
    requires BarriersOk(tab, bs) && SameExcept(tab, tab', InBarrier(b))
    requires b < |bs| ==> BarrierOk(tab', b, x)
    ensures BarriersOk(tab', if b < |bs| then bs[b := x] else bs)
  {
    hide BarrierOk, SameIn;
    var bs' := if b < |bs| then bs[b := x] else bs;
    forall k | 0 <= k < |bs'|
      ensures BarrierOk(tab', k, bs'[k])
    {
      if k != b {
        BarrierFrame(tab, tab', k, bs[k]);
      }
    }
  }

  lemma MutexesKept(tab: Table, tab': Table, ms: seq<Mutex>, w: Where)
    requires MutexesOk(tab, ms) && SameExcept(tab, tab', w) && !w.InLock?
    ensures MutexesOk(tab', ms)
  {
    hide MutexOk, SameIn;
    forall k | 0 <= k < |ms|
      ensures MutexOk(tab', k, ms[k])
    {
      MutexFrame(tab, tab', k, ms[k]);
    }
  }

  lemma BarriersKept(tab: Table, tab': Table, bs: seq<Barrier>, w: Where)
    requires BarriersOk(tab, bs) && SameExcept(tab, tab', w) && !w.InBarrier?
    ensures BarriersOk(tab', bs)
  {
    hide BarrierOk, SameIn;
    forall k | 0 <= k < |bs|
      ensures BarrierOk(tab', k, bs[k])
    {
      BarrierFrame(tab, tab', k, bs[k]);
    }
  }

  /** No thread ends, is joined, or moves in or out of join. */
  ghost predicate SameJoins(tab: Table, tab': Table) {
    && |tab| == |tab'|
    && forall i :: 0 <= i < |tab| ==>
         && (tab[i].Thread? <==> tab'[i].Thread?)
         && (tab[i].Thread? ==>
             && tab[i].join == tab'[i].join && (tab[i].st == Zombie <==> tab'[i].st == Zombie)
             && (tab[i].at.InJoin? <==> tab'[i].at.InJoin?)
             && (tab[i].at.InJoin? ==> tab[i].at == tab'[i].at && tab[i].st == tab'[i].st))
  }

  lemma JoinsFrame(tab: Table, tab': Table)
    requires JoinsOk(tab) && SameJoins(tab, tab')
    ensures JoinsOk(tab')
  {
    forall i | 0 <= i < |tab'| && tab'[i].Thread? && tab'[i].at.InJoin?
      ensures var t := tab'[i].at.t;
              t < |tab'| && tab'[t].Thread? && tab'[t].join == Some(i)
                && (tab'[i].st == Ready <==> tab'[t].st == Zombie)
    {
      assert tab[i].Thread? && tab[i].at.InJoin?;
    }
  }

  ghost predicate SameSerials(tab: Table, tab': Table) {
    && |tab| == |tab'|
    && forall i :: 0 <= i < |tab| ==>
         && (tab[i].Thread? <==> tab'[i].Thread?)
         && (tab[i].Thread? ==>
              tab[i].serial == tab'[i].serial && tab[i].addr == tab'[i].addr && tab[i].retval == tab'[i].retval
                                && (tab[i].st == Zombie <==> tab'[i].st == Zombie))
  }

  lemma LogFrame(tab: Table, tab': Table, log: Log)
    requires LogOk(tab, log) && SameSerials(tab, tab')
    ensures LogOk(tab', log)
  {
  }

  // ---- One slot rewritten ------------------------------------------------------------------------

  /** The thread of a slot changes state or place, but does not end and is not joined. */
  lemma SlotMoved(tab: Table, i: nat, x: Slot, w: Where)
    requires i < |tab| && tab[i].Thread? && x.Thread?
    requires x.addr == tab[i].addr && x.serial == tab[i].serial && x.retval == tab[i].retval && x.join == tab[i].join
    requires tab[i].st != Zombie && x.st != Zombie && !tab[i].at.InJoin? && !x.at.InJoin?
    requires tab[i].at.User? || tab[i].at == w
    requires x.at.User? || x.at == w
    ensures SameExcept(tab, tab[i := x], w) && SameJoins(tab, tab[i := x]) && SameSerials(tab, tab[i := x])
  {
  }

  lemma ShapeSlot(tab: Table, i: nat, x: Slot, nm: nat, nb: nat)
    requires ShapeOk(tab, nm, nb) && i < |tab|
    requires x.Thread? ==>
               match x.at
               case User => x.st != Wait
               case InLock(m) => m < nm && (x.st == Wait || x.st == Ready)
               case InBarrier(b) => b < nb && (x.st == Wait || x.st == Ready)
               case InJoin(t) => x.st == Wait || x.st == Ready
    ensures ShapeOk(tab[i := x], nm, nb)
  {
  }

  lemma RunningSlot(tab: Table, cur: nat, x: Slot)
    requires RunningOnly(tab, Some(cur)) && !x.Is(Running)
    ensures RunningOnly(tab[cur := x], None)
  {
  }

  /** What Core says, part by part. */
  lemma CoreParts(s: Sys)
    requires Core(s)
    ensures ShapeOk(s.tab, |s.ms|, |s.bs|) && MutexesOk(s.tab, s.ms) && BarriersOk(s.tab, s.bs)
    ensures JoinsOk(s.tab) && LogOk(s.tab, s.log)
  {
  }

  lemma CurrentThread(s: Sys)
    requires Inv(s)
    ensures s.cur < |s.tab| && s.tab[s.cur].Thread? && s.tab[s.cur].st == Running && s.tab[s.cur].at == User
  {
    assert s.tab[s.cur].Is(Running);
  }

  // ---- Yield -------------------------------------------------------------------------------------

  /** A thread in its own code changes between RUNNING and READY. */
  lemma UserChanged(s: Sys, i: nat, st: State)
    requires Core(s) && i < |s.tab| && s.tab[i].In(User) && s.tab[i].st != Zombie && (st == Ready || st == Running)
    ensures Core(s.(tab := SetState(s.tab, i, st)))
  {
    hide ShapeOk, MutexesOk, BarriersOk, JoinsOk, LogOk;
    var x := s.tab[i].(st := st);
    SlotMoved(s.tab, i, x, User);
    var tab' := s.tab[i := x];
    ShapeSlot(s.tab, i, x, |s.ms|, |s.bs|);
    hide SameExcept, SameJoins, SameSerials;
    MutexesKept(s.tab, tab', s.ms, User);
    BarriersKept(s.tab, tab', s.bs, User);
    JoinsFrame(s.tab, tab');
    LogFrame(s.tab, tab', s.log);
  }

  lemma YieldKeeps(s: Sys)
    requires Inv(s)
    ensures Callable(s, Yield) && Core(Before(s, Yield)) && RunningOnly(Before(s, Yield).tab, None)
  {
    CurrentThread(s);
    hide Core;
    UserChanged(s, s.cur, Ready);
    RunningSlot(s.tab, s.cur, s.tab[s.cur].(st := Ready));
  }

  // ---- Mutex -------------------------------------------------------------------------------------

  lemma Enqueued(tab: Table, w: Where, q: seq<nat>, i: nat)
    requires QueueOk(tab, w, q) && i < |tab| && tab[i].In(User) && !w.User?
    ensures QueueOk(Block(tab, i, w), w, q + [i]) && i !in q
  {
    var tab', q' := Block(tab, i, w), q + [i];
    assert i !in q;
    forall j | 0 <= j < |tab'|
      ensures j in q' <==> tab'[j].In(w) && tab'[j].st == Wait
    {
      assert j in q' <==> j in q || j == i;
    }
  }

  lemma LockBlocks(tab: Table, m: nat, x: Mutex, i: nat)
    requires MutexOk(tab, m, x) && x.busy && i < |tab| && tab[i].In(User) && x.owner != Some(tab[i].addr)
    ensures MutexOk(Block(tab, i, InLock(m)), m, x.(arrivals := x.arrivals + [tab[i].addr], wait := x.wait + [i]))
  {
    Enqueued(tab, InLock(m), x.wait, i);
  }

  lemma BlockKeeps(s: Sys, w: Where)
    requires Core(s) && s.cur < |s.tab| && s.tab[s.cur].In(User) && s.tab[s.cur].st != Zombie
    requires match w case InLock(m) => m < |s.ms| case InBarrier(b) => b < |s.bs| case _ => false
    ensures var tab' := Block(s.tab, s.cur, w);
            ShapeOk(tab', |s.ms|, |s.bs|) && JoinsOk(tab') && LogOk(tab', s.log) && SameExcept(s.tab, tab', w)
  {
    hide ShapeOk, MutexesOk, BarriersOk, JoinsOk, LogOk;
    var x := s.tab[s.cur].(st := Wait, at := w);
    SlotMoved(s.tab, s.cur, x, w);
    var tab' := s.tab[s.cur := x];
    ShapeSlot(s.tab, s.cur, x, |s.ms|, |s.bs|);
    hide SameExcept, SameJoins, SameSerials;
    JoinsFrame(s.tab, tab');
    LogFrame(s.tab, tab', s.log);
  }

  lemma LockTakes(tab: Table, m: nat, x: Mutex, i: nat)
    requires MutexOk(tab, m, x) && !x.busy && i < |tab| && tab[i].In(User) && AddrsApart(tab)
    ensures var me := tab[i].addr;
            MutexOk(tab, m,
              x.(arrivals := x.arrivals + [me], busy := true, owner := Some(me), inside := x.inside + {me},
                               grants := x.grants + [me]))
  {
  }

  lemma SameSelf(tab: Table, w: Where)
    ensures SameExcept(tab, tab, w)
  {
  }

  lemma LockKeeps(s: Sys, m: nat)
    requires Inv(s)
    ensures Callable(s, MutexLock(m)) && Core(Locked(s, m))
    ensures RunningOnly(Locked(s, m).tab, if Switches(s, MutexLock(m)) then None else Some(s.cur))
  {
    CurrentThread(s);
    CoreParts(s);
    var me := s.tab[s.cur].addr;
    if m < |s.ms| && !(s.ms[m].busy && s.ms[m].owner == Some(me)) {
      var x := s.ms[m];
      assert AddrsApart(s.tab);
      assert MutexOk(s.tab, m, x);
      hide ShapeOk, MutexesOk, BarriersOk, JoinsOk, LogOk, MutexOk;
      if x.busy {
        LockBlocks(s.tab, m, x, s.cur);
        BlockKeeps(s, InLock(m));
        var tab' := Block(s.tab, s.cur, InLock(m));
        RunningSlot(s.tab, s.cur, s.tab[s.cur].(st := Wait, at := InLock(m)));
        MutexesFrame(s.tab, tab', s.ms, m, x.(arrivals := x.arrivals + [me], wait := x.wait + [s.cur]));
        BarriersKept(s.tab, tab', s.bs, InLock(m));
      } else {
        LockTakes(s.tab, m, x, s.cur);
        SameSelf(s.tab, InLock(m));
        MutexesFrame(s.tab, s.tab, s.ms, m, Locked(s, m).ms[m]);
      }
    }
  }

  lemma Dequeued(tab: Table, w: Where, q: seq<nat>)
    requires QueueOk(tab, w, q) && q != []
    ensures q[0] < |tab| && tab[q[0]].In(w) && tab[q[0]].st == Wait && q[0] !in q[1..]
    ensures QueueOk(SetState(tab, q[0], Ready), w, q[1..])
  {
    assert q[0] in q;
    assert q == [q[0]] + q[1..];
  }

  lemma UnlockHandsOver(tab: Table, m: nat, x: Mutex, cur: nat)
    requires MutexOk(tab, m, x) && x.wait != [] && cur < |tab| && tab[cur].In(User) && AddrsApart(tab)
    requires x.owner == Some(tab[cur].addr)
    ensures x.wait[0] < |tab| && tab[x.wait[0]].In(InLock(m)) && tab[x.wait[0]].st == Wait
    ensures var w := x.wait[0];
            MutexOk(SetState(tab, w, Ready), m, x.(inside := x.inside - {tab[cur].addr}, owner := Some(tab[w].addr),
                                                   wait := x.wait[1..], grants := x.grants + [tab[w].addr]))
  {
    Dequeued(tab, InLock(m), x.wait);
    assert x.arrivals[..|x.grants| + 1] == x.arrivals[..|x.grants|] + [x.arrivals[|x.grants| + 0]];
  }

  lemma UnlockFrees(tab: Table, m: nat, x: Mutex, cur: nat)
    requires MutexOk(tab, m, x) && x.wait == [] && cur < |tab| && tab[cur].In(User) && AddrsApart(tab)
    requires x.owner == Some(tab[cur].addr)
    ensures MutexOk(tab, m, x.(inside := x.inside - {tab[cur].addr}, busy := false, owner := None))
  {
  }

  lemma RunningKept(tab: Table, tab': Table, who: Option<nat>)
    requires RunningOnly(tab, who) && |tab| == |tab'|
    requires forall i :: 0 <= i < |tab| ==> (tab[i].Is(Running) <==> tab'[i].Is(Running))
    ensures RunningOnly(tab', who)
  {
  }

  /** A thread waiting in lock or in a barrier becomes READY. */
  lemma WokenSlot(s: Sys, i: nat)
    requires Core(s) && i < |s.tab| && s.tab[i].Is(Wait) && (s.tab[i].at.InLock? || s.tab[i].at.InBarrier?)
    ensures var tab' := SetState(s.tab, i, Ready);
            ShapeOk(tab', |s.ms|, |s.bs|) && JoinsOk(tab') && LogOk(tab', s.log) && SameExcept(s.tab, tab', s.tab[i].at)
  {
    var x := s.tab[i].(st := Ready);
    ShapeSlot(s.tab, i, x, |s.ms|, |s.bs|);
    hide ShapeOk, MutexesOk, BarriersOk, JoinsOk, LogOk;
    SlotMoved(s.tab, i, x, s.tab[i].at);
    hide SameExcept, SameJoins, SameSerials;
    var tab' := s.tab[i := x];
    JoinsFrame(s.tab, tab');
    LogFrame(s.tab, tab', s.log);
  }

  lemma UnlockCallable(s: Sys, m: nat)
    requires Inv(s)
    ensures Callable(s, MutexUnlock(m)) && AddrsApart(s.tab) && (m < |s.ms| ==> MutexOk(s.tab, m, s.ms[m]))
  {
    CurrentThread(s);
    CoreParts(s);
    if m < |s.ms| {
      assert MutexOk(s.tab, m, s.ms[m]);
      if s.ms[m].wait != [] {
        Dequeued(s.tab, InLock(m), s.ms[m].wait);
      }
    }
  }

  lemma UnlockKeeps(s: Sys, m: nat)
    requires Inv(s)
    ensures Callable(s, MutexUnlock(m)) && Inv(Unlocked(s, m)) && !Switches(s, MutexUnlock(m))
  {
    hide Inv, Core, ShapeOk, MutexesOk, BarriersOk, JoinsOk, LogOk, MutexOk, SameExcept, AddrsApart;
    InvParts(s);
    CurrentThread(s);
    CoreParts(s);
    UnlockCallable(s, m);
    if m < |s.ms| && s.ms[m].busy && s.ms[m].owner == Some(s.tab[s.cur].addr) {
      var x := s.ms[m];
      if x.wait != [] {
        UnlockHandsOver(s.tab, m, x, s.cur);
        WokenSlot(s, x.wait[0]);
        var tab' := SetState(s.tab, x.wait[0], Ready);
        RunningKept(s.tab, tab', Some(s.cur));
        MutexesFrame(s.tab, tab', s.ms, m, Unlocked(s, m).ms[m]);
        BarriersKept(s.tab, tab', s.bs, InLock(m));
      } else {
        UnlockFrees(s.tab, m, x, s.cur);
        SameSelf(s.tab, InLock(m));
        MutexesFrame(s.tab, s.tab, s.ms, m, Unlocked(s, m).ms[m]);
      }
      InvFromParts(Unlocked(s, m));
    }
  }

  // ---- Barrier -----------------------------------------------------------------------------------

  function Members(q: seq<nat>): (r: set<nat>)
    ensures forall i :: i in r <==> i in q
  {
    set i | i in q
  }

  lemma {:induction false} DistinctMembers(q: seq<nat>)
    requires NoDup(q)
    ensures |Members(q)| == |q|
  {
    if q != [] {
      DistinctMembers(q[1..]);
      assert q == [q[0]] + q[1..];
      assert Members(q) == {q[0]} + Members(q[1..]);
    }
  }

  /** A barrier counted one more arrival. */
  function OneMore(x: Barrier, i: nat): Barrier
    requires i < |x.counts|
  {
    x.(waiting := x.waiting + 1, arrivals := x.arrivals + 1, callers := x.callers + {i},
    counts := x.counts[i := x.counts[i] + 1])
  }

  /** A thread that arrives for the first time, when all callers are participants, is in the first round. */
  lemma FirstArrival(callers: set<nat>, expected: nat, rounds: nat, i: nat)
    requires rounds > 0 ==> |callers| >= expected
    requires |callers + {i}| <= expected && i !in callers
    ensures rounds == 0 && |callers| <= expected
  {
    assert |callers + {i}| == |callers| + 1;
  }

  lemma CountsAfterBlock(tab: Table, b: nat, x: Barrier, i: nat)
    requires BarrierOk(tab, b, x) && i < |tab| && i !in x.wait
    ensures var x' := OneMore(x, i).(wait := x.wait + [i]);
            |x'.callers| <= x'.expected ==>
              forall j :: j in x'.callers ==> x'.counts[j] == x'.rounds + if j in x'.wait then 1 else 0
  {
    var x' := OneMore(x, i).(wait := x.wait + [i]);
    if |x'.callers| <= x'.expected {
      if i in x.callers {
        assert x.callers + {i} == x.callers;
      } else {
        FirstArrival(x.callers, x.expected, x.rounds, i);
      }
    }
  }

  lemma BarrierBlocks(tab: Table, b: nat, x: Barrier, i: nat)
    requires BarrierOk(tab, b, x) && i < |tab| && tab[i].In(User) && x.waiting + 1 != x.expected
    ensures BarrierOk(Block(tab, i, InBarrier(b)), b, OneMore(x, i).(wait := x.wait + [i]))
  {
    Enqueued(tab, InBarrier(b), x.wait, i);
    CountsAfterBlock(tab, b, x, i);
    CallersGrow(x.callers, i);
    hide QueueOk;
  }

  lemma CallersGrow(callers: set<nat>, i: nat)
    ensures |callers + {i}| >= |callers|
  {
    if i in callers {
      assert callers + {i} == callers;
    }
  }

  lemma RoundArithmetic(expected: nat, rounds: nat)
    ensures expected * (rounds + 1) == expected * rounds + expected
  {
  }

  /** At the end of a round all `expected` callers have arrived once more. */
  lemma RoundCallers(x: Barrier, i: nat)
    requires NoDup(x.wait) && i !in x.wait && |x.wait| + 1 == x.expected
    requires forall j :: j in x.wait ==> j in x.callers
    ensures |x.callers + {i}| >= x.expected
    ensures |x.callers + {i}| <= x.expected ==> forall j :: j in x.callers + {i} ==> j in x.wait || j == i
  {
    DistinctMembers(x.wait);
    var all, here := x.callers + {i}, Members(x.wait) + {i};
    assert |here| == x.expected;
    assert all == here + (all - here);
    assert |all| == |here| + |all - here|;
  }

  lemma CountsAfterOpen(tab: Table, b: nat, x: Barrier, i: nat)
    requires BarrierOk(tab, b, x) && i < |tab| && i !in x.wait && x.waiting + 1 == x.expected
    ensures var x' := OneMore(x, i).(waiting := 0, wait := [], rounds := x.rounds + 1);
            |x'.callers| <= x'.expected ==> forall j :: j in x'.callers ==> x'.counts[j] == x'.rounds
  {
    RoundCallers(x, i);
    var x' := OneMore(x, i).(waiting := 0, wait := [], rounds := x.rounds + 1);
    if |x'.callers| <= x'.expected {
      CallersGrow(x.callers, i);
      if i !in x.callers {
        FirstArrival(x.callers, x.expected, x.rounds, i);
      }
    }
  }

  lemma AllWoken(tab: Table, w: Where, q: seq<nat>)
    requires QueueOk(tab, w, q)
    ensures forall k :: 0 <= k < |q| ==> q[k] < |tab| && tab[q[k]].In(w) && tab[q[k]].st == Wait
    ensures QueueOk(WakeAll(tab, q), w, [])
  {
    forall k | 0 <= k < |q|
      ensures tab[q[k]].In(w) && tab[q[k]].st == Wait
    {
      assert q[k] in q;
    }
  }

  /** The last arrival empties the queue and wakes every thread of it. */
  lemma BarrierOpens(tab: Table, b: nat, x: Barrier, i: nat)
    requires BarrierOk(tab, b, x) && i < |tab| && tab[i].In(User) && x.waiting + 1 == x.expected
    ensures forall k :: 0 <= k < |x.wait| ==> x.wait[k] < |tab| && tab[x.wait[k]].In(InBarrier(b))
    ensures BarrierOk(WakeAll(tab, x.wait), b, OneMore(x, i).(waiting := 0, wait := [], rounds := x.rounds + 1))
  {
    AllWoken(tab, InBarrier(b), x.wait);
    CountsAfterOpen(tab, b, x, i);
    RoundCallers(x, i);
    RoundArithmetic(x.expected, x.rounds);
    hide QueueOk;
  }

  lemma WakeAllKeeps(s: Sys, b: nat, q: seq<nat>)
    requires Core(s) && QueueOk(s.tab, InBarrier(b), q)
    requires forall k :: 0 <= k < |q| ==> q[k] < |s.tab| && s.tab[q[k]].In(InBarrier(b))
    ensures var tab' := WakeAll(s.tab, q);
            && ShapeOk(tab', |s.ms|, |s.bs|) && JoinsOk(tab') && LogOk(tab', s.log)
            && SameExcept(s.tab, tab', InBarrier(b))
            && forall j :: 0 <= j < |tab'| ==> (s.tab[j].Is(Running) <==> tab'[j].Is(Running))
  {
    var tab' := WakeAll(s.tab, q);
    hide MutexesOk, BarriersOk, JoinsOk, LogOk, WakeAll;
    assert SameJoins(s.tab, tab') && SameSerials(s.tab, tab');
    hide SameJoins, SameSerials;
    JoinsFrame(s.tab, tab');
    LogFrame(s.tab, tab', s.log);
  }

  lemma ArrivalCallable(s: Sys, b: nat)
    requires Inv(s)
    ensures Callable(s, BarrierWait(b))
    ensures b < |s.bs| ==> BarrierOk(s.tab, b, s.bs[b]) && QueueOk(s.tab, InBarrier(b), s.bs[b].wait)
  {
    CurrentThread(s);
    CoreParts(s);
    if b < |s.bs| {
      assert BarrierOk(s.tab, b, s.bs[b]);
      AllWoken(s.tab, InBarrier(b), s.bs[b].wait);
    }
  }

  lemma ArrivalOpens(s: Sys, b: nat)
    requires Inv(s) && b < |s.bs| && s.bs[b].waiting + 1 == s.bs[b].expected && Callable(s, BarrierWait(b))
    ensures Inv(Arrived(s, b))
  {
    hide Inv, Core, ShapeOk, MutexesOk, BarriersOk, JoinsOk, LogOk, QueueOk, BarrierOk, SameExcept, WakeAll;
    InvParts(s);
    CurrentThread(s);
    CoreParts(s);
    ArrivalCallable(s, b);
    var x := s.bs[b];
    BarrierOpens(s.tab, b, x, s.cur);
    WakeAllKeeps(s, b, x.wait);
    var tab' := WakeAll(s.tab, x.wait);
    RunningKept(s.tab, tab', Some(s.cur));
    MutexesKept(s.tab, tab', s.ms, InBarrier(b));
    BarriersFrame(s.tab, tab', s.bs, b, Arrived(s, b).bs[b]);
    InvFromParts(Arrived(s, b));
  }

  lemma ArrivalBlocks(s: Sys, b: nat)
    requires Inv(s) && b < |s.bs| && s.bs[b].waiting + 1 != s.bs[b].expected && Callable(s, BarrierWait(b))
    ensures Core(Arrived(s, b)) && RunningOnly(Arrived(s, b).tab, None)
  {
    hide Inv, Core, ShapeOk, MutexesOk, BarriersOk, JoinsOk, LogOk, QueueOk, BarrierOk, SameExcept;
    InvParts(s);
    CurrentThread(s);
    CoreParts(s);
    ArrivalCallable(s, b);
    var x := s.bs[b];
    BarrierBlocks(s.tab, b, x, s.cur);
    BlockKeeps(s, InBarrier(b));
    var tab' := Block(s.tab, s.cur, InBarrier(b));
    RunningSlot(s.tab, s.cur, s.tab[s.cur].(st := Wait, at := InBarrier(b)));
    MutexesKept(s.tab, tab', s.ms, InBarrier(b));
    BarriersFrame(s.tab, tab', s.bs, b, Arrived(s, b).bs[b]);
    CoreFromParts(Arrived(s, b));
  }

  lemma CoreFromParts(s: Sys)
    requires ShapeOk(s.tab, |s.ms|, |s.bs|) && MutexesOk(s.tab, s.ms) && BarriersOk(s.tab, s.bs)
    requires JoinsOk(s.tab) && LogOk(s.tab, s.log)
    ensures Core(s)
  {
  }

  lemma InvFromParts(s: Sys)
    requires ShapeOk(s.tab, |s.ms|, |s.bs|) && MutexesOk(s.tab, s.ms) && BarriersOk(s.tab, s.bs)
    requires JoinsOk(s.tab) && LogOk(s.tab, s.log) && RunningOnly(s.tab, Some(s.cur))
    ensures Inv(s)
  {
  }

  lemma InvParts(s: Sys)
    requires Inv(s)
    ensures Core(s) && RunningOnly(s.tab, Some(s.cur))
  {
  }

  // ---- Exit and join -----------------------------------------------------------------------------

  lemma JoinerWaits(tab: Table, cur: nat)
    requires JoinsOk(tab) && cur < |tab| && tab[cur].Thread?
    ensures tab[cur].join.Some? ==> tab[cur].join.value < |tab| && tab[tab[cur].join.value].In(InJoin(cur))
  {
  }

  lemma ExitJoins(tab: Table, cur: nat, v: int)
    requires JoinsOk(tab) && cur < |tab| && tab[cur].In(User) && tab[cur].st == Running
    requires tab[cur].join.Some? ==> tab[cur].join.value < |tab| && tab[tab[cur].join.value].In(InJoin(cur))
                                     && tab[tab[cur].join.value].st != Zombie
    ensures var mid := tab[cur := tab[cur].(retval := v, st := Zombie)];
            JoinsOk(if tab[cur].join.Some? then SetState(mid, tab[cur].join.value, Ready) else mid)
  {
  }

  lemma ExitOthers(tab: Table, cur: nat, v: int)
    requires cur < |tab| && tab[cur].In(User)
    requires tab[cur].join.Some? ==> tab[cur].join.value < |tab| && tab[tab[cur].join.value].In(InJoin(cur))
    ensures var mid := tab[cur := tab[cur].(retval := v, st := Zombie)];
            SameExcept(tab, if tab[cur].join.Some? then SetState(mid, tab[cur].join.value, Ready) else mid, User)
  {
  }

  lemma ExitLog(tab: Table, cur: nat, v: int, log: Log)
    requires LogOk(tab, log) && cur < |tab| && tab[cur].In(User) && tab[cur].st == Running
    requires tab[cur].join.Some? ==> tab[cur].join.value < |tab| && tab[tab[cur].join.value].In(InJoin(cur))
                                     && tab[tab[cur].join.value].st != Zombie
    ensures var mid := tab[cur := tab[cur].(retval := v, st := Zombie)];
            LogOk(if tab[cur].join.Some? then SetState(mid, tab[cur].join.value, Ready) else mid,
                  log.(exits := log.exits[tab[cur].serial := v]))
  {
  }

  lemma ExitShape(tab: Table, cur: nat, v: int, nm: nat, nb: nat)
    requires ShapeOk(tab, nm, nb) && RunningOnly(tab, Some(cur)) && cur < |tab| && tab[cur].In(User)
    requires tab[cur].join.Some? ==> tab[cur].join.value < |tab| && tab[tab[cur].join.value].In(InJoin(cur))
    ensures tab[cur].join.Some? ==> tab[tab[cur].join.value].st != Zombie
    ensures var mid := tab[cur := tab[cur].(retval := v, st := Zombie)];
            var tab' := if tab[cur].join.Some? then SetState(mid, tab[cur].join.value, Ready) else mid;
            ShapeOk(tab', nm, nb) && RunningOnly(tab', None)
  {
  }

  lemma ExitKeeps(s: Sys, v: int)
    requires Inv(s)
    ensures Callable(s, Exit(v)) && Core(Exited(s, v)) && RunningOnly(Exited(s, v).tab, None)
  {
    hide Inv, Core, ShapeOk, MutexesOk, BarriersOk, JoinsOk, LogOk, SameExcept;
    InvParts(s);
    CurrentThread(s);
    CoreParts(s);
    JoinerWaits(s.tab, s.cur);
    ExitShape(s.tab, s.cur, v, |s.ms|, |s.bs|);
    ExitJoins(s.tab, s.cur, v);
    ExitOthers(s.tab, s.cur, v);
    ExitLog(s.tab, s.cur, v, s.log);
    var tab' := Exited(s, v).tab;
    MutexesKept(s.tab, tab', s.ms, User);
    BarriersKept(s.tab, tab', s.bs, User);
    CoreFromParts(Exited(s, v));
  }

  /** The joiner blocks on a thread that nobody else has joined. */
  lemma JoinBlocks(tab: Table, cur: nat, t: nat)
    requires JoinsOk(tab) && cur < |tab| && tab[cur].In(User) && tab[cur].st == Running
    requires t < |tab| && tab[t].Thread? && tab[t].join == None && tab[t].st != Zombie
    ensures var tab' := Block(tab[t := tab[t].(join := Some(cur))], cur, InJoin(t));
            JoinsOk(tab')
  {
  }

  lemma JoinSame(tab: Table, cur: nat, t: nat)
    requires cur < |tab| && tab[cur].In(User) && tab[cur].st == Running && t < |tab| && tab[t].Thread?
    ensures var tab' := Block(tab[t := tab[t].(join := Some(cur))], cur, InJoin(t));
            SameExcept(tab, tab', User) && SameSerials(tab, tab')
  {
  }

  /** An ended thread that nobody else has joined disappears. */
  lemma ReapedJoins(tab: Table, t: nat)
    requires JoinsOk(tab) && t < |tab| && tab[t].In(User) && tab[t].join == None
    ensures JoinsOk(tab[t := Empty]) && SameExcept(tab, tab[t := Empty], User)
  {
  }

  lemma ReapedLog(tab: Table, t: nat, log: Log)
    requires LogOk(tab, log) && t < |tab| && tab[t].Is(Zombie)
    ensures LogOk(tab[t := Empty], Reaped(log, tab[t]))
  {
    var x, log' := tab[t], Reaped(log, tab[t]);
    assert forall k :: k in log'.freed <==> k in log.freed || k == x.serial;
    forall i | 0 <= i < |tab| && tab[t := Empty][i].Thread?
      ensures tab[i].serial != x.serial
    {
      assert i != t;
      if i < t {
        assert tab[i].serial != tab[t].serial;
      } else {
        assert tab[t].serial != tab[i].serial;
      }
    }
  }

  lemma ReapedShape(tab: Table, cur: nat, t: nat, nm: nat, nb: nat)
    requires ShapeOk(tab, nm, nb) && RunningOnly(tab, Some(cur)) && t < |tab| && tab[t].Is(Zombie)
    ensures tab[t].In(User) && ShapeOk(tab[t := Empty], nm, nb) && RunningOnly(tab[t := Empty], Some(cur))
  {
  }

  lemma JoinShape(tab: Table, cur: nat, t: nat, nm: nat, nb: nat)
    requires ShapeOk(tab, nm, nb) && RunningOnly(tab, Some(cur)) && cur < |tab| && tab[cur].In(User)
    requires t < |tab| && tab[t].Thread? && tab[t].st != Zombie
    ensures var tab' := Block(tab[t := tab[t].(join := Some(cur))], cur, InJoin(t));
            ShapeOk(tab', nm, nb) && RunningOnly(tab', None)
  {
  }

  lemma JoinWaits(s: Sys, t: nat)
    requires Inv(s) && Callable(s, Join(t)) && s.tab[t].join == None && s.tab[t].st != Zombie
    ensures Core(JoinCalled(s, t)) && RunningOnly(JoinCalled(s, t).tab, None)
  {
    hide Inv, Core, ShapeOk, MutexesOk, BarriersOk, JoinsOk, LogOk, SameExcept, SameSerials;
    InvParts(s);
    CurrentThread(s);
    CoreParts(s);
    var tab' := JoinCalled(s, t).tab;
    JoinBlocks(s.tab, s.cur, t);
    JoinSame(s.tab, s.cur, t);
    JoinShape(s.tab, s.cur, t, |s.ms|, |s.bs|);
    MutexesKept(s.tab, tab', s.ms, User);
    BarriersKept(s.tab, tab', s.bs, User);
    LogFrame(s.tab, tab', s.log);
    CoreFromParts(JoinCalled(s, t));
  }

  lemma JoinReaps(s: Sys, t: nat)
    requires Inv(s) && Callable(s, Join(t)) && s.tab[t].join == None && s.tab[t].st == Zombie
    ensures Inv(JoinCalled(s, t))
  {
    hide Inv, Core, ShapeOk, MutexesOk, BarriersOk, JoinsOk, LogOk, SameExcept;
    InvParts(s);
    CoreParts(s);
    var tab' := s.tab[t := Empty];
    assert JoinCalled(s, t).tab == tab';
    ReapedShape(s.tab, s.cur, t, |s.ms|, |s.bs|);
    ReapedJoins(s.tab, t);
    ReapedLog(s.tab, t, s.log);
    MutexesKept(s.tab, tab', s.ms, User);
    BarriersKept(s.tab, tab', s.bs, User);
    InvFromParts(JoinCalled(s, t));
  }

  // ---- Creation ----------------------------------------------------------------------------------

  lemma NewThread(tab: Table, i: nat, cur: nat, nm: nat, nb: nat, x: Slot)
    requires ShapeOk(tab, nm, nb) && RunningOnly(tab, Some(cur)) && JoinsOk(tab)
    requires i < |tab| && tab[i].Empty? && x.Thread? && x.st == Ready && x.at == User && x.join == None
    ensures var tab' := tab[i := x];
            ShapeOk(tab', nm, nb) && RunningOnly(tab', Some(cur)) && JoinsOk(tab') && SameExcept(tab, tab', User)
  {
  }

  lemma NewThreadLog(tab: Table, i: nat, log: Log, addr: nat)
    requires LogOk(tab, log) && i < |tab| && tab[i].Empty?
    requires forall j :: 0 <= j < |tab| && tab[j].Thread? ==> tab[j].addr != addr
    ensures LogOk(tab[i := Thread(addr, log.next, Ready, User, 0, None)], log.(next := log.next + 1))
  {
    LogHasOldSerials(tab, log);
  }

  lemma LogHasOldSerials(tab: Table, log: Log)
    requires LogOk(tab, log)
    ensures log.next !in log.exits && log.next !in log.freed
  {
    assert forall k :: k in log.freed ==> k in log.joined;
  }

  lemma CreateKeeps(s: Sys, addr: nat)
    requires Inv(s) && Callable(s, Create(addr))
    ensures Inv(Created(s, addr))
  {
    hide Inv, Core;
    var i := FirstEmpty(s.tab);
    if i < |s.tab| {
      ThreadAdded(s, i, addr);
    }
  }

  lemma ThreadAdded(s: Sys, i: nat, addr: nat)
    requires Inv(s) && i < |s.tab| && s.tab[i].Empty?
    requires forall j :: 0 <= j < |s.tab| && s.tab[j].Thread? ==> s.tab[j].addr != addr
    ensures Inv(s.(tab := s.tab[i := Thread(addr, s.log.next, Ready, User, 0, None)],
                   log := s.log.(next := s.log.next + 1)))
  {
    hide *;
    InvParts(s);
    CoreParts(s);
    var x := Thread(addr, s.log.next, Ready, User, 0, None);
    var tab' := s.tab[i := x];
    NewThread(s.tab, i, s.cur, |s.ms|, |s.bs|, x);
    NewThreadLog(s.tab, i, s.log, addr);
    MutexesKept(s.tab, tab', s.ms, User);
    BarriersKept(s.tab, tab', s.bs, User);
    InvFromParts(s.(tab := tab', log := s.log.(next := s.log.next + 1)));
  }

  lemma FreshMutex(s: Sys)
    requires Inv(s)
    ensures Inv(s.(ms := s.ms + [Mutex(false, None, [], {}, [], [])]))
  {
    var m, x := |s.ms|, Mutex(false, None, [], {}, [], []);
    assert MutexOk(s.tab, m, x);
    hide MutexOk, BarrierOk, JoinsOk, LogOk;
  }

  lemma FreshBarrier(s: Sys, count: nat)
    requires Inv(s) && count > 0
    ensures Inv(s.(bs := s.bs + [Barrier(count, 0, [], 0, 0, seq(|s.tab|, _ => 0), {})]))
  {
    var b, x := |s.bs|, Barrier(count, 0, [], 0, 0, seq(|s.tab|, _ => 0), {});
    assert BarrierOk(s.tab, b, x);
    hide MutexOk, BarrierOk, JoinsOk, LogOk;
  }

  // ---- Election ----------------------------------------------------------------------------------

  /** The elected thread can complete the call it was in. */
  lemma ResumeDefined(s: Sys, i: nat)
    requires Core(s) && i < |s.tab| && s.tab[i].Is(Ready)
    ensures match s.tab[i].at
            case InLock(m) => m < |s.ms| && s.ms[m].owner == Some(s.tab[i].addr)
            case InJoin(t) => t < |s.tab| && s.tab[t].Is(Zombie) && s.tab[t].join == Some(i)
            case _ => true
  {
    match s.tab[i].at {
      case InLock(m) => assert MutexOk(s.tab, m, s.ms[m]);
      case _ =>
    }
  }

  lemma DispatchRuns(tab: Table, i: nat, nm: nat, nb: nat)
    requires ShapeOk(tab, nm, nb) && RunningOnly(tab, None) && i < |tab| && tab[i].Thread?
    ensures ShapeOk(Dispatch(tab, i), nm, nb) && RunningOnly(Dispatch(tab, i), Some(i))
  {
  }

  /** A READY thread leaves lock: the queue does not change, and it is the owner. */
  lemma LockReturns(tab: Table, m: nat, x: Mutex, i: nat)
    requires MutexOk(tab, m, x) && i < |tab| && tab[i].In(InLock(m)) && tab[i].st == Ready
             && x.owner == Some(tab[i].addr)
    ensures MutexOk(Dispatch(tab, i), m, x.(inside := x.inside + {tab[i].addr}))
  {
  }

  lemma BarrierReturns(tab: Table, b: nat, x: Barrier, i: nat)
    requires BarrierOk(tab, b, x) && i < |tab| && tab[i].In(InBarrier(b)) && tab[i].st == Ready
    ensures BarrierOk(Dispatch(tab, i), b, x)
  {
    QueueReturns(tab, InBarrier(b), x.wait, i);
    hide QueueOk;
  }

  lemma QueueReturns(tab: Table, w: Where, q: seq<nat>, i: nat)
    requires QueueOk(tab, w, q) && i < |tab| && tab[i].In(w) && tab[i].st == Ready && !w.User?
    ensures QueueOk(Dispatch(tab, i), w, q)
  {
  }

  lemma ResumeUser(s: Sys, i: nat)
    requires Core(s) && RunningOnly(s.tab, None) && i < |s.tab| && s.tab[i].Is(Ready) && s.tab[i].at == User
    ensures Inv(Resume(s, i))
  {
    hide Core, ShapeOk;
    CoreParts(s);
    DispatchRuns(s.tab, i, |s.ms|, |s.bs|);
    UserChanged(s, i, Running);
    assert Dispatch(s.tab, i) == SetState(s.tab, i, Running);
    CoreOfCur(s.(tab := SetState(s.tab, i, Running)), i);
  }

  lemma CoreOfCur(s: Sys, i: nat)
    requires Core(s)
    ensures Core(s.(cur := i))
  {
  }

  lemma DispatchFrames(s: Sys, i: nat)
    requires Core(s) && i < |s.tab| && s.tab[i].Is(Ready) && (s.tab[i].at.InLock? || s.tab[i].at.InBarrier?)
    ensures var tab' := Dispatch(s.tab, i);
            SameExcept(s.tab, tab', s.tab[i].at) && JoinsOk(tab') && LogOk(tab', s.log)
  {
    hide ShapeOk, MutexesOk, BarriersOk, JoinsOk, LogOk;
    SlotMoved(s.tab, i, s.tab[i].(st := Running, at := User), s.tab[i].at);
    hide SameExcept, SameJoins, SameSerials;
    JoinsFrame(s.tab, Dispatch(s.tab, i));
    LogFrame(s.tab, Dispatch(s.tab, i), s.log);
  }

  lemma ResumeLock(s: Sys, i: nat)
    requires Core(s) && RunningOnly(s.tab, None) && i < |s.tab| && s.tab[i].Is(Ready) && s.tab[i].at.InLock?
    ensures s.tab[i].at.m < |s.ms| && Inv(Resume(s, i))
  {
    ResumeDefined(s, i);
    CoreParts(s);
    var m := s.tab[i].at.m;
    assert MutexOk(s.tab, m, s.ms[m]);
    hide Inv, Core, ShapeOk, MutexesOk, BarriersOk, JoinsOk, LogOk, SameExcept, MutexOk;
    LockReturns(s.tab, m, s.ms[m], i);
    DispatchFrames(s, i);
    DispatchRuns(s.tab, i, |s.ms|, |s.bs|);
    var tab' := Dispatch(s.tab, i);
    MutexesFrame(s.tab, tab', s.ms, m, s.ms[m].(inside := s.ms[m].inside + {s.tab[i].addr}));
    BarriersKept(s.tab, tab', s.bs, InLock(m));
    InvFromParts(Resume(s, i));
  }

  lemma ResumeBarrier(s: Sys, i: nat)
    requires Core(s) && RunningOnly(s.tab, None) && i < |s.tab| && s.tab[i].Is(Ready) && s.tab[i].at.InBarrier?
    ensures Inv(Resume(s, i))
  {
    CoreParts(s);
    var b := s.tab[i].at.b;
    assert b < |s.bs|;
    assert BarrierOk(s.tab, b, s.bs[b]);
    hide Inv, Core, ShapeOk, MutexesOk, BarriersOk, JoinsOk, LogOk, SameExcept, BarrierOk;
    BarrierReturns(s.tab, b, s.bs[b], i);
    DispatchFrames(s, i);
    DispatchRuns(s.tab, i, |s.ms|, |s.bs|);
    var tab' := Dispatch(s.tab, i);
    MutexesKept(s.tab, tab', s.ms, InBarrier(b));
    BarriersFrame(s.tab, tab', s.bs, b, s.bs[b]);
    assert s.bs[b := s.bs[b]] == s.bs;
    InvFromParts(Resume(s, i));
  }

  lemma JoinReturns(tab: Table, i: nat, t: nat)
    requires JoinsOk(tab) && i < |tab| && tab[i].In(InJoin(t)) && t < |tab| && tab[t].In(User) && tab[t].Is(Zombie)
    requires tab[t].join == Some(i)
    ensures var tab' := Dispatch(tab, i)[t := Empty];
            JoinsOk(tab') && SameExcept(tab, tab', User)
  {
    var tab' := Dispatch(tab, i)[t := Empty];
    forall k | 0 <= k < |tab'| && tab'[k].Thread? && tab'[k].at.InJoin?
      ensures tab'[k].at.t < |tab'| && tab'[tab'[k].at.t].Thread? && tab'[tab'[k].at.t].join == Some(k)
              && (tab'[k].st == Ready <==> tab'[tab'[k].at.t].st == Zombie)
    {
      assert tab[k] == tab'[k];
    }
  }

  lemma JoinReturnsShape(tab: Table, i: nat, t: nat, nm: nat, nb: nat)
    requires ShapeOk(tab, nm, nb) && RunningOnly(tab, None) && i < |tab| && tab[i].In(InJoin(t)) && tab[i].st != Zombie
    requires t < |tab| && tab[t].Is(Zombie)
    ensures tab[t].In(User)
    ensures var tab' := Dispatch(tab, i)[t := Empty];
            ShapeOk(tab', nm, nb) && RunningOnly(tab', Some(i))
  {
  }

  lemma ResumeJoin(s: Sys, i: nat)
    requires Core(s) && RunningOnly(s.tab, None) && i < |s.tab| && s.tab[i].Is(Ready) && s.tab[i].at.InJoin?
    ensures var t := s.tab[i].at.t; t < |s.tab| && s.tab[t].Thread?
    ensures Inv(Resume(s, i))
  {
    ResumeDefined(s, i);
    CoreParts(s);
    hide Inv, Core, ShapeOk, MutexesOk, BarriersOk, JoinsOk, LogOk, SameExcept;
    var t := s.tab[i].at.t;
    JoinReturnsShape(s.tab, i, t, |s.ms|, |s.bs|);
    JoinReturns(s.tab, i, t);
    ReapedLog(s.tab, t, s.log);
    var tab' := Dispatch(s.tab, i)[t := Empty];
    assert SameSerials(s.tab[t := Empty], tab');
    LogFrame(s.tab[t := Empty], tab', Reaped(s.log, s.tab[t]));
    MutexesKept(s.tab, tab', s.ms, User);
    BarriersKept(s.tab, tab', s.bs, User);
    InvFromParts(Resume(s, i));
  }

  lemma ResumeKeeps(s: Sys, i: nat)
    requires Core(s) && RunningOnly(s.tab, None) && i < |s.tab| && s.tab[i].Is(Ready)
    ensures match s.tab[i].at
            case InLock(m) => m < |s.ms|
            case InJoin(t) => t < |s.tab| && s.tab[t].Thread?
            case _ => true
    ensures Inv(Resume(s, i)) && Resume(s, i).cur == i
  {
    hide Inv, Core, RunningOnly;
    match s.tab[i].at {
      case User => ResumeUser(s, i);
      case InLock(_) => ResumeLock(s, i);
      case InBarrier(_) => ResumeBarrier(s, i);
      case InJoin(_) => ResumeJoin(s, i);
    }
  }
}
