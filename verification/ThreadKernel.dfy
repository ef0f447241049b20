/**
  The thread and synchronisation calls as the kernel executes them: ThreadTab and the records of
  mutexes and barriers are updated in place, and wait queues are intrusive rings threaded
  through the threads. Each call is proved to take the machine's step.
*/
module ThreadKernel {
  import opened Machine
  import opened Ring
  import opened Threads
  import opened ThreadProofs
  import opened ThreadRuns

  // ---- Wait queues as rings ----------------------------------------------------------------------

  ghost predicate IsQueue(s: Sys, w: Where) {
    match w
    case InLock(m) => m < |s.ms|
    case InBarrier(b) => b < |s.bs|
    case _ => false
  }

  ghost function QueueAt(s: Sys, w: Where): seq<nat>
    requires IsQueue(s, w)
  {
    match w
    case InLock(m) => s.ms[m].wait
    case InBarrier(b) => s.bs[b].wait
  }

  /** The address of a queue's root; a thread's own link words are at its slot number. */
  function RootOf(w: Where): Addr {
    match w
    case InLock(m) => -2 * m - 1
    case InBarrier(b) => -2 * b - 2
    case _ => 0
  }

  ghost predicate AllRings(l: Links, s: Sys) {
    forall w :: IsQueue(s, w) ==> IsRing(l, RootOf(w), QueueAt(s, w))
  }

  /** A thread is in one queue at most. */
  ghost predicate Apart(s: Sys) {
    forall v, w, i :: IsQueue(s, v) && IsQueue(s, w) && i in QueueAt(s, v) && i in QueueAt(s, w) ==> v == w
  }

  lemma QueueMember(s: Sys, w: Where, i: nat)
    requires Core(s) && IsQueue(s, w) && i in QueueAt(s, w)
    ensures i < |s.tab| && s.tab[i].In(w) && s.tab[i].st == Wait
  {
    match w {
      case InLock(m) => assert MutexOk(s.tab, m, s.ms[m]);
      case InBarrier(b) => assert BarrierOk(s.tab, b, s.bs[b]);
    }
  }

  lemma QueuesApart(s: Sys)
    requires Core(s)
    ensures Apart(s)
  {
    hide Core;
    forall v, w, i | IsQueue(s, v) && IsQueue(s, w) && i in QueueAt(s, v) && i in QueueAt(s, w)
      ensures v == w
    {
      QueueMember(s, v, i);
      QueueMember(s, w, i);
    }
  }

  /** A thread in its own code is in no queue. */
  lemma UserInNoQueue(s: Sys, i: nat)
    requires Core(s) && i < |s.tab| && s.tab[i].In(User)
    ensures forall w :: IsQueue(s, w) ==> i !in QueueAt(s, w)
  {
    hide Core;
    forall w | IsQueue(s, w)
      ensures i !in QueueAt(s, w)
    {
      if i in QueueAt(s, w) {
        QueueMember(s, w, i);
      }
    }
  }

  ghost predicate SameQueuesBut(s: Sys, s': Sys, w: Where) {
    && (forall v :: IsQueue(s, v) <==> IsQueue(s', v))
    && (forall v :: IsQueue(s, v) && v != w ==> QueueAt(s', v) == QueueAt(s, v))
  }

  lemma RootsApart(v: Where, w: Where)
    requires v.InLock? || v.InBarrier?
    requires w.InLock? || w.InBarrier?
    ensures RootOf(v) < 0 && (RootOf(v) == RootOf(w) ==> v == w)
  {
  }

  /** A thread of no queue is appended to one; the other rings keep their links. */
  lemma RingsAdd(l: Links, s: Sys, s': Sys, w: Where, i: nat)
    requires AllRings(l, s) && Apart(s) && IsQueue(s, w) && SameQueuesBut(s, s', w)
    requires forall v :: IsQueue(s, v) ==> i !in QueueAt(s, v)
    requires QueueAt(s', w) == QueueAt(s, w) + [i]
    requires At(RootOf(w), QueueAt(s, w), |QueueAt(s, w)| - 1) in l.next
    ensures AllRings(AddedAfter(l, At(RootOf(w), QueueAt(s, w), |QueueAt(s, w)| - 1), i), s')
  {
    var root, q := RootOf(w), QueueAt(s, w);
    RootsApart(w, w);
    assert IsRing(l, root, q);
    var l' := AddedAfter(l, At(root, q, |q| - 1), i);
    AddedAfterIsRing(l, root, q, |q|, i);
    assert InsertAt(q, |q|, i) == q + [i];
    assert l.next[At(root, q, |q| - 1)] == root by {
      assert l.next[At(root, q, |q| - 1)] == At(root, q, |q|);
    }
    forall v | IsQueue(s', v)
      ensures IsRing(l', RootOf(v), QueueAt(s', v))
    {
      if v != w {
        RootsApart(v, w);
        OtherRing(l, s, v, w);
        RingFrame(l, l', RootOf(v), QueueAt(s, v));
      }
    }
  }

  /** No node of one queue's ring is a node of another's. */
  lemma OtherRing(l: Links, s: Sys, v: Where, w: Where)
    requires AllRings(l, s) && Apart(s) && IsQueue(s, v) && IsQueue(s, w) && v != w
    ensures forall a :: a == RootOf(v) || a in QueueAt(s, v) ==> a != RootOf(w) && a !in QueueAt(s, w)
    ensures IsRing(l, RootOf(v), QueueAt(s, v))
  {
    RootsApart(v, w);
    RootsApart(w, v);
  }

  /** The first thread of a queue is unlinked; the other rings keep their links. */
  lemma RingsUnlink(l: Links, s: Sys, s': Sys, w: Where)
    requires AllRings(l, s) && Apart(s) && IsQueue(s, w) && SameQueuesBut(s, s', w) && QueueAt(s, w) != []
    requires QueueAt(s', w) == QueueAt(s, w)[1..]
    ensures QueueAt(s, w)[0] in l.next && QueueAt(s, w)[0] in l.prev
    ensures AllRings(Unlinked(l, QueueAt(s, w)[0]), s')
  {
    var root, q := RootOf(w), QueueAt(s, w);
    RootsApart(w, w);
    assert IsRing(l, root, q);
    UnlinkedIsRing(l, root, q, 0);
    assert RemoveAt(q, 0) == q[1..];
    var l' := Unlinked(l, q[0]);
    assert l.next[At(root, q, 0)] == At(root, q, 1) && l.prev[At(root, q, 0)] == At(root, q, -1);
    forall v | IsQueue(s', v)
      ensures IsRing(l', RootOf(v), QueueAt(s', v))
    {
      if v != w {
        OtherRing(l, s, v, w);
        RingFrame(l, l', RootOf(v), QueueAt(s, v));
      }
    }
  }

  /** A new empty queue. */
  lemma RingsNew(l: Links, s: Sys, s': Sys, w: Where)
    requires AllRings(l, s) && (w.InLock? || w.InBarrier?) && IsQueue(s', w) && !IsQueue(s, w) && QueueAt(s', w) == []
    requires forall v :: v != w ==> (IsQueue(s, v) <==> IsQueue(s', v))
    requires forall v :: IsQueue(s, v) ==> QueueAt(s', v) == QueueAt(s, v)
    ensures AllRings(Links(l.next[RootOf(w) := RootOf(w)], l.prev[RootOf(w) := RootOf(w)]), s')
  {
    var root := RootOf(w);
    var l' := Links(l.next[root := root], l.prev[root := root]);
    assert IsRing(l', root, []);
    forall v | IsQueue(s', v)
      ensures IsRing(l', RootOf(v), QueueAt(s', v))
    {
      if v != w {
        RootsApart(v, w);
        RootsApart(w, v);
        RingFrame(l, l', RootOf(v), QueueAt(s, v));
      }
    }
  }

  lemma RingsSame(l: Links, s: Sys, s': Sys)
    requires AllRings(l, s)
    requires forall v :: IsQueue(s, v) <==> IsQueue(s', v)
    requires forall v :: IsQueue(s, v) ==> QueueAt(s', v) == QueueAt(s, v)
    ensures AllRings(l, s')
  {
    forall v | IsQueue(s', v)
      ensures IsRing(l, RootOf(v), QueueAt(s', v))
    {
      assert IsQueue(s, v);
    }
  }

  // ---- The kernel --------------------------------------------------------------------------------

  datatype MutexRec = MutexRec(busy: bool, owner: Option<nat>)
  datatype BarrierRec = BarrierRec(expected: nat, waiting: nat)

  /** The records are those of the machine's mutexes and barriers. */
  ghost predicate SameRecords(ms: seq<MutexRec>, bs: seq<BarrierRec>, s: Sys) {
    && |ms| == |s.ms| && (forall m :: 0 <= m < |ms| ==> ms[m] == MutexRec(s.ms[m].busy, s.ms[m].owner))
    && |bs| == |s.bs| && (forall b :: 0 <= b < |bs| ==> bs[b] == BarrierRec(s.bs[b].expected, s.bs[b].waiting))
  }

  /** The elected thread can complete its call. */
  ghost predicate CanSwitch(s: Sys) {
    && s.cur < |s.tab| && Elect(s.tab, s.cur) < |s.tab| && s.tab[Elect(s.tab, s.cur)].Thread?
    && match s.tab[Elect(s.tab, s.cur)].at
       case InLock(m) => m < |s.ms|
       case InJoin(t) => t < |s.tab| && s.tab[t].Thread?
       case _ => true
  }

  /** The current thread owns the mutex. */
  ghost predicate Held(s: Sys, m: nat) {
    s.cur < |s.tab| && s.tab[s.cur].Thread? && m < |s.ms| && s.ms[m].busy && s.ms[m].owner == Some(s.tab[s.cur].addr)
  }

  ghost predicate HeldByOther(s: Sys, m: nat) {
    s.cur < |s.tab| && s.tab[s.cur].Thread? && m < |s.ms| && s.ms[m].busy && s.ms[m].owner != Some(s.tab[s.cur].addr)
  }

  lemma SwitchDefined(s: Sys)
    requires Core(s) && RunningOnly(s.tab, None) && s.cur < |s.tab| && AnyReady(s.tab)
    ensures CanSwitch(s) && s.tab[Elect(s.tab, s.cur)].Is(Ready)
    ensures Inv(Switch(s))
  {
    hide Core, RunningOnly, Inv;
    ElectIsFirst(s.tab, s.cur);
    ResumeKeeps(s, Elect(s.tab, s.cur));
  }

  /** What a step is, by whether it gives the processor away. */
  lemma StepShape(s: Sys, a: Action)
    requires Inv(s) && Enabled(s, a)
    ensures Core(Before(s, a)) && Before(s, a).cur == s.cur && |Before(s, a).tab| == |s.tab|
    ensures !Switches(s, a) ==> Step(s, a) == Before(s, a)
    ensures Switches(s, a) ==> RunningOnly(Before(s, a).tab, None) && AnyReady(Before(s, a).tab)
                               && CanSwitch(Before(s, a)) && Step(s, a) == Switch(Before(s, a))
  {
    hide Core, RunningOnly, Inv;
    BeforeKeeps(s, a);
    CurrentThread(s);
    if Switches(s, a) {
      SwitchDefined(Before(s, a));
    }
  }

  class Kernel {
    const tab: array<Slot>          // ThreadTab and the thread structures
    const links: LinkMemory         // the link words of wait queues
    var cur: nat                    // ThreadCurrentIdx
    var ms: seq<MutexRec>
    var bs: seq<BarrierRec>
    var nextSerial: nat
    var delivered: map<nat, int>    // what joins have returned
    var freed: seq<nat>             // threads whose slot and stack have been released
    ghost var s: Sys

    ghost predicate RelRest()
      reads this, links
    {
      && cur == s.cur && SameRecords(ms, bs, s) && AllRings(links.Val(), s)
      && nextSerial == s.log.next && delivered == s.log.joined && freed == s.log.freed
    }

    ghost predicate Rel()
      reads this, tab, links
    {
      RelRest() && tab[..] == s.tab
    }

    ghost predicate Valid()
      reads this, tab, links
    {
      Rel() && Inv(s)
    }

    /** The address of the current thread. */
    ghost function Me(): Option<nat>
      reads this, tab
    {
      if cur < tab.Length && tab[cur].Thread? then Some(tab[cur].addr) else None
    }

    /** A table of n slots in which the first thread, at the address, runs. */
    constructor (n: nat, addr: nat)
      requires n > 0
      ensures Valid() && s == Boot(n, addr) && tab.Length == n && fresh(tab) && fresh(links)
    {
      tab := new Slot[n](i => if i == 0 then Thread(addr, 0, Running, User, 0, None) else Empty);
      links := new LinkMemory();
      cur, ms, bs := 0, [], [];
      nextSerial, delivered, freed := 1, map[], [];
      s := Boot(n, addr);
      new;
      assert tab[..] == s.tab;
    }

    /** sched_elect, when some thread is READY. */
    method SchedElect() returns (th: nat)
      requires cur < tab.Length && AnyReady(tab[..])
      ensures th == Elect(tab[..], cur) < tab.Length
    {
      hide AnyReady, Elect, ElectFrom;
      var thmax := (cur + 1) % tab.Length;
      th := thmax;
      ghost var d := 0;
      SearchStarts(tab[..], cur);
      while true
        invariant 0 <= d < tab.Length && th == (cur + 1 + d) % tab.Length < tab.Length
        invariant Elect(tab[..], cur) == ElectFrom(tab[..], cur, d)
        decreases tab.Length - d
      {
        SearchStep(tab[..], cur, d, th);
        if tab[th].Thread? && tab[th].st == Ready {
          return;
        }
        th := (th + 1) % tab.Length;
        d := d + 1;
        if th == thmax {
          assert false;
        }
      }
    }

    /** What the elected thread does when it gets the processor: it leaves the call it was blocked in. */
    method Finish(th: nat)
      requires th < tab.Length && tab[th].Thread?
      requires tab[th].at.InJoin? ==> tab[th].at.t < tab.Length && tab[tab[th].at.t].Thread?
      modifies this`delivered, this`freed, tab
      ensures tab[..] == if old(tab[th].at.InJoin?) then Dispatch(old(tab[..]), th)[old(tab[th].at.t) := Empty]
                         else Dispatch(old(tab[..]), th)
      ensures delivered == if old(tab[th].at.InJoin?)
                           then old(delivered[tab[tab[th].at.t].serial := tab[tab[th].at.t].retval])
                           else old(delivered)
      ensures freed == if old(tab[th].at.InJoin?) then old(freed + [tab[tab[th].at.t].serial]) else old(freed)
    {
      var x := tab[th];
      if x.at.InJoin? {
        var y := tab[x.at.t];
        delivered := delivered[y.serial := y.retval];
        freed := freed + [y.serial];
        tab[th] := x.(st := Running, at := User);
        tab[x.at.t] := Empty;
      } else {
        tab[th] := x.(st := Running, at := User);
      }
    }

    /** sched_switch, with what the elected thread then completes. */
    method SchedSwitch()
      requires Rel() && Core(s) && RunningOnly(s.tab, None) && cur < tab.Length && AnyReady(s.tab)
      modifies this`cur, this`delivered, this`freed, this`s, tab
      ensures Rel() && old(CanSwitch(s)) && s == Switch(old(s))
    {
      hide Core, RunningOnly, Inv, AllRings, SameRecords, Switch, Elect, Dispatch;
      SwitchDefined(s);
      SwitchResult(s);
      SwitchedRings(links.Val(), s);
      SwitchedRecords(ms, bs, s);
      var th := SchedElect();
      if th != cur {
        cur := th;
      }
      Finish(th);
      s := Switch(s);
    }

    /** thread_wait: the caller's context is left in the call w. */
    method ThreadWait(w: Where)
      requires RelRest() && cur < tab.Length && tab[cur].Thread? && tab[cur].st == Running
      requires s.tab == Block(tab[..], cur, w) && Core(s) && RunningOnly(s.tab, None) && AnyReady(s.tab)
      modifies this`cur, this`delivered, this`freed, this`s, tab
      ensures Rel() && old(CanSwitch(s)) && s == Switch(old(s))
    {
      hide Core, RunningOnly, AllRings;
      var x := tab[cur];
      if x.st == Running {
        x := x.(st := Wait);
      }
      tab[cur] := x.(at := w);
      SchedSwitch();
    }

    /** thread_yield */
    method ThreadYield()
      requires Valid() && Enabled(s, Yield)
      modifies this`cur, this`delivered, this`freed, this`s, tab
      ensures Valid() && s == Step(old(s), Yield)
    {
      hide Core, RunningOnly, AllRings, SameRecords, Inv, Switch, Step, CanSwitch, Enabled, Before, AnyReady;
      YieldFacts(links.Val(), ms, bs, s);
      tab[cur] := tab[cur].(st := Ready);
      s := Before(s, Yield);
      SchedSwitch();
    }

    /** thread_mutex_init, when there is memory for the mutex. */
    method MutexNew() returns (m: nat)
      requires Valid() && Enabled(s, MutexInit)
      modifies this`ms, this`s, links
      ensures Valid() && s == Step(old(s), MutexInit) && m == |old(ms)|
    {
      hide Core, RunningOnly, AllRings, SameRecords, Inv, Step, Before, Enabled;
      NewMutexFacts(links.Val(), ms, bs, s);
      m := |ms|;
      ms := ms + [MutexRec(false, None)];
      links.Init(RootOf(InLock(m)));
      s := Before(s, MutexInit);
    }

    /** thread_mutex_lock */
    method Lock(m: nat) returns (r: int)
      requires Valid() && Enabled(s, MutexLock(m))
      modifies this, tab, links
      ensures Valid() && s == Step(old(s), MutexLock(m))
      ensures r == if m >= old(|ms|) then EINVAL else if old(ms[m].busy && ms[m].owner == Me()) then EDEADLK else 0
    {
      hide Core, RunningOnly, AllRings, SameRecords, Inv, Switch, Step, CanSwitch, Enabled;
      LockFacts(links.Val(), ms, bs, s, m);
      if m >= |ms| {
        return EINVAL;
      }
      if ms[m].busy && ms[m].owner == Some(tab[cur].addr) {
        return EDEADLK;
      }
      if ms[m].busy {
        LockWaits(m);
      } else {
        ms := ms[m := MutexRec(true, Some(tab[cur].addr))];
        s := Locked(s, m);
      }
      return 0;
    }

    /** The branch of thread_mutex_lock for a busy mutex. */
    method LockWaits(m: nat)
      requires Valid() && HeldByOther(s, m)
      requires Callable(s, MutexLock(m)) && Core(Locked(s, m)) && RunningOnly(Locked(s, m).tab, None)
               && AnyReady(Locked(s, m).tab)
      modifies this`cur, this`delivered, this`freed, this`s, tab, links
      ensures Rel() && old(CanSwitch(Locked(s, m))) && s == old(Switch(Locked(s, m)))
    {
      hide Core, RunningOnly, AllRings, SameRecords, Inv, Switch, Locked, CanSwitch, IsRing, AnyReady;
      LockWaitFacts(links.Val(), ms, bs, s, m);
      links.AddLast(RootOf(InLock(m)), cur, s.ms[m].wait);
      s := Locked(s, m);
      ThreadWait(InLock(m));
    }

    /** thread_mutex_unlock */
    method Unlock(m: nat) returns (r: int)
      requires Valid() && Enabled(s, MutexUnlock(m))
      modifies this`ms, this`s, tab, links
      ensures Valid() && s == Step(old(s), MutexUnlock(m))
      ensures r == if m >= old(|ms|) || !old(ms[m].busy) then EINVAL else if old(ms[m].owner != Me()) then EPERM else 0
    {
      hide Core, RunningOnly, AllRings, SameRecords, Inv, Step, Unlocked, Enabled, Callable, IsRing;
      UnlockFacts(links.Val(), ms, bs, s, m);
      if m >= |ms| || !ms[m].busy {
        return EINVAL;
      }
      if ms[m].owner != Some(tab[cur].addr) {
        return EPERM;
      }
      ghost var q := s.ms[m].wait;
      var none := links.IsEmpty(RootOf(InLock(m)), q);
      if !none {
        HandOverFacts(links.Val(), ms, bs, s, m);
        var item := links.next[RootOf(InLock(m))];
        links.Unlink(item, RootOf(InLock(m)), q, 0);
        ms := ms[m := MutexRec(true, Some(tab[item].addr))];
        tab[item] := tab[item].(st := Ready);
      } else {
        ReleaseFacts(links.Val(), ms, bs, s, m);
        ms := ms[m := MutexRec(false, None)];
      }
      s := Unlocked(s, m);
      return 0;
    }

    /** thread_barrier_init of a new barrier, when there is memory for it. */
    method BarrierNew(count: nat) returns (r: int, b: nat)
      requires Valid() && (count > 0 ==> Enabled(s, BarrierInit(count)))
      modifies this`bs, this`s, links
      ensures Valid() && r == if count == 0 then EINVAL else 0
      ensures count == 0 ==> s == old(s)
      ensures count > 0 ==> s == Step(old(s), BarrierInit(count)) && b == |old(bs)|
    {
      hide Core, RunningOnly, AllRings, SameRecords, Inv, Step, Before, Enabled;
      if count == 0 {
        return EINVAL, 0;
      }
      NewBarrierFacts(links.Val(), ms, bs, s, count);
      b := |bs|;
      bs := bs + [BarrierRec(count, 0)];
      links.Init(RootOf(InBarrier(b)));
      s := Before(s, BarrierInit(count));
      r := 0;
    }

    /** thread_barrier_wait */
    method Arrive(b: nat) returns (r: int)
      requires Valid() && Enabled(s, BarrierWait(b))
      modifies this, tab, links
      ensures Valid() && s == Step(old(s), BarrierWait(b))
      ensures r == if b >= old(|bs|) then EINVAL else 0
    {
      hide Core, RunningOnly, AllRings, SameRecords, Inv, Switch, Step, CanSwitch, Enabled, Arrived, Callable, AnyReady;
      ArriveFacts(links.Val(), ms, bs, s, b);
      if b >= |bs| {
        return EINVAL;
      }
      bs := bs[b := bs[b].(waiting := bs[b].waiting + 1)];
      if bs[b].waiting == bs[b].expected {
        WakeQueue(b);
        bs := bs[b := bs[b].(waiting := 0)];
        assert bs == old(bs)[b := BarrierRec(s.bs[b].expected, 0)];
        s := Arrived(s, b);
      } else {
        ArriveWaits(b);
      }
      return 0;
    }

    /** The branch of thread_barrier_wait for an arrival that is not the last. */
    method ArriveWaits(b: nat)
      requires Inv(s) && b < |s.bs| && s.bs[b].waiting + 1 != s.bs[b].expected && Callable(s, BarrierWait(b))
      requires tab[..] == s.tab && cur == s.cur && AllRings(links.Val(), s)
      requires nextSerial == s.log.next && delivered == s.log.joined && freed == s.log.freed
      requires SameRecords(ms, bs, Arrived(s, b))
      requires Core(Arrived(s, b)) && RunningOnly(Arrived(s, b).tab, None) && AnyReady(Arrived(s, b).tab)
      modifies this`cur, this`delivered, this`freed, this`s, tab, links
      ensures Rel() && old(CanSwitch(Arrived(s, b))) && s == old(Switch(Arrived(s, b)))
    {
      hide Core, RunningOnly, AllRings, SameRecords, Inv, Switch, Arrived, CanSwitch, IsRing, AnyReady, Callable;
      ArriveWaitFacts(links.Val(), s, b);
      links.AddLast(RootOf(InBarrier(b)), cur, s.bs[b].wait);
      s := Arrived(s, b);
      ThreadWait(InBarrier(b));
    }

    /** thread_create, when there are memory, at the address, and a slot: sched_insert takes the first empty one. */
    method ThreadCreate(addr: nat) returns (tid: nat)
      requires Valid() && Enabled(s, Create(addr))
      modifies this`nextSerial, this`s, tab
      ensures Valid() && s == Step(old(s), Create(addr))
      ensures tid < tab.Length && old(tab[tid]).Empty? && forall i :: 0 <= i < tid ==> old(tab[i]).Thread?
    {
      hide Core, RunningOnly, AllRings, SameRecords, Inv, Step, Enabled, Created;
      CreateFacts(links.Val(), ms, bs, s, addr);
      tid := 0;
      while tid < tab.Length && tab[tid].Thread?
        invariant 0 <= tid <= tab.Length && forall i :: 0 <= i < tid ==> tab[i].Thread?
      {
        tid := tid + 1;
      }
      assert FirstEmpty(s.tab) == tid;
      tab[tid] := Thread(addr, nextSerial, Ready, User, 0, None);
      nextSerial := nextSerial + 1;
      s := Created(s, addr);
    }

    /** thread_exit; the caller never comes back. */
    method ThreadExit(retval: int)
      requires Valid() && Enabled(s, Exit(retval))
      modifies this`cur, this`delivered, this`freed, this`s, tab
      ensures Valid() && s == Step(old(s), Exit(retval))
    {
      hide Core, RunningOnly, AllRings, SameRecords, Inv, Switch, Step, CanSwitch, Enabled, Exited, AnyReady;
      ExitFacts(links.Val(), ms, bs, s, retval);
      tab[cur] := tab[cur].(retval := retval, st := Zombie);
      var j := tab[cur].join;
      if j.Some? {
        tab[j.value] := tab[j.value].(st := Ready);
      }
      s := Exited(s, retval);
      SchedSwitch();
    }

    /**
      thread_join of a thread that nobody else has joined. The value is there at once if the thread
      has ended; otherwise it is delivered when the caller gets the processor back.
    */
    method ThreadJoin(t: Option<nat>) returns (r: int, retval: Option<int>)
      requires Valid() && (t.Some? ==> Enabled(s, Join(t.value)))
      modifies this`cur, this`delivered, this`freed, this`s, tab
      ensures Valid()
      ensures t.None? ==> r == ESRCH && s == old(s)
      ensures t.Some? ==> r == 0 && s == Step(old(s), Join(t.value))
      ensures t.Some? && t.value < tab.Length && old(tab[t.value]).Is(Zombie) ==>
                retval == Some(old(tab[t.value]).retval)
    {
      hide Core, RunningOnly, AllRings, SameRecords, Inv, Switch, Step, CanSwitch, Enabled, JoinCalled, AnyReady;
      if t.None? {
        return ESRCH, None;
      }
      var e := t.value;
      JoinCallFacts(links.Val(), ms, bs, s, e);
      tab[e] := tab[e].(join := Some(cur));
      if tab[e].st != Zombie {
        s := JoinCalled(s, e);
        ThreadWait(InJoin(e));
        retval := None;
      } else {
        retval := Some(tab[e].retval);
        delivered := delivered[tab[e].serial := tab[e].retval];
        freed := freed + [tab[e].serial];
        tab[e] := Empty;
        s := JoinCalled(s, e);
      }
      r := 0;
    }

    /** The list_foreach of thread_barrier_wait: every waiting thread is unlinked and notified. */
    method WakeQueue(b: nat)
      requires b < |s.bs| && tab[..] == s.tab && AllRings(links.Val(), s) && Apart(s)
      requires forall k :: 0 <= k < |s.bs[b].wait| ==> s.bs[b].wait[k] < tab.Length && tab[s.bs[b].wait[k]].Thread?
      modifies tab, links
      ensures tab[..] == WakeAll(old(tab[..]), s.bs[b].wait) && AllRings(links.Val(), WithQueue(s, b, []))
    {
      hide AllRings, IsRing, Apart, WithQueue, WakeAll;
      var root := RootOf(InBarrier(b));
      ghost var q, t0 := s.bs[b].wait, tab[..];
      ghost var i := 0;
      StartWaking(links.Val(), s, b);
      WakeNone(t0, q);
      var item := links.next[root];
      var next_ := links.next[item];
      while item != root
        invariant 0 <= i <= |q| && item == At(root, q, i) && (i < |q| ==> next_ == At(root, q, i + 1))
        invariant q == s.bs[b].wait && |t0| == tab.Length
        invariant forall k :: 0 <= k < |q| ==> q[k] < |t0| && t0[q[k]].Thread?
        invariant AllRings(links.Val(), WithQueue(s, b, q[i..])) && Apart(WithQueue(s, b, q[i..]))
        invariant tab[..] == WakeAll(t0, q[..i])
        decreases |q| - i
      {
        WakeFacts(links.Val(), s, b, i);
        WakeOne(t0, q, i);
        links.Unlink(item, root, q[i..], 0);
        tab[item] := tab[item].(st := Ready);
        item := next_;
        next_ := links.next[next_];
        i := i + 1;
      }
      AllWalked(links.Val(), s, b, i);
    }
  }

  // ---- What each call needs to know --------------------------------------------------------------

  lemma YieldFacts(l: Links, ms: seq<MutexRec>, bs: seq<BarrierRec>, s: Sys)
    requires Inv(s) && Enabled(s, Yield) && SameRecords(ms, bs, s) && AllRings(l, s)
    ensures Callable(s, Yield) && Inv(Step(s, Yield)) && s.cur < |s.tab| && s.tab[s.cur].Thread?
    ensures var s' := Before(s, Yield);
            && s'.tab == SetState(s.tab, s.cur, Ready) && s'.cur == s.cur && s'.log == s.log
            && SameRecords(ms, bs, s') && AllRings(l, s') && Core(s') && RunningOnly(s'.tab, None) && AnyReady(s'.tab)
            && CanSwitch(s') && Step(s, Yield) == Switch(s')
  {
    hide Core, RunningOnly;
    CurrentThread(s);
    StepShape(s, Yield);
    StepKeepsInv(s, Yield);
    hide Inv, Step, Switch, CanSwitch, AnyReady;
    RingsSame(l, s, Before(s, Yield));
  }

  lemma NewMutexFacts(l: Links, ms: seq<MutexRec>, bs: seq<BarrierRec>, s: Sys)
    requires Inv(s) && Enabled(s, MutexInit) && SameRecords(ms, bs, s) && AllRings(l, s)
    ensures Callable(s, MutexInit)
    ensures var s', root := Before(s, MutexInit), RootOf(InLock(|ms|));
            && s' == Step(s, MutexInit) && Inv(s')
            && s'.tab == s.tab && s'.cur == s.cur && s'.log == s.log
            && SameRecords(ms + [MutexRec(false, None)], bs, s')
            && AllRings(Links(l.next[root := root], l.prev[root := root]), s')
  {
    hide Core, RunningOnly;
    var s' := Before(s, MutexInit);
    CurrentThread(s);
    StepShape(s, MutexInit);
    StepKeepsInv(s, MutexInit);
    hide Inv, Step, AllRings;
    RingsNew(l, s, s', InLock(|ms|));
  }

  lemma LockFacts(l: Links, ms: seq<MutexRec>, bs: seq<BarrierRec>, s: Sys, m: nat)
    requires Inv(s) && Enabled(s, MutexLock(m)) && SameRecords(ms, bs, s) && AllRings(l, s)
    ensures Inv(Step(s, MutexLock(m))) && Callable(s, MutexLock(m))
    ensures |ms| == |s.ms| && (m < |ms| ==> ms[m] == MutexRec(s.ms[m].busy, s.ms[m].owner))
    ensures s.cur < |s.tab| && s.tab[s.cur].Thread?
    ensures m >= |ms| || Held(s, m) ==> Step(s, MutexLock(m)) == s
    ensures HeldByOther(s, m) ==>
              && Core(Locked(s, m)) && RunningOnly(Locked(s, m).tab, None) && AnyReady(Locked(s, m).tab)
              && CanSwitch(Locked(s, m)) && Step(s, MutexLock(m)) == Switch(Locked(s, m))
    ensures m < |ms| && !ms[m].busy ==>
              && Step(s, MutexLock(m)) == Locked(s, m) && AllRings(l, Locked(s, m))
              && SameRecords(ms[m := MutexRec(true, Some(s.tab[s.cur].addr))], bs, Locked(s, m))
  {
    hide Core, RunningOnly, AllRings;
    CurrentThread(s);
    StepShape(s, MutexLock(m));
    StepKeepsInv(s, MutexLock(m));
    hide Inv, Step, Switch, CanSwitch;
    if m < |ms| && !ms[m].busy {
      LockTaken(l, s, m);
    }
  }

  lemma LockWaitFacts(l: Links, ms: seq<MutexRec>, bs: seq<BarrierRec>, s: Sys, m: nat)
    requires Inv(s) && HeldByOther(s, m) && SameRecords(ms, bs, s) && AllRings(l, s)
    ensures s.cur < |s.tab| && s.tab[s.cur].Thread? && s.tab[s.cur].st == Running
    ensures var root, q, s' := RootOf(InLock(m)), s.ms[m].wait, Locked(s, m);
            && IsRing(l, root, q) && s.cur !in q && s.cur != root
            && At(root, q, |q| - 1) in l.next && AllRings(AddedAfter(l, At(root, q, |q| - 1), s.cur), s')
            && SameRecords(ms, bs, s') && s'.tab == Block(s.tab, s.cur, InLock(m)) && s'.cur == s.cur && s'.log == s.log
  {
    hide Core, RunningOnly, AllRings, IsRing, AddedAfter;
    CurrentThread(s);
    InvParts(s);
    hide Inv;
    var w := InLock(m);
    QueuesApart(s);
    UserInNoQueue(s, s.cur);
    RingOf(l, s, w);
    assert IsQueue(s, w);
    LockedQueues(s, m);
    hide Locked;
    RingsAdd(l, s, Locked(s, m), w, s.cur);
    LockedRecords(ms, bs, s, m);
  }

  lemma LockedQueues(s: Sys, m: nat)
    requires Callable(s, MutexLock(m)) && HeldByOther(s, m)
    ensures SameQueuesBut(s, Locked(s, m), InLock(m)) && Locked(s, m).ms[m].wait == s.ms[m].wait + [s.cur]
    ensures |Locked(s, m).ms| == |s.ms|
  {
  }

  lemma LockedRecords(ms: seq<MutexRec>, bs: seq<BarrierRec>, s: Sys, m: nat)
    requires Callable(s, MutexLock(m)) && HeldByOther(s, m) && SameRecords(ms, bs, s)
    ensures var s' := Locked(s, m);
            SameRecords(ms, bs, s') && s'.tab == Block(s.tab, s.cur, InLock(m)) && s'.cur == s.cur && s'.log == s.log
  {
  }

  lemma UnlockFacts(l: Links, ms: seq<MutexRec>, bs: seq<BarrierRec>, s: Sys, m: nat)
    requires Inv(s) && Enabled(s, MutexUnlock(m)) && SameRecords(ms, bs, s) && AllRings(l, s)
    ensures Callable(s, MutexUnlock(m)) && Step(s, MutexUnlock(m)) == Unlocked(s, m) && Inv(Unlocked(s, m))
    ensures |ms| == |s.ms| && (m < |ms| ==> ms[m] == MutexRec(s.ms[m].busy, s.ms[m].owner))
    ensures s.cur < |s.tab| && s.tab[s.cur].Thread?
    ensures !Held(s, m) ==> Unlocked(s, m) == s
    ensures m < |ms| ==> IsRing(l, RootOf(InLock(m)), s.ms[m].wait)
  {
    hide Core, RunningOnly, AllRings, IsRing, Inv;
    StepShape(s, MutexUnlock(m));
    UnlockKeeps(s, m);
    hide Step;
    if m < |s.ms| {
      RingOf(l, s, InLock(m));
    }
  }

  lemma HandOverFacts(l: Links, ms: seq<MutexRec>, bs: seq<BarrierRec>, s: Sys, m: nat)
    requires Inv(s) && Callable(s, MutexUnlock(m)) && SameRecords(ms, bs, s) && AllRings(l, s)
    requires Held(s, m) && s.ms[m].wait != []
    ensures var root, q, s' := RootOf(InLock(m)), s.ms[m].wait, Unlocked(s, m);
            && root in l.next && l.next[root] == q[0] && q[0] < |s.tab| && s.tab[q[0]].Thread?
            && q[0] in l.next && q[0] in l.prev && AllRings(Ring.Unlinked(l, q[0]), s')
            && SameRecords(ms[m := MutexRec(true, Some(s.tab[q[0]].addr))], bs, s')
            && s'.tab == SetState(s.tab, q[0], Ready) && s'.cur == s.cur && s'.log == s.log
  {
    hide Core, RunningOnly, AllRings, IsRing, Unlinked;
    InvParts(s);
    hide Inv;
    var w, q := InLock(m), s.ms[m].wait;
    QueuesApart(s);
    RingOf(l, s, w);
    FirstOf(l, RootOf(w), q);
    UnlockedQueues(s, m);
    RingsUnlink(l, s, Unlocked(s, m), w);
  }

  lemma UnlockedQueues(s: Sys, m: nat)
    requires Callable(s, MutexUnlock(m)) && Held(s, m) && s.ms[m].wait != []
    ensures SameQueuesBut(s, Unlocked(s, m), InLock(m)) && |Unlocked(s, m).ms| == |s.ms|
    ensures Unlocked(s, m).ms[m].wait == s.ms[m].wait[1..]
  {
  }

  lemma ReleaseFacts(l: Links, ms: seq<MutexRec>, bs: seq<BarrierRec>, s: Sys, m: nat)
    requires Callable(s, MutexUnlock(m)) && SameRecords(ms, bs, s) && AllRings(l, s)
    requires Held(s, m) && s.ms[m].wait == []
    ensures var s' := Unlocked(s, m);
            && AllRings(l, s') && SameRecords(ms[m := MutexRec(false, None)], bs, s')
            && s'.tab == s.tab && s'.cur == s.cur && s'.log == s.log
  {
    RingsSame(l, s, Unlocked(s, m));
  }

  lemma NewBarrierFacts(l: Links, ms: seq<MutexRec>, bs: seq<BarrierRec>, s: Sys, count: nat)
    requires Inv(s) && Enabled(s, BarrierInit(count)) && SameRecords(ms, bs, s) && AllRings(l, s)
    ensures Callable(s, BarrierInit(count))
    ensures var s', root := Before(s, BarrierInit(count)), RootOf(InBarrier(|bs|));
            && s' == Step(s, BarrierInit(count)) && Inv(s')
            && s'.tab == s.tab && s'.cur == s.cur && s'.log == s.log
            && SameRecords(ms, bs + [BarrierRec(count, 0)], s')
            && AllRings(Links(l.next[root := root], l.prev[root := root]), s')
  {
    hide Core, RunningOnly;
    var s' := Before(s, BarrierInit(count));
    CurrentThread(s);
    StepShape(s, BarrierInit(count));
    StepKeepsInv(s, BarrierInit(count));
    hide Inv, Step, AllRings;
    RingsNew(l, s, s', InBarrier(|bs|));
  }

  /** The machine with another queue at barrier b. */
  function WithQueue(s: Sys, b: nat, q: seq<nat>): Sys
    requires b < |s.bs|
  {
    s.(bs := s.bs[b := s.bs[b].(wait := q)])
  }

  lemma ArriveFacts(l: Links, ms: seq<MutexRec>, bs: seq<BarrierRec>, s: Sys, b: nat)
    requires Inv(s) && Enabled(s, BarrierWait(b)) && SameRecords(ms, bs, s) && AllRings(l, s)
    ensures Callable(s, BarrierWait(b)) && Inv(Step(s, BarrierWait(b))) && |bs| == |s.bs|
    ensures b >= |bs| ==> Step(s, BarrierWait(b)) == s
    ensures b < |bs| ==> bs[b] == BarrierRec(s.bs[b].expected, s.bs[b].waiting)
    ensures b < |bs| && s.bs[b].waiting + 1 == s.bs[b].expected ==>
              && Apart(s) && Step(s, BarrierWait(b)) == Arrived(s, b)
              && (forall k :: 0 <= k < |s.bs[b].wait| ==> s.bs[b].wait[k] < |s.tab| && s.tab[s.bs[b].wait[k]].Thread?)
              && Arrived(s, b).tab == WakeAll(s.tab, s.bs[b].wait) && Arrived(s, b).cur == s.cur
              && Arrived(s, b).log == s.log
              && SameRecords(ms, bs[b := BarrierRec(s.bs[b].expected, 0)], Arrived(s, b))
              && (forall l' :: AllRings(l', WithQueue(s, b, [])) ==> AllRings(l', Arrived(s, b)))
    ensures b < |bs| && s.bs[b].waiting + 1 != s.bs[b].expected ==>
              && Core(Arrived(s, b)) && RunningOnly(Arrived(s, b).tab, None) && AnyReady(Arrived(s, b).tab)
              && CanSwitch(Arrived(s, b)) && Step(s, BarrierWait(b)) == Switch(Arrived(s, b))
              && SameRecords(ms, bs[b := BarrierRec(s.bs[b].expected, s.bs[b].waiting + 1)], Arrived(s, b))
  {
    hide Core, RunningOnly, AllRings, Inv, WakeAll;
    CurrentThread(s);
    StepShape(s, BarrierWait(b));
    StepKeepsInv(s, BarrierWait(b));
    hide Step, Switch, CanSwitch;
    InvParts(s);
    QueuesApart(s);
    hide Apart;
    if b < |bs| {
      if s.bs[b].waiting + 1 == s.bs[b].expected {
        ArrivalOpens(s, b);
        CurrentThread(Arrived(s, b));
        OpenedQueues(s, b);
      }
    }
  }

  lemma OpenedQueues(s: Sys, b: nat)
    requires b < |s.bs| && s.bs[b].waiting + 1 == s.bs[b].expected && Callable(s, BarrierWait(b))
    ensures forall l :: AllRings(l, WithQueue(s, b, [])) ==> AllRings(l, Arrived(s, b))
  {
    forall l | AllRings(l, WithQueue(s, b, []))
      ensures AllRings(l, Arrived(s, b))
    {
      RingsSame(l, WithQueue(s, b, []), Arrived(s, b));
    }
  }

  lemma ArriveWaitFacts(l: Links, s: Sys, b: nat)
    requires Inv(s) && b < |s.bs| && s.bs[b].waiting + 1 != s.bs[b].expected && AllRings(l, s)
             && Callable(s, BarrierWait(b))
    ensures s.cur < |s.tab| && s.tab[s.cur].Thread? && s.tab[s.cur].st == Running
    ensures var root, q, s' := RootOf(InBarrier(b)), s.bs[b].wait, Arrived(s, b);
            && IsRing(l, root, q) && s.cur !in q && s.cur != root
            && At(root, q, |q| - 1) in l.next && AllRings(AddedAfter(l, At(root, q, |q| - 1), s.cur), s')
            && s'.tab == Block(s.tab, s.cur, InBarrier(b)) && s'.cur == s.cur && s'.log == s.log
  {
    hide Core, RunningOnly, AllRings, IsRing, AddedAfter;
    CurrentThread(s);
    InvParts(s);
    hide Inv;
    var w := InBarrier(b);
    QueuesApart(s);
    UserInNoQueue(s, s.cur);
    RingOf(l, s, w);
    assert IsQueue(s, w);
    ArrivedQueues(s, b);
    hide Arrived, WakeAll;
    RingsAdd(l, s, Arrived(s, b), w, s.cur);
  }

  lemma ArrivedQueues(s: Sys, b: nat)
    requires Callable(s, BarrierWait(b)) && b < |s.bs| && s.bs[b].waiting + 1 != s.bs[b].expected
    ensures var s' := Arrived(s, b);
            && SameQueuesBut(s, s', InBarrier(b)) && |s'.bs| == |s.bs| && s'.bs[b].wait == s.bs[b].wait + [s.cur]
            && s'.tab == Block(s.tab, s.cur, InBarrier(b)) && s'.cur == s.cur && s'.log == s.log
  {
  }

  lemma QueueReset(s: Sys, b: nat, q: seq<nat>, q': seq<nat>)
    requires b < |s.bs|
    ensures SameQueuesBut(WithQueue(s, b, q), WithQueue(s, b, q'), InBarrier(b))
    ensures IsQueue(WithQueue(s, b, q), InBarrier(b)) && QueueAt(WithQueue(s, b, q), InBarrier(b)) == q
  {
  }

  lemma StartWaking(l: Links, s: Sys, b: nat)
    requires b < |s.bs| && AllRings(l, s) && Apart(s)
    ensures var root, q := RootOf(InBarrier(b)), s.bs[b].wait;
            && root in l.next && l.next[root] == At(root, q, 0)
            && l.next[root] in l.next && (|q| > 0 ==> l.next[l.next[root]] == At(root, q, 1))
            && AllRings(l, WithQueue(s, b, q[0..])) && Apart(WithQueue(s, b, q[0..]))
  {
    var root, q := RootOf(InBarrier(b)), s.bs[b].wait;
    assert q[0..] == q && WithQueue(s, b, q) == s;
    assert IsQueue(s, InBarrier(b));
    assert IsRing(l, root, q);
    assert l.next[At(root, q, -1)] == At(root, q, 0);
    if |q| > 0 {
      assert l.next[At(root, q, 0)] == At(root, q, 1);
    }
  }

  /** One turn of the loop: the first of the remaining threads leaves the ring. */
  lemma WakeFacts(l: Links, s: Sys, b: nat, i: nat)
    requires b < |s.bs| && i < |s.bs[b].wait|
    requires AllRings(l, WithQueue(s, b, s.bs[b].wait[i..])) && Apart(WithQueue(s, b, s.bs[b].wait[i..]))
    ensures var root, q := RootOf(InBarrier(b)), s.bs[b].wait;
            && IsRing(l, root, q[i..]) && q[i] in l.next && q[i] in l.prev
            && var l', n := Ring.Unlinked(l, q[i]), At(root, q, i + 1);
               && AllRings(l', WithQueue(s, b, q[i + 1..])) && Apart(WithQueue(s, b, q[i + 1..]))
               && n in l'.next && (i + 1 < |q| ==> l'.next[n] == At(root, q, i + 2))
  {
    var root, q := RootOf(InBarrier(b)), s.bs[b].wait;
    var s1, s2, w := WithQueue(s, b, q[i..]), WithQueue(s, b, q[i + 1..]), InBarrier(b);
    QueueReset(s, b, q[i..], q[i + 1..]);
    QueueReset(s, b, q[i + 1..], q[i..]);
    assert q[i..][1..] == q[i + 1..] && q[i..][0] == q[i];
    hide WithQueue;
    assert IsRing(l, root, q[i..]);
    RingsUnlink(l, s1, s2, w);
    ApartShorter(s1, s2, w);
    var l' := Ring.Unlinked(l, q[i]);
    assert IsRing(l', root, q[i + 1..]);
    assert At(root, q, i + 1) == At(root, q[i + 1..], 0);
    if i + 1 < |q| {
      assert l'.next[At(root, q[i + 1..], 0)] == At(root, q[i + 1..], 1);
    }
  }

  lemma ApartShorter(s: Sys, s': Sys, w: Where)
    requires Apart(s) && SameQueuesBut(s, s', w) && IsQueue(s, w) && QueueAt(s, w) != []
             && QueueAt(s', w) == QueueAt(s, w)[1..]
    ensures Apart(s')
  {
    assert forall i :: i in QueueAt(s', w) ==> i in QueueAt(s, w);
    assert forall v, i :: IsQueue(s', v) && i in QueueAt(s', v) ==> IsQueue(s, v) && i in QueueAt(s, v);
  }

  lemma WakeNone(t0: Table, q: seq<nat>)
    requires forall k :: 0 <= k < |q| ==> q[k] < |t0| && t0[q[k]].Thread?
    ensures WakeAll(t0, q[..0]) == t0
  {
  }

  lemma WakeOne(t0: Table, q: seq<nat>, i: nat)
    requires i < |q| && forall k :: 0 <= k < |q| ==> q[k] < |t0| && t0[q[k]].Thread?
    ensures WakeAll(t0, q[..i])[q[i]].Thread?
    ensures WakeAll(t0, q[..i + 1]) == WakeAll(t0, q[..i])[q[i] := WakeAll(t0, q[..i])[q[i]].(st := Ready)]
  {
    assert q[..i + 1] == q[..i] + [q[i]];
  }

  lemma AllWalked(l: Links, s: Sys, b: nat, i: nat)
    requires b < |s.bs| && i <= |s.bs[b].wait| && At(RootOf(InBarrier(b)), s.bs[b].wait, i) == RootOf(InBarrier(b))
    ensures i == |s.bs[b].wait| && s.bs[b].wait[i..] == [] && s.bs[b].wait[..i] == s.bs[b].wait
  {
  }

  lemma CreateFacts(l: Links, ms: seq<MutexRec>, bs: seq<BarrierRec>, s: Sys, addr: nat)
    requires Inv(s) && Enabled(s, Create(addr)) && SameRecords(ms, bs, s) && AllRings(l, s)
    ensures Step(s, Create(addr)) == Created(s, addr) && Inv(Created(s, addr)) && FirstEmpty(s.tab) < |s.tab|
    ensures var s' := Created(s, addr);
            && s'.tab == s.tab[FirstEmpty(s.tab) := Thread(addr, s.log.next, Ready, User, 0, None)]
            && s'.cur == s.cur && s'.log == s.log.(next := s.log.next + 1)
            && SameRecords(ms, bs, s') && AllRings(l, s')
  {
    hide Core, RunningOnly;
    CurrentThread(s);
    StepShape(s, Create(addr));
    StepKeepsInv(s, Create(addr));
    hide Inv, Step;
    RingsSame(l, s, Created(s, addr));
  }

  lemma ExitFacts(l: Links, ms: seq<MutexRec>, bs: seq<BarrierRec>, s: Sys, v: int)
    requires Inv(s) && Enabled(s, Exit(v)) && SameRecords(ms, bs, s) && AllRings(l, s)
    ensures Callable(s, Exit(v)) && Inv(Step(s, Exit(v))) && s.cur < |s.tab| && s.tab[s.cur].Thread?
    ensures var s', x := Exited(s, v), s.tab[s.cur];
            var tab' := s.tab[s.cur := x.(retval := v, st := Zombie)];
            && (x.join.Some? ==> x.join.value < |s.tab| && tab'[x.join.value].Thread?)
            && s'.tab == (if x.join.Some? then SetState(tab', x.join.value, Ready) else tab')
            && s'.cur == s.cur && s'.log == s.log.(exits := s'.log.exits)
            && SameRecords(ms, bs, s') && AllRings(l, s') && Core(s') && RunningOnly(s'.tab, None) && AnyReady(s'.tab)
            && CanSwitch(s') && Step(s, Exit(v)) == Switch(s')
  {
    hide Core, RunningOnly;
    CurrentThread(s);
    StepShape(s, Exit(v));
    StepKeepsInv(s, Exit(v));
    ExitKeeps(s, v);
    NotRunning(Exited(s, v).tab, s.cur);
    hide Inv, Step, Switch, CanSwitch, AnyReady;
    RingsSame(l, s, Exited(s, v));
  }

  lemma JoinCallFacts(l: Links, ms: seq<MutexRec>, bs: seq<BarrierRec>, s: Sys, t: nat)
    requires Inv(s) && Enabled(s, Join(t)) && SameRecords(ms, bs, s) && AllRings(l, s)
    ensures Callable(s, Join(t)) && Inv(Step(s, Join(t)))
    ensures s.cur < |s.tab| && s.tab[s.cur].Thread? && s.tab[s.cur].st == Running && t < |s.tab| && s.tab[t].Thread?
    ensures var s' := JoinCalled(s, t);
            && s'.cur == s.cur && SameRecords(ms, bs, s') && AllRings(l, s') && s'.log.next == s.log.next
            && (if s.tab[t].st != Zombie then
                  && s'.tab == Block(s.tab[t := s.tab[t].(join := Some(s.cur))], s.cur, InJoin(t)) && s'.log == s.log
                  && Core(s') && RunningOnly(s'.tab, None) && AnyReady(s'.tab)
                  && CanSwitch(s') && Step(s, Join(t)) == Switch(s')
                else
                  && s'.tab == s.tab[t := Empty] && s'.log == Reaped(s.log, s.tab[t]) && Step(s, Join(t)) == s')
  {
    hide Core, RunningOnly;
    CurrentThread(s);
    StepShape(s, Join(t));
    StepKeepsInv(s, Join(t));
    hide Inv, Step, Switch, CanSwitch, AnyReady;
    RingsSame(l, s, JoinCalled(s, t));
  }

  lemma NextSlot(n: nat, cur: nat, d: nat)
    requires cur < n && d < n
    ensures ((cur + 1 + d) % n + 1) % n == (cur + 1 + (d + 1)) % n < n
    ensures (cur + 1 + (d + 1)) % n == (cur + 1) % n <==> d + 1 == n
  {
    SlotAtDistance(n, cur, d);
    if d + 1 < n {
      SlotAtDistance(n, cur, d + 1);
      SlotAtDistance(n, cur, 0);
    }
    Wraps(n, cur, d);
  }

  lemma Wraps(n: nat, cur: nat, d: nat)
    requires cur < n && d < n
    ensures ((cur + 1 + d) % n + 1) % n == (cur + 1 + (d + 1)) % n
    ensures d + 1 == n ==> (cur + 1 + (d + 1)) % n == (cur + 1) % n
  {
    Small(n, cur + 1 + d);
    Small(n, cur + 1 + (d + 1));
    Small(n, (cur + 1 + d) % n + 1);
    Small(n, cur + 1);
  }

  lemma SearchStarts(tab: Table, cur: nat)
    requires cur < |tab|
    ensures (cur + 1) % |tab| < |tab| && Elect(tab, cur) == ElectFrom(tab, cur, 0)
  {
  }

  /** One turn of the search: the slot is elected, or the next one is still before the first. */
  lemma SearchStep(tab: Table, cur: nat, d: nat, th: nat)
    requires cur < |tab| && d < |tab| && th == (cur + 1 + d) % |tab| < |tab| && AnyReady(tab)
    requires Elect(tab, cur) == ElectFrom(tab, cur, d)
    ensures tab[th].Is(Ready) ==> th == Elect(tab, cur)
    ensures !tab[th].Is(Ready) ==>
              && d + 1 < |tab| && (th + 1) % |tab| == (cur + 1 + (d + 1)) % |tab| < |tab|
              && (th + 1) % |tab| != (cur + 1) % |tab| && Elect(tab, cur) == ElectFrom(tab, cur, d + 1)
  {
    if !tab[th].Is(Ready) {
      StillToFind(tab, cur, d);
      NextSlot(|tab|, cur, d);
    }
  }

  /** As long as a READY thread exists, the search finds it before it comes round. */
  lemma StillToFind(tab: Table, cur: nat, d: nat)
    requires cur < |tab| && d < |tab| && AnyReady(tab) && Elect(tab, cur) == ElectFrom(tab, cur, d)
    requires !tab[(cur + 1 + d) % |tab|].Is(Ready)
    ensures d + 1 < |tab| && Elect(tab, cur) == ElectFrom(tab, cur, d + 1)
  {
    ElectIsFirst(tab, cur);
    if d + 1 == |tab| {
      Small(|tab|, cur + 1 + d);
    }
  }

  lemma SwitchedRecords(ms: seq<MutexRec>, bs: seq<BarrierRec>, s: Sys)
    requires SameRecords(ms, bs, s) && CanSwitch(s)
    ensures SameRecords(ms, bs, Switch(s))
  {
  }

  lemma SwitchResult(s: Sys)
    requires CanSwitch(s)
    ensures var th := Elect(s.tab, s.cur);
            var x, s' := s.tab[th], Switch(s);
            && s'.cur == th && s'.log.next == s.log.next
            && (if x.at.InJoin? then
                  var y := s.tab[x.at.t];
                  && s'.tab == Dispatch(s.tab, th)[x.at.t := Empty]
                  && s'.log.joined == s.log.joined[y.serial := y.retval] && s'.log.freed == s.log.freed + [y.serial]
                else s'.tab == Dispatch(s.tab, th) && s'.log == s.log)
  {
  }

  lemma RingOf(l: Links, s: Sys, w: Where)
    requires AllRings(l, s) && IsQueue(s, w)
    ensures IsRing(l, RootOf(w), QueueAt(s, w))
    ensures At(RootOf(w), QueueAt(s, w), |QueueAt(s, w)| - 1) in l.next
    ensures forall i: nat :: i in QueueAt(s, w) ==> i != RootOf(w)
    ensures RootOf(w) < 0
  {
    RootsApart(w, w);
    assert IsRing(l, RootOf(w), QueueAt(s, w));
  }

  lemma FirstOf(l: Links, root: Addr, q: seq<nat>)
    requires IsRing(l, root, q) && q != []
    ensures root in l.next && l.next[root] == q[0]
  {
    assert l.next[At(root, q, -1)] == At(root, q, 0);
  }

  lemma LockTaken(l: Links, s: Sys, m: nat)
    requires AllRings(l, s) && Callable(s, MutexLock(m)) && m < |s.ms| && !s.ms[m].busy
    ensures AllRings(l, Locked(s, m))
  {
    RingsSame(l, s, Locked(s, m));
  }

  /** An election and a return from a call change no queue. */
  lemma SwitchedRings(l: Links, s: Sys)
    requires AllRings(l, s) && CanSwitch(s)
    ensures AllRings(l, Switch(s))
  {
    RingsSame(l, s, Switch(s));
  }
}
