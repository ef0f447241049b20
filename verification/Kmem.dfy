/**
  The kernel allocator itself (kernel/kmemkernel.c): kmalloc and kfree over page
  descriptors, object counters and free lists threaded through the free memory.
*/
module Kmem {
  import opened Arith
  import opened Ring
  import opened SlabGeometry
  import opened SlabBooks

  /**
    What a call of kmalloc does: stops the kernel, returns the address of a new object, or
    goes on with the NULL that an empty Slab[0] yields.
  */
  datatype Outcome = Panic | NullObject | Object(addr: Addr)

  datatype FreeOutcome = FreePanic | Done

  /** The class that a request of size bytes is served from. */
  function ClassFor(c: Config, size: nat): nat
    requires ConfigOk(c)
  {
    ClassesFit(c);
    Lines(c, size) % Classes(c)
  }

  /** The calls that stop the kernel: too big, or a page is needed, tested for, and missing. */
  ghost predicate KmallocPanics(c: Config, free: seq<seq<Addr>>, size: nat)
    requires ConfigOk(c) && |free| == Classes(c)
  {
    || size > PAGE_SIZE
    || (free[0] == [] && (size == PAGE_SIZE || (size <= PAGE_SIZE - c.line && free[ClassFor(c, size)] == [])))
  }

  /** The calls that run on with a NULL object. */
  ghost predicate KmallocYieldsNull(c: Config, free: seq<seq<Addr>>, size: nat)
    requires ConfigOk(c) && |free| == Classes(c)
  {
    PAGE_SIZE - c.line < size < PAGE_SIZE && free[0] == []
  }

  lemma ClassForFacts(c: Config, size: nat)
    requires ConfigOk(c) && size <= PAGE_SIZE
    ensures ClassFor(c, size) < Classes(c)
    ensures ClassFor(c, size) == if size > PAGE_SIZE - c.line then 0 else Lines(c, size)
    ensures size <= Size(c, ClassFor(c, size)) && (size > 0 ==> Size(c, ClassFor(c, size)) < size + c.line)
    ensures size <= PAGE_SIZE - c.line <==> Lines(c, size) * c.line != PAGE_SIZE
  {
    ClassesFit(c);
    LinesOf(c, size);
    if Lines(c, size) < Classes(c) {
      DivModUnique(Lines(c, size), Classes(c), 0, Lines(c, size));
    } else {
      DivModUnique(Lines(c, size), Classes(c), 1, 0);
    }
  }

  /** The class of the page x lies in. */
  ghost function ClassAt(c: Config, page: seq<PageDesc>, x: Addr): nat {
    if 0 <= PageOf(c, x) < |page| then page[PageOf(c, x)].lines else 0
  }

  /** The books after a kmalloc of class n that returns an object. */
  ghost function Allocated(c: Config, b: Books, n: nat): Books
    requires Inv(c, b) && n < |b.free| && (b.free[n] != [] || b.free[0] != [])
  {
    if b.free[n] != [] then
      TakenPlacement(c, b, n);
      Taken(c, b, n)
    else
      TakenKeepsInv(c, b, 0);
      SlotCountBound(c, n);
      Carved(c, Taken(c, b, 0), n, PageOf(c, b.free[0][0]))
  }

  /** The object that kmalloc returns. */
  ghost function NewObject(b: Books, n: nat): Addr
    requires n < |b.free| && (b.free[n] != [] || (0 < |b.free| && b.free[0] != []))
  {
    if b.free[n] != [] then b.free[n][0] else b.free[0][0]
  }

  /** The object has been taken from class n, with the books that follow. */
  ghost predicate GivenFrom(c: Config, b: Books, b': Books, n: nat, a: Addr)
    requires Inv(c, b)
  {
    && n < |b.free| && (b.free[n] != [] || (0 < |b.free| && b.free[0] != []))
    && a == NewObject(b, n) && b' == Allocated(c, b, n)
  }

  lemma TakenWhole(c: Config, b: Books)
    requires Shape(c, b) && FreeListsOk(c, b) && Covered(c, b) && 0 < |b.free| && b.free[0] != []
    ensures 0 <= PageOf(c, b.free[0][0]) < |b.page| && b.free[0][0] == PageAddr(c, PageOf(c, b.free[0][0]))
    ensures Taken(c, b, 0).page[PageOf(c, b.free[0][0])] == PageDesc(Slab, 0, 1)
  {
    var a := b.free[0][0];
    assert FreeObject(c, b, 0, a);
    PageIndexInHeap(c, a);
    assert b.page[PageOf(c, a)] == FREE_PAGE;
  }

  /** A page taken whole out of Slab[0] can be cut for any class whose list is empty. */
  lemma WholePageIsCarvable(c: Config, b: Books, n: nat)
    requires Inv(c, b) && 0 < n < |b.free| && b.free[n] == [] && b.free[0] != []
    ensures 0 <= PageOf(c, b.free[0][0]) < |b.page| && b.free[0][0] == PageAddr(c, PageOf(c, b.free[0][0]))
    ensures Carvable(c, Taken(c, b, 0), n, PageOf(c, b.free[0][0]))
    ensures LiveIn(c, b.live + {b.free[0][0]}, PageOf(c, b.free[0][0])) == {b.free[0][0]}
  {
    TakenWhole(c, b);
    SlotCountBound(c, n);
    TakenKeepsInv(c, b, 0);
    WholePage(c, Taken(c, b, 0), PageOf(c, b.free[0][0]));
  }

  /**
    What kmalloc promises of its result a: a line-aligned object of class n that was not
    live, next to objects that stay live in the class they had.
  */
  ghost predicate NewObjectOk(c: Config, b: Books, b': Books, n: nat, a: Addr) {
    && Inv(c, b') && n < Classes(c)
    && a !in b.live && b'.live == b.live + {a}
    && Placed(c, b', a) && ObjectSize(c, b', a) == Size(c, n) && a % c.line == 0
    && (forall x :: x in b.live ==> ClassAt(c, b'.page, x) == ClassAt(c, b.page, x))
  }

  lemma TakenIsNewObject(c: Config, b: Books, n: nat)
    requires Inv(c, b) && n < |b.free| && b.free[n] != []
    ensures 0 <= PageOf(c, b.free[n][0]) < |b.page|
    ensures NewObjectOk(c, b, Taken(c, b, n), n, b.free[n][0])
  {
    var a := b.free[n][0];
    TakenKeepsInv(c, b, n);
    TakenPlacement(c, b, n);
    SlotIsLineAligned(c, a, n);
  }

  /** Cutting the page just taken whole, as object a of page p, keeps the promise for class n. */
  lemma CarvedIsNewObject(c: Config, b: Books, w: Books, n: nat, p: int, a: Addr)
    requires NewObjectOk(c, b, w, 0, a) && Carvable(c, w, n, p) && a == PageAddr(c, p)
    ensures NewObjectOk(c, b, Carved(c, w, n, p), n, a)
  {
    CarvedKeepsInv(c, w, n, p);
    CarvedSlot(c, w, n, p, 0);
    SlotIsLineAligned(c, a, n);
    WholePage(c, w, p);
    hide Inv;
    forall x | x in b.live
      ensures PageOf(c, x) != p
    {
      assert PageOf(c, x) == p ==> x in LiveIn(c, w.live, p);
    }
  }

  lemma AllocatedIsNewObject(c: Config, b: Books, n: nat)
    requires Inv(c, b) && n < |b.free| && (b.free[n] != [] || b.free[0] != [])
    ensures NewObjectOk(c, b, Allocated(c, b, n), n, NewObject(b, n))
  {
    if b.free[n] != [] {
      TakenIsNewObject(c, b, n);
    } else {
      TakenIsNewObject(c, b, 0);
      WholePageIsCarvable(c, b, n);
      CarvedIsNewObject(c, b, Taken(c, b, 0), n, PageOf(c, b.free[0][0]), b.free[0][0]);
    }
  }

  /**
    The objects that are live stay where they are, keep their size, and never overlap the
    object that kmalloc returns.
  */
  lemma NewObjectOverlapsNoLiveOne(c: Config, b: Books, n: nat, x: Addr)
    requires Inv(c, b) && n < |b.free| && (b.free[n] != [] || b.free[0] != []) && x in b.live
    ensures Placed(c, b, x)
    ensures var a := NewObject(b, n);
            a + Size(c, n) <= x || x + ObjectSize(c, b, x) <= a
  {
    AllocatedIsNewObject(c, b, n);
    var b' := Allocated(c, b, n);
    assert Placed(c, b, x) && x in b'.live;
    ObjectsDisjoint(c, b', NewObject(b, n), x);
  }

  /** kmalloc runs on with NULL exactly for the sizes that only rounding turns into a page. */
  lemma NullOnlyForRoundedPages(c: Config, free: seq<seq<Addr>>, size: nat)
    requires ConfigOk(c) && |free| == Classes(c)
    ensures KmallocYieldsNull(c, free, size) <==>
            !KmallocPanics(c, free, size) && free[ClassFor(c, size)] == [] && free[0] == []
  {
    if size <= PAGE_SIZE {
      ClassForFacts(c, size);
    }
  }

  /** The books after kfree of the live object a. */
  ghost function Freed(c: Config, b: Books, a: Addr): Books
    requires Shape(c, b) && 0 < |b.free| && Placed(c, b, a)
  {
    if LiveIn(c, b.live, PageOf(c, a)) == {a} then Returned(c, b, a) else Given(c, b, a)
  }

  lemma FreedKeepsInv(c: Config, b: Books, a: Addr)
    requires Inv(c, b) && a in b.live && Placed(c, b, a)
    ensures Inv(c, Freed(c, b, a))
  {
    CounterReachesZero(c, b, a);
    if LiveIn(c, b.live, PageOf(c, a)) == {a} {
      ReturnedKeepsInv(c, b, a);
    } else {
      LiveInBound(c, b, PageOf(c, a));
      OneLess(LiveIn(c, b.live, PageOf(c, a)), a);
      GivenKeepsInv(c, b, a);
    }
  }

  /** A page is in Slab[0] exactly when nothing in it is live. */
  lemma PageFreeWhenEmpty(c: Config, b: Books, p: nat)
    requires Inv(c, b) && p < c.nbPages
    ensures PageAddr(c, p) in b.free[0] <==> LiveIn(c, b.live, p) == {}
  {
    OffsetInPage(c, p, 0);
    if b.page[p].kind == Free {
      forall x | x in b.live
        ensures PageOf(c, x) != p
      {
        assert Placed(c, b, x);
      }
    } else {
      forall x | x in b.free[0]
        ensures PageOf(c, x) != p
      {
        assert FreeObject(c, b, 0, x);
      }
    }
  }

  /** kfree frees that object only, and frees its page exactly when it was the page's last. */
  lemma FreedReturnsEmptyPages(c: Config, b: Books, a: Addr, p: nat)
    requires Inv(c, b) && a in b.live && Placed(c, b, a) && p < c.nbPages
    ensures Freed(c, b, a).live == b.live - {a}
    ensures PageAddr(c, p) in Freed(c, b, a).free[0] <==> LiveIn(c, b.live - {a}, p) == {}
  {
    FreedKeepsInv(c, b, a);
    PageFreeWhenEmpty(c, Freed(c, b, a), p);
  }

  lemma LiveIsUnlisted(c: Config, b: Books, a: Addr)
    requires Inv(c, b) && a in b.live
    ensures Unlisted(c, b.free, a)
  {
    assert Placed(c, b, a);
    forall n, x | 0 <= n < |b.free| && x in b.free[n]
      ensures x !in b.live
    {
      assert FreeObject(c, b, n, x);
    }
  }

  /** The first byte of a page in use is in no other free list than that of the page's class. */
  lemma HomeUnlistedElsewhere(c: Config, b: Books, p: nat)
    requires Inv(c, b) && p < c.nbPages && b.page[p].kind == Slab
    ensures PageAddr(c, p) >= c.kmb
    ensures forall m :: 0 <= m < |b.free| && m != b.page[p].lines ==> PageAddr(c, p) !in b.free[m]
  {
    OffsetInPage(c, p, 0);
    forall m, x | 0 <= m < |b.free| && x in b.free[m] && m != b.page[p].lines
      ensures PageOf(c, x) != p
    {
      assert FreeObject(c, b, m, x);
    }
  }

  /** An object of the page does not stay. */
  lemma KeepAdded(c: Config, obj: Addr, s: seq<Addr>, p: int)
    requires PageOf(c, obj) == p
    ensures Keep(c, [obj] + s, p) == Keep(c, s, p)
  {
    assert ([obj] + s)[1..] == s;
  }

  lemma KeepStep(c: Config, s: seq<Addr>, i: nat, p: int)
    requires i < |s|
    ensures var done, next := Keep(c, s[..i], p), Keep(c, s[..i + 1], p);
            if PageOf(c, s[i]) == p then RemoveAt(done + s[i..], |done|) == next + s[i + 1..]
            else done + s[i..] == next + s[i + 1..] && |next| == |done| + 1
  {
    assert s[..i + 1] == s[..i] + [s[i]];
    KeepSnoc(c, s[..i], s[i], p);
  }

  /** All that kfree relies on when it is given a live object. */
  lemma KfreeFacts(c: Config, b: Books, a: Addr)
    requires Inv(c, b) && a in b.live
    ensures Placed(c, b, a) && Apart(c, b.free) && Unlisted(c, b.free, a)
    ensures Inv(c, Freed(c, b, a))
    ensures var p := PageOf(c, a);
            var n := b.page[p].lines;
            && n < |b.free|
            && (n == 0 ==> a == PageAddr(c, p))
            && (forall m :: 0 <= m < |b.free| && m != n ==> PageAddr(c, p) !in b.free[m])
            && (forall x :: x in b.free[n] ==> InHeap(c, x))
            && ((b.page[p].nbused + 255) % 256 == 0 <==> LiveIn(c, b.live, p) == {a})
            && (n == 0 ==> LiveIn(c, b.live, p) == {a})
  {
    assert Placed(c, b, a);
    FreeListsApart(c, b);
    LiveIsUnlisted(c, b, a);
    HomeUnlistedElsewhere(c, b, PageOf(c, a));
    CounterReachesZero(c, b, a);
    FreedKeepsInv(c, b, a);
    var n := b.page[PageOf(c, a)].lines;
    forall x | x in b.free[n]
      ensures InHeap(c, x)
    {
      assert FreeObject(c, b, n, x);
    }
  }

  lemma HeadIsInHeap(c: Config, b: Books, n: nat)
    requires Inv(c, b) && n < |b.free| && b.free[n] != []
    ensures InHeap(c, b.free[n][0]) && PageIndex(c, b.free[n][0]) == PageOf(c, b.free[n][0]) < |b.page|
    ensures 0 <= PageOf(c, b.free[n][0])
  {
    assert FreeObject(c, b, n, b.free[n][0]);
    PageIndexInHeap(c, b.free[n][0]);
  }

  lemma InvShape(c: Config, b: Books)
    requires Inv(c, b)
    ensures Shape(c, b) && 0 < Classes(c) && Apart(c, b.free)
  {
    FreeListsApart(c, b);
  }

  /** A page that is handed out whole holds no object of any free list. */
  lemma WholePageHasNoFreeObject(c: Config, b: Books, n: nat, p: int)
    requires Carvable(c, b, n, p)
    ensures forall m, x :: 0 <= m < |b.free| && x in b.free[m] ==> PageOf(c, x) != p
  {
    forall m, x | 0 <= m < |b.free| && x in b.free[m]
      ensures PageOf(c, x) != p
    {
      assert FreeObject(c, b, m, x);
    }
  }

  /** When the list is empty, kmalloc takes a whole page and carves it. */
  lemma AllocatedByCarving(c: Config, b: Books, n: nat)
    requires Inv(c, b) && 0 < n < |b.free| && b.free[n] == [] && b.free[0] != []
    ensures var start := b.free[0][0];
            && start !in b.live && Allocated(c, b, 0).live == b.live + {start}
            && start == PageAddr(c, PageOf(c, start))
            && Carvable(c, Allocated(c, b, 0), n, PageOf(c, start))
            && GivenFrom(c, b, Carved(c, Allocated(c, b, 0), n, PageOf(c, start)), n, start)
  {
    assert FreeObject(c, b, 0, b.free[0][0]);
    WholePageIsCarvable(c, b, n);
    hide Carvable, Carved, Inv;
  }

  /** The other live objects are outside the page and no list nodes. */
  lemma OthersAside(c: Config, b: Books, n: nat, p: int, start: Addr)
    requires Carvable(c, b, n, p) && start == PageAddr(c, p)
    ensures Aside(c, b.free, b.live - {start}) && forall x :: x in b.live - {start} ==> PageOf(c, x) != p
  {
    LiveAside(c, b);
    WholePage(c, b, p);
    forall x | x in b.live - {start}
      ensures PageOf(c, x) != p
    {
      assert PageOf(c, x) == p ==> x in LiveIn(c, b.live, p);
    }
  }

  lemma LivePlaced(c: Config, b: Books, a: Addr)
    requires Inv(c, b) && a in b.live
    ensures Placed(c, b, a) && InHeap(c, a) && 0 <= PageOf(c, a) < |b.page| && b.page[PageOf(c, a)].kind == Slab
  {
    assert Placed(c, b, a);
  }

  /** What kfree leaves alone: the other live objects, and the page's first byte goes with its last object. */
  lemma OthersStay(c: Config, b: Books, a: Addr)
    requires Inv(c, b) && a in b.live
    ensures Aside(c, b.free, b.live - {a}) && Placed(c, b, a)
    ensures (b.page[PageOf(c, a)].nbused + 255) % 256 == 0 ==> PageAddr(c, PageOf(c, a)) !in b.live - {a}
  {
    LiveAside(c, b);
    assert Placed(c, b, a);
    CounterReachesZero(c, b, a);
    var home := PageAddr(c, PageOf(c, a));
    if home in b.live - {a} {
      OffsetInPage(c, PageOf(c, a), 0);
      assert home in LiveIn(c, b.live, PageOf(c, a));
    }
  }

  /** While page p is being cut, its next slot is in no list yet. */
  lemma NextSlotUnlisted(c: Config, free: seq<seq<Addr>>, n: nat, p: int, k: nat)
    requires ConfigOk(c) && n < |free| == Classes(c) && 0 <= p < c.nbPages
    requires Size(c, n) > 0 && k < SlotCount(c, n)
    requires forall m, x :: 0 <= m < |free| && x in free[m] ==> PageOf(c, x) != p
    ensures Unlisted(c, free[n := Slots(c, p, n)[..k]], SlotAddr(c, p, n, k))
    ensures Slots(c, p, n)[k] == SlotAddr(c, p, n, k) && PageOf(c, SlotAddr(c, p, n, k)) == p
  {
    SlotInPage(c, p, n, k);
    SlotsDistinct(c, p, n);
  }

  /** In a foreach over s that has kept done so far, the links lead on from item i to item i + 1. */
  lemma ForeachItem(l: Links, root: Addr, done: seq<Addr>, s: seq<Addr>, i: nat)
    requires i <= |s| && IsRing(l, root, done + s[i..])
    ensures root in l.next && At(root, s, i) in l.next
    ensures i < |s| ==> l.next[At(root, s, i)] == At(root, s, i + 1)
    ensures done == [] ==> l.next[root] == At(root, s, i)
  {
    var t := done + s[i..];
    assert At(root, t, |done|) == At(root, s, i);
    if i < |s| {
      assert At(root, t, |done| + 1) == At(root, s, i + 1);
      assert l.next[At(root, t, |done|)] == At(root, t, |done| + 1);
    }
    assert l.next[At(root, t, -1)] == At(root, t, 0);
  }

  /** The first byte of the page of an object, as kfree masks it out of the address. */
  lemma HomeByMask(c: Config, obj: Addr, p: nat)
    requires ConfigOk(c) && InHeap(c, obj) && p == PageOf(c, obj)
    ensures obj - obj % PAGE_SIZE == PageAddr(c, p) && PageIndex(c, obj) == p
    ensures PageOf(c, PageAddr(c, p)) == p && PageAddr(c, p) >= c.kmb
  {
    PageIndexInHeap(c, obj);
    OffsetInPage(c, p, 0);
    assert obj == (c.kmb / PAGE_SIZE + p) * PAGE_SIZE + Offset(c, obj);
    DivModUnique(obj, PAGE_SIZE, c.kmb / PAGE_SIZE + p, Offset(c, obj));
  }

  /** The books of kfree, case by case as the code tells them apart. */
  lemma FreedBooks(c: Config, b: Books, a: Addr)
    requires Inv(c, b) && a in b.live && Placed(c, b, a)
    ensures var p := PageOf(c, a);
            var n, b', used := b.page[p].lines, Freed(c, b, a), (b.page[p].nbused + 255) % 256;
            && n < |b.free| && b'.live == b.live - {a}
            && (n == 0 ==>
                && b'.free == b.free[0 := [PageAddr(c, p)] + b.free[0]]
                && b'.page == b.page[p := FREE_PAGE] && b'.count == b.count[0 := b.count[0] - 1])
            && (n > 0 && used != 0 ==>
                && b'.free == b.free[n := [a] + b.free[n]]
                && b'.page == b.page[p := b.page[p].(nbused := used)] && b'.count == b.count[n := b.count[n] - 1])
            && (n > 0 && used == 0 ==>
                && b'.free == b.free[n := Keep(c, b.free[n], p)][0 := [PageAddr(c, p)] + b.free[0]]
                && b'.page == b.page[p := FREE_PAGE] && b'.count == b.count[n := b.count[n] - 1][0 := b.count[0] - 1])
  {
    CounterReachesZero(c, b, a);
    InvShape(c, b);
    hide Inv, Keep, LiveIn, Placed, PageOf, PageAddr, Returned, Given, Apart;
    if LiveIn(c, b.live, PageOf(c, a)) == {a} {
      ReturnedBooks(c, b, a);
    } else {
      GivenBooks(c, b, a);
    }
  }

  lemma ReturnedBooks(c: Config, b: Books, a: Addr)
    requires Shape(c, b) && Placed(c, b, a) && 0 < |b.free|
    ensures var p := PageOf(c, a);
            var n, b' := b.page[p].lines, Returned(c, b, a);
            && 0 <= p < |b.page| && n < |b.free| && b'.live == b.live - {a} && b'.page == b.page[p := FREE_PAGE]
            && (n == 0 ==>
                b'.free == b.free[0 := [PageAddr(c, p)] + b.free[0]] && b'.count == b.count[0 := b.count[0] - 1])
            && (n > 0 ==>
                && b'.free == b.free[n := Keep(c, b.free[n], p)][0 := [PageAddr(c, p)] + b.free[0]]
                && b'.count == b.count[n := b.count[n] - 1][0 := b.count[0] - 1])
  {
    hide Keep;
  }

  lemma GivenBooks(c: Config, b: Books, a: Addr)
    requires Shape(c, b) && Placed(c, b, a)
    ensures var p := PageOf(c, a);
            var n, b', used := b.page[p].lines, Given(c, b, a), (b.page[p].nbused + 255) % 256;
            && 0 <= p < |b.page| && n < |b.free| && b'.live == b.live - {a}
            && b'.free == b.free[n := [a] + b.free[n]]
            && b'.page == b.page[p := b.page[p].(nbused := used)] && b'.count == b.count[n := b.count[n] - 1]
  {
  }

  /** What kfree does with any object of a cut page, live or not: it only looks at the counter. */
  ghost function RawFreed(c: Config, b: Books, a: Addr): Books
    requires Shape(c, b) && 0 < |b.free| && Placed(c, b, a)
  {
    if (b.page[PageOf(c, a)].nbused + 255) % 256 == 0 then Returned(c, b, a) else Given(c, b, a)
  }

  /** kfree of an object of a cut page keeps the heap sound exactly if the object is live. */
  lemma FreeKeepsInvExactly(c: Config, b: Books, a: Addr)
    requires Inv(c, b) && Placed(c, b, a) && b.page[PageOf(c, a)].lines > 0
    ensures Inv(c, RawFreed(c, b, a)) <==> a in b.live
  {
    hide Inv, Returned, Given;
    if a in b.live {
      CounterReachesZero(c, b, a);
      FreedKeepsInv(c, b, a);
    } else if (b.page[PageOf(c, a)].nbused + 255) % 256 == 0 {
      SecondFreeReturns(c, b, a);
    } else {
      SecondFreeLists(c, b, a);
    }
  }

  lemma SecondFreeReturns(c: Config, b: Books, a: Addr)
    requires Inv(c, b) && Placed(c, b, a) && b.page[PageOf(c, a)].lines > 0 && a !in b.live
    ensures !Inv(c, Returned(c, b, a))
  {
    var p := PageOf(c, a);
    assert LiveIn(c, b.live, p) != {};
    hide Inv, Placed;
    var x :| x in LiveIn(c, b.live, p);
    LiveInFreePage(c, Returned(c, b, a), x, p);
  }

  lemma SecondFreeLists(c: Config, b: Books, a: Addr)
    requires Inv(c, b) && Placed(c, b, a) && b.page[PageOf(c, a)].lines > 0 && a !in b.live
    ensures !Inv(c, Given(c, b, a))
  {
    var n := b.page[PageOf(c, a)].lines;
    assert a in b.free[n];
    hide Inv, Placed;
    var i :| 0 <= i < |b.free[n]| && b.free[n][i] == a;
    ListedTwice(c, Given(c, b, a), n, a, i);
  }

  lemma LiveInFreePage(c: Config, b: Books, x: Addr, p: nat)
    requires p < |b.page| && b.page[p] == FREE_PAGE && x in b.live && PageOf(c, x) == p
    ensures !Inv(c, b)
  {
  }

  lemma ListedTwice(c: Config, b: Books, n: nat, a: Addr, i: nat)
    requires 0 < n < |b.free| && i + 1 < |b.free[n]| && b.free[n][0] == a && b.free[n][i + 1] == a
    ensures !Inv(c, b)
  {
  }

  // ---- Whole runs of the allocator ---------------------------------------------------------------

  /** A client step: ask for size bytes, or give the object at a back. */
  datatype Request = Ask(size: nat) | Release(a: Addr)

  /**
    The requests that do not damage the heap: kmalloc must not go on with a NULL object, and what is given
    back is live, or kfree notices: it is outside the heap or in a free page.
  */
  ghost predicate Sane(c: Config, b: Books, r: Request)
    requires Inv(c, b)
  {
    match r
    case Ask(size) => !KmallocYieldsNull(c, b.free, size)
    case Release(a) => a in b.live || !InHeap(c, a) || b.page[PageIndex(c, a)].kind == Free
  }

  /** A request that neither stops the kernel nor yields NULL is served. */
  lemma ServedClass(c: Config, b: Books, size: nat)
    requires Inv(c, b) && !KmallocPanics(c, b.free, size) && !KmallocYieldsNull(c, b.free, size)
    ensures var n := ClassFor(c, size);
            n < |b.free| && (b.free[n] != [] || b.free[0] != []) && size <= Size(c, n)
  {
    ClassForFacts(c, size);
    NullOnlyForRoundedPages(c, b.free, size);
  }

  /** The books after one request; a request that stops the kernel changes nothing. */
  ghost function Served(c: Config, b: Books, r: Request): (b': Books)
    requires Inv(c, b) && Sane(c, b, r)
    ensures Inv(c, b')
  {
    match r
    case Ask(size) =>
      if KmallocPanics(c, b.free, size) then b
      else
        ServedClass(c, b, size);
        AllocatedIsNewObject(c, b, ClassFor(c, size));
        Allocated(c, b, ClassFor(c, size))
    case Release(a) =>
      if a in b.live then
        KfreeFacts(c, b, a);
        Freed(c, b, a)
      else b
  }

  /** Every request of the run is sane when its turn comes. */
  ghost predicate SaneRun(c: Config, b: Books, rs: seq<Request>)
    requires Inv(c, b)
    decreases |rs|
  {
    rs == [] || (Sane(c, b, rs[0]) && SaneRun(c, Served(c, b, rs[0]), rs[1..]))
  }

  ghost function ServedAll(c: Config, b: Books, rs: seq<Request>): (b': Books)
    requires Inv(c, b) && SaneRun(c, b, rs)
    ensures Inv(c, b')
    decreases |rs|
  {
    hide Inv, Served, Sane;
    if rs == [] then b else ServedAll(c, Served(c, b, rs[0]), rs[1..])
  }

  /** Page p is free, one live page object, or cut into slots each of which is live or in the list of its class. */
  ghost predicate PagePartitioned(c: Config, b: Books, p: nat)
    requires Shape(c, b) && p < |b.page|
  {
    var d := b.page[p];
    if d.kind == Free then d == FREE_PAGE && PageAddr(c, p) in b.free[0] && LiveIn(c, b.live, p) == {}
    else if d.lines == 0 then PageAddr(c, p) !in b.free[0] && LiveIn(c, b.live, p) == {PageAddr(c, p)}
    else
      && PageAddr(c, p) !in b.free[0] && LiveIn(c, b.live, p) != {}
      && forall a :: InHeap(c, a) && PageOf(c, a) == p && IsSlot(c, a, d.lines) ==>
           (a in b.live <==> a !in b.free[d.lines])
  }

  /** x and y are objects of the heap, which do not overlap and start on a line. */
  ghost predicate ObjectsApart(c: Config, b: Books, x: Addr, y: Addr)
    requires Shape(c, b)
  {
    && Placed(c, b, x) && Placed(c, b, y) && x % c.line == 0
    && (x != y ==> x + ObjectSize(c, b, x) <= y || y + ObjectSize(c, b, y) <= x)
  }

  /**
    The partition of the heap: every page is free, one live page object, or cut; every list holds distinct
    free objects of its class; live objects are disjoint and on lines; and when nothing is live every list
    of objects is empty and every counter is 0.
  */
  ghost predicate Partitioned(c: Config, b: Books) {
    && Shape(c, b) && 0 < |b.free|
    && (forall p :: 0 <= p < |b.page| ==> PagePartitioned(c, b, p))
    && (forall n :: 0 <= n < |b.free| ==> Distinct(b.free[n]))
    && (forall n, a :: 0 <= n < |b.free| && a in b.free[n] ==> FreeObject(c, b, n, a))
    && (forall x, y :: x in b.live && y in b.live ==> ObjectsApart(c, b, x, y))
    && (b.live == {} ==> (forall n :: 0 <= n < |b.count| ==> b.count[n] == 0)
                         && forall n :: 0 < n < |b.free| ==> b.free[n] == [])
  }

  lemma SoundPageIsPartitioned(c: Config, b: Books, p: nat)
    requires Inv(c, b) && p < |b.page|
    ensures PagePartitioned(c, b, p)
  {
    PageFreeWhenEmpty(c, b, p);
    var n := b.page[p].lines;
    if b.page[p].kind == Slab {
      if n == 0 {
        OnlyPageObject(c, b, p);
      } else {
        forall a | InHeap(c, a) && PageOf(c, a) == p && IsSlot(c, a, n)
          ensures a in b.live <==> a !in b.free[n]
        {
          assert Placed(c, b, a);
          if a in b.free[n] {
            assert FreeObject(c, b, n, a);
          }
        }
      }
    }
  }

  /** A page handed out whole holds one live object, its first byte. */
  lemma OnlyPageObject(c: Config, b: Books, p: nat)
    requires Inv(c, b) && p < |b.page| && b.page[p].kind == Slab && b.page[p].lines == 0
    ensures LiveIn(c, b.live, p) == {PageAddr(c, p)}
  {
    forall a | a in LiveIn(c, b.live, p)
      ensures a == PageAddr(c, p)
    {
      assert Placed(c, b, a);
      assert Offset(c, a) == 0;
    }
    assert LiveIn(c, b.live, p) != {};
  }

  lemma LiveObjectsApart(c: Config, b: Books, x: Addr, y: Addr)
    requires Inv(c, b) && x in b.live && y in b.live
    ensures ObjectsApart(c, b, x, y)
  {
    assert Placed(c, b, x) && Placed(c, b, y);
    hide Covered, FreeListsOk, UseOk, Counted;
    SlotIsLineAligned(c, x, b.page[PageOf(c, x)].lines);
    if x != y {
      ObjectsDisjoint(c, b, x, y);
    }
  }

  lemma SoundHeapIsPartitioned(c: Config, b: Books)
    requires Inv(c, b)
    ensures Partitioned(c, b)
  {
    if b.live == {} {
      NothingLiveNothingUsed(c, b);
    }
    forall p | 0 <= p < |b.page|
      ensures PagePartitioned(c, b, p)
    {
      SoundPageIsPartitioned(c, b, p);
    }
    forall x, y | x in b.live && y in b.live
      ensures ObjectsApart(c, b, x, y)
    {
      LiveObjectsApart(c, b, x, y);
    }
    hide PagePartitioned, ObjectsApart, Covered, UseOk, Counted;
  }

  /** After any run of sane requests from the empty heap, the heap is partitioned. */
  lemma EveryRunPartitionsTheHeap(c: Config, b0: Books, rs: seq<Request>)
    requires EmptyHeap(c, b0)
    ensures Inv(c, b0) && (SaneRun(c, b0, rs) ==> Partitioned(c, ServedAll(c, b0, rs)))
  {
    hide Inv, Partitioned, SaneRun;
    EmptyHeapIsConsistent(c, b0);
    if SaneRun(c, b0, rs) {
      SoundHeapIsPartitioned(c, ServedAll(c, b0, rs));
    }
  }

  /** A heap of one page. */
  const ONE_PAGE := Config(4096, 1, 16, 16)

  /** The books of an empty heap. */
  ghost function EmptyBooks(c: Config): Books
    requires c.line > 0
  {
    Books(seq(c.nbPages, _ => FREE_PAGE), seq(Classes(c), _ => 0),
          seq(Classes(c), n => if n == 0 then PagesUpTo(c, c.nbPages) else []), {})
  }

  /** Once its page has been handed out, a request of 4095 bytes is not refused and yields a NULL object. */
  lemma NullObjectReached()
    ensures ConfigOk(ONE_PAGE) && EmptyHeap(ONE_PAGE, EmptyBooks(ONE_PAGE)) && Inv(ONE_PAGE, EmptyBooks(ONE_PAGE))
    ensures var b := EmptyBooks(ONE_PAGE);
            && Sane(ONE_PAGE, b, Ask(PAGE_SIZE))
            && var b' := Served(ONE_PAGE, b, Ask(PAGE_SIZE));
               KmallocYieldsNull(ONE_PAGE, b'.free, 4095) && !KmallocPanics(ONE_PAGE, b'.free, 4095)
  {
    var c, b := ONE_PAGE, EmptyBooks(ONE_PAGE);
    assert EmptyHeap(c, b);
    EmptyHeapIsConsistent(c, b);
    assert b.free[0] == [PageAddr(c, 0)];
    hide Inv;
    ServedClass(c, b, PAGE_SIZE);
    ClassForFacts(c, PAGE_SIZE);
    assert Served(c, b, Ask(PAGE_SIZE)).free[0] == [];
  }

  // ---- All the free lists as rings --------------------------------------------------------------

  ghost predicate Rings(c: Config, l: Links, free: seq<seq<Addr>>) {
    forall n :: 0 <= n < |free| ==> IsRing(l, Root(c, n), free[n])
  }

  lemma ListDistinct(c: Config, l: Links, free: seq<seq<Addr>>, n: nat)
    requires Rings(c, l, free) && n < |free|
    ensures Distinct(free[n])
  {
    assert IsRing(l, Root(c, n), free[n]);
  }

  /** a is no list node: neither a root nor in a free list. */
  ghost predicate Unlisted(c: Config, free: seq<seq<Addr>>, a: Addr) {
    a >= c.kmb && forall n :: 0 <= n < |free| ==> a !in free[n]
  }

  /** No address of the set is a list node. */
  ghost predicate Aside(c: Config, free: seq<seq<Addr>>, keep: set<Addr>) {
    forall x :: x in keep ==> Unlisted(c, free, x)
  }

  /** The first two words of every object of the set are as they were. */
  ghost predicate WordsKept(l: Links, l': Links, keep: set<Addr>) {
    forall x :: x in keep ==>
      && (x in l.next ==> x in l'.next && l'.next[x] == l.next[x])
      && (x in l.prev ==> x in l'.prev && l'.prev[x] == l.prev[x])
  }

  /** The first two words of the object are 0. */
  predicate Zeroed(l: Links, a: Addr) {
    a in l.next && a in l.prev && l.next[a] == 0 && l.prev[a] == 0
  }

  lemma AddKeepsWords(c: Config, l: Links, free: seq<seq<Addr>>, n: nat, k: nat, item: Addr, keep: set<Addr>)
    requires ConfigOk(c) && |free| <= SLABS && Rings(c, l, free) && Aside(c, free, keep) && item !in keep
    requires n < |free| && k <= |free[n]|
    ensures At(Root(c, n), free[n], k - 1) in l.next
    ensures WordsKept(l, AddedAfter(l, At(Root(c, n), free[n], k - 1), item), keep)
    ensures Aside(c, free[n := InsertAt(free[n], k, item)], keep)
  {
    var root, cur := Root(c, n), At(Root(c, n), free[n], k - 1);
    assert IsRing(l, root, free[n]);
    assert l.next[cur] == At(root, free[n], k - 1 + 1);
    InsertAtContents(free[n], k, item);
    hide InsertAt;
  }

  lemma UnlinkKeepsWords(c: Config, l: Links, free: seq<seq<Addr>>, n: nat, k: nat, keep: set<Addr>)
    requires ConfigOk(c) && |free| <= SLABS && Rings(c, l, free) && Aside(c, free, keep)
    requires n < |free| && k < |free[n]|
    ensures free[n][k] in l.next && free[n][k] in l.prev && free[n][k] !in keep
    ensures WordsKept(l, Unlinked(l, free[n][k]), keep)
    ensures Aside(c, free[n := RemoveAt(free[n], k)], keep)
  {
    var root, item := Root(c, n), free[n][k];
    assert IsRing(l, root, free[n]) && item == At(root, free[n], k);
    assert l.next[item] == At(root, free[n], k + 1) && l.prev[item] == At(root, free[n], k - 1);
    RemoveAtContents(free[n], k);
    hide RemoveAt;
  }

  lemma LiveAside(c: Config, b: Books)
    requires Inv(c, b)
    ensures Aside(c, b.free, b.live)
  {
    hide Inv, Unlisted;
    forall x | x in b.live
      ensures Unlisted(c, b.free, x)
    {
      LiveIsUnlisted(c, b, x);
    }
  }

  lemma WordsKeptTwice(l: Links, l1: Links, l2: Links, keep: set<Addr>, keep1: set<Addr>)
    requires WordsKept(l, l1, keep) && WordsKept(l1, l2, keep1) && keep <= keep1
    ensures WordsKept(l, l2, keep)
  {
  }

  /** Link updates confined to ring n and to one unlisted node leave the other rings alone. */
  lemma OtherRings(c: Config, l: Links, l': Links, free: seq<seq<Addr>>, n: nat, touched: set<Addr>)
    requires ConfigOk(c) && |free| <= SLABS && Rings(c, l, free) && Apart(c, free) && n < |free|
    requires forall a :: a in touched ==> a == Root(c, n) || a in free[n] || Unlisted(c, free, a)
    requires l.next.Keys <= l'.next.Keys && l.prev.Keys <= l'.prev.Keys
    requires forall a :: a in l.next && a !in touched ==> l'.next[a] == l.next[a]
    requires forall a :: a in l.prev && a !in touched ==> l'.prev[a] == l.prev[a]
    ensures forall m :: 0 <= m < |free| && m != n ==> IsRing(l', Root(c, m), free[m])
  {
    forall m | 0 <= m < |free| && m != n
      ensures IsRing(l', Root(c, m), free[m])
    {
      assert IsRing(l, Root(c, m), free[m]);
      RingFrame(l, l', Root(c, m), free[m]);
    }
  }

  lemma RingsAfterAdd(c: Config, l: Links, free: seq<seq<Addr>>, n: nat, k: nat, item: Addr)
    requires ConfigOk(c) && |free| <= SLABS && Rings(c, l, free) && Apart(c, free)
    requires n < |free| && k <= |free[n]| && Unlisted(c, free, item)
    ensures At(Root(c, n), free[n], k - 1) in l.next
    ensures Rings(c, AddedAfter(l, At(Root(c, n), free[n], k - 1), item), free[n := InsertAt(free[n], k, item)])
    ensures Apart(c, free[n := InsertAt(free[n], k, item)])
  {
    var root, cur := Root(c, n), At(Root(c, n), free[n], k - 1);
    assert IsRing(l, root, free[n]);
    assert l.next[cur] == At(root, free[n], k - 1 + 1);
    var l' := AddedAfter(l, cur, item);
    AddedAfterIsRing(l, root, free[n], k, item);
    ApartAfterAdd(c, free, n, k, item);
    OtherRings(c, l, l', free, n, {cur, l.next[cur], item});
  }

  lemma ApartAfterAdd(c: Config, free: seq<seq<Addr>>, n: nat, k: nat, item: Addr)
    requires Apart(c, free) && n < |free| && k <= |free[n]| && Unlisted(c, free, item)
    ensures Apart(c, free[n := InsertAt(free[n], k, item)])
  {
    InsertAtContents(free[n], k, item);
    hide InsertAt;
  }

  lemma RingsAfterUnlink(c: Config, l: Links, free: seq<seq<Addr>>, n: nat, k: nat)
    requires ConfigOk(c) && |free| <= SLABS && Rings(c, l, free) && Apart(c, free)
    requires n < |free| && k < |free[n]|
    ensures free[n][k] in l.next && free[n][k] in l.prev
    ensures Rings(c, Unlinked(l, free[n][k]), free[n := RemoveAt(free[n], k)])
    ensures Apart(c, free[n := RemoveAt(free[n], k)])
    ensures Unlisted(c, free[n := RemoveAt(free[n], k)], free[n][k])
  {
    var root, item := Root(c, n), free[n][k];
    assert IsRing(l, root, free[n]) && item in free[n] && item >= c.kmb;
    assert item == At(root, free[n], k);
    assert l.next[item] == At(root, free[n], k + 1) && l.prev[item] == At(root, free[n], k - 1);
    UnlinkedIsRing(l, root, free[n], k);
    RemoveAtContents(free[n], k);
    OtherRings(c, l, Unlinked(l, item), free, n, {l.next[item], l.prev[item]});
    var free' := free[n := RemoveAt(free[n], k)];
    forall m | 0 <= m < |free'|
      ensures item !in free'[m] && (forall x :: x in free'[m] ==> x in free[m])
      ensures IsRing(Unlinked(l, item), Root(c, m), free'[m])
    {
    }
  }

  /** Writing the memory of an object that is in no list disturbs no list. */
  lemma RingsAfterWrite(c: Config, l: Links, free: seq<seq<Addr>>, a: Addr, x: Addr, y: Addr)
    requires ConfigOk(c) && |free| <= SLABS && Rings(c, l, free) && Unlisted(c, free, a)
    ensures Rings(c, Links(l.next[a := x], l.prev[a := y]), free)
  {
    forall n | 0 <= n < |free|
      ensures IsRing(Links(l.next[a := x], l.prev[a := y]), Root(c, n), free[n])
    {
      RingFrame(l, Links(l.next[a := x], l.prev[a := y]), Root(c, n), free[n]);
    }
  }

  /** The loop of kmalloc that cuts a page stops after the last whole slot. */
  lemma CutStops(size: nat, k: nat)
    requires size > 0
    ensures k * size + size <= PAGE_SIZE <==> k < PAGE_SIZE / size
  {
    Distribute(k, 1, size);
    if (k + 1) * size <= PAGE_SIZE {
      DivMono((k + 1) * size, PAGE_SIZE, size);
      ModOfMultiple(k + 1, size);
    }
    if k < PAGE_SIZE / size {
      MulMono(k + 1, PAGE_SIZE / size, size);
    }
  }

  /** The first k pages of the heap. */
  ghost function PagesUpTo(c: Config, k: nat): seq<Addr> {
    seq(k, p => PageAddr(c, p))
  }

  lemma NextPage(c: Config, p: nat)
    requires ConfigOk(c) && p < c.nbPages
    ensures PageAddr(c, p) !in PagesUpTo(c, p) && PageIndex(c, PageAddr(c, p)) == p && PageAddr(c, p) >= c.kmb
    ensures PagesUpTo(c, p + 1) == PagesUpTo(c, p) + [PageAddr(c, p)]
  {
    OffsetInPage(c, p, 0);
    PageIndexInHeap(c, PageAddr(c, p));
  }

  ghost predicate EmptyHeap(c: Config, b: Books) {
    && Shape(c, b) && 0 < |b.free| && b.live == {} && b.free[0] == PagesUpTo(c, c.nbPages)
    && (forall p :: 0 <= p < |b.page| ==> b.page[p] == FREE_PAGE)
    && (forall n :: 0 <= n < |b.count| ==> b.count[n] == 0)
    && (forall n :: 0 < n < |b.free| ==> b.free[n] == [])
  }

  lemma EmptyHeapCovered(c: Config, b: Books)
    requires EmptyHeap(c, b)
    ensures FreeListsOk(c, b) && Covered(c, b)
  {
    forall a | a in b.free[0]
      ensures FreeObject(c, b, 0, a)
    {
      var p :| 0 <= p < c.nbPages && b.free[0][p] == a;
      OffsetInPage(c, p, 0);
    }
    forall p | 0 <= p < |b.page|
      ensures PageAddr(c, p) in b.free[0]
    {
      assert b.free[0][p] == PageAddr(c, p);
    }
  }

  lemma EmptyHeapIsConsistent(c: Config, b: Books)
    requires EmptyHeap(c, b)
    ensures Inv(c, b)
  {
    EmptyHeapCovered(c, b);
    assert UsedPages(b.page) == {};
    forall n | 0 <= n < |b.count|
      ensures LiveOfClass(c, b, n) == {}
    {
    }
  }

  // ---- The allocator -----------------------------------------------------------------------------

  class Allocator {
    const c: Config
    const mem: LinkMemory
    const page: array<PageDesc>
    const count: array<int>
    ghost var free: seq<seq<Addr>>   // free[n]: the objects of the list Slab[n]
    ghost var live: set<Addr>        // the objects kmalloc returned and kfree did not get back

    ghost function B(): Books
      reads this, page, count
    {
      Books(page[..], count[..], free, live)
    }

    ghost predicate Valid()
      reads this, mem, page, count
    {
      ConfigOk(c) && Inv(c, B()) && Rings(c, mem.Val(), free)
    }

    /** kmemkernel_init: every page free, every list of objects empty. */
    constructor (c: Config)
      requires ConfigOk(c)
      ensures Valid() && fresh(mem) && fresh(page) && fresh(count)
      ensures this.c == c && live == {}
    {
      ClassesFit(c);
      this.c := c;
      mem := new LinkMemory();
      page := new PageDesc[c.nbPages](_ => FREE_PAGE);
      count := new int[Classes(c)](_ => 0);
      free := [];
      live := {};
      new;
      InitLists();
      InitPages();
      EmptyHeapIsConsistent(c, B());
    }

    /** The roots Slab[0] to Slab[MaxLineSlab - 1]. */
    method InitLists()
      requires ConfigOk(c) && free == []
      modifies mem, this`free
      ensures |free| == Classes(c) && (forall n :: 0 <= n < |free| ==> free[n] == [])
      ensures Rings(c, mem.Val(), free)
    {
      for i := 0 to Classes(c)
        invariant |free| == i && forall n :: 0 <= n < i ==> free[n] == []
        invariant Rings(c, mem.Val(), free)
      {
        ghost var l := mem.Val();
        mem.Init(Root(c, i));
        forall n | 0 <= n < i
          ensures IsRing(mem.Val(), Root(c, n), free[n])
        {
          RingFrame(l, mem.Val(), Root(c, n), free[n]);
        }
        free := free + [[]];
      }
    }

    /** Every page of the heap goes to Slab[0], in address order. */
    method InitPages()
      requires ConfigOk(c) && page.Length == c.nbPages
      requires |free| == Classes(c) && (forall n :: 0 <= n < |free| ==> free[n] == [])
      requires Rings(c, mem.Val(), free)
      modifies mem, page, this`free
      ensures free == old(free)[0 := PagesUpTo(c, c.nbPages)]
      ensures Rings(c, mem.Val(), free)
      ensures forall i :: 0 <= i < page.Length ==> page[i] == FREE_PAGE
    {
      ClassesFit(c);
      assert PagesUpTo(c, 0) == [] == free[0];
      assert free == free[0 := free[0]];
      for p := 0 to c.nbPages
        invariant free == old(free)[0 := PagesUpTo(c, p)]
        invariant Rings(c, mem.Val(), free) && Apart(c, free)
        invariant forall i :: 0 <= i < p ==> page[i] == FREE_PAGE
      {
        AddPage(p);
      }
    }

    /** One turn of the loop above. */
    method AddPage(p: nat)
      requires ConfigOk(c) && page.Length == c.nbPages && |free| == Classes(c) && 0 < |free| <= SLABS
      requires Rings(c, mem.Val(), free) && Apart(c, free)
      requires p < c.nbPages && free[0] == PagesUpTo(c, p)
      requires forall n :: 0 < n < |free| ==> free[n] == []
      modifies mem, page, this`free
      ensures Rings(c, mem.Val(), free) && Apart(c, free)
      ensures free == old(free)[0 := PagesUpTo(c, p + 1)]
      ensures page[..] == old(page[..])[p := FREE_PAGE]
    {
      hide PageAddr, PageOf, InHeap;
      var a := PageAddr(c, p);
      NextPage(c, p);
      Append(a, 0, {});
      page[PageIndex(c, a)] := FREE_PAGE;
    }

    /** list_getfirst (&Slab[n]); NULL is 0. */
    method GetFirst(n: nat, ghost keep: set<Addr>) returns (res: Addr)
      requires ConfigOk(c) && |free| <= SLABS && Rings(c, mem.Val(), free) && Apart(c, free) && n < |free|
      requires Aside(c, free, keep)
      modifies mem, this`free
      ensures WordsKept(old(mem.Val()), mem.Val(), keep) && Aside(c, free, keep)
      ensures old(free[n]) != [] ==> res !in keep
      ensures if old(free[n]) == [] then res == 0 && free == old(free) && mem.Val() == old(mem.Val())
              else res == old(free[n][0]) && free == old(free)[n := old(free[n])[1..]] && Unlisted(c, free, res)
      ensures Rings(c, mem.Val(), free) && Apart(c, free)
    {
      var root := Root(c, n);
      var empty := mem.IsEmpty(root, free[n]);
      if empty {
        res := 0;
      } else {
        RingsAfterUnlink(c, mem.Val(), free, n, 0);
        UnlinkKeepsWords(c, mem.Val(), free, n, 0, keep);
        assert mem.Val().next[At(root, free[n], -1)] == At(root, free[n], 0);
        res := mem.next[root];
        mem.Unlink(res, root, free[n], 0);
        assert RemoveAt(free[n], 0) == free[n][1..];
        free := free[n := free[n][1..]];
      }
    }

    /** list_addlast (&Slab[n], a) */
    method Append(a: Addr, n: nat, ghost keep: set<Addr>)
      requires ConfigOk(c) && |free| <= SLABS && Rings(c, mem.Val(), free) && Apart(c, free)
      requires n < |free| && Unlisted(c, free, a) && Aside(c, free, keep) && a !in keep
      modifies mem, this`free
      ensures WordsKept(old(mem.Val()), mem.Val(), keep) && Aside(c, free, keep)
      ensures free == old(free)[n := old(free[n]) + [a]]
      ensures Rings(c, mem.Val(), free) && Apart(c, free)
    {
      RingsAfterAdd(c, mem.Val(), free, n, |free[n]|, a);
      AddKeepsWords(c, mem.Val(), free, n, |free[n]|, a, keep);
      mem.AddLast(Root(c, n), a, free[n]);
      assert InsertAt(free[n], |free[n]|, a) == free[n] + [a];
      free := free[n := free[n] + [a]];
    }

    /** The loop that cuts page p into objects of class n and chains them in Slab[n]. */
    method Cut(start: Addr, n: nat, ghost p: int, ghost keep: set<Addr>)
      requires ConfigOk(c) && |free| == Classes(c) && Rings(c, mem.Val(), free) && Apart(c, free)
      requires 0 < n < |free| && free[n] == [] && 0 <= p < c.nbPages && start == PageAddr(c, p)
      requires forall m, x :: 0 <= m < |free| && x in free[m] ==> PageOf(c, x) != p
      requires Size(c, n) > 0 && Aside(c, free, keep) && forall x :: x in keep ==> PageOf(c, x) != p
      modifies mem, this`free
      ensures WordsKept(old(mem.Val()), mem.Val(), keep) && Aside(c, free, keep)
      ensures free == old(free)[n := Slots(c, p, n)]
      ensures Rings(c, mem.Val(), free) && Apart(c, free)
    {
      ClassesFit(c);
      var size := Size(c, n);
      var a := start;
      ghost var k := 0;
      ghost var slots := Slots(c, p, n);
      assert old(free)[n := []] == old(free);
      CutStops(size, 0);
      while a + size <= start + PAGE_SIZE
        invariant 0 <= k <= |slots| && a == SlotAddr(c, p, n, k)
        invariant a + size <= start + PAGE_SIZE <==> k < |slots|
        invariant free == old(free)[n := slots[..k]]
        invariant Rings(c, mem.Val(), free) && Apart(c, free)
        invariant WordsKept(old(mem.Val()), mem.Val(), keep) && Aside(c, free, keep)
        decreases |slots| - k
      {
        NextSlotUnlisted(c, old(free), n, p, k);
        ghost var l := mem.Val();
        Append(a, n, keep);
        WordsKeptTwice(old(mem.Val()), l, mem.Val(), keep, keep);
        assert slots[..k] + [a] == slots[..k + 1];
        a := a + size;
        k := k + 1;
        Distribute(k - 1, 1, size);
        CutStops(size, k);
      }
      assert slots[..k] == slots;
    }

    /** The page the object lies in is marked as a slab of class n with one more object in use. */
    method Account(res: Addr, n: nat)
      requires ConfigOk(c) && page.Length == c.nbPages && n < count.Length
      modifies page, count
      ensures count[..] == old(count[..])[n := old(count[n]) + 1]
      ensures page[..] == old(page[..])[PageIndex(c, res) :=
                            PageDesc(Slab, n, (old(page[..])[PageIndex(c, res)].nbused + 1) % 256)]
    {
      count[n] := count[n] + 1;
      var p := PageIndex(c, res);
      page[p] := page[p].(lines := n);
      page[p] := page[p].(nbused := (page[p].nbused + 1) % 256);
      page[p] := page[p].(kind := Slab);
    }

    /** memset of the new object, as far as its first two words, the link words, go. */
    method Clear(res: Addr)
      requires ConfigOk(c) && |free| <= SLABS && Rings(c, mem.Val(), free) && Unlisted(c, free, res)
      modifies mem
      ensures Rings(c, mem.Val(), free)
      ensures mem.Val() == Links(old(mem.next)[res := 0], old(mem.prev)[res := 0])
      ensures Zeroed(mem.Val(), res)
    {
      RingsAfterWrite(c, mem.Val(), free, res, 0, 0);
      mem.next := mem.next[res := 0];
      mem.prev := mem.prev[res := 0];
    }

    ghost predicate WellFormed()
      reads this, mem, page, count
    {
      && ConfigOk(c) && page.Length == c.nbPages && count.Length == |free| == Classes(c) <= SLABS
      && Rings(c, mem.Val(), free) && Apart(c, free)
    }

    /** Lines 202 to 208 of kmalloc, on lists and descriptors only. */
    method TakeHead(n: nat, bytes: nat, ghost keep: set<Addr>) returns (res: Addr)
      requires WellFormed() && n < |free| && Aside(c, free, keep)
      modifies this`free, mem, page, count
      ensures WellFormed()
      ensures WordsKept(old(mem.Val()), mem.Val(), keep)
      ensures old(free[n]) != [] && bytes > 0 ==> Zeroed(mem.Val(), res)
      ensures if old(free[n]) == [] then res == 0 && free == old(free)
              else res == old(free[n][0]) != 0 && free == old(free)[n := old(free[n])[1..]]
      ensures count[..] == old(count[..])[n := old(count[n]) + 1]
      ensures page[..] == old(page[..])[PageIndex(c, res) :=
                            PageDesc(Slab, n, (old(page[..])[PageIndex(c, res)].nbused + 1) % 256)]
    {
      res := GetFirst(n, keep);
      Account(res, n);
      if res != 0 && bytes > 0 {
        Clear(res);
      }
    }

    /** The last part of kmalloc: take the first object of Slab[n], if there is one. */
    method TakeFirst(n: nat, bytes: nat) returns (res: Addr)
      requires Valid() && n < |free|
      modifies this, mem, page, count
      ensures WordsKept(old(mem.Val()), mem.Val(), old(live))
      ensures old(free[n]) != [] && bytes > 0 ==> Zeroed(mem.Val(), res)
      ensures old(free[n]) != [] ==>
                Valid() && res == old(free[n][0]) != 0
                && 0 <= PageOf(c, res) < |old(page[..])| && B() == Taken(c, old(B()), n)
      ensures old(free[n]) == [] ==>
                && res == 0 && free == old(free) && live == old(live)
                && count[..] == old(count[..])[n := old(count[n]) + 1]
                && page[..] == old(page[..])[PageIndex(c, 0) :=
                                 PageDesc(Slab, n, (old(page[..])[PageIndex(c, 0)].nbused + 1) % 256)]
    {
      hide Inv;
      ghost var b := B();
      InvShape(c, b);
      ClassesFit(c);
      LiveAside(c, b);
      hide Aside, WordsKept;
      res := TakeHead(n, bytes, live);
      if res != 0 {
        HeadIsInHeap(c, b, n);
        live := live + {res};
        assert B() == Taken(c, b, n);
        TakenKeepsInv(c, b, n);
      }
    }

    /** Lines 198 to 208 of kmalloc, on lists and descriptors only. */
    method CarveHead(start: Addr, n: nat, ghost p: int, ghost keep: set<Addr>) returns (res: Addr)
      requires WellFormed() && 0 < n < |free| && free[n] == []
      requires Size(c, n) > 0 && SlotCount(c, n) > 0
      requires 0 <= p < c.nbPages && start == PageAddr(c, p)
      requires forall m, x :: 0 <= m < |free| && x in free[m] ==> PageOf(c, x) != p
      requires Aside(c, free, keep) && forall x :: x in keep ==> PageOf(c, x) != p
      modifies this`free, mem, page, count
      ensures WellFormed() && res == start
      ensures WordsKept(old(mem.Val()), mem.Val(), keep) && Zeroed(mem.Val(), res)
      ensures free == old(free)[n := Slots(c, p, n)[1..]]
      ensures count[..] == old(count[..])[n := old(count[n]) + 1]
      ensures page[..] == old(page[..])[p := PageDesc(Slab, n, 1)]
    {
      assert PageIndex(c, start) == p by {
        OffsetInPage(c, p, 0);
        PageIndexInHeap(c, start);
      }
      page[PageIndex(c, start)] := page[PageIndex(c, start)].(nbused := 0);
      ghost var l := mem.Val();
      Cut(start, n, p, keep);
      assert free[n][0] == SlotAddr(c, p, n, 0) == start;
      hide PageOf, InHeap, Aside, WordsKept;
      ghost var l1 := mem.Val();
      res := TakeHead(n, Size(c, n), keep);
      WordsKeptTwice(l, l1, mem.Val(), keep, keep);
    }

    /** kmalloc's slow path: page p, just obtained whole at start, is cut and its first object taken. */
    method CarveAndTake(start: Addr, n: nat, ghost p: int) returns (res: Addr)
      requires Valid() && Carvable(c, B(), n, p) && start == PageAddr(c, p)
      modifies this, mem, page, count
      ensures Valid() && res == start && B() == Carved(c, old(B()), n, p)
      ensures WordsKept(old(mem.Val()), mem.Val(), old(live) - {start}) && Zeroed(mem.Val(), res)
    {
      hide Inv;
      ghost var b := B();
      InvShape(c, b);
      ClassesFit(c);
      WholePageHasNoFreeObject(c, b, n, p);
      OthersAside(c, b, n, p, start);
      hide Aside, WordsKept;
      res := CarveHead(start, n, p, live - {start});
      assert B() == Carved(c, b, n, p);
      CarvedKeepsInv(c, b, n, p);
    }

    /**
      kmalloc. Unless it panics or runs on with NULL, the result is a line-aligned object of
      at least size bytes that was not live; nothing else about the live objects changes.
    */
    method Kmalloc(size: nat) returns (r: Outcome)
      requires Valid()
      modifies this, mem, page, count
      ensures r.Panic? <==> KmallocPanics(c, old(free), size)
      ensures r.NullObject? <==> KmallocYieldsNull(c, old(free), size)
      ensures r.Panic? ==> B() == old(B()) && mem.Val() == old(mem.Val())
      ensures !r.NullObject? ==> Valid()
      ensures r.Object? ==>
                && (old(free[ClassFor(c, size)]) != [] || old(free[0]) != [])
                && r.addr == NewObject(old(B()), ClassFor(c, size))
                && B() == Allocated(c, old(B()), ClassFor(c, size))
                && size <= Size(c, ClassFor(c, size)) && (size > 0 ==> Size(c, ClassFor(c, size)) < size + c.line)
      ensures r.Object? && size > 0 ==> Zeroed(mem.Val(), r.addr)
      ensures WordsKept(old(mem.Val()), mem.Val(), old(live))
      ensures r.NullObject? ==>
                && live == old(live) && free == old(free)
                && count[..] == old(count[..])[0 := old(count[0]) + 1]
                && page[..] == old(page[..])[PageIndex(c, 0) :=
                                 PageDesc(Slab, 0, (old(page[..])[PageIndex(c, 0)].nbused + 1) % 256)]
      decreases if size == PAGE_SIZE then 0 else 3
    {
      hide Inv;
      InvShape(c, B());
      ClassesFit(c);
      if size > PAGE_SIZE {
        return Panic;
      }
      ClassForFacts(c, size);
      LinesOf(c, size);
      NullOnlyForRoundedPages(c, free, size);
      var noPage := mem.IsEmpty(Root(c, 0), free[0]);
      if size == PAGE_SIZE && noPage {
        return Panic;
      }
      var lines := Lines(c, size);
      var rounded := lines * c.line;
      if rounded != PAGE_SIZE {
        var none := mem.IsEmpty(Root(c, lines), free[lines]);
        if none {
          r := Slow(lines);
          return;
        }
      }
      var res := TakeFirst(lines % Classes(c), rounded);
      if res == 0 {
        return NullObject;
      }
      return Object(res);
    }

    /** kmalloc when the list of the class is empty: the recursive call for a page, then the cut. */
    method Slow(lines: nat) returns (r: Outcome)
      requires Valid() && lines < |free| && free[lines] == []
      modifies this, mem, page, count
      ensures Valid() && !r.NullObject?
      ensures r.Panic? <==> old(free[0]) == []
      ensures r.Panic? ==> B() == old(B()) && mem.Val() == old(mem.Val())
      ensures r.Object? ==>
                GivenFrom(c, old(B()), B(), lines, r.addr) && Zeroed(mem.Val(), r.addr)
      ensures WordsKept(old(mem.Val()), mem.Val(), old(live))
      decreases 2
    {
      hide *;
      var whole := WholeFreePage(lines);
      if whole.Panic? {
        return Panic;
      }
      ghost var l1 := mem.Val();
      var res := CarveAndTake(whole.addr, lines, PageOf(c, whole.addr));
      WordsKeptTwice(old(mem.Val()), l1, mem.Val(), old(live), old(live) + {res} - {res});
      return Object(res);
    }

    /** The recursive call of kmalloc: a page is taken whole, or the kernel stops. */
    method WholeFreePage(ghost n: nat) returns (r: Outcome)
      requires Valid() && n < |free| && free[n] == []
      modifies this, mem, page, count
      ensures Valid() && !r.NullObject?
      ensures r.Panic? <==> old(free[0]) == []
      ensures r.Panic? ==> B() == old(B()) && mem.Val() == old(mem.Val())
      ensures r.Object? ==>
                && r.addr !in old(live) && live == old(live) + {r.addr} && r.addr == PageAddr(c, PageOf(c, r.addr))
                && Carvable(c, B(), n, PageOf(c, r.addr))
                && GivenFrom(c, old(B()), Carved(c, B(), n, PageOf(c, r.addr)), n, r.addr)
      ensures WordsKept(old(mem.Val()), mem.Val(), old(live))
      decreases 1
    {
      ClassForFacts(c, PAGE_SIZE);
      ghost var b := B();
      InvShape(c, b);
      if free[0] != [] {
        AllocatedByCarving(c, b, n);
      }
      hide Inv, WordsKept, Zeroed, Rings, Allocated, Carvable, Carved, GivenFrom, PageOf, PageAddr;
      r := Kmalloc(PAGE_SIZE);
    }

    /**
      kfree. Giving back a live object makes it free; its page returns to Slab[0] exactly
      when no other object of the page is live. An address outside the heap or in a free
      page stops the kernel.
    */
    method Kfree(obj: Addr) returns (r: FreeOutcome)
      requires Valid()
      requires obj in live || !InHeap(c, obj) || page[PageIndex(c, obj)].kind == Free
      modifies this, mem, page, count
      ensures Valid()
      ensures r.Done? <==> obj in old(live)
      ensures r.FreePanic? ==> B() == old(B()) && mem.Val() == old(mem.Val())
      ensures r.Done? ==> Placed(c, old(B()), obj) && B() == Freed(c, old(B()), obj)
      ensures WordsKept(old(mem.Val()), mem.Val(), old(live) - {obj})
    {
      ghost var b := B();
      InvShape(c, b);
      if obj in live {
        LivePlaced(c, b, obj);
      }
      hide Inv, Freed, Placed, WordsKept, Rings;
      if obj < c.kmb || obj >= c.kmb + PAGE_SIZE * c.nbPages {
        return FreePanic;
      }
      PageIndexInHeap(c, obj);
      var p := PageIndex(c, obj);
      if page[p].kind == Free {
        return FreePanic;
      }
      FreeLive(obj, p, page[p].lines);
      return Done;
    }

    /** kfree of a live object, after its tests. */
    method FreeLive(obj: Addr, p: nat, n: nat)
      requires Valid() && obj in live && p == PageOf(c, obj) < page.Length && n == page[p].lines
      modifies this, mem, page, count
      ensures Valid() && Placed(c, old(B()), obj) && B() == Freed(c, old(B()), obj)
      ensures WordsKept(old(mem.Val()), mem.Val(), old(live) - {obj})
    {
      hide Inv, Freed, Keep, LiveIn, Placed, WordsKept, Aside;
      ClassesFit(c);
      ghost var b := B();
      InvShape(c, b);
      KfreeFacts(c, b, obj);
      FreedBooks(c, b, obj);
      OthersStay(c, b, obj);
      LivePlaced(c, b, obj);
      hide InHeap, PageOf, PageAddr, Rings, Apart, Unlisted;
      GiveBack(obj, p, n, live - {obj});
      live := live - {obj};
      assert B() == Freed(c, b, obj);
    }

    /** Lines 226 to 243 of kfree, on lists and descriptors only. */
    method GiveBack(obj: Addr, p: nat, n: nat, ghost keep: set<Addr>)
      requires WellFormed() && Unlisted(c, free, obj) && Aside(c, free, keep) && obj !in keep
      requires InHeap(c, obj) && p == PageOf(c, obj) < page.Length && n == page[p].lines < |free|
      requires n == 0 ==> obj == PageAddr(c, p)
      requires forall x :: x in free[n] ==> InHeap(c, x)
      requires forall m :: 0 <= m < |free| && m != n ==> PageAddr(c, p) !in free[m]
      requires n > 0 && (page[p].nbused + 255) % 256 == 0 ==> PageAddr(c, p) !in keep
      modifies this`free, mem, page, count
      ensures WellFormed() && WordsKept(old(mem.Val()), mem.Val(), keep)
      ensures n == 0 ==>
                && free == old(free)[0 := [obj] + old(free[0])]
                && page[..] == old(page[..])[p := FREE_PAGE]
                && count[..] == old(count[..])[0 := old(count[0]) - 1]
      ensures n > 0 && (old(page[p].nbused) + 255) % 256 != 0 ==>
                && free == old(free)[n := [obj] + old(free[n])]
                && page[..] == old(page[..])[p := old(page[p]).(nbused := (old(page[p].nbused) + 255) % 256)]
                && count[..] == old(count[..])[n := old(count[n]) - 1]
      ensures n > 0 && (old(page[p].nbused) + 255) % 256 == 0 ==>
                && free == old(free)[n := Keep(c, old(free[n]), p)][0 := [PageAddr(c, p)] + old(free[0])]
                && page[..] == old(page[..])[p := FREE_PAGE]
                && count[..] == old(count[..])[n := old(count[n]) - 1][0 := old(count[0]) - 1]
    {
      hide Rings, InHeap, PageOf, PageAddr, Keep, Aside, WordsKept;
      KeepAdded(c, obj, free[n], p);
      PutBack(obj, n, keep);
      if n == 0 {
        page[p] := FREE_PAGE;
        return;
      }
      page[p] := page[p].(nbused := (page[p].nbused + 255) % 256);
      if page[p].nbused == 0 {
        ghost var l1 := mem.Val();
        ReleasePage(obj, p, n, keep);
        WordsKeptTwice(old(mem.Val()), l1, mem.Val(), keep, keep);
      }
    }

    /** The owner of a live object may write anything in it, its first two words included. */
    method ClientWrite(a: Addr, x: Addr, y: Addr)
      requires Valid() && a in live
      modifies mem
      ensures Valid() && mem.next == old(mem.next)[a := x] && mem.prev == old(mem.prev)[a := y]
    {
      ClassesFit(c);
      LiveIsUnlisted(c, B(), a);
      RingsAfterWrite(c, mem.Val(), free, a, x, y);
      mem.next := mem.next[a := x];
      mem.prev := mem.prev[a := y];
    }

    /** Lines 226 and 227 of kfree: the object heads the free list of its class. */
    method PutBack(obj: Addr, n: nat, ghost keep: set<Addr>)
      requires WellFormed() && n < |free| && Unlisted(c, free, obj) && Aside(c, free, keep) && obj !in keep
      modifies this`free, mem, count
      ensures WellFormed() && WordsKept(old(mem.Val()), mem.Val(), keep) && Aside(c, free, keep)
      ensures free == old(free)[n := [obj] + old(free[n])]
      ensures count[..] == old(count[..])[n := old(count[n]) - 1]
    {
      RingsAfterAdd(c, mem.Val(), free, n, 0, obj);
      AddKeepsWords(c, mem.Val(), free, n, 0, obj, keep);
      mem.AddAfter(Root(c, n), obj, Root(c, n), free[n], 0);
      assert InsertAt(free[n], 0, obj) == [obj] + free[n];
      free := free[n := InsertAt(free[n], 0, obj)];
      count[n] := count[n] - 1;
    }

    /** Lines 233 to 242 of kfree: the objects of the page leave Slab[n], the page joins Slab[0]. */
    method ReleasePage(obj: Addr, p: nat, n: nat, ghost keep: set<Addr>)
      requires WellFormed() && 0 < n < |free| && InHeap(c, obj) && p == PageOf(c, obj)
      requires p < page.Length && (forall x :: x in free[n] ==> InHeap(c, x))
      requires forall m :: 0 <= m < |free| && m != n ==> PageAddr(c, p) !in free[m]
      requires Aside(c, free, keep) && PageAddr(c, p) !in keep
      modifies this`free, mem, page, count
      ensures WellFormed() && WordsKept(old(mem.Val()), mem.Val(), keep)
      ensures free == old(free)[n := Keep(c, old(free[n]), p)][0 := [PageAddr(c, p)] + old(free[0])]
      ensures page[..] == old(page[..])[p := FREE_PAGE]
      ensures count[..] == old(count[..])[0 := old(count[0]) - 1]
    {
      hide PagesUpTo, Keep;
      HomeByMask(c, obj, p);
      ListDistinct(c, mem.Val(), free, n);
      hide PageOf, PageAddr, InHeap, PageIndex, Rings, Aside, WordsKept;
      var home := obj - obj % PAGE_SIZE;
      KeepContents(c, free[n], p);
      UnlinkPage(p, n, keep);
      page[p] := FREE_PAGE;
      page[p] := page[p].(lines := 0);
      ghost var l1 := mem.Val();
      PutBack(home, 0, keep);
      WordsKeptTwice(old(mem.Val()), l1, mem.Val(), keep, keep);
    }

    /** One turn of the loop below, at item s[i]. */
    method Visit(item: Addr, p: nat, n: nat, ghost s: seq<Addr>, ghost i: nat, ghost keep: set<Addr>)
      requires WellFormed() && 0 < n < |free| && p < c.nbPages
      requires i < |s| && item == s[i] && InHeap(c, item)
      requires free[n] == Keep(c, s[..i], p) + s[i..] && Aside(c, free, keep)
      modifies this`free, mem
      ensures WellFormed() && WordsKept(old(mem.Val()), mem.Val(), keep) && Aside(c, free, keep)
      ensures free == old(free)[n := Keep(c, s[..i + 1], p) + s[i + 1..]]
    {
      KeepStep(c, s, i, p);
      PageIndexInHeap(c, item);
      if PageIndex(c, item) == p {
        ghost var k := |Keep(c, s[..i], p)|;
        assert free[n][k] == item;
        RingsAfterUnlink(c, mem.Val(), free, n, k);
        UnlinkKeepsWords(c, mem.Val(), free, n, k, keep);
        mem.Unlink(item, Root(c, n), free[n], k);
        free := free[n := RemoveAt(free[n], k)];
      }
    }

    /** The list_foreach of kfree that unlinks the objects of page p, and only those. */
    method UnlinkPage(p: nat, n: nat, ghost keep: set<Addr>)
      requires WellFormed() && 0 < n < |free| && p < c.nbPages
      requires Aside(c, free, keep) && forall x :: x in free[n] ==> InHeap(c, x)
      modifies this`free, mem
      ensures WellFormed() && WordsKept(old(mem.Val()), mem.Val(), keep) && Aside(c, free, keep)
      ensures free == old(free)[n := Keep(c, old(free[n]), p)]
    {
      var root := Root(c, n);
      ghost var s := free[n];
      ghost var i := 0;
      assert free[n] == Keep(c, s[..0], p) + s[0..];
      ForeachItem(mem.Val(), root, [], s, 0);
      var item := mem.next[root];
      var next := mem.next[item];
      while item != root
        invariant 0 <= i <= |s| && item == At(root, s, i) && root !in s
        invariant i < |s| ==> next == At(root, s, i + 1)
        invariant WellFormed()
        invariant free == old(free)[n := Keep(c, s[..i], p) + s[i..]]
        invariant WordsKept(old(mem.Val()), mem.Val(), keep) && Aside(c, free, keep)
        decreases |s| - i
      {
        ghost var l := mem.Val();
        Visit(item, p, n, s, i, keep);
        WordsKeptTwice(old(mem.Val()), l, mem.Val(), keep, keep);
        i := i + 1;
        item := next;
        ForeachItem(mem.Val(), root, Keep(c, s[..i], p), s, i);
        next := mem.next[next];
      }
      assert s[..i] == s && Keep(c, s[..i], p) + s[i..] == Keep(c, s, p);
    }
  }

  lemma ServedAsk(c: Config, b: Books, size: nat)
    requires Inv(c, b) && Sane(c, b, Ask(size))
    ensures !KmallocYieldsNull(c, b.free, size)
    ensures KmallocPanics(c, b.free, size) ==> Served(c, b, Ask(size)) == b
    ensures !KmallocPanics(c, b.free, size) ==>
              var n := ClassFor(c, size);
              && n < |b.free| && (b.free[n] != [] || b.free[0] != []) && Served(c, b, Ask(size)) == Allocated(c, b, n)
  {
    InvShape(c, b);
    hide Inv, Allocated, KmallocPanics, KmallocYieldsNull;
    if !KmallocPanics(c, b.free, size) {
      ServedClass(c, b, size);
    }
  }

  lemma ServedRelease(c: Config, b: Books, a: Addr)
    requires Inv(c, b) && Sane(c, b, Release(a))
    ensures a in b.live || !InHeap(c, a) || b.page[PageIndex(c, a)].kind == Free
    ensures a !in b.live ==> Served(c, b, Release(a)) == b
    ensures a in b.live ==> Shape(c, b) && 0 < |b.free| && Placed(c, b, a) && Served(c, b, Release(a)) == Freed(c, b, a)
  {
    hide Freed;
    if a in b.live {
      KfreeFacts(c, b, a);
    }
  }

  lemma SamePage(h: Allocator, a: Addr)
    requires h.Valid()
    ensures PageIndex(h.c, a) < h.page.Length && h.B().page[PageIndex(h.c, a)] == h.page[PageIndex(h.c, a)]
  {
  }

  /** The allocator serves every sane request as the books say. */
  method Serve(h: Allocator, r: Request)
    requires h.Valid() && Inv(h.c, h.B()) && Sane(h.c, h.B(), r)
    modifies h, h.mem, h.page, h.count
    ensures h.Valid() && h.B() == Served(h.c, old(h.B()), r)
    ensures WordsKept(old(h.mem.Val()), h.mem.Val(), if r.Release? then old(h.live) - {r.a} else old(h.live))
  {
    hide Inv, Served, Sane, Allocated, Freed, KmallocPanics, KmallocYieldsNull, Rings, Placed, InHeap, PageIndex,
         ClassFor;
    match r {
      case Ask(size) =>
        ServedAsk(h.c, h.B(), size);
        var o := h.Kmalloc(size);
      case Release(a) =>
        ServedRelease(h.c, h.B(), a);
        SamePage(h, a);
        var o := h.Kfree(a);
    }
  }
}
