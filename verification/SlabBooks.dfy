/**
  The bookkeeping of the slab allocator: page descriptors, object counters, free lists and
  the set of live objects, with the invariant that partitions the heap and the effect of
  each allocator step on it.
*/
module SlabBooks {
  import opened Ring
  import opened Arith
  import opened SlabGeometry

  datatype Kind = Free | Slab

  /** A page descriptor: page type, class of its objects, 8-bit counter of used objects. */
  datatype PageDesc = PageDesc(kind: Kind, lines: nat, nbused: nat)

  const FREE_PAGE := PageDesc(Free, 0, 0)

  /** free[n] is the content of the list Slab[n]; live is the set of objects handed out. */
  datatype Books = Books(page: seq<PageDesc>, count: seq<int>, free: seq<seq<Addr>>, live: set<Addr>)

  ghost predicate Shape(c: Config, b: Books) {
    && ConfigOk(c)
    && |b.page| == c.nbPages && |b.count| == |b.free| == Classes(c)
    && forall p :: 0 <= p < |b.page| ==> b.page[p].lines < Classes(c)
  }

  /** a is the start of an object slot of a page that is cut (or handed out whole). */
  ghost predicate Placed(c: Config, b: Books, a: Addr)
    requires Shape(c, b)
  {
    && InHeap(c, a) && 0 <= PageOf(c, a) < |b.page|
    && b.page[PageOf(c, a)].kind == Slab && IsSlot(c, a, b.page[PageOf(c, a)].lines)
  }

  /** a may stand in the free list of class n. */
  ghost predicate FreeObject(c: Config, b: Books, n: nat, a: Addr)
    requires Shape(c, b)
  {
    && InHeap(c, a) && 0 <= PageOf(c, a) < |b.page| && a !in b.live
    && if n == 0 then b.page[PageOf(c, a)].kind == Free && Offset(c, a) == 0
       else Placed(c, b, a) && b.page[PageOf(c, a)].lines == n
  }

  ghost function LiveIn(c: Config, live: set<Addr>, p: int): set<Addr> {
    set a | a in live && PageOf(c, a) == p
  }

  ghost function LiveOfClass(c: Config, b: Books, n: nat): set<Addr>
    requires Shape(c, b)
  {
    set a | a in b.live && 0 <= PageOf(c, a) < |b.page| && b.page[PageOf(c, a)].lines == n
  }

  ghost function UsedPages(page: seq<PageDesc>): set<int> {
    set p | 0 <= p < |page| && page[p].kind == Slab
  }

  ghost predicate FreeListsOk(c: Config, b: Books)
    requires Shape(c, b)
  {
    forall n, a :: 0 <= n < |b.free| && a in b.free[n] ==> FreeObject(c, b, n, a)
  }

  /** Every slot of every cut page is live or in the free list of its class, never neither. */
  ghost predicate Covered(c: Config, b: Books)
    requires Shape(c, b)
  {
    && (forall a :: a in b.live ==> Placed(c, b, a))
    && (forall a :: Placed(c, b, a) ==>
          a in b.live || (b.page[PageOf(c, a)].lines > 0 && a in b.free[b.page[PageOf(c, a)].lines]))
    && (forall p :: 0 <= p < |b.page| && b.page[p].kind == Free ==>
          b.page[p] == FREE_PAGE && PageAddr(c, p) in b.free[0])
  }

  /** A page in use holds a live object, and nbused counts them modulo 256. */
  ghost predicate UseOk(c: Config, b: Books)
    requires Shape(c, b)
  {
    forall p :: 0 <= p < |b.page| && b.page[p].kind == Slab ==>
      LiveIn(c, b.live, p) != {} && b.page[p].nbused == |LiveIn(c, b.live, p)| % 256
  }

  ghost predicate Counted(c: Config, b: Books)
    requires Shape(c, b)
  {
    && b.count[0] == |UsedPages(b.page)|
    && forall n :: 0 < n < |b.count| ==> b.count[n] == |LiveOfClass(c, b, n)|
  }

  ghost predicate Inv(c: Config, b: Books) {
    && Shape(c, b) && 0 < Classes(c)
    && FreeListsOk(c, b) && Covered(c, b) && UseOk(c, b) && Counted(c, b)
    && (forall n :: 0 <= n < |b.free| ==> Distinct(b.free[n]))
  }

  // ---- Facts every state has -----------------------------------------------------------------

  /** The free lists share no object, and no object sits where a list root does. */
  ghost predicate Apart(c: Config, free: seq<seq<Addr>>) {
    && (forall m, n, a :: 0 <= m < |free| && 0 <= n < |free| && m != n && a in free[m] ==> a !in free[n])
    && (forall n, a :: 0 <= n < |free| && a in free[n] ==> a >= c.kmb)
  }

  lemma FreeListsApart(c: Config, b: Books)
    requires Inv(c, b)
    ensures Apart(c, b.free)
  {
    forall m, n, a | 0 <= m < |b.free| && 0 <= n < |b.free| && m != n && a in b.free[m]
      ensures a !in b.free[n]
    {
      assert FreeObject(c, b, m, a);
      assert a in b.free[n] ==> FreeObject(c, b, n, a);
    }
    forall n, a | 0 <= n < |b.free| && a in b.free[n]
      ensures a >= c.kmb
    {
      assert FreeObject(c, b, n, a);
    }
  }

  /** Number of bytes of the live object at a. */
  ghost function ObjectSize(c: Config, b: Books, a: Addr): nat
    requires Shape(c, b) && Placed(c, b, a)
  {
    Size(c, b.page[PageOf(c, a)].lines)
  }

  /** Two objects placed by the allocator, live or free, never overlap. */
  lemma ObjectsDisjoint(c: Config, b: Books, x: Addr, y: Addr)
    requires Shape(c, b) && Placed(c, b, x) && Placed(c, b, y) && x != y
    ensures x + ObjectSize(c, b, x) <= y || y + ObjectSize(c, b, y) <= x
  {
    PageIndexInHeap(c, x);
    PageIndexInHeap(c, y);
    if PageOf(c, x) == PageOf(c, y) {
      SlotsDisjoint(c, x, y, b.page[PageOf(c, x)].lines);
    }
  }

  /** When nothing is live every page is in Slab[0], every list of objects is empty, every counter is 0. */
  lemma NothingLiveNothingUsed(c: Config, b: Books)
    requires Inv(c, b) && b.live == {}
    ensures forall p :: 0 <= p < c.nbPages ==> b.page[p] == FREE_PAGE && PageAddr(c, p) in b.free[0]
    ensures forall n :: 0 < n < |b.free| ==> b.free[n] == []
    ensures forall n :: 0 <= n < |b.count| ==> b.count[n] == 0
  {
    forall p | 0 <= p < c.nbPages
      ensures b.page[p].kind == Free
    {
      assert LiveIn(c, b.live, p) == {};
    }
    assert UsedPages(b.page) == {};
    forall n | 0 < n < |b.free|
      ensures b.free[n] == [] && b.count[n] == 0
    {
      assert LiveOfClass(c, b, n) == {};
      assert b.free[n] != [] ==> FreeObject(c, b, n, b.free[n][0]);
    }
  }

  ghost function AllSlots(c: Config, p: int, n: nat, k: nat): set<Addr> {
    set i | 0 <= i < k :: SlotAddr(c, p, n, i)
  }

  lemma {:induction false} AllSlotsSize(c: Config, p: int, n: nat, k: nat)
    ensures |AllSlots(c, p, n, k)| <= k
  {
    if k > 0 {
      AllSlotsSize(c, p, n, k - 1);
      assert AllSlots(c, p, n, k) == AllSlots(c, p, n, k - 1) + {SlotAddr(c, p, n, k - 1)};
    } else {
      assert AllSlots(c, p, n, 0) == {};
    }
  }

  /** A page never has more live objects than slots, at most 256. */
  lemma LiveInBound(c: Config, b: Books, p: int)
    requires Inv(c, b) && 0 <= p < c.nbPages && b.page[p].kind == Slab
    ensures 1 <= |LiveIn(c, b.live, p)| <= 256
  {
    var n := b.page[p].lines;
    SlotCountBound(c, n);
    var live, slots := LiveIn(c, b.live, p), AllSlots(c, p, n, SlotCount(c, n));
    forall a | a in live
      ensures a in slots
    {
      assert Placed(c, b, a);
      var k := SlotNumber(c, a, n);
    }
    SubsetSize(live, slots);
    AllSlotsSize(c, p, n, SlotCount(c, n));
  }

  lemma {:induction false} SubsetSize<T>(x: set<T>, y: set<T>)
    requires x <= y
    ensures |x| <= |y|
    decreases x
  {
    if x != {} {
      var e :| e in x;
      SubsetSize(x - {e}, y - {e});
    }
  }

  // ---- Taking an object out of a free list -----------------------------------------------------

  /** kmalloc's last part: the first object of class n becomes live. */
  ghost function Taken(c: Config, b: Books, n: nat): Books
    requires Shape(c, b) && n < |b.free| && b.free[n] != []
    requires 0 <= PageOf(c, b.free[n][0]) < |b.page|
  {
    var a := b.free[n][0];
    var p := PageOf(c, a);
    Books(b.page[p := PageDesc(Slab, n, (b.page[p].nbused + 1) % 256)],
          b.count[n := b.count[n] + 1],
          b.free[n := b.free[n][1..]],
          b.live + {a})
  }

  lemma TakenPlacement(c: Config, b: Books, n: nat)
    requires Inv(c, b) && n < |b.free| && b.free[n] != []
    ensures FreeObject(c, b, n, b.free[n][0])
    ensures var b' := Taken(c, b, n); Shape(c, b') && Placed(c, b', b.free[n][0])
    ensures var b' := Taken(c, b, n); forall x :: Placed(c, b', x) <==> Placed(c, b, x) || x == b.free[n][0]
  {
    var a := b.free[n][0];
    assert FreeObject(c, b, n, a);
    var p := PageOf(c, a);
    var b' := Taken(c, b, n);
    if n == 0 {
      forall x | InHeap(c, x) && PageOf(c, x) == p && IsSlot(c, x, 0)
        ensures x == a
      {
        PageIndexInHeap(c, x);
        PageIndexInHeap(c, a);
      }
    }
  }

  lemma TakenFreeLists(c: Config, b: Books, n: nat)
    requires Inv(c, b) && n < |b.free| && b.free[n] != []
    requires 0 <= PageOf(c, b.free[n][0]) < |b.page|
    ensures var b' := Taken(c, b, n); Shape(c, b') && FreeListsOk(c, b')
  {
    TakenPlacement(c, b, n);
    FreeListsApart(c, b);
    var a := b.free[n][0];
    var p, b' := PageOf(c, a), Taken(c, b, n);
    forall m, x | 0 <= m < |b'.free| && x in b'.free[m]
      ensures FreeObject(c, b', m, x)
    {
      assert x in b.free[m] && x != a;
      assert FreeObject(c, b, m, x);
      if m == 0 && PageOf(c, x) == p {
        PageIndexInHeap(c, x);
        PageIndexInHeap(c, a);
      }
    }
  }

  lemma TakenCovered(c: Config, b: Books, n: nat)
    requires Inv(c, b) && n < |b.free| && b.free[n] != []
    requires 0 <= PageOf(c, b.free[n][0]) < |b.page|
    ensures var b' := Taken(c, b, n); Shape(c, b') && Covered(c, b')
  {
    TakenPlacement(c, b, n);
    var a := b.free[n][0];
    var p, b' := PageOf(c, a), Taken(c, b, n);
    forall x | Placed(c, b', x)
      ensures x in b'.live || (b'.page[PageOf(c, x)].lines > 0 && x in b'.free[b'.page[PageOf(c, x)].lines])
    {
      assert x != a ==> Placed(c, b, x);
    }
    forall q | 0 <= q < |b'.page| && b'.page[q].kind == Free
      ensures b'.page[q] == FREE_PAGE && PageAddr(c, q) in b'.free[0]
    {
      assert q != p && b.page[q] == FREE_PAGE && PageAddr(c, q) in b.free[0];
      assert PageOf(c, PageAddr(c, q)) == q;
    }
  }

  lemma OneMoreUsed(n: nat)
    ensures (n % 256 + 1) % 256 == (n + 1) % 256
  {
  }

  lemma TakenUse(c: Config, b: Books, n: nat, a: Addr, p: int)
    requires Shape(c, b) && UseOk(c, b)
    requires n < |b.free| && b.free[n] != [] && a == b.free[n][0] && a !in b.live
    requires p == PageOf(c, a) && 0 <= p < |b.page|
    requires b.page[p].kind == Free ==> b.page[p].nbused == 0 && LiveIn(c, b.live, p) == {}
    ensures var b' := Taken(c, b, n); Shape(c, b') && UseOk(c, b')
  {
    var b' := Taken(c, b, n);
    hide PageOf;
    assert LiveIn(c, b'.live, p) == LiveIn(c, b.live, p) + {a};
    OneMoreUsed(|LiveIn(c, b.live, p)|);
    forall q | 0 <= q < |b'.page| && q != p
      ensures LiveIn(c, b'.live, q) == LiveIn(c, b.live, q)
    {
    }
  }

  lemma TakenLiveOfClass(c: Config, b: Books, n: nat, a: Addr, p: int, m: nat)
    requires Shape(c, b)
    requires n < |b.free| && b.free[n] != [] && a == b.free[n][0] && a !in b.live
    requires p == PageOf(c, a) && 0 <= p < |b.page| && b.page[p].lines == n
    ensures Shape(c, Taken(c, b, n))
    ensures |LiveOfClass(c, Taken(c, b, n), m)| == |LiveOfClass(c, b, m)| + (if m == n then 1 else 0)
  {
    var b' := Taken(c, b, n);
    assert forall q :: 0 <= q < |b.page| ==> b'.page[q].lines == b.page[q].lines;
    assert LiveOfClass(c, b', m) == LiveOfClass(c, b, m) + (if m == n then {a} else {});
  }

  /** Marking page p as used adds it to the used pages, if it was not one. */
  lemma UsedPagesAdd(page: seq<PageDesc>, p: int, d: PageDesc)
    requires 0 <= p < |page| && d.kind == Slab
    ensures |UsedPages(page[p := d])| == |UsedPages(page)| + (if page[p].kind == Free then 1 else 0)
  {
    assert UsedPages(page[p := d]) == UsedPages(page) + {p};
    assert p in UsedPages(page) <==> page[p].kind == Slab;
    assert p in UsedPages(page) ==> UsedPages(page) + {p} == UsedPages(page);
  }

  lemma TakenCounted(c: Config, b: Books, n: nat, a: Addr, p: int)
    requires Shape(c, b) && Counted(c, b)
    requires n < |b.free| && b.free[n] != [] && a == b.free[n][0] && a !in b.live
    requires p == PageOf(c, a) && 0 <= p < |b.page|
    requires b.page[p].kind == Free <==> n == 0
    requires b.page[p].lines == n
    ensures Shape(c, Taken(c, b, n)) && Counted(c, Taken(c, b, n))
  {
    var b' := Taken(c, b, n);
    UsedPagesAdd(b.page, p, b'.page[p]);
    assert Shape(c, b');
    forall m | 0 < m < |b'.count|
      ensures b'.count[m] == |LiveOfClass(c, b', m)|
    {
      TakenLiveOfClass(c, b, n, a, p, m);
    }
  }

  lemma TakenKeepsInv(c: Config, b: Books, n: nat)
    requires Inv(c, b) && n < |b.free| && b.free[n] != []
    ensures 0 <= PageOf(c, b.free[n][0]) < |b.page|
    ensures Inv(c, Taken(c, b, n))
  {
    TakenPlacement(c, b, n);
    TakenFreeLists(c, b, n);
    TakenCovered(c, b, n);
    var a := b.free[n][0];
    var p := PageOf(c, a);
    if n == 0 {
      forall x | x in b.live ensures PageOf(c, x) != p { assert Placed(c, b, x); }
      assert LiveIn(c, b.live, p) == {};
    }
    TakenUse(c, b, n, a, p);
    TakenCounted(c, b, n, a, p);
  }

  // ---- Cutting a page into objects ---------------------------------------------------------------

  /** The objects of page p cut for class n, in address order. */
  ghost function Slots(c: Config, p: int, n: nat): seq<Addr>
    requires Size(c, n) > 0
  {
    seq(SlotCount(c, n), k => SlotAddr(c, p, n, k))
  }

  /** Page p, handed out whole as object a, is cut for class n; its first slot (also a) is taken. */
  ghost function Carved(c: Config, b: Books, n: nat, p: int): Books
    requires Shape(c, b) && 0 < n < |b.free| && 0 <= p < |b.page| && Size(c, n) > 0 && SlotCount(c, n) > 0
  {
    Books(b.page[p := PageDesc(Slab, n, 1)],
          b.count[n := b.count[n] + 1],
          b.free[n := Slots(c, p, n)[1..]],
          b.live)
  }

  ghost predicate Carvable(c: Config, b: Books, n: nat, p: int) {
    && Inv(c, b) && 0 < n < |b.free| && b.free[n] == []
    && 0 <= p < |b.page| && b.page[p].kind == Slab && b.page[p].lines == 0
    && Size(c, n) > 0 && SlotCount(c, n) > 0
  }

  /** A page handed out whole holds one object, at its first byte. */
  lemma WholePage(c: Config, b: Books, p: int)
    requires Inv(c, b) && 0 <= p < |b.page| && b.page[p].kind == Slab && b.page[p].lines == 0
    ensures LiveIn(c, b.live, p) == {PageAddr(c, p)}
  {
    forall x | x in b.live && PageOf(c, x) == p
      ensures x == PageAddr(c, p)
    {
      assert Placed(c, b, x);
      PageIndexInHeap(c, x);
    }
    var x :| x in LiveIn(c, b.live, p);
  }

  lemma CarvedSlot(c: Config, b: Books, n: nat, p: int, k: nat)
    requires Carvable(c, b, n, p) && k < SlotCount(c, n)
    ensures Shape(c, Carved(c, b, n, p))
    ensures Placed(c, Carved(c, b, n, p), SlotAddr(c, p, n, k)) && PageOf(c, SlotAddr(c, p, n, k)) == p
    ensures k > 0 ==> SlotAddr(c, p, n, k) !in b.live
  {
    SlotInPage(c, p, n, k);
    WholePage(c, b, p);
    MulSign(k, Size(c, n));
    assert SlotAddr(c, p, n, k) in b.live ==> SlotAddr(c, p, n, k) in LiveIn(c, b.live, p);
  }

  lemma CarvedFreeLists(c: Config, b: Books, n: nat, p: int)
    requires Carvable(c, b, n, p)
    ensures var b' := Carved(c, b, n, p); Shape(c, b') && FreeListsOk(c, b')
  {
    var b' := Carved(c, b, n, p);
    forall m, x | 0 <= m < |b'.free| && x in b'.free[m]
      ensures FreeObject(c, b', m, x)
    {
      if m == n {
        var k :| 0 <= k < |Slots(c, p, n)[1..]| && Slots(c, p, n)[1..][k] == x;
        CarvedSlot(c, b, n, p, k + 1);
      } else {
        assert FreeObject(c, b, m, x);
      }
    }
  }

  lemma {:induction false} SlotsDistinct(c: Config, p: int, n: nat)
    requires Size(c, n) > 0
    ensures Distinct(Slots(c, p, n))
  {
    forall i, j | 0 <= i < j < SlotCount(c, n)
      ensures SlotAddr(c, p, n, i) != SlotAddr(c, p, n, j)
    {
      Distribute(j, i, Size(c, n));
      MulSign(j - i, Size(c, n));
    }
  }

  lemma CarvedLiveOfClass(c: Config, b: Books, n: nat, p: int, m: nat)
    requires Shape(c, b) && 0 < n < |b.free| && 0 <= p < |b.page| && Size(c, n) > 0 && SlotCount(c, n) > 0
    requires b.page[p].lines == 0 && 0 < m
    ensures Shape(c, Carved(c, b, n, p))
    ensures LiveOfClass(c, Carved(c, b, n, p), m) ==
            LiveOfClass(c, b, m) + (if m == n then LiveIn(c, b.live, p) else {})
    ensures LiveOfClass(c, b, m) !! LiveIn(c, b.live, p)
  {
  }

  lemma CarvedLivePlaced(c: Config, b: Books, n: nat, p: int, x: Addr)
    requires Carvable(c, b, n, p) && x in b.live
    ensures Shape(c, Carved(c, b, n, p)) && Placed(c, Carved(c, b, n, p), x)
  {
    WholePage(c, b, p);
    CarvedSlot(c, b, n, p, 0);
    assert Placed(c, b, x);
    assert PageOf(c, x) == p ==> x in LiveIn(c, b.live, p);
  }

  lemma CarvedSlotAccounted(c: Config, b: Books, n: nat, p: int, x: Addr)
    requires Carvable(c, b, n, p)
    requires Shape(c, Carved(c, b, n, p)) && Placed(c, Carved(c, b, n, p), x) && PageOf(c, x) == p
    ensures x in b.live || x in Slots(c, p, n)[1..]
  {
    var k := SlotNumber(c, x, n);
    if k == 0 {
      WholePage(c, b, p);
      assert PageAddr(c, p) in LiveIn(c, b.live, p);
    } else {
      assert Slots(c, p, n)[1..][k - 1] == x;
    }
  }

  lemma CarvedCovered(c: Config, b: Books, n: nat, p: int)
    requires Carvable(c, b, n, p)
    ensures var b' := Carved(c, b, n, p); Shape(c, b') && Covered(c, b')
  {
    var b' := Carved(c, b, n, p);
    forall x | x in b.live
      ensures Placed(c, b', x)
    {
      CarvedLivePlaced(c, b, n, p, x);
    }
    hide PageAddr, Slots, SlotCount, Size;
    forall x | Placed(c, b', x)
      ensures x in b'.live || (b'.page[PageOf(c, x)].lines > 0 && x in b'.free[b'.page[PageOf(c, x)].lines])
    {
      if PageOf(c, x) == p {
        CarvedSlotAccounted(c, b, n, p, x);
      } else {
        assert Placed(c, b, x);
      }
    }
  }

  lemma CarvedUse(c: Config, b: Books, n: nat, p: int)
    requires Shape(c, b) && UseOk(c, b)
    requires 0 < n < |b.free| && 0 <= p < |b.page| && Size(c, n) > 0 && SlotCount(c, n) > 0
    requires LiveIn(c, b.live, p) == {PageAddr(c, p)}
    ensures Shape(c, Carved(c, b, n, p)) && UseOk(c, Carved(c, b, n, p))
  {
  }

  lemma CarvedCounted(c: Config, b: Books, n: nat, p: int)
    requires Shape(c, b) && Counted(c, b)
    requires 0 < n < |b.free| && 0 <= p < |b.page| && Size(c, n) > 0 && SlotCount(c, n) > 0
    requires b.page[p].kind == Slab && b.page[p].lines == 0
    requires |LiveIn(c, b.live, p)| == 1
    ensures Shape(c, Carved(c, b, n, p)) && Counted(c, Carved(c, b, n, p))
  {
    var b' := Carved(c, b, n, p);
    UsedPagesAdd(b.page, p, b'.page[p]);
    forall m | 0 < m < |b'.count|
      ensures b'.count[m] == |LiveOfClass(c, b', m)|
    {
      CarvedLiveOfClass(c, b, n, p, m);
    }
  }

  lemma CarvedKeepsInv(c: Config, b: Books, n: nat, p: int)
    requires Carvable(c, b, n, p)
    ensures Inv(c, Carved(c, b, n, p))
  {
    CarvedFreeLists(c, b, n, p);
    CarvedCovered(c, b, n, p);
    WholePage(c, b, p);
    CarvedUse(c, b, n, p);
    CarvedCounted(c, b, n, p);
    SlotsDistinct(c, p, n);
  }

  // ---- Giving an object back ---------------------------------------------------------------------

  /** kfree of an object whose page keeps other live objects. */
  ghost function Given(c: Config, b: Books, a: Addr): Books
    requires Shape(c, b) && Placed(c, b, a)
  {
    var p := PageOf(c, a);
    var n := b.page[p].lines;
    Books(b.page[p := b.page[p].(nbused := (b.page[p].nbused + 255) % 256)],
          b.count[n := b.count[n] - 1],
          b.free[n := [a] + b.free[n]],
          b.live - {a})
  }

  lemma OneLess<T>(x: set<T>, e: T)
    requires e in x
    ensures |x - {e}| == |x| - 1
    ensures |x| == 1 <==> x == {e}
  {
    assert x == (x - {e}) + {e};
  }

  /** Decrementing an 8-bit counter of k objects. */
  lemma ByteDecrement(k: nat)
    requires k > 0
    ensures (k % 256 + 255) % 256 == (k - 1) % 256
    ensures k <= 256 ==> ((k - 1) % 256 == 0 <==> k == 1)
  {
  }

  lemma GivenUse(c: Config, b: Books, a: Addr)
    requires Shape(c, b) && UseOk(c, b) && a in b.live && Placed(c, b, a)
    requires |LiveIn(c, b.live, PageOf(c, a))| > 1
    ensures var b' := Given(c, b, a); Shape(c, b') && UseOk(c, b')
  {
    var p, b' := PageOf(c, a), Given(c, b, a);
    var was := LiveIn(c, b.live, p);
    assert LiveIn(c, b'.live, p) == was - {a} && a in was;
    OneLess(was, a);
    ByteDecrement(|was|);
    forall q | 0 <= q < |b'.page| && q != p
      ensures LiveIn(c, b'.live, q) == LiveIn(c, b.live, q)
    {
    }
  }

  lemma GivenLiveOfClass(c: Config, b: Books, a: Addr, m: nat)
    requires Shape(c, b) && a in b.live && Placed(c, b, a)
    ensures Shape(c, Given(c, b, a))
    ensures |LiveOfClass(c, Given(c, b, a), m)| ==
            |LiveOfClass(c, b, m)| - (if m == b.page[PageOf(c, a)].lines then 1 else 0)
  {
    var b', n := Given(c, b, a), b.page[PageOf(c, a)].lines;
    assert forall q :: 0 <= q < |b.page| ==> b'.page[q].lines == b.page[q].lines;
    assert LiveOfClass(c, b', m) == LiveOfClass(c, b, m) - (if m == n then {a} else {});
    assert m == n ==> a in LiveOfClass(c, b, m);
  }

  lemma GivenCounted(c: Config, b: Books, a: Addr)
    requires Shape(c, b) && Counted(c, b)
    requires a in b.live && Placed(c, b, a) && b.page[PageOf(c, a)].lines > 0
    ensures Shape(c, Given(c, b, a)) && Counted(c, Given(c, b, a))
  {
    var p, b' := PageOf(c, a), Given(c, b, a);
    UsedPagesAdd(b.page, p, b'.page[p]);
    assert Shape(c, b');
    forall m | 0 < m < |b'.count|
      ensures b'.count[m] == |LiveOfClass(c, b', m)|
    {
      GivenLiveOfClass(c, b, a, m);
    }
  }

  lemma GivenFreeLists(c: Config, b: Books, a: Addr)
    requires Inv(c, b) && a in b.live && Placed(c, b, a) && b.page[PageOf(c, a)].lines > 0
    ensures Shape(c, Given(c, b, a)) && FreeListsOk(c, Given(c, b, a))
    ensures var b' := Given(c, b, a); forall n :: 0 <= n < |b'.free| ==> Distinct(b'.free[n])
  {
    var p, b' := PageOf(c, a), Given(c, b, a);
    var n := b.page[p].lines;
    forall m, x | 0 <= m < |b'.free| && x in b'.free[m]
      ensures FreeObject(c, b', m, x)
    {
      if x == a && m == n {
      } else {
        assert FreeObject(c, b, m, x);
      }
    }
    assert a in b.free[n] ==> FreeObject(c, b, n, a);
  }

  lemma GivenCovered(c: Config, b: Books, a: Addr)
    requires Shape(c, b) && Covered(c, b) && 0 < |b.free|
    requires a in b.live && Placed(c, b, a) && b.page[PageOf(c, a)].lines > 0
    ensures Shape(c, Given(c, b, a)) && Covered(c, Given(c, b, a))
  {
    var b' := Given(c, b, a);
    forall x | Placed(c, b', x)
      ensures x in b'.live || (b'.page[PageOf(c, x)].lines > 0 && x in b'.free[b'.page[PageOf(c, x)].lines])
    {
      assert Placed(c, b, x);
    }
    forall x | x in b'.live
      ensures Placed(c, b', x)
    {
      assert Placed(c, b, x);
    }
  }

  lemma GivenKeepsInv(c: Config, b: Books, a: Addr)
    requires Inv(c, b) && a in b.live && Placed(c, b, a) && b.page[PageOf(c, a)].lines > 0
    requires |LiveIn(c, b.live, PageOf(c, a))| > 1
    ensures Inv(c, Given(c, b, a))
  {
    GivenUse(c, b, a);
    GivenFreeLists(c, b, a);
    GivenCovered(c, b, a);
    GivenCounted(c, b, a);
  }

  /** The objects of s that do not lie in page p. */
  ghost function Keep(c: Config, s: seq<Addr>, p: int): seq<Addr> {
    if s == [] then []
    else (if PageOf(c, s[0]) == p then [] else [s[0]]) + Keep(c, s[1..], p)
  }

  lemma {:induction false} KeepContents(c: Config, s: seq<Addr>, p: int)
    requires Distinct(s)
    ensures Distinct(Keep(c, s, p))
    ensures forall x :: x in Keep(c, s, p) <==> x in s && PageOf(c, x) != p
  {
    if s != [] {
      KeepContents(c, s[1..], p);
      assert s == [s[0]] + s[1..];
    }
  }

  lemma {:induction false} KeepSnoc(c: Config, s: seq<Addr>, x: Addr, p: int)
    ensures Keep(c, s + [x], p) == Keep(c, s, p) + (if PageOf(c, x) == p then [] else [x])
  {
    if s != [] {
      KeepSnoc(c, s[1..], x, p);
      assert (s + [x])[1..] == s[1..] + [x];
    }
  }

  /** kfree of the last live object a of its page: the page goes back to Slab[0]. */
  ghost function Returned(c: Config, b: Books, a: Addr): Books
    requires Shape(c, b) && Placed(c, b, a) && |b.free| > 0
  {
    var p := PageOf(c, a);
    var n := b.page[p].lines;
    var count := if n > 0 then b.count[n := b.count[n] - 1] else b.count;
    var free := if n > 0 then b.free[n := Keep(c, b.free[n], p)] else b.free;
    Books(b.page[p := FREE_PAGE],
          count[0 := count[0] - 1],
          free[0 := [PageAddr(c, p)] + free[0]],
          b.live - {a})
  }

  ghost predicate LastOfPage(c: Config, b: Books, a: Addr) {
    Inv(c, b) && a in b.live && Placed(c, b, a) && LiveIn(c, b.live, PageOf(c, a)) == {a}
  }

  lemma ReturnedDistinct(c: Config, b: Books, a: Addr)
    requires LastOfPage(c, b, a)
    ensures var b' := Returned(c, b, a); forall n :: 0 <= n < |b'.free| ==> Distinct(b'.free[n])
  {
    var p := PageOf(c, a);
    KeepContents(c, b.free[b.page[p].lines], p);
    assert PageOf(c, PageAddr(c, p)) == p;
    assert PageAddr(c, p) in b.free[0] ==> FreeObject(c, b, 0, PageAddr(c, p));
  }

  lemma ReturnedFreeLists(c: Config, b: Books, a: Addr)
    requires LastOfPage(c, b, a)
    ensures var b' := Returned(c, b, a); Shape(c, b') && FreeListsOk(c, b')
  {
    var p, b' := PageOf(c, a), Returned(c, b, a);
    var home := PageAddr(c, p);
    OffsetInPage(c, p, 0);
    assert home in b.live ==> home in LiveIn(c, b.live, p);
    KeepContents(c, b.free[b.page[p].lines], p);
    forall m, x | 0 <= m < |b'.free| && x in b'.free[m]
      ensures FreeObject(c, b', m, x)
    {
      if m == 0 && x == home {
      } else {
        assert x in b.free[m];
        assert FreeObject(c, b, m, x);
      }
    }
  }

  lemma ReturnedCovered(c: Config, b: Books, a: Addr)
    requires LastOfPage(c, b, a)
    ensures var b' := Returned(c, b, a); Shape(c, b') && Covered(c, b')
  {
    var p, b' := PageOf(c, a), Returned(c, b, a);
    ReturnedPlaced(c, b, a);
    forall x | x in b'.live
      ensures Placed(c, b', x)
    {
      assert PageOf(c, x) == p ==> x in LiveIn(c, b.live, p);
    }
    hide Placed;
    forall x | Placed(c, b', x)
      ensures x in b'.live || (b'.page[PageOf(c, x)].lines > 0 && x in b'.free[b'.page[PageOf(c, x)].lines])
    {
      ReturnedAccounted(c, b, a, x);
    }
  }

  lemma ReturnedPlaced(c: Config, b: Books, a: Addr)
    requires LastOfPage(c, b, a)
    ensures var b' := Returned(c, b, a);
            Shape(c, b') && forall x :: Placed(c, b', x) <==> Placed(c, b, x) && PageOf(c, x) != PageOf(c, a)
  {
    assert Shape(c, b) && |b.free| > 0;
    hide Inv;
    var b' := Returned(c, b, a);
    assert b.page[PageOf(c, a)].kind == Slab;
    forall x
      ensures Placed(c, b', x) <==> Placed(c, b, x) && PageOf(c, x) != PageOf(c, a)
    {
    }
  }

  lemma ReturnedAccounted(c: Config, b: Books, a: Addr, x: Addr)
    requires LastOfPage(c, b, a) && Placed(c, b, x) && PageOf(c, x) != PageOf(c, a)
    ensures var b' := Returned(c, b, a);
            x in b'.live || (b'.page[PageOf(c, x)].lines > 0 && x in b'.free[b'.page[PageOf(c, x)].lines])
  {
    var p := PageOf(c, a);
    KeepContents(c, b.free[b.page[p].lines], p);
  }

  lemma ReturnedUse(c: Config, b: Books, a: Addr)
    requires Shape(c, b) && UseOk(c, b) && |b.free| > 0 && Placed(c, b, a)
    ensures Shape(c, Returned(c, b, a)) && UseOk(c, Returned(c, b, a))
  {
    var p, b' := PageOf(c, a), Returned(c, b, a);
    forall q | 0 <= q < |b'.page| && q != p
      ensures LiveIn(c, b'.live, q) == LiveIn(c, b.live, q)
    {
    }
  }

  lemma ReturnedCounted(c: Config, b: Books, a: Addr)
    requires Shape(c, b) && Counted(c, b) && |b.free| > 0
    requires a in b.live && Placed(c, b, a) && LiveIn(c, b.live, PageOf(c, a)) == {a}
    ensures Shape(c, Returned(c, b, a)) && Counted(c, Returned(c, b, a))
  {
    var p, b' := PageOf(c, a), Returned(c, b, a);
    var n := b.page[p].lines;
    assert UsedPages(b'.page) == UsedPages(b.page) - {p};
    assert p in UsedPages(b.page);
    forall m | 0 < m < |b'.count|
      ensures b'.count[m] == |LiveOfClass(c, b', m)|
    {
      ReturnedLiveOfClass(c, b, a, m);
      assert m == n ==> a in LiveOfClass(c, b, m);
    }
  }

  lemma ReturnedLiveOfClass(c: Config, b: Books, a: Addr, m: nat)
    requires Shape(c, b) && |b.free| > 0 && a in b.live && Placed(c, b, a) && LiveIn(c, b.live, PageOf(c, a)) == {a}
    requires m > 0
    ensures Shape(c, Returned(c, b, a))
    ensures LiveOfClass(c, Returned(c, b, a), m) ==
            LiveOfClass(c, b, m) - (if m == b.page[PageOf(c, a)].lines then {a} else {})
  {
    var b', p := Returned(c, b, a), PageOf(c, a);
    forall x | x in b.live && x != a
      ensures PageOf(c, x) != p
    {
      assert PageOf(c, x) == p ==> x in LiveIn(c, b.live, p);
    }
  }

  lemma ReturnedKeepsInv(c: Config, b: Books, a: Addr)
    requires LastOfPage(c, b, a)
    ensures Inv(c, Returned(c, b, a))
  {
    ReturnedFreeLists(c, b, a);
    ReturnedDistinct(c, b, a);
    ReturnedCovered(c, b, a);
    ReturnedUse(c, b, a);
    ReturnedCounted(c, b, a);
  }

  /** The 8-bit counter reaches 0 exactly when the object given back was the page's last one. */
  lemma CounterReachesZero(c: Config, b: Books, a: Addr)
    requires Inv(c, b) && a in b.live && Placed(c, b, a)
    ensures (b.page[PageOf(c, a)].nbused + 255) % 256 == 0 <==> LiveIn(c, b.live, PageOf(c, a)) == {a}
    ensures b.page[PageOf(c, a)].lines == 0 ==> LiveIn(c, b.live, PageOf(c, a)) == {a} && a == PageAddr(c, PageOf(c, a))
  {
    var p := PageOf(c, a);
    LiveInBound(c, b, p);
    OneLess(LiveIn(c, b.live, p), a);
    ByteDecrement(|LiveIn(c, b.live, p)|);
    if b.page[p].lines == 0 {
      WholePage(c, b, p);
    }
  }
}
