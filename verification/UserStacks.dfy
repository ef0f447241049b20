/**
  The region of user stacks of kernel/kmemuser.c: stacks of one size grow downwards from a fixed
  boundary; freed stacks are kept in a ring sorted by address and threaded through their own last
  words, and the region shrinks when its lowest stack is freed.
*/
module UserStacks {
  import opened Ring

  const SIZE := 16 * 4096          // USTACK_SIZE, in bytes
  const MAGIC := 0xDEADF00D        // MAGIC_STACK
  const ROOT: Addr := -8           // the address of FreeUserStack

  // ---- The region --------------------------------------------------------------------------------

  /** The places of the stacks between the boundaries. */
  ghost predicate Place(beg: Addr, end: Addr, x: Addr) {
    end <= x < beg && (beg - x) % SIZE == 0
  }

  ghost predicate Ascending(s: seq<Addr>) {
    forall i, j :: 0 <= i < j < |s| ==> s[i] < s[j]
  }

  /** Every place is a live stack or once in the ascending free list, and the lowest is never free. */
  ghost predicate Region(beg: Addr, end: Addr, free: seq<Addr>, live: set<Addr>) {
    && 0 < end <= beg && beg % 4 == 0 && (beg - end) % SIZE == 0
    && Ascending(free)
    && (forall x :: x in free ==> Place(beg, end, x) && x != end)
    && (forall x :: x in live <==> Place(beg, end, x) && x !in free)
  }

  /** Different stacks do not overlap, and all lie between the boundaries. */
  lemma StacksApart(beg: Addr, end: Addr, free: seq<Addr>, live: set<Addr>, x: Addr, y: Addr)
    requires Region(beg, end, free, live) && x in live && (y in live || y in free) && x != y
    ensures end <= x && x + SIZE <= beg && (x + SIZE <= y || y + SIZE <= x)
  {
    assert Place(beg, end, x) && Place(beg, end, y);
  }

  /** Once no stack is live, the region is back at its start and the list is empty. */
  lemma AllFreed(beg: Addr, end: Addr, free: seq<Addr>, live: set<Addr>)
    requires Region(beg, end, free, live)
    ensures live == {} <==> end == beg
    ensures end == beg ==> free == []
  {
    if end < beg {
      assert Place(beg, end, end);
      assert end !in free;
      assert end in live;
    } else {
      forall x
        ensures x !in live
      {
        assert !Place(beg, end, x);
      }
      NoPlaces(beg, free);
    }
  }

  lemma NoPlaces(beg: Addr, s: seq<Addr>)
    requires forall x :: x in s ==> Place(beg, beg, x)
    ensures s == []
  {
    assert forall i :: 0 <= i < |s| ==> s[i] in s && Place(beg, beg, s[i]);
    assert |s| > 0 ==> Place(beg, beg, s[0]);
  }

  lemma FirstOnce(s: seq<Addr>)
    requires Ascending(s) && s != []
    ensures s[0] !in s[1..]
  {
  }

  lemma LastOnce(s: seq<Addr>)
    requires Ascending(s) && s != []
    ensures s[|s| - 1] !in s[..|s| - 1]
  {
  }

  // ---- Operations on the list --------------------------------------------------------------------

  /** The position list_addsort gives to x: before the first item that is not smaller. */
  function SortedPos(s: seq<Addr>, x: Addr): (k: nat)
    ensures k <= |s| && (forall i :: 0 <= i < k ==> s[i] < x) && (k < |s| ==> s[k] >= x)
  {
    if s == [] || s[0] >= x then 0
    else
      var r := SortedPos(s[1..], x);
      assert forall i :: 1 <= i < 1 + r ==> s[i] == s[1..][i - 1];
      1 + r
  }

  lemma SortedPosIs(s: seq<Addr>, x: Addr, k: nat)
    requires k <= |s| && (forall i :: 0 <= i < k ==> s[i] < x) && (k < |s| ==> s[k] >= x)
    ensures SortedPos(s, x) == k
  {
  }

  lemma InsertedAscending(s: seq<Addr>, x: Addr)
    requires Ascending(s) && x !in s
    ensures Ascending(InsertAt(s, SortedPos(s, x), x))
  {
    var k := SortedPos(s, x);
    var t := InsertAt(s, k, x);
    forall i, j | 0 <= i < j < |t|
      ensures t[i] < t[j]
    {
      var a, b := (if i > k then i - 1 else i), (if j > k then j - 1 else j);
      if i != k && j != k {
        assert t[i] == s[a] && t[j] == s[b];
      } else if i == k {
        assert t[j] == s[b];
        assert s[k] > x by {
          assert s[k] in s;
        }
        assert b > k ==> s[k] < s[b];
      }
    }
  }

  /** The boundary and the list after free stacks at the boundary have been given back. */
  datatype Shrink = Shrink(end: Addr, free: seq<Addr>)

  function Shrunk(end: Addr, free: seq<Addr>): Shrink
    decreases |free|
  {
    if free != [] && free[0] == end then Shrunk(end + SIZE, free[1..]) else Shrink(end, free)
  }

  /** Every place from end on is live or free; the lowest may be free. */
  ghost predicate OpenRegion(beg: Addr, end: Addr, free: seq<Addr>, live: set<Addr>) {
    && 0 < end <= beg && beg % 4 == 0 && (beg - end) % SIZE == 0
    && Ascending(free)
    && (forall x :: x in free ==> Place(beg, end, x))
    && (forall x :: x in live <==> Place(beg, end, x) && x !in free)
  }

  lemma {:induction false} ShrunkRegion(beg: Addr, end: Addr, free: seq<Addr>, live: set<Addr>)
    requires OpenRegion(beg, end, free, live)
    ensures var r := Shrunk(end, free); Region(beg, r.end, r.free, live)
    decreases |free|
  {
    if free != [] && free[0] == end {
      ShrinkStep(beg, end, free, live);
      ShrunkRegion(beg, end + SIZE, free[1..], live);
    } else {
      forall x | x in free
        ensures x != end
      {
        assert Place(beg, end, x);
        var i :| 0 <= i < |free| && free[i] == x;
        assert i > 0 ==> free[0] < free[i];
        assert Place(beg, end, free[0]);
      }
    }
  }

  lemma ShrinkStep(beg: Addr, end: Addr, free: seq<Addr>, live: set<Addr>)
    requires OpenRegion(beg, end, free, live) && free != [] && free[0] == end
    ensures OpenRegion(beg, end + SIZE, free[1..], live)
  {
    assert Place(beg, end, free[0]);
    assert free == [free[0]] + free[1..];
    forall x | x in free[1..]
      ensures Place(beg, end + SIZE, x)
    {
      assert x in free;
      var i :| 0 <= i < |free[1..]| && free[1..][i] == x;
      assert free[0] < free[i + 1];
    }
    forall x
      ensures x in live <==> Place(beg, end + SIZE, x) && x !in free[1..]
    {
      PlaceAbove(beg, end, x);
      assert x in free <==> x == end || x in free[1..];
      FirstOnce(free);
    }
  }

  lemma PlaceAbove(beg: Addr, end: Addr, x: Addr)
    requires (beg - end) % SIZE == 0
    ensures Place(beg, end, x) && x != end ==> Place(beg, end + SIZE, x)
    ensures Place(beg, end + SIZE, x) ==> Place(beg, end, x) && x != end
  {
  }

  /** Freeing the lowest stack. */
  lemma LowestFreed(beg: Addr, end: Addr, free: seq<Addr>, live: set<Addr>)
    requires Region(beg, end, free, live) && end in live
    ensures OpenRegion(beg, end + SIZE, free, live - {end})
  {
    assert Place(beg, end, end);
    forall x | x in free
      ensures Place(beg, end + SIZE, x)
    {
      PlaceAbove(beg, end, x);
    }
    forall x
      ensures x in live - {end} <==> Place(beg, end + SIZE, x) && x !in free
    {
      PlaceAbove(beg, end, x);
    }
  }

  /** Freeing another stack. */
  lemma OtherFreed(beg: Addr, end: Addr, free: seq<Addr>, live: set<Addr>, x: Addr)
    requires Region(beg, end, free, live) && x in live && x != end
    ensures Region(beg, end, InsertAt(free, SortedPos(free, x), x), live - {x})
  {
    InsertedAscending(free, x);
    InsertAtContents(free, SortedPos(free, x), x);
  }

  /** Reusing the highest free stack. */
  lemma Reused(beg: Addr, end: Addr, free: seq<Addr>, live: set<Addr>)
    requires Region(beg, end, free, live) && free != []
    ensures var x := free[|free| - 1];
            x !in live && Region(beg, end, free[..|free| - 1], live + {x})
  {
    var n := |free| - 1;
    var x, rest := free[n], free[..n];
    assert free == rest + [x];
    LastOnce(free);
    forall y
      ensures y in live + {x} <==> Place(beg, end, y) && y !in rest
    {
      assert y in free <==> y in rest || y == x;
    }
  }

  /** Growing the region by one stack, when the list is empty. */
  lemma Grown(beg: Addr, end: Addr, live: set<Addr>)
    requires Region(beg, end, [], live) && end - SIZE > 0
    ensures end - SIZE !in live && Region(beg, end - SIZE, [], live + {end - SIZE})
  {
    var e := end - SIZE;
    forall y
      ensures y in live + {e} <==> Place(beg, e, y)
    {
      PlaceAbove(beg, e, y);
      assert e + SIZE == end;
      assert Place(beg, end, y) <==> y in live;
    }
  }

  // ---- The operations ----------------------------------------------------------------------------

  /** The links of the free list do not carry the magic number. */
  lemma LinkIsNotMagic(l: Links, beg: Addr, end: Addr, free: seq<Addr>, live: set<Addr>, x: Addr)
    requires Region(beg, end, free, live) && IsRing(l, ROOT, free) && x in free
    ensures x in l.next && l.next[x] != MAGIC
  {
    var i :| 0 <= i < |free| && free[i] == x;
    assert l.next[At(ROOT, free, i)] == At(ROOT, free, i + 1);
    if i + 1 < |free| {
      assert free[i + 1] in free;
      assert Place(beg, end, free[i + 1]);
    }
  }

  lemma RingWrite(l: Links, free: seq<Addr>, x: Addr, v: int)
    requires IsRing(l, ROOT, free) && x !in free && x != ROOT
    ensures IsRing(Links(l.next[x := v], l.prev), ROOT, free)
  {
    RingFrame(l, Links(l.next[x := v], l.prev), ROOT, free);
  }

  class Stacks {
    const links: LinkMemory     // the words at the low ends of stacks, which are also the list's links
    const beg: Addr             // __usermem.ustack_beg
    var end: Addr               // __usermem.ustack_end
    var heapEnd: Addr           // __usermem.uheap_end
    var tops: map<Addr, int>    // the words at the tops of stacks
    ghost var free: seq<Addr>
    ghost var live: set<Addr>

    ghost predicate Valid()
      reads this, links
    {
      && Region(beg, end, free, live) && IsRing(links.Val(), ROOT, free) && heapEnd > 0
      && (forall x :: x in live || x in free ==> x in links.next && x + SIZE - 4 in tops)
    }

    constructor (beg: Addr, heapEnd: Addr)
      requires beg > 0 && beg % 4 == 0 && heapEnd > 0
      ensures Valid() && this.beg == beg && this.heapEnd == heapEnd && end == beg && free == [] && live == {}
              && fresh(links)
    {
      links := new LinkMemory();
      this.beg, this.heapEnd, end, tops := beg, heapEnd, beg, map[];
      free, live := [], {};
      new;
      links.Init(ROOT);
    }

    /** Writing the two magic words of a stack. */
    method Tag(e: Addr)
      requires IsRing(links.Val(), ROOT, free) && e !in free && e > 0
      modifies this`tops, links
      ensures IsRing(links.Val(), ROOT, free)
      ensures links.next == old(links.next)[e := MAGIC] && tops == old(tops)[e + SIZE - 4 := MAGIC]
    {
      RingWrite(links.Val(), free, e, MAGIC);
      links.next := links.next[e := MAGIC];
      tops := tops[e + SIZE - 4 := MAGIC];
    }

    /** malloc_ustack: the highest free stack, or a new one below the others; false stands for a panic. */
    method MallocUstack() returns (ok: bool, top: Addr)
      requires Valid()
      modifies this`end, this`free, this`live, this`tops, links
      ensures ok <==> old(free) != [] || old(end) - SIZE >= heapEnd
      ensures !ok ==> end == old(end) && free == old(free) && live == old(live)
      ensures Valid()
      ensures ok ==>
                var e := top + 4 - SIZE;
                && e !in old(live) && live == old(live) + {e}
                && tops[top] == MAGIC && links.next[e] == MAGIC
                && (if old(free) != [] then e == old(free)[|old(free)| - 1] && free == old(free)[..|old(free)| - 1]
                     && end == old(end)
                    else e == old(end) - SIZE && end == e && free == [])
    {
      var none := links.IsEmpty(ROOT, free);
      if none {
        var e := end - SIZE;
        if e < heapEnd {
          return false, 0;
        }
        Grown(beg, end, live);
        end := e;
        live := live + {e};
        Tag(e);
        return true, e + SIZE - 4;
      }
      Reused(beg, end, free, live);
      ghost var n := |free| - 1;
      assert free[n] in free && Place(beg, end, free[n]);
      assert links.prev[At(ROOT, free, n + 1)] == At(ROOT, free, n);
      var e := links.prev[ROOT];
      UnlinkKeys(links.Val(), e);
      LastOnce(free);
      links.Unlink(e, ROOT, free, n);
      assert RemoveAt(free, n) == free[..n];
      free, live := free[..n], live + {e};
      Tag(e);
      return true, e + SIZE - 4;
    }

    /** list_addsort of a stack that is not in the list. */
    method AddSort(e: Addr)
      requires IsRing(links.Val(), ROOT, free) && e !in free && e != ROOT
      modifies links
      ensures IsRing(links.Val(), ROOT, InsertAt(free, SortedPos(free, e), e))
      ensures old(links.next).Keys <= links.next.Keys && e in links.next
    {
      ghost var i := 0;
      assert links.next[At(ROOT, free, -1)] == At(ROOT, free, 0);
      var curr := links.next[ROOT];
      while curr != ROOT
        invariant 0 <= i <= |free| && curr == At(ROOT, free, i)
        invariant forall j :: 0 <= j < i ==> free[j] < e
        decreases |free| - i
      {
        if curr >= e {
          SortedPosIs(free, e, i);
          assert links.prev[At(ROOT, free, i)] == At(ROOT, free, i - 1);
          links.AddAfter(links.prev[curr], e, ROOT, free, i);
          return;
        }
        assert links.next[At(ROOT, free, i)] == At(ROOT, free, i + 1);
        curr := links.next[curr];
        i := i + 1;
      }
      SortedPosIs(free, e, |free|);
      links.AddLast(ROOT, e, free);
      assert InsertAt(free, |free|, e) == free + [e];
    }

    /** The shrinking loop of free_ustack: free stacks at the boundary are given back. */
    method GiveBack()
      requires IsRing(links.Val(), ROOT, free) && Ascending(free) && forall x :: x in free ==> x > 0
      modifies this`end, this`free, links
      ensures Shrink(end, free) == Shrunk(old(end), old(free)) && IsRing(links.Val(), ROOT, free)
      ensures links.next.Keys == old(links.next).Keys && OthersKept(old(links.next), links.next, old(free))
    {
      hide IsRing;
      FirstOf(links.Val(), free);
      var stack := links.next[ROOT];
      while stack != ROOT
        invariant IsRing(links.Val(), ROOT, free) && ROOT in links.next && stack == At(ROOT, free, 0)
        invariant Shrunk(end, free) == Shrunk(old(end), old(free))
        invariant links.next.Keys == old(links.next).Keys && (forall x :: x in free ==> x > 0)
        invariant OthersKept(old(links.next), links.next, old(free)) && forall x :: x in free ==> x in old(free)
        decreases |free|
      {
        if stack != end {
          break;
        }
        FirstOf(links.Val(), free);
        FirstKeepsOthers(links.Val(), old(links.next), free, old(free));
        links.Unlink(stack, ROOT, free, 0);
        assert RemoveAt(free, 0) == free[1..];
        assert forall x :: x in free[1..] ==> x in free;
        free := free[1..];
        end := stack + SIZE;
        FirstOf(links.Val(), free);
        stack := links.next[ROOT];
      }
      assert free == [] || (free[0] in free && stack == free[0] != ROOT);
    }

    /** The branch of free_ustack for the stack at the boundary. */
    method FreeLowest()
      requires Valid() && end in links.next
      modifies this`end, this`free, this`live, links
      ensures (Valid() <==> old(end) in old(live)) && live == old(live) - {old(end)}
      ensures Shrink(end, free) == Shrunk(old(end) + SIZE, old(free))
      ensures old(end) in links.next && links.next[old(end)] == old(links.next[end])
    {
      NotThere(beg, end, free, live, end);
      FreePositive(beg, end, free, live);
      ShrunkSubset(end + SIZE, free);
      if end in live {
        LowestFreed(beg, end, free, live);
        ShrunkRegion(beg, end + SIZE, free, live - {end});
      } else {
        NothingFreed(beg, end, free, live, end + SIZE);
      }
      hide Region, IsRing, Shrunk;
      live := live - {end};
      end := end + SIZE;
      GiveBack();
    }

    /** The branch of free_ustack for any other address. */
    method FreeOther(e: Addr)
      requires Valid() && e > 0 && e != end && e !in free && e in links.next && e + SIZE - 4 in tops
      modifies this`free, this`live, links
      ensures (Valid() <==> e in old(live)) && live == old(live) - {e}
      ensures free == InsertAt(old(free), SortedPos(old(free), e), e) && e in links.next
    {
      NotThere(beg, end, free, live, e);
      if e in live {
        OtherFreed(beg, end, free, live, e);
      }
      InsertAtContents(free, SortedPos(free, e), e);
      if e !in live {
        NotRegion(beg, end, InsertAt(free, SortedPos(free, e), e), live - {e}, e);
      }
      hide Region, IsRing, InsertAt, SortedPos;
      AddSort(e);
      free := InsertAt(free, SortedPos(free, e), e);
      live := live - {e};
    }

    /**
      free_ustack of any address whose two words are there; false stands for a panic. A stack that is
      already in the free list is refused, because a link has replaced its magic number. What is
      accepted leaves a valid region exactly if it was a live stack: one that was given back at the
      boundary may still carry its magic numbers.
    */
    method FreeUstack(top: Addr) returns (ok: bool)
      requires Valid() && top + 4 - SIZE > 0 && top in tops && top + 4 - SIZE in links.next
      modifies this`end, this`free, this`live, links
      ensures ok <==> old(tops[top]) == MAGIC && old(links.next[top + 4 - SIZE]) == MAGIC
      ensures top + 4 - SIZE in old(free) ==> !ok
      ensures !ok ==> Valid() && end == old(end) && free == old(free) && live == old(live)
      ensures ok ==> (Valid() <==> top + 4 - SIZE in old(live))
      ensures ok ==> live == old(live) - {top + 4 - SIZE}
      ensures top + 4 - SIZE in links.next
      ensures ok && top + 4 - SIZE == old(end) ==> links.next[top + 4 - SIZE] == MAGIC
      ensures ok ==>
                if top + 4 - SIZE == old(end) then Shrink(end, free) == Shrunk(old(end) + SIZE, old(free))
                else end == old(end)
                     && free == InsertAt(old(free), SortedPos(old(free), top + 4 - SIZE), top + 4 - SIZE)
    {
      var e := top + 4 - SIZE;
      if e in free {
        LinkIsNotMagic(links.Val(), beg, end, free, live, e);
      }
      if tops[top] != MAGIC || links.next[e] != MAGIC {
        return false;
      }
      if e == end {
        FreeLowest();
      } else {
        FreeOther(e);
      }
      return true;
    }
  }

  /** The only stack, freed twice: the second call is accepted as well and breaks the region. */
  method FreedTwice() returns (s: Stacks, first: bool, second: bool)
    ensures first && second && !s.Valid()
  {
    s := new Stacks(0x100_0000, 0x10_0000);
    var ok, top := s.MallocUstack();
    var e := top + 4 - SIZE;
    assert e in s.live && e + SIZE - 4 == top;
    first := s.FreeUstack(top);
    second := s.FreeUstack(top);
  }

  /** A stack that is neither live nor free lies outside the region. */
  lemma NotThere(beg: Addr, end: Addr, free: seq<Addr>, live: set<Addr>, e: Addr)
    requires Region(beg, end, free, live) && e !in free
    ensures Place(beg, end, e) <==> e in live
    ensures e == end && e !in live ==> e == beg && free == []
  {
    if e == end && e !in live {
      AllFreed(beg, end, free, live);
      assert !Place(beg, end, e);
    }
  }

  lemma NotRegion(beg: Addr, end: Addr, free: seq<Addr>, live: set<Addr>, e: Addr)
    requires e in free && !Place(beg, end, e)
    ensures !Region(beg, end, free, live)
  {
  }

  /** With no stack left the boundary is at the start and cannot move further up. */
  lemma NothingFreed(beg: Addr, end: Addr, free: seq<Addr>, live: set<Addr>, up: Addr)
    requires Region(beg, end, free, live) && end !in live && up == end + SIZE
    ensures forall f, l :: !Region(beg, up, f, l)
    ensures Shrunk(up, free) == Shrink(up, free)
  {
    NotThere(beg, end, free, live, end);
  }

  /** Words outside the list are as they were. */
  ghost predicate OthersKept(next: map<Addr, int>, next': map<Addr, int>, free: seq<Addr>) {
    forall a :: a in next && a != ROOT && a !in free ==> a in next' && next'[a] == next[a]
  }

  lemma FirstKeepsOthers(l: Links, next: map<Addr, int>, s: seq<Addr>, free: seq<Addr>)
    requires s != [] && s[0] in l.next && s[0] in l.prev && l.prev[s[0]] == ROOT && ROOT in l.next
    requires OthersKept(next, l.next, free)
    ensures OthersKept(next, Unlinked(l, s[0]).next, free)
  {
  }

  lemma FirstOf(l: Links, s: seq<Addr>)
    requires IsRing(l, ROOT, s)
    ensures ROOT in l.next && l.next[ROOT] == At(ROOT, s, 0)
            && (s != [] ==> s[0] != ROOT && s[0] in l.next && s[0] in l.prev)
    ensures s != [] ==> l.prev[s[0]] == ROOT && Unlinked(l, s[0]).next.Keys == l.next.Keys
  {
    assert l.next[At(ROOT, s, -1)] == At(ROOT, s, 0);
    if s != [] {
      assert l.prev[At(ROOT, s, 0)] == At(ROOT, s, -1);
    }
  }

  lemma UnlinkKeys(l: Links, x: Addr)
    requires x in l.next && x in l.prev
    ensures l.next.Keys <= Unlinked(l, x).next.Keys
  {
  }

  lemma FreePositive(beg: Addr, end: Addr, free: seq<Addr>, live: set<Addr>)
    requires Region(beg, end, free, live)
    ensures forall x :: x in free ==> x > 0
  {
  }

  /** Shrinking takes stacks off the list only. */
  lemma {:induction false} ShrunkSubset(end: Addr, free: seq<Addr>)
    ensures forall x :: x in Shrunk(end, free).free ==> x in free
    decreases |free|
  {
    if free != [] && free[0] == end {
      ShrunkSubset(end + SIZE, free[1..]);
    }
  }
}
