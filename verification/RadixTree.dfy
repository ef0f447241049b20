/**
  radix_get, radix_foreach and radix_cleanup of common/radix.c.
*/
module RadixTree {
  import opened Arith
  import opened Radix

  // ---- Listing the entries of a tree ---------------------------------------------------------------

  datatype Entry = Entry(index: nat, val: nat)

  /** The entries below node p of level l for the indices in [lo, hi): all of them, once, in increasing order. */
  ghost predicate Listing(es: seq<Entry>, mem: Mem, p: Ptr, l: nat, lo: nat, hi: nat)
    requires l <= 3
  {
    && (forall i, j :: 0 <= i < j < |es| ==> es[i].index < es[j].index)
    && (forall k :: 0 <= k < |es| ==> lo <= es[k].index < hi && es[k].val == Look(mem, p, l, es[k].index) != 0)
    && (forall a :: lo <= a < hi && Look(mem, p, l, a) != 0 ==> Entry(a, Look(mem, p, l, a)) in es)
  }

  lemma ListingJoin(es: seq<Entry>, es': seq<Entry>, mem: Mem, p: Ptr, l: nat, lo: nat, mid: nat, hi: nat)
    requires l <= 3 && Listing(es, mem, p, l, lo, mid) && Listing(es', mem, p, l, mid, hi) && lo <= mid <= hi
    ensures Listing(es + es', mem, p, l, lo, hi)
  {
    hide Look;
    var e := es + es';
    forall k | 0 <= k < |e|
      ensures lo <= e[k].index < hi && e[k].val == Look(mem, p, l, e[k].index) != 0
    {
      assert e[k] == if k < |es| then es[k] else es'[k - |es|];
    }
    forall i, j | 0 <= i < j < |e|
      ensures e[i].index < e[j].index
    {
      if i < |es| {
        assert e[i] == es[i];
        assert j < |es| || e[j] == es'[j - |es|];
      } else {
        assert e[i] == es'[i - |es|] && e[j] == es'[j - |es|];
      }
    }
  }

  /** The index range of slot i of a node of level l whose range starts at base. */
  lemma SlotRange(l: nat, base: nat, i: nat, a: nat)
    requires l <= 3 && i < 256 && base % Span(l) == 0
    requires base + i * Span(l + 1) <= a < base + i * Span(l + 1) + Span(l + 1)
    ensures Digit(l, a) == i && base + i * Span(l + 1) + Span(l + 1) <= base + Span(l)
    ensures (base + i * Span(l + 1)) % Span(l + 1) == 0
  {
    var s := Span(l + 1);
    assert Span(l) == 256 * s;
    var q := base / Span(l);
    assert base == q * Span(l) by {
      assert base == base / Span(l) * Span(l) + base % Span(l);
    }
    MulAssoc(q, 256, s);
    Distribute(q * 256, i, s);
    assert base + i * s == (q * 256 + i) * s;
    DivModUnique(a, s, q * 256 + i, a - base - i * s);
    DivModUnique(q * 256 + i, 256, q, i);
    ModOfMultiple(q * 256 + i, s);
    MulMono(i + 1, 256, s);
    Distribute(i, 1, s);
  }

  /** The slots of a subtree's child, seen from the parent. */
  lemma ChildRange(mem: Mem, p: Ptr, l: nat, base: nat, i: nat)
    requires l < 3 && i < 256 && base % Span(l) == 0 && IsNode(mem, p)
    ensures (base + i * Span(l + 1)) % Span(l + 1) == 0
    ensures forall a :: base + i * Span(l + 1) <= a < base + i * Span(l + 1) + Span(l + 1) ==>
              Look(mem, p, l, a) == Look(mem, mem[p][i], l + 1, a)
  {
    SlotRange(l, base, i, base + i * Span(l + 1));
    forall a | base + i * Span(l + 1) <= a < base + i * Span(l + 1) + Span(l + 1)
      ensures Look(mem, p, l, a) == Look(mem, mem[p][i], l + 1, a)
    {
      SlotRange(l, base, i, a);
    }
  }

  /** The listing of a child is part of its parent's. */
  lemma ChildListing(es: seq<Entry>, mem: Mem, p: Ptr, l: nat, base: nat, i: nat)
    requires l < 3 && i < 256 && base % Span(l) == 0 && IsNode(mem, p)
    requires var lo := base + i * Span(l + 1); Listing(es, mem, mem[p][i], l + 1, lo, lo + Span(l + 1))
    ensures var lo := base + i * Span(l + 1); Listing(es, mem, p, l, lo, lo + Span(l + 1))
  {
    ChildRange(mem, p, l, base, i);
    hide Look;
  }

  // ---- What a cleanup may change -------------------------------------------------------------------

  /** The first bytes of a prefix, k bytes cut off. */
  function Up(pre: nat, k: nat): nat {
    if k == 0 then pre else Up(pre / 256, k - 1)
  }

  /** The place lies in the subtree of the node of level l with that prefix. */
  predicate Under(x: Place, l: nat, pre: nat) {
    x.level >= l && Up(x.pre, x.level - l) == pre
  }

  /** Only slots of nodes in the subtree have changed, and only to NULL. */
  ghost predicate Cleared(mem: Mem, mem': Mem, at: map<Ptr, Place>, l: nat, pre: nat) {
    && mem'.Keys == mem.Keys && mem.Keys == at.Keys
    && (forall p :: p in mem && !Under(at[p], l, pre) ==> mem'[p] == mem[p])
    && (forall p :: p in mem ==> |mem'[p]| == |mem[p]|)
    && (forall p, i :: p in mem && 0 <= i < |mem[p]| ==> mem'[p][i] == mem[p][i] || mem'[p][i] == 0)
  }

  lemma ClearedPlaced(mem: Mem, mem': Mem, at: map<Ptr, Place>, l: nat, pre: nat)
    requires Placed(mem, at) && Cleared(mem, mem', at, l, pre)
    ensures Placed(mem', at)
  {
  }

  lemma {:induction false} UpPrefix(l: nat, m: nat, a: nat)
    requires l <= m <= 4
    ensures Up(Prefix(m, a), m - l) == Prefix(l, a)
    decreases m - l
  {
    if l < m {
      PrefixStep(m - 1, a);
      UpPrefix(l, m - 1, a);
      assert Prefix(m, a) / 256 == Prefix(m - 1, a);
    }
  }

  /** A walk for an index outside the subtree is not affected. */
  lemma {:induction false} LookOutside(mem: Mem, mem': Mem, at: map<Ptr, Place>, l: nat, pre: nat, q: Ptr, m: nat,
                                       a: nat)
    requires Placed(mem, at) && Cleared(mem, mem', at, l, pre) && l <= m <= 3 && PlacedAt(at, q, m, Prefix(m, a))
    requires Prefix(l, a) != pre
    ensures Look(mem', q, m, a) == Look(mem, q, m, a)
    decreases 3 - m
  {
    if q != 0 {
      UpPrefix(l, m, a);
      assert !Under(at[q], l, pre);
      if m < 3 {
        ChildPlaced(mem, at, q, m, a);
        LookOutside(mem, mem', at, l, pre, mem[q][Digit(m, a)], m + 1, a);
      }
    }
  }

  lemma ClearedWider(mem: Mem, mem': Mem, at: map<Ptr, Place>, l: nat, pre: nat, i: nat)
    requires Cleared(mem, mem', at, l + 1, pre * 256 + i) && i < 256
    ensures Cleared(mem, mem', at, l, pre)
  {
    forall p | p in mem && !Under(at[p], l, pre)
      ensures mem'[p] == mem[p]
    {
      if Under(at[p], l + 1, pre * 256 + i) {
        UpMore(at[p].pre, at[p].level - (l + 1));
      }
    }
  }

  lemma {:induction false} UpMore(x: nat, k: nat)
    ensures Up(x, k + 1) == Up(x, k) / 256
    decreases k
  {
    if k > 0 {
      UpMore(x / 256, k - 1);
    }
  }

  lemma ClearedTrans(m0: Mem, m1: Mem, m2: Mem, at: map<Ptr, Place>, l: nat, pre: nat)
    requires Cleared(m0, m1, at, l, pre) && Cleared(m1, m2, at, l, pre)
    ensures Cleared(m0, m2, at, l, pre)
  {
  }

  /** The roots from level l on follow the slots 0 of node x. */
  ghost predicate ChainFrom(mem: Mem, r: Roots, l: nat, x: Ptr) {
    (l < 3 ==> r[l + 1] == Slot0(mem, x)) && forall k :: l < k < 3 ==> r[k + 1] == Slot0(mem, r[k])
  }

  // ---- The tree ------------------------------------------------------------------------------------

  /** The places and slots needed to follow pointers safely. */
  ghost predicate Sound(mem: Mem, at: map<Ptr, Place>, r: Roots) {
    Placed(mem, at) && RootsPlaced(at, r)
  }

  lemma RootIsNode(mem: Mem, at: map<Ptr, Place>, r: Roots, l: nat)
    requires Sound(mem, at, r) && l <= 3 && r[l] != 0
    ensures IsNode(mem, r[l]) && at[r[l]] == Place(l, 0)
  {
    assert PlacedAt(at, r[l], l, 0);
  }

  /** The level of the shortcut root for an index. */
  function LevelOf(index: nat): (l: nat)
    ensures l <= 3 && (l < 3 ==> index >= Span(l + 1)) && (index < INDICES ==> index < Span(l))
  {
    if index < 0x100 then 3 else if index < 0x1_0000 then 2 else if index < 0x100_0000 then 1 else 0
  }

  class Tree {
    var mem: Mem
    var r: Roots
    ghost var at: map<Ptr, Place>
    var next: Ptr            // the next address the allocator hands out
    var avail: nat           // how many nodes it can still hand out

    ghost predicate Valid()
      reads this
    {
      Sound(mem, at, r) && next > 0 && forall p :: p in mem ==> p < next
    }

    /** radix_create */
    constructor (avail: nat)
      ensures Valid() && mem == map[] && r == [0, 0, 0, 0] && this.avail == avail
    {
      mem, r, at, next := map[], [0, 0, 0, 0], map[], 1;
      this.avail := avail;
    }

    /**
      radix_get: what the walk from the shortcut root finds; on a well-linked tree, the entry of the table that
      the tree stands for.
    */
    method Get(index: nat) returns (v: nat)
      requires Placed(mem, at) && index < INDICES && PlacedAt(at, r[LevelOf(index)], LevelOf(index), 0)
      ensures v == Look(mem, r[LevelOf(index)], LevelOf(index), index)
      ensures Linked(mem, r) ==> v == Table(mem, r, index)
    {
      hide Digit, Placed;
      if index < 0x100 {
        v := GetFrom(3, index);
      } else if index < 0x1_0000 {
        v := GetFrom(2, index);
      } else if index < 0x100_0000 {
        v := GetFrom(1, index);
      } else {
        v := GetFrom(0, index);
      }
      if Linked(mem, r) {
        ShortcutIsFullWalk(mem, r, LevelOf(index), index);
      }
    }

    /** A branch of radix_get: the descent from root l. */
    method GetFrom(l: nat, index: nat) returns (v: nat)
      requires Placed(mem, at) && l <= 3 && index < Span(l) && PlacedAt(at, r[l], l, 0)
      ensures v == Look(mem, r[l], l, index)
    {
      var p, k := r[l], l;
      SmallIndexPrefix(l, index);
      while k < 3
        invariant l <= k <= 3 && PlacedAt(at, p, k, Prefix(k, index))
        invariant Look(mem, r[l], l, index) == Look(mem, p, k, index)
      {
        if p == 0 {
          return 0;
        }
        ChildPlaced(mem, at, p, k, index);
        p := mem[p][Digit(k, index)];
        k := k + 1;
      }
      if p == 0 {
        return 0;
      }
      return mem[p][Digit(3, index)];
    }

    /** The loops of radix_foreach from the node p of level l down: the calls of the callback, in order. */
    method Scan(p: Ptr, l: nat, base: nat) returns (es: seq<Entry>)
      requires Valid() && l <= 3 && p in mem && at[p].level == l && base % Span(l) == 0
      ensures Listing(es, mem, p, l, base, base + Span(l))
      decreases 3 - l, 1
    {
      hide Look, Span, Listing;
      es := [];
      NoneListed(mem, p, l, base);
      SlotCount(l);
      for i := 0 to 256
        invariant Listing(es, mem, p, l, base, base + i * Span(l + 1))
      {
        var more := ScanSlot(p, l, base, i);
        ListingJoin(es, more, mem, p, l, base, base + i * Span(l + 1), base + i * Span(l + 1) + Span(l + 1));
        es := es + more;
        Distribute(i, 1, Span(l + 1));
      }
    }

    /** The body of those loops: the entries below slot i. */
    method ScanSlot(p: Ptr, l: nat, base: nat, i: nat) returns (es: seq<Entry>)
      requires Valid() && l <= 3 && p in mem && at[p].level == l && base % Span(l) == 0 && i < 256
      ensures var lo := base + i * Span(l + 1); Listing(es, mem, p, l, lo, lo + Span(l + 1))
      decreases 3 - l, 0
    {
      hide Look, Span, Listing;
      var c := mem[p][i];
      es := [];
      if l == 3 {
        if c != 0 {
          es := [Entry(base + i, c)];
        }
        LeafSlot(mem, p, base, i, es);
      } else {
        var lo := base + i * Span(l + 1);
        ChildRange(mem, p, l, base, i);
        if c != 0 {
          es := Scan(c, l + 1, lo);
        } else {
          NullListing(mem, l + 1, lo, lo + Span(l + 1));
        }
        ChildListing(es, mem, p, l, base, i);
      }
    }

    /** radix_foreach visits every entry that is not NULL once, in increasing index order. */
    method Foreach() returns (es: seq<Entry>)
      requires Valid()
      ensures forall i, j :: 0 <= i < j < |es| ==> es[i].index < es[j].index
      ensures forall k :: 0 <= k < |es| ==> es[k].index < INDICES && es[k].val == Table(mem, r, es[k].index) != 0
      ensures forall a :: 0 <= a < INDICES && Table(mem, r, a) != 0 ==> Entry(a, Table(mem, r, a)) in es
    {
      hide Look, Sound;
      var t := if r[0] != 0 then 0 else if r[1] != 0 then 1 else if r[2] != 0 then 2 else 3;
      es := [];
      if r[t] != 0 {
        RootIsNode(mem, at, r, t);
        es := Scan(r[t], t, 0);
      } else {
        NullListing(mem, 3, 0, Span(3));
      }
    }

    /**
      cleanup_node: empty nodes of the subtree are dropped, with the roots that name them; the caller
      clears the slot when the node itself is gone. A node goes exactly if no entry lies below it, and
      no walk reaches a freed node afterwards.
    */
    method CleanupNode(p: Ptr, l: nat, index: nat) returns (gone: bool, freed: set<Ptr>)
      requires Sound(mem, at, r) && l <= 3 && p in mem && at[p] == Place(l, index)
      modifies this`mem, this`r
      ensures Sound(mem, at, r) && Cleared(old(mem), mem, at, l, index)
      ensures SameEntries(old(mem), p, mem, if gone then 0 else p, l, index)
      ensures index != 0 ==> r == old(r)
      ensures index == 0 ==> RootsAfter(old(r), r, l, gone)
      ensures index == 0 && old(ChainFrom(mem, r, l, p)) ==> ChainFrom(mem, r, l, if gone then 0 else p)
      ensures FreedUnder(at, freed, l, index) && Avoids(mem, if gone then 0 else p, l, index, freed)
      ensures (gone ==> p in freed) && (!gone ==> HasEntry(mem, p, l, index))
      ensures Cleaned(old(mem), p, mem, if gone then 0 else p, l, index, freed)
      decreases 3 - l, 1
    {
      hide Look, ChainFrom, Cleared, SameEntries, Avoids, HasEntry, FreedUnder, Cleaning, Cleaned, SlotDone;
      ghost var mem0 := mem;
      NothingCleared(mem, at, p, l, index);
      NothingFreed(mem, at, p, l, index);
      CleaningStarts(mem, p, l, index);
      var empty := true;
      freed := {};
      for i := 0 to 256
        invariant Sound(mem, at, r) && Cleared(mem0, mem, at, l, index) && p in mem
        invariant SameEntries(mem0, p, mem, p, l, index)
        invariant index != 0 ==> r == old(r)
        invariant forall k :: 0 <= k <= l ==> r[k] == old(r)[k]
        invariant index == 0 && old(ChainFrom(mem, r, l, p)) ==> ChainFrom(mem, r, l, p)
        invariant empty <==> forall j :: 0 <= j < i ==> mem[p][j] == 0
        invariant l == 3 ==> empty
        invariant FreedUnder(at, freed, l, index) && Avoids(mem, p, l, index, freed)
        invariant !empty ==> HasEntry(mem, p, l, index)
        invariant Cleaning(mem0, mem, p, l, index, i, freed)
      {
        if mem[p][i] == 0 {
          EmptySlot(mem0, mem, p, l, index, i, freed);
          continue;
        }
        if l == 3 {
          LeafEntry(mem, p, index, i);
          CleanedKept(mem0, mem, p, l, index, i, freed);
          return false, freed;
        }
        ghost var mem1 := mem;
        var kept, more := CleanupSlot(p, l, index, i, freed);
        CleaningStep(mem0, mem1, mem, at, p, l, index, i, freed, more);
        ClearedTrans(mem0, mem1, mem, at, l, index);
        SameTrans(mem0, p, mem1, p, mem, p, l, index);
        EntryKept(mem1, mem, p, l, index);
        FreedJoin(at, freed, more, l, index);
        freed := freed + more;
        if kept {
          empty := false;
        }
      }
      if empty {
        EmptyNode(mem0, mem, p, l, index);
        EmptyChain(mem, r, l, p);
        gone := true;
        CleanedGone(mem0, mem, p, l, index, freed);
        NodeFreed(mem, at, p, l, index, freed);
        freed := freed + {p};
        if index == 0 && l >= 1 {
          ChainIgnores(mem, r, l, 0);
          r := r[l := 0];
        }
      } else {
        gone := false;
        CleanedKept(mem0, mem, p, l, index, 256, freed);
      }
    }

    /** The recursive call of cleanup_node for slot i, and what it leaves in the slot. */
    method CleanupSlot(p: Ptr, l: nat, index: nat, i: nat, ghost before: set<Ptr>) returns (kept: bool, more: set<Ptr>)
      requires Sound(mem, at, r) && l < 3 && p in mem && at[p] == Place(l, index) && i < 256 && mem[p][i] != 0
      requires FreedUnder(at, before, l, index) && Avoids(mem, p, l, index, before)
      modifies this`mem, this`r
      ensures Sound(mem, at, r) && Cleared(old(mem), mem, at, l, index) && p in mem
      ensures kept <==> mem[p][i] != 0
      ensures forall j :: 0 <= j < 256 && j != i ==> mem[p][j] == old(mem)[p][j]
      ensures SameEntries(old(mem), p, mem, p, l, index)
      ensures index != 0 ==> r == old(r)
      ensures forall k :: 0 <= k <= l ==> r[k] == old(r)[k]
      ensures index == 0 && old(ChainFrom(mem, r, l, p)) ==> ChainFrom(mem, r, l, p)
      ensures FreedUnder(at, more, l, index) && Avoids(mem, p, l, index, before + more)
      ensures kept ==> HasEntry(mem, p, l, index)
      ensures SlotDone(old(mem), mem, p, l, index, i, more)
      decreases 3 - l, 0
    {
      hide Look, ChainFrom, Cleared, SameEntries, Avoids, HasEntry, FreedUnder, Cleaned, SlotDone;
      ghost var mem0, r0 := mem, r;
      var c := mem[p][i];
      if index == 0 && i == 0 && ChainFrom(mem, r, l, p) {
        ChainDown(mem, r, l, p);
      }
      var gone;
      gone, more := CleanupNode(c, l + 1, index * 256 + i);
      ghost var mem1 := mem;
      ParentKept(mem0, mem1, at, p, l, index, i);
      ChildCleaned(mem0, mem1, at, p, l, index, i, gone, more);
      if gone {
        mem := Put(mem, p, i, 0);
      }
      SlotCleaned(mem0, mem1, at, p, l, index, i, gone);
      SlotAvoids(mem0, mem1, at, p, l, index, i, gone, before, more);
      if !gone {
        EntryAbove(mem, p, l, index, i);
      }
      if index == 0 && old(ChainFrom(mem, r, l, p)) {
        if i == 0 {
          ChainUp(mem0, r0, mem1, mem, r, at, l, p, gone);
        } else {
          ChainAside(mem0, mem1, mem, r, at, l, p, i);
        }
      }
      kept := !gone;
    }

    /**
      radix_cleanup frees exactly the nodes that have no entry below them. It changes no entry and keeps the
      tree well linked; then no walk and no root leads to a freed node, every node that a walk
      reaches has an entry below it, and a root that is not NULL has an entry among its indices.
    */
    method Cleanup() returns (freed: set<Ptr>)
      requires Valid()
      modifies this`mem, this`r
      ensures Valid() && FreedFrom(old(mem), old(r), freed)
      ensures old(Linked(mem, r)) ==>
                && Linked(mem, r) && (forall a :: 0 <= a ==> Table(mem, r, a) == old(Table(mem, r, a)))
                && Unreached(mem, r, freed) && AllUsed(mem, r) && RootsUsed(mem, r)
    {
      hide Look, Table, Linked, NodeAt, Sound, FreedFrom, Unreached, AllUsed, RootsUsed;
      freed := {};
      var t := if r[0] != 0 then 0 else if r[1] != 0 then 1 else if r[2] != 0 then 2 else 3;
      if r[t] != 0 {
        freed := CleanupTop(t);
      } else {
        EmptyTree(mem, r);
      }
    }

    /** radix_cleanup for the topmost root. */
    method CleanupTop(t: nat) returns (freed: set<Ptr>)
      requires Valid() && t == Top(r) && r[t] != 0
      modifies this`mem, this`r
      ensures Valid() && FreedFrom(old(mem), old(r), freed)
      ensures old(Linked(mem, r)) ==>
                && Linked(mem, r) && (forall a :: 0 <= a ==> Table(mem, r, a) == old(Table(mem, r, a)))
                && Unreached(mem, r, freed) && AllUsed(mem, r) && RootsUsed(mem, r)
    {
      hide Look, ChainFrom, SameEntries, Avoids, HasEntry, FreedUnder, Table, Linked, NodeAt, Cleared, Sound, Span;
      hide Cleaned, FreedFrom, Unreached, AllUsed, RootsUsed;
      ghost var mem0, r0 := mem, r;
      RootIsNode(mem, at, r, t);
      if Linked(mem, r) {
        LinkedChain(mem, r);
      }
      var gone;
      gone, freed := CleanupNode(r[t], t, 0);
      ClearedKeys(mem0, mem, at, t, 0);
      FreedFromTop(mem0, r0, mem, if gone then 0 else r0[t], at, freed);
      ChainIgnores(mem, r, t, 0);
      if gone {
        RootDropped(mem, at, r, t);
        r := r[t := 0];
      }
      if old(Linked(mem, r)) {
        CleanedTable(mem0, r0, mem, r, gone);
        CleanedWalks(mem, at, r, t, gone, freed);
        CleanedPruned(mem0, r0[t], mem, r[t], t, 0, freed);
        UsedAfter(mem, at, r, t, gone);
      }
    }
  }

  lemma ClearedKeys(mem: Mem, mem': Mem, at: map<Ptr, Place>, l: nat, pre: nat)
    requires Cleared(mem, mem', at, l, pre)
    ensures mem'.Keys == mem.Keys
  {
  }

  lemma RootDropped(mem: Mem, at: map<Ptr, Place>, r: Roots, l: nat)
    requires Sound(mem, at, r) && l <= 3
    ensures Sound(mem, at, r[l := 0])
  {
  }

  // ---- Cleanup -------------------------------------------------------------------------------------

  /** The walks from p before and from p' after give the same entries. */
  ghost predicate SameEntries(mem: Mem, p: Ptr, mem': Mem, p': Ptr, l: nat, pre: nat)
    requires l <= 3
  {
    forall a :: 0 <= a && Prefix(l, a) == pre ==> Look(mem', p', l, a) == Look(mem, p, l, a)
  }

  /** The roots after the cleanup of the node of level l that zero bytes lead to. */
  ghost predicate RootsAfter(r: Roots, r': Roots, l: nat, gone: bool)
    requires l <= 3
  {
    (forall k :: 0 <= k < l ==> r'[k] == r[k]) && r'[l] == if gone && l >= 1 then 0 else r[l]
  }

  /** No walk below the node p of level l meets a freed node. */
  ghost predicate Avoids(mem: Mem, p: Ptr, l: nat, pre: nat, freed: set<Ptr>)
    requires l <= 3
  {
    forall m, a :: l <= m <= 3 && 0 <= a && Prefix(l, a) == pre ==> NodeAt(mem, p, l, m, a) !in freed
  }

  /** All freed nodes lie in the subtree. */
  ghost predicate FreedUnder(at: map<Ptr, Place>, freed: set<Ptr>, l: nat, pre: nat) {
    forall q :: q in freed ==> q != 0 && q in at && Under(at[q], l, pre)
  }

  ghost predicate HasEntry(mem: Mem, p: Ptr, l: nat, pre: nat)
    requires l <= 3
  {
    exists a :: 0 <= a && Prefix(l, a) == pre && Look(mem, p, l, a) != 0
  }

  lemma NothingFreed(mem: Mem, at: map<Ptr, Place>, p: Ptr, l: nat, pre: nat)
    requires l <= 3
    ensures FreedUnder(at, {}, l, pre) && Avoids(mem, p, l, pre, {})
  {
  }

  lemma FreedJoin(at: map<Ptr, Place>, f: set<Ptr>, g: set<Ptr>, l: nat, pre: nat)
    requires FreedUnder(at, f, l, pre) && FreedUnder(at, g, l, pre)
    ensures FreedUnder(at, f + g, l, pre)
  {
  }

  lemma LeafEntry(mem: Mem, p: Ptr, pre: nat, i: nat)
    requires IsNode(mem, p) && i < 256 && mem[p][i] != 0
    ensures HasEntry(mem, p, 3, pre)
  {
    var a := pre * 256 + i;
    DivModUnique(a, 256, pre, i);
    assert Prefix(3, a) == pre && Look(mem, p, 3, a) != 0;
  }

  lemma EntryKept(mem: Mem, mem': Mem, p: Ptr, l: nat, pre: nat)
    requires l <= 3 && SameEntries(mem, p, mem', p, l, pre)
    ensures HasEntry(mem, p, l, pre) ==> HasEntry(mem', p, l, pre)
  {
    hide Look;
    if HasEntry(mem, p, l, pre) {
      var a :| 0 <= a && Prefix(l, a) == pre && Look(mem, p, l, a) != 0;
      assert Look(mem', p, l, a) != 0;
    }
  }

  lemma EntryAbove(mem: Mem, p: Ptr, l: nat, pre: nat, i: nat)
    requires l < 3 && IsNode(mem, p) && i < 256 && HasEntry(mem, mem[p][i], l + 1, pre * 256 + i)
    ensures HasEntry(mem, p, l, pre)
  {
    var a :| 0 <= a && Prefix(l + 1, a) == pre * 256 + i && Look(mem, mem[p][i], l + 1, a) != 0;
    PrefixStep(l, a);
    assert Prefix(l, a) == pre && Look(mem, p, l, a) != 0;
  }

  /** The emptied node itself is freed: the walk now ends before it. */
  lemma NodeFreed(mem: Mem, at: map<Ptr, Place>, p: Ptr, l: nat, pre: nat, freed: set<Ptr>)
    requires l <= 3 && FreedUnder(at, freed, l, pre) && p != 0 && p in at && at[p] == Place(l, pre)
    ensures FreedUnder(at, freed + {p}, l, pre) && Avoids(mem, 0, l, pre, freed + {p})
  {
    forall m, a | l <= m <= 3 && 0 <= a && Prefix(l, a) == pre
      ensures NodeAt(mem, 0, l, m, a) !in freed + {p}
    {
      NullWalk(mem, l, m, a);
    }
  }

  lemma NullWalk(mem: Mem, l: nat, m: nat, a: nat)
    requires l <= m <= 3
    ensures NodeAt(mem, 0, l, m, a) == 0
  {
  }

  /** Clearing slots only shortens walks. */
  lemma {:induction false} ClearedNode(mem: Mem, mem': Mem, at: map<Ptr, Place>, l: nat, pre: nat, q: Ptr, k: nat,
                                       m: nat, a: nat)
    requires Placed(mem, at) && Cleared(mem, mem', at, l, pre) && k <= m <= 3 && PlacedAt(at, q, k, Prefix(k, a))
    ensures NodeAt(mem', q, k, m, a) == NodeAt(mem, q, k, m, a) || NodeAt(mem', q, k, m, a) == 0
    decreases m - k
  {
    if k < m && q != 0 {
      ChildPlaced(mem, at, q, k, a);
      ClearedNode(mem, mem', at, l, pre, mem[q][Digit(k, a)], k + 1, m, a);
      if mem'[q][Digit(k, a)] == 0 {
        NullWalk(mem', k + 1, m, a);
      }
    }
  }

  /** After slot i has been cleaned, walks from the parent meet no freed node. */
  lemma SlotAvoids(mem: Mem, mem1: Mem, at: map<Ptr, Place>, p: Ptr, l: nat, pre: nat, i: nat, gone: bool,
                   before: set<Ptr>, more: set<Ptr>)
    requires Placed(mem, at) && l < 3 && p in mem && at[p] == Place(l, pre) && i < 256
    requires p in mem1 && mem1[p] == mem[p]
    requires var mem' := if gone then Put(mem1, p, i, 0) else mem1; Cleared(mem, mem', at, l, pre)
    requires FreedUnder(at, before, l, pre) && Avoids(mem, p, l, pre, before)
    requires FreedUnder(at, more, l + 1, pre * 256 + i)
             && Avoids(mem1, if gone then 0 else mem[p][i], l + 1, pre * 256 + i, more)
    ensures var mem' := if gone then Put(mem1, p, i, 0) else mem1;
            FreedUnder(at, more, l, pre) && Avoids(mem', p, l, pre, before + more)
  {
    var mem' := if gone then Put(mem1, p, i, 0) else mem1;
    forall q | q in more
      ensures Under(at[q], l, pre)
    {
      UpMore(at[q].pre, at[q].level - (l + 1));
    }
    forall m, a | l <= m <= 3 && 0 <= a && Prefix(l, a) == pre
      ensures NodeAt(mem', p, l, m, a) !in before + more
    {
      hide Cleared, Avoids, FreedUnder;
      SlotWalk(mem, mem1, at, p, l, pre, i, gone, before, more, m, a);
    }
  }

  lemma SlotWalk(mem: Mem, mem1: Mem, at: map<Ptr, Place>, p: Ptr, l: nat, pre: nat, i: nat, gone: bool,
                 before: set<Ptr>, more: set<Ptr>, m: nat, a: nat)
    requires Placed(mem, at) && l < 3 && p in mem && at[p] == Place(l, pre) && i < 256
    requires p in mem1 && mem1[p] == mem[p]
    requires var mem' := if gone then Put(mem1, p, i, 0) else mem1; Cleared(mem, mem', at, l, pre)
    requires FreedUnder(at, before, l, pre) && Avoids(mem, p, l, pre, before)
    requires FreedUnder(at, more, l + 1, pre * 256 + i)
             && Avoids(mem1, if gone then 0 else mem[p][i], l + 1, pre * 256 + i, more)
    requires l <= m <= 3 && Prefix(l, a) == pre
    ensures NodeAt(if gone then Put(mem1, p, i, 0) else mem1, p, l, m, a) !in before + more
  {
    var mem' := if gone then Put(mem1, p, i, 0) else mem1;
    var n := NodeAt(mem', p, l, m, a);
    assert PlacedAt(at, p, l, Prefix(l, a));
    ClearedNode(mem, mem', at, l, pre, p, l, m, a);
    NodeAtPlaced(mem, at, p, l, m, a);
    assert NodeAt(mem, p, l, m, a) !in before;
    PrefixStep(l, a);
    if m > l && Digit(l, a) == i {
      assert n == NodeAt(mem', mem'[p][i], l + 1, m, a);
      hide Cleared, Placed, NodeAt;
      if gone {
        NullWalk(mem', l + 1, m, a);
      }
    } else if n != 0 {
      hide *;
      NotBelow(at, more, l, pre, i, m, a, n);
    }
  }

  /** A node off the path through slot i is not among the nodes below that slot. */
  lemma NotBelow(at: map<Ptr, Place>, more: set<Ptr>, l: nat, pre: nat, i: nat, m: nat, a: nat, n: Ptr)
    requires FreedUnder(at, more, l + 1, pre * 256 + i) && i < 256 && l <= m <= 3 && l < 3 && Prefix(l, a) == pre
    requires PlacedAt(at, n, m, Prefix(m, a)) && n != 0 && (m > l ==> Digit(l, a) != i)
    ensures n !in more
  {
    PrefixStep(l, a);
    if m > l {
      UpPrefix(l + 1, m, a);
    }
    assert !Under(at[n], l + 1, pre * 256 + i);
  }

  /** The roots lie on the walk of index 0. */
  lemma {:induction false} RootOnWalk(mem: Mem, r: Roots, l: nat)
    requires Linked(mem, r) && Top(r) <= l <= 3
    ensures NodeAt(mem, r[Top(r)], Top(r), l, 0) == r[l]
  {
    RootOnWalkFrom(mem, r, Top(r), l);
  }

  lemma {:induction false} RootOnWalkFrom(mem: Mem, r: Roots, k: nat, l: nat)
    requires Linked(mem, r) && Top(r) <= k <= l <= 3
    ensures NodeAt(mem, r[k], k, l, 0) == r[l]
    decreases l - k
  {
    if k < l {
      assert r[k + 1] == Slot0(mem, r[k]);
      assert Digit(k, 0) == 0;
      RootOnWalkFrom(mem, r, k + 1, l);
      if !IsNode(mem, r[k]) {
        NullWalk(mem, k + 1, l, 0);
      }
    }
  }

  /** What radix_cleanup freed is not reachable from any root. */
  lemma CleanedWalks(mem: Mem, at: map<Ptr, Place>, r: Roots, t: nat, gone: bool, freed: set<Ptr>)
    requires t <= 3 && Linked(mem, r) && FreedUnder(at, freed, t, 0) && Avoids(mem, r[t], t, 0, freed)
    requires (forall k :: 0 <= k < t ==> r[k] == 0) && (gone <==> r[t] == 0)
    requires gone ==> r[0] == 0 && r[1] == 0 && r[2] == 0 && r[3] == 0
    ensures Unreached(mem, r, freed)
  {
    if gone {
      forall m, a | Top(r) <= m <= 3 && 0 <= a < Span(Top(r))
        ensures NodeAt(mem, r[Top(r)], Top(r), m, a) !in freed
      {
        NullWalk(mem, Top(r), m, a);
      }
    } else {
      assert Top(r) == t;
      forall m, a | t <= m <= 3 && 0 <= a < Span(t)
        ensures NodeAt(mem, r[t], t, m, a) !in freed
      {
        SmallIndexPrefix(t, a);
      }
      forall l | 0 <= l < 4
        ensures r[l] !in freed
      {
        if l >= t {
          RootOnWalk(mem, r, l);
          assert NodeAt(mem, r[t], t, l, 0) !in freed;
        }
      }
    }
  }

  lemma NothingCleared(mem: Mem, at: map<Ptr, Place>, p: Ptr, l: nat, pre: nat)
    requires l <= 3 && Placed(mem, at)
    ensures Cleared(mem, mem, at, l, pre) && SameEntries(mem, p, mem, p, l, pre)
  {
  }

  lemma SameTrans(m0: Mem, p0: Ptr, m1: Mem, p1: Ptr, m2: Mem, p2: Ptr, l: nat, pre: nat)
    requires l <= 3 && SameEntries(m0, p0, m1, p1, l, pre) && SameEntries(m1, p1, m2, p2, l, pre)
    ensures SameEntries(m0, p0, m2, p2, l, pre)
  {
    hide Look;
  }

  lemma EmptyNode(mem: Mem, mem': Mem, p: Ptr, l: nat, pre: nat)
    requires l <= 3 && SameEntries(mem, p, mem', p, l, pre) && IsNode(mem', p)
    requires forall j :: 0 <= j < 256 ==> mem'[p][j] == 0
    ensures SameEntries(mem, p, mem', 0, l, pre)
  {
    forall a | 0 <= a && Prefix(l, a) == pre
      ensures Look(mem', 0, l, a) == Look(mem, p, l, a)
    {
      assert mem'[p][Digit(l, a)] == 0;
      assert Look(mem', p, l, a) == 0;
    }
  }

  lemma EmptyChain(mem: Mem, r: Roots, l: nat, p: Ptr)
    requires l <= 3 && IsNode(mem, p) && mem[p][0] == 0
    ensures ChainFrom(mem, r, l, p) ==> ChainFrom(mem, r, l, 0)
  {
  }

  lemma ChainIgnores(mem: Mem, r: Roots, l: nat, x: Ptr)
    requires l <= 3
    ensures ChainFrom(mem, r, l, x) ==> ChainFrom(mem, r[l := 0], l, x)
  {
  }

  /** The chain below slot 0. */
  lemma ChainDown(mem: Mem, r: Roots, l: nat, p: Ptr)
    requires l < 3 && ChainFrom(mem, r, l, p)
    ensures r[l + 1] == Slot0(mem, p) && ChainFrom(mem, r, l + 1, Slot0(mem, p))
  {
  }

  lemma ParentKept(mem: Mem, mem': Mem, at: map<Ptr, Place>, p: Ptr, l: nat, pre: nat, i: nat)
    requires Cleared(mem, mem', at, l + 1, pre * 256 + i) && p in mem && at[p] == Place(l, pre)
    ensures p in mem' && mem'[p] == mem[p]
  {
  }

  /** A walk below level l does not see the nodes of level l. */
  lemma {:induction false} LookBelow(mem: Mem, at: map<Ptr, Place>, p: Ptr, i: nat, q: Ptr, m: nat, a: nat)
    requires Placed(mem, at) && p in mem && i < 256 && at[p].level < m <= 3 && PlacedAt(at, q, m, Prefix(m, a))
    ensures Look(Put(mem, p, i, 0), q, m, a) == Look(mem, q, m, a)
    decreases 3 - m
  {
    if q != 0 && m < 3 {
      ChildPlaced(mem, at, q, m, a);
      LookBelow(mem, at, p, i, mem[q][Digit(m, a)], m + 1, a);
    }
  }

  /** After the subtree of slot i has been cleaned, and the slot cleared if it is gone. */
  lemma SlotCleaned(mem: Mem, mem1: Mem, at: map<Ptr, Place>, p: Ptr, l: nat, pre: nat, i: nat, gone: bool)
    requires Placed(mem, at) && l < 3 && p in mem && at[p] == Place(l, pre) && i < 256
    requires Placed(mem1, at) && Cleared(mem, mem1, at, l + 1, pre * 256 + i) && p in mem1 && mem1[p] == mem[p]
    requires SameEntries(mem, mem[p][i], mem1, if gone then 0 else mem[p][i], l + 1, pre * 256 + i)
    ensures var mem' := if gone then Put(mem1, p, i, 0) else mem1;
            && Placed(mem', at) && Cleared(mem, mem', at, l, pre) && SameEntries(mem, p, mem', p, l, pre)
  {
    var mem' := if gone then Put(mem1, p, i, 0) else mem1;
    ClearedWider(mem, mem1, at, l, pre, i);
    assert Cleared(mem1, mem', at, l, pre);
    ClearedTrans(mem, mem1, mem', at, l, pre);
    ClearedPlaced(mem, mem', at, l, pre);
    hide Cleared;
    forall a | 0 <= a && Prefix(l, a) == pre
      ensures Look(mem', p, l, a) == Look(mem, p, l, a)
    {
      SlotLook(mem, mem1, at, p, l, pre, i, gone, a);
    }
  }

  lemma SlotLook(mem: Mem, mem1: Mem, at: map<Ptr, Place>, p: Ptr, l: nat, pre: nat, i: nat, gone: bool, a: nat)
    requires Placed(mem, at) && l < 3 && p in mem && at[p] == Place(l, pre) && i < 256 && Prefix(l, a) == pre
    requires Placed(mem1, at) && Cleared(mem, mem1, at, l + 1, pre * 256 + i) && p in mem1 && mem1[p] == mem[p]
    requires SameEntries(mem, mem[p][i], mem1, if gone then 0 else mem[p][i], l + 1, pre * 256 + i)
    ensures Look(if gone then Put(mem1, p, i, 0) else mem1, p, l, a) == Look(mem, p, l, a)
  {
    hide Cleared;
    var d, mem' := Digit(l, a), if gone then Put(mem1, p, i, 0) else mem1;
    PrefixStep(l, a);
    ChildPlaced(mem, at, p, l, a);
    var c := mem[p][d];
    if d == i {
      if !gone {
        assert Look(mem1, c, l + 1, a) == Look(mem, c, l + 1, a);
      } else {
        assert Look(mem1, 0, l + 1, a) == Look(mem, c, l + 1, a);
      }
    } else {
      LookOutside(mem, mem1, at, l + 1, pre * 256 + i, c, l + 1, a);
      if gone {
        LookBelow(mem1, at, p, i, c, l + 1, a);
      }
    }
  }

  lemma ChainUp(mem: Mem, r: Roots, mem1: Mem, mem': Mem, r': Roots, at: map<Ptr, Place>, l: nat, p: Ptr, gone: bool)
    requires Placed(mem, at) && l < 3 && p in mem && at[p] == Place(l, 0) && Slot0(mem, p) != 0
    requires p in mem1 && mem1[p] == mem[p] && mem' == if gone then Put(mem1, p, 0, 0) else mem1
    requires ChainFrom(mem, r, l, p) && RootsPlaced(at, r')
    requires RootsAfter(r, r', l + 1, gone) && ChainFrom(mem1, r', l + 1, if gone then 0 else Slot0(mem, p))
    ensures ChainFrom(mem', r', l, p)
  {
    assert r[l + 1] == Slot0(mem, p);
    forall k | l < k < 3
      ensures r'[k + 1] == Slot0(mem', r'[k])
    {
      assert PlacedAt(at, r'[k], k, 0);
      assert r'[k] != p;
      assert Slot0(mem', r'[k]) == Slot0(mem1, r'[k]);
    }
  }

  lemma UpOfZero(k: nat)
    ensures Up(0, k) == 0
  {
  }

  lemma ChainAside(mem: Mem, mem1: Mem, mem': Mem, r: Roots, at: map<Ptr, Place>, l: nat, p: Ptr, i: nat)
    requires Placed(mem, at) && l < 3 && p in mem && at[p] == Place(l, 0) && 0 < i < 256 && RootsPlaced(at, r)
    requires Cleared(mem, mem1, at, l + 1, 0 * 256 + i) && p in mem1 && mem1[p] == mem[p]
    requires mem' == mem1 || mem' == Put(mem1, p, i, 0)
    requires ChainFrom(mem, r, l, p)
    ensures ChainFrom(mem', r, l, p)
  {
    forall k | l < k < 3
      ensures r[k + 1] == Slot0(mem', r[k])
    {
      assert PlacedAt(at, r[k], k, 0);
      if r[k] != 0 {
        UpOfZero(k - (l + 1));
        assert !Under(at[r[k]], l + 1, i);
        assert mem1[r[k]] == mem[r[k]];
      }
      assert Slot0(mem', r[k]) == Slot0(mem, r[k]);
    }
  }

  lemma LinkedChain(mem: Mem, r: Roots)
    requires Linked(mem, r)
    ensures ChainFrom(mem, r, Top(r), r[Top(r)])
  {
  }

  /** The table and the links after the cleanup of the topmost root. */
  lemma CleanedTable(mem: Mem, r: Roots, mem': Mem, r': Roots, gone: bool)
    requires var t := Top(r);
             && SameEntries(mem, r[t], mem', if gone then 0 else r[t], t, 0)
             && ChainFrom(mem', r', t, if gone then 0 else r[t])
             && (forall k :: 0 <= k < t ==> r'[k] == 0) && r'[t] == (if gone then 0 else r[t]) && r[t] != 0
    ensures Linked(mem', r') && forall a :: 0 <= a ==> Table(mem', r', a) == Table(mem, r, a)
    ensures gone ==> r'[0] == 0 && r'[1] == 0 && r'[2] == 0 && r'[3] == 0
  {
    var t := Top(r);
    if gone {
      AllZero(mem', r', t);
    } else {
      assert Top(r') == t;
    }
    forall a | 0 <= a
      ensures Table(mem', r', a) == Table(mem, r, a)
    {
      if a < Span(t) {
        SmallIndexPrefix(t, a);
        assert Look(mem', if gone then 0 else r[t], t, a) == Look(mem, r[t], t, a);
      }
      if gone {
        assert Table(mem', r', a) == 0;
      }
    }
  }

  lemma AllZero(mem: Mem, r: Roots, t: nat)
    requires t <= 3 && (forall k :: 0 <= k <= t ==> r[k] == 0) && ChainFrom(mem, r, t, 0)
    ensures r[0] == r[1] == r[2] == r[3] == 0
  {
    assert t < 1 ==> r[0 + 1] == 0;
    assert t < 2 ==> r[1 + 1] == 0;
    assert t < 3 ==> r[2 + 1] == 0;
  }

  // ---- What a cleanup frees -----------------------------------------------------------------------

  lemma SamePath(l: nat, m: nat, a: nat, b: nat)
    requires l <= m <= 4 && Prefix(m, a) == Prefix(m, b)
    ensures Prefix(l, a) == Prefix(l, b) && (l < m ==> Digit(l, a) == Digit(l, b))
  {
    UpPrefix(l, m, a);
    UpPrefix(l, m, b);
    if l < m {
      UpPrefix(l + 1, m, a);
      UpPrefix(l + 1, m, b);
      PrefixStep(l, a);
      PrefixStep(l, b);
    }
  }

  /** The node of level m depends on the bytes above that level only. */
  lemma {:induction false} SameWalk(mem: Mem, p: Ptr, l: nat, m: nat, a: nat, b: nat)
    requires l <= m <= 3 && Prefix(m, a) == Prefix(m, b)
    ensures NodeAt(mem, p, l, m, a) == NodeAt(mem, p, l, m, b)
    decreases m - l
  {
    if l < m && IsNode(mem, p) {
      SamePath(l, m, a, b);
      SameWalk(mem, mem[p][Digit(l, a)], l + 1, m, a, b);
    }
  }

  /** A walk goes on from the node it has reached. */
  lemma {:induction false} WalkOn(mem: Mem, p: Ptr, l: nat, m: nat, b: nat)
    requires l <= m <= 3
    ensures Look(mem, p, l, b) == Look(mem, NodeAt(mem, p, l, m, b), m, b)
    decreases m - l
  {
    if l < m && IsNode(mem, p) {
      WalkOn(mem, mem[p][Digit(l, b)], l + 1, m, b);
    }
  }

  /** The walk from p finds an entry behind the node of level m on the way to index a. */
  ghost predicate EntryBelow(mem: Mem, p: Ptr, l: nat, m: nat, a: nat)
    requires l <= m <= 3
  {
    exists b :: 0 <= b && Prefix(m, b) == Prefix(m, a) && Look(mem, p, l, b) != 0
  }

  lemma BelowIsEntry(mem: Mem, p: Ptr, l: nat, m: nat, a: nat)
    requires l <= m <= 3
    ensures EntryBelow(mem, p, l, m, a) <==> HasEntry(mem, NodeAt(mem, p, l, m, a), m, Prefix(m, a))
  {
    hide Look, NodeAt, Prefix;
    forall b | 0 <= b && Prefix(m, b) == Prefix(m, a)
      ensures Look(mem, p, l, b) == Look(mem, NodeAt(mem, p, l, m, a), m, b)
    {
      SameWalk(mem, p, l, m, a, b);
      WalkOn(mem, p, l, m, b);
    }
  }

  lemma BelowKept(mem: Mem, p: Ptr, mem': Mem, p': Ptr, l: nat, pre: nat, m: nat, a: nat)
    requires l <= m <= 3 && SameEntries(mem, p, mem', p', l, pre) && Prefix(l, a) == pre
    ensures EntryBelow(mem, p, l, m, a) <==> EntryBelow(mem', p', l, m, a)
  {
    hide Look, Prefix;
    forall b | 0 <= b && Prefix(m, b) == Prefix(m, a)
      ensures Look(mem', p', l, b) == Look(mem, p, l, b)
    {
      SamePath(l, m, a, b);
    }
  }

  /** A walk that finds an entry meets a node on every level. */
  lemma EntryMeetsNodes(mem: Mem, p: Ptr, l: nat, m: nat, a: nat)
    requires l <= m <= 3 && EntryBelow(mem, p, l, m, a)
    ensures NodeAt(mem, p, l, m, a) != 0
  {
    var b :| 0 <= b && Prefix(m, b) == Prefix(m, a) && Look(mem, p, l, b) != 0;
    SameWalk(mem, p, l, m, a, b);
    WalkOn(mem, p, l, m, b);
  }

  /** Behind every node that walks from p reach, the node p included, there is an entry. */
  ghost predicate Pruned(mem: Mem, p: Ptr, l: nat, pre: nat)
    requires l <= 3
  {
    forall m, a :: l <= m <= 3 && 0 <= a && Prefix(l, a) == pre && NodeAt(mem, p, l, m, a) != 0 ==>
      EntryBelow(mem, p, l, m, a)
  }

  /** That is so of the nodes below the first n slots of p. */
  ghost predicate PrunedBelow(mem: Mem, p: Ptr, l: nat, pre: nat, n: nat)
    requires l <= 3
  {
    forall m, a :: l < m <= 3 && 0 <= a && Prefix(l, a) == pre && Digit(l, a) < n && NodeAt(mem, p, l, m, a) != 0 ==>
      EntryBelow(mem, p, l, m, a)
  }

  /** Every node that a walk no longer reaches has been freed. */
  ghost predicate NoneLost(mem: Mem, p: Ptr, mem': Mem, p': Ptr, l: nat, pre: nat, freed: set<Ptr>)
    requires l <= 3
  {
    forall m, a :: l <= m <= 3 && 0 <= a && Prefix(l, a) == pre && NodeAt(mem, p, l, m, a) != 0 ==>
      NodeAt(mem, p, l, m, a) in freed || NodeAt(mem', p', l, m, a) == NodeAt(mem, p, l, m, a)
  }

  ghost predicate Reached(mem: Mem, p: Ptr, l: nat, pre: nat, q: Ptr)
    requires l <= 3
  {
    q != 0 && exists m, a :: l <= m <= 3 && 0 <= a && Prefix(l, a) == pre && q == NodeAt(mem, p, l, m, a)
  }

  /** Only nodes that walks reached have been freed. */
  ghost predicate FreedReached(mem: Mem, p: Ptr, l: nat, pre: nat, freed: set<Ptr>)
    requires l <= 3
  {
    forall q :: q in freed ==> Reached(mem, p, l, pre, q)
  }

  /** A subtree has been cleaned: p is its node before, p' what is left. */
  ghost predicate Cleaned(mem: Mem, p: Ptr, mem': Mem, p': Ptr, l: nat, pre: nat, freed: set<Ptr>)
    requires l <= 3
  {
    && Pruned(mem', p', l, pre) && NoneLost(mem, p, mem', p', l, pre, freed) && FreedReached(mem, p, l, pre, freed)
  }

  /** The first n slots of p have been cleaned. */
  ghost predicate Cleaning(mem: Mem, mem': Mem, p: Ptr, l: nat, pre: nat, n: nat, freed: set<Ptr>)
    requires l <= 3
  {
    && PrunedBelow(mem', p, l, pre, n) && NoneLost(mem, p, mem', p, l, pre, freed)
    && FreedReached(mem, p, l, pre, freed)
  }

  /** Slot i of p has been cleaned. */
  ghost predicate SlotDone(mem: Mem, mem': Mem, p: Ptr, l: nat, pre: nat, i: nat, more: set<Ptr>)
    requires l < 3
  {
    && NoneLost(mem, p, mem', p, l, pre, more) && FreedReached(mem, p, l, pre, more)
    && IsNode(mem', p) && i < 256 && Pruned(mem', mem'[p][i], l + 1, pre * 256 + i)
  }

  lemma CleaningStarts(mem: Mem, p: Ptr, l: nat, pre: nat)
    requires l <= 3
    ensures Cleaning(mem, mem, p, l, pre, 0, {})
  {
  }

  /** An empty slot needs no cleaning. */
  lemma EmptySlot(mem: Mem, mem': Mem, p: Ptr, l: nat, pre: nat, i: nat, freed: set<Ptr>)
    requires l <= 3 && Cleaning(mem, mem', p, l, pre, i, freed) && IsNode(mem', p) && i < 256 && mem'[p][i] == 0
    ensures Cleaning(mem, mem', p, l, pre, i + 1, freed)
  {
    forall m, a | l < m <= 3 && 0 <= a && Prefix(l, a) == pre && Digit(l, a) == i
      ensures NodeAt(mem', p, l, m, a) == 0
    {
      NullWalk(mem', l + 1, m, a);
    }
    hide NodeAt, EntryBelow, Prefix, Digit;
  }

  /** Cleaning a further slot keeps what has been achieved below the others. */
  lemma PrunedKept(mem: Mem, mem': Mem, at: map<Ptr, Place>, p: Ptr, l: nat, pre: nat, n: nat)
    requires Placed(mem, at) && Cleared(mem, mem', at, l, pre) && l <= 3 && p in mem && at[p] == Place(l, pre)
    requires PrunedBelow(mem, p, l, pre, n) && SameEntries(mem, p, mem', p, l, pre)
    ensures PrunedBelow(mem', p, l, pre, n)
  {
    assert p in at;
    hide EntryBelow, Cleared, Placed, NodeAt, Prefix, SameEntries, Digit;
    forall m, a | l < m <= 3 && 0 <= a && Prefix(l, a) == pre && Digit(l, a) < n && NodeAt(mem', p, l, m, a) != 0
      ensures EntryBelow(mem', p, l, m, a)
    {
      ClearedNode(mem, mem', at, l, pre, p, l, m, a);
      BelowKept(mem, p, mem', p, l, pre, m, a);
    }
  }

  lemma PrunedSlot(mem: Mem, p: Ptr, l: nat, pre: nat, i: nat)
    requires l < 3 && IsNode(mem, p) && i < 256 && PrunedBelow(mem, p, l, pre, i)
    requires Pruned(mem, mem[p][i], l + 1, pre * 256 + i)
    ensures PrunedBelow(mem, p, l, pre, i + 1)
  {
    forall m, a | l < m <= 3 && 0 <= a && Prefix(l, a) == pre && Digit(l, a) == i && NodeAt(mem, p, l, m, a) != 0
      ensures EntryBelow(mem, p, l, m, a)
    {
      PrefixStep(l, a);
      assert NodeAt(mem, mem[p][i], l + 1, m, a) != 0;
      BelowChild(mem, p, l, i, m, a);
    }
    hide NodeAt, EntryBelow, Prefix, Digit, Pruned;
  }

  lemma BelowChild(mem: Mem, p: Ptr, l: nat, i: nat, m: nat, a: nat)
    requires l < m <= 3 && IsNode(mem, p) && i < 256 && Digit(l, a) == i && EntryBelow(mem, mem[p][i], l + 1, m, a)
    ensures EntryBelow(mem, p, l, m, a)
  {
    var b :| 0 <= b && Prefix(m, b) == Prefix(m, a) && Look(mem, mem[p][i], l + 1, b) != 0;
    SamePath(l, m, a, b);
    assert Look(mem, p, l, b) != 0;
  }

  lemma NoneLostTrans(m0: Mem, p0: Ptr, m1: Mem, p1: Ptr, m2: Mem, p2: Ptr, l: nat, pre: nat,
                      freed: set<Ptr>, more: set<Ptr>)
    requires l <= 3 && NoneLost(m0, p0, m1, p1, l, pre, freed) && NoneLost(m1, p1, m2, p2, l, pre, more)
    ensures NoneLost(m0, p0, m2, p2, l, pre, freed + more)
  {
    hide NodeAt, Prefix;
  }

  lemma FreedReachedTrans(mem: Mem, mem': Mem, at: map<Ptr, Place>, p: Ptr, l: nat, pre: nat,
                          freed: set<Ptr>, more: set<Ptr>)
    requires Placed(mem, at) && Cleared(mem, mem', at, l, pre) && l <= 3 && p in mem && at[p] == Place(l, pre)
    requires FreedReached(mem, p, l, pre, freed) && FreedReached(mem', p, l, pre, more)
    ensures FreedReached(mem, p, l, pre, freed + more)
  {
    assert p in at;
    hide NodeAt, Prefix, Cleared, Placed;
    forall q | q in more
      ensures Reached(mem, p, l, pre, q)
    {
      var m, a :| l <= m <= 3 && 0 <= a && Prefix(l, a) == pre && q == NodeAt(mem', p, l, m, a);
      ClearedNode(mem, mem', at, l, pre, p, l, m, a);
    }
  }

  /** One more slot. */
  lemma CleaningStep(mem: Mem, mem1: Mem, mem': Mem, at: map<Ptr, Place>, p: Ptr, l: nat, pre: nat, i: nat,
                     freed: set<Ptr>, more: set<Ptr>)
    requires Placed(mem, at) && Placed(mem1, at) && l < 3 && p in mem && p in mem1 && at[p] == Place(l, pre) && i < 256
    requires Cleared(mem, mem1, at, l, pre) && Cleared(mem1, mem', at, l, pre) && SameEntries(mem1, p, mem', p, l, pre)
    requires Cleaning(mem, mem1, p, l, pre, i, freed) && SlotDone(mem1, mem', p, l, pre, i, more)
    ensures Cleaning(mem, mem', p, l, pre, i + 1, freed + more)
  {
    hide Placed, Cleared, SameEntries, PrunedBelow, Pruned, NoneLost, FreedReached;
    PrunedKept(mem1, mem', at, p, l, pre, i);
    PrunedSlot(mem', p, l, pre, i);
    NoneLostTrans(mem, p, mem1, p, mem', p, l, pre, freed, more);
    FreedReachedTrans(mem, mem1, at, p, l, pre, freed, more);
  }

  /** The node stays, because there is an entry below it. */
  lemma CleanedKept(mem: Mem, mem': Mem, p: Ptr, l: nat, pre: nat, n: nat, freed: set<Ptr>)
    requires l <= 3 && Cleaning(mem, mem', p, l, pre, n, freed) && (n >= 256 || l == 3) && HasEntry(mem', p, l, pre)
    ensures Cleaned(mem, p, mem', p, l, pre, freed)
  {
    hide Look, Prefix;
    forall m, a | l <= m <= 3 && 0 <= a && Prefix(l, a) == pre && NodeAt(mem', p, l, m, a) != 0
      ensures EntryBelow(mem', p, l, m, a)
    {
    }
  }

  /** The emptied node is freed as well. */
  lemma CleanedGone(mem: Mem, mem': Mem, p: Ptr, l: nat, pre: nat, freed: set<Ptr>)
    requires l <= 3 && Cleaning(mem, mem', p, l, pre, 256, freed) && IsNode(mem', p) && p != 0
    requires forall j :: 0 <= j < 256 ==> mem'[p][j] == 0
    ensures Cleaned(mem, p, mem', 0, l, pre, freed + {p})
  {
    forall m, a | l <= m <= 3 && 0 <= a
      ensures NodeAt(mem', 0, l, m, a) == 0 && (m > l ==> NodeAt(mem', p, l, m, a) == 0)
      ensures m == l ==> NodeAt(mem, p, l, m, a) == p
    {
      NullWalk(mem', l, m, a);
      if m > l {
        NullWalk(mem', l + 1, m, a);
      }
    }
    FirstPath(l, pre);
    assert Reached(mem, p, l, pre, p) by {
      assert NodeAt(mem, p, l, l, pre * Span(l)) == p;
    }
    hide NodeAt, Prefix, EntryBelow;
  }

  lemma FirstPath(l: nat, pre: nat)
    requires l <= 3
    ensures Prefix(l, pre * Span(l)) == pre
  {
    ModOfMultiple(pre, Span(l));
  }

  /** Walks outside a cleaned slot are as before. */
  lemma {:induction false} NodeOutside(mem: Mem, mem': Mem, at: map<Ptr, Place>, l: nat, pre: nat, q: Ptr, k: nat,
                                       m: nat, a: nat)
    requires Placed(mem, at) && Cleared(mem, mem', at, l, pre) && l <= k <= m <= 3 && PlacedAt(at, q, k, Prefix(k, a))
    requires Prefix(l, a) != pre
    ensures NodeAt(mem', q, k, m, a) == NodeAt(mem, q, k, m, a)
    decreases m - k
  {
    if q != 0 && k < m {
      UpPrefix(l, k, a);
      assert !Under(at[q], l, pre);
      ChildPlaced(mem, at, q, k, a);
      NodeOutside(mem, mem', at, l, pre, mem[q][Digit(k, a)], k + 1, m, a);
    }
  }

  lemma {:induction false} NodeUnderPut(mem: Mem, at: map<Ptr, Place>, p: Ptr, i: nat, q: Ptr, k: nat, m: nat, a: nat)
    requires Placed(mem, at) && p in mem && i < 256 && at[p].level < k <= m <= 3 && PlacedAt(at, q, k, Prefix(k, a))
    ensures NodeAt(Put(mem, p, i, 0), q, k, m, a) == NodeAt(mem, q, k, m, a)
    decreases m - k
  {
    if q != 0 && k < m {
      ChildPlaced(mem, at, q, k, a);
      NodeUnderPut(mem, at, p, i, mem[q][Digit(k, a)], k + 1, m, a);
    }
  }

  /** The walks from p when slot i has been cleaned. */
  lemma SlotNode(mem: Mem, mem1: Mem, at: map<Ptr, Place>, p: Ptr, l: nat, pre: nat, i: nat, gone: bool, m: nat, a: nat)
    requires Placed(mem, at) && Placed(mem1, at) && l < m <= 3 && p in mem && at[p] == Place(l, pre) && i < 256
    requires Cleared(mem, mem1, at, l + 1, pre * 256 + i) && p in mem1 && mem1[p] == mem[p] && Prefix(l, a) == pre
    ensures var mem' := if gone then Put(mem1, p, i, 0) else mem1;
            NodeAt(mem', p, l, m, a) == if Digit(l, a) != i then NodeAt(mem, p, l, m, a)
                                        else NodeAt(mem1, if gone then 0 else mem[p][i], l + 1, m, a)
  {
    hide Cleared;
    var d := Digit(l, a);
    PrefixStep(l, a);
    ChildPlaced(mem, at, p, l, a);
    if d != i {
      NodeOutside(mem, mem1, at, l + 1, pre * 256 + i, mem[p][d], l + 1, m, a);
      if gone {
        NodeUnderPut(mem1, at, p, i, mem[p][d], l + 1, m, a);
      }
    } else if gone {
      NullWalk(Put(mem1, p, i, 0), l + 1, m, a);
      NullWalk(mem1, l + 1, m, a);
    }
  }

  /** The cleaning of a child, seen from its parent. */
  lemma ChildCleaned(mem: Mem, mem1: Mem, at: map<Ptr, Place>, p: Ptr, l: nat, pre: nat, i: nat, gone: bool,
                     more: set<Ptr>)
    requires Placed(mem, at) && Placed(mem1, at) && l < 3 && p in mem && at[p] == Place(l, pre) && i < 256
    requires Cleared(mem, mem1, at, l + 1, pre * 256 + i) && p in mem1 && mem1[p] == mem[p]
    requires Cleaned(mem, mem[p][i], mem1, if gone then 0 else mem[p][i], l + 1, pre * 256 + i, more)
    ensures SlotDone(mem, if gone then Put(mem1, p, i, 0) else mem1, p, l, pre, i, more)
  {
    var c, c' := mem[p][i], if gone then 0 else mem[p][i];
    var mem' := if gone then Put(mem1, p, i, 0) else mem1;
    assert IsNode(mem', p) && mem'[p][i] == c';
    assert Pruned(mem', c', l + 1, pre * 256 + i) by {
      if gone {
        NothingPruned(mem', l + 1, pre * 256 + i);
      }
    }
    ChildNotLost(mem, mem1, at, p, l, pre, i, gone, more);
    ChildReached(mem, p, l, pre, i, more);
  }

  lemma NothingPruned(mem: Mem, l: nat, pre: nat)
    requires l <= 3
    ensures Pruned(mem, 0, l, pre)
  {
    forall m, a | l <= m <= 3 && 0 <= a
      ensures NodeAt(mem, 0, l, m, a) == 0
    {
      NullWalk(mem, l, m, a);
    }
  }

  lemma ChildNotLost(mem: Mem, mem1: Mem, at: map<Ptr, Place>, p: Ptr, l: nat, pre: nat, i: nat, gone: bool,
                     more: set<Ptr>)
    requires Placed(mem, at) && Placed(mem1, at) && l < 3 && p in mem && at[p] == Place(l, pre) && i < 256
    requires Cleared(mem, mem1, at, l + 1, pre * 256 + i) && p in mem1 && mem1[p] == mem[p]
    requires NoneLost(mem, mem[p][i], mem1, if gone then 0 else mem[p][i], l + 1, pre * 256 + i, more)
    ensures NoneLost(mem, p, if gone then Put(mem1, p, i, 0) else mem1, p, l, pre, more)
  {
    hide Cleared;
    var mem' := if gone then Put(mem1, p, i, 0) else mem1;
    forall m, a | l <= m <= 3 && 0 <= a && Prefix(l, a) == pre && NodeAt(mem, p, l, m, a) != 0
      ensures NodeAt(mem, p, l, m, a) in more || NodeAt(mem', p, l, m, a) == NodeAt(mem, p, l, m, a)
    {
      if m > l {
        SlotNode(mem, mem1, at, p, l, pre, i, gone, m, a);
        PrefixStep(l, a);
        assert Digit(l, a) == i ==> NodeAt(mem, p, l, m, a) == NodeAt(mem, mem[p][i], l + 1, m, a);
      }
    }
  }

  lemma ChildReached(mem: Mem, p: Ptr, l: nat, pre: nat, i: nat, more: set<Ptr>)
    requires l < 3 && IsNode(mem, p) && i < 256 && FreedReached(mem, mem[p][i], l + 1, pre * 256 + i, more)
    ensures FreedReached(mem, p, l, pre, more)
  {
    forall q | q in more
      ensures Reached(mem, p, l, pre, q)
    {
      assert Reached(mem, mem[p][i], l + 1, pre * 256 + i, q);
      var m, a :| l + 1 <= m <= 3 && 0 <= a && Prefix(l + 1, a) == pre * 256 + i
                  && q == NodeAt(mem, mem[p][i], l + 1, m, a);
      PrefixStep(l, a);
      assert NodeAt(mem, p, l, m, a) == q;
    }
  }

  /** What is freed are exactly the nodes that walks reached and that had no entry below them. */
  ghost predicate FreedExactly(mem: Mem, p: Ptr, l: nat, pre: nat, freed: set<Ptr>)
    requires l <= 3
  {
    forall q :: q in freed <==> q != 0 && Barren(mem, p, l, pre, q)
  }

  ghost predicate Barren(mem: Mem, p: Ptr, l: nat, pre: nat, q: Ptr)
    requires l <= 3
  {
    exists m, a :: l <= m <= 3 && 0 <= a && Prefix(l, a) == pre && q == NodeAt(mem, p, l, m, a)
                   && !HasEntry(mem, q, m, Prefix(m, a))
  }

  lemma CleanedExactly(mem: Mem, p: Ptr, mem': Mem, p': Ptr, at: map<Ptr, Place>, l: nat, pre: nat, freed: set<Ptr>)
    requires Placed(mem, at) && Cleared(mem, mem', at, l, pre) && l <= 3 && p in mem && at[p] == Place(l, pre)
    requires p' == p || p' == 0
    requires Cleaned(mem, p, mem', p', l, pre, freed) && SameEntries(mem, p, mem', p', l, pre)
    requires Avoids(mem', p', l, pre, freed)
    ensures FreedExactly(mem, p, l, pre, freed)
  {
    hide Placed, Cleared, SameEntries, HasEntry, EntryBelow, NodeAt, Prefix;
    forall q | q in freed
      ensures q != 0 && Barren(mem, p, l, pre, q)
    {
      assert Reached(mem, p, l, pre, q);
      var m, a :| l <= m <= 3 && 0 <= a && Prefix(l, a) == pre && q == NodeAt(mem, p, l, m, a);
      FreedIsBarren(mem, p, mem', p', at, l, pre, freed, m, a);
    }
    forall q | q != 0 && Barren(mem, p, l, pre, q)
      ensures q in freed
    {
      var m, a :| l <= m <= 3 && 0 <= a && Prefix(l, a) == pre && q == NodeAt(mem, p, l, m, a)
                  && !HasEntry(mem, q, m, Prefix(m, a));
      BelowIsEntry(mem, p, l, m, a);
      BelowKept(mem, p, mem', p', l, pre, m, a);
    }
  }

  lemma FreedIsBarren(mem: Mem, p: Ptr, mem': Mem, p': Ptr, at: map<Ptr, Place>, l: nat, pre: nat, freed: set<Ptr>,
                      m: nat, a: nat)
    requires Placed(mem, at) && Cleared(mem, mem', at, l, pre) && l <= m <= 3 && p in mem && at[p] == Place(l, pre)
    requires p' == p || p' == 0
    requires SameEntries(mem, p, mem', p', l, pre) && Avoids(mem', p', l, pre, freed) && Prefix(l, a) == pre
    requires NodeAt(mem, p, l, m, a) in freed
    ensures !HasEntry(mem, NodeAt(mem, p, l, m, a), m, Prefix(m, a))
  {
    assert p in at;
    hide Placed, Cleared, SameEntries, HasEntry, EntryBelow, NodeAt, Prefix;
    BelowIsEntry(mem, p, l, m, a);
    if EntryBelow(mem, p, l, m, a) {
      BelowKept(mem, p, mem', p', l, pre, m, a);
      EntryMeetsNodes(mem', p', l, m, a);
      assert NodeAt(mem', p', l, m, a) !in freed;
      if p' == 0 {
        NullWalk(mem', l, m, a);
      } else {
        ClearedNode(mem, mem', at, l, pre, p, l, m, a);
      }
    }
  }

  // ---- The whole tree after a cleanup ---------------------------------------------------------------

  /** Neither a root nor a walk from the topmost root leads to one of the nodes. */
  ghost predicate Unreached(mem: Mem, r: Roots, freed: set<Ptr>) {
    && (forall l :: 0 <= l < 4 ==> r[l] !in freed)
    && forall m, a :: Top(r) <= m <= 3 && 0 <= a < Span(Top(r)) ==>
         NodeAt(mem, r[Top(r)], Top(r), m, a) !in freed
  }

  /** Every node that a walk from the topmost root reaches has an entry below it. */
  ghost predicate AllUsed(mem: Mem, r: Roots) {
    forall m, a :: Top(r) <= m <= 3 && 0 <= a < Span(Top(r)) && NodeAt(mem, r[Top(r)], Top(r), m, a) != 0 ==>
      HasEntry(mem, NodeAt(mem, r[Top(r)], Top(r), m, a), m, Prefix(m, a))
  }

  /** Every root that is not NULL has an entry among its indices. */
  ghost predicate RootsUsed(mem: Mem, r: Roots) {
    forall l :: 0 <= l < 4 && r[l] != 0 ==> exists a :: 0 <= a < Span(l) && Table(mem, r, a) != 0
  }

  /** The nodes are those that walks from the topmost root reach and that have no entry below them. */
  ghost predicate FreedFrom(mem: Mem, r: Roots, freed: set<Ptr>) {
    forall q :: q in freed <==> q != 0 && UnusedNode(mem, r, q)
  }

  ghost predicate UnusedNode(mem: Mem, r: Roots, q: Ptr) {
    exists m, a :: Top(r) <= m <= 3 && 0 <= a < Span(Top(r)) && q == NodeAt(mem, r[Top(r)], Top(r), m, a)
                   && !HasEntry(mem, q, m, Prefix(m, a))
  }

  lemma InSpan(l: nat, a: nat)
    requires l <= 3
    ensures a < Span(l) <==> Prefix(l, a) == 0
  {
    if a >= Span(l) {
      DivMono(Span(l), a, Span(l));
      ModOfMultiple(1, Span(l));
    }
  }

  lemma EmptyTree(mem: Mem, r: Roots)
    requires r[Top(r)] == 0
    ensures FreedFrom(mem, r, {}) && Unreached(mem, r, {}) && AllUsed(mem, r) && RootsUsed(mem, r)
  {
    forall m, a | Top(r) <= m <= 3 && 0 <= a < Span(Top(r))
      ensures NodeAt(mem, r[Top(r)], Top(r), m, a) == 0
    {
      NullWalk(mem, Top(r), m, a);
    }
    hide NodeAt, HasEntry, Prefix;
  }

  lemma FreedFromTop(mem: Mem, r: Roots, mem': Mem, p': Ptr, at: map<Ptr, Place>, freed: set<Ptr>)
    requires var t := Top(r);
             && Sound(mem, at, r) && r[t] != 0 && r[t] in mem && at[r[t]] == Place(t, 0) && (p' == r[t] || p' == 0)
             && Cleared(mem, mem', at, t, 0) && Cleaned(mem, r[t], mem', p', t, 0, freed)
             && SameEntries(mem, r[t], mem', p', t, 0) && Avoids(mem', p', t, 0, freed)
    ensures FreedFrom(mem, r, freed)
  {
    var t := Top(r);
    CleanedExactly(mem, r[t], mem', p', at, t, 0, freed);
    hide NodeAt, HasEntry, Prefix, Cleared, Cleaned, SameEntries, Avoids, Sound, Span;
    forall a: nat
      ensures a < Span(t) <==> Prefix(t, a) == 0
    {
      InSpan(t, a);
    }
    forall q
      ensures UnusedNode(mem, r, q) <==> Barren(mem, r[t], t, 0, q)
    {
    }
  }

  lemma UsedAfter(mem: Mem, at: map<Ptr, Place>, r: Roots, t: nat, gone: bool)
    requires t <= 3 && Linked(mem, r) && Pruned(mem, r[t], t, 0)
    requires (forall k :: 0 <= k < t ==> r[k] == 0) && (gone <==> r[t] == 0)
    requires gone ==> r[0] == 0 && r[1] == 0 && r[2] == 0 && r[3] == 0
    ensures AllUsed(mem, r) && RootsUsed(mem, r)
  {
    if gone {
      EmptyTree(mem, r);
    } else {
      assert Top(r) == t;
      WalksUsed(mem, r, t);
      forall l | 0 <= l < 4 && r[l] != 0
        ensures exists a :: 0 <= a < Span(l) && Table(mem, r, a) != 0
      {
        RootUsed(mem, r, t, l);
      }
    }
  }

  lemma CleanedPruned(mem: Mem, p: Ptr, mem': Mem, p': Ptr, l: nat, pre: nat, freed: set<Ptr>)
    requires l <= 3 && Cleaned(mem, p, mem', p', l, pre, freed)
    ensures Pruned(mem', p', l, pre)
  {
  }

  lemma WalksUsed(mem: Mem, r: Roots, t: nat)
    requires t == Top(r) && Pruned(mem, r[t], t, 0)
    ensures AllUsed(mem, r)
  {
    hide NodeAt, HasEntry, Prefix, EntryBelow, Span;
    forall m, a | t <= m <= 3 && 0 <= a < Span(t) && NodeAt(mem, r[t], t, m, a) != 0
      ensures HasEntry(mem, NodeAt(mem, r[t], t, m, a), m, Prefix(m, a))
    {
      InSpan(t, a);
      BelowIsEntry(mem, r[t], t, m, a);
    }
  }

  lemma RootUsed(mem: Mem, r: Roots, t: nat, l: nat)
    requires t == Top(r) && Linked(mem, r) && Pruned(mem, r[t], t, 0) && l <= 3 && r[l] != 0
    ensures exists a :: 0 <= a < Span(l) && Table(mem, r, a) != 0
  {
    assert t <= l;
    RootOnWalk(mem, r, l);
    hide NodeAt;
    assert Prefix(t, 0) == 0;
    assert EntryBelow(mem, r[t], t, l, 0);
    var b :| 0 <= b && Prefix(l, b) == Prefix(l, 0) && Look(mem, r[t], t, b) != 0;
    InSpan(l, b);
    assert Span(l) <= Span(t);
    assert Table(mem, r, b) != 0;
  }

  lemma NoneListed(mem: Mem, p: Ptr, l: nat, base: nat)
    requires l <= 3
    ensures Listing([], mem, p, l, base, base + 0 * Span(l + 1))
  {
  }

  lemma SlotCount(l: nat)
    requires l <= 3
    ensures 256 * Span(l + 1) == Span(l)
  {
  }

  lemma SmallIndexPrefix(l: nat, a: nat)
    requires l <= 3 && a < Span(l)
    ensures Prefix(l, a) == 0
  {
  }

  lemma LeafSlot(mem: Mem, p: Ptr, base: nat, i: nat, more: seq<Entry>)
    requires IsNode(mem, p) && i < 256 && base % Span(3) == 0
    requires more == if mem[p][i] != 0 then [Entry(base + i, mem[p][i])] else []
    ensures Listing(more, mem, p, 3, base + i * Span(4), base + i * Span(4) + Span(4))
  {
    SlotRange(3, base, i, base + i);
    assert Look(mem, p, 3, base + i) == mem[p][i];
  }

  lemma NullListing(mem: Mem, l: nat, lo: nat, hi: nat)
    requires l <= 3
    ensures Listing([], mem, 0, l, lo, hi)
  {
  }
}
