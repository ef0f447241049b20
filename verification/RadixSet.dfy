/**
  What radix_set (common/radix.c) does to the nodes and roots, and exactly when it keeps the tree
  well linked.
*/
module RadixSet {
  import opened Radix
  import opened RadixTree

  // ---- When the tree stays well linked -------------------------------------------------------------

  /**
    The condition under which radix_set keeps the roots right. A new shortcut root must not have a root
    above it, and a missing node must not be created where its byte is 0 but a byte above is not.
  */
  predicate Safe(mem: Mem, r: Roots, a: nat) {
    if a < 0x100 then r[3] != 0 || (r[0] == 0 && r[1] == 0 && r[2] == 0)
    else if a < 0x1_0000 then r[2] != 0 || (r[0] == 0 && r[1] == 0)
    else if a < 0x100_0000 then
      (r[1] != 0 || r[0] == 0) && (Digit(2, a) == 0 ==> NodeAt(mem, r[1], 1, 3, a) != 0)
    else
      && (Digit(1, a) == 0 ==> NodeAt(mem, r[0], 0, 2, a) != 0)
      && (Digit(2, a) == 0 ==> NodeAt(mem, r[0], 0, 3, a) != 0)
  }

  /** On a well-linked tree whose topmost root is in place, all roots are in place. */
  lemma {:induction false} LinkedRootPlaced(mem: Mem, at: map<Ptr, Place>, r: Roots, l: nat)
    requires Placed(mem, at) && Linked(mem, r) && PlacedAt(at, r[Top(r)], Top(r), 0) && Top(r) <= l <= 3
    ensures PlacedAt(at, r[l], l, 0)
    decreases l
  {
    if l > Top(r) {
      LinkedRootPlaced(mem, at, r, l - 1);
      assert r[l - 1 + 1] == Slot0(mem, r[l - 1]);
    }
  }

  /** A root that has been pointed at a node with another place breaks the links. */
  lemma MisplacedRoot(mem: Mem, at: map<Ptr, Place>, r: Roots, l: nat, pre: nat)
    requires Placed(mem, at) && PlacedAt(at, r[Top(r)], Top(r), 0) && Top(r) <= l <= 3
    requires r[l] != 0 && r[l] in at && at[r[l]] == Place(l, pre) && pre != 0
    ensures !Linked(mem, r)
  {
    if Linked(mem, r) {
      LinkedRootPlaced(mem, at, r, l);
    }
  }

  // ---- The table ------------------------------------------------------------------------------------

  /** All walks from nodes in place give what they gave. */
  ghost predicate SameWalks(mem: Mem, at: map<Ptr, Place>, mem': Mem) {
    forall q, m, a :: 0 <= m <= 3 && 0 <= a && q in at && at[q] == Place(m, Prefix(m, a)) ==>
      Look(mem', q, m, a) == Look(mem, q, m, a)
  }

  ghost predicate SameTable(mem: Mem, r: Roots, mem': Mem, r': Roots) {
    forall a :: 0 <= a ==> Table(mem', r', a) == Table(mem, r, a)
  }

  /** The table with one entry set. */
  ghost predicate TableSet(mem: Mem, r: Roots, mem': Mem, r': Roots, index: nat, val: nat) {
    Table(mem', r', index) == val && forall a :: 0 <= a && a != index ==> Table(mem', r', a) == Table(mem, r, a)
  }

  lemma WalksGiveTable(mem: Mem, at: map<Ptr, Place>, mem': Mem, r: Roots)
    requires SameWalks(mem, at, mem') && RootsPlaced(at, r)
    ensures SameTable(mem, r, mem', r)
  {
    hide Look;
    var t := Top(r);
    forall a | 0 <= a
      ensures Table(mem', r, a) == Table(mem, r, a)
    {
      if a < Span(t) {
        SmallIndexPrefix(t, a);
        assert PlacedAt(at, r[t], t, 0);
        if r[t] == 0 {
          NullLook(mem, t, a);
          NullLook(mem', t, a);
        }
      }
    }
  }

  lemma NullLook(mem: Mem, l: nat, a: nat)
    requires l <= 3
    ensures Look(mem, 0, l, a) == 0
  {
  }

  // ---- New nodes -------------------------------------------------------------------------------------

  /** A fresh empty node in an empty slot. */
  lemma ChildAdded(mem: Mem, at: map<Ptr, Place>, p: Ptr, l: nat, a: nat, n: Ptr)
    requires Placed(mem, at) && l < 3 && p in mem && at[p] == Place(l, Prefix(l, a)) && mem[p][Digit(l, a)] == 0
    requires n !in mem && n != 0
    ensures var mem', at' := Put(mem, p, Digit(l, a), n)[n := NewNode()], at[n := Place(l + 1, Prefix(l + 1, a))];
            Placed(mem', at') && SameWalks(mem, at, mem')
  {
    PrefixStep(l, a);
    var i := Digit(l, a);
    var mem' := Put(mem, p, i, n)[n := NewNode()];
    hide Look, Digit, Prefix;
    forall q, m, b | 0 <= m <= 3 && 0 <= b && q in at && at[q] == Place(m, Prefix(m, b))
      ensures Look(mem', q, m, b) == Look(mem, q, m, b)
    {
      NodeLinked(mem, at, q, m, b, p, i, n);
    }
  }

  /** The slots of a node put above an existing root. */
  function RootNode(below: Ptr): (s: seq<nat>)
    ensures |s| == 256 && s[0] == below && forall i :: 0 < i < 256 ==> s[i] == 0
  {
    seq(256, i requires 0 <= i < 256 => if i == 0 then below else 0)
  }

  /** A new root of level l, put above the topmost root of the level below. */
  lemma RootAdded(mem: Mem, at: map<Ptr, Place>, r: Roots, l: nat, n: Ptr)
    requires Sound(mem, at, r) && Linked(mem, r) && l <= 3 && n !in mem && n != 0
    requires (forall k :: 0 <= k <= l ==> r[k] == 0)
             && (l < 3 && r[l + 1] == 0 ==> forall k :: 0 <= k < 4 ==> r[k] == 0)
    ensures var mem', at' := mem[n := RootNode(if l < 3 then r[l + 1] else 0)], at[n := Place(l, 0)];
            Sound(mem', at', r[l := n]) && Linked(mem', r[l := n]) && SameTable(mem, r, mem', r[l := n])
  {
    var below := if l < 3 then r[l + 1] else 0;
    var mem', at', r' := mem[n := RootNode(below)], at[n := Place(l, 0)], r[l := n];
    RootAddedSound(mem, at, r, l, n);
    RootAddedLinked(mem, at, r, l, n);
    assert Top(r') == l;
    forall a | 0 <= a
      ensures Table(mem', r', a) == Table(mem, r, a)
    {
      RootAddedTable(mem, at, r, l, n, a);
    }
  }

  lemma RootAddedSound(mem: Mem, at: map<Ptr, Place>, r: Roots, l: nat, n: Ptr)
    requires Sound(mem, at, r) && l <= 3 && n !in mem && n != 0
    ensures Sound(mem[n := RootNode(if l < 3 then r[l + 1] else 0)], at[n := Place(l, 0)], r[l := n])
  {
    assert l < 3 ==> PlacedAt(at, r[l + 1], l + 1, 0);
  }

  lemma RootAddedLinked(mem: Mem, at: map<Ptr, Place>, r: Roots, l: nat, n: Ptr)
    requires Sound(mem, at, r) && Linked(mem, r) && l <= 3 && n !in mem && n != 0
    requires (forall k :: 0 <= k <= l ==> r[k] == 0)
             && (l < 3 && r[l + 1] == 0 ==> forall k :: 0 <= k < 4 ==> r[k] == 0)
    ensures Linked(mem[n := RootNode(if l < 3 then r[l + 1] else 0)], r[l := n])
  {
    var mem', r' := mem[n := RootNode(if l < 3 then r[l + 1] else 0)], r[l := n];
    assert Top(r') == l;
    forall k | l <= k < 3
      ensures r'[k + 1] == Slot0(mem', r'[k])
    {
      if k > l && r[l + 1] != 0 {
        assert Top(r) == l + 1;
        assert r[k + 1] == Slot0(mem, r[k]);
        assert PlacedAt(at, r[k], k, 0);
      }
    }
  }

  lemma RootAddedTable(mem: Mem, at: map<Ptr, Place>, r: Roots, l: nat, n: Ptr, a: nat)
    requires Sound(mem, at, r) && l <= 3 && n !in mem && n != 0
    requires (forall k :: 0 <= k <= l ==> r[k] == 0)
             && (l < 3 && r[l + 1] == 0 ==> forall k :: 0 <= k < 4 ==> r[k] == 0)
    ensures Table(mem[n := RootNode(if l < 3 then r[l + 1] else 0)], r[l := n], a) == Table(mem, r, a)
  {
    var below := if l < 3 then r[l + 1] else 0;
    var mem', r' := mem[n := RootNode(below)], r[l := n];
    assert Top(r') == l;
    if a < Span(l) {
      if l == 3 {
        assert mem'[n][Digit(3, a)] == 0;
        NullLook(mem, 3, a);
      } else if below == 0 {
        assert mem'[n][Digit(l, a)] == 0;
        NullLook(mem', l + 1, a);
        NullLook(mem, 3, a);
      } else if a < Span(l + 1) {
        SmallIndex(l + 1, a, l);
        assert PlacedAt(at, r[l + 1], l + 1, 0);
        NodeAdded(mem, at, below, l + 1, a, n, RootNode(below));
      } else {
        LargeDigit(l, a);
        assert mem'[n][Digit(l, a)] == 0;
        NullLook(mem', l + 1, a);
      }
    }
  }

  lemma LargeDigit(l: nat, a: nat)
    requires l < 3 && Span(l + 1) <= a < Span(l)
    ensures Digit(l, a) != 0
  {
    var q := a / Span(l + 1);
    assert 1 <= q < 256;
  }

  // ---- Storing the value -----------------------------------------------------------------------------

  /** The walk for index a from the node p of level l ends in the node p3. */
  ghost predicate Leads(mem: Mem, p: Ptr, l: nat, a: nat, p3: Ptr)
    requires l <= 3
    decreases 3 - l
  {
    if l == 3 then p == p3 else IsNode(mem, p) && Leads(mem, mem[p][Digit(l, a)], l + 1, a, p3)
  }

  lemma {:induction false} LeadsToValue(mem: Mem, at: map<Ptr, Place>, p: Ptr, l: nat, a: nat, p3: Ptr, v: nat)
    requires Placed(mem, at) && l <= 3 && Leads(mem, p, l, a, p3) && p in mem && at[p] == Place(l, Prefix(l, a))
    requires p3 in mem && at[p3].level == 3
    ensures Look(Put(mem, p3, Digit(3, a), v), p, l, a) == v
    decreases 3 - l
  {
    if l < 3 {
      ChildPlaced(mem, at, p, l, a);
      var c := mem[p][Digit(l, a)];
      LeadsSomewhere(mem, c, l + 1, a, p3);
      LeadsToValue(mem, at, c, l + 1, a, p3, v);
    }
  }

  lemma LeadsSomewhere(mem: Mem, p: Ptr, l: nat, a: nat, p3: Ptr)
    requires l <= 3 && Leads(mem, p, l, a, p3) && p3 != 0
    ensures p != 0
  {
  }

  /** A value stored in the node its index leads to is one entry of the table, and no link changes. */
  lemma Stored(mem: Mem, at: map<Ptr, Place>, r: Roots, l: nat, a: nat, p3: Ptr, v: nat)
    requires Sound(mem, at, r) && Linked(mem, r) && l <= 3 && a < Span(l) && (l < 3 ==> a >= Span(l + 1))
    requires r[l] != 0 && Leads(mem, r[l], l, a, p3) && p3 in mem && at[p3] == Place(3, Prefix(3, a))
    ensures var mem' := Put(mem, p3, Digit(3, a), v);
            Sound(mem', at, r) && Linked(mem', r) && TableSet(mem, r, mem', r, a, v)
  {
    var mem' := Put(mem, p3, Digit(3, a), v);
    StoredLinks(mem, at, r, p3, Digit(3, a), v);
    assert PlacedAt(at, r[l], l, 0);
    SmallIndexPrefix(l, a);
    LeadsToValue(mem, at, r[l], l, a, p3, v);
    ShortcutIsFullWalk(mem', r, l, a);
    hide Look, Linked, Sound;
    forall b | 0 <= b && b != a
      ensures Table(mem', r, b) == Table(mem, r, b)
    {
      OtherEntry(mem, at, r, a, b, p3, v);
    }
  }

  lemma OtherEntry(mem: Mem, at: map<Ptr, Place>, r: Roots, a: nat, b: nat, p3: Ptr, v: nat)
    requires Sound(mem, at, r) && p3 in mem && at[p3] == Place(3, Prefix(3, a)) && b != a
    ensures |mem[p3]| == 256 && Table(Put(mem, p3, Digit(3, a), v), r, b) == Table(mem, r, b)
  {
    var t := Top(r);
    if b < Span(t) {
      SmallIndexPrefix(t, b);
      assert PlacedAt(at, r[t], t, 0);
      ValueWritten(mem, at, r[t], t, b, p3, a, v);
    }
  }

  lemma StoredLinks(mem: Mem, at: map<Ptr, Place>, r: Roots, p3: Ptr, i: nat, v: nat)
    requires Sound(mem, at, r) && p3 in mem && at[p3].level == 3 && i < 256
    ensures Sound(Put(mem, p3, i, v), at, r)
    ensures Linked(Put(mem, p3, i, v), r) <==> Linked(mem, r)
  {
    var mem' := Put(mem, p3, i, v);
    forall l | 0 <= l < 3
      ensures Slot0(mem', r[l]) == Slot0(mem, r[l])
    {
      assert PlacedAt(at, r[l], l, 0);
    }
  }

  // ---- Paths to a node ---------------------------------------------------------------------------------

  /** The nodes above level m are as they were. */
  ghost predicate SameAbove(mem: Mem, at: map<Ptr, Place>, mem': Mem, m: nat) {
    forall q :: q in mem && q in at && at[q].level < m ==> q in mem' && mem'[q] == mem[q]
  }

  lemma {:induction false} NodeAtKept(mem: Mem, at: map<Ptr, Place>, mem': Mem, p: Ptr, l: nat, m: nat, a: nat)
    requires Placed(mem, at) && SameAbove(mem, at, mem', m) && l <= m <= 3 && PlacedAt(at, p, l, Prefix(l, a))
    requires NodeAt(mem, p, l, m, a) != 0
    ensures NodeAt(mem', p, l, m, a) == NodeAt(mem, p, l, m, a)
    decreases m - l
  {
    if l < m {
      ChildPlaced(mem, at, p, l, a);
      NodeAtKept(mem, at, mem', mem[p][Digit(l, a)], l + 1, m, a);
    }
  }

  lemma {:induction false} LeadsVia(mem: Mem, p: Ptr, l: nat, a: nat, p2: Ptr)
    requires l <= 2 && NodeAt(mem, p, l, 2, a) == p2 && IsNode(mem, p2)
    ensures Leads(mem, p, l, a, mem[p2][Digit(2, a)])
    decreases 2 - l
  {
    if l < 2 {
      LeadsVia(mem, mem[p][Digit(l, a)], l + 1, a, p2);
    }
  }

  // ---- Steps of radix_set ------------------------------------------------------------------------------

  /** A new child, in a slot that no root names, keeps every root right or wrong as it was. */
  lemma ChildKeepsLinks(mem: Mem, at: map<Ptr, Place>, r: Roots, p: Ptr, l: nat, a: nat, n: Ptr)
    requires Sound(mem, at, r) && l < 3 && p in mem && at[p] == Place(l, Prefix(l, a)) && mem[p][Digit(l, a)] == 0
    requires n !in mem && n != 0 && (Digit(l, a) != 0 || Prefix(l, a) != 0)
    ensures var mem', at' := Put(mem, p, Digit(l, a), n)[n := NewNode()], at[n := Place(l + 1, Prefix(l + 1, a))];
            Sound(mem', at', r) && (Linked(mem', r) <==> Linked(mem, r)) && SameTable(mem, r, mem', r)
  {
    var mem', at' := Put(mem, p, Digit(l, a), n)[n := NewNode()], at[n := Place(l + 1, Prefix(l + 1, a))];
    ChildAdded(mem, at, p, l, a, n);
    WalksGiveTable(mem, at, mem', r);
    hide SameWalks, SameTable;
    forall k | 0 <= k < 4
      ensures PlacedAt(at', r[k], k, 0) && Slot0(mem', r[k]) == Slot0(mem, r[k])
    {
      assert PlacedAt(at, r[k], k, 0);
    }
  }

  ghost predicate Base(x: Tree)
    reads x
  {
    Placed(x.mem, x.at) && x.next > 0 && forall p :: p in x.mem ==> p < x.next
  }

  /** new_node: the address of a node, or NULL when there is no memory. */
  method Alloc(x: Tree) returns (n: Ptr)
    requires Base(x)
    modifies x`next, x`avail
    ensures Base(x) && (n == 0 <==> old(x.avail) == 0) && (n != 0 ==> n !in x.mem && old(x.next) <= n < x.next)
    ensures old(x.next) <= x.next && (n == 0 ==> x.avail == 0)
  {
    if x.avail == 0 {
      return 0;
    }
    n := x.next;
    x.next, x.avail := x.next + 1, x.avail - 1;
  }

  /** What the tree is after a child has been looked up and, if missing, created. */
  ghost predicate ChildMade(mem: Mem, at: map<Ptr, Place>, r: Roots, mem': Mem, at': map<Ptr, Place>, r': Roots,
                            p: Ptr, l: nat, a: nat, c: Ptr)
    requires Placed(mem, at) && l < 3 && p in mem
  {
    if mem[p][Digit(l, a)] != 0 || c == 0 then mem' == mem && at' == at && r' == r && c == mem[p][Digit(l, a)]
    else
      && c !in mem && mem' == Put(mem, p, Digit(l, a), c)[c := NewNode()]
      && at' == at[c := Place(l + 1, Prefix(l + 1, a))]
      && r' == if Digit(l, a) == 0 then r[l + 1 := c] else r
  }

  /** The step of radix_set from one level to the next: the child is looked up, and created if missing. */
  method Child(x: Tree, p: Ptr, l: nat, index: nat) returns (c: Ptr)
    requires Base(x) && l < 3 && p in x.mem && x.at[p] == Place(l, Prefix(l, index))
    modifies x
    ensures Base(x) && ChildMade(old(x.mem), old(x.at), old(x.r), x.mem, x.at, x.r, p, l, index, c)
    ensures Kept(old(x.at), x.at) && forall k :: 0 <= k < 4 && k != l + 1 ==> x.r[k] == old(x.r)[k]
    ensures p in x.mem && x.at[p] == Place(l, Prefix(l, index)) && x.mem[p][Digit(l, index)] == c
    ensures c != 0 ==> c in x.mem && x.at[c] == Place(l + 1, Prefix(l + 1, index))
    ensures c == 0 ==> x.avail == 0
  {
    PrefixStep(l, index);
    var d := Digit(l, index);
    c := x.mem[p][d];
    if c == 0 {
      c := Alloc(x);
      if c == 0 {
        return;
      }
      ChildAdded(x.mem, x.at, p, l, index, c);
      x.mem := Put(x.mem, p, d, c)[c := NewNode()];
      x.at := x.at[c := Place(l + 1, Prefix(l + 1, index))];
      if d == 0 {
        x.r := x.r[l + 1 := c];
      }
    }
  }

  /** A new root of level l above the root of the next level. */
  method PutRoot(x: Tree, l: nat, n: Ptr)
    requires Base(x) && RootsPlaced(x.at, x.r) && l <= 3 && n !in x.mem && 0 < n < x.next
    modifies x`mem, x`at, x`r
    ensures x.Valid() && x.r == old(x.r)[l := n] && x.at == old(x.at)[n := Place(l, 0)]
    ensures x.mem == old(x.mem)[n := RootNode(if l < 3 then old(x.r)[l + 1] else 0)]
  {
    RootAddedSound(x.mem, x.at, x.r, l, n);
    x.mem := x.mem[n := RootNode(if l < 3 then x.r[l + 1] else 0)];
    x.at := x.at[n := Place(l, 0)];
    x.r := x.r[l := n];
  }

  // ---- radix_set ---------------------------------------------------------------------------------------

  /**
    The outcome of radix_set on a well-linked tree: it stays well linked exactly if the condition held;
    then exactly one entry of the table has been set, or none if memory ran out.
  */
  ghost predicate Outcome(mem: Mem, r: Roots, mem': Mem, at': map<Ptr, Place>, r': Roots, a: nat, v: nat, ret: int) {
    && (ret == 0 || ret == -1)
    && (ret == 0 ==> (Linked(mem', r') <==> Safe(mem, r, a)))
    && (Safe(mem, r, a) ==>
        && Sound(mem', at', r') && Linked(mem', r')
        && (if ret == 0 then TableSet(mem, r, mem', r', a, v) else SameTable(mem, r, mem', r')))
  }

  /** The walk that radix_get takes for index a, from root l, finds v. */
  ghost predicate ReadsBack(mem: Mem, at: map<Ptr, Place>, r: Roots, l: nat, a: nat, v: nat)
    requires l <= 3
  {
    r[l] in at && at[r[l]] == Place(l, 0) && Look(mem, r[l], l, a) == v
  }

  /** The branch of radix_set for indices below 2^8. */
  method SetByte(x: Tree, index: nat, val: nat) returns (ret: int)
    requires x.Valid() && Linked(x.mem, x.r) && index < 0x100
    modifies x
    ensures Base(x) && Outcome(old(x.mem), old(x.r), x.mem, x.at, x.r, index, val, ret) && (ret == -1 ==> x.avail == 0)
    ensures ret == 0 ==> ReadsBack(x.mem, x.at, x.r, 3, index, val)
  {
    hide Linked, Look, SameTable, TableSet;
    ghost var mem0, r0, at0 := x.mem, x.r, x.at;
    var l3 := x.r[3];
    SmallIndexPrefix(3, index);
    if l3 == 0 {
      l3 := Alloc(x);
      if l3 == 0 {
        SameSelfTable(x.mem, x.r);
        return -1;
      }
      PutRoot(x, 3, l3);
      LeafRoot(mem0, at0, r0, l3);
    } else {
      RootIsNode(x.mem, x.at, x.r, 3);
      SameSelfTable(x.mem, x.r);
    }
    ghost var mem1 := x.mem;
    StoredLinks(x.mem, x.at, x.r, l3, Digit(3, index), val);
    if Linked(x.mem, x.r) {
      Stored(x.mem, x.at, x.r, 3, index, l3, val);
    }
    x.mem := Put(x.mem, l3, Digit(3, index), val);
    if Linked(mem1, x.r) {
      SetAfterSame(mem0, r0, mem1, x.mem, x.r, index, val);
    }
    LeadsToValue(mem1, x.at, l3, 3, index, l3, val);
    return 0;
  }

  lemma SameSelfTable(mem: Mem, r: Roots)
    ensures SameTable(mem, r, mem, r)
  {
  }

  lemma SetAfterSame(mem: Mem, r: Roots, mem1: Mem, mem': Mem, r': Roots, a: nat, v: nat)
    requires SameTable(mem, r, mem1, r') && TableSet(mem1, r', mem', r', a, v)
    ensures TableSet(mem, r, mem', r', a, v)
  {
    hide Table;
  }

  /** A new root of level 3 keeps the links exactly if there is no other root. */
  lemma LeafRoot(mem: Mem, at: map<Ptr, Place>, r: Roots, n: Ptr)
    requires Sound(mem, at, r) && Linked(mem, r) && n !in mem && n != 0 && r[3] == 0
    ensures var mem', r' := mem[n := RootNode(0)], r[3 := n];
            && (Linked(mem', r') <==> r[0] == 0 && r[1] == 0 && r[2] == 0)
            && (Linked(mem', r') ==> SameTable(mem, r, mem', r'))
  {
    var mem', r' := mem[n := RootNode(0)], r[3 := n];
    if r[0] == 0 && r[1] == 0 && r[2] == 0 {
      RootAdded(mem, at, r, 3, n);
    } else {
      FreshRoot(mem, at, r, 2, n, RootNode(0));
    }
  }

  /** A fresh node as root of level l + 1, under an existing root, is not slot 0 of anything. */
  lemma FreshRoot(mem: Mem, at: map<Ptr, Place>, r: Roots, l: nat, n: Ptr, s: seq<nat>)
    requires Sound(mem, at, r) && l < 3 && n !in mem && n != 0 && Top(r) <= l && r[Top(r)] != 0
    ensures !Linked(mem[n := s], r[l + 1 := n])
  {
    var mem', r' := mem[n := s], r[l + 1 := n];
    assert Top(r') == Top(r);
    assert PlacedAt(at, r[l], l, 0);
    assert Slot0(mem', r'[l]) == Slot0(mem, r[l]);
    if r[l] != 0 {
      assert mem[r[l]][0] != n;
    }
    assert r'[l + 1] != Slot0(mem', r'[l]);
  }

  /** No node has moved. */
  ghost predicate Kept(at: map<Ptr, Place>, at': map<Ptr, Place>) {
    forall q :: q in at ==> q in at' && at'[q] == at[q]
  }

  /** The last two steps of radix_set leave a root where it should not be. */
  predicate Misdirects(mem: Mem, p2: Ptr, a: nat) {
    IsNode(mem, p2) && mem[p2][Digit(2, a)] == 0 && Digit(2, a) == 0
  }

  /** What the last two steps of radix_set do, from the node p2 of level 2. */
  ghost predicate LowerOutcome(mem: Mem, at: map<Ptr, Place>, r: Roots, mem': Mem, at': map<Ptr, Place>, r': Roots,
                               p2: Ptr, l: nat, a: nat, v: nat, ret: int)
    requires l <= 2
  {
    && (ret == 0 || ret == -1) && Kept(at, at')
    && (ret == -1 ==> mem' == mem && at' == at && r' == r)
    && (ret == 0 && Misdirects(mem, p2, a) ==>
        r' == r[3 := r'[3]] && r'[3] != 0 && r'[3] in at' && at'[r'[3]] == Place(3, Prefix(3, a)))
    && (ret == 0 && !Misdirects(mem, p2, a) ==> r' == r)
    && (ret == 0 && !Misdirects(mem, p2, a) && Sound(mem, at, r) ==>
        && Sound(mem', at', r) && (Linked(mem', r) <==> Linked(mem, r))
        && (Linked(mem, r) && r[l] != 0 && NodeAt(mem, r[l], l, 2, a) == p2 ==> TableSet(mem, r, mem', r, a, v)))
  }

  /** The last two steps of radix_set: the leaf node, created if missing, and the value. */
  method SetBelow(x: Tree, p2: Ptr, l: nat, index: nat, val: nat, ghost q: Ptr) returns (ret: int)
    requires Base(x) && p2 in x.mem && x.at[p2] == Place(2, Prefix(2, index)) && l <= 2
    requires Span(l + 1) <= index < Span(l) && (Digit(2, index) != 0 || Prefix(2, index) != 0)
    requires q in x.mem && x.at[q] == Place(l, Prefix(l, index)) && NodeAt(x.mem, q, l, 2, index) == p2
    modifies x
    ensures Base(x) && (ret == -1 ==> x.avail == 0) && Kept(old(x.at), x.at)
    ensures x.r[0] == old(x.r)[0] && x.r[1] == old(x.r)[1] && x.r[2] == old(x.r)[2]
    ensures ret == 0 ==> Look(x.mem, q, l, index) == val
    ensures LowerOutcome(old(x.mem), old(x.at), old(x.r), x.mem, x.at, x.r, p2, l, index, val, ret)
  {
    hide Linked, Look, SameTable, TableSet, NodeAt, Digit, Prefix, LowerOutcome, Sound;
    ghost var mem0, at0, r0 := x.mem, x.at, x.r;
    var l3 := Child(x, p2, 2, index);
    ghost var mem1 := x.mem;
    if l3 == 0 {
      NoMemory(mem0, at0, r0, p2, l, index, val);
      return -1;
    }
    ValueReached(mem0, at0, r0, mem1, x.at, x.r, q, p2, l, index, l3, val);
    x.mem := Put(x.mem, l3, Digit(3, index), val);
    LowerSteps(mem0, at0, r0, mem1, x.at, x.r, p2, l, index, val, l3);
    StoredBase(mem1, x.at, l3, Digit(3, index), val);
    return 0;
  }

  /** The walk from q goes through p2 to the leaf node and its value. */
  lemma ValueReached(mem: Mem, at: map<Ptr, Place>, r: Roots, mem1: Mem, at1: map<Ptr, Place>, r1: Roots,
                     q: Ptr, p2: Ptr, l: nat, a: nat, p3: Ptr, v: nat)
    requires Placed(mem, at) && Placed(mem1, at1) && p2 in mem && at[p2] == Place(2, Prefix(2, a)) && l <= 2
    requires q in mem && at[q] == Place(l, Prefix(l, a)) && NodeAt(mem, q, l, 2, a) == p2
    requires ChildMade(mem, at, r, mem1, at1, r1, p2, 2, a, p3) && p3 != 0
    requires p2 in mem1 && mem1[p2][Digit(2, a)] == p3 && p3 in mem1 && at1[p3] == Place(3, Prefix(3, a))
    ensures Kept(at, at1) && Look(Put(mem1, p3, Digit(3, a), v), q, l, a) == v
  {
    assert SameAbove(mem, at, mem1, 2);
    NodeAtKept(mem, at, mem1, q, l, 2, a);
    LeadsVia(mem1, q, l, a, p2);
    LeadsToValue(mem1, at1, q, l, a, p3, v);
  }

  lemma StoredBase(mem: Mem, at: map<Ptr, Place>, p3: Ptr, i: nat, v: nat)
    requires Placed(mem, at) && p3 in mem && at[p3].level == 3 && i < 256
    ensures Placed(Put(mem, p3, i, v), at)
  {
  }

  lemma NoMemory(mem: Mem, at: map<Ptr, Place>, r: Roots, p2: Ptr, l: nat, a: nat, v: nat)
    requires l <= 2
    ensures LowerOutcome(mem, at, r, mem, at, r, p2, l, a, v, -1)
  {
  }

  lemma LowerSteps(mem: Mem, at: map<Ptr, Place>, r: Roots, mem1: Mem, at1: map<Ptr, Place>, r1: Roots,
                   p2: Ptr, l: nat, a: nat, v: nat, p3: Ptr)
    requires Placed(mem, at) && Placed(mem1, at1) && p2 in mem && at[p2] == Place(2, Prefix(2, a)) && l <= 2
    requires Span(l + 1) <= a < Span(l) && (Digit(2, a) != 0 || Prefix(2, a) != 0)
    requires ChildMade(mem, at, r, mem1, at1, r1, p2, 2, a, p3) && p3 != 0
    requires p2 in mem1 && mem1[p2][Digit(2, a)] == p3 && p3 in mem1 && at1[p3] == Place(3, Prefix(3, a))
    ensures LowerOutcome(mem, at, r, Put(mem1, p3, Digit(3, a), v), at1, r1, p2, l, a, v, 0)
  {
    var mem' := Put(mem1, p3, Digit(3, a), v);
    assert Kept(at, at1);
    if !Misdirects(mem, p2, a) && Sound(mem, at, r) {
      hide Look, Digit, Prefix, Linked, SameTable, TableSet;
      LowerChild(mem, at, r, mem1, at1, p2, a, p3);
      StoredLinks(mem1, at1, r, p3, Digit(3, a), v);
      if Linked(mem, r) && r[l] != 0 && NodeAt(mem, r[l], l, 2, a) == p2 {
        LowerLeads(mem, at, r, mem1, p2, l, a, p3);
        Stored(mem1, at1, r, l, a, p3, v);
        SetAfterSame(mem, r, mem1, mem', r, a, v);
      }
    }
  }

  lemma LowerChild(mem: Mem, at: map<Ptr, Place>, r: Roots, mem1: Mem, at1: map<Ptr, Place>, p2: Ptr, a: nat, p3: Ptr)
    requires Sound(mem, at, r) && p2 in mem && at[p2] == Place(2, Prefix(2, a)) && p3 != 0
    requires (Digit(2, a) != 0 || Prefix(2, a) != 0) && ChildMade(mem, at, r, mem1, at1, r, p2, 2, a, p3)
    ensures Sound(mem1, at1, r) && (Linked(mem1, r) <==> Linked(mem, r)) && SameTable(mem, r, mem1, r)
  {
    if mem[p2][Digit(2, a)] == 0 {
      ChildKeepsLinks(mem, at, r, p2, 2, a, p3);
    }
  }

  lemma LowerLeads(mem: Mem, at: map<Ptr, Place>, r: Roots, mem1: Mem, p2: Ptr, l: nat, a: nat, p3: Ptr)
    requires Sound(mem, at, r) && l <= 2 && a < Span(l) && NodeAt(mem, r[l], l, 2, a) == p2 && p2 in mem
    requires at[p2].level == 2 && IsNode(mem1, p2) && mem1[p2][Digit(2, a)] == p3
    requires mem1 == mem || (p3 !in mem && mem1 == Put(mem, p2, Digit(2, a), p3)[p3 := NewNode()])
    ensures Leads(mem1, r[l], l, a, p3)
  {
    SmallIndexPrefix(l, a);
    assert PlacedAt(at, r[l], l, 0);
    NodeAtKept(mem, at, mem1, r[l], l, 2, a);
    LeadsVia(mem1, r[l], l, a, p2);
  }

  /** The branch of radix_set for indices from 2^8 to 2^16. */
  method SetPage(x: Tree, index: nat, val: nat) returns (ret: int)
    requires x.Valid() && Linked(x.mem, x.r) && 0x100 <= index < 0x1_0000
    modifies x
    ensures Base(x) && Outcome(old(x.mem), old(x.r), x.mem, x.at, x.r, index, val, ret) && (ret == -1 ==> x.avail == 0)
    ensures ret == 0 ==> ReadsBack(x.mem, x.at, x.r, 2, index, val)
  {
    hide Linked, Look, SameTable, TableSet, Digit, Prefix;
    ghost var mem0, r0, at0 := x.mem, x.r, x.at;
    LargeDigit(2, index);
    SmallIndexPrefix(2, index);
    var l2 := x.r[2];
    if l2 == 0 {
      l2 := Alloc(x);
      if l2 == 0 {
        SameSelfTable(x.mem, x.r);
        return -1;
      }
      PutRoot(x, 2, l2);
      PageRoot(mem0, at0, r0, l2);
    } else {
      RootIsNode(x.mem, x.at, x.r, 2);
      SameSelfTable(x.mem, x.r);
    }
    ghost var mem1, r1 := x.mem, x.r;
    ret := SetBelow(x, l2, 2, index, val, l2);
    if Linked(mem1, r1) && ret == 0 {
      SetAfterSame(mem0, r0, mem1, x.mem, x.r, index, val);
    }
  }

  /** A new root of level 2 keeps the links exactly if there is no root above it. */
  lemma PageRoot(mem: Mem, at: map<Ptr, Place>, r: Roots, n: Ptr)
    requires Sound(mem, at, r) && Linked(mem, r) && n !in mem && n != 0 && r[2] == 0
    ensures var mem', r' := mem[n := RootNode(r[3])], r[2 := n];
            && (Linked(mem', r') <==> r[0] == 0 && r[1] == 0)
            && (Linked(mem', r') ==> SameTable(mem, r, mem', r'))
  {
    if r[0] == 0 && r[1] == 0 {
      RootAdded(mem, at, r, 2, n);
    } else {
      FreshRoot(mem, at, r, 1, n, RootNode(r[3]));
    }
  }

  // ---- Larger indices ----------------------------------------------------------------------------------

  lemma SameTableTrans(m0: Mem, r0: Roots, m1: Mem, r1: Roots, m2: Mem, r2: Roots)
    requires SameTable(m0, r0, m1, r1) && SameTable(m1, r1, m2, r2)
    ensures SameTable(m0, r0, m2, r2)
  {
    hide Table;
  }

  /** A new root above the topmost one. */
  method PutTop(x: Tree, l: nat, n: Ptr)
    requires x.Valid() && Linked(x.mem, x.r) && l < 3 && n !in x.mem && 0 < n < x.next
    requires forall k :: 0 <= k <= l ==> x.r[k] == 0
    requires x.r[l + 1] == 0 ==> forall k :: 0 <= k < 4 ==> x.r[k] == 0
    modifies x`mem, x`at, x`r
    ensures x.Valid() && Linked(x.mem, x.r) && SameTable(old(x.mem), old(x.r), x.mem, x.r)
    ensures x.r == old(x.r)[l := n] && x.mem == old(x.mem)[n := RootNode(old(x.r)[l + 1])]
  {
    RootAdded(x.mem, x.at, x.r, l, n);
    hide Linked, SameTable;
    PutRoot(x, l, n);
  }

  /** A root of level l above the next root, if that exists and root l does not; false if memory ran out. */
  method Hook(x: Tree, l: nat) returns (ok: bool)
    requires x.Valid() && Linked(x.mem, x.r) && l < 3 && forall k :: 0 <= k < l ==> x.r[k] == 0
    modifies x
    ensures x.Valid() && Linked(x.mem, x.r) && SameTable(old(x.mem), old(x.r), x.mem, x.r)
    ensures forall k :: 0 <= k < 4 && k != l ==> x.r[k] == old(x.r)[k]
    ensures ok ==> x.r[l] != 0 || x.r[l + 1] == 0
    ensures !ok ==> x.mem == old(x.mem) && x.r == old(x.r) && x.avail == 0
    ensures old(x.next) <= x.next && forall p :: p < old(x.next) && p !in old(x.mem) ==> p !in x.mem
  {
    SameSelfTable(x.mem, x.r);
    hide Linked, SameTable;
    if x.r[l] == 0 && x.r[l + 1] != 0 {
      var n := Alloc(x);
      if n == 0 {
        return false;
      }
      PutTop(x, l, n);
    }
    return true;
  }

  /** Without a root on levels 1 and 0 but one above, a well-linked tree has no lower root. */
  lemma NothingBelow(mem: Mem, r: Roots, l: nat)
    requires Linked(mem, r) && Top(r) < l <= 3 && r[l] == 0
    ensures forall k :: l <= k < 4 ==> r[k] == 0
  {
    assert l < 3 ==> r[l + 1] == Slot0(mem, r[l]) == 0;
    assert l < 2 ==> r[l + 1 + 1] == Slot0(mem, r[l + 1]) == 0;
  }

  /** The first step of radix_set for indices from 2^16 to 2^24: the root of level 1. */
  method Root1(x: Tree) returns (l1: Ptr)
    requires x.Valid() && Linked(x.mem, x.r)
    modifies x
    ensures x.Valid()
            && (l1 == 0 || old(x.r[1] != 0 || x.r[0] == 0) ==>
                 Linked(x.mem, x.r) && SameTable(old(x.mem), old(x.r), x.mem, x.r))
    ensures l1 != 0 ==>
            x.r[1] == l1 && x.r[0] == old(x.r[0]) && (Linked(x.mem, x.r) <==> old(x.r[1] != 0 || x.r[0] == 0))
    ensures old(x.r[1]) != 0 ==> l1 == old(x.r[1]) && x.mem == old(x.mem) && x.r == old(x.r)
    ensures old(x.r[1]) == 0 && l1 != 0 ==> forall i :: 0 < i < 256 ==> x.mem[l1][i] == 0
    ensures l1 == 0 ==> x.avail == 0
  {
    SameSelfTable(x.mem, x.r);
    l1 := x.r[1];
    if l1 == 0 {
      if x.r[0] != 0 {
        NothingBelow(x.mem, x.r, 1);
      }
      hide Linked, SameTable;
      l1 := Alloc(x);
      if l1 == 0 {
        return;
      }
      if x.r[0] == 0 {
        ghost var m0, r0 := x.mem, x.r;
        var ok := Hook(x, 2);
        if !ok {
          return 0;
        }
        ghost var m1, r1 := x.mem, x.r;
        PutTop(x, 1, l1);
        SameTableTrans(m0, r0, m1, r1, x.mem, x.r);
      } else {
        FreshRoot(x.mem, x.at, x.r, 0, l1, RootNode(x.r[2]));
        PutRoot(x, 1, l1);
      }
    }
  }

  /** The first step of radix_set for indices from 2^24 on: the root of level 0. */
  method Root0(x: Tree) returns (l0: Ptr)
    requires x.Valid() && Linked(x.mem, x.r)
    modifies x
    ensures x.Valid() && Linked(x.mem, x.r) && SameTable(old(x.mem), old(x.r), x.mem, x.r)
    ensures l0 != 0 ==> x.r[0] == l0
    ensures old(x.r[0]) != 0 ==> l0 == old(x.r[0]) && x.mem == old(x.mem) && x.r == old(x.r)
    ensures old(x.r[0]) == 0 && l0 != 0 ==> forall i :: 0 < i < 256 ==> x.mem[l0][i] == 0
    ensures l0 == 0 ==> x.avail == 0
  {
    SameSelfTable(x.mem, x.r);
    l0 := x.r[0];
    if l0 == 0 {
      l0 := Alloc(x);
      if l0 == 0 {
        return;
      }
      ghost var m0, r0 := x.mem, x.r;
      if x.r[1] != 0 && x.r[2] == 0 {
        NothingBelow(x.mem, x.r, 2);
      }
      hide Linked, SameTable;
      var ok := HookBoth(x);
      if !ok {
        return 0;
      }
      ghost var m1, r1 := x.mem, x.r;
      PutTop(x, 0, l0);
      SameTableTrans(m0, r0, m1, r1, x.mem, x.r);
    }
  }

  /** The two connections radix_set makes before a root of level 0. */
  method HookBoth(x: Tree) returns (ok: bool)
    requires x.Valid() && Linked(x.mem, x.r) && x.r[0] == 0
    requires x.r[1] != 0 && x.r[2] == 0 ==> x.r[3] == 0
    modifies x
    ensures x.Valid() && Linked(x.mem, x.r) && SameTable(old(x.mem), old(x.r), x.mem, x.r) && x.r[0] == 0
    ensures ok && x.r[1] == 0 ==> x.r[2] == 0 && x.r[3] == 0
    ensures !ok ==> x.avail == 0
    ensures old(x.next) <= x.next && forall p :: p < old(x.next) && p !in old(x.mem) ==> p !in x.mem
  {
    SameSelfTable(x.mem, x.r);
    hide Linked, SameTable;
    ghost var m0, r0 := x.mem, x.r;
    ok := true;
    if x.r[1] == 0 {
      ok := Hook(x, 2);
      if !ok {
        return;
      }
    }
    ghost var m1, r1 := x.mem, x.r;
    ok := Hook(x, 1);
    SameTableTrans(m0, r0, m1, r1, x.mem, x.r);
  }

  /** The branch of radix_set for indices from 2^16 to 2^24. */
  method SetMid(x: Tree, index: nat, val: nat) returns (ret: int)
    requires x.Valid() && Linked(x.mem, x.r) && 0x1_0000 <= index < 0x100_0000
    modifies x
    ensures Base(x) && Outcome(old(x.mem), old(x.r), x.mem, x.at, x.r, index, val, ret) && (ret == -1 ==> x.avail == 0)
    ensures ret == 0 ==> ReadsBack(x.mem, x.at, x.r, 1, index, val)
  {
    hide Linked, Look, SameTable, TableSet, Digit, Prefix, NodeAt, Outcome, ChildMade, LowerOutcome;
    ghost var mem0, r0 := x.mem, x.r;
    LargeDigit(1, index);
    SmallIndexPrefix(1, index);
    var l1 := Root1(x);
    if l1 == 0 {
      Failed(mem0, r0, x.mem, x.at, x.r, index, val);
      return -1;
    }
    RootIsNode(x.mem, x.at, x.r, 1);
    ghost var mem1, at1, r1 := x.mem, x.at, x.r;
    MidSafe(mem0, r0, mem1, r1, index);
    var l2 := Child(x, l1, 1, index);
    MidChild(mem1, at1, r1, x.mem, x.at, x.r, index, l2);
    if l2 == 0 {
      MidFailed(mem0, r0, mem1, x.at, r1, index, val);
      return -1;
    }
    ghost var mem2, at2, r2 := x.mem, x.at, x.r;
    PrefixStep(1, index);
    ret := SetBelow(x, l2, 1, index, val, l1);
    MidDone(mem0, r0, mem1, r1, mem2, at2, r2, x.mem, x.at, x.r, index, val, l2, ret);
  }

  lemma Failed(mem: Mem, r: Roots, mem': Mem, at': map<Ptr, Place>, r': Roots, a: nat, v: nat)
    requires Sound(mem', at', r') && Linked(mem', r') && SameTable(mem, r, mem', r')
    ensures Outcome(mem, r, mem', at', r', a, v, -1)
  {
    hide SameTable, Linked;
  }

  lemma MidFailed(mem: Mem, r: Roots, mem1: Mem, at1: map<Ptr, Place>, r1: Roots, a: nat, v: nat)
    requires 0x1_0000 <= a < 0x100_0000 && Sound(mem1, at1, r1)
    requires r[1] != 0 || r[0] == 0 ==> Linked(mem1, r1) && SameTable(mem, r, mem1, r1)
    ensures Outcome(mem, r, mem1, at1, r1, a, v, -1)
  {
    hide SameTable, Linked, NodeAt;
  }

  /** Where the walk of a middle index is once root 1 is there. */
  lemma MidSafe(mem: Mem, r: Roots, mem1: Mem, r1: Roots, a: nat)
    requires 0x1_0000 <= a < 0x100_0000 && r1[1] != 0 && IsNode(mem1, r1[1]) && Digit(1, a) != 0
    requires r[1] != 0 ==> mem1 == mem && r1 == r
    requires r[1] == 0 ==> forall i :: 0 < i < 256 ==> mem1[r1[1]][i] == 0
    ensures NodeAt(mem1, r1[1], 1, 3, a) == NodeAt(mem, r[1], 1, 3, a)
    ensures Safe(mem, r, a) <==> (r[1] != 0 || r[0] == 0) && (Digit(2, a) == 0 ==> NodeAt(mem1, r1[1], 1, 3, a) != 0)
  {
    if r[1] == 0 {
      assert mem1[r1[1]][Digit(1, a)] == 0;
      assert NodeAt(mem1, 0, 2, 3, a) == 0;
      assert NodeAt(mem, 0, 1, 3, a) == 0;
    }
  }

  /** The step to level 2 of a middle index keeps the links as they were. */
  lemma MidChild(mem: Mem, at: map<Ptr, Place>, r: Roots, mem': Mem, at': map<Ptr, Place>, r': Roots, a: nat, c: Ptr)
    requires Sound(mem, at, r) && r[1] != 0 && at[r[1]] == Place(1, Prefix(1, a)) && IsNode(mem, r[1])
             && Digit(1, a) != 0
    requires ChildMade(mem, at, r, mem', at', r', r[1], 1, a, c) && Placed(mem', at')
    ensures r' == r && Sound(mem', at', r) && (Linked(mem', r) <==> Linked(mem, r)) && SameTable(mem, r, mem', r)
    ensures c == 0 ==> mem' == mem && at' == at
    ensures c != 0 ==> c in mem' && NodeAt(mem', r[1], 1, 2, a) == c && IsNode(mem', c)
    ensures c != 0 ==> (mem'[c][Digit(2, a)] == 0 <==> NodeAt(mem, r[1], 1, 3, a) == 0)
  {
    var p := r[1];
    SameSelfTable(mem, r);
    if mem[p][Digit(1, a)] == 0 && c != 0 {
      ChildKeepsLinks(mem, at, r, p, 1, a, c);
      hide Linked, SameTable;
      assert NodeAt(mem, 0, 2, 3, a) == 0;
    }
    hide Linked, SameTable;
    if c != 0 {
      TwoDown(mem', p, 1, a);
      assert IsNode(mem', c);
      if mem[p][Digit(1, a)] != 0 {
        TwoDown(mem, p, 1, a);
      }
    }
  }

  /** Two steps of a walk. */
  lemma TwoDown(mem: Mem, p: Ptr, l: nat, a: nat)
    requires l < 2 && IsNode(mem, p)
    ensures NodeAt(mem, p, l, l + 1, a) == mem[p][Digit(l, a)]
    ensures IsNode(mem, mem[p][Digit(l, a)]) ==>
            NodeAt(mem, p, l, l + 2, a) == mem[mem[p][Digit(l, a)]][Digit(l + 1, a)]
  {
    var c := mem[p][Digit(l, a)];
    assert NodeAt(mem, c, l + 1, l + 1, a) == c;
    if IsNode(mem, c) {
      assert NodeAt(mem, mem[c][Digit(l + 1, a)], l + 2, l + 2, a) == mem[c][Digit(l + 1, a)];
      assert NodeAt(mem, c, l + 1, l + 2, a) == mem[c][Digit(l + 1, a)];
    }
  }

  /** A root sent to a leaf under nonzero bytes. */
  lemma Misdirected(mem': Mem, at': map<Ptr, Place>, r: Roots, at: map<Ptr, Place>, r': Roots, l: nat, a: nat)
    requires Placed(mem', at') && RootsPlaced(at, r) && Kept(at, at') && l <= 1 && Top(r) <= l && Prefix(3, a) != 0
    requires r' == r[3 := r'[3]] && r'[3] != 0 && r'[3] in at' && at'[r'[3]] == Place(3, Prefix(3, a)) && r[l] != 0
    ensures !Linked(mem', r')
  {
    assert Top(r') == Top(r);
    assert PlacedAt(at, r[Top(r)], Top(r), 0);
    MisplacedRoot(mem', at', r', 3, Prefix(3, a));
  }

  lemma MidDone(mem: Mem, r: Roots, mem1: Mem, r1: Roots, mem2: Mem, at2: map<Ptr, Place>, r2: Roots,
                mem3: Mem, at3: map<Ptr, Place>, r3: Roots, a: nat, v: nat, p2: Ptr, ret: int)
    requires 0x1_0000 <= a < 0x100_0000 && Prefix(2, a) != 0 && Placed(mem3, at3)
    requires Safe(mem, r, a) <==> (r[1] != 0 || r[0] == 0) && (Digit(2, a) == 0 ==> NodeAt(mem1, r1[1], 1, 3, a) != 0)
    requires Linked(mem1, r1) <==> r[1] != 0 || r[0] == 0
    requires Linked(mem1, r1) ==> SameTable(mem, r, mem1, r1)
    requires r2 == r1 && r1[1] != 0 && Sound(mem2, at2, r1) && (Linked(mem2, r1) <==> Linked(mem1, r1))
             && SameTable(mem1, r1, mem2, r1)
    requires IsNode(mem2, p2) && NodeAt(mem2, r1[1], 1, 2, a) == p2
    requires mem2[p2][Digit(2, a)] == 0 <==> NodeAt(mem1, r1[1], 1, 3, a) == 0
    requires LowerOutcome(mem2, at2, r2, mem3, at3, r3, p2, 1, a, v, ret)
    ensures Outcome(mem, r, mem3, at3, r3, a, v, ret)
  {
    hide Linked, SameTable, TableSet, NodeAt, Safe;
    if Linked(mem1, r1) {
      SameTableTrans(mem, r, mem1, r1, mem2, r1);
    }
    if ret == 0 {
      if Misdirects(mem2, p2, a) {
        PrefixStep(2, a);
        Misdirected(mem3, at3, r2, at2, r3, 1, a);
      } else if Linked(mem1, r1) {
        SetAfterSame(mem, r, mem2, mem3, r3, a, v);
      }
    }
  }

  // ---- Indices from 2^24 on ------------------------------------------------------------------------------

  /** The branch of radix_set for indices from 2^24 on. */
  method SetHigh(x: Tree, index: nat, val: nat) returns (ret: int)
    requires x.Valid() && Linked(x.mem, x.r) && 0x100_0000 <= index < INDICES
    modifies x
    ensures Base(x) && Outcome(old(x.mem), old(x.r), x.mem, x.at, x.r, index, val, ret) && (ret == -1 ==> x.avail == 0)
    ensures ret == 0 ==> ReadsBack(x.mem, x.at, x.r, 0, index, val)
  {
    hide Linked, Look, SameTable, TableSet, Digit, Prefix, NodeAt, Outcome, ChildMade, LowerOutcome;
    ghost var mem0, r0 := x.mem, x.r;
    LargeDigit(0, index);
    SmallIndexPrefix(0, index);
    var l0 := Root0(x);
    if l0 == 0 {
      Failed(mem0, r0, x.mem, x.at, x.r, index, val);
      return -1;
    }
    RootIsNode(x.mem, x.at, x.r, 0);
    ghost var mem1, at1, r1 := x.mem, x.at, x.r;
    HighSafe(mem0, r0, mem1, r1, index);
    var l1 := Child(x, l0, 0, index);
    HighChild(mem1, at1, r1, x.mem, x.at, x.r, index, l1);
    ghost var mem2, at2, r2 := x.mem, x.at, x.r;
    SameTableTrans(mem0, r0, mem1, r1, mem2, r2);
    if l1 == 0 {
      Failed(mem0, r0, x.mem, x.at, x.r, index, val);
      return -1;
    }
    PrefixStep(0, index);
    ret := SetBelow1(x, l1, index, val, mem0, r0);
  }

  /** Where the walk of a large index is once root 0 is there. */
  lemma HighSafe(mem: Mem, r: Roots, mem1: Mem, r1: Roots, a: nat)
    requires 0x100_0000 <= a < INDICES && r1[0] != 0 && IsNode(mem1, r1[0]) && Digit(0, a) != 0
    requires r[0] != 0 ==> mem1 == mem && r1 == r
    requires r[0] == 0 ==> forall i :: 0 < i < 256 ==> mem1[r1[0]][i] == 0
    ensures Safe(mem, r, a) <==> (Digit(1, a) == 0 ==> NodeAt(mem1, r1[0], 0, 2, a) != 0)
                                 && (Digit(2, a) == 0 ==> NodeAt(mem1, r1[0], 0, 3, a) != 0)
  {
    if r[0] == 0 {
      assert mem1[r1[0]][Digit(0, a)] == 0;
      NullWalk(mem1, 1, 2, a);
      NullWalk(mem1, 1, 3, a);
      NullWalk(mem, 0, 2, a);
      NullWalk(mem, 0, 3, a);
    }
  }

  /** The step to level 1 of a large index: links and table stay, and so does what is missing below. */
  lemma HighChild(mem: Mem, at: map<Ptr, Place>, r: Roots, mem': Mem, at': map<Ptr, Place>, r': Roots, a: nat, c: Ptr)
    requires Sound(mem, at, r) && r[0] != 0 && at[r[0]] == Place(0, Prefix(0, a)) && IsNode(mem, r[0])
             && Digit(0, a) != 0
    requires ChildMade(mem, at, r, mem', at', r', r[0], 0, a, c) && Placed(mem', at')
    ensures r' == r && Sound(mem', at', r) && (Linked(mem', r) <==> Linked(mem, r)) && SameTable(mem, r, mem', r)
    ensures c == 0 ==> mem' == mem && at' == at
    ensures c != 0 ==> IsNode(mem', c) && NodeAt(mem', r[0], 0, 1, a) == c
    ensures c != 0 ==> forall m :: 2 <= m <= 3 ==> (NodeAt(mem', c, 1, m, a) == 0 <==> NodeAt(mem, r[0], 0, m, a) == 0)
  {
    var p := r[0];
    SameSelfTable(mem, r);
    if mem[p][Digit(0, a)] == 0 && c != 0 {
      ChildKeepsLinks(mem, at, r, p, 0, a, c);
      hide Linked, SameTable;
      NewPath(mem', c, 1, 2, a);
      NewPath(mem', c, 1, 3, a);
      NullWalk(mem, 1, 2, a);
      NullWalk(mem, 1, 3, a);
    }
    hide Linked, SameTable;
    if c != 0 {
      TwoDown(mem', p, 0, a);
    }
  }

  lemma NewPath(mem: Mem, n: Ptr, l: nat, m: nat, a: nat)
    requires l < m <= 3 && n in mem && n != 0 && mem[n] == NewNode()
    ensures NodeAt(mem, n, l, m, a) == 0
  {
    NullWalk(mem, l + 1, m, a);
  }

  /** The steps of radix_set from the node l1 of level 1, for a large index. */
  method SetBelow1(x: Tree, l1: Ptr, index: nat, val: nat, ghost mem0: Mem, ghost r0: Roots) returns (ret: int)
    requires x.Valid() && Linked(x.mem, x.r) && SameTable(mem0, r0, x.mem, x.r) && 0x100_0000 <= index < INDICES
    requires x.r[0] != 0 && IsNode(x.mem, l1) && NodeAt(x.mem, x.r[0], 0, 1, index) == l1
    requires x.at[l1] == Place(1, Prefix(1, index)) && Prefix(1, index) != 0
    requires Safe(mem0, r0, index) <==> (Digit(1, index) == 0 ==> NodeAt(x.mem, l1, 1, 2, index) != 0)
                                        && (Digit(2, index) == 0 ==> NodeAt(x.mem, l1, 1, 3, index) != 0)
    modifies x
    ensures Base(x) && Outcome(mem0, r0, x.mem, x.at, x.r, index, val, ret) && (ret == -1 ==> x.avail == 0)
    ensures ret == 0 ==> ReadsBack(x.mem, x.at, x.r, 0, index, val)
  {
    hide Linked, Look, SameTable, TableSet, Digit, Prefix, NodeAt, Outcome, ChildMade, LowerOutcome, Safe;
    ghost var mem1, at1, r1 := x.mem, x.at, x.r;
    var l2 := Child(x, l1, 1, index);
    ghost var mem2, at2, r2 := x.mem, x.at, x.r;
    BelowChild(mem1, at1, r1, mem2, at2, r2, index, l1, l2);
    RootIsNode(mem1, at1, r1, 0);
    SmallIndexPrefix(0, index);
    if l2 == 0 {
      Failed(mem0, r0, x.mem, x.at, x.r, index, val);
      return -1;
    }
    PrefixStep(1, index);
    ret := SetBelow(x, l2, 0, index, val, r1[0]);
    HighDone(mem0, r0, mem1, at1, r1, mem2, at2, r2, x.mem, x.at, x.r, index, val, l1, l2, ret);
  }

  /** The step to level 2 of a large index; a new node under byte 0 takes the root of level 2 with it. */
  lemma BelowChild(mem: Mem, at: map<Ptr, Place>, r: Roots, mem': Mem, at': map<Ptr, Place>, r': Roots, a: nat, p: Ptr,
                   c: Ptr)
    requires Sound(mem, at, r) && IsNode(mem, p) && at[p] == Place(1, Prefix(1, a)) && Prefix(1, a) != 0
    requires r[0] != 0 && NodeAt(mem, r[0], 0, 1, a) == p
    requires ChildMade(mem, at, r, mem', at', r', p, 1, a, c) && Placed(mem', at')
    ensures Kept(at, at') && (c == 0 ==> mem' == mem && at' == at && r' == r)
    ensures c != 0 ==> IsNode(mem', c) && (mem'[c][Digit(2, a)] == 0 <==> NodeAt(mem, p, 1, 3, a) == 0)
    ensures c != 0 ==> NodeAt(mem', r[0], 0, 2, a) == c
    ensures c != 0 && NodeAt(mem, p, 1, 2, a) == 0 && Digit(1, a) == 0 ==> r' == r[2 := c]
    ensures c != 0 && !(NodeAt(mem, p, 1, 2, a) == 0 && Digit(1, a) == 0) ==>
              && r' == r && Sound(mem', at', r) && (Linked(mem', r) <==> Linked(mem, r)) && SameTable(mem, r, mem', r)
              && NodeAt(mem', r[0], 0, 2, a) == c
  {
    SameSelfTable(mem, r);
    TwoDown(mem, p, 1, a);
    RootIsNode(mem, at, r, 0);
    if c != 0 {
      if mem[p][Digit(1, a)] == 0 {
        ChildKeepsLinks(mem, at, r, p, 1, a, c);
        NullWalk(mem, 2, 3, a);
      }
      hide Linked, SameTable;
      TopToLevel2(mem, at, r, mem', a, p, c);
      assert IsNode(mem', c);
    }
    hide Linked, SameTable;
  }

  lemma TopToLevel2(mem: Mem, at: map<Ptr, Place>, r: Roots, mem': Mem, a: nat, p: Ptr, c: Ptr)
    requires Sound(mem, at, r) && IsNode(mem, p) && at[p].level == 1 && r[0] != 0 && IsNode(mem, r[0])
             && at[r[0]].level == 0
    requires NodeAt(mem, r[0], 0, 1, a) == p && p in mem' && |mem'[p]| == 256 && mem'[p][Digit(1, a)] == c
    requires r[0] in mem' && mem'[r[0]] == mem[r[0]]
    ensures NodeAt(mem', r[0], 0, 2, a) == c
  {
    TwoDown(mem, r[0], 0, a);
    TwoDown(mem', r[0], 0, a);
  }

  lemma HighDone(mem0: Mem, r0: Roots, mem1: Mem, at1: map<Ptr, Place>, r1: Roots, mem2: Mem, at2: map<Ptr, Place>,
                 r2: Roots,
                 mem3: Mem, at3: map<Ptr, Place>, r3: Roots, a: nat, v: nat, p1: Ptr, p2: Ptr, ret: int)
    requires Sound(mem1, at1, r1) && Linked(mem1, r1) && SameTable(mem0, r0, mem1, r1) && r1[0] != 0
    requires Safe(mem0, r0, a) <==> (Digit(1, a) == 0 ==> NodeAt(mem1, p1, 1, 2, a) != 0)
                                    && (Digit(2, a) == 0 ==> NodeAt(mem1, p1, 1, 3, a) != 0)
    requires Kept(at1, at2) && IsNode(mem2, p2) && (mem2[p2][Digit(2, a)] == 0 <==> NodeAt(mem1, p1, 1, 3, a) == 0)
    requires p2 in at2 && at2[p2] == Place(2, Prefix(2, a)) && Prefix(2, a) != 0
    requires NodeAt(mem1, p1, 1, 2, a) == 0 && Digit(1, a) == 0 ==> r2 == r1[2 := p2]
    requires !(NodeAt(mem1, p1, 1, 2, a) == 0 && Digit(1, a) == 0) ==>
               && r2 == r1 && Sound(mem2, at2, r1) && (Linked(mem2, r1) <==> Linked(mem1, r1))
               && SameTable(mem1, r1, mem2, r1)
               && NodeAt(mem2, r1[0], 0, 2, a) == p2
    requires LowerOutcome(mem2, at2, r2, mem3, at3, r3, p2, 0, a, v, ret) && Placed(mem3, at3)
    ensures Outcome(mem0, r0, mem3, at3, r3, a, v, ret)
  {
    hide Linked, SameTable, TableSet, NodeAt, Safe;
    if NodeAt(mem1, p1, 1, 2, a) == 0 && Digit(1, a) == 0 {
      if ret == 0 {
        HighMisdirected(at1, r1, at2, r2, mem3, at3, r3, a, p2);
      }
    } else {
      SameTableTrans(mem0, r0, mem1, r1, mem2, r1);
      if ret == 0 {
        if Misdirects(mem2, p2, a) {
          PrefixStep(2, a);
          Misdirected(mem3, at3, r2, at2, r3, 0, a);
        } else {
          SetAfterSame(mem0, r0, mem2, mem3, r3, a, v);
        }
      }
    }
  }

  lemma HighMisdirected(at1: map<Ptr, Place>, r1: Roots, at2: map<Ptr, Place>, r2: Roots,
                        mem3: Mem, at3: map<Ptr, Place>, r3: Roots, a: nat, p2: Ptr)
    requires RootsPlaced(at1, r1) && r1[0] != 0 && Kept(at1, at2) && Kept(at2, at3) && Placed(mem3, at3)
    requires p2 != 0 && p2 in at2 && at2[p2] == Place(2, Prefix(2, a)) && Prefix(2, a) != 0
    requires r2 == r1[2 := p2] && (r3 == r2 || r3 == r2[3 := r3[3]])
    ensures !Linked(mem3, r3)
  {
    assert Top(r3) == 0;
    assert PlacedAt(at1, r1[0], 0, 0);
    MisplacedRoot(mem3, at3, r3, 2, Prefix(2, a));
  }

  /**
    radix_set on a well-linked tree. It returns -1 only when memory ran out; otherwise the tree stays well
    linked exactly if the condition Safe held before, and then the table has got this one entry. In any
    case the walk of radix_get finds the value.
  */
  method Set(x: Tree, index: nat, val: nat) returns (ret: int)
    requires x.Valid() && Linked(x.mem, x.r) && index < INDICES
    modifies x
    ensures ret == 0 || (ret == -1 && x.avail == 0)
    ensures Base(x) && (ret == 0 ==> ReadsBack(x.mem, x.at, x.r, LevelOf(index), index, val))
    ensures ret == 0 ==> (Linked(x.mem, x.r) <==> old(Safe(x.mem, x.r, index)))
    ensures old(Safe(x.mem, x.r, index)) ==>
              && x.Valid() && Linked(x.mem, x.r)
              && (ret == 0 ==> TableSet(old(x.mem), old(x.r), x.mem, x.r, index, val))
              && (ret == -1 ==> SameTable(old(x.mem), old(x.r), x.mem, x.r))
  {
    hide Linked, SameTable, TableSet, Safe;
    if index < 0x100 {
      ret := SetByte(x, index, val);
    } else if index < 0x1_0000 {
      ret := SetPage(x, index, val);
    } else if index < 0x100_0000 {
      ret := SetMid(x, index, val);
    } else {
      ret := SetHigh(x, index, val);
    }
  }

  /** What radix_set has stored, radix_get finds, whether or not the tree is still well linked. */
  method SetThenGet(x: Tree, index: nat, val: nat) returns (ret: int, v: nat)
    requires x.Valid() && Linked(x.mem, x.r) && index < INDICES
    modifies x
    ensures ret == 0 ==> v == val
  {
    hide Linked, Safe, TableSet, SameTable, Look, Placed;
    ret := Set(x, index, val);
    v := 0;
    if ret == 0 {
      v := x.Get(index);
    }
  }

  /**
    A tree of one page beyond the first, on which setting index 5 goes wrong: the new leaf is not hooked under root 2.
  */
  function PageTree(): Mem {
    map[1 := Put(map[1 := NewNode()], 1, 1, 2)[1], 2 := NewNode()]
  }

  lemma UnsafeExample()
    ensures Linked(PageTree(), [0, 0, 1, 0]) && !Safe(PageTree(), [0, 0, 1, 0], 5)
    ensures Sound(PageTree(), map[1 := Place(2, 0), 2 := Place(3, 1)], [0, 0, 1, 0])
  {
    var mem, r := PageTree(), [0, 0, 1, 0];
    assert IsNode(mem, 1) && IsNode(mem, 2) && mem[1][0] == 0;
    assert r[2 + 1] == Slot0(mem, r[2]);
  }
}
