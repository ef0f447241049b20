/**
  The radix tree with shortcut roots of common/radix.c: a 32-bit index is four bytes, one per
  level; a node has 256 slots, which hold nodes on levels 0 to 2 and values on level 3; and root l
  is meant to be the node reached by l zero bytes.
*/
module Radix {

  type Ptr = nat                    // 0 is NULL
  type Mem = map<Ptr, seq<nat>>     // the slots of every allocated node
  type Roots = r: seq<Ptr> | |r| == 4 witness [0, 0, 0, 0]

  const INDICES := 0x1_0000_0000

  /** The number of indices below a node of level l. */
  function Span(l: nat): nat
    requires l <= 4
  {
    if l == 0 then 0x1_0000_0000 else if l == 1 then 0x100_0000 else if l == 2 then 0x1_0000 else if l == 3 then 0x100
      else 1
  }

  /** The byte of the index that level l looks at: the macros L0 to L3. */
  function Digit(l: nat, a: nat): (d: nat)
    requires l <= 3
    ensures d < 256
  {
    a / Span(l + 1) % 256
  }

  /** The bytes of the index above level l. */
  function Prefix(l: nat, a: nat): nat
    requires l <= 4
  {
    a / Span(l)
  }

  lemma PrefixStep(l: nat, a: nat)
    requires l <= 3
    ensures Prefix(l + 1, a) == Prefix(l, a) * 256 + Digit(l, a)
  {
    var q := a / Span(l + 1);
    assert q == q / 256 * 256 + q % 256;
    assert q / 256 == a / Span(l) by {
      assert Span(l) == 256 * Span(l + 1);
      if l == 0 {
        assert a / 0x100_0000 / 256 == a / 0x1_0000_0000;
      } else if l == 1 {
        assert a / 0x1_0000 / 256 == a / 0x100_0000;
      } else if l == 2 {
        assert a / 0x100 / 256 == a / 0x1_0000;
      } else {
        assert a / 1 / 256 == a / 0x100;
      }
    }
  }

  /** Small indices have zero bytes above. */
  lemma SmallIndex(l: nat, a: nat, k: nat)
    requires k < l <= 4 && a < Span(l)
    ensures Digit(k, a) == 0 && Prefix(l, a) == 0
  {
    assert Span(l) <= Span(k + 1);
    assert a / Span(k + 1) == 0;
  }

  // ---- Walks -------------------------------------------------------------------------------------

  /** The node at p has its slots. */
  predicate IsNode(mem: Mem, p: Ptr) {
    p != 0 && p in mem && |mem[p]| == 256
  }

  /** The value for index a found by walking down from the node p of level l. */
  function Look(mem: Mem, p: Ptr, l: nat, a: nat): nat
    requires l <= 3
    decreases 3 - l
  {
    if !IsNode(mem, p) then 0
    else if l == 3 then mem[p][Digit(3, a)]
    else Look(mem, mem[p][Digit(l, a)], l + 1, a)
  }

  /** The level of the topmost root. */
  function Top(r: Roots): (t: nat)
    ensures t <= 3 && (forall l :: 0 <= l < t ==> r[l] == 0) && (t < 3 ==> r[t] != 0)
  {
    if r[0] != 0 then 0 else if r[1] != 0 then 1 else if r[2] != 0 then 2 else 3
  }

  function Slot0(mem: Mem, p: Ptr): nat {
    if IsNode(mem, p) then mem[p][0] else 0
  }

  /** Well linked: from the topmost root down, each root is slot 0 of the root above it. */
  ghost predicate Linked(mem: Mem, r: Roots) {
    forall l :: Top(r) <= l < 3 ==> r[l + 1] == Slot0(mem, r[l])
  }

  /** The table that the tree stands for: the full walk from the topmost root. */
  function Table(mem: Mem, r: Roots, a: nat): nat {
    if a >= Span(Top(r)) then 0 else Look(mem, r[Top(r)], Top(r), a)
  }

  /** A walk for a small index passes through the roots. */
  lemma {:induction false} WalkThroughRoots(mem: Mem, r: Roots, k: nat, l: nat, a: nat)
    requires Linked(mem, r) && Top(r) <= k <= l <= 3 && a < Span(l)
    ensures Look(mem, r[k], k, a) == Look(mem, r[l], l, a)
    decreases l - k
  {
    if k < l {
      SmallIndex(l, a, k);
      assert r[k + 1] == Slot0(mem, r[k]);
      WalkThroughRoots(mem, r, k + 1, l, a);
      if !IsNode(mem, r[k]) {
        assert !IsNode(mem, r[k + 1]);
      }
    }
  }

  /** On well-linked trees the walk from the shortcut root is the full walk. */
  lemma ShortcutIsFullWalk(mem: Mem, r: Roots, l: nat, a: nat)
    requires Linked(mem, r) && l <= 3 && a < Span(l) && (l < 3 ==> a >= Span(l + 1))
    ensures Look(mem, r[l], l, a) == Table(mem, r, a)
  {
    var t := Top(r);
    if l < t {
      assert r[l] == 0;
      assert Span(l + 1) >= Span(t);
    } else {
      WalkThroughRoots(mem, r, t, l, a);
      assert Span(t) >= Span(l);
    }
  }

  // ---- Where nodes are -----------------------------------------------------------------------------

  /** The place of a node: its level and the bytes that lead to it. */
  datatype Place = Place(level: nat, pre: nat)

  /** Every node has one place, and its children are at the places its slots name. */
  ghost predicate Placed(mem: Mem, at: map<Ptr, Place>) {
    && at.Keys == mem.Keys
    && (forall p :: p in mem ==> p != 0 && |mem[p]| == 256 && at[p].level <= 3)
    && (forall p, i :: p in mem && at[p].level < 3 && 0 <= i < |mem[p]| && mem[p][i] != 0 ==>
          mem[p][i] in at && at[mem[p][i]] == Place(at[p].level + 1, at[p].pre * 256 + i))
  }

  ghost predicate PlacedAt(at: map<Ptr, Place>, p: Ptr, l: nat, pre: nat) {
    p == 0 || (p in at && at[p] == Place(l, pre))
  }

  ghost predicate RootsPlaced(at: map<Ptr, Place>, r: Roots) {
    forall l :: 0 <= l < 4 ==> PlacedAt(at, r[l], l, 0)
  }

  lemma ChildPlaced(mem: Mem, at: map<Ptr, Place>, p: Ptr, l: nat, a: nat)
    requires Placed(mem, at) && l < 3 && PlacedAt(at, p, l, Prefix(l, a)) && p != 0
    ensures IsNode(mem, p) && PlacedAt(at, mem[p][Digit(l, a)], l + 1, Prefix(l + 1, a))
  {
    PrefixStep(l, a);
  }

  function Put(mem: Mem, p: Ptr, i: nat, v: nat): Mem
    requires p in mem && i < |mem[p]|
  {
    var s: seq<nat> := mem[p][i := v];
    mem[p := s]
  }

  /** Writing one value: the walk for its index gives the value, every other walk what it gave. */
  lemma {:induction false} ValueWritten(mem: Mem, at: map<Ptr, Place>, q: Ptr, l: nat, a: nat, p: Ptr, b: nat, v: nat)
    requires Placed(mem, at) && l <= 3 && PlacedAt(at, q, l, Prefix(l, a)) && p in mem
             && at[p] == Place(3, Prefix(3, b))
    ensures |mem[p]| == 256
    ensures a != b ==> Look(Put(mem, p, Digit(3, b), v), q, l, a) == Look(mem, q, l, a)
    decreases 3 - l
  {
    var mem' := Put(mem, p, Digit(3, b), v);
    if q != 0 {
      if l == 3 {
        PrefixStep(3, a);
        PrefixStep(3, b);
      } else {
        ChildPlaced(mem, at, q, l, a);
        ValueWritten(mem, at, mem[q][Digit(l, a)], l + 1, a, p, b, v);
      }
    }
  }

  function NewNode(): seq<nat> {
    seq(256, _ => 0)
  }

  /** A fresh empty node put into an empty slot changes no walk. */
  lemma {:induction false} NodeLinked(mem: Mem, at: map<Ptr, Place>, q: Ptr, l: nat, a: nat, p: Ptr, i: nat, n: Ptr)
    requires Placed(mem, at) && l <= 3 && PlacedAt(at, q, l, Prefix(l, a))
    requires p in mem && at[p].level < 3 && i < 256 && mem[p][i] == 0 && n !in mem && n != 0
    ensures Look(Put(mem, p, i, n)[n := NewNode()], q, l, a) == Look(mem, q, l, a)
    decreases 3 - l
  {
    var mem' := Put(mem, p, i, n)[n := NewNode()];
    if q != 0 {
      if l < 3 {
        ChildPlaced(mem, at, q, l, a);
        if q == p && Digit(l, a) == i {
          assert IsNode(mem', n) && mem'[n][Digit(l + 1, a)] == 0;
          assert Look(mem', n, l + 1, a) == 0;
        } else {
          assert mem'[q][Digit(l, a)] == mem[q][Digit(l, a)];
          NodeLinked(mem, at, mem[q][Digit(l, a)], l + 1, a, p, i, n);
        }
      }
    }
  }

  /** A node that no walk reaches changes none. */
  lemma {:induction false} NodeAdded(mem: Mem, at: map<Ptr, Place>, q: Ptr, l: nat, a: nat, n: Ptr, s: seq<nat>)
    requires Placed(mem, at) && l <= 3 && PlacedAt(at, q, l, Prefix(l, a)) && n !in mem
    ensures Look(mem[n := s], q, l, a) == Look(mem, q, l, a)
    decreases 3 - l
  {
    if q != 0 && l < 3 {
      ChildPlaced(mem, at, q, l, a);
      NodeAdded(mem, at, mem[q][Digit(l, a)], l + 1, a, n, s);
    }
  }

  /** The node of level m on the walk for index a from the node p of level l, or NULL. */
  function NodeAt(mem: Mem, p: Ptr, l: nat, m: nat, a: nat): Ptr
    requires l <= m <= 3
    decreases m - l
  {
    if l == m then p else if !IsNode(mem, p) then 0 else NodeAt(mem, mem[p][Digit(l, a)], l + 1, m, a)
  }

  lemma {:induction false} NodeAtPlaced(mem: Mem, at: map<Ptr, Place>, p: Ptr, l: nat, m: nat, a: nat)
    requires Placed(mem, at) && l <= m <= 3 && PlacedAt(at, p, l, Prefix(l, a))
    ensures PlacedAt(at, NodeAt(mem, p, l, m, a), m, Prefix(m, a))
    decreases m - l
  {
    if l < m && p != 0 {
      ChildPlaced(mem, at, p, l, a);
      NodeAtPlaced(mem, at, mem[p][Digit(l, a)], l + 1, m, a);
    }
  }
}
