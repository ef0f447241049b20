/**
  The intrusive doubly linked ring of common/list.h.

  A `list_t` is two link words, `next` and `prev`, stored at some address. A list is
  a root address whose links, followed forward or backward, visit the items and come back
  to the root. The predicate `IsRing` ties the link words to the sequence of items; every
  list operation is proved to edit that sequence.
*/
module Ring {

  type Addr = int

  /** The link words of memory: `next` and `prev` of every address that holds a list_t. */
  datatype Links = Links(next: map<Addr, Addr>, prev: map<Addr, Addr>)

  /** No address occurs twice. */
  ghost predicate Distinct(s: seq<Addr>) {
    forall i, j :: 0 <= i < j < |s| ==> s[i] != s[j]
  }

  /** The node at position i of the ring; the root sits at both -1 and |s|. */
  function At(root: Addr, s: seq<Addr>, i: int): Addr {
    if 0 <= i < |s| then s[i] else root
  }

  /** The links reachable from root are exactly the items s, in that order, in both directions. */
  ghost predicate IsRing(l: Links, root: Addr, s: seq<Addr>) {
    && Distinct(s)
    && root !in s
    && root in l.next && root in l.prev
    && (forall i :: 0 <= i < |s| ==> s[i] in l.next && s[i] in l.prev)
    && (forall i :: -1 <= i < |s| ==> l.next[At(root, s, i)] == At(root, s, i + 1))
    && (forall i :: 0 <= i <= |s| ==> l.prev[At(root, s, i)] == At(root, s, i - 1))
  }

  /** The links after `list_addfirst(cur, item)`. */
  function AddedAfter(l: Links, cur: Addr, item: Addr): Links
    requires cur in l.next
  {
    Links(l.next[item := l.next[cur]][cur := item], l.prev[item := cur][l.next[cur] := item])
  }

  /** The links after `list_unlink(item)`. */
  function Unlinked(l: Links, item: Addr): Links
    requires item in l.next && item in l.prev
  {
    Links(l.next[l.prev[item] := l.next[item]], l.prev[l.next[item] := l.prev[item]])
  }

  /** The sequence with x inserted at position k. */
  function InsertAt<T>(s: seq<T>, k: nat, x: T): seq<T>
    requires k <= |s|
  {
    s[..k] + [x] + s[k..]
  }

  /** The sequence without its element at position k. */
  function RemoveAt<T>(s: seq<T>, k: nat): seq<T>
    requires k < |s|
  {
    s[..k] + s[k + 1..]
  }

  lemma InsertAtContents<T>(s: seq<T>, k: nat, x: T)
    requires k <= |s|
    ensures forall y :: y in InsertAt(s, k, x) <==> y == x || y in s
  {
    assert s == s[..k] + s[k..];
  }

  lemma RemoveAtContents<T>(s: seq<T>, k: nat)
    requires k < |s| && forall i, j :: 0 <= i < j < |s| ==> s[i] != s[j]
    ensures forall y :: y in RemoveAt(s, k) <==> y != s[k] && y in s
  {
    assert s == s[..k] + [s[k]] + s[k + 1..];
  }

  lemma AddedAfterIsRing(l: Links, root: Addr, s: seq<Addr>, k: nat, item: Addr)
    requires IsRing(l, root, s) && k <= |s|
    requires item != root && item !in s
    ensures IsRing(AddedAfter(l, At(root, s, k - 1), item), root, InsertAt(s, k, item))
  {
    var cur := At(root, s, k - 1);
    var l', s' := AddedAfter(l, cur, item), InsertAt(s, k, item);
    assert l.next[cur] == At(root, s, k);
    forall i | -1 <= i < |s'|
      ensures l'.next[At(root, s', i)] == At(root, s', i + 1)
    {
      if i < k - 1 {
        assert At(root, s', i) == At(root, s, i) != cur;
        assert At(root, s, i + 1) == At(root, s', i + 1);
      } else if i > k {
        assert At(root, s', i) == At(root, s, i - 1) != cur;
        assert At(root, s, i) == At(root, s', i + 1);
      }
    }
    forall i | 0 <= i <= |s'|
      ensures l'.prev[At(root, s', i)] == At(root, s', i - 1)
    {
      if i < k {
        assert At(root, s', i) == At(root, s, i) != At(root, s, k);
        assert At(root, s, i - 1) == At(root, s', i - 1);
      } else if i > k + 1 {
        assert At(root, s', i) == At(root, s, i - 1) != At(root, s, k);
        assert At(root, s, i - 2) == At(root, s', i - 1);
      }
    }
  }

  lemma UnlinkedIsRing(l: Links, root: Addr, s: seq<Addr>, k: nat)
    requires IsRing(l, root, s) && k < |s|
    ensures IsRing(Unlinked(l, s[k]), root, RemoveAt(s, k))
  {
    var l', s' := Unlinked(l, s[k]), RemoveAt(s, k);
    assert s[k] == At(root, s, k);
    var p, n := At(root, s, k - 1), At(root, s, k + 1);
    assert l.prev[s[k]] == p && l.next[s[k]] == n;
    forall i | -1 <= i < |s'|
      ensures l'.next[At(root, s', i)] == At(root, s', i + 1)
    {
      if i < k - 1 {
        assert At(root, s', i) == At(root, s, i) != p;
        assert At(root, s, i + 1) == At(root, s', i + 1);
      } else if i >= k {
        assert At(root, s', i) == At(root, s, i + 1) != p;
        assert At(root, s, i + 2) == At(root, s', i + 1);
      }
    }
    forall i | 0 <= i <= |s'|
      ensures l'.prev[At(root, s', i)] == At(root, s', i - 1)
    {
      if i < k {
        assert At(root, s', i) == At(root, s, i) != n;
        assert At(root, s, i - 1) == At(root, s', i - 1);
      } else if i > k {
        assert At(root, s', i) == At(root, s, i + 1) != n;
        assert At(root, s, i) == At(root, s', i - 1);
      }
    }
  }

  /** Two rings read from the same links either share their root or share nothing. */
  lemma {:induction false} RingsFromSameRootAgree(l: Links, root: Addr, s: seq<Addr>, t: seq<Addr>, k: nat)
    requires IsRing(l, root, s) && IsRing(l, root, t)
    requires k <= |s|
    ensures k <= |t| && s[..k] == t[..k]
  {
    if k > 0 {
      RingsFromSameRootAgree(l, root, s, t, k - 1);
      assert At(root, s, k - 2) == At(root, t, k - 2);
      assert l.next[At(root, s, k - 2)] == At(root, s, k - 2 + 1) == s[k - 1];
      assert l.next[At(root, t, k - 2)] == At(root, t, k - 2 + 1);
      assert s[..k] == s[..k - 1] + [s[k - 1]];
    }
  }

  /** A root determines its items: the ring is a function of the links. */
  lemma RingIsUnique(l: Links, root: Addr, s: seq<Addr>, t: seq<Addr>)
    requires IsRing(l, root, s) && IsRing(l, root, t)
    ensures s == t
  {
    RingsFromSameRootAgree(l, root, s, t, |s|);
    RingsFromSameRootAgree(l, root, t, s, |t|);
  }

  /** A ring none of whose nodes had its links written is still the same ring. */
  lemma RingFrame(l: Links, l': Links, root: Addr, s: seq<Addr>)
    requires IsRing(l, root, s)
    requires forall a :: a == root || a in s ==>
                           a in l'.next && a in l'.prev && l'.next[a] == l.next[a] && l'.prev[a] == l.prev[a]
    ensures IsRing(l', root, s)
  {
    forall i | -1 <= i < |s|
      ensures l'.next[At(root, s, i)] == At(root, s, i + 1)
    {
      assert l.next[At(root, s, i)] == At(root, s, i + 1);
    }
    forall i | 0 <= i <= |s|
      ensures l'.prev[At(root, s, i)] == At(root, s, i - 1)
    {
      assert l.prev[At(root, s, i)] == At(root, s, i - 1);
    }
  }

  /** Memory seen through its link words; the methods are the operations of list.h. */
  class LinkMemory {
    var next: map<Addr, Addr>
    var prev: map<Addr, Addr>

    constructor ()
      ensures next == map[] && prev == map[]
    {
      next, prev := map[], map[];
    }

    ghost function Val(): Links
      reads this
    {
      Links(next, prev)
    }

    /** list_init */
    method Init(root: Addr)
      modifies this
      ensures Val() == Links(old(next)[root := root], old(prev)[root := root])
      ensures IsRing(Val(), root, [])
    {
      prev := prev[root := root];
      next := next[root := root];
    }

    /** list_isempty */
    method IsEmpty(root: Addr, ghost s: seq<Addr>) returns (r: bool)
      requires IsRing(Val(), root, s)
      ensures r <==> s == []
    {
      assert next[At(root, s, -1)] == At(root, s, 0);
      r := root == next[root];
    }

    /** list_addfirst on the node at position k - 1: the item lands at position k. */
    method AddAfter(cur: Addr, item: Addr, ghost root: Addr, ghost s: seq<Addr>, ghost k: nat)
      requires IsRing(Val(), root, s) && k <= |s| && cur == At(root, s, k - 1)
      requires item != root && item !in s
      modifies this
      ensures Val() == AddedAfter(old(Val()), cur, item)
      ensures IsRing(Val(), root, InsertAt(s, k, item))
    {
      AddedAfterIsRing(Val(), root, s, k, item);
      next := next[item := next[cur]];
      prev := prev[item := cur];
      prev := prev[next[cur] := item];
      next := next[cur := item];
    }

    /** list_addlast: added after the last item, that is before the root. */
    method AddLast(root: Addr, item: Addr, ghost s: seq<Addr>)
      requires IsRing(Val(), root, s)
      requires item != root && item !in s
      modifies this
      ensures Val() == AddedAfter(old(Val()), At(root, s, |s| - 1), item)
      ensures IsRing(Val(), root, s + [item])
    {
      assert prev[At(root, s, |s|)] == At(root, s, |s| - 1);
      AddAfter(prev[root], item, root, s, |s|);
      assert InsertAt(s, |s|, item) == s + [item];
    }

    /** list_unlink of the item at position k; the item keeps its own link words. */
    method Unlink(item: Addr, ghost root: Addr, ghost s: seq<Addr>, ghost k: nat)
      requires IsRing(Val(), root, s) && k < |s| && item == s[k]
      modifies this
      ensures Val() == Unlinked(old(Val()), item)
      ensures IsRing(Val(), root, RemoveAt(s, k))
    {
      UnlinkedIsRing(Val(), root, s, k);
      assert next[At(root, s, k)] == At(root, s, k + 1) && prev[At(root, s, k)] == At(root, s, k - 1);
      next := next[prev[item] := next[item]];
      prev := prev[next[item] := prev[item]];
    }
  }
}
