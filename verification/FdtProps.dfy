/**
  Finding a property of a node: nextprop_ and fdt_get_property_namelen_ (libfdt/fdt_ro.c), and
  what setting or deleting one property means for every other one.
*/
module FdtProps {
  import opened Machine
  import opened FdtFormat
  import opened FdtReader

  // ---- Properties of a tree that has been read ---------------------------------------------------

  /** The outcome of a search: the place of a property, or the error that ended the search. */
  datatype Scan = At(index: nat) | Stop(err: nat)

  /** The first property of that name among the properties and fillers from i on. */
  function FindItem(items: seq<Item>, i: nat, name: Bytes): (r: Scan)
    ensures r.At? ==> i <= r.index < |items| && items[r.index].Property? && items[r.index].prop == Some(name)
    decreases |items| - i
  {
    if i >= |items| then Stop(BADSTRUCTURE)
    else
      match items[i]
      case Property(p, _) => if p == Some(name) then At(i) else FindItem(items, i + 1, name)
      case Filler => FindItem(items, i + 1, name)
      case Node(_) => Stop(NOTFOUND)
      case Close => Stop(NOTFOUND)
  }

  /** The item is passed over in a search for the name. */
  predicate Passed(x: Item, name: Bytes) {
    x.Filler? || (x.Property? && x.prop != Some(name))
  }

  /** The search finds the first property of the name, and fails with NOTFOUND exactly at a node boundary before it. */
  lemma {:induction false} FindItemExactly(items: seq<Item>, i: nat, name: Bytes, j: nat)
    ensures FindItem(items, i, name) == At(j) <==>
            && i <= j < |items| && items[j].Property? && items[j].prop == Some(name)
            && forall k :: i <= k < j ==> Passed(items[k], name)
    ensures FindItem(items, i, name) == Stop(NOTFOUND) <==>
            exists j :: i <= j < |items| && (items[j].Node? || items[j].Close?)
                        && forall k :: i <= k < j ==> Passed(items[k], name)
    ensures FindItem(items, i, name) == Stop(BADSTRUCTURE) <==>
            forall k :: i <= k < |items| ==> Passed(items[k], name)
    decreases |items| - i
  {
    if i < |items| && Passed(items[i], name) {
      FindItemExactly(items, i + 1, name, j);
    }
  }

  /** What fdt_getprop gives for the property of that name of node k. */
  function PropertyOf(items: seq<Item>, k: nat, name: Bytes): Option<Bytes> {
    ValueAt(items, k + 1, name)
  }

  function ValueAt(items: seq<Item>, i: nat, name: Bytes): Option<Bytes> {
    var r := FindItem(items, i, name);
    if r.At? then Some(items[r.index].val) else None
  }

  /** fdt_setprop on node k: the value replaced, or a new first property of the node. */
  function SetItem(items: seq<Item>, k: nat, name: Bytes, val: Bytes): seq<Item>
    requires k < |items|
  {
    match FindItem(items, k + 1, name)
    case At(i) => items[i := Property(Some(name), val)]
    case Stop(_) => items[..k + 1] + [Property(Some(name), val)] + items[k + 1..]
  }

  /** Where item j of the tree stands after the property has been set. */
  function MovedBySet(items: seq<Item>, k: nat, name: Bytes, j: nat): nat {
    if FindItem(items, k + 1, name).Stop? && j > k then j + 1 else j
  }

  /** Two item sequences whose tails agree are searched alike. */
  lemma {:induction false} SameTail(items: seq<Item>, i: nat, items': seq<Item>, i': nat, name: Bytes)
    requires i <= |items| && i' <= |items'| && items[i..] == items'[i'..]
    ensures ValueAt(items, i, name) == ValueAt(items', i', name)
    ensures FindItem(items, i, name).Stop? <==> FindItem(items', i', name).Stop?
    decreases |items| - i
  {
    assert |items| - i == |items'| - i';
    if i < |items| {
      assert items[i] == items[i..][0] == items'[i'..][0] == items'[i'];
      assert items[i + 1..] == items[i..][1..];
      assert items'[i' + 1..] == items'[i'..][1..];
      SameTail(items, i + 1, items', i' + 1, name);
    }
  }

  /** A search that starts at i, in the items where the property at p has another value. */
  lemma {:induction false} ReplacedValue(items: seq<Item>, p: nat, name: Bytes, val: Bytes, i: nat, other: Bytes)
    requires p < |items| && items[p].Property? && items[p].prop == Some(name)
    ensures var items' := items[p := Property(Some(name), val)];
            ValueAt(items', i, other) == if FindItem(items, i, other) == At(p) then Some(val)
              else ValueAt(items, i, other)
    decreases |items| - i
  {
    if i < |items| {
      ReplacedValue(items, p, name, val, i + 1, other);
    }
  }

  /** Between node k and the property found from it there are only properties and fillers. */
  lemma {:induction false} FoundInRun(items: seq<Item>, i: nat, name: Bytes)
    requires FindItem(items, i, name).At?
    ensures forall j :: i <= j < FindItem(items, i, name).index ==>
              (items[j].Property? && items[j].prop != Some(name)) || items[j].Filler?
    decreases |items| - i
  {
    if i < |items| && FindItem(items, i, name) != At(i) {
      FoundInRun(items, i + 1, name);
    }
  }

  /** A property belongs to one node. */
  lemma FoundByOneNode(items: seq<Item>, k: nat, name: Bytes, j: nat, other: Bytes)
    requires k < |items| && j < |items| && items[k].Node? && items[j].Node?
    requires FindItem(items, k + 1, name).At? && FindItem(items, k + 1, name) == FindItem(items, j + 1, other)
    ensures k == j && name == other
  {
    FoundInRun(items, k + 1, name);
    FoundInRun(items, j + 1, other);
  }

  /** A search that starts at or before k, in the items with one more property right after node k. */
  lemma {:induction false} InsertedBehind(items: seq<Item>, k: nat, x: Item, i: nat, other: Bytes)
    requires i <= k < |items| && items[k].Node?
    ensures ValueAt(items[..k + 1] + [x] + items[k + 1..], i, other) == ValueAt(items, i, other)
    decreases |items| - i
  {
    if i < k {
      InsertedBehind(items, k, x, i + 1, other);
    }
  }

  /** A search that starts behind node k. */
  lemma InsertedBefore(items: seq<Item>, k: nat, x: Item, j: nat, other: Bytes)
    requires k <= j < |items|
    ensures ValueAt(items[..k + 1] + [x] + items[k + 1..], j + 2, other) == ValueAt(items, j + 1, other)
  {
    hide FindItem, ValueAt;
    var items' := items[..k + 1] + [x] + items[k + 1..];
    assert items'[j + 2..] == items[j + 1..];
    SameTail(items', j + 2, items, j + 1, other);
  }

  lemma ValueOfFirst(items: seq<Item>, i: nat, name: Bytes, val: Bytes, other: Bytes)
    requires i < |items| && items[i] == Property(Some(name), val)
    ensures ValueAt(items, i, other) == if name == other then Some(val) else ValueAt(items, i + 1, other)
  {
  }

  /**
    After fdt_setprop on node k, that property reads as the new value, and every other property of
    that node and every property of every other node reads as before.
  */
  lemma SetThenRead(items: seq<Item>, k: nat, name: Bytes, val: Bytes, j: nat, other: Bytes)
    requires k < |items| && j < |items| && items[k].Node? && items[j].Node?
    ensures PropertyOf(SetItem(items, k, name, val), MovedBySet(items, k, name, j), other)
         == if k == j && name == other then Some(val) else PropertyOf(items, j, other)
  {
    hide FindItem, ValueAt;
    match FindItem(items, k + 1, name) {
      case At(p) =>
        ReplacedValue(items, p, name, val, j + 1, other);
        if FindItem(items, j + 1, other) == At(p) {
          FoundByOneNode(items, k, name, j, other);
        }
      case Stop(_) =>
        if j < k {
          InsertedBehind(items, k, Property(Some(name), val), j + 1, other);
        } else {
          var x := Property(Some(name), val);
          InsertedBefore(items, k, x, j, other);
          ValueOfFirst(items[..k + 1] + [x] + items[k + 1..], k + 1, name, val, other);
        }
    }
  }

  /** fdt_delprop on node k, whose property of that name stands at p. */
  function Removed(items: seq<Item>, p: nat): seq<Item>
    requires p < |items|
  {
    items[..p] + items[p + 1..]
  }

  lemma {:induction false} RemovedValue(items: seq<Item>, p: nat, i: nat, other: Bytes)
    requires i <= p < |items| && items[p].Property?
    ensures ValueAt(Removed(items, p), i, other)
         == if FindItem(items, i, other) == At(p) then ValueAt(items, p + 1, other) else ValueAt(items, i, other)
    decreases p - i
  {
    var items' := Removed(items, p);
    if i < p {
      RemovedValue(items, p, i + 1, other);
    } else {
      assert items'[p..] == items[p + 1..];
      SameTail(items', p, items, p + 1, other);
    }
  }

  /**
    After fdt_delprop of the property at p of node k, that name reads as the next property of the
    same name of the node, if there is one, and every other property of every node reads as before.
  */
  lemma DeleteThenRead(items: seq<Item>, k: nat, name: Bytes, j: nat, other: Bytes)
    requires k < |items| && j < |items| && items[k].Node? && items[j].Node?
    requires FindItem(items, k + 1, name).At?
    ensures var p := FindItem(items, k + 1, name).index;
            PropertyOf(Removed(items, p), if j < p then j else j - 1, other)
            == if k == j && name == other then ValueAt(items, p + 1, name) else PropertyOf(items, j, other)
  {
    var p := FindItem(items, k + 1, name).index;
    var items' := Removed(items, p);
    if j < p {
      RemovedValue(items, p, j + 1, other);
      if FindItem(items, j + 1, other) == At(p) {
        FoundByOneNode(items, k, name, j, other);
      }
    } else {
      assert items'[j..] == items[j + 1..];
      SameTail(items', j, items, j + 1, other);
    }
  }

  // ---- The search in a blob ----------------------------------------------------------------------

  /** The walk of the tokens ts of a tree stands before token i, at offset off. */
  ghost predicate Cursor(s: Bytes, ts: seq<Token>, i: nat, off: nat, end: nat) {
    && i <= |ts| && Walk(s, 0, ts[..i], off) && Walk(s, off, ts[i..], end)
    && Next(s, end).Step? && Next(s, end).tok == End
  }

  lemma CursorStep(s: Bytes, ts: seq<Token>, i: nat, off: nat, end: nat)
    requires Cursor(s, ts, i, off, end)
    ensures i <= |ts| && off % 4 == 0 && off <= |s| && Next(s, off).Step?
    ensures i == |ts| <==> Next(s, off).tok == End
    ensures i < |ts| ==> Next(s, off).tok == ts[i] && Cursor(s, ts, i + 1, Next(s, off).next, end)
  {
    hide Next;
    WalkFrom(s, off, ts, i, end);
    if i < |ts| {
      var n := Next(s, off).next;
      WalkBounds(s, n, ts[i + 1..], end);
      assert Walk(s, n, [], n) by {
        NextAligned(s, off);
      }
      assert [ts[i]][1..] == [];
      assert Walk(s, off, [ts[i]], n);
      WalkJoin(s, 0, ts[..i], off, [ts[i]], n);
      assert ts[..i] + [ts[i]] == ts[..i + 1];
    }
  }

  /** A finished tree and its tokens. */
  ghost predicate TreeIn(f: Buffer, ts: seq<Token>, end: nat)
    reads f, f.mem
  {
    && Readable(f.h, f.addr, f.mem.Length) && Tree(StructOf(f), ts, end)
    && forall j :: 0 <= j < |ts| ==> !ts[j].End?
  }

  /** If the offset reads as a node, it is the place of token k. */
  ghost predicate NodeOffset(f: Buffer, offset: int, ts: seq<Token>, k: nat, end: nat)
    requires StructSane(f.h, f.mem.Length)
    reads f, f.mem
  {
    IsNode(StructOf(f), offset) ==> Cursor(StructOf(f), ts, k, offset, end)
  }

  /** fdt_check_node_offset_ accepts the offset. */
  ghost predicate IsNode(s: Bytes, offset: int) {
    offset >= 0 && offset % 4 == 0 && Next(s, offset).Step? && Next(s, offset).tok.Begin?
  }

  /** fdt_check_node_offset_: the offset after the node's name. */
  method CheckNodeOffset(f: Buffer, offset: int) returns (r: int)
    requires StructSane(f.h, f.mem.Length) && -INT_MAX - 1 <= offset <= INT_MAX
    ensures r == if IsNode(StructOf(f), offset) then Next(StructOf(f), offset).next else -BADOFFSET
  {
    if offset < 0 || offset % 4 != 0 {
      return -BADOFFSET;
    }
    hide Next;
    var tag, next := NextTag(f, offset);
    if tag != TAG_BEGIN {
      return -BADOFFSET;
    }
    return next;
  }

  /** fdt_check_prop_offset_: the offset after the property. */
  method CheckPropOffset(f: Buffer, offset: int) returns (r: int)
    requires StructSane(f.h, f.mem.Length) && -INT_MAX - 1 <= offset <= INT_MAX
    ensures r == if offset >= 0 && offset % 4 == 0 && Next(StructOf(f), offset).Step?
            && Next(StructOf(f), offset).tok.Prop?
                 then Next(StructOf(f), offset).next else -BADOFFSET
  {
    if offset < 0 || offset % 4 != 0 {
      return -BADOFFSET;
    }
    hide Next;
    var tag, next := NextTag(f, offset);
    if tag != TAG_PROP {
      return -BADOFFSET;
    }
    return next;
  }

  // ---- Searches in any blob, well formed or not --------------------------------------------------

  /** The next property at or after the offset, past any NOPs, or a negative error. */
  ghost function PropFrom(s: Bytes, off: nat): (r: int)
    ensures r >= 0 ==> r >= off && Next(s, r).Step? && Next(s, r).tok.Prop? && (r % 4 == 0 || r == off)
    decreases |s| + 4 - off
  {
    match Next(s, off)
    case Bad(e) => ErrorIsNegative(s, off); 0 - e
    case Step(t, n) =>
      match t
      case End => -BADSTRUCTURE
      case Prop(_, _) => off
      case Nop => PropFrom(s, n)
      case Begin(_) => -NOTFOUND
      case EndNode => -NOTFOUND
  }

  /** The next property of that name among those that follow each other from the offset on, or a negative error. */
  ghost function PropNamed(s: Bytes, t: Bytes, off: nat, name: Bytes): (r: int)
    ensures r >= 0 ==> Next(s, r).Step? && Next(s, r).tok.Prop? && StrAt(t, Next(s, r).tok.nameoff) == Some(name)
    decreases |s| + 4 - off
  {
    var p := PropFrom(s, off);
    if p < 0 then p
    else if StrAt(t, Next(s, p).tok.nameoff) == Some(name) then p
    else PropNamed(s, t, Next(s, p).next, name)
  }

  /** What a search for a property of the node at the offset finds. */
  ghost function PropOfNode(s: Bytes, t: Bytes, nodeoffset: int, name: Bytes): (r: int)
    ensures r >= 0 ==> Next(s, r).Step? && Next(s, r).tok.Prop? && StrAt(t, Next(s, r).tok.nameoff) == Some(name)
  {
    if IsNode(s, nodeoffset) then PropNamed(s, t, Next(s, nodeoffset).next, name) else -BADOFFSET
  }

  /** nextprop_ */
  method NextProp(f: Buffer, start: nat) returns (offset: int)
    requires StructSane(f.h, f.mem.Length) && start <= INT_MAX
    ensures offset == PropFrom(StructOf(f), start)
  {
    hide Next, StructOf;
    ghost var s := StructOf(f);
    var at: nat := start;
    while true
      invariant at < |s| + 4 || at == start
      invariant PropFrom(s, start) == PropFrom(s, at)
      decreases |s| + 4 - at
    {
      var tag, next := NextTag(f, at);
      ErrorIsNegative(s, at);
      if tag == TAG_END {
        return if next >= 0 then -BADSTRUCTURE else next;
      }
      if tag == TAG_PROP {
        return at;
      }
      if tag != TAG_NOP {
        return -NOTFOUND;
      }
      at := next;
    }
  }

  /** fdt_string_eq_ and the comparison of fdt_get_property_namelen_. */
  method NameIs(f: Buffer, offset: nat, name: Bytes) returns (eq: bool)
    requires Readable(f.h, f.addr, f.mem.Length)
    requires Next(StructOf(f), offset).Step? && Next(StructOf(f), offset).tok.Prop?
    ensures eq <==> StrAt(StringsOf(f), Next(StructOf(f), offset).tok.nameoff) == Some(name)
  {
    hide Next, StructOf, StringsOf;
    var x := ReadProperty(f, offset);
    return x.prop == Some(name);
  }

  /** fdt_get_property_namelen_: the offset of the property of that name of the node, or a negative error. */
  method FindProperty(f: Buffer, nodeoffset: int, name: Bytes) returns (offset: int)
    requires Readable(f.h, f.addr, f.mem.Length) && -INT_MAX - 1 <= nodeoffset <= INT_MAX
    ensures offset == PropOfNode(StructOf(f), StringsOf(f), nodeoffset, name)
  {
    hide Next, StructOf, StringsOf, StrAt, PropFrom;
    var first := CheckNodeOffset(f, nodeoffset);
    if first < 0 {
      return first;
    }
    ghost var s, t := StructOf(f), StringsOf(f);
    ghost var from: nat := first;
    AfterNode(s, nodeoffset);
    offset := NextProp(f, first);
    while offset >= 0
      invariant from % 4 == 0 && offset == PropFrom(s, from)
                && PropNamed(s, t, first, name) == PropNamed(s, t, from, name)
      decreases |s| + 4 - from
    {
      var eq := NameIs(f, offset, name);
      if eq {
        return;
      }
      NextAligned(s, offset);
      var after := CheckPropOffset(f, offset);
      from := after;
      offset := NextProp(f, after);
    }
  }

  lemma AfterNode(s: Bytes, nodeoffset: int)
    requires IsNode(s, nodeoffset)
    ensures 0 <= Next(s, nodeoffset).next < |s| + 4 && Next(s, nodeoffset).next % 4 == 0
  {
  }

  /** fdt_getprop reads the value of the property, or reports why there is none. */
  method GetProp(f: Buffer, nodeoffset: int, name: Bytes) returns (val: Option<Bytes>, err: int)
    requires Readable(f.h, f.addr, f.mem.Length) && -INT_MAX - 1 <= nodeoffset <= INT_MAX
    ensures var p := PropOfNode(StructOf(f), StringsOf(f), nodeoffset, name);
            if p < 0 then val == None && err == p else val == Some(Next(StructOf(f), p).tok.val)
  {
    hide Next, StructOf, StringsOf, StrAt;
    var offset := FindProperty(f, nodeoffset, name);
    if offset < 0 {
      return None, offset;
    }
    var x := ReadProperty(f, offset);
    return Some(x.val), 0;
  }

  // ---- Searches in a tree --------------------------------------------------------------------------

  /** The offset stands for the outcome of a search among the items. */
  ghost predicate Reached(s: Bytes, ts: seq<Token>, end: nat, r: Scan, offset: int) {
    match r
    case At(j) => offset >= 0 && j < |ts| && ts[j].Prop? && Cursor(s, ts, j, offset, end)
    case Stop(e) => offset == 0 - e < 0
  }

  /** On a tree, the search in the blob finds what the search among the items finds. */
  lemma {:induction false} SearchOnTree(s: Bytes, t: Bytes, ts: seq<Token>, i: nat, off: nat, end: nat, name: Bytes)
    requires Cursor(s, ts, i, off, end) && forall j :: 0 <= j < |ts| ==> !ts[j].End?
    ensures Reached(s, ts, end, FindItem(Items(t, ts), i, name), PropNamed(s, t, off, name))
    decreases |ts| - i
  {
    hide Next, Cursor, StrAt;
    CursorStep(s, ts, i, off, end);
    if i < |ts| {
      var n := Next(s, off).next;
      if ts[i].Nop? || ts[i].Prop? {
        SearchOnTree(s, t, ts, i + 1, n, end, name);
      }
    }
  }

  /** The search from a node's offset in a tree. */
  lemma NodeSearchOnTree(s: Bytes, t: Bytes, ts: seq<Token>, k: nat, nodeoffset: int, end: nat, name: Bytes)
    requires IsNode(s, nodeoffset) && Cursor(s, ts, k, nodeoffset, end) && forall j :: 0 <= j < |ts| ==> !ts[j].End?
    ensures k < |ts| && ts[k].Begin?
    ensures Reached(s, ts, end, FindItem(Items(t, ts), k + 1, name), PropOfNode(s, t, nodeoffset, name))
  {
    hide Next, Cursor;
    CursorStep(s, ts, k, nodeoffset, end);
    SearchOnTree(s, t, ts, k + 1, Next(s, nodeoffset).next, end, name);
  }

  /** What fdt_getprop reads of a node of a tree is the property of that item. */
  lemma ReadOnTree(s: Bytes, t: Bytes, ts: seq<Token>, k: nat, nodeoffset: int, end: nat, name: Bytes)
    requires IsNode(s, nodeoffset) && Cursor(s, ts, k, nodeoffset, end) && forall j :: 0 <= j < |ts| ==> !ts[j].End?
    ensures var p := PropOfNode(s, t, nodeoffset, name);
            PropertyOf(Items(t, ts), k, name) == if p < 0 then None else Some(Next(s, p).tok.val)
  {
    hide Next, Cursor, FindItem;
    NodeSearchOnTree(s, t, ts, k, nodeoffset, end, name);
    var r, p := FindItem(Items(t, ts), k + 1, name), PropOfNode(s, t, nodeoffset, name);
    if r.At? {
      CursorStep(s, ts, r.index, p, end);
    }
  }
}
