/**
  Operations of the device tree library one after the other: what fdt_finish leaves can be edited; setting
  one property moves the other nodes but changes no other reading; an accepted blob stays accepted.
*/
module FdtWhole {
  import opened Machine
  import opened FdtFormat
  import opened FdtReader
  import opened FdtCheck
  import opened FdtWriter
  import opened FdtFinish
  import opened FdtProps
  import opened FdtEditor

  lemma FinishedBlocks(h: Header, b: Bytes, addr: nat, us: seq<Token>, end: nat, t: Bytes)
    requires Finished(h, b, us, end, t) && addr % 8 == 0 && |b| < INT_MAX
    ensures Blocks(h, |b|) && RwProbe(h, addr) == 0
  {
    hide Tree, Strings, Struct;
  }

  lemma TreeHasNoEnd(s: Bytes, us: seq<Token>, end: nat)
    requires Tree(s, us, end)
    ensures forall j :: 0 <= j < |us| ==> !us[j].End?
  {
    WalkHasNoEnd(s, 0, us, end);
  }

  /** A tree that the sequential writer finished can be edited, and all its names resolve. */
  lemma FinishedIsEditable(f: Buffer, ts: seq<Token>, calls: seq<Call>, end: nat, t: Bytes)
    requires f.addr % 8 == 0 && f.mem.Length < INT_MAX && AllWritten(t, ts, calls)
    requires Finished(f.h, f.mem[..], FixedAll(ts, |t|), end, t)
    ensures RwProbe(f.h, f.addr) == 0 && Editable(f, FixedAll(ts, |t|), end)
    ensures NamesResolve(StringsOf(f), FixedAll(ts, |t|))
  {
    hide Tree, AllWritten, NamesResolve, Finished, RwProbe;
    var us := FixedAll(ts, |t|);
    FinishedReadable(f.h, f.mem[..], f.addr, us, end, t);
    FinishedBlocks(f.h, f.mem[..], f.addr, us, end, t);
    TreeHasNoEnd(StructOf(f), us, end);
    FinishedNamesResolve(t, ts, calls);
  }

  // ---- Where nodes stand after an edit -----------------------------------------------------------

  /** The bytes that tokens take. */
  function Extent(ts: seq<Token>): nat {
    if ts == [] then 0 else SizeOf(ts[0]) + Extent(ts[1..])
  }

  lemma {:induction false} ExtentJoin(ts: seq<Token>, us: seq<Token>)
    ensures Extent(ts + us) == Extent(ts) + Extent(us)
  {
    if ts == [] {
      assert ts + us == us;
    } else {
      ExtentJoin(ts[1..], us);
      assert (ts + us)[1..] == ts[1..] + us;
    }
  }

  lemma ExtentOfOne(x: Token)
    ensures Extent([x]) == SizeOf(x) > 0
  {
    assert [x][1..] == [];
  }

  /** A walk arrives behind the bytes of its tokens. */
  lemma {:induction false} WalkExtent(s: Bytes, off: nat, ts: seq<Token>, end: nat)
    requires Walk(s, off, ts, end)
    ensures end == off + Extent(ts)
    decreases |ts|
  {
    hide Next, SizeOf;
    if ts != [] {
      NextBySize(s, off);
      WalkExtent(s, Next(s, off).next, ts[1..], end);
    }
  }

  lemma CursorExtent(s: Bytes, ts: seq<Token>, i: nat, off: nat, end: nat)
    requires Cursor(s, ts, i, off, end)
    ensures i <= |ts| && off == Extent(ts[..i])
  {
    WalkExtent(s, 0, ts[..i], off);
  }

  /** Every token of a tree has its place. */
  lemma CursorAt(s: Bytes, ts: seq<Token>, end: nat, i: nat)
    requires Tree(s, ts, end) && i <= |ts|
    ensures Cursor(s, ts, i, Extent(ts[..i]), end)
  {
    hide Next;
    assert ts == ts[..i] + ts[i..];
    var mid := WalkSplit(s, 0, ts[..i], ts[i..], end);
    WalkExtent(s, 0, ts[..i], mid);
  }

  /** Later tokens stand at larger offsets. */
  lemma ExtentGrows(ts: seq<Token>, i: nat, j: nat)
    requires i < j <= |ts|
    ensures Extent(ts[..i]) < Extent(ts[..j])
  {
    assert ts[..j] == ts[..i] + [ts[i]] + ts[i + 1..j];
    ExtentJoin(ts[..i] + [ts[i]], ts[i + 1..j]);
    ExtentJoin(ts[..i], [ts[i]]);
    ExtentOfOne(ts[i]);
  }

  /** Nodes behind the node whose property is set stand behind that property. */
  lemma NodesBehind(t: Bytes, ts: seq<Token>, k: nat, j: nat, name: Bytes)
    requires (forall i :: 0 <= i < |ts| ==> !ts[i].End?) && k < j < |ts| && ts[j].Begin?
    ensures var r := FindItem(Items(t, ts), k + 1, name); r.At? ==> r.index < j
  {
    hide StrAt;
    var items := Items(t, ts);
    var r := FindItem(items, k + 1, name);
    assert items[j].Node?;
    if r.At? {
      FoundInRun(items, k + 1, name);
    }
  }

  /** The offset of a node after a property of node k has been set: nodes behind it move by the growth. */
  lemma ExtentAfterSet(t: Bytes, ts: seq<Token>, t': Bytes, ts': seq<Token>, k: nat, j: nat, name: Bytes, val: Bytes)
    requires (forall i :: 0 <= i < |ts| ==> !ts[i].End?) && k < |ts| && j < |ts| && ts[j].Begin?
    requires SetTokens(t, ts, t', ts', k, FindItem(Items(t, ts), k + 1, name), name, val)
    ensures var items, found := Items(t, ts), FindItem(Items(t, ts), k + 1, name);
            var m := MovedBySet(items, k, name, j);
            && m < |ts'| && ts'[m] == ts[j]
            && Extent(ts'[..m]) == Extent(ts[..j]) + if j > k then Growth(ts, found, val) else 0
  {
    hide StrAt, FindItem, Items, HasName, Align, Extent;
    var r := FindItem(Items(t, ts), k + 1, name);
    SearchIsBehind(Items(t, ts), k + 1, name);
    if j > k {
      NodesBehind(t, ts, k, j, name);
    }
    match r {
      case At(i) =>
        if j > i {
          ExtentReplaced(ts, i, j, ts'[i]);
        } else {
          assert ts'[..j] == ts[..j];
        }
      case Stop(_) =>
        if j > k {
          ExtentInserted(ts, k + 1, j, ts'[k + 1]);
        } else {
          assert ts'[..j] == ts[..j];
        }
    }
  }

  lemma SearchIsBehind(items: seq<Item>, i: nat, name: Bytes)
    ensures var r := FindItem(items, i, name); r.At? ==> i <= r.index < |items|
  {
  }

  lemma ExtentReplaced(ts: seq<Token>, i: nat, j: nat, x: Token)
    requires i < j <= |ts|
    ensures var us := ts[..i] + [x] + ts[i + 1..];
            Extent(us[..j]) == Extent(ts[..j]) - SizeOf(ts[i]) + SizeOf(x)
  {
    var us := ts[..i] + [x] + ts[i + 1..];
    assert us[..j] == ts[..i] + [x] + ts[i + 1..j];
    assert ts[..j] == ts[..i] + [ts[i]] + ts[i + 1..j];
    ExtentThree(ts[..i], x, ts[i + 1..j]);
    ExtentThree(ts[..i], ts[i], ts[i + 1..j]);
  }

  lemma ExtentInserted(ts: seq<Token>, i: nat, j: nat, x: Token)
    requires i <= j <= |ts|
    ensures var us := ts[..i] + [x] + ts[i..];
            Extent(us[..j + 1]) == Extent(ts[..j]) + SizeOf(x)
  {
    var us := ts[..i] + [x] + ts[i..];
    assert us[..j + 1] == ts[..i] + [x] + ts[i..j];
    assert ts[..j] == ts[..i] + ts[i..j];
    ExtentThree(ts[..i], x, ts[i..j]);
    ExtentJoin(ts[..i], ts[i..j]);
  }

  lemma ExtentThree(a: seq<Token>, x: Token, b: seq<Token>)
    ensures Extent(a + [x] + b) == Extent(a) + SizeOf(x) + Extent(b)
  {
    ExtentJoin(a + [x], b);
    ExtentJoin(a, [x]);
    ExtentOfOne(x);
  }

  /** A node of the tree stands at its moved offset after the edit. */
  lemma NodeAfterSet(s: Bytes, t: Bytes, ts: seq<Token>, end: nat, k: nat, nodeoffset: nat, j: nat, other: nat,
                     s': Bytes, t': Bytes, ts': seq<Token>, end': nat, name: Bytes, val: Bytes)
    requires (forall i :: 0 <= i < |ts| ==> !ts[i].End?) && Tree(s', ts', end')
    requires IsNode(s, nodeoffset) && Cursor(s, ts, k, nodeoffset, end) && IsNode(s, other)
             && Cursor(s, ts, j, other, end)
    requires SetTokens(t, ts, t', ts', k, FindItem(Items(t, ts), k + 1, name), name, val)
    ensures k < |ts| && j < |ts| && ts[k].Begin? && ts[j].Begin? && (other == nodeoffset <==> j == k)
    ensures var found := FindItem(Items(t, ts), k + 1, name);
            var moved := if other > nodeoffset then other + Growth(ts, found, val) else other;
            && moved >= 0 && IsNode(s', moved) && Cursor(s', ts', MovedBySet(Items(t, ts), k, name, j), moved, end')
  {
    hide Next, Cursor, StrAt, FindItem, Items, HasName, Align, Extent, Tree, SetTokens, MovedBySet;
    CursorStep(s, ts, k, nodeoffset, end);
    CursorStep(s, ts, j, other, end);
    CursorExtent(s, ts, k, nodeoffset, end);
    CursorExtent(s, ts, j, other, end);
    if j < k {
      ExtentGrows(ts, j, k);
    } else if k < j {
      ExtentGrows(ts, k, j);
    }
    ExtentAfterSet(t, ts, t', ts', k, j, name, val);
    var m := MovedBySet(Items(t, ts), k, name, j);
    CursorAt(s', ts', end', m);
    CursorStep(s', ts', m, Extent(ts'[..m]), end');
    CursorAligned(s', ts', m, Extent(ts'[..m]), end');
  }

  lemma CursorAligned(s: Bytes, ts: seq<Token>, i: nat, off: nat, end: nat)
    requires Cursor(s, ts, i, off, end)
    ensures off % 4 == 0
  {
  }

  /** The names that the tokens have now also stay when this name is added. */
  lemma NamesStayWith(t: Bytes, t': Bytes, ts: seq<Token>, name: Bytes)
    requires NamesStay(t, WithName(t, name), ts, name) && (t' == t || t' == WithName(t, name))
    ensures NamesStay(t, t', ts, name)
  {
    hide StrAt;
  }

  /** What is read of node j, at its place after the edit, by what was read of it before. */
  lemma ReadAfterSet(h: Header, s: Bytes, t: Bytes, ts: seq<Token>, end: nat, k: nat, nodeoffset: nat, j: nat,
                     other: nat,
                     h': Header, s': Bytes, t': Bytes, ts': seq<Token>, end': nat, name: Bytes, val: Bytes,
                       otherName: Bytes)
    requires (forall i :: 0 <= i < |ts| ==> !ts[i].End?) && (forall i :: 0 <= i < |ts'| ==> !ts'[i].End?)
    requires Tree(s', ts', end') && NoZero(name) && NamesStay(t, WithName(t, name), ts, name)
    requires IsNode(s, nodeoffset) && Cursor(s, ts, k, nodeoffset, end) && IsNode(s, other)
             && Cursor(s, ts, j, other, end)
    requires SetOutcome(h, s, t, ts, nodeoffset, k, name, val, h', s', t', ts', 0)
    ensures var moved := if other > nodeoffset then other + (h'.sizeStruct - h.sizeStruct) else other;
            var p, p' := PropOfNode(s, t, other, otherName), PropOfNode(s', t', moved, otherName);
            (if p' < 0 then None else Some(Next(s', p').tok.val))
            == if other == nodeoffset && otherName == name then Some(val)
               else if p < 0 then None else Some(Next(s, p).tok.val)
  {
    hide Next, Cursor, StrAt, FindItem, Items, HasName, Tree, MovedBySet, SetItem, PropertyOf, PropOfNode, Growth;
    var moved := if other > nodeoffset then other + (h'.sizeStruct - h.sizeStruct) else other;
    OutcomeItems(h, s, t, ts, end, nodeoffset, k, name, val, h', s', t', ts');
    OutcomeStrings(t, ts, t', ts', k, FindItem(Items(t, ts), k + 1, name), name, val);
    hide SetTokens;
    NamesStayWith(t, t', ts, name);
    hide NamesStay, SetCode, WithName;
    NodeAfterSet(s, t, ts, end, k, nodeoffset, j, other, s', t', ts', end', name, val);
    var m := MovedBySet(Items(t, ts), k, name, j);
    ReadOnTree(s, t, ts, j, other, end, otherName);
    ReadOnTree(s', t', ts', m, moved, end', otherName);
    NodeItems(t, ts, k);
    NodeItems(t, ts, j);
    SetThenRead(Items(t, ts), k, name, val, j, otherName);
  }

  lemma OutcomeStrings(t: Bytes, ts: seq<Token>, t': Bytes, ts': seq<Token>, k: nat, r: Scan, name: Bytes, val: Bytes)
    requires SetTokens(t, ts, t', ts', k, r, name, val)
    ensures t' == t || t' == WithName(t, name)
  {
  }

  lemma NodeItems(t: Bytes, ts: seq<Token>, j: nat)
    requires (forall i :: 0 <= i < |ts| ==> !ts[i].End?) && j < |ts| && ts[j].Begin?
    ensures Items(t, ts)[j].Node?
  {
  }

  /**
    Reading a property of any node, setting one of some node, and reading the first one again where its node
    stands now: the result of setting is exact; when it succeeds, the property that was set reads as the new
    value and every other one as before; when it fails everything reads as before.
  */
  method GetSetGet(f: Buffer, nodeoffset: nat, name: Bytes, val: Bytes, other: nat, otherName: Bytes,
                   ghost ts: seq<Token>, ghost k: nat, ghost j: nat, ghost end: nat)
    returns (r: int, before: Option<Bytes>, after: Option<Bytes>)
    requires RwProbe(f.h, f.addr) == 0 && Editable(f, ts, end) && nodeoffset <= INT_MAX && other <= INT_MAX
    requires IsNode(StructOf(f), nodeoffset) && Cursor(StructOf(f), ts, k, nodeoffset, end)
    requires IsNode(StructOf(f), other) && Cursor(StructOf(f), ts, j, other, end)
    requires NoZero(name) && |name| < INT_MAX && |val| <= INT_MAX - 32
    requires NamesStay(StringsOf(f), WithName(StringsOf(f), name), ts, name)
    modifies f, f.mem
    ensures r == SetCode(old(f.h), old(StringsOf(f)), ts,
                         old(SearchOf(StructOf(f), StringsOf(f), nodeoffset, ts, k, name)), name, val)
    ensures before == PropertyOf(old(Items(StringsOf(f), ts)), j, otherName)
    ensures after == if r == 0 && other == nodeoffset && otherName == name then Some(val) else before
  {
    hide Next, Cursor, Tree, StrAt, FindItem, Items, HasName, NamesStay, SetItem, RwProbe, SetOutcome, IsNode,
         PropOfNode, PropertyOf;
    ghost var h, s, t := f.h.(version := 17), StructOf(f), StringsOf(f);
    ReadOnTree(s, t, ts, j, other, end, otherName);
    var err;
    before, err := GetProp(f, other, otherName);
    var size := f.h.sizeStruct;
    ghost var ts', end';
    r, ts', end' := SetProp(f, nodeoffset, name, val, ts, k, end);
    ResultOf(h, s, t, ts, nodeoffset, k, name, val, f.h, StructOf(f), StringsOf(f), ts', r);
    hide StructOf, StringsOf;
    var moved := other;
    if r == 0 {
      ReadAfterSet(h, s, t, ts, end, k, nodeoffset, j, other, f.h, StructOf(f), StringsOf(f), ts', end', name, val,
        otherName);
      if other > nodeoffset {
        moved := other + (f.h.sizeStruct - size);
      }
      InRange(f, s, t, ts, end, k, nodeoffset, j, other, ts', end', name, val, h, moved);
    }
    after, err := GetProp(f, moved, otherName);
  }

  lemma ResultOf(h: Header, s: Bytes, t: Bytes, ts: seq<Token>, nodeoffset: int, k: nat, name: Bytes, val: Bytes,
                 h': Header, s': Bytes, t': Bytes, ts': seq<Token>, r: int)
    requires forall j :: 0 <= j < |ts| ==> !ts[j].End?
    requires SetOutcome(h, s, t, ts, nodeoffset, k, name, val, h', s', t', ts', r)
    ensures r == SetCode(h, t, ts, SearchOf(s, t, nodeoffset, ts, k, name), name, val)
    ensures r != 0 ==> s' == s && t' == t
  {
    hide FindItem, Items, SetCode, SetTokens;
  }

  /** The moved offset is an offset of the blob. */
  lemma InRange(f: Buffer, s: Bytes, t: Bytes, ts: seq<Token>, end: nat, k: nat, nodeoffset: nat, j: nat, other: nat,
                ts': seq<Token>, end': nat, name: Bytes, val: Bytes, h: Header, moved: int)
    requires (forall i :: 0 <= i < |ts| ==> !ts[i].End?) && TreeIn(f, ts', end')
    requires IsNode(s, nodeoffset) && Cursor(s, ts, k, nodeoffset, end) && IsNode(s, other)
             && Cursor(s, ts, j, other, end)
    requires SetOutcome(h, s, t, ts, nodeoffset, k, name, val, f.h, StructOf(f), StringsOf(f), ts', 0)
    requires moved == if other > nodeoffset then other + (f.h.sizeStruct - h.sizeStruct) else other
    ensures 0 <= moved <= INT_MAX
  {
    hide Next, Cursor, StrAt, FindItem, Items, HasName, Tree, MovedBySet, SetCode, Growth;
    NodeAfterSet(s, t, ts, end, k, nodeoffset, j, other, StructOf(f), StringsOf(f), ts', end', name, val);
    hide SetTokens;
    NodeInside(StructOf(f), moved);
  }

  lemma NodeInside(s: Bytes, off: int)
    requires IsNode(s, off)
    ensures 0 <= off <= |s|
  {
  }

  // ---- Accepted blobs stay accepted ------------------------------------------------------------------

  /** A property right behind the start of a node leaves the nodes nested. */
  lemma {:induction false} BalancedWithProp(ts: seq<Token>, i: nat, x: Token, depth: nat, closed: bool)
    requires 0 < i <= |ts| && ts[i - 1].Begin? && x.Prop? && Balanced(ts, depth, closed)
    ensures Balanced(WithProp(ts, i, x), depth, closed)
    decreases |ts|
  {
    var us := WithProp(ts, i, x);
    assert us[0] == ts[0];
    if i == 1 {
      assert us[1..][1..] == ts[1..] && us[1..][0] == x;
    } else {
      assert us[1..] == WithProp(ts[1..], i - 1, x);
      assert ts[1..][i - 2] == ts[i - 1];
      match ts[0] {
        case Begin(_) => BalancedWithProp(ts[1..], i - 1, x, depth + 1, false);
        case EndNode => BalancedWithProp(ts[1..], i - 1, x, depth - 1, depth == 1);
        case Prop(_, _) => BalancedWithProp(ts[1..], i - 1, x, depth, false);
        case Nop => BalancedWithProp(ts[1..], i - 1, x, depth, false);
      }
    }
  }

  lemma {:induction false} BalancedWithValue(ts: seq<Token>, i: nat, val: Bytes, depth: nat, closed: bool)
    requires i < |ts| && ts[i].Prop? && Balanced(ts, depth, closed)
    ensures Balanced(WithValue(ts, i, val), depth, closed)
    decreases |ts|
  {
    var us := WithValue(ts, i, val);
    if i == 0 {
      assert us[1..] == ts[1..];
    } else {
      assert us[0] == ts[0] && us[1..] == WithValue(ts[1..], i - 1, val);
      match ts[0] {
        case Begin(_) => BalancedWithValue(ts[1..], i - 1, val, depth + 1, false);
        case EndNode => BalancedWithValue(ts[1..], i - 1, val, depth - 1, depth == 1);
        case Prop(_, _) => BalancedWithValue(ts[1..], i - 1, val, depth, false);
        case Nop => BalancedWithValue(ts[1..], i - 1, val, depth, false);
      }
    }
  }

  lemma {:induction false} BalancedWithout(ts: seq<Token>, i: nat, depth: nat, closed: bool)
    requires i < |ts| && ts[i].Prop? && Balanced(ts, depth, closed)
    ensures Balanced(ts[..i] + ts[i + 1..], depth, closed)
    decreases |ts|
  {
    var us := ts[..i] + ts[i + 1..];
    if i == 0 {
      assert us == ts[1..];
    } else {
      assert us[0] == ts[0] && us[1..] == ts[1..][..i - 1] + ts[1..][i..];
      match ts[0] {
        case Begin(_) => BalancedWithout(ts[1..], i - 1, depth + 1, false);
        case EndNode => BalancedWithout(ts[1..], i - 1, depth - 1, depth == 1);
        case Prop(_, _) => BalancedWithout(ts[1..], i - 1, depth, false);
        case Nop => BalancedWithout(ts[1..], i - 1, depth, false);
      }
    }
  }

  /** What the verdict 0 says of the tokens of a tree. */
  lemma AcceptedTree(s: Bytes, t: Bytes, ts: seq<Token>, end: nat)
    requires Tree(s, ts, end)
    ensures Verdict(s, t, 0, 0, false) == 0 <==> Balanced(ts, 0, false) && NamesResolve(t, ts)
  {
    hide Next, Balanced, NamesResolve, Verdict;
    if Verdict(s, t, 0, 0, false) == 0 {
      var us, e := AcceptedIsBalanced(s, t, 0, 0, false);
      TreeUnique(s, ts, end, us, e);
    }
    if Balanced(ts, 0, false) && NamesResolve(t, ts) {
      BalancedIsAccepted(s, t, 0, ts, end, 0, false);
    }
  }

  lemma SetKeepsNames(t: Bytes, ts: seq<Token>, t': Bytes, ts': seq<Token>, k: nat, r: Scan, name: Bytes, val: Bytes)
    requires SetTokens(t, ts, t', ts', k, r, name, val) && NamesResolve(t, ts)
    ensures NamesResolve(t', ts')
  {
    hide StrAt, HasName;
    forall i | 0 <= i < |ts'| && ts'[i].Prop?
      ensures StrAt(t', ts'[i].nameoff).Some?
    {
      match r {
        case At(p) =>
          assert ts[i].Prop? && ts[i].nameoff == ts'[i].nameoff;
        case Stop(_) =>
          if i != k + 1 {
            var j := if i <= k then i else i - 1;
            assert ts'[i] == ts[j];
            if t' != t {
              StrAtAppend(t, name + [0], ts[j].nameoff);
            }
          }
      }
    }
  }

  lemma SetKeepsBalance(t: Bytes, ts: seq<Token>, t': Bytes, ts': seq<Token>, k: nat, r: Scan, name: Bytes, val: Bytes)
    requires SetTokens(t, ts, t', ts', k, r, name, val) && Balanced(ts, 0, false) && k < |ts| && ts[k].Begin?
    ensures Balanced(ts', 0, false)
  {
    match r {
      case At(i) => BalancedWithValue(ts, i, val, 0, false);
      case Stop(_) => BalancedWithProp(ts, k + 1, ts'[k + 1], 0, false);
    }
  }

  /** The reservation block ends before the structure block. */
  ghost predicate RsvBefore(h: Header, b: Bytes)
    requires h.total <= |b|
  {
    exists k :: 0 <= k && h.offRsv + 16 * k + 16 <= h.offStruct && RsvEndsAt(h, b, k)
  }

  lemma RsvStays(h: Header, b: Bytes, h': Header, b': Bytes)
    requires h.total <= |b| && h'.total <= |b'| && h'.total == h.total && h'.offRsv == h.offRsv
             && h'.offStruct == h.offStruct
    requires h.offStruct <= |b| && h.offStruct <= |b'| && b'[0..h.offStruct] == b[0..h.offStruct] && RsvBefore(h, b)
    ensures RsvBefore(h', b') && exists k :: 0 <= k && RsvEndsAt(h', b', k)
  {
    var k :| 0 <= k && h.offRsv + 16 * k + 16 <= h.offStruct && RsvEndsAt(h, b, k);
    assert forall i :: 0 <= i < h.offStruct ==> b'[i] == b'[0..h.offStruct][i] == b[0..h.offStruct][i] == b[i];
    assert RsvEndsAt(h', b', k);
  }

  lemma HeaderStays(h: Header, addr: nat, h': Header, size: nat)
    requires HeaderWords(h) && CheckHeader(h, addr) == 0 && h.version >= 17 && Blocks(h', size)
    requires h' == h.(version := 17, sizeStruct := h'.sizeStruct, offStrings := h'.offStrings,
                      sizeStrings := h'.sizeStrings)
    ensures HeaderWords(h') && CheckHeader(h', addr) == 0
  {
  }

  /** fdt_check_full of a blob whose tokens are nested and whose header has changed as an edit changes it. */
  method CheckEdited(f: Buffer, ghost h: Header, ghost b: Bytes, ghost ts: seq<Token>, ghost end: nat)
    returns (verdict: int)
    requires HeaderWords(h) && CheckHeader(h, f.addr) == 0 && h.version >= 17 && h.total <= |b| && h.offStruct <= |b|
    requires f.h == h.(version := 17, sizeStruct := f.h.sizeStruct, offStrings := f.h.offStrings,
                       sizeStrings := f.h.sizeStrings)
    requires Editable(f, ts, end) && Balanced(ts, 0, false) && NamesResolve(StringsOf(f), ts)
    requires RsvBefore(h, b) && f.mem[..][0..f.h.offStruct] == b[0..f.h.offStruct]
    ensures verdict == 0
  {
    hide Verdict, Balanced, NamesResolve, RsvBefore, RsvEndsAt, Tree, CheckHeader;
    AcceptedTree(StructOf(f), StringsOf(f), ts, end);
    RsvStays(h, b, f.h, f.mem[..]);
    HeaderStays(h, f.addr, f.h, f.mem.Length);
    hide StructOf, StringsOf;
    verdict := CheckFull(f);
  }

  /** fdt_setprop keeps a blob that fdt_check_full accepts accepted. */
  method SetAndCheck(f: Buffer, nodeoffset: int, name: Bytes, val: Bytes, ghost ts: seq<Token>, ghost k: nat,
                     ghost end: nat)
    returns (r: int, verdict: int, ghost ts': seq<Token>, ghost end': nat)
    requires HeaderWords(f.h) && f.h.version >= 17 && Accepted(f)
    requires RwProbe(f.h, f.addr) == 0 && Editable(f, ts, end) && NodeOffset(f, nodeoffset, ts, k, end)
    requires RsvBefore(f.h, f.mem[..]) && -INT_MAX - 1 <= nodeoffset <= INT_MAX
    requires NoZero(name) && |name| < INT_MAX && |val| <= INT_MAX - 32
    modifies f, f.mem
    ensures verdict == 0 && Editable(f, ts', end')
    ensures SetOutcome(old(f.h).(version := 17), old(StructOf(f)), old(StringsOf(f)), ts, nodeoffset, k, name, val,
                       f.h, StructOf(f), StringsOf(f), ts', r)
  {
    hide Verdict, Balanced, NamesResolve, SetTokens, Next, Cursor, RsvBefore, RsvEndsAt, FindItem, Items, StrAt;
    hide RwProbe, SetOutcome, NamesStay, SetItem, Tree, CheckHeader, IsNode;
    ghost var h, b, s, t := f.h, f.mem[..], StructOf(f), StringsOf(f);
    AcceptedTree(s, t, ts, end);
    r, ts', end' := SetProp(f, nodeoffset, name, val, ts, k, end);
    OutcomeFrame(h.(version := 17), s, t, ts, end, nodeoffset, k, name, val, f.h, StructOf(f), StringsOf(f), ts', r);
    verdict := CheckEdited(f, h, b, ts', end');
  }

  /** What either outcome of fdt_setprop leaves. */
  lemma OutcomeFrame(h: Header, s: Bytes, t: Bytes, ts: seq<Token>, end: nat, nodeoffset: int, k: nat, name: Bytes,
                     val: Bytes,
                     h': Header, s': Bytes, t': Bytes, ts': seq<Token>, r: int)
    requires forall j :: 0 <= j < |ts| ==> !ts[j].End?
    requires IsNode(s, nodeoffset) ==> Cursor(s, ts, k, nodeoffset, end)
    requires Balanced(ts, 0, false) && NamesResolve(t, ts)
    requires SetOutcome(h, s, t, ts, nodeoffset, k, name, val, h', s', t', ts', r)
    ensures h' == h.(sizeStruct := h'.sizeStruct, offStrings := h'.offStrings, sizeStrings := h'.sizeStrings)
    ensures Balanced(ts', 0, false) && NamesResolve(t', ts')
  {
    hide Balanced, NamesResolve, SetTokens, Next, Cursor, FindItem, Items, SetCode, StrAt;
    if r == 0 {
      CursorStep(s, ts, k, nodeoffset, end);
      SetKeepsNames(t, ts, t', ts', k, SearchOf(s, t, nodeoffset, ts, k, name), name, val);
      SetKeepsBalance(t, ts, t', ts', k, SearchOf(s, t, nodeoffset, ts, k, name), name, val);
    }
  }

  /** fdt_delprop keeps a blob that fdt_check_full accepts accepted. */
  method DeleteAndCheck(f: Buffer, nodeoffset: int, name: Bytes, ghost ts: seq<Token>, ghost k: nat, ghost end: nat)
    returns (r: int, verdict: int, ghost ts': seq<Token>, ghost end': nat)
    requires HeaderWords(f.h) && f.h.version >= 17 && Accepted(f)
    requires RwProbe(f.h, f.addr) == 0 && Editable(f, ts, end) && NodeOffset(f, nodeoffset, ts, k, end)
    requires RsvBefore(f.h, f.mem[..]) && -INT_MAX - 1 <= nodeoffset <= INT_MAX
    modifies f, f.mem
    ensures verdict == 0 && Editable(f, ts', end')
    ensures DelOutcome(old(f.h).(version := 17), old(StructOf(f)), old(StringsOf(f)), ts, nodeoffset, k, name,
                       f.h, StructOf(f), StringsOf(f), ts', r)
  {
    hide Verdict, Balanced, NamesResolve, DelOutcome, Next, Cursor, RsvBefore, RsvEndsAt, FindItem, Items, StrAt;
    hide RwProbe, Tree, CheckHeader, IsNode;
    ghost var h, b, s, t := f.h, f.mem[..], StructOf(f), StringsOf(f);
    AcceptedTree(s, t, ts, end);
    r, ts', end' := DelProp(f, nodeoffset, name, ts, k, end);
    DelFrame(h.(version := 17), s, t, ts, nodeoffset, k, name, f.h, StructOf(f), StringsOf(f), ts', r);
    verdict := CheckEdited(f, h, b, ts', end');
  }

  lemma DelFrame(h: Header, s: Bytes, t: Bytes, ts: seq<Token>, nodeoffset: int, k: nat, name: Bytes,
                 h': Header, s': Bytes, t': Bytes, ts': seq<Token>, r: int)
    requires (forall j :: 0 <= j < |ts| ==> !ts[j].End?) && Balanced(ts, 0, false) && NamesResolve(t, ts)
    requires DelOutcome(h, s, t, ts, nodeoffset, k, name, h', s', t', ts', r)
    ensures h' == h.(sizeStruct := h'.sizeStruct, offStrings := h'.offStrings, sizeStrings := h'.sizeStrings)
    ensures Balanced(ts', 0, false) && NamesResolve(t', ts')
  {
    hide Balanced, NamesResolve, FindItem, Items, StrAt, Removed;
    var found := SearchOf(s, t, nodeoffset, ts, k, name);
    if found.At? {
      BalancedWithout(ts, found.index, 0, false);
      NamesWithout(t, ts, found.index);
    }
  }

  lemma NamesWithout(t: Bytes, ts: seq<Token>, i: nat)
    requires i < |ts| && NamesResolve(t, ts)
    ensures NamesResolve(t, ts[..i] + ts[i + 1..])
  {
    hide StrAt;
    var us := ts[..i] + ts[i + 1..];
    forall j | 0 <= j < |us| && us[j].Prop?
      ensures StrAt(t, us[j].nameoff).Some?
    {
      assert us[j] == ts[if j < i then j else j + 1];
    }
  }
}
