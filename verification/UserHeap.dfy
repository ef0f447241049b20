/**
  The user heap of ulib/memory.c: blocks with a one-word header tile the heap; malloc takes the
  first free block that is large enough and cuts it, free only clears a flag, and free blocks are
  merged when a search has failed.
*/
module UserHeap {
  import opened Machine
  import opened Arith

  const HALF := 0x8000_0000
  const MAGIC_HEAP := 0x5A
  const SIZE_LIMIT := 0x100_0000   // the size field has 24 bits

  // ---- Rounding a request ------------------------------------------------------------------------

  /** The value of a 32-bit pattern as an int. */
  function Signed(x: nat): int
    requires x < WORD
  {
    if x < HALF then x else x - WORD
  }

  /** C division truncates toward zero. */
  function TruncDiv(a: int, b: nat): int
    requires b > 0
  {
    if a >= 0 then a / b else 0 - (-a) / b
  }

  /** The macro CEIL, with its casts to int and its result converted back to size_t. */
  function Ceil32(a: nat, line: nat): nat
    requires line > 0 && a < WORD
  {
    (line * TruncDiv(Signed((a + line - 1) % WORD), line)) % WORD
  }

  /** The words that try_malloc looks for: the request and its header, rounded up to cache lines. */
  function Words(size: nat, line: nat): nat
    requires line > 0
  {
    Ceil32((size + 4) % WORD, line) / 4
  }

  predicate LineSize(line: nat) {
    4 <= line <= 0x1_0000 && line % 4 == 0
  }

  lemma CeilOfSmall(a: nat, line: nat)
    requires LineSize(line) && a + line <= HALF
    ensures Ceil32(a, line) == (a + line - 1) / line * line
    ensures a <= Ceil32(a, line) < a + line
  {
    var t := a + line - 1;
    assert t % WORD == t;
    QuotientBounds(t, line);
    var x := t / line * line;
    assert line * (t / line) == x;
    assert x % WORD == x;
  }

  lemma QuotientBounds(t: nat, line: nat)
    requires line > 0
    ensures 0 <= t / line * line <= t < t / line * line + line
  {
    assert t == t / line * line + t % line;
  }

  lemma CeilOfLarge(a: nat, line: nat)
    requires LineSize(line) && HALF - line < a < WORD && a + 2 * line - 2 < WORD
    ensures a <= Ceil32(a, line) < WORD
  {
    var t := a + line - 1;
    assert t % WORD == t && Signed(t) == t - WORD;
    var m := WORD - t;
    var k := m / line;
    assert TruncDiv(t - WORD, line) == 0 - k;
    WholeLines(m, line);
    hide TruncDiv, LineSize;
    assert line * (0 - k) == 0 - k * line;
    WrapOnce(k * line);
  }

  lemma WholeLines(m: nat, line: nat)
    requires 0 < line <= m
    ensures 0 < line <= m / line * line <= m < m / line * line + line
  {
    DivMono(line, m, line);
    ModOfMultiple(1, line);
    MulSign(m / line, line);
    assert m == m / line * line + m % line;
  }

  lemma WrapOnce(x: nat)
    requires 0 < x < WORD
    ensures (0 - x) % WORD == WORD - x
  {
  }

  lemma CeilOfHuge(a: nat, line: nat)
    requires LineSize(line) && a < WORD <= a + 2 * line - 2
    ensures Ceil32(a, line) == 0
  {
    var t := (a + line - 1) % WORD;
    if a + line - 1 < WORD {
      var m := WORD - t;
      assert 0 < m < line;
      DivModUnique(m, line, 0, m);
    } else {
      assert t == a + line - 1 - WORD;
      DivModUnique(t, line, 0, t);
    }
  }

  /**
    The rounded request holds the bytes asked for and the header exactly if the request is not among
    the last sizes below 2^32, where the sum or the cast wraps round.
  */
  lemma RoundingIsExact(size: nat, line: nat)
    requires LineSize(line) && size < WORD
    ensures 4 * Words(size, line) >= size + 4 <==> size + 4 + 2 * line - 2 < WORD
  {
    LineBound(line);
    hide Ceil32, LineSize;
    if size + 4 + 2 * line - 2 < WORD {
      assert (size + 4) % WORD == size + 4;
      CeilEnough(size + 4, line);
    } else if size + 4 < WORD {
      assert (size + 4) % WORD == size + 4;
      CeilOfHuge(size + 4, line);
    } else {
      CeilOfSmall(size + 4 - WORD, line);
    }
  }

  /** The rounding is the least one: the whole lines that hold the request and its header, and none more. */
  lemma RoundingIsLeast(size: nat, line: nat)
    requires LineSize(line) && size + 4 + line <= HALF
    ensures (4 * Words(size, line)) % line == 0 && size + 4 <= 4 * Words(size, line) < size + 4 + line
  {
    var a := size + 4;
    LineBound(line);
    assert a % WORD == a;
    CeilOfSmall(a, line);
    CeilIsWords(a, line);
    hide Ceil32;
    ModOfMultiple((a + line - 1) / line, line);
  }

  /** What the requests are rounded to whose sum or cast wraps round: nothing, or one line. */
  lemma WrappedRounding(size: nat, line: nat)
    requires LineSize(line) && size < WORD <= size + 4 + 2 * line - 2
    ensures 4 * Words(size, line) == if size + 4 <= WORD then 0 else line
  {
    LineBound(line);
    var a := (size + 4) % WORD;
    if size + 4 < WORD {
      CeilOfHuge(a, line);
    } else {
      assert a == size + 4 - WORD;
      CeilOfSmall(a, line);
      CeilIsWords(a, line);
      hide Ceil32;
      DivModUnique(a + line - 1, line, if a == 0 then 0 else 1, if a == 0 then line - 1 else a - 1);
    }
  }

  /** A request of 2^32 - 1 bytes is rounded to one cache line. */
  lemma HugeRequestIsSmall()
    ensures Words(WORD - 1, 16) == 4 && 4 * Words(WORD - 1, 16) < WORD - 1
  {
    assert (WORD - 1 + 4) % WORD == 3;
    assert Ceil32(3, 16) == 16;
  }

  lemma LineBound(line: nat)
    requires LineSize(line)
    ensures 4 <= line <= 0x1_0000
  {
  }

  lemma CeilEnough(a: nat, line: nat)
    requires LineSize(line) && a + 2 * line - 2 < WORD
    ensures a < WORD && Ceil32(a, line) >= a && 4 * (Ceil32(a, line) / 4) == Ceil32(a, line)
  {
    LineBound(line);
    hide Ceil32, LineSize;
    if a + line <= HALF {
      CeilOfSmall(a, line);
      CeilIsWords(a, line);
    } else {
      CeilOfLarge(a, line);
      LargeIsWords(a, line);
    }
  }

  lemma CeilIsWords(a: nat, line: nat)
    requires LineSize(line) && a + line <= HALF
    ensures Ceil32(a, line) % 4 == 0
  {
    CeilOfSmall(a, line);
    var q := (a + line - 1) / line;
    assert line == line / 4 * 4;
    MulAssoc(q, line / 4, 4);
    ModOfMultiple(q * (line / 4), 4);
  }

  lemma LargeIsWords(a: nat, line: nat)
    requires LineSize(line) && HALF - line < a < WORD && a + 2 * line - 2 < WORD
    ensures Ceil32(a, line) % 4 == 0
  {
    var q := TruncDiv(Signed((a + line - 1) % WORD), line);
    var unit := line / 4;
    assert line == unit * 4;
    assert Ceil32(a, line) == (line * q) % WORD;
    hide *;
    MulAssoc(q, unit, 4);
    WordsOfWord(q * unit);
  }

  lemma WordsOfWord(x: int)
    ensures (x * 4) % WORD % 4 == 0
  {
    var k := x * 4 / WORD;
    assert (x * 4) % WORD == 4 * (x - k * 0x4000_0000);
  }

  // ---- Lists of blocks ---------------------------------------------------------------------------

  datatype Block = Block(size: nat, full: bool)

  function Total(bs: seq<Block>): nat {
    if bs == [] then 0 else bs[0].size + Total(bs[1..])
  }

  lemma {:induction false} TotalJoin(bs: seq<Block>, cs: seq<Block>)
    ensures Total(bs + cs) == Total(bs) + Total(cs)
  {
    if bs == [] {
      assert bs + cs == cs;
    } else {
      TotalJoin(bs[1..], cs);
      assert (bs + cs)[1..] == bs[1..] + cs;
    }
  }

  ghost predicate AllFree(bs: seq<Block>) {
    forall i :: 0 <= i < |bs| ==> !bs[i].full
  }

  /** Some run of consecutive free blocks has room for k words. */
  ghost predicate HasRun(bs: seq<Block>, k: nat) {
    exists i, j :: 0 <= i < j <= |bs| && AllFree(bs[i..j]) && Total(bs[i..j]) >= k
  }

  /** Some run of consecutive free blocks has n bytes. */
  ghost predicate HoldsBytes(bs: seq<Block>, n: nat) {
    exists i, j :: 0 <= i < j <= |bs| && AllFree(bs[i..j]) && 4 * Total(bs[i..j]) >= n
  }

  /** No free block has n bytes. */
  ghost predicate NoBlockHolds(bs: seq<Block>, n: nat) {
    forall i :: 0 <= i < |bs| && !bs[i].full ==> 4 * bs[i].size < n
  }

  /** The live blocks: their offsets from `at` on, and sizes. */
  function Live(bs: seq<Block>, at: nat): map<nat, nat> {
    if bs == [] then map[]
    else
      var rest := Live(bs[1..], at + bs[0].size);
      if bs[0].full then rest[at := bs[0].size] else rest
  }

  ghost predicate Positive(bs: seq<Block>) {
    forall i :: 0 <= i < |bs| ==> bs[i].size > 0
  }

  /** Live blocks lie inside the heap and do not overlap. */
  lemma {:induction false} LiveApart(bs: seq<Block>, at: nat, o: nat, p: nat)
    requires Positive(bs) && o in Live(bs, at) && p in Live(bs, at)
    ensures at <= o && o + Live(bs, at)[o] <= at + Total(bs) && Live(bs, at)[o] > 0
    ensures o != p ==> o + Live(bs, at)[o] <= p || p + Live(bs, at)[p] <= o
    decreases |bs|
  {
    if bs != [] {
      var next := at + bs[0].size;
      var rest := Live(bs[1..], next);
      assert Positive(bs[1..]);
      if o in rest {
        LiveApart(bs[1..], next, o, o);
      }
      if p in rest {
        LiveApart(bs[1..], next, p, p);
      }
      if o in rest && p in rest {
        LiveApart(bs[1..], next, o, p);
      }
    }
  }

  lemma {:induction false} LiveBounds(bs: seq<Block>, at: nat, o: nat)
    requires o in Live(bs, at) && Positive(bs)
    ensures at <= o < at + Total(bs)
    decreases |bs|
  {
    if bs != [] && o in Live(bs[1..], at + bs[0].size) {
      assert Positive(bs[1..]);
      LiveBounds(bs[1..], at + bs[0].size, o);
    }
  }

  lemma {:induction false} LiveJoin(bs: seq<Block>, cs: seq<Block>, at: nat)
    requires Positive(bs) && Positive(cs)
    ensures Live(bs + cs, at) == Live(bs, at) + Live(cs, at + Total(bs))
    ensures Live(bs, at).Keys !! Live(cs, at + Total(bs)).Keys
    decreases |bs|
  {
    if bs == [] {
      assert bs + cs == cs;
      assert Live(bs, at) == map[];
    } else {
      var next := at + bs[0].size;
      assert (bs + cs)[1..] == bs[1..] + cs;
      LiveJoin(bs[1..], cs, next);
      assert at !in Live(cs, at + Total(bs)) by {
        if at in Live(cs, at + Total(bs)) {
          LiveBounds(cs, at + Total(bs), at);
        }
      }
    }
  }

  // ---- First fit ---------------------------------------------------------------------------------

  /** The first free block of at least k words, or the number of blocks. */
  function FirstFit(bs: seq<Block>, k: nat): (i: nat)
    ensures i <= |bs| && (i < |bs| ==> !bs[i].full && bs[i].size >= k)
    ensures forall j :: 0 <= j < i ==> bs[j].full || bs[j].size < k
  {
    if bs == [] || (!bs[0].full && bs[0].size >= k) then 0
    else
      var r := FirstFit(bs[1..], k);
      assert forall j :: 1 <= j < 1 + r ==> bs[j] == bs[1..][j - 1];
      1 + r
  }

  /**
    The block taken: whole if it fits exactly, otherwise cut. When no words are asked for, the header of
    the remaining space overwrites that of the block.
  */
  function Cut(b: Block, k: nat): seq<Block>
    requires b.size >= k
  {
    if b.size == k then [Block(k, true)]
    else if k == 0 then [Block(b.size, false)]
    else [Block(k, true), Block(b.size - k, false)]
  }

  /** try_malloc on the list of blocks. */
  function Taken(bs: seq<Block>, k: nat): seq<Block> {
    var i := FirstFit(bs, k);
    if i == |bs| then bs else bs[..i] + Cut(bs[i], k) + bs[i + 1..]
  }

  /** A search for no words finds the first free block and changes nothing. */
  lemma NothingTaken(bs: seq<Block>)
    requires Positive(bs)
    ensures Taken(bs, 0) == bs
    ensures FirstFit(bs, 0) < |bs| ==> Total(bs[..FirstFit(bs, 0)]) !in Live(bs, 0)
  {
    var i := FirstFit(bs, 0);
    hide FirstFit, Live, Total;
    if i < |bs| {
      FreeIsNotLive(bs, i);
      InThree(bs, i);
      assert Cut(bs[i], 0) == [bs[i]];
    }
  }

  lemma InThree(bs: seq<Block>, i: nat)
    requires i < |bs|
    ensures bs == bs[..i] + [bs[i]] + bs[i + 1..]
  {
  }

  lemma FreeIsNotLive(bs: seq<Block>, i: nat)
    requires Positive(bs) && i < |bs| && !bs[i].full
    ensures Total(bs[..i]) !in Live(bs, 0)
  {
    var l, b, r := bs[..i], bs[i], bs[i + 1..];
    assert Positive(l) && Positive(r) && b.size > 0;
    assert bs == l + [b] + r;
    hide *;
    CutBetween(l, b, r, b.size);
  }

  /** The new block is a fresh live block; the others stay where they are. */
  lemma TakenLive(bs: seq<Block>, k: nat)
    requires Positive(bs) && k > 0 && FirstFit(bs, k) < |bs|
    ensures var o := Total(bs[..FirstFit(bs, k)]);
            && o !in Live(bs, 0) && Live(Taken(bs, k), 0) == Live(bs, 0)[o := k]
            && Positive(Taken(bs, k)) && Total(Taken(bs, k)) == Total(bs)
  {
    hide Live, Total, Cut;
    var i := FirstFit(bs, k);
    var l, r, b := bs[..i], bs[i + 1..], bs[i];
    assert bs == l + [b] + r;
    CutBetween(l, b, r, k);
  }

  lemma CutBetween(l: seq<Block>, b: Block, r: seq<Block>, k: nat)
    requires Positive(l) && Positive(r) && b.size >= k > 0 && !b.full
    ensures var o, bs, cs := Total(l), l + [b] + r, l + Cut(b, k) + r;
            o !in Live(bs, 0) && Live(cs, 0) == Live(bs, 0)[o := k] && Positive(cs) && Total(cs) == Total(bs)
  {
    hide Live, Total, Cut;
    assert Positive([b]);
    CutLive(b, k, Total(l));
    hide Positive;
    ThreeParts(l, [b], r);
    ThreeParts(l, Cut(b, k), r);
    LiveAway(l, r, Total(l), b.size);
    PutBetween(Live(l, 0), Live(r, Total(l) + b.size), Total(l), k);
  }

  lemma PutBetween(a: map<nat, nat>, b: map<nat, nat>, o: nat, k: nat)
    requires o !in a && o !in b
    ensures a + map[o := k] + b == (a + map[] + b)[o := k] && o !in a + map[] + b
  {
  }

  lemma LiveAway(l: seq<Block>, r: seq<Block>, o: nat, d: nat)
    requires Positive(l) && Positive(r) && o == Total(l) && d > 0
    ensures o !in Live(l, 0) && o !in Live(r, o + d)
  {
    hide Live, Total;
    if o in Live(l, 0) {
      LiveBounds(l, 0, o);
    }
    if o in Live(r, o + d) {
      LiveBounds(r, o + d, o);
    }
  }

  lemma ThreeParts(l: seq<Block>, m: seq<Block>, r: seq<Block>)
    requires Positive(l) && Positive(m) && Positive(r)
    ensures Live(l + m + r, 0) == Live(l, 0) + Live(m, Total(l)) + Live(r, Total(l) + Total(m))
    ensures Total(l + m + r) == Total(l) + Total(m) + Total(r) && Positive(l + m + r)
  {
    hide Live, Total;
    LiveJoin(l + m, r, 0);
    LiveJoin(l, m, 0);
    TotalJoin(l + m, r);
    TotalJoin(l, m);
  }

  lemma CutLive(b: Block, k: nat, o: nat)
    requires b.size >= k > 0 && !b.full
    ensures Total(Cut(b, k)) == Total([b]) == b.size && Positive(Cut(b, k))
    ensures Live(Cut(b, k), o) == map[o := k] && Live([b], o) == map[]
  {
    assert [b][1..] == [] && [Block(k, true)][1..] == [];
    if b.size > k {
      var c, rest := Cut(b, k), Block(b.size - k, false);
      assert c[1..] == [rest] && [rest][1..] == [];
      assert Total([rest]) == rest.size + Total([]);
      assert Live([rest], o + k) == map[];
    }
  }

  // ---- Merging -----------------------------------------------------------------------------------

  /** merge: a free block takes in the free blocks right behind it. */
  function Merged(bs: seq<Block>): seq<Block>
    decreases |bs|
  {
    if |bs| < 2 then bs
    else if !bs[0].full && !bs[1].full then Merged([Block(bs[0].size + bs[1].size, false)] + bs[2..])
    else [bs[0]] + Merged(bs[1..])
  }

  ghost predicate NoFreePair(bs: seq<Block>) {
    forall i :: 0 <= i < |bs| - 1 ==> bs[i].full || bs[i + 1].full
  }

  /** The first block of the merged list is full exactly if the first block was. */
  lemma {:induction false} MergedFirst(bs: seq<Block>)
    requires bs != []
    ensures Merged(bs) != [] && Merged(bs)[0].full == bs[0].full
    decreases |bs|
  {
    if |bs| >= 2 && !bs[0].full && !bs[1].full {
      MergedFirst([Block(bs[0].size + bs[1].size, false)] + bs[2..]);
    }
  }

  /** No two adjacent free blocks are left. */
  lemma {:induction false} MergedHasNoFreePair(bs: seq<Block>)
    ensures NoFreePair(Merged(bs))
    decreases |bs|
  {
    if |bs| >= 2 {
      if !bs[0].full && !bs[1].full {
        MergedHasNoFreePair([Block(bs[0].size + bs[1].size, false)] + bs[2..]);
      } else {
        MergedHasNoFreePair(bs[1..]);
        MergedFirst(bs[1..]);
        var r := Merged(bs[1..]);
        var m := [bs[0]] + r;
        forall i | 0 <= i < |m| - 1
          ensures m[i].full || m[i + 1].full
        {
          if i > 0 {
            assert r[i - 1].full || r[i - 1 + 1].full;
          }
        }
      }
    }
  }

  lemma JoinPair(bs: seq<Block>, at: nat)
    requires |bs| >= 2 && !bs[0].full && !bs[1].full && Positive(bs)
    ensures var c := [Block(bs[0].size + bs[1].size, false)] + bs[2..];
            Live(c, at) == Live(bs, at) && Total(c) == Total(bs) && Positive(c)
  {
    var c := [Block(bs[0].size + bs[1].size, false)] + bs[2..];
    assert c[1..] == bs[2..] && bs[1..][1..] == bs[2..] && bs[1..][0] == bs[1];
  }

  /** Merging moves no live block and keeps the heap tiled. */
  lemma {:induction false} MergedLive(bs: seq<Block>, at: nat)
    requires Positive(bs)
    ensures Live(Merged(bs), at) == Live(bs, at) && Total(Merged(bs)) == Total(bs) && Positive(Merged(bs))
    decreases |bs|
  {
    if |bs| >= 2 {
      if !bs[0].full && !bs[1].full {
        JoinPair(bs, at);
        MergedLive([Block(bs[0].size + bs[1].size, false)] + bs[2..], at);
      } else {
        assert Positive(bs[1..]);
        MergedLive(bs[1..], at + bs[0].size);
        var m := [bs[0]] + Merged(bs[1..]);
        assert m[1..] == Merged(bs[1..]);
        forall i | 0 <= i < |m|
          ensures m[i].size > 0
        {
          assert i > 0 ==> m[i] == Merged(bs[1..])[i - 1];
        }
      }
    }
  }

  // ---- Runs of free blocks -----------------------------------------------------------------------

  /** The words of the free blocks that the list starts with. */
  function Head(bs: seq<Block>): nat {
    if bs == [] || bs[0].full then 0 else bs[0].size + Head(bs[1..])
  }

  /** Some run of free blocks that starts in the list has room for k words. */
  function Runs(bs: seq<Block>, k: nat): bool {
    bs != [] && (Head(bs) >= k || Runs(bs[1..], k))
  }

  lemma {:induction false} HeadCovers(bs: seq<Block>, j: nat)
    requires j <= |bs| && AllFree(bs[..j])
    ensures Head(bs) >= Total(bs[..j])
  {
    if j > 0 {
      assert bs[..j][1..] == bs[1..][..j - 1] && bs[..j][0] == bs[0];
      var x, y := bs[1..][..j - 1], bs[..j];
      forall i | 0 <= i < |x|
        ensures !x[i].full
      {
        assert x[i] == y[i + 1];
      }
      HeadCovers(bs[1..], j - 1);
    }
  }

  lemma {:induction false} HeadReached(bs: seq<Block>) returns (j: nat)
    ensures j <= |bs| && AllFree(bs[..j]) && Head(bs) == Total(bs[..j])
    ensures bs != [] && !bs[0].full ==> j > 0
  {
    if bs == [] || bs[0].full {
      return 0;
    }
    var i := HeadReached(bs[1..]);
    j := i + 1;
    assert bs[..j][1..] == bs[1..][..i] && bs[..j][0] == bs[0];
    assert forall x :: 1 <= x < j ==> bs[..j][x] == bs[1..][..i][x - 1];
  }

  /** The two ways of saying that a large enough run exists. */
  lemma {:induction false} RunsMeansHasRun(bs: seq<Block>, k: nat)
    requires k > 0
    ensures Runs(bs, k) <==> HasRun(bs, k)
  {
    if HasRun(bs, k) {
      var i, j :| 0 <= i < j <= |bs| && AllFree(bs[i..j]) && Total(bs[i..j]) >= k;
      RunAt(bs, k, i, j);
    }
    if Runs(bs, k) {
      var i, j := RunFound(bs, k);
      assert AllFree(bs[i..j]);
    }
  }

  lemma {:induction false} RunAt(bs: seq<Block>, k: nat, i: nat, j: nat)
    requires i < j <= |bs| && AllFree(bs[i..j]) && Total(bs[i..j]) >= k
    ensures Runs(bs, k)
  {
    if i == 0 {
      assert bs[0..j] == bs[..j];
      HeadCovers(bs, j);
    } else {
      assert bs[1..][i - 1..j - 1] == bs[i..j];
      RunAt(bs[1..], k, i - 1, j - 1);
    }
  }

  lemma {:induction false} RunFound(bs: seq<Block>, k: nat) returns (i: nat, j: nat)
    requires Runs(bs, k) && k > 0
    ensures i < j <= |bs| && AllFree(bs[i..j]) && Total(bs[i..j]) >= k
  {
    if Head(bs) >= k {
      j := HeadReached(bs);
      i := 0;
      assert bs[0..j] == bs[..j];
    } else {
      var x, y := RunFound(bs[1..], k);
      i, j := x + 1, y + 1;
      assert bs[1..][x..y] == bs[i..j];
    }
  }

  lemma RunsOfPair(bs: seq<Block>, k: nat)
    requires |bs| >= 2 && !bs[0].full && !bs[1].full
    ensures var c := [Block(bs[0].size + bs[1].size, false)] + bs[2..];
            Runs(c, k) == Runs(bs, k) && Head(c) == Head(bs)
  {
    var c := [Block(bs[0].size + bs[1].size, false)] + bs[2..];
    assert c[1..] == bs[2..] && bs[1..][1..] == bs[2..] && bs[1..][0] == bs[1];
    assert Head(bs[1..]) == bs[1].size + Head(bs[2..]);
    assert Runs(bs[1..], k) == (Head(bs[1..]) >= k || Runs(bs[2..], k));
  }

  /** Merging changes neither the runs nor their sizes. */
  lemma {:induction false} MergedRuns(bs: seq<Block>, k: nat)
    ensures Runs(Merged(bs), k) == Runs(bs, k) && Head(Merged(bs)) == Head(bs)
    decreases |bs|
  {
    if |bs| >= 2 {
      if !bs[0].full && !bs[1].full {
        RunsOfPair(bs, k);
        MergedRuns([Block(bs[0].size + bs[1].size, false)] + bs[2..], k);
      } else {
        MergedRuns(bs[1..], k);
        assert ([bs[0]] + Merged(bs[1..]))[1..] == Merged(bs[1..]);
      }
    }
  }

  /** Without adjacent free blocks, a large enough run is one large enough block. */
  lemma {:induction false} RunIsBlock(bs: seq<Block>, k: nat)
    requires NoFreePair(bs) && k > 0
    ensures Runs(bs, k) <==> FirstFit(bs, k) < |bs|
  {
    if bs != [] {
      assert NoFreePair(bs[1..]) by {
        forall i | 0 <= i < |bs| - 2
          ensures bs[1..][i].full || bs[1..][i + 1].full
        {
          assert bs[i + 1].full || bs[i + 1 + 1].full;
        }
      }
      RunIsBlock(bs[1..], k);
      if |bs| > 1 {
        assert bs[0].full || bs[0 + 1].full;
        assert bs[1..][0] == bs[1];
      }
      assert bs[1..] == [] || bs[1..][0].full || bs[0].full;
      assert Head(bs) == if bs[0].full then 0 else bs[0].size;
    }
  }

  /** A block that is large enough is a run that is large enough. */
  lemma {:induction false} BlockIsRun(bs: seq<Block>, k: nat)
    requires FirstFit(bs, k) < |bs|
    ensures Runs(bs, k)
  {
    if bs[0].full || bs[0].size < k {
      BlockIsRun(bs[1..], k);
    }
  }

  /** malloc on the list of blocks: a search, and another one after merging. */
  function Allocated(bs: seq<Block>, k: nat): seq<Block> {
    if FirstFit(bs, k) < |bs| then Taken(bs, k) else Taken(Merged(bs), k)
  }

  /** malloc finds a block exactly if a run of consecutive free blocks is large enough. */
  lemma FoundExactlyIfRun(bs: seq<Block>, k: nat)
    requires Positive(bs)
    ensures FirstFit(bs, k) < |bs| || FirstFit(Merged(bs), k) < |Merged(bs)| <==> HasRun(bs, k)
  {
    if k > 0 {
      LargeRunFound(bs, k);
    } else {
      MergedLive(bs, 0);
      AnyFreeBlock(bs);
      AnyFreeBlock(Merged(bs));
      LargeRunFound(bs, 1);
    }
  }

  /** To look for no words is to look for one. */
  lemma AnyFreeBlock(bs: seq<Block>)
    requires Positive(bs)
    ensures FirstFit(bs, 0) == FirstFit(bs, 1) && (HasRun(bs, 0) <==> HasRun(bs, 1))
  {
    if HasRun(bs, 0) {
      var i, j :| 0 <= i < j <= |bs| && AllFree(bs[i..j]) && Total(bs[i..j]) >= 0;
      assert bs[i..j][0] == bs[i] && Total(bs[i..j]) >= bs[i].size;
    }
  }

  lemma LargeRunFound(bs: seq<Block>, k: nat)
    requires k > 0
    ensures FirstFit(bs, k) < |bs| || FirstFit(Merged(bs), k) < |Merged(bs)| <==> HasRun(bs, k)
  {
    RunsMeansHasRun(bs, k);
    MergedRuns(bs, k);
    MergedHasNoFreePair(bs);
    RunIsBlock(Merged(bs), k);
    if FirstFit(bs, k) < |bs| {
      BlockIsRun(bs, k);
    }
  }
}
