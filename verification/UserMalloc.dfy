/**
  malloc and free of ulib/memory.c on the words of the heap: block headers are rewritten in place,
  and every call is proved against its effect on the list of blocks.
*/
module UserMalloc {
  import opened Machine
  import opened Arith
  import opened UserHeap

  /** The header word of a block; its size counts words, header included. */
  datatype Info = Info(full: bool, magic: nat, size: nat)

  function HeaderOf(b: Block): Info {
    Info(b.full, MAGIC_HEAP, b.size)
  }

  /** From `at` to end, the words are tiled by the blocks, whose headers are in place. */
  ghost predicate Tiles(mem: seq<Info>, at: nat, bs: seq<Block>, end: nat, unit: nat)
    requires unit > 0
    decreases |bs|
  {
    if bs == [] then at == end <= |mem|
    else
      && at < |mem| && mem[at] == HeaderOf(bs[0]) && bs[0].size > 0 && bs[0].size % unit == 0
      && Tiles(mem, at + bs[0].size, bs[1..], end, unit)
  }

  lemma {:induction false} TilesBounds(mem: seq<Info>, at: nat, bs: seq<Block>, end: nat, unit: nat)
    requires unit > 0 && Tiles(mem, at, bs, end, unit)
    ensures end == at + Total(bs) <= |mem| && Positive(bs)
    decreases |bs|
  {
    if bs != [] {
      TilesBounds(mem, at + bs[0].size, bs[1..], end, unit);
      assert forall i :: 1 <= i < |bs| ==> bs[i] == bs[1..][i - 1];
    }
  }

  lemma {:induction false} TilesJoin(mem: seq<Info>, at: nat, bs: seq<Block>, mid: nat, cs: seq<Block>, end: nat,
                                     unit: nat)
    requires unit > 0 && Tiles(mem, at, bs, mid, unit) && Tiles(mem, mid, cs, end, unit)
    ensures Tiles(mem, at, bs + cs, end, unit)
    decreases |bs|
  {
    if bs == [] {
      assert bs + cs == cs;
    } else {
      assert (bs + cs)[1..] == bs[1..] + cs;
      TilesJoin(mem, at + bs[0].size, bs[1..], mid, cs, end, unit);
    }
  }

  lemma {:induction false} TilesSplit(mem: seq<Info>, at: nat, bs: seq<Block>, cs: seq<Block>, end: nat, unit: nat)
    requires unit > 0 && Tiles(mem, at, bs + cs, end, unit)
    ensures at + Total(bs) <= |mem| && Tiles(mem, at, bs, at + Total(bs), unit)
            && Tiles(mem, at + Total(bs), cs, end, unit)
    decreases |bs|
  {
    if bs == [] {
      assert bs + cs == cs;
      TilesBounds(mem, at, cs, end, unit);
    } else {
      assert (bs + cs)[1..] == bs[1..] + cs;
      TilesSplit(mem, at + bs[0].size, bs[1..], cs, end, unit);
    }
  }

  /** Blocks depend on the words they cover only. */
  lemma {:induction false} TilesFrame(mem: seq<Info>, mem': seq<Info>, at: nat, bs: seq<Block>, end: nat, unit: nat)
    requires unit > 0 && Tiles(mem, at, bs, end, unit) && end <= |mem| == |mem'|
    requires forall i :: at <= i < end ==> mem'[i] == mem[i]
    ensures Tiles(mem', at, bs, end, unit)
    decreases |bs|
  {
    if bs != [] {
      TilesBounds(mem, at, bs, end, unit);
      TilesFrame(mem, mem', at + bs[0].size, bs[1..], end, unit);
    }
  }

  /** A word with the flag set that starts no live block is no header. */
  lemma {:induction false} FlagOfNoBlock(mem: seq<Info>, at: nat, bs: seq<Block>, end: nat, unit: nat, o: nat, x: Info)
    requires unit > 0 && Tiles(mem, at, bs, end, unit) && end <= |mem| && o < |mem| && mem[o].full && o !in Live(bs, at)
    ensures Tiles(mem[o := x], at, bs, end, unit)
    decreases |bs|
  {
    if bs != [] {
      var next := at + bs[0].size;
      TilesBounds(mem, next, bs[1..], end, unit);
      FlagOfNoBlock(mem, next, bs[1..], end, unit, o, x);
    }
  }

  /** What a client writes into a live block reaches no header. */
  lemma {:induction false} TilesPoke(mem: seq<Info>, at: nat, bs: seq<Block>, end: nat, unit: nat, o: nat, j: nat,
                                     x: Info)
    requires unit > 0 && Tiles(mem, at, bs, end, unit) && o in Live(bs, at) && o < j < o + Live(bs, at)[o]
    ensures j < |mem| && Tiles(mem[j := x], at, bs, end, unit)
    decreases |bs|
  {
    if bs != [] {
      var next := at + bs[0].size;
      TilesBounds(mem, at, bs, end, unit);
      TilesBounds(mem, next, bs[1..], end, unit);
      if o in Live(bs[1..], next) {
        LiveBounds(bs[1..], next, o);
        TilesPoke(mem, next, bs[1..], end, unit, o, j, x);
      } else {
        TilesFrame(mem, mem[j := x], next, bs[1..], end, unit);
      }
    }
  }

  // ---- Requests ----------------------------------------------------------------------------------

  /** The request is one that the rounding serves. */
  predicate Fits(size: nat, line: nat) {
    size + 4 + 2 * line - 2 < WORD
  }

  lemma WordsAligned(size: nat, line: nat)
    requires LineSize(line) && size < WORD
    ensures (4 * Words(size, line) >= size + 4 <==> Fits(size, line)) && Unit(line) > 0
    ensures Words(size, line) < SIZE_LIMIT ==> Words(size, line) % Unit(line) == 0
  {
    RoundingIsExact(size, line);
    LineBound(line);
    LinesOfWords((size + 4) % WORD, line);
  }

  lemma LinesOfWords(a: nat, line: nat)
    requires LineSize(line) && a < WORD
    ensures Unit(line) > 0 && (Ceil32(a, line) / 4 < SIZE_LIMIT ==> (Ceil32(a, line) / 4) % Unit(line) == 0)
  {
    LineBound(line);
    if a + line <= HALF {
      SmallWords(a, line);
      hide *;
    } else if a + 2 * line - 2 < WORD {
      CeilEnough(a, line);
      hide *;
      assert Ceil32(a, line) / 4 >= SIZE_LIMIT;
    } else {
      CeilOfHuge(a, line);
      hide *;
      ModOfMultiple(0, Unit(line));
    }
  }

  /** Blocks of whole lines have the words of a rounded request exactly if they have its bytes. */
  lemma BytesInLines(size: nat, line: nat, total: nat)
    requires LineSize(line) && Fits(size, line) && total % Unit(line) == 0 && total < SIZE_LIMIT
    ensures total >= Words(size, line) <==> 4 * total >= size + 4
  {
    LineBound(line);
    if size + 4 + line <= HALF {
      RoundingIsLeast(size, line);
      hide Words;
      LessThanALine(total, Words(size, line), size + 4, line);
    } else {
      RoundingIsExact(size, line);
    }
  }

  /** Of two multiples of a line, the one with more than a given number of bytes is at least the least such. */
  lemma LessThanALine(x: nat, y: nat, n: nat, line: nat)
    requires LineSize(line) && x % Unit(line) == 0 && (4 * y) % line == 0 && n <= 4 * y < n + line
    ensures x >= y <==> 4 * x >= n
  {
    LineBound(line);
    var unit := Unit(line);
    assert line == unit * 4;
    assert x == x / unit * unit;
    MulAssoc(x / unit, unit, 4);
    ModOfMultiple(x / unit, line);
    if 4 * x >= n && x < y {
      SameRemainder(4 * x, 4 * y, line);
      MulSign((4 * y) / line - (4 * x) / line, line);
    }
  }

  lemma {:induction false} TotalInLines(mem: seq<Info>, at: nat, bs: seq<Block>, end: nat, unit: nat)
    requires unit > 0 && Tiles(mem, at, bs, end, unit)
    ensures Total(bs) % unit == 0
    decreases |bs|
  {
    if bs != [] {
      TotalInLines(mem, at + bs[0].size, bs[1..], end, unit);
      AlignedSum(bs[0].size, Total(bs[1..]), unit);
    }
  }

  /** Any stretch of the blocks. */
  lemma StretchInLines(mem: seq<Info>, bs: seq<Block>, i: nat, j: nat, unit: nat)
    requires unit > 0 && Tiles(mem, 0, bs, |mem|, unit) && i <= j <= |bs|
    ensures Total(bs[i..j]) % unit == 0 && Total(bs[i..j]) <= |mem|
  {
    assert bs == bs[..i] + bs[i..] && bs[i..] == bs[i..j] + bs[j..];
    TilesSplit(mem, 0, bs[..i], bs[i..], |mem|, unit);
    TilesSplit(mem, Total(bs[..i]), bs[i..j], bs[j..], |mem|, unit);
    TotalInLines(mem, Total(bs[..i]), bs[i..j], Total(bs[..i]) + Total(bs[i..j]), unit);
  }

  /** A run is large enough for the rounded request exactly if it has the bytes asked for and those of a header. */
  lemma RunHoldsBytes(mem: seq<Info>, bs: seq<Block>, size: nat, line: nat)
    requires LineSize(line) && Fits(size, line) && |mem| < SIZE_LIMIT && Unit(line) > 0
    requires Tiles(mem, 0, bs, |mem|, Unit(line))
    ensures HasRun(bs, Words(size, line)) <==> HoldsBytes(bs, size + 4)
  {
    hide Words, Tiles, Total;
    forall i, j | 0 <= i < j <= |bs|
      ensures Total(bs[i..j]) >= Words(size, line) <==> 4 * Total(bs[i..j]) >= size + 4
    {
      StretchInLines(mem, bs, i, j, Unit(line));
      BytesInLines(size, line, Total(bs[i..j]));
    }
  }

  lemma BlocksSmall(mem: seq<Info>, bs: seq<Block>, unit: nat)
    requires unit > 0 && Tiles(mem, 0, bs, |mem|, unit) && |mem| < SIZE_LIMIT
    ensures forall i :: 0 <= i < |bs| ==> bs[i].size < SIZE_LIMIT
  {
    hide Tiles;
    forall i | 0 <= i < |bs|
      ensures bs[i].size < SIZE_LIMIT
    {
      assert bs[i..i + 1] == [bs[i]];
      OneBlock(bs[i], 0);
      StretchInLines(mem, bs, i, i + 1, unit);
    }
  }

  /** One block of the list. */
  lemma BlockHoldsBytes(mem: seq<Info>, bs: seq<Block>, size: nat, line: nat)
    requires LineSize(line) && Fits(size, line) && |mem| < SIZE_LIMIT && Unit(line) > 0
    requires Tiles(mem, 0, bs, |mem|, Unit(line))
    ensures forall i :: 0 <= i < |bs| ==> (bs[i].size >= Words(size, line) <==> 4 * bs[i].size >= size + 4)
  {
    hide Words, Tiles;
    forall i | 0 <= i < |bs|
      ensures bs[i].size >= Words(size, line) <==> 4 * bs[i].size >= size + 4
    {
      assert bs[i..i + 1] == [bs[i]];
      OneBlock(bs[i], 0);
      StretchInLines(mem, bs, i, i + 1, Unit(line));
      BytesInLines(size, line, bs[i].size);
    }
  }

  lemma FirstFitInBytes(mem: seq<Info>, bs: seq<Block>, size: nat, line: nat)
    requires LineSize(line) && Fits(size, line) && |mem| < SIZE_LIMIT && Unit(line) > 0
    requires Tiles(mem, 0, bs, |mem|, Unit(line))
    ensures FirstFit(bs, Words(size, line)) == |bs| <==> NoBlockHolds(bs, size + 4)
    ensures FirstFit(bs, Words(size, line)) < |bs| ==> size + 4 <= 4 * Words(size, line) < size + 4 + line
  {
    hide Words, Tiles, FirstFit;
    BlockHoldsBytes(mem, bs, size, line);
    BlocksSmall(mem, bs, Unit(line));
    if Words(size, line) < SIZE_LIMIT {
      RoundedUp(size, line);
    }
  }

  /** A request that some blocks of the heap can hold is rounded up by less than a line. */
  lemma RoundedUp(size: nat, line: nat)
    requires LineSize(line) && Fits(size, line) && Words(size, line) < SIZE_LIMIT
    ensures size + 4 <= 4 * Words(size, line) < size + 4 + line
  {
    LineBound(line);
    RoundingIsExact(size, line);
    RoundingIsLeast(size, line);
  }

  lemma SmallWords(a: nat, line: nat)
    requires LineSize(line) && a + line <= HALF
    ensures Unit(line) > 0 && (Ceil32(a, line) / 4) % Unit(line) == 0
  {
    CeilOfSmall(a, line);
    hide Ceil32;
    var q, unit := (a + line - 1) / line, Unit(line);
    assert line == unit * 4;
    MulAssoc(q, unit, 4);
    ModOfMultiple(q * unit, 4);
    ModOfMultiple(q, unit);
  }

  /** LINE_CEIL of word i of the heap. */
  function LineCeil(base: nat, i: nat, line: nat): int
    requires line > 0 && base + 4 * i < WORD
  {
    (Ceil32(base + 4 * i, line) - base) / 4
  }

  lemma LineCeilOfLine(base: nat, i: nat, line: nat)
    requires LineSize(line) && base % line == 0 && i % Unit(line) == 0 && base + 4 * i + line <= HALF
    ensures LineCeil(base, i, line) == i
  {
    var x, unit := base + 4 * i, Unit(line);
    CeilOfSmall(x, line);
    hide Ceil32;
    var q, p := base / line, i / unit;
    assert base == q * line && i == p * unit by {
      assert base == base / line * line + base % line;
      assert i == i / unit * unit + i % unit;
    }
    assert line == unit * 4;
    MulAssoc(p, unit, 4);
    assert 4 * i == p * line;
    Distribute(q, p, line);
    DivModUnique(x + line - 1, line, q + p, line - 1);
  }

  // ---- The heap ----------------------------------------------------------------------------------

  /** The words between line boundaries. */
  function Unit(line: nat): (u: nat)
    ensures line >= 4 ==> u > 0
  {
    line / 4
  }

  /** A heap of n words at an address on a line boundary, all of it below 2^31. */
  predicate Placed(base: nat, line: nat, n: nat) {
    LineSize(line) && base % line == 0 && base + 4 * n + line <= HALF && n < SIZE_LIMIT
  }

  class Heap {
    const mem: array<Info>
    const base: nat      // address of the first word
    const line: nat      // CacheLineSize
    ghost var blocks: seq<Block>

    ghost predicate Valid()
      reads this, mem
    {
      Placed(base, line, mem.Length) && line >= 4 && Tiles(mem[..], 0, blocks, mem.Length, Unit(line))
    }

    /** malloc_init on a heap that the kernel has granted: one free block. */
    constructor (mem: array<Info>, base: nat, line: nat)
      requires Placed(base, line, mem.Length) && 0 < mem.Length && mem.Length % Unit(line) == 0
      modifies mem
      ensures Valid() && this.mem == mem && this.base == base && this.line == line
      ensures blocks == [Block(mem.Length, false)]
    {
      this.mem, this.base, this.line := mem, base, line;
      blocks := [Block(mem.Length, false)];
      new;
      mem[0] := Info(false, MAGIC_HEAP, mem.Length);
      assert Tiles(mem[..], mem.Length, [], mem.Length, Unit(line));
    }

    /** The search of try_malloc: the first free block of at least k words, or the end. */
    method Search(k: nat) returns (new_: nat)
      requires Valid()
      ensures var i := FirstFit(blocks, k);
              && new_ == Total(blocks[..i]) <= mem.Length && (new_ < mem.Length <==> i < |blocks|)
              && Tiles(mem[..], 0, blocks[..i], new_, Unit(line))
              && Tiles(mem[..], new_, blocks[i..], mem.Length, Unit(line))
    {
      new_ := 0;
      ghost var i: nat := 0;
      assert blocks[0..] == blocks && blocks[..0] == [] && Total([]) == 0;
      NoBlocks(mem[..], Unit(line));
      hide Tiles, Total, FirstFit, Placed, Unit;
      while new_ < mem.Length && (mem[new_].full || mem[new_].size < k)
        invariant i <= FirstFit(blocks, k) && new_ == Total(blocks[..i]) <= mem.Length
        invariant Tiles(mem[..], 0, blocks[..i], new_, Unit(line))
                  && Tiles(mem[..], new_, blocks[i..], mem.Length, Unit(line))
        decreases mem.Length - new_
      {
        SearchStep(mem[..], blocks, i, new_, Unit(line));
        new_ := new_ + mem[new_].size;
        i := i + 1;
      }
      SearchEnds(mem[..], blocks, i, new_, Unit(line));
    }

    /** try_malloc */
    method TryMalloc(size: nat) returns (p: Option<nat>)
      requires Valid() && size < WORD
      modifies this, mem
      ensures Valid()
      ensures var i := FirstFit(old(blocks), Words(size, line));
              && (p.None? <==> i == |old(blocks)|) && blocks == Taken(old(blocks), Words(size, line))
              && (p.Some? ==> p.value == Total(old(blocks)[..i]) + 1)
      ensures Fits(size, line) ==>
                && (p.None? <==> NoBlockHolds(old(blocks), size + 4))
                && (p.Some? ==> size + 4 <= 4 * Words(size, line) < size + 4 + line)
    {
      WordsAligned(size, line);
      if Fits(size, line) {
        FirstFitInBytes(mem[..], blocks, size, line);
      }
      hide Words, Fits, NoBlockHolds, FirstFit, Taken, Total, Tiles, Unit;
      p := TakeFirstFit(Words(size, line));
    }

    /** The rest of try_malloc, for k words. */
    method TakeFirstFit(k: nat) returns (p: Option<nat>)
      requires Valid() && (k < SIZE_LIMIT ==> k % Unit(line) == 0)
      modifies this, mem
      ensures Valid()
      ensures var i := FirstFit(old(blocks), k);
              && (p.None? <==> i == |old(blocks)|) && blocks == Taken(old(blocks), k)
              && (p.Some? ==> p.value == Total(old(blocks)[..i]) + 1)
    {
      var new_ := Search(k);
      if new_ >= mem.Length {
        return None;
      }
      ghost var i, m := FirstFit(blocks, k), mem[..];
      BlockHere(m, new_, blocks[i..], mem.Length, Unit(line));
      Aligned(m, blocks[..i], new_, Unit(line));
      AlignedSum(new_, k, Unit(line));
      LineCeilOfLine(base, new_ + k, line);
      hide Tiles, Total, FirstFit, Taken, LineCeil, Unit;
      Occupy(new_, LineCeil(base, new_ + k, line));
      CutTiles(m, mem[..], blocks, i, new_, k, Unit(line));
      blocks := Taken(blocks, k);
      return Some(new_ + 1);
    }

    /** The header writes of try_malloc for the free block at new_, when the next one shall begin at newnext. */
    method Occupy(new_: nat, newnext: nat)
      requires new_ < mem.Length && mem[new_].magic == MAGIC_HEAP && !mem[new_].full
      requires new_ <= newnext <= new_ + mem[new_].size <= mem.Length && mem[new_].size > 0
      modifies mem
      ensures HeadersWritten(old(mem[..]), mem[..], new_, old(mem[new_]).size, newnext - new_)
    {
      mem[new_] := mem[new_].(full := true);
      var oldnext := new_ + mem[new_].size;
      if newnext != oldnext {
        mem[new_] := mem[new_].(size := newnext - new_, magic := MAGIC_HEAP);
        mem[newnext] := Info(false, MAGIC_HEAP, oldnext - newnext);
      }
    }

    /** merge from the beginning of the heap. */
    method Merge()
      requires Valid()
      modifies this, mem
      ensures Valid() && blocks == Merged(old(blocks))
    {
      ghost var unit := Unit(line);
      ghost var done: seq<Block>, rest := [], blocks;
      var ptr := 0;
      hide Tiles, Merged, Placed, Unit;
      NoBlocks(mem[..], unit);
      while ptr != mem.Length
        invariant ptr <= mem.Length && Tiles(mem[..], 0, done, ptr, unit) && Tiles(mem[..], ptr, rest, mem.Length, unit)
        invariant blocks == old(blocks) && Merged(blocks) == done + Merged(rest)
        decreases mem.Length - ptr
      {
        SomeLeft(mem[..], ptr, rest, unit);
        if !mem[ptr].full {
          rest := MergeAt(ptr, done, rest);
        }
        SomeLeft(mem[..], ptr, rest, unit);
        BlockPassed(mem[..], done, ptr, rest, unit);
        done, rest := done + [rest[0]], rest[1..];
        ptr := ptr + mem[ptr].size;
      }
      NothingLeft(mem[..], ptr, rest, unit);
      MergedNothing();
      assert done + [] == done;
      blocks := done;
    }

    /** The inner loop of merge: the free block at ptr takes in the free blocks right behind it. */
    method MergeAt(ptr: nat, ghost done: seq<Block>, ghost rest0: seq<Block>) returns (ghost rest: seq<Block>)
      requires line >= 4 && rest0 != [] && !rest0[0].full && ptr <= mem.Length
      requires Tiles(mem[..], 0, done, ptr, Unit(line)) && Tiles(mem[..], ptr, rest0, mem.Length, Unit(line))
      modifies mem
      ensures Tiles(mem[..], 0, done, ptr, Unit(line)) && Tiles(mem[..], ptr, rest, mem.Length, Unit(line))
      ensures rest != [] && Merged(rest) == Merged(rest0) && !rest[0].full && (|rest| > 1 ==> rest[1].full)
    {
      ghost var unit := Unit(line);
      rest := rest0;
      BlockHere(mem[..], ptr, rest, mem.Length, unit);
      var next_ := ptr + mem[ptr].size;
      while next_ != mem.Length && !mem[next_].full
        invariant rest != [] && !rest[0].full && ptr < next_ == ptr + rest[0].size <= mem.Length
                  && mem[ptr] == HeaderOf(rest[0])
        invariant Tiles(mem[..], 0, done, ptr, unit) && Tiles(mem[..], ptr, rest, mem.Length, unit)
        invariant Merged(rest) == Merged(rest0)
        decreases mem.Length - next_
      {
        ghost var m := mem[..];
        PairHere(m, ptr, rest, unit);
        mem[ptr] := mem[ptr].(size := mem[ptr].size + mem[next_].size);
        PairMerged(m, mem[..], done, ptr, rest, unit);
        rest := [Block(rest[0].size + rest[1].size, false)] + rest[2..];
        next_ := ptr + mem[ptr].size;
      }
      FollowedByFull(mem[..], ptr, rest, unit);
    }

    /**
      malloc: NULL exactly if no run of consecutive free blocks has the bytes asked for and those of a header;
      otherwise a fresh live block of the least number of lines, while all others stay in place. That
      is so if the rounding does not wrap round; where it does, the block is smaller than the
      request, and where it wraps to nothing, no block is taken.
    */
    method Malloc(size: nat) returns (p: Option<nat>)
      requires Valid() && size < WORD
      modifies this, mem
      ensures Valid() && blocks == Allocated(old(blocks), Words(size, line))
      ensures p.None? <==> !HasRun(old(blocks), Words(size, line))
      ensures p.None? || Words(size, line) == 0 ==> Live(blocks, 0) == Live(old(blocks), 0)
      ensures p.Some? ==>
                && p.value > 0 && p.value - 1 !in Live(old(blocks), 0)
                && (Words(size, line) > 0 ==> Live(blocks, 0) == Live(old(blocks), 0)[p.value - 1 := Words(size, line)])
                && (p.value - 1) % Unit(line) == 0 && (4 * Words(size, line) >= size + 4 <==> Fits(size, line))
      ensures Fits(size, line) ==>
                && (p.None? <==> !HoldsBytes(old(blocks), size + 4))
                && (p.Some? ==>
                    && p.value - 1 in Live(blocks, 0)
                    && size + 4 <= 4 * Live(blocks, 0)[p.value - 1] < size + 4 + line)
    {
      if Fits(size, line) {
        WordsAligned(size, line);
        RunHoldsBytes(mem[..], blocks, size, line);
      }
      WordsAligned(size, line);
      ghost var k := Words(size, line);
      ghost var bs := blocks;
      TilesBounds(mem[..], 0, blocks, mem.Length, Unit(line));
      FoundExactlyIfRun(bs, k);
      MergedLive(bs, 0);
      hide Words, HasRun, Live, Merged, Total;
      p := TryMalloc(size);
      if p == None {
        Merge();
        ghost var ms := blocks;
        p := TryMalloc(size);
        if p.Some? {
          BlockGiven(ms, k);
          StartAligned(mem[..], blocks, ms, k, Unit(line));
        }
      } else {
        BlockGiven(bs, k);
        StartAligned(mem[..], blocks, bs, k, Unit(line));
      }
    }

    /**
      free of any address of the heap; false stands for exit(1), on NULL or where the word before the address
      does not look like the header of a block in use. It does for every live block, which is freed; where
      other words do, their flag is cleared and no block changes.
    */
    method Free(p: Option<nat>) returns (ok: bool)
      requires Valid() && (p.Some? ==> 0 < p.value <= mem.Length)
      modifies this, mem
      ensures Valid() && (ok <==> p.Some? && old(mem[p.value - 1]).full && old(mem[p.value - 1]).magic == MAGIC_HEAP)
      ensures mem[..] == if ok then old(mem[..])[p.value - 1 := old(mem[p.value - 1]).(full := false)] else old(mem[..])
      ensures p.Some? && p.value - 1 in Live(old(blocks), 0) ==>
                && ok && blocks == Released(old(blocks), p.value - 1)
                && Live(blocks, 0) == Live(old(blocks), 0) - {p.value - 1}
      ensures p.None? || p.value - 1 !in Live(old(blocks), 0) ==> blocks == old(blocks)
    {
      if p == None {
        return false;
      }
      ghost var unit, m := Unit(line), mem[..];
      var info := p.value - 1;
      if info in Live(blocks, 0) {
        LiveIsBlock(m, blocks, info, unit);
      }
      if !mem[info].full || mem[info].magic != MAGIC_HEAP {
        return false;
      }
      ghost var x := mem[info].(full := false);
      if info in Live(blocks, 0) {
        FreedBlock(m, blocks, info, unit);
        blocks := Released(blocks, info);
      } else {
        FlagOfNoBlock(m, 0, blocks, mem.Length, unit, info, x);
      }
      mem[info] := mem[info].(full := false);
      return true;
    }

    /** A client writes a word of a block it holds. */
    method ClientWrite(o: nat, j: nat, x: Info)
      requires Valid() && o in Live(blocks, 0) && o < j < o + Live(blocks, 0)[o]
      modifies mem
      ensures Valid() && j < mem.Length && mem[..] == old(mem[..])[j := x]
    {
      TilesPoke(mem[..], 0, blocks, mem.Length, Unit(line), o, j, x);
      mem[j] := x;
    }
  }

  lemma NoBlocks(mem: seq<Info>, unit: nat)
    requires unit > 0
    ensures Tiles(mem, 0, [], 0, unit)
  {
  }

  lemma MergedNothing()
    ensures Merged([]) == []
  {
  }

  lemma SearchStep(mem: seq<Info>, bs: seq<Block>, i: nat, at: nat, unit: nat)
    requires unit > 0 && i <= |bs| && at < |mem| && Tiles(mem, 0, bs[..i], at, unit)
             && Tiles(mem, at, bs[i..], |mem|, unit)
    requires at == Total(bs[..i])
    ensures i < |bs| && mem[at] == HeaderOf(bs[i]) && at < at + mem[at].size <= |mem|
            && at + mem[at].size == Total(bs[..i + 1])
    ensures Tiles(mem, 0, bs[..i + 1], at + mem[at].size, unit)
            && Tiles(mem, at + mem[at].size, bs[i + 1..], |mem|, unit)
  {
    assert bs[i..] != [];
    assert bs[i..][1..] == bs[i + 1..] && bs[i..][0] == bs[i];
    var next := at + bs[i].size;
    TilesBounds(mem, next, bs[i + 1..], |mem|, unit);
    assert [bs[i]][1..] == [];
    assert Tiles(mem, next, [], next, unit);
    assert Tiles(mem, at, [bs[i]], next, unit);
    TilesJoin(mem, 0, bs[..i], at, [bs[i]], next, unit);
    assert bs[..i] + [bs[i]] == bs[..i + 1];
    TotalJoin(bs[..i], [bs[i]]);
  }

  lemma SearchEnds(mem: seq<Info>, bs: seq<Block>, i: nat, at: nat, unit: nat)
    requires unit > 0 && i <= |bs| && at <= |mem| && Tiles(mem, at, bs[i..], |mem|, unit)
    ensures at < |mem| ==> i < |bs| && mem[at] == HeaderOf(bs[i])
    ensures at == |mem| <==> i == |bs|
  {
    if i < |bs| {
      assert bs[i..][0] == bs[i];
    }
  }

  lemma BlockHere(mem: seq<Info>, at: nat, bs: seq<Block>, end: nat, unit: nat)
    requires unit > 0 && bs != [] && Tiles(mem, at, bs, end, unit)
    ensures at < |mem| && mem[at] == HeaderOf(bs[0]) && bs[0].size > 0 && bs[0].size % unit == 0
    ensures at + bs[0].size <= end <= |mem| && Tiles(mem, at + bs[0].size, bs[1..], end, unit)
  {
    TilesBounds(mem, at + bs[0].size, bs[1..], end, unit);
  }

  /** Blocks start at multiples of the line. */
  lemma {:induction false} Aligned(mem: seq<Info>, bs: seq<Block>, at: nat, unit: nat)
    requires unit > 0 && Tiles(mem, 0, bs, at, unit)
    ensures at % unit == 0
  {
    AlignedFrom(mem, 0, bs, at, unit);
  }

  lemma {:induction false} AlignedFrom(mem: seq<Info>, from: nat, bs: seq<Block>, at: nat, unit: nat)
    requires unit > 0 && Tiles(mem, from, bs, at, unit) && from % unit == 0
    ensures at % unit == 0
    decreases |bs|
  {
    if bs != [] {
      AlignedSum(from, bs[0].size, unit);
      AlignedFrom(mem, from + bs[0].size, bs[1..], at, unit);
    }
  }

  lemma AlignedSum(a: nat, b: nat, unit: nat)
    requires unit > 0 && a % unit == 0 && b % unit == 0
    ensures (a + b) % unit == 0
  {
    assert b == b / unit * unit + b % unit;
    ModAddMultiple(a, b / unit, unit);
  }

  /** What the header writes of try_malloc leave, for a block of d words at `at` and k words taken. */
  ghost predicate HeadersWritten(mem: seq<Info>, mem': seq<Info>, at: nat, d: nat, k: nat) {
    && |mem'| == |mem| && k <= d && at < at + d <= |mem|
    && (forall j :: 0 <= j < at ==> mem'[j] == mem[j]) && (forall j :: at + d <= j < |mem| ==> mem'[j] == mem[j])
    && (k > 0 ==> mem'[at] == Info(true, MAGIC_HEAP, k)) && (k < d ==> mem'[at + k] == Info(false, MAGIC_HEAP, d - k))
  }

  /** The blocks after the one at `at` has been taken, and cut if it was larger. */
  lemma CutTiles(mem: seq<Info>, mem': seq<Info>, bs: seq<Block>, i: nat, at: nat, k: nat, unit: nat)
    requires unit > 0 && i == FirstFit(bs, k) < |bs| && k % unit == 0
    requires Tiles(mem, 0, bs[..i], at, unit) && Tiles(mem, at, bs[i..], |mem|, unit)
    requires HeadersWritten(mem, mem', at, bs[i].size, k)
    ensures Tiles(mem', 0, Taken(bs, k), |mem|, unit)
  {
    var b := bs[i];
    var next := at + b.size;
    assert bs[i..][0] == b && bs[i..][1..] == bs[i + 1..];
    hide Tiles, Total, Cut, FirstFit;
    BlockHere(mem, at, bs[i..], |mem|, unit);
    TilesFrame(mem, mem', 0, bs[..i], at, unit);
    TilesFrame(mem, mem', next, bs[i + 1..], |mem|, unit);
    CutHere(mem', at, b, k, unit);
    CutBetweenTiles(mem', bs[..i], at, Cut(b, k), next, bs[i + 1..], unit);
  }

  lemma CutBetweenTiles(mem: seq<Info>, l: seq<Block>, at: nat, m: seq<Block>, next: nat, r: seq<Block>, unit: nat)
    requires unit > 0 && Tiles(mem, 0, l, at, unit) && Tiles(mem, at, m, next, unit) && Tiles(mem, next, r, |mem|, unit)
    ensures Tiles(mem, 0, l + m + r, |mem|, unit)
  {
    TilesJoin(mem, 0, l, at, m, next, unit);
    TilesJoin(mem, 0, l + m, next, r, |mem|, unit);
  }

  lemma CutHere(mem: seq<Info>, at: nat, b: Block, k: nat, unit: nat)
    requires unit > 0 && b.size >= k && b.size > 0 && k % unit == 0 && b.size % unit == 0 && at + b.size <= |mem|
    requires k > 0 ==> mem[at] == Info(true, MAGIC_HEAP, k)
    requires b.size > k ==> mem[at + k] == Info(false, MAGIC_HEAP, b.size - k)
    ensures Tiles(mem, at, Cut(b, k), at + b.size, unit)
  {
    var next := at + b.size;
    assert Tiles(mem, next, [], next, unit);
    assert [Block(k, true)][1..] == [];
    if k == 0 {
      assert [Block(b.size, false)][1..] == [];
    } else if b.size > k {
      var rest := Block(b.size - k, false);
      SameRemainder(k, b.size, unit);
      assert [rest][1..] == [];
      assert Tiles(mem, at + k, [rest], next, unit);
      assert Cut(b, k)[1..] == [rest];
    }
  }

  // ---- Merging and freeing in place --------------------------------------------------------------

  lemma NothingLeft(mem: seq<Info>, at: nat, rest: seq<Block>, unit: nat)
    requires unit > 0 && Tiles(mem, at, rest, |mem|, unit) && at == |mem|
    ensures rest == []
  {
  }

  lemma SomeLeft(mem: seq<Info>, at: nat, rest: seq<Block>, unit: nat)
    requires unit > 0 && Tiles(mem, at, rest, |mem|, unit) && at < |mem|
    ensures rest != [] && mem[at] == HeaderOf(rest[0]) && rest[0].size > 0
  {
  }

  lemma BlockPassed(mem: seq<Info>, done: seq<Block>, at: nat, rest: seq<Block>, unit: nat)
    requires unit > 0 && Tiles(mem, 0, done, at, unit) && rest != [] && Tiles(mem, at, rest, |mem|, unit)
    requires rest[0].full || |rest| == 1 || rest[1].full
    ensures at + rest[0].size <= |mem| && Tiles(mem, 0, done + [rest[0]], at + rest[0].size, unit)
    ensures Tiles(mem, at + rest[0].size, rest[1..], |mem|, unit)
    ensures done + Merged(rest) == done + [rest[0]] + Merged(rest[1..])
  {
    BlockHere(mem, at, rest, |mem|, unit);
    var next := at + rest[0].size;
    assert [rest[0]][1..] == [];
    assert Tiles(mem, next, [], next, unit);
    assert Tiles(mem, at, [rest[0]], next, unit);
    TilesJoin(mem, 0, done, at, [rest[0]], next, unit);
    if |rest| == 1 {
      assert rest == [rest[0]] && rest[1..] == [];
    }
  }

  lemma PairHere(mem: seq<Info>, at: nat, rest: seq<Block>, unit: nat)
    requires unit > 0 && rest != [] && Tiles(mem, at, rest, |mem|, unit) && at + rest[0].size < |mem|
    ensures |rest| > 1 && mem[at] == HeaderOf(rest[0]) && mem[at + rest[0].size] == HeaderOf(rest[1])
    ensures rest[1].size > 0 && at + rest[0].size + rest[1].size <= |mem|
  {
    BlockHere(mem, at, rest, |mem|, unit);
    var next := at + rest[0].size;
    assert rest[1..] != [];
    BlockHere(mem, next, rest[1..], |mem|, unit);
  }

  lemma PairMerged(mem: seq<Info>, mem': seq<Info>, done: seq<Block>, at: nat, rest: seq<Block>, unit: nat)
    requires unit > 0 && |rest| > 1 && !rest[0].full && !rest[1].full
    requires Tiles(mem, 0, done, at, unit) && Tiles(mem, at, rest, |mem|, unit)
    requires at < |mem| && mem' == mem[at := Info(false, MAGIC_HEAP, rest[0].size + rest[1].size)]
    ensures var c := [Block(rest[0].size + rest[1].size, false)] + rest[2..];
            Tiles(mem', 0, done, at, unit) && Tiles(mem', at, c, |mem|, unit) && Merged(c) == Merged(rest)
  {
    BlockHere(mem, at, rest, |mem|, unit);
    var next := at + rest[0].size;
    assert rest[1..][0] == rest[1] && rest[1..][1..] == rest[2..];
    BlockHere(mem, next, rest[1..], |mem|, unit);
    var after := next + rest[1].size;
    TilesFrame(mem, mem', 0, done, at, unit);
    TilesFrame(mem, mem', after, rest[2..], |mem|, unit);
    AlignedSum(rest[0].size, rest[1].size, unit);
    var c := [Block(rest[0].size + rest[1].size, false)] + rest[2..];
    assert c[1..] == rest[2..];
  }

  lemma FollowedByFull(mem: seq<Info>, at: nat, rest: seq<Block>, unit: nat)
    requires unit > 0 && rest != [] && Tiles(mem, at, rest, |mem|, unit)
    requires at + rest[0].size < |mem| ==> mem[at + rest[0].size].full
    ensures |rest| > 1 ==> rest[1].full
  {
    BlockHere(mem, at, rest, |mem|, unit);
    if |rest| > 1 {
      BlockHere(mem, at + rest[0].size, rest[1..], |mem|, unit);
    }
  }

  /** What the search gives, live or, for no words, free. */
  lemma BlockGiven(bs: seq<Block>, k: nat)
    requires Positive(bs) && FirstFit(bs, k) < |bs|
    ensures var o := Total(bs[..FirstFit(bs, k)]);
            && o !in Live(bs, 0)
            && Live(Taken(bs, k), 0) == if k == 0 then Live(bs, 0) else Live(bs, 0)[o := k]
  {
    if k == 0 {
      NothingTaken(bs);
    } else {
      TakenLive(bs, k);
    }
  }

  /** The new block starts on a line. */
  lemma StartAligned(mem: seq<Info>, after: seq<Block>, bs: seq<Block>, k: nat, unit: nat)
    requires unit > 0 && FirstFit(bs, k) < |bs| && after == Taken(bs, k) && Tiles(mem, 0, after, |mem|, unit)
    ensures Total(bs[..FirstFit(bs, k)]) % unit == 0
  {
    var i := FirstFit(bs, k);
    hide FirstFit, Cut, Tiles, Total;
    var l, r := bs[..i], Cut(bs[i], k) + bs[i + 1..];
    assert after == l + r;
    TilesSplit(mem, 0, l, r, |mem|, unit);
    Aligned(mem, l, Total(l), unit);
  }

  /** A live block is a full block of the list, and its header says so. */
  lemma LiveIsBlock(mem: seq<Info>, bs: seq<Block>, o: nat, unit: nat)
    requires unit > 0 && Tiles(mem, 0, bs, |mem|, unit) && o in Live(bs, 0)
    ensures o < |mem| && mem[o] == HeaderOf(bs[IndexAt(bs, 0, o)])
  {
    var i := IndexAt(bs, 0, o);
    assert bs == bs[..i] + bs[i..] && bs[i..][0] == bs[i];
    TilesSplit(mem, 0, bs[..i], bs[i..], |mem|, unit);
  }

  /** The live block at o in the list. */
  function IndexAt(bs: seq<Block>, at: nat, o: nat): (i: nat)
    requires o in Live(bs, at)
    ensures i < |bs| && bs[i].full && at + Total(bs[..i]) == o
    decreases |bs|
  {
    if bs[0].full && o == at then 0
    else
      var j := IndexAt(bs[1..], at + bs[0].size, o);
      assert bs[..j + 1][0] == bs[0] && bs[..j + 1][1..] == bs[1..][..j];
      j + 1
  }

  function Released(bs: seq<Block>, o: nat): seq<Block>
    requires o in Live(bs, 0)
  {
    var i := IndexAt(bs, 0, o);
    bs[i := Block(bs[i].size, false)]
  }

  /** The blocks when the live block at o has been freed. */
  lemma FreedBlock(mem: seq<Info>, bs: seq<Block>, o: nat, unit: nat)
    requires unit > 0 && Tiles(mem, 0, bs, |mem|, unit) && o in Live(bs, 0)
    ensures var bs' := Released(bs, o);
            && o < |mem| && Tiles(mem[o := mem[o].(full := false)], 0, bs', |mem|, unit)
            && Live(bs', 0) == Live(bs, 0) - {o}
  {
    LiveIsBlock(mem, bs, o, unit);
    var i := IndexAt(bs, 0, o);
    FreedTiles(mem, mem[o := mem[o].(full := false)], bs, i, unit);
    TilesBounds(mem, 0, bs, |mem|, unit);
    FreedLive(bs, i);
  }

  lemma FreedTiles(mem: seq<Info>, mem': seq<Info>, bs: seq<Block>, i: nat, unit: nat)
    requires unit > 0 && i < |bs| && Tiles(mem, 0, bs, |mem|, unit) && Total(bs[..i]) < |mem|
    requires mem' == mem[Total(bs[..i]) := Info(false, MAGIC_HEAP, bs[i].size)]
    ensures Tiles(mem', 0, bs[i := Block(bs[i].size, false)], |mem|, unit)
  {
    var at, b, b' := Total(bs[..i]), bs[i], Block(bs[i].size, false);
    var next := at + b.size;
    assert bs == bs[..i] + bs[i..] && bs[i..][0] == b && bs[i..][1..] == bs[i + 1..];
    TilesSplit(mem, 0, bs[..i], bs[i..], |mem|, unit);
    BlockHere(mem, at, bs[i..], |mem|, unit);
    TilesFrame(mem, mem', 0, bs[..i], at, unit);
    TilesFrame(mem, mem', next, bs[i + 1..], |mem|, unit);
    assert ([b'] + bs[i + 1..])[1..] == bs[i + 1..];
    assert Tiles(mem', at, [b'] + bs[i + 1..], |mem|, unit);
    TilesJoin(mem', 0, bs[..i], at, [b'] + bs[i + 1..], |mem|, unit);
    assert bs[i := b'] == bs[..i] + ([b'] + bs[i + 1..]);
  }

  /** Exactly the freed block is no longer live. */
  lemma FreedLive(bs: seq<Block>, i: nat)
    requires Positive(bs) && i < |bs| && bs[i].full
    ensures var o := Total(bs[..i]);
            o in Live(bs, 0) && Live(bs[i := Block(bs[i].size, false)], 0) == Live(bs, 0) - {o}
  {
    var l, b, r := bs[..i], bs[i], bs[i + 1..];
    var b' := Block(b.size, false);
    assert bs == l + [b] + r && bs[i := b'] == l + [b'] + r;
    OneBlock(b, Total(l));
    OneBlock(b', Total(l));
    hide Live, Total;
    ThreeParts(l, [b], r);
    ThreeParts(l, [b'], r);
    LiveAway(l, r, Total(l), b.size);
    DropBetween(Live(l, 0), Live(r, Total(l) + b.size), Total(l), b.size);
  }

  lemma OneBlock(b: Block, at: nat)
    ensures Live([b], at) == (if b.full then map[at := b.size] else map[]) && Total([b]) == b.size
  {
    assert [b][1..] == [];
    assert Total([b]) == b.size + Total([]);
  }

  lemma DropBetween(a: map<nat, nat>, b: map<nat, nat>, o: nat, k: nat)
    requires o !in a && o !in b
    ensures o in a + map[o := k] + b && (a + map[o := k] + b) - {o} == a + map[] + b
  {
  }
}
