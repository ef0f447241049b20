/**
  Reading a file block by block: fs1_read of fs/fs1/fs1.c and the open-file offset of vfs_read in
  fs/vfs.c. Which blocks can be read may differ from call to call; what they hold does not.
*/
module FileRead {
  import opened Machine

  const BLOCK := 4096

  type Disk = nat -> Bytes

  /** The directory entry of a file: its first block and its size in bytes. */
  datatype Ent = Ent(lba: nat, size: nat)

  ghost predicate DiskOk(d: Disk) {
    forall l :: |d(l)| == BLOCK
  }

  /** Byte i of the file. */
  function ByteAt(d: Disk, e: Ent, i: nat): Byte
    requires |d(e.lba + i / BLOCK)| == BLOCK
  {
    d(e.lba + i / BLOCK)[i % BLOCK]
  }

  /** The bytes of the file from i to j. */
  ghost function Range(d: Disk, e: Ent, i: nat, j: nat): (r: Bytes)
    requires DiskOk(d) && i <= j
    ensures |r| == j - i && forall k :: 0 <= k < j - i ==> r[k] == ByteAt(d, e, i + k)
  {
    seq<Byte>(j - i, k requires 0 <= k < j - i => ByteAt(d, e, i + k))
  }

  lemma RangeJoin(d: Disk, e: Ent, i: nat, j: nat, k: nat)
    requires DiskOk(d) && i <= j <= k
    ensures Range(d, e, i, k) == Range(d, e, i, j) + Range(d, e, j, k)
  {
  }

  /** A range inside one block. */
  lemma RangeInBlock(d: Disk, e: Ent, i: nat, n: nat)
    requires DiskOk(d) && i % BLOCK + n <= BLOCK
    ensures Range(d, e, i, i + n) == d(e.lba + i / BLOCK)[i % BLOCK..i % BLOCK + n]
  {
    var b := d(e.lba + i / BLOCK);
    var x, y := Range(d, e, i, i + n), b[i % BLOCK..i % BLOCK + n];
    forall k | 0 <= k < n
      ensures x[k] == y[k]
    {
      assert (i + k) / BLOCK == i / BLOCK && (i + k) % BLOCK == i % BLOCK + k;
    }
  }

  // ---- fs1_read ----------------------------------------------------------------------------------

  /** Whether a block can be read during the call: a block read takes memory and the device. */
  type Access = nat -> bool

  /** A file's size is an unsigned word, and counting its blocks does not wrap round. */
  predicate Placed(e: Ent) {
    e.size < WORD && e.lba + WORD / BLOCK < WORD
  }

  /** The size of a read after clipping it to the file, in unsigned arithmetic. */
  function Clipped(e: Ent, offset: nat, size: nat): nat
    requires offset < e.size < WORD && size < WORD
  {
    if (offset + size) % WORD > e.size then e.size - offset else size
  }

  /** The clipping is right exactly if the end of the read does not wrap round. */
  lemma ClippingIsExact(e: Ent, offset: nat, size: nat)
    requires offset < e.size < WORD && size < WORD
    ensures Clipped(e, offset, size) <= e.size - offset <==> offset + size < WORD
    ensures offset + size < WORD ==> Clipped(e, offset, size) == if offset + size <= e.size then size
            else e.size - offset
  {
  }

  /** One past the last block of a read of n bytes, in unsigned arithmetic. */
  function EndLba(e: Ent, offset: nat, n: nat): nat
    requires n > 0
  {
    e.lba + (offset + n - 1) % WORD / BLOCK + 1
  }

  /** The first block from lba on that cannot be read, or end. */
  function Stop(ok: Access, lba: nat, end: nat): (r: nat)
    requires lba <= end
    ensures lba <= r <= end && (r < end ==> !ok(r)) && forall k :: lba <= k < r ==> ok(k)
    decreases end - lba
  {
    if lba == end || !ok(lba) then lba else Stop(ok, lba + 1, end)
  }

  /** What is returned when the blocks up to stop have been read. */
  function Returned(e: Ent, offset: nat, n: nat, stop: nat, end: nat): int {
    if stop < end && Copied(e, offset, n, stop) == 0 then -EIO else Copied(e, offset, n, stop)
  }

  /** The result of fs1_read. */
  function Outcome(ok: Access, e: Ent, offset: nat, size: nat): int
    requires e.size < WORD && 0 < size < WORD
  {
    if offset >= e.size then 0
    else
      var n := Clipped(e, offset, size);
      var start, end := e.lba + offset / BLOCK, EndLba(e, offset, n);
      if end <= start then 0 else Returned(e, offset, n, Stop(ok, start, end), end)
  }

  /**
    When the end does not wrap round, a read gives as many bytes as are asked for and there are if all their
    blocks can be read, an error exactly if the first cannot, and otherwise the bytes up to the first
    block that cannot.
  */
  lemma ReadOutcome(ok: Access, e: Ent, offset: nat, size: nat, n: nat)
    requires e.size < WORD && 0 < size && offset + size < WORD && offset < e.size
    requires n == if offset + size <= e.size then size else e.size - offset
    ensures var r, first, last := Outcome(ok, e, offset, size), e.lba + offset / BLOCK,
            e.lba + (offset + n - 1) / BLOCK;
            && (r == n <==> forall l :: first <= l <= last ==> ok(l))
            && (r == -EIO <==> !ok(first)) && (r < 0 ==> r == -EIO)
            && (0 <= r < n ==> r > 0 && (offset + r) % BLOCK == 0 && !ok(e.lba + (offset + r) / BLOCK)
                               && forall l :: first <= l < e.lba + (offset + r) / BLOCK ==> ok(l))
  {
    ClippingIsExact(e, offset, size);
    hide Clipped, Copied;
    var first, end := e.lba + offset / BLOCK, EndLba(e, offset, n);
    assert end == e.lba + (offset + n - 1) / BLOCK + 1;
    assert first < end by {
      CopyStart(e, offset, n);
    }
    var stop := Stop(ok, first, end);
    CopiedUpTo(e, offset, n, stop);
    assert Outcome(ok, e, offset, size) == Returned(e, offset, n, stop, end);
    hide Outcome, Stop, EndLba;
  }

  lemma CopiedUpTo(e: Ent, offset: nat, n: nat, stop: nat)
    requires 0 < n && e.lba + offset / BLOCK <= stop <= e.lba + (offset + n - 1) / BLOCK + 1
    ensures var c := Copied(e, offset, n, stop);
            && (c == 0 <==> stop == e.lba + offset / BLOCK)
            && (c == n <==> stop == e.lba + (offset + n - 1) / BLOCK + 1)
            && (0 < c < n ==> (offset + c) % BLOCK == 0 && e.lba + (offset + c) / BLOCK == stop)
  {
    if e.lba + offset / BLOCK < stop {
      var blocks := stop - e.lba;
      assert (blocks * BLOCK) % BLOCK == 0 && (blocks * BLOCK) / BLOCK == blocks;
      assert offset < blocks * BLOCK;
    }
  }

  /**
    With all blocks there, a read from inside the file gives all bytes it should exactly if its end does not
    wrap round, or wraps round into the block it began in and the file ends with that block.
  */
  lemma ReadIsExact(ok: Access, e: Ent, offset: nat, size: nat)
    requires e.size < WORD && 0 < size < WORD && offset < e.size && forall l :: ok(l)
    ensures Outcome(ok, e, offset, size) == (if offset + size <= e.size then size else e.size - offset)
            <==> || offset + size < WORD
                 || (&& offset + size > WORD && (offset + size - WORD - 1) / BLOCK == offset / BLOCK
                     && e.size == (offset / BLOCK + 1) * BLOCK)
  {
    if offset + size < WORD {
      ReadOutcome(ok, e, offset, size, if offset + size <= e.size then size else e.size - offset);
    } else {
      WrappedRead(ok, e, offset, size);
    }
  }

  /** A read whose end wraps round: as if at the end of the file, or the rest of a block, or far too much. */
  lemma WrappedRead(ok: Access, e: Ent, offset: nat, size: nat)
    requires e.size < WORD && 0 < size < WORD && offset < e.size && offset + size >= WORD && forall l :: ok(l)
    ensures Outcome(ok, e, offset, size) ==
            if offset + size == WORD then size
            else if (offset + size - WORD - 1) / BLOCK < offset / BLOCK then 0
            else BLOCK - offset % BLOCK
    ensures offset + size > WORD ==> (offset + size - WORD - 1) / BLOCK <= offset / BLOCK
  {
    var n := Clipped(e, offset, size);
    assert n == size;
    var start, end := e.lba + offset / BLOCK, EndLba(e, offset, n);
    if offset + size == WORD {
      assert (offset + n - 1) % WORD == offset + n - 1;
      CopyEnds(e, offset, n);
    } else {
      assert (offset + n - 1) % WORD == offset + size - WORD - 1;
      if end > start {
        assert Stop(ok, start, end) == end == start + 1;
      }
    }
  }

  /** A read of nearly all memory: nothing is returned although 3192 bytes of the file are left. */
  lemma ReadReturnsNothing(ok: Access)
    requires forall l :: ok(l)
    ensures Clipped(Ent(1, 8192), 5000, WORD - 1000) == WORD - 1000 > 8192 - 5000
    ensures Outcome(ok, Ent(1, 8192), 5000, WORD - 1000) == 0
  {
    WrappedRead(ok, Ent(1, 8192), 5000, WORD - 1000);
  }

  /** fs1_read: the bytes of the file from offset on, and the rest of the buffer as it was. */
  method Fs1Read(d: Disk, ok: Access, e: Ent, buffer: array<Byte>, offset: nat, size: nat) returns (r: int)
    requires DiskOk(d) && Placed(e) && 0 < size < WORD && size <= buffer.Length
    modifies buffer
    ensures r == Outcome(ok, e, offset, size) && r <= buffer.Length
    ensures var c := if r < 0 then 0 else r;
            buffer[..c] == Range(d, e, offset, offset + c) && buffer[c..] == old(buffer[c..])
  {
    RangeEmpty(d, e, offset);
    if offset >= e.size {
      return 0;
    }
    var n := Clipped(e, offset, size);
    hide Clipped;
    LastBlock(e, offset, n);
    if EndLba(e, offset, n) <= e.lba + offset / BLOCK {
      return 0;
    }
    r := ReadBlocks(d, ok, e, buffer, offset, n);
  }

  /** The last block is never behind that of the last byte asked for. */
  lemma LastBlock(e: Ent, offset: nat, n: nat)
    requires n > 0
    ensures EndLba(e, offset, n) <= e.lba + (offset + n - 1) / BLOCK + 1
  {
    assert (offset + n - 1) % WORD <= offset + n - 1;
  }

  /** The block loop of fs1_read, for n bytes. */
  method ReadBlocks(d: Disk, ok: Access, e: Ent, buffer: array<Byte>, offset: nat, n: nat) returns (r: int)
    requires DiskOk(d) && 0 < n <= buffer.Length
    requires e.lba + offset / BLOCK < EndLba(e, offset, n) <= e.lba + (offset + n - 1) / BLOCK + 1
    modifies buffer
    ensures var start, end := e.lba + offset / BLOCK, EndLba(e, offset, n);
            r == Returned(e, offset, n, Stop(ok, start, end), end) && r <= n
    ensures var c := if r < 0 then 0 else r;
            buffer[..c] == Range(d, e, offset, offset + c) && buffer[c..] == old(buffer[c..])
  {
    hide Copied, Range, DiskOk, EndLba;
    CopyStart(e, offset, n);
    RangeEmpty(d, e, offset);
    var startLba := e.lba + offset / BLOCK;
    ghost var end := EndLba(e, offset, n);
    var endLba := EndLba(e, offset, n) - 1;
    var copied := 0;
    var lba := startLba;
    while lba <= endLba
      invariant startLba <= lba <= endLba + 1 && 0 <= copied <= n
      invariant copied == Copied(e, offset, n, lba)
      invariant Stop(ok, startLba, end) == Stop(ok, lba, end)
      invariant buffer[..copied] == Range(d, e, offset, offset + copied)
      invariant buffer[copied..] == old(buffer[copied..])
      decreases endLba + 1 - lba
    {
      if !ok(lba) {
        return if copied != 0 then copied else -EIO;
      }
      copied := CopyBlock(d, e, buffer, offset, n, lba, copied);
      lba := lba + 1;
    }
    return copied;
  }

  lemma RangeEmpty(d: Disk, e: Ent, i: nat)
    requires DiskOk(d)
    ensures Range(d, e, i, i + 0) == []
  {
  }

  /** The body of that loop: the part of one block that is asked for. */
  method CopyBlock(d: Disk, e: Ent, buffer: array<Byte>, offset: nat, n: nat, lba: nat, copied: nat)
    returns (copied': nat)
    requires DiskOk(d) && 0 < n <= buffer.Length && copied <= n && copied == Copied(e, offset, n, lba)
    requires e.lba + offset / BLOCK <= lba <= e.lba + (offset + n - 1) / BLOCK
    requires buffer[..copied] == Range(d, e, offset, offset + copied)
    modifies buffer
    ensures copied <= copied' <= n && copied' == Copied(e, offset, n, lba + 1)
    ensures buffer[..copied'] == Range(d, e, offset, offset + copied') && buffer[copied'..] == old(buffer[copied'..])
  {
    var pageOffset := if lba == e.lba + offset / BLOCK then offset % BLOCK else 0;
    var toCopy := BLOCK - pageOffset;
    if toCopy > n - copied {
      toCopy := n - copied;
    }
    BlockFacts(d, e, offset, n, lba, copied, pageOffset, toCopy);
    hide *;
    CopyInto(buffer, copied, d(lba), pageOffset, toCopy);
    copied' := copied + toCopy;
  }

  /** The bytes of a block that are asked for continue those copied before. */
  lemma BlockFacts(d: Disk, e: Ent, offset: nat, n: nat, lba: nat, c: nat, po: nat, k: nat)
    requires DiskOk(d) && 0 < n && c == Copied(e, offset, n, lba)
    requires e.lba + offset / BLOCK <= lba <= e.lba + (offset + n - 1) / BLOCK
    requires po == if lba == e.lba + offset / BLOCK then offset % BLOCK else 0
    requires c <= n && k == if BLOCK - po > n - c then n - c else BLOCK - po
    ensures c + k <= n && Copied(e, offset, n, lba + 1) == c + k && po + k <= |d(lba)|
    ensures Range(d, e, offset, offset + (c + k)) == Range(d, e, offset, offset + c) + d(lba)[po..po + k]
  {
    assert |d(lba)| == BLOCK;
    hide Copied, Range, DiskOk;
    CopyStep(e, offset, n, lba);
    assert Range(d, e, offset + c, offset + c + k) == d(lba)[po..po + k] by {
      RangeInBlock(d, e, offset + c, k);
    }
    assert Range(d, e, offset, offset + c + k) == Range(d, e, offset, offset + c)
           + Range(d, e, offset + c, offset + c + k) by {
      RangeJoin(d, e, offset, offset + c, offset + c + k);
    }
  }

  /** memcpy of part of a page into the buffer. */
  method CopyInto(buffer: array<Byte>, at: nat, page: Bytes, from: nat, n: nat)
    requires at + n <= buffer.Length && from + n <= |page|
    modifies buffer
    ensures buffer[..at] == old(buffer[..at]) && buffer[at..at + n] == page[from..from + n]
    ensures buffer[at + n..] == old(buffer[at + n..])
    ensures buffer[..at + n] == old(buffer[..at]) + page[from..from + n]
  {
    for k := 0 to n
      invariant buffer[..at] == old(buffer[..at]) && buffer[at..at + k] == page[from..from + k]
      invariant buffer[at + k..] == old(buffer[at + k..])
    {
      ghost var rest := old(buffer[at + k..]);
      buffer[at + k] := page[from + k];
      assert buffer[at..at + k + 1] == page[from..from + k + 1];
      assert buffer[at + k + 1..] == rest[1..] == old(buffer[at + k + 1..]);
    }
    assert buffer[..at + n] == buffer[..at] + buffer[at..at + n];
  }

  /** The bytes copied before block lba is read. */
  function Copied(e: Ent, offset: nat, n: nat, lba: nat): nat {
    if lba <= e.lba + offset / BLOCK then 0
    else
      var upto := (lba - e.lba) * BLOCK - offset;
      if upto > n then n else upto
  }

  lemma CopyStep(e: Ent, offset: nat, n: nat, lba: nat)
    requires 0 < n && e.lba + offset / BLOCK <= lba <= e.lba + (offset + n - 1) / BLOCK
    ensures var c, first := Copied(e, offset, n, lba), lba == e.lba + offset / BLOCK;
            var po := if first then offset % BLOCK else 0;
            var k := if BLOCK - po > n - c then n - c else BLOCK - po;
            && c <= n && Copied(e, offset, n, lba + 1) == c + k && e.lba + (offset + c) / BLOCK == lba
            && (offset + c) % BLOCK == po
  {
  }

  lemma CopyStart(e: Ent, offset: nat, n: nat)
    requires 0 < n
    ensures Copied(e, offset, n, e.lba + offset / BLOCK) == 0 && offset / BLOCK <= (offset + n - 1) / BLOCK
  {
  }

  lemma CopyEnds(e: Ent, offset: nat, n: nat)
    requires 0 < n
    ensures Copied(e, offset, n, e.lba + (offset + n - 1) / BLOCK + 1) == n
  {
  }

  // ---- vfs_read ----------------------------------------------------------------------------------

  class File {
    const disk: Disk
    const ent: Ent
    var offset: nat
    ghost var got: Bytes      // all bytes returned so far, in order

    ghost predicate Valid()
      reads this
    {
      DiskOk(disk) && Placed(ent) && offset <= ent.size && got == Range(disk, ent, 0, offset)
    }

    /** vfs_open: access starts at the beginning. */
    constructor (disk: Disk, ent: Ent)
      requires DiskOk(disk) && Placed(ent)
      ensures Valid() && offset == 0 && got == [] && this.ent == ent && this.disk == disk
    {
      this.disk, this.ent, offset, got := disk, ent, 0, [];
    }

    /**
      vfs_read: the next bytes of the file. What the reads have returned is always the beginning of the
      file, and it is the whole file once a read returns 0. A count of 2^31 or more reads as an error,
      and the bytes copied do not count as returned.
    */
    method Read(ok: Access, buffer: array<Byte>, size: nat) returns (r: int)
      requires Valid() && offset + size < WORD && size <= buffer.Length
      modifies this`offset, this`got, buffer
      ensures Valid()
      ensures r == if size == 0 then -EINVAL else AsInt(Outcome(ok, ent, old(offset), size) % WORD)
      ensures r <= 0 ==> offset == old(offset) && got == old(got)
      ensures r > 0 ==> r <= size && offset == old(offset) + r && got == old(got) + buffer[..r]
      ensures r == 0 <==> size > 0 && got == Range(disk, ent, 0, ent.size) && old(offset) == ent.size
    {
      if size == 0 {
        return -EINVAL;
      }
      OutcomeFits(ok, ent, offset, size);
      AllRead(disk, ent, offset);
      hide Outcome, Placed, DiskOk, Range;
      var count := Fs1Read(disk, ok, ent, buffer, offset, size);
      CountAsInt(count);
      r := AsInt(count % WORD);
      if r < 0 {
        return;
      }
      Advanced(disk, ent, offset, r);
      AllRead(disk, ent, offset + r);
      got := got + buffer[..r];
      offset := offset + r;
    }
  }

  lemma OutcomeFits(ok: Access, e: Ent, offset: nat, size: nat)
    requires Placed(e) && 0 < size && offset + size < WORD && offset <= e.size
    ensures var r := Outcome(ok, e, offset, size);
            && (r == -EIO || (0 <= r <= size && offset + r <= e.size))
            && (r == 0 <==> offset == e.size)
  {
    if offset < e.size {
      ReadOutcome(ok, e, offset, size, if offset + size <= e.size then size else e.size - offset);
      hide Outcome;
    }
  }

  /** A count as an int: itself, or negative. */
  lemma CountAsInt(r: int)
    requires r == -EIO || 0 <= r < WORD
    ensures AsInt(r % WORD) < 0 || AsInt(r % WORD) == r
    ensures AsInt(r % WORD) == 0 <==> r == 0
  {
  }

  lemma AllRead(d: Disk, e: Ent, offset: nat)
    requires DiskOk(d) && offset <= e.size
    ensures Range(d, e, 0, offset) == Range(d, e, 0, e.size) <==> offset == e.size
  {
    assert |Range(d, e, 0, offset)| == offset;
  }

  lemma Advanced(d: Disk, e: Ent, offset: nat, r: nat)
    requires DiskOk(d)
    ensures Range(d, e, 0, offset + r) == Range(d, e, 0, offset) + Range(d, e, offset, offset + r)
  {
    RangeJoin(d, e, 0, offset, offset + r);
  }
}
