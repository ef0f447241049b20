/**
  Where the objects of the kernel slab allocator lie (kernel/kmemkernel.c): pages of 4096
  bytes, each cut into equal slots of a whole number of cache lines.
*/
module SlabGeometry {
  import opened Machine
  import opened Arith

  const PAGE_SIZE := 4096
  const SLABS := 256            // length of the static table Slab[]

  /**
    kmb: first byte of the kernel heap; nbPages: its pages; line: cache line size rounded
    up to 16; roots: address of Slab[0] (8 bytes a root, in the bss, below the heap).
  */
  datatype Config = Config(kmb: int, nbPages: nat, line: nat, roots: int)

  predicate ConfigOk(c: Config) {
    && 16 <= c.line <= PAGE_SIZE && PAGE_SIZE % c.line == 0
    && 0 < c.nbPages
    && 0 < c.roots && c.roots + 8 * SLABS <= c.kmb
    && c.kmb % PAGE_SIZE == 0
    && c.kmb + PAGE_SIZE * c.nbPages <= WORD
  }

  /** MaxLineSlab: the number of size classes; class 0 is the whole page. */
  function Classes(c: Config): nat
    requires c.line > 0
  {
    PAGE_SIZE / c.line
  }

  function Root(c: Config, n: nat): int {
    c.roots + 8 * n
  }

  /** Bytes of an object of class n. */
  function Size(c: Config, n: nat): nat {
    if n == 0 then PAGE_SIZE else n * c.line
  }

  predicate InHeap(c: Config, a: int) {
    c.kmb <= a < c.kmb + PAGE_SIZE * c.nbPages
  }

  function PageOf(c: Config, a: int): int {
    (a - c.kmb) / PAGE_SIZE
  }

  /** The macro PAGE(), with its unsigned 32-bit arithmetic, for any address. */
  function PageIndex(c: Config, a: int): nat
    requires c.nbPages > 0
  {
    (PageOf(c, a) % WORD) % c.nbPages
  }

  function PageAddr(c: Config, p: int): int {
    c.kmb + PAGE_SIZE * p
  }

  function Offset(c: Config, a: int): int {
    (a - c.kmb) % PAGE_SIZE
  }

  /** a is the first byte of one of the slots that its page has when cut for class n. */
  predicate IsSlot(c: Config, a: int, n: nat) {
    Size(c, n) > 0 && Offset(c, a) % Size(c, n) == 0 && Offset(c, a) + Size(c, n) <= PAGE_SIZE
  }

  lemma ClassesFit(c: Config)
    requires ConfigOk(c)
    ensures Classes(c) * c.line == PAGE_SIZE && 1 <= Classes(c) <= SLABS
  {
    DivMono(c.line, PAGE_SIZE, c.line);
    ModOfMultiple(1, c.line);
    MulMono(16, c.line, Classes(c));
  }

  lemma SizeOfClass(c: Config, n: nat)
    requires ConfigOk(c) && n < Classes(c)
    ensures 16 <= Size(c, n) <= PAGE_SIZE
    ensures Size(c, n) == PAGE_SIZE <==> n == 0
  {
    ClassesFit(c);
    MulSign(n, c.line);
    MulMono(n + 1, Classes(c), c.line);
    Distribute(n, 1, c.line);
  }

  /** In the heap the 32-bit page number is the real one. */
  lemma PageIndexInHeap(c: Config, a: int)
    requires ConfigOk(c) && InHeap(c, a)
    ensures PageIndex(c, a) == PageOf(c, a) && 0 <= PageOf(c, a) < c.nbPages
    ensures PageAddr(c, PageOf(c, a)) + Offset(c, a) == a
  {
    var p := PageOf(c, a);
    assert 0 <= p < c.nbPages < WORD;
    DivModUnique(p, WORD, 0, p);
    DivModUnique(p, c.nbPages, 0, p);
  }

  /** Address of slot k of page p for class n. */
  function SlotAddr(c: Config, p: int, n: nat, k: int): int {
    PageAddr(c, p) + k * Size(c, n)
  }

  function SlotCount(c: Config, n: nat): nat
    requires Size(c, n) > 0
  {
    PAGE_SIZE / Size(c, n)
  }

  lemma OffsetInPage(c: Config, p: int, o: int)
    requires 0 <= p < c.nbPages && 0 <= o < PAGE_SIZE
    ensures var a := PageAddr(c, p) + o; InHeap(c, a) && PageOf(c, a) == p && Offset(c, a) == o
  {
  }

  lemma SlotInPage(c: Config, p: int, n: nat, k: nat)
    requires ConfigOk(c) && 0 <= p < c.nbPages && n < Classes(c)
    requires Size(c, n) > 0 && k < SlotCount(c, n)
    ensures var a := SlotAddr(c, p, n, k);
            InHeap(c, a) && PageOf(c, a) == p && Offset(c, a) == k * Size(c, n) && IsSlot(c, a, n)
  {
    var sz := Size(c, n);
    SlotFits(sz, k);
    OffsetInPage(c, p, k * sz);
  }

  lemma SlotFits(sz: nat, k: nat)
    requires sz > 0 && k < PAGE_SIZE / sz
    ensures 0 <= k * sz && k * sz + sz <= PAGE_SIZE && (k * sz) % sz == 0
  {
    MulMono(k + 1, PAGE_SIZE / sz, sz);
    Distribute(k, 1, sz);
    ModOfMultiple(k, sz);
  }

  /** Every slot of a page is one of the enumerated ones. */
  lemma SlotNumber(c: Config, a: int, n: nat) returns (k: nat)
    requires ConfigOk(c) && InHeap(c, a) && n < Classes(c) && IsSlot(c, a, n)
    ensures k < SlotCount(c, n) && a == SlotAddr(c, PageOf(c, a), n, k)
  {
    var sz, off := Size(c, n), Offset(c, a);
    k := off / sz;
    assert off == k * sz;
    Distribute(k, 1, sz);
    DivMono((k + 1) * sz, PAGE_SIZE, sz);
    ModOfMultiple(k + 1, sz);
    PageIndexInHeap(c, a);
  }

  /** Two different slots of one page, cut for one class, do not overlap. */
  lemma SlotsDisjoint(c: Config, a: int, b: int, n: nat)
    requires ConfigOk(c) && InHeap(c, a) && InHeap(c, b) && n < Classes(c)
    requires IsSlot(c, a, n) && IsSlot(c, b, n)
    requires PageOf(c, a) == PageOf(c, b) && a != b
    ensures a + Size(c, n) <= b || b + Size(c, n) <= a
  {
    var i := SlotNumber(c, a, n);
    var j := SlotNumber(c, b, n);
    MultiplesApart(PageAddr(c, PageOf(c, a)), i, j, Size(c, n));
  }

  /** Every slot starts on a cache line. */
  lemma SlotIsLineAligned(c: Config, a: int, n: nat)
    requires ConfigOk(c) && InHeap(c, a) && n < Classes(c) && IsSlot(c, a, n)
    ensures a % c.line == 0
  {
    var k := SlotNumber(c, a, n);
    ClassesFit(c);
    var lines := if n == 0 then Classes(c) else n;
    hide IsSlot, InHeap, Offset;
    MulAssoc(k, lines, c.line);
    PageIsLineAligned(c, PageOf(c, a));
    assert a == PageAddr(c, PageOf(c, a)) + k * lines * c.line;
    ModAddMultiple(PageAddr(c, PageOf(c, a)), k * lines, c.line);
  }

  lemma PageIsLineAligned(c: Config, p: int)
    requires ConfigOk(c)
    ensures PageAddr(c, p) % c.line == 0
  {
    ClassesFit(c);
    var q := c.kmb / PAGE_SIZE + p;
    assert PageAddr(c, p) == q * PAGE_SIZE;
    MulAssoc(q, Classes(c), c.line);
    ModOfMultiple(q * Classes(c), c.line);
  }

  /** A page never holds more than 256 slots, the range of the 8-bit counter nbused. */
  lemma SlotCountBound(c: Config, n: nat)
    requires ConfigOk(c) && n < Classes(c)
    ensures Size(c, n) > 0 && 1 <= SlotCount(c, n) <= 256
  {
    SizeOfClass(c, n);
    var sz := Size(c, n);
    DivMono(sz, PAGE_SIZE, sz);
    ModOfMultiple(1, sz);
    MulMono(16, sz, SlotCount(c, n));
  }

  /** NBLINE: the lines that kmalloc reserves for size bytes. */
  function Lines(c: Config, size: nat): nat
    requires c.line > 0
  {
    (size + c.line - 1) / c.line
  }

  lemma LinesOf(c: Config, size: nat)
    requires ConfigOk(c) && size <= PAGE_SIZE
    ensures size <= Lines(c, size) * c.line <= PAGE_SIZE
    ensures Lines(c, size) * c.line < size + c.line
    ensures Lines(c, size) <= Classes(c)
    ensures Lines(c, size) * c.line == PAGE_SIZE <==> Lines(c, size) == Classes(c)
    ensures Lines(c, size) == Classes(c) <==> PAGE_SIZE - c.line < size
    ensures Lines(c, size) == 0 <==> size == 0
  {
    ClassesFit(c);
    var lines, q := Lines(c, size), Classes(c);
    assert size + c.line - 1 == lines * c.line + (size + c.line - 1) % c.line;
    Distribute(lines, q, c.line);
    MulSign(lines - q, c.line);
    MulSign(lines, c.line);
  }
}
