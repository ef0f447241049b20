/**
  Reading a flattened device tree: the bounds checks and the tag walk of libfdt/fdt.c, and the
  lookups of libfdt/fdt_ro.c.
*/
module FdtReader {
  import opened Machine
  import opened FdtFormat

  /** The structure block lies inside a buffer whose size fits an int; versions before 17 are not modelled. */
  predicate StructSane(h: Header, size: nat) {
    && h.total <= size && h.total <= INT_MAX && h.version >= 17
    && 40 <= h.offStruct && h.offStruct + h.sizeStruct <= h.total
  }

  predicate StringsSane(h: Header, size: nat) {
    h.total <= size && h.total <= INT_MAX && h.offStrings + h.sizeStrings <= h.total
  }

  /** The structure block of the buffer. */
  function Struct(h: Header, b: Bytes): Bytes
    requires StructSane(h, |b|)
  {
    b[h.offStruct..h.offStruct + h.sizeStruct]
  }

  /** The strings block of the buffer. */
  function Strings(h: Header, b: Bytes): Bytes
    requires StringsSane(h, |b|)
  {
    b[h.offStrings..h.offStrings + h.sizeStrings]
  }

  ghost function StructOf(f: Buffer): (s: Bytes)
    requires StructSane(f.h, f.mem.Length)
    reads f, f.mem
    ensures |s| == f.h.sizeStruct
  {
    Struct(f.h, f.mem[..])
  }

  ghost function StringsOf(f: Buffer): (t: Bytes)
    requires StringsSane(f.h, f.mem.Length)
    reads f, f.mem
    ensures |t| == f.h.sizeStrings
  {
    Strings(f.h, f.mem[..])
  }

  /**
    fdt_offset_ptr: is [offset, offset + len) inside the blob and, from version 17 on, inside the
    structure block? The sums of the code may wrap; the answer is that of the sums that do not.
  */
  method OffsetPtr(f: Buffer, offset: int, len: nat) returns (ok: bool)
    requires f.h.offStruct < WORD && f.h.sizeStruct < WORD && f.h.total < WORD
    requires -INT_MAX - 1 <= offset <= INT_MAX && len < WORD
    ensures ok <==>
            && 0 <= offset && f.h.offStruct + offset + len <= f.h.total
            && (f.h.version >= 17 ==> offset + len <= f.h.sizeStruct)
  {
    if offset < 0 {
      return false;
    }
    var uoffset := offset % WORD;
    var absoffset := (offset + f.h.offStruct) % WORD;
    if absoffset < uoffset || (absoffset + len) % WORD < absoffset || (absoffset + len) % WORD > f.h.total {
      return false;
    }
    if f.h.version >= 17 {
      if (uoffset + len) % WORD < uoffset || (offset + len) % WORD > f.h.sizeStruct {
        return false;
      }
    }
    return true;
  }

  /** fdt32_to_cpu of the word at offset of the structure block. */
  method StructWord(f: Buffer, offset: nat) returns (v: nat)
    requires StructSane(f.h, f.mem.Length) && offset + 4 <= f.h.sizeStruct
    ensures v == Be32(StructOf(f), offset) < WORD
  {
    var p := f.h.offStruct + offset;
    v := (f.mem[p] as int) * 0x100_0000 + (f.mem[p + 1] as int) * 0x1_0000 + (f.mem[p + 2] as int) * 0x100
    + f.mem[p + 3] as int;
  }

  lemma ZeroFromSuffix(s: Bytes, start: nat, z: nat)
    requires start + 4 <= z <= |s|
    requires forall i :: start + 4 <= i < z ==> s[i] != 0
    requires z < |s| ==> s[z] == 0
    ensures ZeroFrom(s[start..], 4) == z - start
  {
    if z < |s| {
      ZeroFromUnique(s[start..], 4, z - start);
    }
  }

  /** The do-while loop of fdt_next_tag that skips a node name: the offset past its 0, if there is one. */
  method SkipName(f: Buffer, start: nat) returns (found: bool, offset: nat)
    requires StructSane(f.h, f.mem.Length) && start + 4 <= f.h.sizeStruct
    ensures var s := StructOf(f);
            var z := ZeroFrom(s[start..], 4);
            if found then z < |s| - start && offset == start + z + 1 else z == |s| - start
  {
    ghost var s := StructOf(f);
    offset := start + 4;
    while true
      invariant start + 4 <= offset <= f.h.sizeStruct
      invariant forall i :: start + 4 <= i < offset ==> s[i] != 0
      decreases f.h.sizeStruct - offset
    {
      var ok := OffsetPtr(f, offset, 1);
      offset := offset + 1;
      if !ok {
        ZeroFromSuffix(s, start, offset - 1);
        return false, offset;
      }
      if f.mem[f.h.offStruct + offset - 1] == 0 {
        ZeroFromSuffix(s, start, offset - 1);
        return true, offset;
      }
    }
  }

  /** The FDT_PROP case of fdt_next_tag: the offset past the value, if its length is plausible. */
  method SkipProp(f: Buffer, start: nat) returns (found: bool, offset: nat)
    requires StructSane(f.h, f.mem.Length) && start + 4 <= f.h.sizeStruct
    ensures var s := StructOf(f);
            found ==> start + 8 <= |s| && offset == start + 12 + Be32(s, start + 4) < WORD
    ensures var s := StructOf(f);
            !found ==> start + 12 > |s| || start + 12 + Be32(s, start + 4) > |s|
  {
    var ok := OffsetPtr(f, start + 4, 4);
    if !ok {
      return false, 0;
    }
    var len := StructWord(f, start + 4);
    var sum := (len + start + 4) % WORD;
    if INT_MAX <= sum || sum < start + 4 {
      return false, 0;
    }
    return true, start + 12 + len;
  }

  lemma ErrorIsNegative(s: Bytes, off: nat)
    ensures Next(s, off).Bad? ==> Next(s, off).err > 0
  {
  }

  lemma NextTruncated(s: Bytes, start: nat)
    requires start + 4 > |s|
    ensures Next(s, start) == Bad(TRUNCATED)
  {
  }

  /** The token at start, by its tag word. */
  lemma NextByTag(s: Bytes, start: nat)
    requires start + 4 <= |s|
    ensures var tag, z := Be32(s, start), ZeroFrom(s[start..], 4);
            var r := Next(s, start);
            if tag == TAG_BEGIN then
              if start + z == |s| then r == Bad(BADSTRUCTURE)
              else r.Step? && r.tok.Begin? && r.next == Align(start + z + 1)
            else if tag == TAG_PROP then
              if start + 12 > |s| || start + 12 + Be32(s, start + 4) > |s| then r == Bad(BADSTRUCTURE)
              else r.Step? && r.tok.Prop? && r.next == Align(start + 12 + Be32(s, start + 4))
            else if tag == TAG_END || tag == TAG_END_NODE || tag == TAG_NOP then
              r.Step? && TagOf(r.tok) == tag && r.next == Align(start + 4)
            else r == Bad(BADSTRUCTURE)
  {
    var w := s[start..];
    assert Be32(w, 0) == Be32(s, start);
    if start + 12 <= |s| {
      assert Be32(w, 4) == Be32(s, start + 4);
    }
  }

  /** The switch of fdt_next_tag: where the token that starts at start ends, padding apart. */
  method TokenEnd(f: Buffer, start: nat, tag: nat) returns (found: bool, offset: nat)
    requires StructSane(f.h, f.mem.Length) && start + 4 <= f.h.sizeStruct && tag == Be32(StructOf(f), start)
    ensures found && offset <= f.h.sizeStruct ==>
              && Next(StructOf(f), start).Step? && TagOf(Next(StructOf(f), start).tok) == tag
              && Next(StructOf(f), start).next == Align(offset)
    ensures found ==> start + 4 <= offset < WORD
    ensures !found || offset > f.h.sizeStruct ==> Next(StructOf(f), start) == Bad(BADSTRUCTURE)
  {
    NextByTag(StructOf(f), start);
    hide *;
    if tag == TAG_BEGIN {
      found, offset := SkipName(f, start);
    } else if tag == TAG_PROP {
      found, offset := SkipProp(f, start);
    } else {
      found, offset := tag == TAG_END || tag == TAG_END_NODE || tag == TAG_NOP, start + 4;
    }
  }

  /** fdt_next_tag reads the token at the offset, or reports END with a negative next offset. */
  method NextTag(f: Buffer, start: int) returns (tag: nat, next: int)
    requires StructSane(f.h, f.mem.Length) && -INT_MAX - 1 <= start <= INT_MAX
    ensures start < 0 ==> tag == TAG_END && next == -TRUNCATED
    ensures start >= 0 ==>
              match Next(StructOf(f), start)
              case Bad(e) => tag == TAG_END && next == 0 - e < 0
              case Step(t, n) => tag == TagOf(t) && next == n
  {
    hide Next, Be32, Align, StructOf;
    var ok := OffsetPtr(f, start, 4);
    if !ok {
      if start >= 0 {
        NextTruncated(StructOf(f), start);
      }
      return TAG_END, -TRUNCATED;
    }
    tag := StructWord(f, start);
    var found, offset := TokenEnd(f, start, tag);
    if !found {
      return TAG_END, -BADSTRUCTURE;
    }
    ok := OffsetPtr(f, start, offset - start);
    if !ok {
      return TAG_END, -BADSTRUCTURE;
    }
    next := Align(offset);
  }

  // ---- Strings and reservations ------------------------------------------------------------------

  /** fdt_ro_probe_: the total size of a tree that can be read, or a negative error. */
  function RoProbe(h: Header, addr: nat): int {
    if addr % 8 != 0 then -ALIGNMENT
    else if h.magic == FDT_MAGIC && (h.version < 2 || h.lastComp > 17) then -BADVERSION
    else if h.magic == SW_MAGIC && h.sizeStruct == 0 then -BADSTATE
    else if h.magic != FDT_MAGIC && h.magic != SW_MAGIC then -BADMAGIC
    else if h.total < INT_MAX then h.total else -TRUNCATED
  }

  /** A finished tree whose blocks can be read. */
  predicate Readable(h: Header, addr: nat, size: nat) {
    && h.magic == FDT_MAGIC && RoProbe(h, addr) >= 0
    && StructSane(h, size) && StringsSane(h, size)
  }

  /** The error of fdt_get_string for an offset that names no string. */
  function StringError(t: Bytes, o: int): int {
    if 0 <= o < |t| then -TRUNCATED else -BADOFFSET
  }

  /** Where names can be looked up: in a finished tree, or at the end of a buffer that is being written. */
  predicate NamesSane(h: Header, size: nat) {
    if h.magic == FDT_MAGIC then h.version >= 17 && StringsSane(h, size)
    else h.offStrings == h.total && h.sizeStrings <= h.total <= size && h.total <= INT_MAX
  }

  function NamesStart(h: Header): int {
    if h.magic == FDT_MAGIC then h.offStrings else h.total - h.sizeStrings
  }

  /** The bytes in which names are looked up. */
  function Names(h: Header, b: Bytes): (t: Bytes)
    requires NamesSane(h, |b|)
    ensures |t| == h.sizeStrings
  {
    b[NamesStart(h)..NamesStart(h) + h.sizeStrings]
  }

  /** A name offset counts from the start of the names, or back from their end while they are being written. */
  function NamePlace(h: Header, stroffset: int): int {
    if h.magic == FDT_MAGIC then stroffset
    else if stroffset < 0 then h.sizeStrings + stroffset else -1
  }

  /** What fdt_get_string finds. */
  ghost function NameAt(f: Buffer, stroffset: int): Option<Bytes>
    requires NamesSane(f.h, f.mem.Length)
    reads f, f.mem
  {
    var o := NamePlace(f.h, stroffset);
    if o < 0 then None else StrAt(Names(f.h, f.mem[..]), o)
  }

  /** fdt_get_string: the string at the offset, or a negative error. */
  method GetString(f: Buffer, stroffset: int) returns (r: Option<Bytes>, err: int)
    requires RoProbe(f.h, f.addr) >= 0 ==> NamesSane(f.h, f.mem.Length)
    requires -INT_MAX - 1 <= stroffset <= INT_MAX
    ensures RoProbe(f.h, f.addr) < 0 ==> r == None && err == RoProbe(f.h, f.addr)
    ensures RoProbe(f.h, f.addr) >= 0 ==>
              && r == NameAt(f, stroffset)
              && (r == None ==> err == StringError(Names(f.h, f.mem[..]), NamePlace(f.h, stroffset)))
  {
    if RoProbe(f.h, f.addr) < 0 {
      return None, RoProbe(f.h, f.addr);
    }
    var ok, absoffset, len := NameWindow(f.h, f.mem.Length, stroffset);
    hide RoProbe, NamesSane, StrAt;
    if !ok {
      return None, -BADOFFSET;
    }
    var n := FindNul(f, absoffset, len);
    WindowName(f.h, f.mem[..], NamePlace(f.h, stroffset), absoffset, n);
    if n == len {
      return None, -TRUNCATED;
    }
    return Some(f.mem[absoffset..absoffset + n]), 0;
  }

  /** An int or a sum converted to an unsigned word. */
  function Wrap(x: int): (r: nat)
    ensures r < WORD
  {
    x % WORD
  }

  lemma WrapIs(x: int)
    requires 0 - WORD <= x < WORD
    ensures Wrap(x) == if x >= 0 then x else x + WORD
  {
  }

  function Min(a: nat, b: nat): nat {
    if b < a then b else a
  }

  /** The offset tests of fdt_get_string: the bytes among which the string must end. */
  method NameWindow(h: Header, ghost size: nat, stroffset: int) returns (ok: bool, absoffset: nat, len: nat)
    requires NamesSane(h, size) && (h.magic == FDT_MAGIC || h.magic == SW_MAGIC)
    requires -INT_MAX - 1 <= stroffset <= INT_MAX
    ensures ok <==> 0 <= NamePlace(h, stroffset) < h.sizeStrings
    ensures ok ==>
            absoffset == NamesStart(h) + NamePlace(h, stroffset) && len == h.sizeStrings - NamePlace(h, stroffset)
    ensures NamesStart(h) + h.sizeStrings <= size
  {
    WrapIs(stroffset + h.offStrings);
    WrapIs(0 - stroffset);
    hide Wrap;
    absoffset, len := Wrap(stroffset + h.offStrings), 0;
    if absoffset >= h.total {
      return false, absoffset, len;
    }
    len := h.total - absoffset;
    if h.magic == FDT_MAGIC {
      if stroffset < 0 || stroffset >= h.sizeStrings {
        return false, absoffset, len;
      }
      len := Min(len, h.sizeStrings - stroffset);
    } else {
      var swOffset := Wrap(0 - stroffset);
      if stroffset >= 0 || swOffset > h.sizeStrings {
        return false, absoffset, len;
      }
      len := Min(len, swOffset);
    }
    ok := true;
  }

  lemma WindowName(h: Header, b: Bytes, o: nat, absoffset: nat, n: nat)
    requires NamesSane(h, |b|) && o < h.sizeStrings && absoffset == NamesStart(h) + o && o + n <= h.sizeStrings
    requires NamesStart(h) + h.sizeStrings <= |b|
    requires forall i :: absoffset <= i < absoffset + n ==> b[i] != 0
    requires o + n < h.sizeStrings ==> b[absoffset + n] == 0
    ensures StrAt(Names(h, b), o) == if o + n == h.sizeStrings then None else Some(b[absoffset..absoffset + n])
  {
    ZeroFromWindow(b, NamesStart(h), h.sizeStrings, o, n);
  }

  /** memchr for the byte 0: its distance, or len. */
  method FindNul(f: Buffer, from: nat, len: nat) returns (n: nat)
    requires from + len <= f.mem.Length
    ensures n <= len && (n < len ==> f.mem[from + n] == 0)
    ensures forall i :: from <= i < from + n ==> f.mem[i] != 0
  {
    n := 0;
    while n < len && f.mem[from + n] != 0
      invariant 0 <= n <= len
      invariant forall i :: from <= i < from + n ==> f.mem[i] != 0
    {
      n := n + 1;
    }
  }

  /** The first 0 of a block, found in the buffer that holds the block. */
  lemma ZeroFromWindow(b: Bytes, base: nat, size: nat, o: nat, n: nat)
    requires base + size <= |b| && o + n <= size
    requires forall i :: base + o <= i < base + o + n ==> b[i] != 0
    requires o + n < size ==> b[base + o + n] == 0
    ensures var t := b[base..base + size]; ZeroFrom(t, o) == o + n && t[o..o + n] == b[base + o..base + o + n]
  {
    var t := b[base..base + size];
    SliceOfSlice(b, base, base + size, o, o + n);
    forall i | o <= i < o + n
      ensures t[i] != 0
    {
      assert t[i] == b[base + i];
    }
    if o + n < size {
      ZeroFromUnique(t, o, o + n);
    }
  }

  /** Entry k of the memory reservation block lies in the buffer and has size 0. */
  ghost predicate RsvEndsAt(h: Header, b: Bytes, k: nat)
    requires h.total <= |b|
  {
    && h.offRsv + 16 * k + 16 <= h.total
    && forall i :: h.offRsv + 16 * k + 8 <= i < h.offRsv + 16 * k + 16 ==> b[i] == 0
  }

  /** A memory reservation. */
  datatype Rsv = Rsv(address: nat, size: nat)

  /** Entry k of the reservation block that starts at `start`. */
  function RsvAt(b: Bytes, start: nat, k: nat): Rsv
    requires start + 16 * k + 16 <= |b|
  {
    Rsv(Be64(b, start + 16 * k), Be64(b, start + 16 * k + 8))
  }

  /** The terminator is the entry of size 0. */
  lemma TerminatorHasSizeZero(h: Header, b: Bytes, k: nat)
    requires h.total <= |b|
    ensures RsvEndsAt(h, b, k) <==> h.offRsv + 16 * k + 16 <= h.total && RsvAt(b, h.offRsv, k).size == 0
  {
  }

  /** fdt_get_mem_rsv: any int is taken for an entry, and counts modulo 2^28. */
  method GetMemRsv(f: Buffer, n: int) returns (r: int, e: Option<Rsv>)
    requires RoProbe(f.h, f.addr) >= 0 ==> 16 <= f.h.total <= f.mem.Length
    requires f.h.offRsv < WORD && f.h.total < WORD && -INT_MAX - 1 <= n <= INT_MAX
    ensures r == if RoProbe(f.h, f.addr) < 0 then RoProbe(f.h, f.addr)
                 else if f.h.offRsv + 16 * (n % 0x1000_0000) + 16 <= f.h.total then 0 else -BADOFFSET
    ensures r != 0 ==> e == None
    ensures r == 0 ==>
              && f.h.offRsv + 16 * (n % 0x1000_0000) + 16 <= f.mem.Length
              && e == Some(RsvAt(f.mem[..], f.h.offRsv, n % 0x1000_0000))
  {
    if RoProbe(f.h, f.addr) < 0 {
      return RoProbe(f.h, f.addr), None;
    }
    var offset := (n % WORD) * 16 % WORD;
    var absoffset := (f.h.offRsv + offset) % WORD;
    EntryOffset(n, f.h.offRsv);
    if absoffset < f.h.offRsv || absoffset > (f.h.total - 16) % WORD {
      return -BADOFFSET, None;
    }
    var entry := f.mem[absoffset..absoffset + 16];
    var k := n % 0x1000_0000;
    WindowEntry(f.mem[..], f.h.offRsv, k);
    return 0, Some(Rsv(Be64(entry, 0), Be64(entry, 8)));
  }

  lemma EntryOffset(n: int, start: nat)
    requires start < WORD
    ensures (n % WORD) * 16 % WORD == 16 * (n % 0x1000_0000)
    ensures var o := 16 * (n % 0x1000_0000);
            (start + o) % WORD == if start + o < WORD then start + o else start + o - WORD
  {
  }

  lemma WindowEntry(b: Bytes, start: nat, k: nat)
    requires start + 16 * k + 16 <= |b|
    ensures var e := b[start + 16 * k..start + 16 * k + 16];
            RsvAt(b, start, k) == Rsv(Be64(e, 0), Be64(e, 8))
  {
  }

  /** fdt_num_mem_rsv: the number of entries before the terminator. */
  method NumMemRsv(f: Buffer) returns (r: int)
    requires 16 <= f.h.total <= f.mem.Length && f.h.total <= INT_MAX
    ensures r >= 0 ==> RsvEndsAt(f.h, f.mem[..], r) && forall k :: 0 <= k < r ==> !RsvEndsAt(f.h, f.mem[..], k)
    ensures r < 0 ==> r == -TRUNCATED && forall k :: 0 <= k ==> !RsvEndsAt(f.h, f.mem[..], k)
  {
    var i := 0;
    while f.h.offRsv + 16 * i <= f.h.total - 16
      invariant 0 <= i && forall k :: 0 <= k < i ==> !RsvEndsAt(f.h, f.mem[..], k)
      decreases f.h.total - 16 * i
    {
      var p := f.h.offRsv + 16 * i + 8;
      if f.mem[p] == 0 && f.mem[p + 1] == 0 && f.mem[p + 2] == 0 && f.mem[p + 3] == 0
         && f.mem[p + 4] == 0 && f.mem[p + 5] == 0 && f.mem[p + 6] == 0 && f.mem[p + 7] == 0 {
        return i;
      }
      i := i + 1;
    }
    return -TRUNCATED;
  }

  // ---- Reading the whole tree --------------------------------------------------------------------

  /** What a client reads: node names, properties with their resolved names, and structure. */
  datatype Item = Node(name: Bytes) | Close | Property(prop: Option<Bytes>, val: Bytes) | Filler

  function ItemOf(t: Bytes, x: Token): Item
    requires !x.End?
  {
    match x
    case Begin(name) => Node(name)
    case EndNode => Close
    case Prop(o, val) => Property(StrAt(t, o), val)
    case Nop => Filler
  }

  /** The tokens of a walk with their names looked up. */
  ghost function Items(t: Bytes, ts: seq<Token>): (r: seq<Item>)
    requires forall i :: 0 <= i < |ts| ==> !ts[i].End?
    ensures |r| == |ts| && forall i :: 0 <= i < |ts| ==> r[i] == ItemOf(t, ts[i])
  {
    seq(|ts|, i requires 0 <= i < |ts| => ItemOf(t, ts[i]))
  }

  lemma {:induction false} WalkHasNoEnd(s: Bytes, off: nat, ts: seq<Token>, end: nat)
    requires Walk(s, off, ts, end)
    ensures forall i :: 0 <= i < |ts| ==> !ts[i].End?
    decreases |ts|
  {
    if ts != [] {
      WalkHasNoEnd(s, Next(s, off).next, ts[1..], end);
      assert forall i :: 1 <= i < |ts| ==> ts[i] == ts[1..][i - 1];
    }
  }

  /** The token of a step, cell by cell, as the readers extract it. */
  lemma TokenCells(s: Bytes, off: nat)
    requires Next(s, off).Step?
    ensures var t := Next(s, off).tok;
            && (t.Begin? ==> off + 4 <= off + ZeroFrom(s[off..], 4) <= |s|
                             && t.name == s[off + 4..off + ZeroFrom(s[off..], 4)])
            && (t.Prop? ==> off + 12 + Be32(s, off + 4) <= |s|
                            && t.nameoff == Be32(s, off + 8) && t.val == s[off + 12..off + 12 + Be32(s, off + 4)])
  {
    var w := s[off..];
    if Next(s, off).tok.Begin? {
      assert w[4..ZeroFrom(w, 4)] == s[off + 4..off + ZeroFrom(w, 4)];
    }
    if Next(s, off).tok.Prop? {
      assert Be32(w, 4) == Be32(s, off + 4) && Be32(w, 8) == Be32(s, off + 8);
      assert w[12..12 + Be32(w, 4)] == s[off + 12..off + 12 + Be32(w, 4)];
    }
  }

  /** The bytes [from, to) of the structure block. */
  method StructBytes(f: Buffer, from: nat, to: nat) returns (r: Bytes)
    requires StructSane(f.h, f.mem.Length) && from <= to <= f.h.sizeStruct
    ensures r == StructOf(f)[from..to]
  {
    SliceOfSlice(f.mem[..], f.h.offStruct, f.h.offStruct + f.h.sizeStruct, from, to);
    r := f.mem[f.h.offStruct + from..f.h.offStruct + to];
  }

  /** fdt_getprop_by_offset: value and name of the property at the offset. */
  method ReadProperty(f: Buffer, offset: nat) returns (x: Item)
    requires Readable(f.h, f.addr, f.mem.Length)
    requires Next(StructOf(f), offset).Step? && Next(StructOf(f), offset).tok.Prop?
    ensures x == ItemOf(StringsOf(f), Next(StructOf(f), offset).tok)
  {
    TokenCells(StructOf(f), offset);
    hide Next, Be32, ZeroFrom, StructOf, StringsOf, StrAt, NamesSane, RoProbe;
    var len := StructWord(f, offset + 4);
    var nameoff := StructWord(f, offset + 8);
    var val := StructBytes(f, offset + 12, offset + 12 + len);
    var name := NameOf(f, nameoff);
    return Property(name, val);
  }

  /** The name of a property of a finished tree; the offset is passed on as an int. */
  method NameOf(f: Buffer, nameoff: nat) returns (name: Option<Bytes>)
    requires Readable(f.h, f.addr, f.mem.Length) && nameoff < WORD
    ensures name == StrAt(StringsOf(f), nameoff)
  {
    FinishedName(f, nameoff);
    hide StrAt, NameAt, NamesSane, RoProbe, StringError, StringsOf;
    var err;
    name, err := GetString(f, AsInt(nameoff));
  }

  /** Name offsets of a finished tree, passed on as ints. */
  lemma FinishedName(f: Buffer, nameoff: nat)
    requires Readable(f.h, f.addr, f.mem.Length) && nameoff < WORD
    ensures RoProbe(f.h, f.addr) >= 0 && NamesSane(f.h, f.mem.Length)
    ensures NameAt(f, AsInt(nameoff)) == StrAt(StringsOf(f), nameoff)
    ensures StringError(Names(f.h, f.mem[..]), NamePlace(f.h, AsInt(nameoff))) == StringError(StringsOf(f), nameoff)
  {
    hide ZeroFrom;
  }

  /** fdt_get_name, or fdt_getprop_by_offset, of the token at the offset. */
  method ReadItem(f: Buffer, offset: nat, tag: nat) returns (x: Item)
    requires Readable(f.h, f.addr, f.mem.Length)
    requires Next(StructOf(f), offset).Step? && tag == TagOf(Next(StructOf(f), offset).tok) != TAG_END
    ensures x == ItemOf(StringsOf(f), Next(StructOf(f), offset).tok)
  {
    TokenCells(StructOf(f), offset);
    hide Next, Be32, ZeroFrom, StructOf, StringsOf;
    if tag == TAG_BEGIN {
      var found, o := SkipName(f, offset);
      var name := StructBytes(f, offset + 4, o - 1);
      return Node(name);
    } else if tag == TAG_PROP {
      x := ReadProperty(f, offset);
      return;
    } else if tag == TAG_END_NODE {
      return Close;
    }
    return Filler;
  }

  /** Where a walk of the tokens ts stands after i of them. */
  lemma WalkFrom(s: Bytes, offset: nat, ts: seq<Token>, i: nat, end: nat)
    requires i <= |ts| && Walk(s, offset, ts[i..], end) && Next(s, end).Step? && Next(s, end).tok == End
    ensures Next(s, offset).Step? && offset <= end <= |s|
    ensures Next(s, offset).tok == End <==> i == |ts|
    ensures i < |ts| ==> Next(s, offset).tok == ts[i] && Walk(s, Next(s, offset).next, ts[i + 1..], end)
  {
    hide Next;
    WalkBounds(s, offset, ts[i..], end);
    if i < |ts| {
      assert ts[i..][1..] == ts[i + 1..];
    }
  }

  /** Walking a finished tree with fdt_next_tag from offset 0 to END. */
  method ReadAll(f: Buffer, ghost ts: seq<Token>, ghost end: nat) returns (items: seq<Item>)
    requires Readable(f.h, f.addr, f.mem.Length) && Tree(StructOf(f), ts, end)
    requires forall i :: 0 <= i < |ts| ==> !ts[i].End?
    ensures items == Items(StringsOf(f), ts)
  {
    hide Next, StructOf, StringsOf, Walk, Be32, Items;
    items := [];
    ghost var all := Items(StringsOf(f), ts);
    ghost var i: nat := 0;
    var offset: nat := 0;
    assert ts[0..] == ts;
    WalkFrom(StructOf(f), 0, ts, 0, end);
    var tag, next := NextTag(f, 0);
    while tag != TAG_END
      invariant 0 <= i <= |ts| && items == all[..i]
      invariant Walk(StructOf(f), offset, ts[i..], end) && offset <= end <= |StructOf(f)|
      invariant Next(StructOf(f), offset).Step? && next == Next(StructOf(f), offset).next
      invariant tag == TagOf(Next(StructOf(f), offset).tok)
      decreases |ts| - i
    {
      WalkFrom(StructOf(f), offset, ts, i, end);
      var x := ReadItem(f, offset, tag);
      items := items + [x];
      offset, i := next, i + 1;
      WalkFrom(StructOf(f), offset, ts, i, end);
      tag, next := NextTag(f, offset);
    }
    WalkFrom(StructOf(f), offset, ts, i, end);
  }
}
