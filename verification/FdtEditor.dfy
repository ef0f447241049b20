/**
  The read-write editor of libfdt/fdt_rw.c: bytes are spliced into the structure block with
  memmove, names are appended to the strings block, and header sizes and offsets follow.
*/
module FdtEditor {
  import opened Machine
  import opened FdtFormat
  import opened FdtReader
  import opened FdtCheck
  import opened FdtWriter
  import opened FdtProps

  // ---- The blocks of an editable tree ------------------------------------------------------------

  /** fdt_rw_probe_, whose sums are unsigned 32-bit ones. */
  function RwProbe(h: Header, addr: nat): int {
    if RoProbe(h, addr) < 0 then RoProbe(h, addr)
    else if h.version < 17 then -BADVERSION
    else if h.offRsv < HEADER_SIZE || h.offStruct < (h.offRsv + 16) % WORD
            || h.offStrings < (h.offStruct + h.sizeStruct) % WORD
            || h.total < (h.offStrings + h.sizeStrings) % WORD then -BADLAYOUT
    else 0
  }

  /**
    fdt_rw_probe_ on a header that fdt_check_header accepts: the tree can be edited exactly if room for a
    terminator follows the start of the reservations, and the structure block ends before the strings.
  */
  lemma RwProbeExact(h: Header, addr: nat)
    requires HeaderWords(h) && CheckHeader(h, addr) == 0 && h.total < INT_MAX
    ensures RwProbe(h, addr) == if h.version < 17 then -BADVERSION
                                else if h.offRsv + 16 <= h.offStruct
                                  && h.offStruct + h.sizeStruct <= h.offStrings then 0
                                else -BADLAYOUT
  {
    CheckedIsReadable(h, addr);
  }

  /** A tree with the reservations right behind the header of 40 bytes can be edited. */
  lemma ReservationsBehindHeader()
    ensures RwProbe(Header(0xD00D_FEED, 200, 56, 120, 40, 17, 16, 10, 64), 0) == 0
  {
  }

  /** Any other header: what the reader refuses, an older version, and blocks that are not in order. */
  lemma RwProbeErrors(h: Header, addr: nat)
    requires HeaderWords(h)
    ensures RoProbe(h, addr) < 0 ==> RwProbe(h, addr) == RoProbe(h, addr)
    ensures RoProbe(h, addr) >= 0 ==> (RwProbe(h, addr) == -BADVERSION <==> h.version < 17)
    ensures RoProbe(h, addr) >= 0 && h.version >= 17 ==> RwProbe(h, addr) == 0 || RwProbe(h, addr) == -BADLAYOUT
    ensures h.offRsv + 16 < WORD && h.offStruct + h.sizeStruct < WORD && h.offStrings + h.sizeStrings < WORD ==>
              (RwProbe(h, addr) == 0 <==>
                && RoProbe(h, addr) >= 0 && h.version >= 17 && 40 <= h.offRsv && h.offRsv + 16 <= h.offStruct
                && h.offStruct + h.sizeStruct <= h.offStrings && h.offStrings + h.sizeStrings <= h.total)
  {
  }

  /** The structure block comes before the strings block, and both lie in the buffer. */
  predicate Blocks(h: Header, size: nat) {
    StructSane(h, size) && StringsSane(h, size) && h.offStruct + h.sizeStruct <= h.offStrings
  }

  /** A finished tree that can be edited. */
  ghost predicate Editable(f: Buffer, ts: seq<Token>, end: nat)
    reads f, f.mem
  {
    Blocks(f.h, f.mem.Length) && TreeIn(f, ts, end)
  }

  /** fdt_splice_: the bytes behind the splice point move so that oldlen bytes become newlen. */
  method Splice(f: Buffer, p: nat, oldlen: nat, newlen: nat) returns (r: int)
    requires f.h.offStrings + f.h.sizeStrings <= f.h.total <= f.mem.Length && f.h.total <= INT_MAX
    requires p <= INT_MAX && oldlen <= INT_MAX && newlen <= INT_MAX
    modifies f.mem
    ensures var dsize := f.h.offStrings + f.h.sizeStrings;
            && (r == if p + oldlen > dsize then -BADOFFSET else if dsize - oldlen + newlen > f.h.total then -NOSPACE
                 else 0)
            && f.mem[..] == if r == 0 then Patch(old(f.mem[..]), p + newlen, old(f.mem[..])[p + oldlen..dsize])
                            else old(f.mem[..])
  {
    hide Patch;
    var dsize := f.h.offStrings + f.h.sizeStrings;
    if (p + oldlen) % WORD < p || (p + oldlen) % WORD > dsize {
      return -BADOFFSET;
    }
    if (dsize + newlen) % WORD < oldlen {
      return -BADOFFSET;
    }
    if (dsize - oldlen + newlen) % WORD > f.h.total {
      return -NOSPACE;
    }
    MoveBytes(f, p + newlen, p + oldlen, dsize - (p + oldlen));
    return 0;
  }

  /** s' is s with the oldlen bytes at o replaced by newlen others. */
  ghost predicate SplicedAt(s: Bytes, s': Bytes, o: nat, oldlen: nat, newlen: nat) {
    && o + oldlen <= |s| && |s'| == |s| - oldlen + newlen
    && s'[..o] == s[..o] && s'[o + newlen..] == s[o + oldlen..]
  }

  /** A window of the bytes that a memmove carried from q to q'. */
  lemma MovedWindow(b: Bytes, q: nat, top: nat, q': nat, lo: nat, hi: nat)
    requires q <= lo <= hi <= top <= |b| && q' + (top - q) <= |b|
    ensures Patch(b, q', b[q..top])[q' + (lo - q)..q' + (hi - q)] == b[lo..hi]
  {
    var x := b[q..top];
    var b' := Patch(b, q', x);
    assert b'[q'..q' + |x|] == x;
    hide Patch;
    SliceOfSlice(b', q', q' + |x|, lo - q, hi - q);
    SliceOfSlice(b, q, top, lo - q, hi - q);
  }

  /** A block that starts before the splice point and ends behind it. */
  lemma BlockSpliced(b: Bytes, b': Bytes, lo: nat, hi: nat, o: nat, oldlen: nat, newlen: nat)
    requires lo <= hi <= |b| && o + oldlen <= hi - lo && hi - oldlen + newlen <= |b'|
    requires b'[lo..lo + o] == b[lo..lo + o]
    requires b'[lo + o + newlen..hi - oldlen + newlen] == b[lo + o + oldlen..hi]
    ensures SplicedAt(b[lo..hi], b'[lo..hi - oldlen + newlen], o, oldlen, newlen)
  {
    var hi' := hi - oldlen + newlen;
    SliceOfSlice(b', lo, hi', 0, o);
    SliceOfSlice(b, lo, hi, 0, o);
    SliceOfSlice(b', lo, hi', o + newlen, hi' - lo);
    SliceOfSlice(b, lo, hi, o + oldlen, hi - lo);
  }

  /** The blocks after the bytes behind a place in the structure block have moved. */
  lemma BlocksSpliced(h: Header, b: Bytes, h': Header, o: nat, oldlen: nat, newlen: nat)
    requires Blocks(h, |b|) && o + oldlen <= h.sizeStruct
    requires h.offStrings + h.sizeStrings - oldlen + newlen <= h.total
    requires h' == h.(sizeStruct := h.sizeStruct - oldlen + newlen, offStrings := h.offStrings - oldlen + newlen)
    ensures var p := h.offStruct + o;
            var b' := Patch(b, p + newlen, b[p + oldlen..h.offStrings + h.sizeStrings]);
            && Blocks(h', |b'|) && SplicedAt(Struct(h, b), Struct(h', b'), o, oldlen, newlen)
            && Strings(h', b') == Strings(h, b) && b'[0..h.offStruct] == b[0..h.offStruct]
  {
    hide SplicedAt, Patch;
    var p, top := h.offStruct + o, h.offStrings + h.sizeStrings;
    var x := b[p + oldlen..top];
    var b' := Patch(b, p + newlen, x);
    PatchWindow(b, p + newlen, x, h.offStruct, p);
    PatchWindow(b, p + newlen, x, 0, h.offStruct);
    MovedWindow(b, p + oldlen, top, p + newlen, p + oldlen, h.offStruct + h.sizeStruct);
    MovedWindow(b, p + oldlen, top, p + newlen, h.offStrings, top);
    BlockSpliced(b, b', h.offStruct, h.offStruct + h.sizeStruct, o, oldlen, newlen);
  }

  /** fdt_splice_struct_ */
  method SpliceStruct(f: Buffer, o: nat, oldlen: nat, newlen: nat) returns (r: int)
    requires Blocks(f.h, f.mem.Length) && o + oldlen <= f.h.sizeStruct && newlen <= INT_MAX
    modifies f, f.mem
    ensures r == if old(f.h.offStrings + f.h.sizeStrings) - oldlen + newlen > old(f.h.total) then -NOSPACE else 0
    ensures r != 0 ==> f.h == old(f.h) && f.mem[..] == old(f.mem[..])
    ensures r != 0 ==> StructOf(f) == old(StructOf(f)) && StringsOf(f) == old(StringsOf(f))
    ensures r == 0 ==>
              && f.h == old(f.h).(sizeStruct := old(f.h.sizeStruct) - oldlen + newlen,
                                  offStrings := old(f.h.offStrings) - oldlen + newlen)
              && Blocks(f.h, f.mem.Length) && StringsOf(f) == old(StringsOf(f))
              && SplicedAt(old(StructOf(f)), StructOf(f), o, oldlen, newlen)
              && f.mem[..][0..f.h.offStruct] == old(f.mem[..][0..f.h.offStruct])
  {
    hide Patch, SplicedAt, Struct, Strings;
    ghost var h, b := f.h, f.mem[..];
    r := Splice(f, f.h.offStruct + o, oldlen, newlen);
    if r != 0 {
      return;
    }
    f.h := f.h.(sizeStruct := f.h.sizeStruct - oldlen + newlen, offStrings := f.h.offStrings - oldlen + newlen);
    BlocksSpliced(h, b, f.h, o, oldlen, newlen);
  }

  /** Writing into the structure block. */
  method PutStruct(f: Buffer, o: nat, e: Bytes)
    requires Blocks(f.h, f.mem.Length) && o + |e| <= f.h.sizeStruct
    modifies f.mem
    ensures StructOf(f) == Patch(old(StructOf(f)), o, e) && StringsOf(f) == old(StringsOf(f))
    ensures f.mem[..][0..f.h.offStruct] == old(f.mem[..][0..f.h.offStruct])
  {
    ghost var b := f.mem[..];
    var p := f.h.offStruct + o;
    PutBytes(f, p, e);
    PatchInside(b, p, e, f.h.offStruct, f.h.offStruct + f.h.sizeStruct);
    PatchWindow(b, p, e, f.h.offStrings, f.h.offStrings + f.h.sizeStrings);
    PatchWindow(b, p, e, 0, f.h.offStruct);
  }

  // ---- Tokens replaced, inserted and removed -----------------------------------------------------

  /** A stretch of tokens of a tree replaced by another. */
  lemma TokensSpliced(s: Bytes, ts: seq<Token>, end: nat, i: nat, o: nat, j: nat, next: nat,
                      s': Bytes, us: seq<Token>, n: nat) returns (end': nat)
    requires i <= j <= |ts| && Cursor(s, ts, i, o, end) && Cursor(s, ts, j, next, end) && o <= next
    requires SplicedAt(s, s', o, next - o, n) && n % 4 == 0 && Walk(s', o, us, o + n)
    ensures Tree(s', ts[..i] + us + ts[j..], end')
  {
    hide Next, Walk, SplicedAt;
    CursorBounds(s, ts, i, o, end);
    CursorBounds(s, ts, j, next, end);
    PrefixMoved(s, ts[..i], o, s', next - o, n);
    end' := o + n + (end - next);
    TailMoved(s, next, ts[j..], end, s', o, n);
    WalkJoin(s', 0, ts[..i], o, us, o + n);
    WalkJoin(s', 0, ts[..i] + us, o + n, ts[j..], end');
  }

  lemma CursorBounds(s: Bytes, ts: seq<Token>, i: nat, off: nat, end: nat)
    requires Cursor(s, ts, i, off, end)
    ensures off % 4 == 0 && off <= end && end % 4 == 0 && end + 4 <= |s|
  {
    hide Next;
    WalkBounds(s, 0, ts[..i], off);
    WalkBounds(s, off, ts[i..], end);
    EndFits(s, end);
  }

  /** The tokens before the splice point stay. */
  lemma PrefixMoved(s: Bytes, ts: seq<Token>, o: nat, s': Bytes, oldlen: nat, newlen: nat)
    requires Walk(s, 0, ts, o) && SplicedAt(s, s', o, oldlen, newlen)
    ensures Walk(s', 0, ts, o)
  {
    hide Next, Walk;
    assert s'[0..o] == s'[..o] && s[0..o] == s[..o];
    WalkShift(s, 0, ts, o, s', 0);
  }

  /** The tokens behind the splice point, and END, move with their bytes. */
  lemma TailMoved(s: Bytes, next: nat, ts: seq<Token>, end: nat, s': Bytes, o: nat, n: nat)
    requires Walk(s, next, ts, end) && Next(s, end).Step? && Next(s, end).tok == End && end % 4 == 0
    requires o <= next <= end && end + 4 <= |s| && (o + n) % 4 == 0 && SplicedAt(s, s', o, next - o, n)
    ensures Walk(s', o + n, ts, o + n + (end - next))
    ensures Next(s', o + n + (end - next)).Step? && Next(s', o + n + (end - next)).tok == End
  {
    hide Next, Walk;
    var d := end - next;
    EndFits(s, end);
    TailSlices(s, next, s', o + n, d);
    hide SplicedAt;
    WalkShift(s, next, ts, d, s', o + n);
    WalkAligned(s, next, ts, end);
    assert (o + n + d) % 4 == 0;
    NextShift(s, end, s', o + n + d, 4);
  }

  lemma WalkAligned(s: Bytes, off: nat, ts: seq<Token>, end: nat)
    requires Walk(s, off, ts, end)
    ensures off % 4 == 0
  {
  }

  /** The property that words and value at o of a structure block make. */
  lemma PropAt(s: Bytes, o: nat, nameoff: nat, val: Bytes)
    requires o % 4 == 0 && o + 12 + Align(|val|) <= |s|
    requires Be32(s, o) == TAG_PROP && Be32(s, o + 4) == |val| && Be32(s, o + 8) == nameoff
    requires s[o + 12..o + 12 + |val|] == val
    ensures Walk(s, o, [Prop(nameoff, val)], o + 12 + Align(|val|))
  {
    var w := s[o..];
    assert Be32(w, 0) == TAG_PROP && Be32(w, 4) == |val| && Be32(w, 8) == nameoff;
    assert w[12..12 + |val|] == val;
    AlignShift(o + 12, |val|);
    var next := o + 12 + Align(|val|);
    assert Next(s, o) == Step(Prop(nameoff, val), next);
    assert Walk(s, next, [], next);
  }

  /** Where a property's value and the next token lie. */
  lemma PropExtent(s: Bytes, o: nat)
    requires Next(s, o).Step? && Next(s, o).tok.Prop? && o % 4 == 0
    ensures o + 12 <= |s| && Be32(s, o) == TAG_PROP && Be32(s, o + 4) == |Next(s, o).tok.val|
    ensures Be32(s, o + 8) == Next(s, o).tok.nameoff
    ensures Next(s, o).next == o + 12 + Align(|Next(s, o).tok.val|)
  {
    TokenCells(s, o);
    AlignShift(o + 12, |Next(s, o).tok.val|);
    var w := s[o..];
    assert Be32(w, 4) == Be32(s, o + 4);
  }

  lemma WordKept(s: Bytes, s': Bytes, n: nat, o: nat)
    requires o + 4 <= n <= |s| && n <= |s'| && s[..n] == s'[..n]
    ensures Be32(s, o) == Be32(s', o)
  {
    assert forall i :: 0 <= i < n ==> s[i] == s[..n][i] == s'[i];
  }

  /** The value bytes spliced to the new size, then length and value written over them. */
  lemma ValueReplaced(s: Bytes, ts: seq<Token>, end: nat, i: nat, o: nat, s1: Bytes, val: Bytes) returns (end': nat)
    requires Cursor(s, ts, i, o, end) && i < |ts| && ts[i].Prop? && |val| < WORD
    requires SplicedAt(s, s1, o + 12, Align(|ts[i].val|), Align(|val|))
    ensures Tree(Patch(Patch(s1, o + 4, Enc32(|val|)), o + 12, val), ts[..i] + [Prop(ts[i].nameoff, val)] + ts[i + 1..],
                 end')
  {
    hide Next, Cursor, Be32, Enc32, Walk, Tree, Align;
    CursorStep(s, ts, i, o, end);
    PropExtent(s, o);
    var m, n := Align(|ts[i].val|), Align(|val|);
    var s2 := Patch(s1, o + 4, Enc32(|val|));
    var s3 := Patch(s2, o + 12, val);
    ReplacedCells(s, s1, o, m, val);
    PropAt(s3, o, ts[i].nameoff, val);
    hide Patch;
    end' := TokensSpliced(s, ts, end, i, o, i + 1, o + 12 + m, s3, [Prop(ts[i].nameoff, val)], 12 + n);
  }

  lemma ReplacedCells(s: Bytes, s1: Bytes, o: nat, m: nat, val: Bytes)
    requires o + 12 <= |s| && |val| < WORD && SplicedAt(s, s1, o + 12, m, Align(|val|))
    ensures var s3 := Patch(Patch(s1, o + 4, Enc32(|val|)), o + 12, val);
            && SplicedAt(s, s3, o, 12 + m, 12 + Align(|val|))
            && Be32(s3, o) == Be32(s, o) && Be32(s3, o + 4) == |val| && Be32(s3, o + 8) == Be32(s, o + 8)
            && s3[o + 12..o + 12 + |val|] == val
  {
    hide Align, Be32, Enc32;
    var n, e := Align(|val|), Enc32(|val|);
    var a := Patch(s1, o + 4, e);
    var s3 := Patch(a, o + 12, val);
    SplicedWider(s, s1, o, 12, m, n);
    SplicedPatch(s, s1, o, 12 + m, 12 + n, o + 4, e);
    SplicedPatch(s, a, o, 12 + m, 12 + n, o + 12, val);
    WordKept(s, s1, o + 12, o);
    WordKept(s, s1, o + 12, o + 8);
    WordPatched(s1, o + 4, |val|);
    WordElsewhere(s1, o + 4, e, o);
    WordElsewhere(s1, o + 4, e, o + 8);
    WordElsewhere(a, o + 12, val, o);
    WordElsewhere(a, o + 12, val, o + 4);
    WordElsewhere(a, o + 12, val, o + 8);
    assert s3[o + 12..o + 12 + |val|] == val;
  }

  lemma SplicedWider(s: Bytes, s': Bytes, o: nat, d: nat, oldlen: nat, newlen: nat)
    requires SplicedAt(s, s', o + d, oldlen, newlen)
    ensures SplicedAt(s, s', o, d + oldlen, d + newlen)
  {
    assert s'[..o] == s'[..o + d][..o] && s[..o] == s[..o + d][..o];
  }

  /** A property written into bytes spliced in before token i. */
  lemma PropInserted(s: Bytes, ts: seq<Token>, end: nat, i: nat, o: nat, s1: Bytes, nameoff: nat, val: Bytes)
    returns (end': nat)
    requires Cursor(s, ts, i, o, end) && nameoff < WORD && |val| < WORD
    requires SplicedAt(s, s1, o, 0, 12 + Align(|val|))
    ensures Tree(PropCells(s1, o, nameoff, val), ts[..i] + [Prop(nameoff, val)] + ts[i..], end')
  {
    hide Next, Cursor, Be32, Enc32, Walk, Tree, Align;
    CursorStep(s, ts, i, o, end);
    InsertedCells(s, s1, o, nameoff, val);
    var s' := PropCells(s1, o, nameoff, val);
    PropAt(s', o, nameoff, val);
    hide PropCells;
    assert (12 + Align(|val|)) % 4 == 0;
    end' := TokensSpliced(s, ts, end, i, o, i, o, s', [Prop(nameoff, val)], 12 + Align(|val|));
  }

  /** The words of a property and its value, in the order in which fdt_setprop writes them. */
  function PropCells(s: Bytes, o: nat, nameoff: nat, val: Bytes): (r: Bytes)
    requires o + 12 + |val| <= |s| && nameoff < WORD && |val| < WORD
    ensures |r| == |s|
  {
    Patch(Patch(Patch(Patch(s, o, Enc32(TAG_PROP)), o + 8, Enc32(nameoff)), o + 4, Enc32(|val|)), o + 12, val)
  }

  lemma InsertedCells(s: Bytes, s1: Bytes, o: nat, nameoff: nat, val: Bytes)
    requires nameoff < WORD && |val| < WORD && SplicedAt(s, s1, o, 0, 12 + Align(|val|))
    ensures var s' := PropCells(s1, o, nameoff, val);
            && SplicedAt(s, s', o, 0, 12 + Align(|val|))
            && Be32(s', o) == TAG_PROP && Be32(s', o + 4) == |val| && Be32(s', o + 8) == nameoff
            && s'[o + 12..o + 12 + |val|] == val
  {
    var n := Align(|val|);
    hide Align, Be32, Enc32;
    var a := Patch(s1, o, Enc32(TAG_PROP));
    var b := Patch(a, o + 8, Enc32(nameoff));
    var c := Patch(b, o + 4, Enc32(|val|));
    var s' := Patch(c, o + 12, val);
    WordPatched(s1, o, TAG_PROP);
    WordPatched(a, o + 8, nameoff);
    WordPatched(b, o + 4, |val|);
    WordElsewhere(a, o + 8, Enc32(nameoff), o);
    WordElsewhere(b, o + 4, Enc32(|val|), o);
    WordElsewhere(b, o + 4, Enc32(|val|), o + 8);
    WordElsewhere(c, o + 12, val, o);
    WordElsewhere(c, o + 12, val, o + 4);
    WordElsewhere(c, o + 12, val, o + 8);
    SplicedPatch(s, s1, o, 0, 12 + n, o, Enc32(TAG_PROP));
    SplicedPatch(s, a, o, 0, 12 + n, o + 8, Enc32(nameoff));
    SplicedPatch(s, b, o, 0, 12 + n, o + 4, Enc32(|val|));
    SplicedPatch(s, c, o, 0, 12 + n, o + 12, val);
    assert s'[o + 12..o + 12 + |val|] == val;
  }

  lemma WordPatched(s: Bytes, o: nat, v: nat)
    requires v < WORD && o + 4 <= |s|
    ensures Be32(Patch(s, o, Enc32(v)), o) == v
  {
    var e := Enc32(v);
    hide Enc32;
    var s' := Patch(s, o, e);
    assert s'[o] == e[0] && s'[o + 1] == e[1] && s'[o + 2] == e[2] && s'[o + 3] == e[3];
  }

  lemma WordElsewhere(s: Bytes, p: nat, x: Bytes, o: nat)
    requires p + |x| <= |s| && o + 4 <= |s| && (o + 4 <= p || p + |x| <= o)
    ensures Be32(Patch(s, p, x), o) == Be32(s, o)
  {
    PatchWindow(s, p, x, o, o + 4);
    var s' := Patch(s, p, x);
    hide Patch;
    var w, w' := s[o..o + 4], s'[o..o + 4];
    assert w'[0] == s'[o] && w'[1] == s'[o + 1] && w'[2] == s'[o + 2] && w'[3] == s'[o + 3];
  }

  /** Writing inside the spliced bytes leaves the rest spliced. */
  lemma SplicedPatch(s: Bytes, s1: Bytes, o: nat, oldlen: nat, newlen: nat, p: nat, x: Bytes)
    requires SplicedAt(s, s1, o, oldlen, newlen) && o <= p && p + |x| <= o + newlen
    ensures SplicedAt(s, Patch(s1, p, x), o, oldlen, newlen)
  {
    var s' := Patch(s1, p, x);
    assert s'[..o] == s1[..o] && s'[o + newlen..] == s1[o + newlen..];
  }

  /** A property's bytes spliced out. */
  lemma PropRemoved(s: Bytes, ts: seq<Token>, end: nat, i: nat, o: nat, s': Bytes) returns (end': nat)
    requires Cursor(s, ts, i, o, end) && i < |ts| && ts[i].Prop?
    requires SplicedAt(s, s', o, 12 + Align(|ts[i].val|), 0)
    ensures Tree(s', ts[..i] + ts[i + 1..], end')
  {
    hide Next, Cursor, Be32, Tree, Align;
    CursorStep(s, ts, i, o, end);
    PropExtent(s, o);
    assert Walk(s', o, [], o);
    assert ts[..i] + [] == ts[..i];
    end' := TokensSpliced(s, ts, end, i, o, i + 1, o + 12 + Align(|ts[i].val|), s', [], 0);
  }

  // ---- The operations ----------------------------------------------------------------------------

  /** fdt_rw_probe_, which also lowers a later version to 17. */
  method ProbeForEdit(f: Buffer) returns (r: int)
    modifies f
    ensures r == RwProbe(old(f.h), f.addr)
    ensures f.h == if r == 0 then old(f.h).(version := 17) else old(f.h)
  {
    r := RwProbe(f.h, f.addr);
    if r == 0 && f.h.version > 17 {
      f.h := f.h.(version := 17);
    }
  }

  /** Appending to the strings block leaves the structure block alone. */
  lemma NameAppended(h: Header, b: Bytes, h': Header, x: Bytes)
    requires Blocks(h, |b|) && h.offStrings + h.sizeStrings + |x| <= h.total
    requires h' == h.(sizeStrings := h.sizeStrings + |x|)
    ensures var p := h.offStrings + h.sizeStrings;
            var b' := Patch(Patch(b, p + |x|, b[p..p]), p, x);
            && Blocks(h', |b'|) && Struct(h', b') == Struct(h, b) && b'[0..h.offStruct] == b[0..h.offStruct]
            && Strings(h', b') == Strings(h, b) + x
  {
    var p := h.offStrings + h.sizeStrings;
    assert Patch(b, p + |x|, b[p..p]) == b;
    var b' := Patch(b, p, x);
    PatchWindow(b, p, x, h.offStruct, h.offStruct + h.sizeStruct);
    PatchWindow(b, p, x, 0, h.offStruct);
    PatchWindow(b, p, x, h.offStrings, p);
    assert b'[p..p + |x|] == x;
    hide Patch;
    assert b'[h.offStrings..p + |x|] == b'[h.offStrings..p] + b'[p..p + |x|];
  }

  lemma AppendedNameResolves(t: Bytes, name: Bytes)
    requires NoZero(name)
    ensures StrAt(t + (name + [0]), |t|) == Some(name)
  {
    var t' := t + (name + [0]);
    assert t'[|t|..|t| + |name|] == name;
    StrAtIs(t', |t|, name);
  }

  /** The part of fdt_find_add_string_ that appends the name. */
  method AppendName(f: Buffer, name: Bytes) returns (r: int)
    requires Blocks(f.h, f.mem.Length) && |name| < INT_MAX
    modifies f, f.mem
    ensures r == if old(f.h.offStrings + f.h.sizeStrings) + |name| + 1 > f.h.total then -NOSPACE else 0
    ensures r != 0 ==> f.h == old(f.h) && f.mem[..] == old(f.mem[..])
    ensures r == 0 ==>
              && f.h == old(f.h).(sizeStrings := old(f.h.sizeStrings) + |name| + 1) && Blocks(f.h, f.mem.Length)
              && StructOf(f) == old(StructOf(f)) && StringsOf(f) == old(StringsOf(f)) + (name + [0])
              && f.mem[..][0..f.h.offStruct] == old(f.mem[..][0..f.h.offStruct])
  {
    hide Patch;
    ghost var h, b := f.h, f.mem[..];
    var p := f.h.offStrings + f.h.sizeStrings;
    r := Splice(f, p, 0, |name| + 1);
    if r != 0 {
      return;
    }
    f.h := f.h.(sizeStrings := f.h.sizeStrings + |name| + 1);
    PutBytes(f, p, name + [0]);
    NameAppended(h, b, f.h, name + [0]);
  }

  /** fdt_find_add_string_: the name is looked up in the strings block, or appended to it. */
  method FindAddName(f: Buffer, name: Bytes) returns (o: int, added: bool)
    requires Blocks(f.h, f.mem.Length) && NoZero(name) && |name| < INT_MAX
    modifies f, f.mem
    ensures o < 0 ==> o == -NOSPACE && f.h == old(f.h) && f.mem[..] == old(f.mem[..])
    ensures o < 0 <==>
            !old(HasName(StringsOf(f), name)) && old(f.h.offStrings + f.h.sizeStrings) + |name| + 1 > f.h.total
    ensures o < 0 ==> StructOf(f) == old(StructOf(f)) && StringsOf(f) == old(StringsOf(f))
    ensures o >= 0 ==>
              && added == !old(HasName(StringsOf(f), name))
              && f.h == (if added then old(f.h).(sizeStrings := old(f.h.sizeStrings) + |name| + 1) else old(f.h))
              && Blocks(f.h, f.mem.Length) && o <= f.h.sizeStrings
              && StructOf(f) == old(StructOf(f)) && StrAt(StringsOf(f), o) == Some(name)
              && StringsOf(f) == (if added then old(StringsOf(f)) + (name + [0]) else old(StringsOf(f)))
              && f.mem[..][0..f.h.offStruct] == old(f.mem[..][0..f.h.offStruct])
  {
    hide StrAt, NoZero, HasName;
    added := false;
    var p := FindString(f, f.h.offStrings, f.h.sizeStrings, name);
    if p >= 0 {
      ReadsInStrings(StringsOf(f), p, name);
      return p, false;
    }
    AppendedNameResolves(StringsOf(f), name);
    var end := f.h.sizeStrings;
    var err := AppendName(f, name);
    if err != 0 {
      return err, false;
    }
    return end, true;
  }

  lemma ReadsInStrings(t: Bytes, r: nat, name: Bytes)
    requires NoZero(name) && ReadsAt(t, r, name + [0])
    ensures StrAt(t, r) == Some(name)
  {
    var w := t[r..r + |name| + 1];
    SliceOfSlice(t, r, r + |name| + 1, 0, |name|);
    assert w[..|name|] == name == w[0..|name|];
    assert t[r + |name|] == w[|name|] == 0;
    StrAtIs(t, r, name);
  }

  /** Dropping the name that was appended last. */
  lemma NameDropped(h: Header, b: Bytes, h': Header, t: Bytes, x: Bytes)
    requires Blocks(h', |b|) && h' == h.(sizeStrings := h.sizeStrings + |x|) && Strings(h', b) == t + x
             && |t| == h.sizeStrings
    ensures Blocks(h, |b|) && Strings(h, b) == t && Struct(h, b) == Struct(h', b)
  {
    SliceOfSlice(b, h.offStrings, h.offStrings + h'.sizeStrings, 0, |t|);
    assert (t + x)[0..|t|] == t;
  }

  /** The structure block has grown by d bytes and the strings block takes n; no other header word has changed. */
  ghost predicate Resized(h: Header, h': Header, d: int, n: nat) {
    && h'.sizeStruct == h.sizeStruct + d && h'.offStrings == h.offStrings + d && h'.sizeStrings == n
    && h' == h.(sizeStruct := h'.sizeStruct, offStrings := h'.offStrings, sizeStrings := n)
  }

  /** fdt_resize_property_ and the copy of the value, for the property at o. */
  method ReplaceValue(f: Buffer, o: nat, val: Bytes, ghost ts: seq<Token>, ghost i: nat, ghost end: nat)
    returns (r: int, ghost end': nat)
    requires Editable(f, ts, end) && Cursor(StructOf(f), ts, i, o, end) && i < |ts| && ts[i].Prop?
    requires |val| <= INT_MAX - 16
    modifies f, f.mem
    ensures r == if old(f.h.offStrings + f.h.sizeStrings) - Align(|ts[i].val|) + Align(|val|) > old(f.h.total)
                 then -NOSPACE else 0
    ensures r != 0 ==> f.h == old(f.h) && f.mem[..] == old(f.mem[..])
    ensures r != 0 ==> StructOf(f) == old(StructOf(f)) && StringsOf(f) == old(StringsOf(f))
    ensures r == 0 ==>
              && Editable(f, WithValue(ts, i, val), end') && StringsOf(f) == old(StringsOf(f))
              && Resized(old(f.h), f.h, Align(|val|) - Align(|ts[i].val|), old(f.h.sizeStrings))
    ensures f.h.offStruct == old(f.h.offStruct) && f.mem[..][0..f.h.offStruct] == old(f.mem[..][0..f.h.offStruct])
  {
    hide Next, Cursor, Tree, StructOf, StringsOf, Patch, Enc32, SplicedAt, Align, Be32;
    ghost var s := StructOf(f);
    end' := 0;
    CursorStep(s, ts, i, o, end);
    PropExtent(s, o);
    CursorStep(s, ts, i + 1, o + 12 + Align(|ts[i].val|), end);
    var oldlen := StructWord(f, o + 4);
    r := SpliceStruct(f, o + 12, Align(oldlen), Align(|val|));
    if r != 0 {
      return;
    }
    ghost var s1 := StructOf(f);
    SplicedSize(s, s1, o + 12, Align(oldlen), Align(|val|));
    PutStruct(f, o + 4, Enc32(|val|));
    PutStruct(f, o + 12, val);
    end' := ValueReplaced(s, ts, end, i, o, s1, val);
  }

  lemma SplicedSize(s: Bytes, s': Bytes, o: nat, oldlen: nat, newlen: nat)
    requires SplicedAt(s, s', o, oldlen, newlen)
    ensures o + oldlen <= |s| && |s'| == |s| - oldlen + newlen
  {
  }

  /** fdt_del_last_string_ */
  method DropLastName(f: Buffer, name: Bytes, ghost t: Bytes)
    requires Blocks(f.h, f.mem.Length) && StringsOf(f) == t + (name + [0])
    modifies f
    ensures f.h == old(f.h).(sizeStrings := |t|) && Blocks(f.h, f.mem.Length)
    ensures StringsOf(f) == t && StructOf(f) == old(StructOf(f))
  {
    ghost var h' := f.h;
    f.h := f.h.(sizeStrings := f.h.sizeStrings - (|name| + 1));
    NameDropped(f.h, f.mem[..], h', t, name + [0]);
  }

  /** The splice of fdt_add_property_ and the new property's words and value. */
  method InsertProperty(f: Buffer, o: nat, nameoff: nat, val: Bytes, ghost ts: seq<Token>, ghost i: nat, ghost end: nat)
    returns (r: int, ghost end': nat)
    requires Editable(f, ts, end) && nameoff < WORD && |val| <= INT_MAX - 32
    requires Cursor(StructOf(f), ts, i, o, end)
    modifies f, f.mem
    ensures r == if old(f.h.offStrings + f.h.sizeStrings) + 12 + Align(|val|) > f.h.total then -NOSPACE else 0
    ensures r != 0 ==> f.h == old(f.h) && f.mem[..] == old(f.mem[..])
    ensures r != 0 ==> StructOf(f) == old(StructOf(f)) && StringsOf(f) == old(StringsOf(f))
    ensures i <= |ts|
    ensures r == 0 ==>
              && Editable(f, WithProp(ts, i, Prop(nameoff, val)), end') && StringsOf(f) == old(StringsOf(f))
              && Resized(old(f.h), f.h, 12 + Align(|val|), old(f.h.sizeStrings))
    ensures f.h.offStruct == old(f.h.offStruct)
    ensures f.mem[..][0..f.h.offStruct] == old(f.mem[..][0..f.h.offStruct])
  {
    hide Next, Cursor, Tree, StructOf, StringsOf, Patch, Enc32, SplicedAt, Align, PropCells;
    ghost var s := StructOf(f);
    end' := 0;
    CursorStep(s, ts, i, o, end);
    r := SpliceStruct(f, o, 0, 12 + Align(|val|));
    if r != 0 {
      return;
    }
    ghost var s1 := StructOf(f);
    SplicedSize(s, s1, o, 0, 12 + Align(|val|));
    PutProperty(f, o, nameoff, val);
    end' := PropInserted(s, ts, end, i, o, s1, nameoff, val);
  }

  /** The tokens of fdt_setprop on a property that is missing. */
  function WithProp(ts: seq<Token>, i: nat, x: Token): seq<Token>
    requires i <= |ts|
  {
    ts[..i] + [x] + ts[i..]
  }

  /** The strings block once it holds the name. */
  ghost function WithName(t: Bytes, name: Bytes): Bytes {
    if HasName(t, name) then t else t + (name + [0])
  }

  /** fdt_add_property_ and the copy of the value: a new first property of node k. */
  method AddProperty(f: Buffer, nodeoffset: nat, name: Bytes, val: Bytes,
                     ghost ts: seq<Token>, ghost k: nat, ghost end: nat)
    returns (r: int, ghost x: Token, ghost end': nat)
    requires Editable(f, ts, end) && nodeoffset <= INT_MAX && IsNode(StructOf(f), nodeoffset)
    requires Cursor(StructOf(f), ts, k, nodeoffset, end)
    requires NoZero(name) && |name| < INT_MAX && |val| <= INT_MAX - 32
    modifies f, f.mem
    ensures k < |ts|
    ensures r == if old(f.h.offStrings + |WithName(StringsOf(f), name)|) + 12 + Align(|val|) > old(f.h.total)
                 then -NOSPACE else 0
    ensures r != 0 ==> f.h == old(f.h) && StructOf(f) == old(StructOf(f)) && StringsOf(f) == old(StringsOf(f))
    ensures r == 0 ==>
              && Editable(f, WithProp(ts, k + 1, x), end')
              && x.Prop? && x.val == val && StrAt(StringsOf(f), x.nameoff) == Some(name)
              && StringsOf(f) == old(WithName(StringsOf(f), name))
              && Resized(old(f.h), f.h, 12 + Align(|val|), |StringsOf(f)|)
    ensures f.h.offStruct == old(f.h.offStruct) && f.mem[..][0..f.h.offStruct] == old(f.mem[..][0..f.h.offStruct])
  {
    hide Next, Cursor, Tree, StructOf, StringsOf, Align, StrAt, HasName;
    ghost var s, t := StructOf(f), StringsOf(f);
    end', x := 0, End;
    CursorStep(s, ts, k, nodeoffset, end);
    var next := CheckNodeOffset(f, nodeoffset);
    var nameoff, added := FindAddName(f, name);
    if nameoff < 0 {
      return nameoff, x, end';
    }
    x := Prop(nameoff, val);
    r, end' := InsertProperty(f, next, nameoff, val, ts, k + 1, end);
    if r != 0 && added {
      DropLastName(f, name, t);
    }
  }

  /** The words and the value of a new property. */
  method PutProperty(f: Buffer, o: nat, nameoff: nat, val: Bytes)
    requires Blocks(f.h, f.mem.Length) && o + 12 + |val| <= f.h.sizeStruct && nameoff < WORD && |val| < WORD
    modifies f.mem
    ensures StructOf(f) == PropCells(old(StructOf(f)), o, nameoff, val) && StringsOf(f) == old(StringsOf(f))
    ensures f.mem[..][0..f.h.offStruct] == old(f.mem[..][0..f.h.offStruct])
  {
    hide StructOf, StringsOf, Enc32, Patch;
    PutStruct(f, o, Enc32(TAG_PROP));
    PutStruct(f, o + 8, Enc32(nameoff));
    PutStruct(f, o + 4, Enc32(|val|));
    PutStruct(f, o + 12, val);
  }

  /**
    Exactly which name offsets read differently once a name has been appended: those of no string
    before that now reach the terminator of the new one.
  */
  lemma NameKeptExactly(t: Bytes, name: Bytes, o: nat)
    requires NoZero(name)
    ensures StrAt(t + (name + [0]), o) == StrAt(t, o) <==> StrAt(t, o).Some? || o > |t| + |name|
  {
    var x := name + [0];
    if StrAt(t, o).Some? {
      StrAtAppend(t, x, o);
    } else if o <= |t| + |name| {
      assert (t + x)[|t| + |name|] == 0;
    }
  }

  /** In the strings "a" without a terminator, offset 0 names nothing; once "b" is appended it names "ab". */
  lemma DanglingNameChanges()
    ensures StrAt([97], 0) == None && StrAt([97] + ([98] + [0]), 0) == Some([97, 98])
  {
    var t := [97] + ([98] + [0]);
    assert t == [97, 98, 0];
    ZeroFromUnique(t, 0, 2);
    assert t[0..2] == [97, 98];
    assert ZeroFrom([97], 0) == ZeroFrom([97], 1) == 1;
  }

  /** The value at i replaced, read as items. */
  lemma ReplacedItems(t: Bytes, ts: seq<Token>, i: nat, name: Bytes, val: Bytes)
    requires i < |ts| && ts[i].Prop? && (forall j :: 0 <= j < |ts| ==> !ts[j].End?)
             && StrAt(t, ts[i].nameoff) == Some(name)
    ensures var us := ts[..i] + [Prop(ts[i].nameoff, val)] + ts[i + 1..];
            (forall j :: 0 <= j < |us| ==> !us[j].End?) && Items(t, us) == Items(t, ts)[i := Property(Some(name), val)]
  {
    hide StrAt;
  }

  /** A property inserted before i, read as items. */
  lemma InsertedItems(t: Bytes, ts: seq<Token>, i: nat, x: Token)
    requires i <= |ts| && x.Prop? && (forall j :: 0 <= j < |ts| ==> !ts[j].End?)
    ensures var us := ts[..i] + [x] + ts[i..];
            && (forall j :: 0 <= j < |us| ==> !us[j].End?)
            && Items(t, us) == Items(t, ts)[..i] + [ItemOf(t, x)] + Items(t, ts)[i..]
  {
    hide StrAt;
  }

  lemma FoundToken(t: Bytes, ts: seq<Token>, i: nat, name: Bytes)
    requires (forall j :: 0 <= j < |ts| ==> !ts[j].End?) && FindItem(Items(t, ts), i, name).At?
    ensures var j := FindItem(Items(t, ts), i, name).index;
            j < |ts| && ts[j].Prop? && StrAt(t, ts[j].nameoff) == Some(name)
  {
  }

  /** The tokens of fdt_setprop on a property that is there. */
  function WithValue(ts: seq<Token>, i: nat, val: Bytes): seq<Token>
    requires i < |ts| && ts[i].Prop?
  {
    ts[..i] + [Prop(ts[i].nameoff, val)] + ts[i + 1..]
  }

  /** What is left of the names of the tokens when the strings t have become t'. */
  ghost predicate NamesStay(t: Bytes, t': Bytes, ts: seq<Token>, name: Bytes) {
    t' == t || forall i :: 0 <= i < |ts| && ts[i].Prop? ==>
      StrAt(t, ts[i].nameoff).Some? || ts[i].nameoff > |t| + |name|
  }

  /** Names that resolve stay. */
  lemma ResolvedNamesStay(t: Bytes, t': Bytes, ts: seq<Token>, name: Bytes)
    requires NamesResolve(t, ts)
    ensures NamesStay(t, t', ts, name)
  {
    hide StrAt;
  }

  /** The items read the same exactly if every name offset resolved or lies behind the appended name. */
  lemma ItemsKeptExactly(t: Bytes, t': Bytes, ts: seq<Token>, name: Bytes)
    requires (forall i :: 0 <= i < |ts| ==> !ts[i].End?) && NoZero(name) && t' == WithName(t, name)
    ensures Items(t', ts) == Items(t, ts) <==> NamesStay(t, t', ts, name)
  {
    hide StrAt, HasName;
    if t' != t {
      forall i | 0 <= i < |ts|
        ensures ts[i].Prop? ==>
                  (ItemOf(t', ts[i]) == ItemOf(t, ts[i]) <==>
                    StrAt(t, ts[i].nameoff).Some? || ts[i].nameoff > |t| + |name|)
      {
        if ts[i].Prop? {
          NameKeptExactly(t, name, ts[i].nameoff);
        }
      }
      var a, b := Items(t', ts), Items(t, ts);
      if a == b {
        assert forall i :: 0 <= i < |ts| ==> ItemOf(t', ts[i]) == a[i] == b[i] == ItemOf(t, ts[i]);
      }
    }
  }

  /** What fdt_setprop makes of the tokens and the strings, after a search that gave r. */
  ghost predicate SetTokens(t: Bytes, ts: seq<Token>, t': Bytes, ts': seq<Token>, k: nat, r: Scan, name: Bytes,
                            val: Bytes) {
    match r
    case At(i) => i < |ts| && ts[i].Prop? && ts' == WithValue(ts, i, val) && t' == t
    case Stop(_) =>
      && k + 1 < |ts'| && k < |ts| && ts' == WithProp(ts, k + 1, ts'[k + 1]) && t' == WithName(t, name)
      && ts'[k + 1].Prop? && ts'[k + 1].val == val && StrAt(t', ts'[k + 1].nameoff) == Some(name)
  }

  /** The tree reads as before with the property set exactly if the names of its properties stay. */
  lemma SetItemsExactly(t: Bytes, ts: seq<Token>, t': Bytes, ts': seq<Token>, k: nat, name: Bytes, val: Bytes)
    requires (forall i :: 0 <= i < |ts| ==> !ts[i].End?) && k < |ts| && NoZero(name)
    requires SetTokens(t, ts, t', ts', k, FindItem(Items(t, ts), k + 1, name), name, val)
    ensures |ts'| > k && ts'[..k + 1] == ts[..k + 1] && forall i :: 0 <= i < |ts'| ==> !ts'[i].End?
    ensures Items(t', ts') == SetItem(Items(t, ts), k, name, val) <==> NamesStay(t, t', ts, name)
  {
    hide StrAt, FindItem, HasName, Items, NamesStay, WithName, WithProp, WithValue;
    match FindItem(Items(t, ts), k + 1, name) {
      case At(i) =>
        ValueItemsExactly(t, ts, k, i, name, val);
      case Stop(_) =>
        PropItemsExactly(t, ts, t', k, ts'[k + 1], name, val);
    }
  }

  lemma ValueItemsExactly(t: Bytes, ts: seq<Token>, k: nat, i: nat, name: Bytes, val: Bytes)
    requires (forall j :: 0 <= j < |ts| ==> !ts[j].End?) && k < |ts| && FindItem(Items(t, ts), k + 1, name) == At(i)
    ensures i < |ts| && ts[i].Prop? && StrAt(t, ts[i].nameoff) == Some(name)
    ensures var ts' := WithValue(ts, i, val);
            && |ts'| > k && ts'[..k + 1] == ts[..k + 1] && (forall j :: 0 <= j < |ts'| ==> !ts'[j].End?)
            && Items(t, ts') == SetItem(Items(t, ts), k, name, val) && NamesStay(t, t, ts, name)
  {
    FoundToken(t, ts, k + 1, name);
    hide StrAt, HasName, FindItem;
    FoundAfter(Items(t, ts), k + 1, name);
    ReplacedItems(t, ts, i, name, val);
    hide Items;
  }

  lemma FoundAfter(items: seq<Item>, from: nat, name: Bytes)
    ensures FindItem(items, from, name).At? ==> FindItem(items, from, name).index >= from
  {
  }

  lemma PropItemsExactly(t: Bytes, ts: seq<Token>, t': Bytes, k: nat, x: Token, name: Bytes, val: Bytes)
    requires (forall j :: 0 <= j < |ts| ==> !ts[j].End?) && k < |ts| && NoZero(name) && t' == WithName(t, name)
    requires FindItem(Items(t, ts), k + 1, name).Stop?
    requires x.Prop? && x.val == val && StrAt(t', x.nameoff) == Some(name)
    ensures var ts' := WithProp(ts, k + 1, x);
            && |ts'| > k && ts'[..k + 1] == ts[..k + 1] && (forall j :: 0 <= j < |ts'| ==> !ts'[j].End?)
            && (Items(t', ts') == SetItem(Items(t, ts), k, name, val) <==> NamesStay(t, t', ts, name))
  {
    assert ItemOf(t', x) == Property(Some(name), val);
    hide StrAt, HasName, FindItem, NamesStay, WithName, ItemOf;
    InsertedItems(t', ts, k + 1, x);
    ItemsKeptExactly(t, t', ts, name);
    hide Items;
    InsertedExactly(Items(t, ts), Items(t', ts), k + 1, Property(Some(name), val));
  }

  lemma InsertedExactly(a: seq<Item>, b: seq<Item>, i: nat, x: Item)
    requires i <= |a| == |b|
    ensures a[..i] + [x] + a[i..] == b[..i] + [x] + b[i..] <==> a == b
  {
    var a', b' := a[..i] + [x] + a[i..], b[..i] + [x] + b[i..];
    if a' == b' {
      forall j | 0 <= j < |a|
        ensures a[j] == b[j]
      {
        var j' := if j < i then j else j + 1;
        assert a'[j'] == a[j] && b'[j'] == b[j];
      }
    }
  }

  /** The bytes by which fdt_setprop makes the structure block grow, after a search that gave r. */
  function Growth(ts: seq<Token>, r: Scan, val: Bytes): int {
    if r.At? && r.index < |ts| && ts[r.index].Prop? then Align(|val|) - Align(|ts[r.index].val|) else 12 + Align(|val|)
  }

  /** The result of fdt_setprop, after the probe and a search that gave r. */
  ghost function SetCode(h: Header, t: Bytes, ts: seq<Token>, r: Scan, name: Bytes, val: Bytes): int {
    if r.Stop? && r.err != NOTFOUND then 0 - r.err
    else if h.offStrings + |if r.At? then t else WithName(t, name)| + Growth(ts, r, val) > h.total then -NOSPACE
    else 0
  }

  /** The outcome of the search for the name from the node at the offset. */
  ghost function SearchOf(s: Bytes, t: Bytes, nodeoffset: int, ts: seq<Token>, k: nat, name: Bytes): Scan
    requires forall j :: 0 <= j < |ts| ==> !ts[j].End?
  {
    if IsNode(s, nodeoffset) then FindItem(Items(t, ts), k + 1, name) else Stop(BADOFFSET)
  }

  /**
    The outcome of fdt_setprop: its exact result; on failure nothing has changed; on success the tokens, the
    strings and the header are those with the property set.
  */
  ghost predicate SetOutcome(h: Header, s: Bytes, t: Bytes, ts: seq<Token>, nodeoffset: int, k: nat, name: Bytes,
                             val: Bytes,
                             h': Header, s': Bytes, t': Bytes, ts': seq<Token>, r: int)
    requires forall j :: 0 <= j < |ts| ==> !ts[j].End?
  {
    var found := SearchOf(s, t, nodeoffset, ts, k, name);
    && r == SetCode(h, t, ts, found, name, val)
    && (r != 0 ==> h' == h && s' == s && t' == t && ts' == ts)
    && (r == 0 ==>
        && IsNode(s, nodeoffset) && SetTokens(t, ts, t', ts', k, found, name, val)
        && Resized(h, h', Growth(ts, found, val), |t'|))
  }

  lemma OutcomeFound(h: Header, s: Bytes, t: Bytes, ts: seq<Token>, nodeoffset: int, k: nat, i: nat, name: Bytes,
                     val: Bytes,
                     h': Header, s': Bytes, t': Bytes, ts': seq<Token>, r: int)
    requires forall j :: 0 <= j < |ts| ==> !ts[j].End?
    requires IsNode(s, nodeoffset) && FindItem(Items(t, ts), k + 1, name) == At(i) && i < |ts| && ts[i].Prop?
    requires |t| == h.sizeStrings && t' == t
    requires r == if h.offStrings + h.sizeStrings - Align(|ts[i].val|) + Align(|val|) > h.total then -NOSPACE else 0
    requires r != 0 ==> h' == h && s' == s && ts' == ts
    requires r == 0 ==> ts' == WithValue(ts, i, val) && Resized(h, h', Align(|val|) - Align(|ts[i].val|), h.sizeStrings)
    ensures SetOutcome(h, s, t, ts, nodeoffset, k, name, val, h', s', t', ts', r)
  {
    hide FindItem, Items, Align, IsNode, Resized, WithValue;
  }

  lemma OutcomeMissing(h: Header, s: Bytes, t: Bytes, ts: seq<Token>, nodeoffset: int, k: nat, name: Bytes, val: Bytes,
                       h': Header, s': Bytes, t': Bytes, x: Token, ts': seq<Token>, r: int)
    requires forall j :: 0 <= j < |ts| ==> !ts[j].End?
    requires IsNode(s, nodeoffset) && FindItem(Items(t, ts), k + 1, name) == Stop(NOTFOUND) && k < |ts|
    requires r == if h.offStrings + |WithName(t, name)| + 12 + Align(|val|) > h.total then -NOSPACE else 0
    requires r != 0 ==> h' == h && s' == s && t' == t && ts' == ts
    requires r == 0 ==>
               && ts' == WithProp(ts, k + 1, x) && x.Prop? && x.val == val
               && StrAt(t', x.nameoff) == Some(name) && t' == WithName(t, name)
               && Resized(h, h', 12 + Align(|val|), |t'|)
    ensures SetOutcome(h, s, t, ts, nodeoffset, k, name, val, h', s', t', ts', r)
  {
    hide FindItem, Items, Align, IsNode, Resized, StrAt, HasName;
  }

  /** fdt_setprop, after the probe. */
  method SetPropChecked(f: Buffer, nodeoffset: int, name: Bytes, val: Bytes, ghost ts: seq<Token>, ghost k: nat,
                        ghost end: nat)
    returns (r: int, ghost ts': seq<Token>, ghost end': nat)
    requires Editable(f, ts, end) && NodeOffset(f, nodeoffset, ts, k, end)
    requires -INT_MAX - 1 <= nodeoffset <= INT_MAX
    requires NoZero(name) && |name| < INT_MAX && |val| <= INT_MAX - 32
    modifies f, f.mem
    ensures f.h.offStruct == old(f.h.offStruct) && f.mem[..][0..f.h.offStruct] == old(f.mem[..][0..f.h.offStruct])
    ensures Editable(f, ts', end')
    ensures SetOutcome(old(f.h), old(StructOf(f)), old(StringsOf(f)), ts, nodeoffset, k, name, val,
                       f.h, StructOf(f), StringsOf(f), ts', r)
  {
    hide Next, Cursor, Tree, StructOf, StringsOf, StrAt, FindItem, Items, HasName, Align, WithValue, PropOfNode;
    hide SetOutcome, Resized;
    ghost var h, s, t := f.h, StructOf(f), StringsOf(f);
    ts', end' := ts, end;
    var offset := FindProperty(f, nodeoffset, name);
    if IsNode(s, nodeoffset) {
      NodeSearchOnTree(s, t, ts, k, nodeoffset, end, name);
      StopErrors(Items(t, ts), k + 1, name);
    } else {
      NoNode(s, t, nodeoffset, name);
    }
    ghost var found := SearchOf(s, t, nodeoffset, ts, k, name);
    if offset >= 0 {
      r, ts', end' := SetFound(f, offset, val, ts, found.index, end);
      OutcomeFound(h, s, t, ts, nodeoffset, k, found.index, name, val, f.h, StructOf(f), StringsOf(f), ts', r);
    } else if offset == -NOTFOUND {
      ghost var x;
      r, x, ts', end' := SetMissing(f, nodeoffset, name, val, ts, k, end);
      OutcomeMissing(h, s, t, ts, nodeoffset, k, name, val, f.h, StructOf(f), StringsOf(f), x, ts', r);
    } else {
      r := offset;
      OutcomeError(h, s, t, ts, nodeoffset, k, name, val, r);
    }
  }

  lemma OutcomeError(h: Header, s: Bytes, t: Bytes, ts: seq<Token>, nodeoffset: int, k: nat, name: Bytes, val: Bytes,
                     r: int)
    requires forall j :: 0 <= j < |ts| ==> !ts[j].End?
    requires r < 0 && r != -NOTFOUND && SearchOf(s, t, nodeoffset, ts, k, name) == Stop(0 - r)
    ensures SetOutcome(h, s, t, ts, nodeoffset, k, name, val, h, s, t, ts, r)
  {
    hide FindItem, Items, IsNode, SearchOf;
  }

  /** fdt_setprop on a property that is there. */
  method SetFound(f: Buffer, offset: nat, val: Bytes, ghost ts: seq<Token>, ghost i: nat, ghost end: nat)
    returns (r: int, ghost ts': seq<Token>, ghost end': nat)
    requires Editable(f, ts, end) && Cursor(StructOf(f), ts, i, offset, end) && i < |ts| && ts[i].Prop?
    requires |val| <= INT_MAX - 16
    modifies f, f.mem
    ensures Editable(f, ts', end') && StringsOf(f) == old(StringsOf(f))
    ensures r == if old(f.h.offStrings + f.h.sizeStrings) - Align(|ts[i].val|) + Align(|val|) > old(f.h.total)
                 then -NOSPACE else 0
    ensures r != 0 ==> f.h == old(f.h) && StructOf(f) == old(StructOf(f)) && ts' == ts
    ensures r == 0 ==>
              ts' == WithValue(ts, i, val)
                && Resized(old(f.h), f.h, Align(|val|) - Align(|ts[i].val|), old(f.h.sizeStrings))
    ensures f.h.offStruct == old(f.h.offStruct) && f.mem[..][0..f.h.offStruct] == old(f.mem[..][0..f.h.offStruct])
  {
    hide Next, Cursor, Tree, StructOf, StringsOf, Align, WithValue, Resized;
    ghost var e;
    r, e := ReplaceValue(f, offset, val, ts, i, end);
    if r == 0 {
      ts', end' := WithValue(ts, i, val), e;
    } else {
      ts', end' := ts, end;
    }
  }

  /** fdt_setprop on a property that is missing. */
  method SetMissing(f: Buffer, nodeoffset: nat, name: Bytes, val: Bytes, ghost ts: seq<Token>, ghost k: nat,
                    ghost end: nat)
    returns (r: int, ghost x: Token, ghost ts': seq<Token>, ghost end': nat)
    requires Editable(f, ts, end) && nodeoffset <= INT_MAX && IsNode(StructOf(f), nodeoffset)
    requires Cursor(StructOf(f), ts, k, nodeoffset, end)
    requires NoZero(name) && |name| < INT_MAX && |val| <= INT_MAX - 32
    modifies f, f.mem
    ensures k < |ts| && Editable(f, ts', end')
    ensures r == if old(f.h.offStrings + |WithName(StringsOf(f), name)|) + 12 + Align(|val|) > old(f.h.total)
                 then -NOSPACE else 0
    ensures r != 0 ==>
            f.h == old(f.h) && StructOf(f) == old(StructOf(f)) && StringsOf(f) == old(StringsOf(f)) && ts' == ts
    ensures r == 0 ==>
              && ts' == WithProp(ts, k + 1, x) && x.Prop? && x.val == val
              && StrAt(StringsOf(f), x.nameoff) == Some(name) && StringsOf(f) == old(WithName(StringsOf(f), name))
              && Resized(old(f.h), f.h, 12 + Align(|val|), |StringsOf(f)|)
    ensures f.h.offStruct == old(f.h.offStruct) && f.mem[..][0..f.h.offStruct] == old(f.mem[..][0..f.h.offStruct])
  {
    hide Next, Cursor, Tree, StructOf, StringsOf, Align, StrAt, HasName, Resized, WithName, WithProp;
    ghost var e;
    r, x, e := AddProperty(f, nodeoffset, name, val, ts, k, end);
    if r == 0 {
      ts', end' := WithProp(ts, k + 1, x), e;
    } else {
      ts', end' := ts, end;
    }
  }

  lemma NoNode(s: Bytes, t: Bytes, nodeoffset: int, name: Bytes)
    requires !IsNode(s, nodeoffset)
    ensures PropOfNode(s, t, nodeoffset, name) == -BADOFFSET
  {
  }

  lemma {:induction false} StopErrors(items: seq<Item>, i: nat, name: Bytes)
    ensures FindItem(items, i, name).Stop? ==>
              FindItem(items, i, name).err == NOTFOUND || FindItem(items, i, name).err == BADSTRUCTURE
    decreases |items| - i
  {
    if i < |items| {
      StopErrors(items, i + 1, name);
    }
  }

  /** The tree reads as before with the property set exactly if the names of its properties stay. */
  lemma OutcomeItems(h: Header, s: Bytes, t: Bytes, ts: seq<Token>, end: nat, nodeoffset: int, k: nat, name: Bytes,
                     val: Bytes,
                     h': Header, s': Bytes, t': Bytes, ts': seq<Token>)
    requires (forall j :: 0 <= j < |ts| ==> !ts[j].End?) && NoZero(name)
    requires IsNode(s, nodeoffset) ==> Cursor(s, ts, k, nodeoffset, end)
    requires SetOutcome(h, s, t, ts, nodeoffset, k, name, val, h', s', t', ts', 0)
    ensures k < |ts| && ts[k].Begin? && (forall j :: 0 <= j < |ts'| ==> !ts'[j].End?)
    ensures k < |ts'| && ts'[..k + 1] == ts[..k + 1]
    ensures Items(t', ts') == SetItem(Items(t, ts), k, name, val) <==> NamesStay(t, t', ts, name)
  {
    hide Next, Cursor, StrAt, FindItem, Items, HasName, NamesStay, SetItem, SetTokens, Resized, SetCode;
    CursorStep(s, ts, k, nodeoffset, end);
    SetItemsExactly(t, ts, t', ts', k, name, val);
  }

  /**
    fdt_setprop, with its exact result. On success the property is set, and the tree otherwise reads as
    before exactly if the names of its properties stay; on failure it reads as before, and a name that was
    appended has been dropped again.
  */
  method SetProp(f: Buffer, nodeoffset: int, name: Bytes, val: Bytes, ghost ts: seq<Token>, ghost k: nat,
                 ghost end: nat)
    returns (r: int, ghost ts': seq<Token>, ghost end': nat)
    requires RwProbe(f.h, f.addr) == 0 ==> Editable(f, ts, end) && NodeOffset(f, nodeoffset, ts, k, end)
    requires -INT_MAX - 1 <= nodeoffset <= INT_MAX
    requires NoZero(name) && |name| < INT_MAX && |val| <= INT_MAX - 32
    modifies f, f.mem
    ensures RwProbe(old(f.h), f.addr) != 0 ==>
              r == RwProbe(old(f.h), f.addr) && f.h == old(f.h) && f.mem[..] == old(f.mem[..])
    ensures RwProbe(old(f.h), f.addr) == 0 ==>
              && Editable(f, ts', end')
              && f.h.offStruct == old(f.h.offStruct) && f.mem[..][0..f.h.offStruct] == old(f.mem[..][0..f.h.offStruct])
              && SetOutcome(old(f.h).(version := 17), old(StructOf(f)), old(StringsOf(f)), ts, nodeoffset, k, name, val,
                            f.h, StructOf(f), StringsOf(f), ts', r)
              && (r == 0 ==>
                  && k < |ts|
                  && (Items(StringsOf(f), ts') == SetItem(old(Items(StringsOf(f), ts)), k, name, val)
                      <==> NamesStay(old(StringsOf(f)), StringsOf(f), ts, name)))
  {
    hide Next, Cursor, Tree, Items, NamesStay, SetItem, RwProbe, SetOutcome, IsNode;
    r := ProbeForEdit(f);
    ts', end' := ts, end;
    if r != 0 {
      return;
    }
    ghost var h, s, t := f.h, StructOf(f), StringsOf(f);
    hide StructOf, StringsOf;
    r, ts', end' := SetPropChecked(f, nodeoffset, name, val, ts, k, end);
    if r == 0 {
      OutcomeItems(h, s, t, ts, end, nodeoffset, k, name, val, f.h, StructOf(f), StringsOf(f), ts');
    }
  }

  /** The bytes of a token with its padding. */
  function SizeOf(x: Token): nat {
    match x
    case Begin(name) => 4 + Align(|name| + 1)
    case Prop(_, val) => 12 + Align(|val|)
    case _ => 4
  }

  lemma NextBySize(s: Bytes, off: nat)
    requires Next(s, off).Step? && off % 4 == 0
    ensures Next(s, off).next == off + SizeOf(Next(s, off).tok)
  {
    TokenCells(s, off);
    match Next(s, off).tok {
      case Begin(name) => AlignShift(off + 4, |name| + 1);
      case Prop(_, val) => PropExtent(s, off);
      case _ =>
    }
  }

  /** The same tokens end at the same offset, in whatever blob they stand. */
  lemma {:induction false} SameTokensSameOffset(s: Bytes, s': Bytes, off: nat, ts: seq<Token>, end: nat, end': nat)
    requires Walk(s, off, ts, end) && Walk(s', off, ts, end')
    ensures end == end'
    decreases |ts|
  {
    hide Next, SizeOf;
    if ts != [] {
      NextBySize(s, off);
      NextBySize(s', off);
      SameTokensSameOffset(s, s', Next(s, off).next, ts[1..], end, end');
    }
  }

  /** A node keeps its offset when no token before it changes. */
  lemma OffsetKept(s: Bytes, ts: seq<Token>, end: nat, k: nat, off: nat, s': Bytes, ts': seq<Token>, end': nat)
    requires Cursor(s, ts, k, off, end) && Tree(s', ts', end') && k <= |ts'| && ts'[..k] == ts[..k]
    ensures Cursor(s', ts', k, off, end')
  {
    hide Next;
    assert ts' == ts'[..k] + ts'[k..];
    var mid := WalkSplit(s', 0, ts'[..k], ts'[k..], end');
    SameTokensSameOffset(s, s', 0, ts[..k], off, mid);
  }

  /** fdt_delprop on the property at offset. */
  method RemoveProperty(f: Buffer, offset: nat, ghost ts: seq<Token>, ghost i: nat, ghost end: nat)
    returns (r: int, ghost end': nat)
    requires Editable(f, ts, end) && Cursor(StructOf(f), ts, i, offset, end) && i < |ts| && ts[i].Prop?
    modifies f, f.mem
    ensures r == 0 && Editable(f, ts[..i] + ts[i + 1..], end') && StringsOf(f) == old(StringsOf(f))
    ensures Resized(old(f.h), f.h, 0 - 12 - Align(|ts[i].val|), old(f.h.sizeStrings))
    ensures f.h.offStruct == old(f.h.offStruct) && f.mem[..][0..f.h.offStruct] == old(f.mem[..][0..f.h.offStruct])
  {
    hide Next, Cursor, Tree, StructOf, StringsOf, Be32, Align, SplicedAt;
    ghost var s := StructOf(f);
    CursorStep(s, ts, i, offset, end);
    PropExtent(s, offset);
    CursorStep(s, ts, i + 1, offset + 12 + Align(|ts[i].val|), end);
    var len := StructWord(f, offset + 4);
    r := SpliceStruct(f, offset, 12 + Align(len), 0);
    end' := PropRemoved(s, ts, end, i, offset, StructOf(f));
  }

  /**
    The outcome of fdt_delprop: the first property of that name of the node has disappeared, or the error of
    the search is returned and nothing has changed.
  */
  ghost predicate DelOutcome(h: Header, s: Bytes, t: Bytes, ts: seq<Token>, nodeoffset: int, k: nat, name: Bytes,
                             h': Header, s': Bytes, t': Bytes, ts': seq<Token>, r: int)
    requires forall j :: 0 <= j < |ts| ==> !ts[j].End?
  {
    && t' == t
    && match SearchOf(s, t, nodeoffset, ts, k, name)
       case At(i) =>
         && r == 0 && k < i < |ts| && ts[i].Prop? && ts' == ts[..i] + ts[i + 1..]
         && (forall j :: 0 <= j < |ts'| ==> !ts'[j].End?) && Items(t', ts') == Removed(Items(t, ts), i)
         && Resized(h, h', 0 - 12 - Align(|ts[i].val|), h.sizeStrings)
       case Stop(e) => r == 0 - e < 0 && ts' == ts && h' == h && s' == s
  }

  lemma OutcomeRemoved(h: Header, s: Bytes, t: Bytes, ts: seq<Token>, nodeoffset: int, k: nat, i: nat, name: Bytes,
                       h': Header, s': Bytes)
    requires (forall j :: 0 <= j < |ts| ==> !ts[j].End?) && IsNode(s, nodeoffset) && i < |ts| && ts[i].Prop?
    requires FindItem(Items(t, ts), k + 1, name) == At(i) && Resized(h, h', 0 - 12 - Align(|ts[i].val|), h.sizeStrings)
    ensures DelOutcome(h, s, t, ts, nodeoffset, k, name, h', s', t, ts[..i] + ts[i + 1..], 0)
  {
    hide Align, Resized, Removed, Items;
    FoundBehind(Items(t, ts), k + 1, name);
    RemovedItems(t, ts, i);
  }

  lemma FoundBehind(items: seq<Item>, i: nat, name: Bytes)
    ensures FindItem(items, i, name).At? ==> FindItem(items, i, name).index >= i
  {
  }

  /** fdt_delprop, after the probe. */
  method DelPropChecked(f: Buffer, nodeoffset: int, name: Bytes, ghost ts: seq<Token>, ghost k: nat, ghost end: nat)
    returns (r: int, ghost ts': seq<Token>, ghost end': nat)
    requires Editable(f, ts, end) && NodeOffset(f, nodeoffset, ts, k, end)
    requires -INT_MAX - 1 <= nodeoffset <= INT_MAX
    modifies f, f.mem
    ensures f.h.offStruct == old(f.h.offStruct) && f.mem[..][0..f.h.offStruct] == old(f.mem[..][0..f.h.offStruct])
    ensures Editable(f, ts', end')
    ensures DelOutcome(old(f.h), old(StructOf(f)), old(StringsOf(f)), ts, nodeoffset, k, name,
                       f.h, StructOf(f), StringsOf(f), ts', r)
  {
    hide Next, Cursor, Tree, StructOf, StringsOf, StrAt, FindItem, Items, Align, PropOfNode, Resized, Removed;
    ghost var h, s, t := f.h, StructOf(f), StringsOf(f);
    ts', end' := ts, end;
    var offset := FindProperty(f, nodeoffset, name);
    if IsNode(s, nodeoffset) {
      NodeSearchOnTree(s, t, ts, k, nodeoffset, end, name);
    } else {
      NoNode(s, t, nodeoffset, name);
    }
    if offset < 0 {
      return offset, ts', end';
    }
    hide DelOutcome;
    ghost var i := FindItem(Items(t, ts), k + 1, name).index;
    r, end' := RemoveProperty(f, offset, ts, i, end);
    OutcomeRemoved(h, s, t, ts, nodeoffset, k, i, name, f.h, StructOf(f));
    ts' := ts[..i] + ts[i + 1..];
  }

  /** fdt_delprop: the first property of that name of the node disappears, or nothing changes. */
  method DelProp(f: Buffer, nodeoffset: int, name: Bytes, ghost ts: seq<Token>, ghost k: nat, ghost end: nat)
    returns (r: int, ghost ts': seq<Token>, ghost end': nat)
    requires RwProbe(f.h, f.addr) == 0 ==> Editable(f, ts, end) && NodeOffset(f, nodeoffset, ts, k, end)
    requires -INT_MAX - 1 <= nodeoffset <= INT_MAX
    modifies f, f.mem
    ensures RwProbe(old(f.h), f.addr) != 0 ==>
              r == RwProbe(old(f.h), f.addr) && f.h == old(f.h) && f.mem[..] == old(f.mem[..])
    ensures RwProbe(old(f.h), f.addr) == 0 ==>
              && Editable(f, ts', end')
              && f.h.offStruct == old(f.h.offStruct) && f.mem[..][0..f.h.offStruct] == old(f.mem[..][0..f.h.offStruct])
              && DelOutcome(old(f.h).(version := 17), old(StructOf(f)), old(StringsOf(f)), ts, nodeoffset, k, name,
                            f.h, StructOf(f), StringsOf(f), ts', r)
  {
    hide Next, Cursor, Tree, RwProbe, DelOutcome, IsNode;
    r := ProbeForEdit(f);
    ts', end' := ts, end;
    if r != 0 {
      return;
    }
    r, ts', end' := DelPropChecked(f, nodeoffset, name, ts, k, end);
  }

  lemma RemovedItems(t: Bytes, ts: seq<Token>, i: nat)
    requires i < |ts| && (forall j :: 0 <= j < |ts| ==> !ts[j].End?)
    ensures var us := ts[..i] + ts[i + 1..];
            (forall j :: 0 <= j < |us| ==> !us[j].End?) && Items(t, us) == Removed(Items(t, ts), i)
  {
    hide StrAt;
  }
}
