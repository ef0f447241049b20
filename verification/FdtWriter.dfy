/**
  The sequential writer of libfdt/fdt_sw.c: structure tokens are appended from the front of
  the buffer, property names are collected backwards from its end, and fdt_finish moves the
  names behind the structure and corrects every name offset.
*/
module FdtWriter {
  import opened Machine
  import opened FdtFormat
  import opened FdtReader

  const RSV_START := 48   // the header rounded up to a reservation entry
  const BADFLAGS := 18

  /** The calls a client makes between fdt_finish_reservemap and fdt_finish. */
  datatype Call = BeginCall(name: Bytes) | EndCall | PropCall(name: Bytes, val: Bytes)

  // ---- Windows of a buffer -----------------------------------------------------------------------

  lemma PatchWindow(b: Bytes, o: nat, t: Bytes, lo: nat, hi: nat)
    requires o + |t| <= |b| && lo <= hi <= |b| && (hi <= o || o + |t| <= lo)
    ensures Patch(b, o, t)[lo..hi] == b[lo..hi]
  {
  }

  lemma PatchInside(b: Bytes, o: nat, t: Bytes, lo: nat, hi: nat)
    requires o + |t| <= |b| && lo <= o && o + |t| <= hi <= |b|
    ensures Patch(b, o, t)[lo..hi] == Patch(b[lo..hi], o - lo, t)
  {
  }

  /** memcpy into the buffer. */
  method PutBytes(f: Buffer, p: nat, s: Bytes)
    requires p + |s| <= f.mem.Length
    modifies f.mem
    ensures f.mem[..] == Patch(old(f.mem[..]), p, s)
  {
    ghost var b := f.mem[..];
    for i := 0 to |s|
      invariant f.mem[..] == Patch(b, p, s[..i])
    {
      f.mem[p + i] := s[i];
      assert f.mem[..] == Patch(b, p, s[..i + 1]);
    }
    assert s[..|s|] == s;
  }

  /** memmove inside the buffer: the regions may overlap. */
  method MoveBytes(f: Buffer, dst: nat, src: nat, n: nat)
    requires dst + n <= f.mem.Length && src + n <= f.mem.Length
    modifies f.mem
    ensures f.mem[..] == Patch(old(f.mem[..]), dst, old(f.mem[..])[src..src + n])
  {
    if dst <= src {
      MoveDown(f, dst, src, n);
    } else {
      MoveUp(f, dst, src, n);
    }
  }

  /** The bytes from src + i to src + j have been copied to dst + i. */
  function Moved(b: Bytes, dst: nat, src: nat, i: nat, j: nat): (r: Bytes)
    requires i <= j && dst + j <= |b| && src + j <= |b|
    ensures |r| == |b|
  {
    Patch(b, dst + i, b[src + i..src + j])
  }

  method MoveDown(f: Buffer, dst: nat, src: nat, n: nat)
    requires dst <= src && src + n <= f.mem.Length
    modifies f.mem
    ensures f.mem[..] == Moved(old(f.mem[..]), dst, src, 0, n)
  {
    ghost var b := f.mem[..];
    NothingMoved(b, dst, src, 0);
    hide Moved;
    for i := 0 to n
      invariant f.mem[..] == Moved(b, dst, src, 0, i)
    {
      OneMoreDown(b, dst, src, i);
      MoveByte(f, dst + i, src + i);
    }
  }

  method MoveUp(f: Buffer, dst: nat, src: nat, n: nat)
    requires src < dst && dst + n <= f.mem.Length
    modifies f.mem
    ensures f.mem[..] == Moved(old(f.mem[..]), dst, src, 0, n)
  {
    ghost var b := f.mem[..];
    NothingMoved(b, dst, src, n);
    hide Moved;
    for i := n downto 0
      invariant f.mem[..] == Moved(b, dst, src, i, n)
    {
      OneMoreUp(b, dst, src, i, n);
      MoveByte(f, dst + i, src + i);
    }
  }

  method MoveByte(f: Buffer, dst: nat, src: nat)
    requires dst < f.mem.Length && src < f.mem.Length
    modifies f.mem
    ensures f.mem[..] == old(f.mem[..])[dst := old(f.mem[..])[src]]
  {
    f.mem[dst] := f.mem[src];
  }

  lemma NothingMoved(b: Bytes, dst: nat, src: nat, i: nat)
    requires dst + i <= |b| && src + i <= |b|
    ensures Moved(b, dst, src, i, i) == b
  {
  }

  lemma OneMoreDown(b: Bytes, dst: nat, src: nat, i: nat)
    requires dst <= src && src + i < |b|
    ensures var m := Moved(b, dst, src, 0, i); m[dst + i := m[src + i]] == Moved(b, dst, src, 0, i + 1)
  {
    var m := Moved(b, dst, src, 0, i);
    assert m[src + i] == b[dst + i..][src - dst];
    assert b[src..src + (i + 1)] == b[src..src + i] + [b[src + i]];
  }

  lemma OneMoreUp(b: Bytes, dst: nat, src: nat, i: nat, n: nat)
    requires src < dst && i < n && dst + n <= |b|
    ensures var m := Moved(b, dst, src, i + 1, n); m[dst + i := m[src + i]] == Moved(b, dst, src, i, n)
  {
    assert b[src + i..src + n] == [b[src + i]] + b[src + (i + 1)..src + n];
  }

  // ---- What has been written ---------------------------------------------------------------------

  /** The name n stands k bytes before the end of the strings t. */
  ghost predicate NamedFromEnd(t: Bytes, k: int, n: Bytes) {
    |n| + 1 <= k <= |t| && t[|t| - k..|t| - k + |n| + 1] == n + [0]
  }

  /** The token is what the call asked for; a property's name offset counts back from the end. */
  ghost predicate Written(t: Bytes, x: Token, c: Call) {
    match c
    case BeginCall(n) => x == Begin(n)
    case EndCall => x == EndNode
    case PropCall(n, v) => x.Prop? && x.val == v && NamedFromEnd(t, WORD - x.nameoff, n) && NoZero(n)
  }

  ghost predicate AllWritten(t: Bytes, ts: seq<Token>, calls: seq<Call>) {
    |ts| == |calls| && forall i :: 0 <= i < |ts| ==> Written(t, ts[i], calls[i])
  }

  /** Adding names in front of the others moves none of them relative to the end. */
  lemma WrittenPrepend(t: Bytes, t': Bytes, ts: seq<Token>, calls: seq<Call>)
    requires AllWritten(t, ts, calls) && |t| <= |t'| && t'[|t'| - |t|..] == t
    ensures AllWritten(t', ts, calls)
  {
    forall i | 0 <= i < |ts|
      ensures Written(t', ts[i], calls[i])
    {
      assert Written(t, ts[i], calls[i]);
      if calls[i].PropCall? {
        var k, n := WORD - ts[i].nameoff, calls[i].name;
        SliceOfSlice(t', |t'| - |t|, |t'|, |t| - k, |t| - k + |n| + 1);
      }
    }
  }

  /** One more token at the end of a structure block. */
  lemma AppendToken(s: Bytes, ts: seq<Token>, x: Bytes, tok: Token, n: nat)
    requires Walk(s, 0, ts, |s|) && Lex(x) == Lexeme(tok, n) && |x| == Align(n) && !tok.End?
    ensures Walk(s + x, 0, ts + [tok], |s + x|)
  {
    hide Lex;
    var s' := s + x;
    WalkBounds(s, 0, ts, |s|);
    assert s'[0..|s|] == s[0..|s|];
    WalkShift(s, 0, ts, |s|, s', 0);
    assert s'[|s|..] == x;
    AlignShift(|s|, n);
    assert Next(s', |s|) == Step(tok, |s'|);
    assert Walk(s', |s|, [tok], |s'|);
    WalkJoin(s', 0, ts, |s|, [tok], |s'|);
  }

  /** A word at the front of some bytes. */
  lemma WordFirst(v: nat, rest: Bytes)
    requires v < WORD
    ensures Be32(Enc32(v) + rest, 0) == v
  {
    var x := Enc32(v) + rest;
    assert x[0] == Enc32(v)[0] && x[1] == Enc32(v)[1] && x[2] == Enc32(v)[2] && x[3] == Enc32(v)[3];
  }

  /** Reading a word past a prefix. */
  lemma WordAfter(u: Bytes, x: Bytes, o: nat)
    requires o + 4 <= |x|
    ensures Be32(u + x, |u| + o) == Be32(x, o)
  {
  }

  lemma LexBegin(name: Bytes, pad: Bytes)
    requires NoZero(name)
    ensures Lex(Enc32(TAG_BEGIN) + (name + [0]) + pad) == Lexeme(Begin(name), 5 + |name|)
  {
    var tag := Enc32(TAG_BEGIN);
    hide Enc32;
    var x := tag + (name + [0]) + pad;
    assert x == tag + ((name + [0]) + pad);
    WordFirst(TAG_BEGIN, (name + [0]) + pad);
    assert forall i :: 4 <= i < 4 + |name| ==> x[i] == name[i - 4];
    assert x[4 + |name|] == 0;
    ZeroFromUnique(x, 4, 4 + |name|);
    assert x[4..4 + |name|] == name;
  }

  lemma LexProp(nameoff: nat, val: Bytes, pad: Bytes)
    requires nameoff < WORD && |val| < WORD
    ensures Lex(Enc32(TAG_PROP) + Enc32(|val|) + Enc32(nameoff) + val + pad) == Lexeme(Prop(nameoff, val), 12 + |val|)
  {
    var tag, len, off := Enc32(TAG_PROP), Enc32(|val|), Enc32(nameoff);
    hide Enc32;
    var x := tag + len + off + val + pad;
    WordFirst(TAG_PROP, len + off + val + pad);
    assert x == tag + (len + off + val + pad);
    WordFirst(|val|, off + val + pad);
    WordAfter(tag, len + (off + val + pad), 0);
    assert x == tag + (len + (off + val + pad));
    WordFirst(nameoff, val + pad);
    WordAfter(tag + len, off + (val + pad), 0);
    assert x == (tag + len) + (off + (val + pad));
    assert x[12..12 + |val|] == val;
  }

  lemma LexPlain(tok: Token, pad: Bytes)
    requires tok == EndNode || tok == End || tok == Nop
    ensures Lex(Enc32(TagOf(tok)) + pad) == Lexeme(tok, 4)
  {
    hide Enc32;
    WordFirst(TagOf(tok), pad);
  }

  // ---- The writer --------------------------------------------------------------------------------

  /** fdt_sw_probe_struct_ */
  function ProbeStruct(h: Header): int {
    if h.magic == FDT_MAGIC then -BADSTATE
    else if h.magic != SW_MAGIC then -BADMAGIC
    else if h.offStrings != h.total then -BADSTATE else 0
  }

  /** fdt_sw_probe_memrsv_ */
  function ProbeMemrsv(h: Header): int {
    if h.magic == FDT_MAGIC then -BADSTATE
    else if h.magic != SW_MAGIC then -BADMAGIC
    else if h.offStrings != 0 then -BADSTATE else 0
  }

  /** The two ends of the buffer that a writer fills. */
  predicate Layout(h: Header, size: nat) {
    && h.version == 17 && h.total == size <= INT_MAX && h.offRsv == RSV_START
    && RSV_START <= h.offStruct && h.offStruct + h.sizeStruct + h.sizeStrings <= h.total
    && h.lastComp < 2
  }

  function NamesOf(h: Header, b: Bytes): Bytes
    requires Layout(h, |b|)
  {
    b[h.total - h.sizeStrings..]
  }

  /** The bytes taken at both ends of the buffer. */
  function Used(h: Header): nat {
    h.offStruct + h.sizeStruct + h.sizeStrings
  }

  /** fdt_property adds the name to the strings: they lack it, or the tree is created without de-duplication. */
  ghost predicate NewName(h: Header, b: Bytes, name: Bytes) {
    Layout(h, |b|) && (h.lastComp % 2 == 1 || !HasName(NamesOf(h, b), name))
  }

  ghost function NameBytes(h: Header, b: Bytes, name: Bytes): nat {
    if NewName(h, b, name) then |name| + 1 else 0
  }

  // ---- Reservations ------------------------------------------------------------------------------

  /** The reservation entries from the header to the structure block, at o. */
  ghost predicate Reserved(o: nat, b: Bytes, rs: seq<Rsv>) {
    o == RSV_START + 16 * |rs| <= |b| && forall k :: 0 <= k < |rs| ==> RsvAt(b, RSV_START, k) == rs[k]
  }

  /** The first n bytes are as they were. */
  ghost predicate SameFront(b: Bytes, b': Bytes, n: nat) {
    n <= |b| == |b'| && b'[..n] == b[..n]
  }

  lemma ReservedFrame(o: nat, b: Bytes, b': Bytes, rs: seq<Rsv>)
    requires Reserved(o, b, rs) && SameFront(b, b', o)
    ensures Reserved(o, b', rs)
  {
    assert forall i :: 0 <= i < o ==> b'[i] == b'[..o][i] == b[..o][i] == b[i];
  }

  lemma PatchFront(b: Bytes, p: nat, t: Bytes, n: nat)
    requires n <= p && p + |t| <= |b|
    ensures SameFront(b, Patch(b, p, t), n)
  {
  }

  lemma PatchBack(b: Bytes, p: nat, t: Bytes)
    requires p + |t| <= |b|
    ensures Patch(b, p, t)[p + |t|..] == b[p + |t|..]
  {
  }

  lemma FrontAfterTwo(b: Bytes, n: nat, p: nat, t: Bytes, q: nat, u: Bytes)
    requires n <= p && n <= q && p + |t| <= |b| && q + |u| <= |b|
    ensures SameFront(b, Patch(Patch(b, p, t), q, u), n)
  {
    PatchFront(b, p, t, n);
    PatchFront(Patch(b, p, t), q, u, n);
    hide Patch;
  }

  lemma ReservedAfterFour(o: nat, b: Bytes, p: nat, t: Bytes, u: Bytes, v: Bytes, x: Bytes, rs: seq<Rsv>)
    requires Reserved(o, b, rs) && o <= p && |t| == |u| == |v| == 4 && p + 12 + |x| <= |b|
    ensures Reserved(o, Patch(Patch(Patch(Patch(b, p, t), p + 4, u), p + 8, v), p + 12, x), rs)
  {
    var b1 := Patch(Patch(b, p, t), p + 4, u);
    FrontAfterTwo(b, o, p, t, p + 4, u);
    FrontAfterTwo(b1, o, p + 8, v, p + 12, x);
    hide Patch, Reserved;
    ReservedFrame(o, b, b1, rs);
    ReservedFrame(o, b1, Patch(Patch(b1, p + 8, v), p + 12, x), rs);
  }

  /** The two doublewords of an entry in memory. */
  lemma EntryBytes(addr: nat, size: nat)
    requires addr < WORD * WORD && size < WORD * WORD
    ensures addr / WORD < WORD && size / WORD < WORD
    ensures var e := Enc32(addr / WORD) + Enc32(addr % WORD) + Enc32(size / WORD) + Enc32(size % WORD);
            Be64(e, 0) == addr && Be64(e, 8) == size
  {
    var a, b, c, d := Enc32(addr / WORD), Enc32(addr % WORD), Enc32(size / WORD), Enc32(size % WORD);
    hide Enc32;
    var e := a + b + c + d;
    assert e == a + (b + c + d) == (a + b) + (c + d) == (a + b + c) + (d + []);
    WordFirst(addr / WORD, b + c + d);
    WordFirst(addr % WORD, c + d);
    assert b + c + d == b + (c + d);
    WordAfter(a, b + c + d, 0);
    WordFirst(size / WORD, d);
    WordAfter(a + b, c + d, 0);
    WordFirst(size % WORD, []);
    WordAfter(a + b + c, d + [], 0);
  }

  /** The bytes of an entry written behind the others add it to them. */
  lemma EntryAdded(o: nat, b: Bytes, rs: seq<Rsv>, e: Bytes, x: Rsv)
    requires Reserved(o, b, rs) && o + 16 <= |b| && |e| == 16 && Rsv(Be64(e, 0), Be64(e, 8)) == x
    ensures Reserved(o + 16, Patch(b, o, e), rs + [x])
  {
    var b', rs' := Patch(b, o, e), rs + [x];
    PatchFront(b, o, e, o);
    ReservedFrame(o, b, b', rs);
    assert b'[o..o + 16] == e;
    WindowEntry(b', RSV_START, |rs|);
    hide RsvAt;
    forall k | 0 <= k < |rs'|
      ensures RsvAt(b', RSV_START, k) == rs'[k]
    {
    }
  }

  /** When the last entry has size 0, the block is closed. */
  lemma ReservedClosed(h: Header, b: Bytes, rs: seq<Rsv>)
    requires Reserved(h.offStruct, b, rs) && rs != [] && rs[|rs| - 1].size == 0
    requires h.offRsv == RSV_START && h.offStruct <= h.total <= |b|
    ensures RsvClosed(h, b)
  {
    var k := |rs| - 1;
    assert RsvAt(b, RSV_START, k) == rs[k];
    TerminatorHasSizeZero(h, b, k);
    assert RsvEndsAt(h, b, k);
  }

  class Writer {
    const f: Buffer
    ghost var rsvs: seq<Rsv>      // the reservations, the terminator included
    ghost var ts: seq<Token>
    ghost var calls: seq<Call>

    /** fdt_create_with_flags on a buffer of at least the header's size. */
    constructor (f: Buffer, flags: nat)
      requires RSV_START <= f.mem.Length <= INT_MAX && flags < 2
      modifies f, f.mem
      ensures this.f == f && Reserving() && f.h.lastComp == flags && rsvs == []
      ensures forall i :: 0 <= i < f.mem.Length ==> f.mem[i] == 0
    {
      this.f := f;
      rsvs, ts, calls := [], [], [];
      new;
      for i := 0 to f.mem.Length
        modifies f.mem
        invariant forall k :: 0 <= k < i ==> f.mem[k] == 0
      {
        f.mem[i] := 0;
      }
      f.h := Header(SW_MAGIC, f.mem.Length, RSV_START, 0, RSV_START, 17, flags, 0, 0);
    }

    /** The state before fdt_finish_reservemap. */
    ghost predicate Reserving()
      reads this, f, f.mem
    {
      && ProbeMemrsv(f.h) == 0 && Layout(f.h, f.mem.Length)
      && f.h.sizeStruct == 0 && f.h.sizeStrings == 0 && Reserved(f.h.offStruct, f.mem[..], rsvs)
      && ts == [] && calls == []
    }

    /** The state between fdt_finish_reservemap and fdt_finish. */
    ghost predicate Writing()
      reads this, f, f.mem
    {
      && Consistent(f.h, f.mem[..], ts, calls)
      && Reserved(f.h.offStruct, f.mem[..], rsvs) && rsvs != [] && rsvs[|rsvs| - 1].size == 0
    }

    /** fdt_add_reservemap_entry: the entry is written behind the others, and nothing else. */
    method AddReservemapEntry(addr: nat, size: nat) returns (r: int)
      requires addr < WORD * WORD && size < WORD * WORD
      requires ProbeMemrsv(f.h) == 0 ==> Reserving()
      modifies this`rsvs, f, f.mem
      ensures r == if ProbeMemrsv(old(f.h)) != 0 then ProbeMemrsv(old(f.h))
                   else if old(f.h.offStruct) + 16 > f.mem.Length then -NOSPACE else 0
      ensures r != 0 ==> f.h == old(f.h) && f.mem[..] == old(f.mem[..]) && rsvs == old(rsvs)
      ensures r == 0 ==>
                && Reserving() && rsvs == old(rsvs) + [Rsv(addr, size)]
                && f.h == old(f.h).(offStruct := old(f.h.offStruct) + 16)
                && RsvAt(f.mem[..], RSV_START, |old(rsvs)|) == Rsv(addr, size)
                && f.mem[..][f.h.offStruct..] == old(f.mem[..])[old(f.h.offStruct) + 16..]
                && SameFront(old(f.mem[..]), f.mem[..], old(f.h.offStruct))
    {
      var err := ProbeMemrsv(f.h);
      if err != 0 {
        return err;
      }
      var offset := f.h.offStruct;
      if offset + 16 > f.h.total {
        return -NOSPACE;
      }
      EntryBytes(addr, size);
      var entry := Enc32(addr / WORD) + Enc32(addr % WORD) + Enc32(size / WORD) + Enc32(size % WORD);
      EntryAdded(offset, f.mem[..], rsvs, entry, Rsv(addr, size));
      PatchFront(f.mem[..], offset, entry, offset);
      PatchBack(f.mem[..], offset, entry);
      hide Enc32, Patch, RsvAt, SameFront;
      PutBytes(f, offset, entry);
      f.h := f.h.(offStruct := offset + 16);
      rsvs := rsvs + [Rsv(addr, size)];
      return 0;
    }

    /** fdt_finish_reservemap */
    method FinishReservemap() returns (r: int)
      requires ProbeMemrsv(f.h) == 0 ==> Reserving()
      modifies this`rsvs, f, f.mem
      ensures r == if ProbeMemrsv(old(f.h)) != 0 then ProbeMemrsv(old(f.h))
                   else if old(f.h.offStruct) + 16 > f.mem.Length then -NOSPACE else 0
      ensures r == 0 ==> Writing() && old(Reserving()) && rsvs == old(rsvs) + [Rsv(0, 0)]
      ensures r == 0 ==> SameFront(old(f.mem[..]), f.mem[..], old(f.h.offStruct))
      ensures r != 0 ==> f.h == old(f.h) && f.mem[..] == old(f.mem[..]) && rsvs == old(rsvs)
    {
      r := AddReservemapEntry(0, 0);
      if r != 0 {
        return;
      }
      ReservedClosed(f.h, f.mem[..], rsvs);
      f.h := f.h.(offStrings := f.h.total);
    }

    /** fdt_grab_space_: len more bytes of structure block, if they leave the names alone. */
    method GrabSpace(len: nat) returns (ok: bool, p: nat)
      requires Layout(f.h, f.mem.Length) && len < WORD
      modifies f
      ensures ok <==> old(f.h.offStruct + f.h.sizeStruct) + len <= f.h.total - old(f.h.sizeStrings)
      ensures ok ==> p == old(f.h.offStruct + f.h.sizeStruct)
                     && f.h == old(f.h).(sizeStruct := old(f.h.sizeStruct) + len)
      ensures !ok ==> f.h == old(f.h)
    {
      var offset := f.h.sizeStruct;
      var spaceleft := f.h.total - f.h.offStruct - f.h.sizeStrings;
      if (offset + len) % WORD < offset || (offset + len) % WORD > spaceleft {
        return false, 0;
      }
      f.h := f.h.(sizeStruct := offset + len);
      return true, f.h.offStruct + offset;
    }

    /** fdt_begin_node */
    method BeginNode(name: Bytes) returns (r: int)
      requires NoZero(name) && |name| < INT_MAX - 8
      requires ProbeStruct(f.h) == 0 ==> Writing()
      modifies this`ts, this`calls, f, f.mem
      ensures r == if ProbeStruct(old(f.h)) != 0 then ProbeStruct(old(f.h))
                   else if old(Used(f.h)) + 4 + Align(|name| + 1) > f.mem.Length
                   then -NOSPACE else 0
      ensures r == 0 ==> Writing() && calls == old(calls) + [BeginCall(name)]
      ensures r != 0 ==> f.h == old(f.h) && f.mem[..] == old(f.mem[..]) && calls == old(calls) && ts == old(ts)
    {
      var err := ProbeStruct(f.h);
      if err != 0 {
        return err;
      }
      ConsistentLayout(f.h, f.mem[..], ts, calls);
      hide Consistent, Align, NoZero, Layout, Reserved;
      r := BeginCells(name);
    }

    /** The structure part of fdt_begin_node. */
    method BeginCells(name: Bytes) returns (r: int)
      requires NoZero(name) && |name| < INT_MAX - 8 && Layout(f.h, f.mem.Length) && Writing()
      modifies this`ts, this`calls, f, f.mem
      ensures r == if old(Used(f.h)) + 4 + Align(|name| + 1) > f.mem.Length then -NOSPACE else 0
      ensures r == 0 ==> Writing() && calls == old(calls) + [BeginCall(name)]
      ensures r != 0 ==> f.h == old(f.h) && f.mem[..] == old(f.mem[..]) && calls == old(calls) && ts == old(ts)
    {
      hide Consistent, Patch, Enc32, Reserved, SameFront;
      ghost var h, b := f.h, f.mem[..];
      var ok, p := GrabSpace(4 + Align(|name| + 1));
      if !ok {
        return -NOSPACE;
      }
      PutBytes(f, p, Enc32(TAG_BEGIN));
      PutBytes(f, p + 4, name + [0]);
      BeginWritten(h, b, f.h, ts, calls, name);
      FrontAfterTwo(b, h.offStruct, p, Enc32(TAG_BEGIN), p + 4, name + [0]);
      ReservedFrame(h.offStruct, b, f.mem[..], rsvs);
      ts, calls := ts + [Begin(name)], calls + [BeginCall(name)];
      return 0;
    }

    /**
      fdt_add_string_: the name goes in front of the others; its distance from the end of the
      buffer, or 0 if there is no room.
    */
    method AddString(name: Bytes) returns (k: nat)
      requires Writing() && |name| < INT_MAX && f.h.sizeStrings + |name| + 1 <= f.mem.Length
      modifies f, f.mem
      ensures k == 0 <==> old(Used(f.h)) + |name| + 1 > f.mem.Length
      ensures k == 0 ==> f.h == old(f.h) && f.mem[..] == old(f.mem[..])
      ensures k > 0 ==> f.h == old(f.h).(sizeStrings := old(f.h.sizeStrings) + |name| + 1) && k == f.h.sizeStrings
      ensures k > 0 ==> Writing() && NamedFromEnd(NamesOf(f.h, f.mem[..]), k, name)
      ensures k > 0 ==> Consistent(old(f.h), f.mem[..], ts, calls)
    {
      ConsistentLayout(f.h, f.mem[..], ts, calls);
      StringFitsIsExact(f.h, f.mem.Length, |name| + 1);
      hide Consistent, Patch, StringFits, NamedFromEnd, NamesOf, Layout, Reserved;
      if !StringFits(f.h, |name| + 1) {
        return 0;
      }
      StoreName(name);
      k := f.h.sizeStrings;
    }

    /** The name goes in front of the others. */
    method StoreName(name: Bytes)
      requires Writing() && Layout(f.h, f.mem.Length) && ProbeStruct(f.h) == 0
      requires f.h.offStruct + f.h.sizeStruct + f.h.sizeStrings + |name| + 1 <= f.h.total
      modifies f, f.mem
      ensures f.h == old(f.h).(sizeStrings := old(f.h.sizeStrings) + |name| + 1)
      ensures Layout(f.h, f.mem.Length) && Writing()
      ensures NamedFromEnd(NamesOf(f.h, f.mem[..]), f.h.sizeStrings, name)
      ensures Consistent(old(f.h), f.mem[..], ts, calls)
    {
      hide Consistent, Patch, NamedFromEnd, NamesOf, Reserved, SameFront;
      ghost var h, b := f.h, f.mem[..];
      var k := f.h.sizeStrings + |name| + 1;
      PatchFront(b, h.total - k, name + [0], h.offStruct);
      ReservedFrame(h.offStruct, b, Patch(b, h.total - k, name + [0]), rsvs);
      PutBytes(f, f.h.total - k, name + [0]);
      f.h := f.h.(sizeStrings := k);
      GapPatched(h, b, h.total - k, name + [0], ts, calls);
      NameAdded(h, b, f.h, name, ts, calls);
    }

    /** fdt_find_add_string_: the name is reused if the strings already contain it. */
    method FindAddString(name: Bytes) returns (k: nat, added: bool)
      requires Writing() && Layout(f.h, f.mem.Length) && |name| < INT_MAX
      requires HasName(NamesOf(f.h, f.mem[..]), name) || f.h.sizeStrings + |name| + 1 <= f.mem.Length
      modifies f, f.mem
      ensures added <==> !old(HasName(NamesOf(f.h, f.mem[..]), name))
      ensures k == 0 <==> added && old(Used(f.h)) + |name| + 1 > f.mem.Length
      ensures k == 0 ==> f.h == old(f.h) && f.mem[..] == old(f.mem[..])
      ensures k > 0 ==> Writing() && NamedFromEnd(NamesOf(f.h, f.mem[..]), k, name) && k <= f.h.sizeStrings
      ensures k > 0 ==> Consistent(old(f.h), f.mem[..], ts, calls)
      ensures k > 0 ==> f.h == if added then old(f.h).(sizeStrings := old(f.h.sizeStrings) + |name| + 1) else old(f.h)
    {
      ConsistentLayout(f.h, f.mem[..], ts, calls);
      hide Consistent, HasName, Reserved;
      var from := f.h.total - f.h.sizeStrings;
      var r := FindString(f, from, f.h.sizeStrings, name);
      assert f.mem[..][from..] == f.mem[..][from..f.mem.Length];
      if r >= 0 {
        return f.h.sizeStrings - r, false;
      }
      k := AddString(name);
      added := true;
    }

    /** The name of a property; the flag FDT_CREATE_FLAG_NO_NAME_DEDUP skips the search. */
    method NameFor(name: Bytes) returns (k: nat, added: bool)
      requires Writing() && Layout(f.h, f.mem.Length) && |name| < INT_MAX
      requires NewName(f.h, f.mem[..], name) ==> f.h.sizeStrings + |name| + 1 <= f.mem.Length
      modifies f, f.mem
      ensures added <==> old(NewName(f.h, f.mem[..], name))
      ensures k == 0 <==> added && old(Used(f.h)) + |name| + 1 > f.mem.Length
      ensures k == 0 ==> f.h == old(f.h) && f.mem[..] == old(f.mem[..])
      ensures k > 0 ==>
              Layout(f.h, f.mem.Length) && NamedFromEnd(NamesOf(f.h, f.mem[..]), k, name) && k <= f.h.sizeStrings
      ensures k > 0 ==> Writing() && Consistent(old(f.h), f.mem[..], ts, calls)
      ensures k > 0 ==> f.h == if added then old(f.h).(sizeStrings := old(f.h.sizeStrings) + |name| + 1) else old(f.h)
    {
      hide Consistent, NamedFromEnd, NamesOf, HasName, Reserved;
      if f.h.lastComp % 2 == 1 {
        added := true;
        k := AddString(name);
      } else {
        k, added := FindAddString(name);
      }
      if k > 0 {
        ConsistentLayout(f.h, f.mem[..], ts, calls);
      }
    }

    /**
      fdt_property: header words, name and value of a property. A call that finds no room
      takes back the name it added.
    */
    method Property(name: Bytes, val: Bytes) returns (r: int)
      requires NoZero(name) && |name| < INT_MAX && |val| < INT_MAX - 16
      requires ProbeStruct(f.h) == 0 ==>
                 && Writing() && Layout(f.h, f.mem.Length)
                 && (NewName(f.h, f.mem[..], name) ==> f.h.sizeStrings + |name| + 1 <= f.mem.Length)
      modifies this`ts, this`calls, f, f.mem
      ensures r == if ProbeStruct(old(f.h)) != 0 then ProbeStruct(old(f.h))
                   else if old(Used(f.h)) + old(NameBytes(f.h, f.mem[..], name)) + 12 + Align(|val|) > f.mem.Length
                   then -NOSPACE else 0
      ensures r == 0 ==> Writing() && calls == old(calls) + [PropCall(name, val)]
      ensures r != 0 ==> f.h == old(f.h) && calls == old(calls) && ts == old(ts)
      ensures r != 0 && ProbeStruct(f.h) == 0 ==> Writing()
    {
      var err := ProbeStruct(f.h);
      if err != 0 {
        return err;
      }
      hide Consistent, NamedFromEnd, NamesOf, HasName, Align, Reserved;
      var k, added := NameFor(name);
      if k == 0 {
        return -NOSPACE;
      }
      r := PropertyCells(name, val, k);
      if r != 0 && added {
        f.h := f.h.(sizeStrings := f.h.sizeStrings - (|name| + 1));
      }
    }

    /** The structure part of fdt_property, once the name stands k bytes before the end. */
    method PropertyCells(name: Bytes, val: Bytes, k: nat) returns (r: int)
      requires NoZero(name) && |val| < INT_MAX - 16 && Writing() && Layout(f.h, f.mem.Length)
      requires 0 < k <= f.h.sizeStrings && NamedFromEnd(NamesOf(f.h, f.mem[..]), k, name)
      modifies this`ts, this`calls, f, f.mem
      ensures r == if old(Used(f.h)) + 12 + Align(|val|) > f.mem.Length then -NOSPACE else 0
      ensures r == 0 ==> Writing() && calls == old(calls) + [PropCall(name, val)]
      ensures r != 0 ==> f.h == old(f.h) && f.mem[..] == old(f.mem[..]) && calls == old(calls) && ts == old(ts)
    {
      hide Consistent, NamedFromEnd, Patch, Enc32, Reserved;
      ghost var h, b := f.h, f.mem[..];
      var ok, p := GrabSpace(12 + Align(|val|));
      if !ok {
        return -NOSPACE;
      }
      PutBytes(f, p, Enc32(TAG_PROP));
      PutBytes(f, p + 4, Enc32(|val|));
      PutBytes(f, p + 8, Enc32(WORD - k));
      PutBytes(f, p + 12, val);
      PropWritten(h, b, f.h, ts, calls, name, val, k);
      ReservedAfterFour(h.offStruct, b, p, Enc32(TAG_PROP), Enc32(|val|), Enc32(WORD - k), val, rsvs);
      ts, calls := ts + [Prop(WORD - k, val)], calls + [PropCall(name, val)];
      return 0;
    }

    /** fdt_end_node */
    method EndNodeTag() returns (r: int)
      requires ProbeStruct(f.h) == 0 ==> Writing()
      modifies this`ts, this`calls, f, f.mem
      ensures r == if ProbeStruct(old(f.h)) != 0 then ProbeStruct(old(f.h))
                   else if old(Used(f.h)) + 4 > f.mem.Length
                   then -NOSPACE else 0
      ensures r == 0 ==> Writing() && calls == old(calls) + [EndCall]
      ensures r != 0 ==> f.h == old(f.h) && f.mem[..] == old(f.mem[..]) && calls == old(calls) && ts == old(ts)
    {
      var err := ProbeStruct(f.h);
      if err != 0 {
        return err;
      }
      ConsistentLayout(f.h, f.mem[..], ts, calls);
      hide Consistent, Layout, Reserved;
      r := EndCells();
    }

    /** The structure part of fdt_end_node. */
    method EndCells() returns (r: int)
      requires Layout(f.h, f.mem.Length) && Writing()
      modifies this`ts, this`calls, f, f.mem
      ensures r == if old(Used(f.h)) + 4 > f.mem.Length then -NOSPACE else 0
      ensures r == 0 ==> Writing() && calls == old(calls) + [EndCall]
      ensures r != 0 ==> f.h == old(f.h) && f.mem[..] == old(f.mem[..]) && calls == old(calls) && ts == old(ts)
    {
      hide Consistent, Patch, Enc32, Reserved, SameFront;
      ghost var h, b := f.h, f.mem[..];
      var ok, p := GrabSpace(4);
      if !ok {
        return -NOSPACE;
      }
      PutBytes(f, p, Enc32(TAG_END_NODE));
      EndWritten(h, b, f.h, ts, calls);
      PatchFront(b, p, Enc32(TAG_END_NODE), h.offStruct);
      ReservedFrame(h.offStruct, b, f.mem[..], rsvs);
      ts, calls := ts + [EndNode], calls + [EndCall];
      return 0;
    }
  }

  /** fdt_create_with_flags: an error, or a writer on the whole buffer. */
  method Create(f: Buffer, flags: nat) returns (r: int, w: Writer?)
    requires f.mem.Length <= INT_MAX && flags < WORD
    modifies f, f.mem
    ensures r == if f.mem.Length < RSV_START then -NOSPACE else if flags >= 2 then -BADFLAGS else 0
    ensures r != 0 ==> w == null && f.h == old(f.h) && f.mem[..] == old(f.mem[..])
    ensures r == 0 ==>
              w != null && fresh(w) && w.f == f && w.Reserving() && f.h.lastComp == flags && w.rsvs == []
              && forall i :: 0 <= i < f.mem.Length ==> f.mem[i] == 0
  {
    if f.mem.Length < RSV_START {
      return -NOSPACE, null;
    }
    if flags >= 2 {
      return -BADFLAGS, null;
    }
    w := new Writer(f, flags);
    r := 0;
  }

  ghost predicate ReadsAt(t: Bytes, q: int, x: Bytes) {
    0 <= q && q + |x| <= |t| && t[q..q + |x|] == x
  }

  /** The name and its terminator occur somewhere in the strings t. */
  ghost predicate HasName(t: Bytes, name: Bytes) {
    exists q :: ReadsAt(t, q, name + [0])
  }

  /** fdt_find_string_: the first place in the size bytes from `from` on that reads s and a 0, or -1. */
  method FindString(f: Buffer, from: nat, size: nat, s: Bytes) returns (r: int)
    requires from + size <= f.mem.Length
    ensures var t := f.mem[..][from..from + size];
            && -1 <= r && (r >= 0 <==> HasName(t, s))
            && (r >= 0 ==> ReadsAt(t, r, s + [0]) && forall q :: q < r ==> !ReadsAt(t, q, s + [0]))
  {
    ghost var t := f.mem[..][from..from + size];
    r := 0;
    while r + |s| + 1 <= size
      invariant 0 <= r && forall q :: q < r ==> !ReadsAt(t, q, s + [0])
    {
      SliceOfSlice(f.mem[..], from, from + size, r, r + |s| + 1);
      if f.mem[from + r..from + r + |s| + 1] == s + [0] {
        assert ReadsAt(t, r, s + [0]);
        return;
      }
      assert f.mem[from + r..from + r + |s| + 1] == f.mem[..][from + r..from + r + |s| + 1];
      r := r + 1;
    }
    return -1;
  }

  /** The room test of fdt_add_string_, in unsigned 32-bit arithmetic. */
  predicate StringFits(h: Header, len: nat) {
    (h.total - (h.sizeStrings + len) % WORD) % WORD >= h.offStruct + h.sizeStruct
  }

  /** The test is right exactly for names that are not longer than the whole buffer can hold. */
  lemma StringFitsIsExact(h: Header, size: nat, len: nat)
    requires Layout(h, size) && len <= INT_MAX
    ensures h.total == size
    ensures (StringFits(h, len) <==> h.offStruct + h.sizeStruct + h.sizeStrings + len <= h.total)
            <==> h.sizeStrings + len <= h.total
  {
  }

  /** With 6 bytes left in a buffer of 100, the test grants room to a name of 71 bytes. */
  lemma RoomTestWraps()
    ensures var h := Header(SW_MAGIC, 100, 64, 100, RSV_START, 17, 0, 30, 0);
            Layout(h, 100) && StringFits(h, 71) && !StringFits(h, 7)
            && h.offStruct + h.sizeStruct + h.sizeStrings + 7 > h.total
  {
  }

  /** The writer's invariant on the header and bytes. */
  ghost predicate Consistent(h: Header, b: Bytes, ts: seq<Token>, calls: seq<Call>) {
    && ProbeStruct(h) == 0 && Layout(h, |b|) && RsvClosed(h, b)
    && Walk(Struct(h, b), 0, ts, h.sizeStruct) && AllWritten(NamesOf(h, b), ts, calls)
  }

  /** b' differs from b only in the len bytes after the structure block, which h' has taken in. */
  ghost predicate Grown(h: Header, b: Bytes, h': Header, b': Bytes, x: Bytes) {
    && Layout(h, |b|) && Layout(h', |b'|) && |b| == |b'|
    && h' == h.(sizeStruct := h.sizeStruct + |x|)
    && var top := h.offStruct + h.sizeStruct;
       b'[..top] == b[..top] && b'[top..top + |x|] == x && b'[top + |x|..] == b[top + |x|..]
  }

  lemma GrownStruct(h: Header, b: Bytes, h': Header, b': Bytes, x: Bytes)
    requires Grown(h, b, h', b', x)
    ensures Struct(h', b') == Struct(h, b) + x
  {
    var top := h.offStruct + h.sizeStruct;
    SliceOfSlice(b, 0, top, h.offStruct, top);
    SliceOfSlice(b', 0, top, h.offStruct, top);
    assert b'[h.offStruct..top] == b[h.offStruct..top];
    assert b'[h.offStruct..top + |x|] == b'[h.offStruct..top] + b'[top..top + |x|];
  }

  lemma GrownKeepsRest(h: Header, b: Bytes, h': Header, b': Bytes, x: Bytes)
    requires Grown(h, b, h', b', x) && RsvClosed(h, b)
    ensures NamesOf(h', b') == NamesOf(h, b) && RsvClosed(h', b')
  {
    var top := h.offStruct + h.sizeStruct;
    var k := h.total - h.sizeStrings - (top + |x|);
    assert b'[top + |x|..][k..] == b'[h.total - h.sizeStrings..];
    assert b[top + |x|..][k..] == b[h.total - h.sizeStrings..];
    forall i | h.offStruct - 8 <= i < h.offStruct
      ensures b'[i] == 0
    {
      assert b'[i] == b'[..top][i] == b[..top][i] == b[i];
    }
  }

  /** A structure block that has grown by one token. */
  lemma GrownByToken(h: Header, b: Bytes, h': Header, b': Bytes, x: Bytes, ts: seq<Token>, calls: seq<Call>,
                     tok: Token, n: nat, c: Call)
    requires Consistent(h, b, ts, calls) && Grown(h, b, h', b', x)
    requires Lex(x) == Lexeme(tok, n) && |x| == Align(n) && !tok.End? && Written(NamesOf(h, b), tok, c)
    ensures Consistent(h', b', ts + [tok], calls + [c])
  {
    hide Lex, Walk, NamesOf, RsvClosed, Written;
    GrownStruct(h, b, h', b', x);
    GrownKeepsRest(h, b, h', b', x);
    AppendToken(Struct(h, b), ts, x, tok, n);
  }

  /** Bytes y written at the end of the structure block, which grows by len >= |y| bytes. */
  lemma GrownByPatch(h: Header, b: Bytes, h': Header, y: Bytes, len: nat)
    requires Layout(h, |b|) && Layout(h', |b|) && h' == h.(sizeStruct := h.sizeStruct + len) && |y| <= len
    ensures var p := h.offStruct + h.sizeStruct;
            Grown(h, b, h', Patch(b, p, y), y + b[p + |y|..p + len])
  {
    var p := h.offStruct + h.sizeStruct;
    var b', x := Patch(b, p, y), y + b[p + |y|..p + len];
    assert b'[p..p + len] == x;
  }

  lemma PatchPatch(b: Bytes, p: nat, u: Bytes, v: Bytes)
    requires p + |u| + |v| <= |b|
    ensures Patch(Patch(b, p, u), p + |u|, v) == Patch(b, p, u + v)
  {
  }

  lemma ConsistentLayout(h: Header, b: Bytes, ts: seq<Token>, calls: seq<Call>)
    requires Consistent(h, b, ts, calls)
    ensures ProbeStruct(h) == 0 && Layout(h, |b|)
  {
  }

  lemma ConsistentParts(h: Header, b: Bytes, ts: seq<Token>, calls: seq<Call>)
    requires Consistent(h, b, ts, calls)
    ensures Layout(h, |b|) && RsvClosed(h, b) && AllWritten(NamesOf(h, b), ts, calls)
  {
  }

  /** The invariant depends on the structure block, the names and the reservations only. */
  lemma ConsistentFrame(h: Header, b: Bytes, h': Header, b': Bytes, ts: seq<Token>, calls: seq<Call>)
    requires Consistent(h, b, ts, calls)
    requires ProbeStruct(h') == 0 && Layout(h', |b'|) && RsvClosed(h', b')
    requires Struct(h', b') == Struct(h, b) && AllWritten(NamesOf(h', b'), ts, calls)
    ensures Consistent(h', b', ts, calls)
  {
  }

  lemma GapWindows(h: Header, b: Bytes, o: nat, y: Bytes)
    requires Layout(h, |b|) && h.offStruct + h.sizeStruct <= o && o + |y| <= h.total - h.sizeStrings
    requires RsvClosed(h, b)
    ensures var b' := Patch(b, o, y);
            Struct(h, b') == Struct(h, b) && NamesOf(h, b') == NamesOf(h, b) && RsvClosed(h, b')
  {
    var b' := Patch(b, o, y);
    PatchWindow(b, o, y, h.offStruct, h.offStruct + h.sizeStruct);
    PatchWindow(b, o, y, h.total - h.sizeStrings, |b|);
    assert b[h.total - h.sizeStrings..] == b[h.total - h.sizeStrings..|b|];
    assert b'[h.total - h.sizeStrings..] == b'[h.total - h.sizeStrings..|b|];
    assert forall i :: 0 <= i < o ==> b'[i] == b[i];
  }

  /** Writing between the structure block and the names disturbs neither. */
  lemma GapPatched(h: Header, b: Bytes, o: nat, y: Bytes, ts: seq<Token>, calls: seq<Call>)
    requires Layout(h, |b|) && h.offStruct + h.sizeStruct <= o && o + |y| <= h.total - h.sizeStrings
    requires ProbeStruct(h) == 0 && Consistent(h, b, ts, calls)
    ensures Consistent(h, Patch(b, o, y), ts, calls)
  {
    hide Consistent, RsvClosed, AllWritten, Struct, NamesOf, Patch;
    ConsistentParts(h, b, ts, calls);
    GapWindows(h, b, o, y);
    ConsistentFrame(h, b, h, Patch(b, o, y), ts, calls);
  }

  /** A name written in front of the others becomes one of them. */
  lemma NameAdded(h: Header, b: Bytes, h': Header, s: Bytes, ts: seq<Token>, calls: seq<Call>)
    requires Layout(h, |b|) && Layout(h', |b|) && h' == h.(sizeStrings := h.sizeStrings + |s| + 1)
    requires ProbeStruct(h) == 0 && Consistent(h, b, ts, calls)
    ensures var b' := Patch(b, h.total - h'.sizeStrings, s + [0]);
            Consistent(h', b', ts, calls) && NamedFromEnd(NamesOf(h', b'), h'.sizeStrings, s)
  {
    hide Consistent, RsvClosed, AllWritten;
    var o := h.total - h'.sizeStrings;
    var b' := Patch(b, o, s + [0]);
    ConsistentParts(h, b, ts, calls);
    GapWindows(h, b, o, s + [0]);
    assert b'[o..o + |s| + 1] == s + [0];
    SliceOfSlice(b', o, |b'|, 0, |s| + 1);
    hide Patch;
    NamesGrow(h, b', h', |s| + 1);
    WrittenPrepend(NamesOf(h, b'), NamesOf(h', b'), ts, calls);
    RsvOfHeader(h, h', b');
    ConsistentFrame(h, b, h', b', ts, calls);
  }

  lemma RsvOfHeader(h: Header, h': Header, b: Bytes)
    requires h.total == h'.total <= |b| && h.offStruct == h'.offStruct && h.offRsv == h'.offRsv && RsvClosed(h, b)
    ensures RsvClosed(h', b)
  {
  }

  lemma NamesGrow(h: Header, b: Bytes, h': Header, n: nat)
    requires Layout(h, |b|) && Layout(h', |b|) && h' == h.(sizeStrings := h.sizeStrings + n)
    ensures NamesOf(h', b) == b[h.total - h'.sizeStrings..|b|]
    ensures |NamesOf(h, b)| + n == |NamesOf(h', b)| && NamesOf(h', b)[n..] == NamesOf(h, b)
  {
  }

  lemma PropWritten(h: Header, b: Bytes, h': Header, ts: seq<Token>, calls: seq<Call>, name: Bytes, val: Bytes, k: nat)
    requires Layout(h, |b|) && Layout(h', |b|) && h' == h.(sizeStruct := h.sizeStruct + 12 + Align(|val|))
    requires 0 < k < WORD && NoZero(name) && NamedFromEnd(NamesOf(h, b), k, name)
    requires Consistent(h, b, ts, calls)
    ensures var p := h.offStruct + h.sizeStruct;
            Consistent(h',
              Patch(Patch(Patch(Patch(b, p, Enc32(TAG_PROP)), p + 4, Enc32(|val|)), p + 8, Enc32(WORD - k)),
                                 p + 12, val),
                       ts + [Prop(WORD - k, val)], calls + [PropCall(name, val)])
  {
    hide Consistent, Lex, Enc32, NamedFromEnd;
    var p, len := h.offStruct + h.sizeStruct, 12 + Align(|val|);
    var y := Enc32(TAG_PROP) + Enc32(|val|) + Enc32(WORD - k) + val;
    PatchPatch(b, p, Enc32(TAG_PROP), Enc32(|val|));
    PatchPatch(b, p, Enc32(TAG_PROP) + Enc32(|val|), Enc32(WORD - k));
    PatchPatch(b, p, Enc32(TAG_PROP) + Enc32(|val|) + Enc32(WORD - k), val);
    AlignShift(12, |val|);
    LexProp(WORD - k, val, b[p + |y|..p + len]);
    TokenPatched(h, b, h', y, len, ts, calls, Prop(WORD - k, val), 12 + |val|, PropCall(name, val));
  }

  /** The bytes y of a token written at the end of the structure block. */
  lemma TokenPatched(h: Header, b: Bytes, h': Header, y: Bytes, len: nat, ts: seq<Token>, calls: seq<Call>,
                     tok: Token, n: nat, c: Call)
    requires Layout(h, |b|) && Layout(h', |b|) && h' == h.(sizeStruct := h.sizeStruct + len) && |y| <= len
    requires var p := h.offStruct + h.sizeStruct; Lex(y + b[p + |y|..p + len]) == Lexeme(tok, n)
    requires len == Align(n) && !tok.End? && Written(NamesOf(h, b), tok, c)
    requires Consistent(h, b, ts, calls)
    ensures Consistent(h', Patch(b, h.offStruct + h.sizeStruct, y), ts + [tok], calls + [c])
  {
    hide Consistent, Lex, Grown, Patch, Written, Align;
    var p := h.offStruct + h.sizeStruct;
    GrownByPatch(h, b, h', y, len);
    GrownByToken(h, b, h', Patch(b, p, y), y + b[p + |y|..p + len], ts, calls, tok, n, c);
  }

  lemma BeginWritten(h: Header, b: Bytes, h': Header, ts: seq<Token>, calls: seq<Call>, name: Bytes)
    requires Layout(h, |b|) && Layout(h', |b|) && h' == h.(sizeStruct := h.sizeStruct + 4 + Align(|name| + 1))
    requires NoZero(name)
    requires Consistent(h, b, ts, calls)
    ensures var p := h.offStruct + h.sizeStruct;
            Consistent(h', Patch(Patch(b, p, Enc32(TAG_BEGIN)), p + 4, name + [0]),
                       ts + [Begin(name)], calls + [BeginCall(name)])
  {
    hide Consistent, Lex, Enc32;
    var p, len := h.offStruct + h.sizeStruct, 4 + Align(|name| + 1);
    var y := Enc32(TAG_BEGIN) + (name + [0]);
    PatchPatch(b, p, Enc32(TAG_BEGIN), name + [0]);
    AlignShift(4, |name| + 1);
    LexBegin(name, b[p + |y|..p + len]);
    TokenPatched(h, b, h', y, len, ts, calls, Begin(name), 5 + |name|, BeginCall(name));
  }

  lemma EndWritten(h: Header, b: Bytes, h': Header, ts: seq<Token>, calls: seq<Call>)
    requires Layout(h, |b|) && Layout(h', |b|) && h' == h.(sizeStruct := h.sizeStruct + 4)
    requires Consistent(h, b, ts, calls)
    ensures Consistent(h', Patch(b, h.offStruct + h.sizeStruct, Enc32(TAG_END_NODE)), ts + [EndNode], calls + [EndCall])
  {
    hide Consistent, Lex, Enc32;
    var p := h.offStruct + h.sizeStruct;
    LexPlain(EndNode, b[p + 4..p + 4]);
    TokenPatched(h, b, h', Enc32(TAG_END_NODE), 4, ts, calls, EndNode, 4, EndCall);
  }

  /** The reservation block ends right before the structure block with an entry of size 0. */
  ghost predicate RsvClosed(h: Header, b: Bytes)
    requires h.total <= |b|
  {
    && RSV_START + 16 <= h.offStruct <= h.total && h.offRsv == RSV_START && (h.offStruct - RSV_START) % 16 == 0
    && forall i :: h.offStruct - 8 <= i < h.offStruct ==> b[i] == 0
  }
}
