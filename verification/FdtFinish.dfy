/**
  fdt_finish (libfdt/fdt_sw.c), the round trip from the writer's calls to what a reader gets
  back, and the verdict of fdt_check_full on a finished tree.
*/
module FdtFinish {
  import opened Machine
  import opened FdtFormat
  import opened FdtReader
  import opened FdtCheck
  import opened FdtWriter

  // ---- Correcting name offsets -------------------------------------------------------------------

  /** A name offset that counted back from the end, counted from the start of n bytes of strings. */
  function Fixed(x: Token, n: nat): Token {
    if x.Prop? then Prop((x.nameoff + n) % WORD, x.val) else x
  }

  function FixedAll(ts: seq<Token>, n: nat): (r: seq<Token>)
    ensures |r| == |ts| && forall i :: 0 <= i < |ts| ==> r[i] == Fixed(ts[i], n)
  {
    seq(|ts|, i requires 0 <= i < |ts| => Fixed(ts[i], n))
  }

  /** What a reader of the finished tree gets for a call. */
  function CallItem(c: Call): Item {
    match c
    case BeginCall(n) => Node(n)
    case EndCall => Close
    case PropCall(n, v) => Property(Some(n), v)
  }

  lemma NameResolves(t: Bytes, k: nat, n: Bytes)
    requires NamedFromEnd(t, k, n) && NoZero(n)
    ensures StrAt(t, |t| - k) == Some(n)
  {
    var o := |t| - k;
    var w := t[o..o + |n| + 1];
    assert w[..|n|] == n && w[|n|] == 0;
    SliceOfSlice(t, o, o + |n| + 1, 0, |n|);
    assert t[o + |n|] == w[|n|];
    StrAtIs(t, o, n);
  }

  lemma FixedReadsAsCall(t: Bytes, x: Token, c: Call)
    requires Written(t, x, c) && |t| <= INT_MAX
    ensures !Fixed(x, |t|).End? && ItemOf(t, Fixed(x, |t|)) == CallItem(c)
  {
    if c.PropCall? {
      var k := WORD - x.nameoff;
      assert (x.nameoff + |t|) % WORD == |t| - k;
      NameResolves(t, k, c.name);
    }
  }

  /** After the corrections every token reads as the call that wrote it. */
  lemma AllFixedReadAsCalls(t: Bytes, ts: seq<Token>, calls: seq<Call>)
    requires AllWritten(t, ts, calls) && |t| <= INT_MAX
    ensures forall i :: 0 <= i < |ts| ==> !FixedAll(ts, |t|)[i].End?
    ensures forall i :: 0 <= i < |ts| ==> ItemOf(t, FixedAll(ts, |t|)[i]) == CallItem(calls[i])
  {
    forall i | 0 <= i < |ts|
      ensures !FixedAll(ts, |t|)[i].End? && ItemOf(t, FixedAll(ts, |t|)[i]) == CallItem(calls[i])
    {
      assert Written(t, ts[i], calls[i]);
      FixedReadsAsCall(t, ts[i], calls[i]);
    }
  }

  /** Overwriting the name offset of the property token at off. */
  lemma NameoffPatched(s: Bytes, off: nat, v: nat)
    requires off % 4 == 0 && Next(s, off).Step? && Next(s, off).tok.Prop? && v < WORD && Next(s, off).next <= |s|
    ensures off + 12 <= |s|
    ensures Next(Patch(s, off + 8, Enc32(v)), off) == Step(Prop(v, Next(s, off).tok.val), Next(s, off).next)
  {
    TokenCells(s, off);
    var e := Enc32(v);
    hide Enc32;
    var s' := Patch(s, off + 8, e);
    var w, w' := s[off..], s'[off..];
    var len := Be32(s, off + 4);
    assert w' == w[..8] + (e + w[12..]);
    assert Be32(w', 0) == Be32(w, 0) && Be32(w', 4) == Be32(w, 4) == len;
    WordFirst(v, w[12..]);
    WordAfter(w[..8], e + w[12..], 0);
    assert w'[12..12 + len] == w[12..12 + len] == s[off + 12..off + 12 + len];
  }

  /** The walk of a structure block in which the tokens before off are corrected. */
  ghost predicate Correcting(s: Bytes, ts: seq<Token>, i: nat, off: nat, end: nat, n: nat) {
    && i <= |ts| && Walk(s, 0, FixedAll(ts[..i], n), off) && Walk(s, off, ts[i..], end)
    && Next(s, end) == Step(End, |s|)
  }

  lemma CorrectStep(s: Bytes, ts: seq<Token>, i: nat, off: nat, end: nat, n: nat, s': Bytes)
    requires Correcting(s, ts, i, off, end, n) && i < |ts|
    requires Next(s, off).Step? && off + 4 <= Next(s, off).next <= end <= |s| == |s'| && off % 4 == 0
    requires Walk(s, Next(s, off).next, ts[i + 1..], end) && end % 4 == 0
    requires s'[..off] == s[..off] && s'[Next(s, off).next..] == s[Next(s, off).next..]
    requires Next(s', off) == Step(Fixed(ts[i], n), Next(s, off).next) && !ts[i].End?
    ensures Correcting(s', ts, i + 1, Next(s, off).next, end, n)
  {
    hide Next, Walk;
    var next := Next(s, off).next;
    PrefixCorrected(s, FixedAll(ts[..i], n), off, s', Fixed(ts[i], n), next);
    SuffixKept(s, ts[i + 1..], next, end, s');
    assert FixedAll(ts[..i + 1], n) == FixedAll(ts[..i], n) + [Fixed(ts[i], n)];
  }

  lemma PrefixCorrected(s: Bytes, fs: seq<Token>, off: nat, s': Bytes, x: Token, next: nat)
    requires Walk(s, 0, fs, off) && off <= |s| && off <= |s'| && s'[..off] == s[..off] && off % 4 == 0 && !x.End?
    requires Next(s', off) == Step(x, next) && next <= |s'|
    ensures Walk(s', 0, fs + [x], next)
  {
    hide Next;
    assert s'[0..off] == s[0..off];
    WalkShift(s, 0, fs, off, s', 0);
    NextAligned(s', off);
    assert [x][1..] == [];
    assert Walk(s', next, [], next);
    assert Walk(s', off, [x], next);
    WalkJoin(s', 0, fs, off, [x], next);
  }

  lemma SuffixKept(s: Bytes, ts: seq<Token>, next: nat, end: nat, s': Bytes)
    requires Walk(s, next, ts, end) && next <= end <= |s| == |s'| && end % 4 == 0 && s'[next..] == s[next..]
    requires Next(s, end) == Step(End, |s|)
    ensures Walk(s', next, ts, end) && Next(s', end) == Step(End, |s|)
  {
    hide Next;
    WalkBounds(s, next, ts, end);
    EndFits(s, end);
    assert next % 4 == 0;
    hide Walk;
    TailSlices(s, next, s', next, end - next);
    WalkShift(s, next, ts, end - next, s', next);
    NextShift(s, end, s', end, 4);
  }

  // ---- fdt_finish --------------------------------------------------------------------------------

  /** The state of a tree that fdt_finish completed, with the tokens and strings it holds. */
  ghost predicate Finished(h: Header, b: Bytes, us: seq<Token>, end: nat, t: Bytes) {
    && h.magic == FDT_MAGIC && h.version == 17 && h.lastComp == 16
    && StructSane(h, |b|) && StringsSane(h, |b|)
    && RSV_START + 16 <= h.offStruct && h.offRsv == RSV_START && h.offStrings == h.offStruct + h.sizeStruct
    && h.total == h.offStrings + h.sizeStrings && RsvClosed(h, b)
    && Tree(Struct(h, b), us, end) && Strings(h, b) == t
  }

  lemma NextAtEnd(s: Bytes, e: Bytes, tok: Token)
    requires Lex(e) == Lexeme(tok, 4) && |s| % 4 == 0 && |e| == 4
    ensures Next(s + e, |s|) == Step(tok, |s| + 4)
  {
    hide Lex;
    assert (s + e)[|s|..] == e;
  }

  /** A walk that an END token closes. */
  lemma EndAppended(s: Bytes, ts: seq<Token>, n: nat)
    requires Walk(s, 0, ts, |s|)
    ensures Correcting(s + Enc32(TAG_END), ts, 0, 0, |s|, n)
  {
    hide Next, Lex;
    var e := Enc32(TAG_END);
    assert e + [] == e;
    LexPlain(End, []);
    hide Enc32;
    WalkBounds(s, 0, ts, |s|);
    NextAtEnd(s, e, End);
    var s' := s + e;
    assert s'[0..|s|] == s[0..|s|];
    WalkShift(s, 0, ts, |s|, s', 0);
    assert ts[0..] == ts && FixedAll(ts[..0], n) == [];
    hide Walk;
    EmptyWalk(s');
  }

  lemma EmptyWalk(s: Bytes)
    ensures Walk(s, 0, [], 0)
  {
  }

  /** The blocks of the buffer after the END token and the strings are put in place. */
  lemma BlocksMoved(h: Header, b: Bytes, h': Header, e: Bytes, t: Bytes)
    requires Layout(h, |b|) && RsvClosed(h, b) && |e| == 4 && |t| == h.sizeStrings
    requires h.offStruct + h.sizeStruct + 4 + h.sizeStrings <= h.total
    requires h' == h.(sizeStruct := h.sizeStruct + 4, offStrings := h.offStruct + h.sizeStruct + 4)
    ensures var p := h.offStruct + h.sizeStruct;
            var b' := Patch(Patch(b, p, e), p + 4, t);
            && StructSane(h', |b'|) && StringsSane(h', |b'|) && RsvClosed(h', b')
            && Strings(h', b') == t && Struct(h', b') == Struct(h, b) + e
  {
    var p := h.offStruct + h.sizeStruct;
    var b' := Patch(Patch(b, p, e), p + 4, t);
    PatchPatch(b, p, e, t);
    assert b'[p + 4..p + 4 + |t|] == t;
    PatchWindow(b, p, e + t, h.offStruct, p);
    assert b'[p..p + 4] == e;
    assert b'[h.offStruct..p + 4] == b'[h.offStruct..p] + b'[p..p + 4];
    assert forall i :: 0 <= i < p ==> b'[i] == b[i];
  }

  /** What the loop of fdt_finish keeps: tokens before off corrected, strings and reservations in place. */
  ghost predicate Relocated(h: Header, b: Bytes, ts: seq<Token>, i: nat, off: nat, end: nat, t: Bytes) {
    && StructSane(h, |b|) && StringsSane(h, |b|) && RsvClosed(h, b) && Strings(h, b) == t
    && h.offStrings == h.offStruct + h.sizeStruct && h.sizeStrings == |t|
    && Correcting(Struct(h, b), ts, i, off, end, |t|)
  }

  lemma StringsMoved(h: Header, b: Bytes, h': Header, ts: seq<Token>, calls: seq<Call>)
    requires Layout(h, |b|) && Consistent(h, b, ts, calls)
    requires h.offStruct + h.sizeStruct + 4 + h.sizeStrings <= h.total
    requires h' == h.(sizeStruct := h.sizeStruct + 4, offStrings := h.offStruct + h.sizeStruct + 4)
    ensures var p := h.offStruct + h.sizeStruct;
            Relocated(h', Patch(Patch(b, p, Enc32(TAG_END)), p + 4, NamesOf(h, b)), ts, 0, 0, h.sizeStruct,
              NamesOf(h, b))
  {
    hide Enc32, AllWritten, Walk, Correcting;
    ConsistentParts(h, b, ts, calls);
    BlocksMoved(h, b, h', Enc32(TAG_END), NamesOf(h, b));
    EndAppended(Struct(h, b), ts, h.sizeStrings);
    hide Patch, RsvClosed;
  }

  /** The blocks of the buffer when bytes inside the structure block are overwritten. */
  lemma StructPatched(h: Header, b: Bytes, off: nat, e: Bytes)
    requires StructSane(h, |b|) && StringsSane(h, |b|) && RsvClosed(h, b)
    requires h.offStrings == h.offStruct + h.sizeStruct && off + |e| <= h.sizeStruct
    ensures var b' := Patch(b, h.offStruct + off, e);
            && Struct(h, b') == Patch(Struct(h, b), off, e) && Strings(h, b') == Strings(h, b) && RsvClosed(h, b')
  {
    var o := h.offStruct + off;
    var b' := Patch(b, o, e);
    PatchInside(b, o, e, h.offStruct, h.offStruct + h.sizeStruct);
    PatchWindow(b, o, e, h.offStrings, h.offStrings + h.sizeStrings);
    assert forall j :: 0 <= j < h.offStruct ==> b'[j] == b[j];
  }

  /** One correction of the loop, in the structure block. */
  lemma NameCorrected(s: Bytes, ts: seq<Token>, i: nat, off: nat, end: nat, n: nat, v: nat)
    requires Correcting(s, ts, i, off, end, n) && i < |ts| && ts[i].Prop?
    requires v == (ts[i].nameoff + n) % WORD
    ensures off + 12 <= |s| && Next(s, off).Step?
    ensures Correcting(Patch(s, off + 8, Enc32(v)), ts, i + 1, Next(s, off).next, end, n)
  {
    hide Next, Correcting;
    CorrectingBounds(s, ts, i, off, end, n);
    NameoffPatched(s, off, v);
    var e := Enc32(v);
    hide Enc32;
    var s', next := Patch(s, off + 8, e), Next(s, off).next;
    assert s'[..off] == s[..off] && s'[next..] == s[next..];
    hide Patch, Walk;
    CorrectStep(s, ts, i, off, end, n, s');
  }

  /** One correction of the loop: the name offset of the property at off, in the whole buffer. */
  lemma PropertyCorrected(h: Header, b: Bytes, ts: seq<Token>, i: nat, off: nat, end: nat, t: Bytes, v: nat)
    requires Relocated(h, b, ts, i, off, end, t) && i < |ts| && ts[i].Prop?
    requires v == (ts[i].nameoff + |t|) % WORD
    ensures off + 12 <= h.sizeStruct && Next(Struct(h, b), off).Step?
    ensures Relocated(h, Patch(b, h.offStruct + off + 8, Enc32(v)), ts, i + 1, Next(Struct(h, b), off).next, end, t)
  {
    hide Next, Correcting, RsvClosed, Patch, Enc32;
    NameCorrected(Struct(h, b), ts, i, off, end, |t|, v);
    StructPatched(h, b, off + 8, Enc32(v));
  }

  lemma CorrectingBounds(s: Bytes, ts: seq<Token>, i: nat, off: nat, end: nat, n: nat)
    requires Correcting(s, ts, i, off, end, n)
    ensures off % 4 == 0 && off <= end <= |s| && end % 4 == 0 && Next(s, off).Step?
    ensures i == |ts| <==> Next(s, off).tok == End
    ensures i < |ts| ==> Next(s, off).tok == ts[i] && off + 4 <= Next(s, off).next <= end
    ensures i < |ts| ==> Walk(s, Next(s, off).next, ts[i + 1..], end)
    ensures i < |ts| && ts[i].Prop? ==> Next(s, off).next >= off + 12
  {
    hide Next;
    WalkBounds(s, off, ts[i..], end);
    if i < |ts| {
      assert ts[i..][1..] == ts[i + 1..];
      WalkBounds(s, Next(s, off).next, ts[i + 1..], end);
      if ts[i].Prop? {
        TokenCells(s, off);
        PropIsLong(s, off);
      }
    }
  }

  lemma PropIsLong(s: Bytes, off: nat)
    requires Next(s, off).Step? && Next(s, off).tok.Prop?
    ensures Next(s, off).next >= off + 12
  {
  }

  /** The loop passes over any other token. */
  lemma TokenPassed(h: Header, b: Bytes, ts: seq<Token>, i: nat, off: nat, end: nat, t: Bytes)
    requires Relocated(h, b, ts, i, off, end, t) && i < |ts| && !ts[i].Prop?
    ensures Next(Struct(h, b), off).Step?
    ensures Relocated(h, b, ts, i + 1, Next(Struct(h, b), off).next, end, t)
  {
    var s := Struct(h, b);
    CorrectingBounds(s, ts, i, off, end, |t|);
    hide Next, Correcting;
    WalkTokens(s, ts, i, off, end, |t|);
    CorrectStep(s, ts, i, off, end, |t|, s);
  }

  lemma WalkTokens(s: Bytes, ts: seq<Token>, i: nat, off: nat, end: nat, n: nat)
    requires Correcting(s, ts, i, off, end, n) && i < |ts|
    ensures !ts[i].End?
  {
  }

  /** What the loop needs to know of the token at off. */
  lemma RelocatedToken(h: Header, b: Bytes, ts: seq<Token>, i: nat, off: nat, end: nat, t: Bytes)
    requires Relocated(h, b, ts, i, off, end, t)
    ensures StructSane(h, |b|) && off <= h.sizeStruct && i <= |ts|
    ensures Next(Struct(h, b), off).Step?
    ensures i == |ts| <==> Next(Struct(h, b), off).tok == End
    ensures i < |ts| ==> Next(Struct(h, b), off).tok == ts[i]
    ensures i < |ts| && ts[i].Prop? ==> off + 12 <= h.sizeStruct && Be32(Struct(h, b), off + 8) == ts[i].nameoff
  {
    var s := Struct(h, b);
    hide Next, Be32, RsvClosed;
    CorrectingBounds(s, ts, i, off, end, |t|);
    hide Correcting;
    TokenCells(s, off);
  }

  /** The loop of fdt_finish: every name offset is corrected. */
  method CorrectNames(f: Buffer, ghost ts: seq<Token>, ghost end: nat, ghost t: Bytes) returns (r: int)
    requires Relocated(f.h, f.mem[..], ts, 0, 0, end, t)
    modifies f.mem
    ensures r == 0 && Relocated(f.h, f.mem[..], ts, |ts|, end, end, t)
    ensures SameFront(old(f.mem[..]), f.mem[..], f.h.offStruct)
  {
    hide Relocated, Next, Be32, Patch, Enc32, SameFront;
    var offset: nat := 0;
    ghost var i: nat := 0;
    RelocatedToken(f.h, f.mem[..], ts, i, offset, end, t);
    FrontTwice(f.mem[..], f.mem[..], f.mem[..], f.h.offStruct);
    var tag, next := NextTag(f, 0);
    while tag != TAG_END
      invariant Relocated(f.h, f.mem[..], ts, i, offset, end, t) && i <= |ts|
      invariant StructSane(f.h, f.mem.Length) && offset <= f.h.sizeStruct
      invariant Next(StructOf(f), offset).Step? && next == Next(StructOf(f), offset).next
      invariant tag == TagOf(Next(StructOf(f), offset).tok)
      invariant SameFront(old(f.mem[..]), f.mem[..], f.h.offStruct)
      decreases |ts| - i
    {
      RelocatedToken(f.h, f.mem[..], ts, i, offset, end, t);
      if tag == TAG_PROP {
        ghost var b := f.mem[..];
        CorrectProperty(f, ts, i, offset, end, t);
        FrontTwice(old(f.mem[..]), b, f.mem[..], f.h.offStruct);
      } else {
        TokenPassed(f.h, f.mem[..], ts, i, offset, end, t);
      }
      offset, i := next, i + 1;
      RelocatedToken(f.h, f.mem[..], ts, i, offset, end, t);
      tag, next := NextTag(f, offset);
    }
    RelocatedEnds(f.h, f.mem[..], ts, i, offset, end, t);
    return 0;
  }

  lemma RelocatedEnds(h: Header, b: Bytes, ts: seq<Token>, i: nat, off: nat, end: nat, t: Bytes)
    requires Relocated(h, b, ts, i, off, end, t) && Next(Struct(h, b), off).tok == End
    ensures i == |ts| && off == end
  {
    hide Next, RsvClosed;
    CorrectingBounds(Struct(h, b), ts, i, off, end, |t|);
    assert ts[i..] == [];
  }

  /** The body of that loop for a property. */
  method CorrectProperty(f: Buffer, ghost ts: seq<Token>, ghost i: nat, offset: nat, ghost end: nat, ghost t: Bytes)
    requires StructSane(f.h, f.mem.Length) && i < |ts| && ts[i].Prop?
    requires Relocated(f.h, f.mem[..], ts, i, offset, end, t)
    modifies f.mem
    ensures old(Next(StructOf(f), offset).Step?)
    ensures Relocated(f.h, f.mem[..], ts, i + 1, old(Next(StructOf(f), offset).next), end, t)
    ensures SameFront(old(f.mem[..]), f.mem[..], f.h.offStruct)
  {
    hide Relocated, Next, Be32, Patch, Enc32, SameFront;
    RelocatedToken(f.h, f.mem[..], ts, i, offset, end, t);
    RelocatedSize(f.h, f.mem[..], ts, i, offset, end, t);
    var nameoff := StructWord(f, offset + 8);
    var fixed := (nameoff + f.h.sizeStrings) % WORD;
    PropertyCorrected(f.h, f.mem[..], ts, i, offset, end, t, fixed);
    PatchFront(f.mem[..], f.h.offStruct + offset + 8, Enc32(fixed), f.h.offStruct);
    PutBytes(f, f.h.offStruct + offset + 8, Enc32(fixed));
  }

  lemma FrontTwice(b: Bytes, b1: Bytes, b2: Bytes, n: nat)
    requires n <= |b| && (b1 == b || SameFront(b, b1, n)) && (b2 == b1 || SameFront(b1, b2, n))
    ensures SameFront(b, b2, n)
  {
  }

  lemma RelocatedSize(h: Header, b: Bytes, ts: seq<Token>, i: nat, off: nat, end: nat, t: Bytes)
    requires Relocated(h, b, ts, i, off, end, t)
    ensures h.sizeStrings == |t|
  {
  }

  /** The header words that fdt_finish sets last. */
  lemma RelocatedIsFinished(h: Header, b: Bytes, h': Header, ts: seq<Token>, end: nat, t: Bytes)
    requires Relocated(h, b, ts, |ts|, end, end, t) && h.version == 17
    requires h' == h.(total := h.offStrings + h.sizeStrings, lastComp := 16, magic := FDT_MAGIC)
    ensures Finished(h', b, FixedAll(ts, |t|), end, t)
  {
    hide Next, Walk;
    assert ts[..|ts|] == ts;
  }

  /**
    fdt_finish: the structure block is closed, the names are moved behind it and every name
    offset is counted from the start of the strings block. The only failures are a buffer that is
    not being written, and no room for the last token; they leave the buffer as it was.
  */
  method Finish(w: Writer) returns (r: int)
    requires ProbeStruct(w.f.h) == 0 ==> w.Writing()
    modifies w.f, w.f.mem
    ensures r == 0 ==> Reserved(w.f.h.offStruct, w.f.mem[..], w.rsvs)
    ensures r == if ProbeStruct(old(w.f.h)) != 0 then ProbeStruct(old(w.f.h))
                 else if old(w.f.h.offStruct + w.f.h.sizeStruct + w.f.h.sizeStrings) + 4 > w.f.mem.Length
                 then -NOSPACE else 0
    ensures r != 0 ==> w.f.h == old(w.f.h) && w.f.mem[..] == old(w.f.mem[..])
    ensures r == 0 ==>
              && old(Layout(w.f.h, w.f.mem.Length))
              && var t := old(NamesOf(w.f.h, w.f.mem[..]));
                 && AllWritten(t, w.ts, w.calls)
                 && Finished(w.f.h, w.f.mem[..], FixedAll(w.ts, |t|), old(w.f.h.sizeStruct), t)
  {
    var f := w.f;
    var err := ProbeStruct(f.h);
    if err != 0 {
      return err;
    }
    ConsistentLayout(f.h, f.mem[..], w.ts, w.calls);
    ConsistentParts(f.h, f.mem[..], w.ts, w.calls);
    hide Consistent, AllWritten, Finished, Relocated, Reserved, SameFront;
    ghost var h, t := f.h, NamesOf(f.h, f.mem[..]);
    var ok, _ := w.GrabSpace(4);
    if !ok {
      return -NOSPACE;
    }
    ghost var b := f.mem[..];
    MoveNames(f, h, w.ts, w.calls);
    ghost var b1 := f.mem[..];
    r := CorrectNames(f, w.ts, h.sizeStruct, t);
    FrontTwice(b, b1, f.mem[..], h.offStruct);
    ReservedFrame(h.offStruct, b, f.mem[..], w.rsvs);
    ghost var h' := f.h;
    f.h := f.h.(total := f.h.offStrings + f.h.sizeStrings, lastComp := 16, magic := FDT_MAGIC);
    RelocatedIsFinished(h', f.mem[..], f.h, w.ts, h.sizeStruct, t);
  }

  /** The part of fdt_finish that writes the END token into its place and moves the names behind it. */
  method MoveNames(f: Buffer, ghost h: Header, ghost ts: seq<Token>, ghost calls: seq<Call>)
    requires Layout(h, f.mem.Length) && Layout(f.h, f.mem.Length) && f.h == h.(sizeStruct := h.sizeStruct + 4)
    requires Consistent(h, f.mem[..], ts, calls)
    modifies f, f.mem
    ensures f.h == old(f.h).(offStrings := old(f.h.offStruct + f.h.sizeStruct))
    ensures Relocated(f.h, f.mem[..], ts, 0, 0, h.sizeStruct, old(NamesOf(h, f.mem[..])))
    ensures SameFront(old(f.mem[..]), f.mem[..], h.offStruct)
  {
    hide Consistent, Patch, Enc32, Relocated, NamesOf, SameFront;
    ghost var b := f.mem[..];
    var p := f.h.offStruct + f.h.sizeStruct - 4;
    PutBytes(f, p, Enc32(TAG_END));
    var oldstroffset := f.h.total - f.h.sizeStrings;
    var newstroffset := f.h.offStruct + f.h.sizeStruct;
    NamesBehind(h, b, p, Enc32(TAG_END));
    MoveBytes(f, newstroffset, oldstroffset, f.h.sizeStrings);
    f.h := f.h.(offStrings := newstroffset);
    StringsMoved(h, b, f.h, ts, calls);
    FrontAfterTwo(b, h.offStruct, p, Enc32(TAG_END), newstroffset, NamesOf(h, b));
  }

  lemma NamesBehind(h: Header, b: Bytes, p: nat, e: Bytes)
    requires Layout(h, |b|) && p + |e| <= h.total - h.sizeStrings
    ensures Patch(b, p, e)[h.total - h.sizeStrings..h.total] == NamesOf(h, b)
  {
  }

  // ---- The round trip ----------------------------------------------------------------------------

  function CallItems(calls: seq<Call>): (r: seq<Item>)
    ensures |r| == |calls| && forall i :: 0 <= i < |calls| ==> r[i] == CallItem(calls[i])
  {
    seq(|calls|, i requires 0 <= i < |calls| => CallItem(calls[i]))
  }

  /**
    Round trip: finishing a tree and walking it with fdt_next_tag gives back the calls that
    wrote it, in order, with the names and values they gave.
  */
  method FinishAndRead(w: Writer) returns (r: int, items: seq<Item>)
    requires ProbeStruct(w.f.h) == 0 ==> w.Writing()
    requires w.f.addr % 8 == 0 && w.f.mem.Length < INT_MAX
    modifies w.f, w.f.mem
    ensures r == 0 ==> items == CallItems(w.calls)
    ensures r != 0 ==> w.f.h == old(w.f.h) && w.f.mem[..] == old(w.f.mem[..])
  {
    hide Consistent, AllWritten, Finished, Items;
    r := Finish(w);
    if r != 0 {
      return r, [];
    }
    ghost var t := old(NamesOf(w.f.h, w.f.mem[..]));
    ghost var us, end := FixedAll(w.ts, |t|), old(w.f.h.sizeStruct);
    FinishedReadable(w.f.h, w.f.mem[..], w.f.addr, us, end, t);
    AllFixedReadAsCalls(t, w.ts, w.calls);
    WrittenSize(t, w.ts, w.calls);
    items := ReadAll(w.f, us, end);
    assert items == CallItems(w.calls);
  }

  /**
    The reservations of the finished tree are those given, in order, up to the first of size 0; all of them if
    none has.
  */
  method FinishAndReserve(w: Writer) returns (r: int, n: int, es: seq<Rsv>)
    requires ProbeStruct(w.f.h) == 0 ==> w.Writing()
    requires w.f.addr % 8 == 0 && w.f.mem.Length < INT_MAX
    modifies w.f, w.f.mem
    ensures r == 0 ==>
              && 0 <= n < |w.rsvs| && w.rsvs[n].size == 0 && es == w.rsvs[..n]
              && forall k :: 0 <= k < n ==> w.rsvs[k].size != 0
    ensures r != 0 ==> w.f.h == old(w.f.h) && w.f.mem[..] == old(w.f.mem[..])
  {
    hide Consistent, AllWritten, Finished, Reserved;
    r := Finish(w);
    es := [];
    if r != 0 {
      return r, 0, [];
    }
    ghost var t := old(NamesOf(w.f.h, w.f.mem[..]));
    FinishedEntries(w.f.h, w.f.mem[..], w.f.addr, FixedAll(w.ts, |t|), old(w.f.h.sizeStruct), t, w.rsvs);
    n := NumMemRsv(w.f);
    FirstTerminator(w.f.h, w.f.mem[..], w.rsvs, n);
    es := ReadReservations(w.f, n, w.rsvs);
  }

  /** Entries 0 to n - 1 as fdt_get_mem_rsv gives them. */
  method ReadReservations(f: Buffer, n: nat, ghost rs: seq<Rsv>) returns (es: seq<Rsv>)
    requires RoProbe(f.h, f.addr) >= 0 && 16 <= f.h.total <= f.mem.Length < INT_MAX && f.h.offRsv == RSV_START
    requires f.h.offStruct <= f.h.total && Reserved(f.h.offStruct, f.mem[..], rs) && n <= |rs|
    ensures es == rs[..n]
  {
    hide Reserved, RsvAt, RsvEndsAt;
    es := [];
    for i := 0 to n
      invariant es == rs[..i]
    {
      EntryInPlace(f.h, f.mem[..], rs, i);
      var err, e := GetMemRsv(f, i);
      es := es + [e.value];
    }
  }

  lemma FinishedEntries(h: Header, b: Bytes, addr: nat, us: seq<Token>, end: nat, t: Bytes, rs: seq<Rsv>)
    requires Finished(h, b, us, end, t) && addr % 8 == 0 && |b| < INT_MAX && Reserved(h.offStruct, b, rs)
    ensures RoProbe(h, addr) >= 0 && 16 <= h.total <= |b| && h.offRsv == RSV_START && h.offStruct <= h.total
  {
    hide Tree, RsvClosed, Reserved;
  }

  lemma EntryInPlace(h: Header, b: Bytes, rs: seq<Rsv>, k: nat)
    requires h.total <= |b| < INT_MAX && h.offRsv == RSV_START && h.offStruct <= h.total && Reserved(h.offStruct, b, rs)
    requires k < |rs|
    ensures RSV_START + 16 * k + 16 <= h.total && RsvAt(b, RSV_START, k) == rs[k] && k % 0x1000_0000 == k
    ensures RsvEndsAt(h, b, k) <==> rs[k].size == 0
  {
    TerminatorHasSizeZero(h, b, k);
  }

  lemma FirstTerminator(h: Header, b: Bytes, rs: seq<Rsv>, n: int)
    requires h.total <= |b| < INT_MAX && h.offRsv == RSV_START && h.offStruct <= h.total && Reserved(h.offStruct, b, rs)
    requires rs != [] && rs[|rs| - 1].size == 0
    requires n >= 0 ==> RsvEndsAt(h, b, n) && forall k :: 0 <= k < n ==> !RsvEndsAt(h, b, k)
    requires n < 0 ==> forall k :: 0 <= k ==> !RsvEndsAt(h, b, k)
    ensures 0 <= n < |rs| && rs[n].size == 0 && forall k :: 0 <= k < n ==> rs[k].size != 0
  {
    var last := |rs| - 1;
    EntryInPlace(h, b, rs, last);
    hide RsvEndsAt, Reserved;
    assert 0 <= n <= last;
    EntryInPlace(h, b, rs, n);
    forall k | 0 <= k < n
      ensures rs[k].size != 0
    {
      EntryInPlace(h, b, rs, k);
    }
  }

  lemma WrittenSize(t: Bytes, ts: seq<Token>, calls: seq<Call>)
    requires AllWritten(t, ts, calls)
    ensures |ts| == |calls|
  {
  }

  lemma FinishedReadable(h: Header, b: Bytes, addr: nat, us: seq<Token>, end: nat, t: Bytes)
    requires Finished(h, b, us, end, t) && addr % 8 == 0 && |b| < INT_MAX
    ensures Readable(h, addr, |b|) && Tree(Struct(h, b), us, end) && Strings(h, b) == t && |t| <= INT_MAX
  {
    hide Tree, RsvClosed;
  }

  // ---- The validator on finished trees -----------------------------------------------------------

  /** The nodes that the calls open and close nest under one root, whose name is empty. */
  ghost predicate BalancedCalls(calls: seq<Call>, depth: nat, closed: bool)
    decreases |calls|
  {
    if calls == [] then depth == 0
    else
      && !closed
      && match calls[0]
         case BeginCall(name) => (depth == 0 ==> name == []) && BalancedCalls(calls[1..], depth + 1, false)
         case EndCall => depth > 0 && BalancedCalls(calls[1..], depth - 1, depth == 1)
         case PropCall(_, _) => BalancedCalls(calls[1..], depth, false)
  }

  lemma {:induction false} BalancedAsCalled(t: Bytes, ts: seq<Token>, calls: seq<Call>, n: nat, depth: nat,
                                            closed: bool)
    requires AllWritten(t, ts, calls)
    ensures Balanced(FixedAll(ts, n), depth, closed) <==> BalancedCalls(calls, depth, closed)
    decreases |ts|
  {
    var us := FixedAll(ts, n);
    if ts != [] {
      assert us[1..] == FixedAll(ts[1..], n);
      assert Written(t, ts[0], calls[0]);
      assert AllWritten(t, ts[1..], calls[1..]) by {
        forall i | 0 <= i < |ts| - 1
          ensures Written(t, ts[1..][i], calls[1..][i])
        {
          assert Written(t, ts[i + 1], calls[i + 1]);
        }
      }
      hide NamedFromEnd, AllWritten;
      match calls[0] {
        case BeginCall(_) => BalancedAsCalled(t, ts[1..], calls[1..], n, depth + 1, false);
        case EndCall => if depth > 0 {
          BalancedAsCalled(t, ts[1..], calls[1..], n, depth - 1, depth == 1);
        }
        case PropCall(_, _) => BalancedAsCalled(t, ts[1..], calls[1..], n, depth, false);
      }
    }
  }

  /** The names of a finished tree resolve. */
  lemma FinishedNamesResolve(t: Bytes, ts: seq<Token>, calls: seq<Call>)
    requires AllWritten(t, ts, calls) && |t| <= INT_MAX
    ensures NamesResolve(t, FixedAll(ts, |t|))
  {
    AllFixedReadAsCalls(t, ts, calls);
    hide StrAt;
    var us := FixedAll(ts, |t|);
    forall i | 0 <= i < |us| && us[i].Prop?
      ensures StrAt(t, us[i].nameoff).Some?
    {
      assert Written(t, ts[i], calls[i]);
      assert ItemOf(t, us[i]) == CallItem(calls[i]);
    }
  }

  /** The validator's loop accepts exactly the trees whose calls nest. */
  lemma AcceptedExactlyIfBalanced(s: Bytes, t: Bytes, ts: seq<Token>, calls: seq<Call>, end: nat)
    requires AllWritten(t, ts, calls) && |t| <= INT_MAX && Tree(s, FixedAll(ts, |t|), end)
    ensures Verdict(s, t, 0, 0, false) == 0 <==> BalancedCalls(calls, 0, false)
  {
    hide Next, AllWritten, Balanced, BalancedCalls, Verdict;
    var us := FixedAll(ts, |t|);
    BalancedAsCalled(t, ts, calls, |t|, 0, false);
    FinishedNamesResolve(t, ts, calls);
    if Balanced(us, 0, false) {
      BalancedIsAccepted(s, t, 0, us, end, 0, false);
    }
    if Verdict(s, t, 0, 0, false) == 0 {
      var vs, e := AcceptedIsBalanced(s, t, 0, 0, false);
      TreeUnique(s, us, end, vs, e);
    }
  }

  /** The header and the reservations of a finished tree pass the validator's first checks. */
  lemma FinishedHeader(h: Header, b: Bytes, addr: nat, us: seq<Token>, end: nat, t: Bytes)
    requires Finished(h, b, us, end, t) && addr % 8 == 0 && |b| < INT_MAX
    ensures HeaderWords(h) && h.version >= 17 && CheckHeader(h, addr) == 0 && h.total <= |b|
    ensures exists k :: 0 <= k && RsvEndsAt(h, b, k)
  {
    hide Tree;
    var k := (h.offStruct - RSV_START) / 16 - 1;
    assert RSV_START + 16 * k + 16 == h.offStruct;
    assert RsvEndsAt(h, b, k);
  }

  /** A finished tree is accepted by fdt_check_full exactly if its nodes nest under one empty-named root. */
  method FinishAndCheck(w: Writer) returns (r: int, verdict: int)
    requires ProbeStruct(w.f.h) == 0 ==> w.Writing()
    requires w.f.addr % 8 == 0 && w.f.mem.Length < INT_MAX
    modifies w.f, w.f.mem
    ensures r == 0 ==> (verdict == 0 <==> BalancedCalls(w.calls, 0, false))
    ensures r != 0 ==> w.f.h == old(w.f.h) && w.f.mem[..] == old(w.f.mem[..])
  {
    hide Consistent, AllWritten, Finished, BalancedCalls, Verdict;
    r := Finish(w);
    if r != 0 {
      return r, r;
    }
    ghost var t := old(NamesOf(w.f.h, w.f.mem[..]));
    ghost var us, end := FixedAll(w.ts, |t|), old(w.f.h.sizeStruct);
    FinishedReadable(w.f.h, w.f.mem[..], w.f.addr, us, end, t);
    FinishedHeader(w.f.h, w.f.mem[..], w.f.addr, us, end, t);
    AcceptedExactlyIfBalanced(StructOf(w.f), t, w.ts, w.calls, end);
    verdict := CheckFull(w.f);
  }
}
