/**
  The flattened device tree as bytes (external/libfdt; sections 5.2 to 5.5 of the Devicetree
  Specification v0.4): big-endian words, the tokens of the structure block, the names of the
  strings block, and what moving a stretch of tokens to another place preserves.
*/
module FdtFormat {
  import opened Machine

  const TAG_BEGIN := 1
  const TAG_END_NODE := 2
  const TAG_PROP := 3
  const TAG_NOP := 4
  const TAG_END := 9

  const FDT_MAGIC := 0xD00D_FEED
  const SW_MAGIC := WORD - 1 - FDT_MAGIC

  const NOTFOUND := 1
  const NOSPACE := 3
  const BADOFFSET := 4
  const BADSTATE := 7
  const TRUNCATED := 8
  const BADMAGIC := 9
  const BADVERSION := 10
  const BADSTRUCTURE := 11
  const BADLAYOUT := 12
  const ALIGNMENT := 19

  /** The words of the header; the code reads and writes them only through accessors. */
  datatype Header = Header(magic: nat, total: nat, offStruct: nat, offStrings: nat, offRsv: nat,
                           version: nat, lastComp: nat, sizeStrings: nat, sizeStruct: nat)

  /** The buffer of a device tree: its header words and its bytes, of which the first 40 are the header. */
  class Buffer {
    var h: Header
    const mem: array<Byte>
    const addr: nat

    constructor (mem: array<Byte>, addr: nat)
      ensures this.mem == mem && this.addr == addr
    {
      this.mem := mem;
      this.addr := addr;
      h := Header(0, 0, 0, 0, 0, 0, 0, 0, 0);
    }
  }

  // ---- Words and alignment ----------------------------------------------------------------------

  function Be32(s: Bytes, o: int): (v: nat)
    requires 0 <= o && o + 4 <= |s|
    ensures v < WORD
  {
    (s[o] as int) * 0x100_0000 + (s[o + 1] as int) * 0x1_0000 + (s[o + 2] as int) * 0x100 + s[o + 3] as int
  }

  function Enc32(v: nat): (s: Bytes)
    requires v < WORD
    ensures |s| == 4 && Be32(s, 0) == v
  {
    var low3 := v % 0x100_0000;
    var low2 := low3 % 0x1_0000;
    [v / 0x100_0000, low3 / 0x1_0000, low2 / 0x100, low2 % 0x100]
  }

  /** The magic number as it stands in memory. */
  lemma MagicBytes()
    ensures Be32([0xd0, 0x0d, 0xfe, 0xed], 0) == FDT_MAGIC
  {
  }

  /** A doubleword of the reservation block. */
  function Be64(s: Bytes, o: int): (v: nat)
    requires 0 <= o && o + 8 <= |s|
  {
    Be32(s, o) * WORD + Be32(s, o + 4)
  }

  /** FDT_TAGALIGN */
  function Align(x: nat): (r: nat)
    ensures x <= r < x + 4 && r % 4 == 0
  {
    (x + 3) / 4 * 4
  }

  lemma AlignShift(a: nat, x: nat)
    requires a % 4 == 0
    ensures Align(a + x) == a + Align(x)
  {
  }

  /** The bytes of s from o to o + n - 1 replaced by t. */
  function Patch(s: Bytes, o: nat, t: Bytes): (r: Bytes)
    requires o + |t| <= |s|
    ensures |r| == |s|
  {
    s[..o] + t + s[o + |t|..]
  }

  lemma SliceOfSlice(b: Bytes, lo: nat, hi: nat, i: nat, j: nat)
    requires lo <= hi <= |b| && i <= j <= hi - lo
    ensures b[lo..hi][i..j] == b[lo + i..lo + j]
  {
    var x, y := b[lo..hi][i..j], b[lo + i..lo + j];
    assert forall k :: 0 <= k < j - i ==> x[k] == b[lo..hi][i + k] == b[lo + (i + k)] == y[k];
    assert x == y;
  }

  // ---- Strings ---------------------------------------------------------------------------------

  /** Position of the first 0 at or after o, or the length. */
  function ZeroFrom(s: Bytes, o: nat): (z: nat)
    requires o <= |s|
    ensures o <= z <= |s| && (z < |s| ==> s[z] == 0)
    ensures forall i :: o <= i < z ==> s[i] != 0
    decreases |s| - o
  {
    if o == |s| || s[o] == 0 then o else ZeroFrom(s, o + 1)
  }

  /** The first 0 is the only position with no 0 before it. */
  lemma ZeroFromUnique(s: Bytes, o: nat, z: nat)
    requires o <= z < |s| && s[z] == 0 && forall i :: o <= i < z ==> s[i] != 0
    ensures ZeroFrom(s, o) == z
  {
  }

  /** The string at offset o of a strings block. */
  function StrAt(t: Bytes, o: nat): Option<Bytes> {
    if o < |t| && ZeroFrom(t, o) < |t| then Some(t[o..ZeroFrom(t, o)]) else None
  }

  /** A C string's characters: no 0 among them. */
  predicate NoZero(s: Bytes) {
    forall i :: 0 <= i < |s| ==> s[i] != 0
  }

  lemma StrAtIs(t: Bytes, o: nat, s: Bytes)
    requires NoZero(s) && o + |s| < |t| && t[o..o + |s|] == s && t[o + |s|] == 0
    ensures StrAt(t, o) == Some(s)
  {
    forall i | o <= i < o + |s|
      ensures t[i] != 0
    {
      assert t[i] == t[o..o + |s|][i - o];
    }
    ZeroFromUnique(t, o, o + |s|);
  }

  /** Appending to a strings block changes no string in it. */
  lemma StrAtAppend(t: Bytes, x: Bytes, o: nat)
    requires StrAt(t, o).Some?
    ensures StrAt(t + x, o) == StrAt(t, o)
  {
    var z := ZeroFrom(t, o);
    ZeroFromUnique(t + x, o, z);
    assert (t + x)[o..z] == t[o..z];
  }

  // ---- Tokens of the structure block -------------------------------------------------------------

  datatype Token = Begin(name: Bytes) | EndNode | Prop(nameoff: nat, val: Bytes) | Nop | End

  /** A token and the bytes it takes without padding, or an error. */
  datatype Lexeme = Lexeme(tok: Token, len: nat) | NoLexeme(code: nat)

  /** The token that the bytes w start with. */
  function Lex(w: Bytes): (x: Lexeme)
    ensures x.Lexeme? ==> 4 <= x.len <= |w| && Be32(w, 0) == TagOf(x.tok)
  {
    if |w| < 4 then NoLexeme(TRUNCATED)
    else
      var tag := Be32(w, 0);
      if tag == TAG_BEGIN then
        var z := ZeroFrom(w, 4);
        if z == |w| then NoLexeme(BADSTRUCTURE) else Lexeme(Begin(w[4..z]), z + 1)
      else if tag == TAG_PROP then
        if |w| < 12 || |w| < 12 + Be32(w, 4) then NoLexeme(BADSTRUCTURE)
        else Lexeme(Prop(Be32(w, 8), w[12..12 + Be32(w, 4)]), 12 + Be32(w, 4))
      else if tag == TAG_END_NODE then Lexeme(EndNode, 4)
      else if tag == TAG_NOP then Lexeme(Nop, 4)
      else if tag == TAG_END then Lexeme(End, 4)
      else NoLexeme(BADSTRUCTURE)
  }

  function TagOf(t: Token): nat {
    match t
    case Begin(_) => TAG_BEGIN
    case EndNode => TAG_END_NODE
    case Prop(_, _) => TAG_PROP
    case Nop => TAG_NOP
    case End => TAG_END
  }

  /** A token depends on its own bytes only. */
  lemma LexPrefix(w: Bytes, w': Bytes)
    requires Lex(w).Lexeme? && Lex(w).len <= |w'| && w'[..Lex(w).len] == w[..Lex(w).len]
    ensures Lex(w') == Lex(w)
  {
    var n := Lex(w).len;
    assert forall i :: 0 <= i < n ==> w'[i] == w[..n][i] == w[i];
    match Lex(w).tok {
      case Begin(name) =>
        ZeroFromUnique(w', 4, n - 1);
        assert w'[4..n - 1] == w[4..n - 1];
      case Prop(_, val) =>
        assert Be32(w', 4) == Be32(w, 4) && Be32(w', 8) == Be32(w, 8);
        assert w'[12..n] == w[12..n];
      case EndNode =>
      case Nop =>
      case End =>
    }
  }

  /** One step of a walk: the token at an offset and the offset of the next one, or an error. */
  datatype Step = Step(tok: Token, next: nat) | Bad(err: nat)

  /** The token at offset off of a structure block. */
  function Next(s: Bytes, off: nat): (r: Step)
    ensures r.Step? ==> off + 4 <= |s| && off + 4 <= r.next < |s| + 4 && r.next % 4 == 0
    ensures r.Step? ==> Be32(s, off) == TagOf(r.tok)
  {
    if off > |s| then Bad(TRUNCATED)
    else
      match Lex(s[off..])
      case NoLexeme(e) => Bad(e)
      case Lexeme(t, n) => Step(t, Align(off + n))
  }

  /** The tokens as bytes: a node named a, the property 7 8 with its name at offset 5, and the tags alone. */
  lemma TokenBytes()
    ensures Next([0, 0, 0, 1, 97, 0, 0, 0], 0) == Step(Begin([97]), 8)
    ensures Next([0, 0, 0, 3, 0, 0, 0, 2, 0, 0, 0, 5, 7, 8, 0, 0], 0) == Step(Prop(5, [7, 8]), 16)
    ensures Next([0, 0, 0, 2], 0) == Step(EndNode, 4) && Next([0, 0, 0, 4], 0) == Step(Nop, 4)
    ensures Next([0, 0, 0, 9], 0) == Step(End, 4) && Next([0, 0, 0, 5], 0) == Bad(BADSTRUCTURE)
  {
    var b: Bytes := [0, 0, 0, 1, 97, 0, 0, 0];
    assert b[0..] == b;
    assert Be32(b, 0) == TAG_BEGIN;
    assert b[4] == 97 && b[5] == 0;
    ZeroFromUnique(b, 4, 5);
    assert b[4..5] == [97];
    var p: Bytes := [0, 0, 0, 3, 0, 0, 0, 2, 0, 0, 0, 5, 7, 8, 0, 0];
    assert p[0..] == p;
    assert Be32(p, 0) == TAG_PROP && Be32(p, 4) == 2 && Be32(p, 8) == 5;
    assert p[12..14] == [7, 8];
    TagAlone(2);
    TagAlone(4);
    TagAlone(9);
    TagAlone(5);
  }

  lemma TagAlone(tag: Byte)
    ensures var w: Bytes := [0, 0, 0, tag]; w[0..] == w && Be32(w, 0) == tag
  {
  }

  lemma NextAligned(s: Bytes, off: nat)
    requires Next(s, off).Step?
    ensures Next(s, off).next % 4 == 0
  {
  }

  /** A token reads the same wherever its bytes are moved by a multiple of 4. */
  lemma NextShift(s: Bytes, off: nat, s': Bytes, off': nat, n: nat)
    requires off % 4 == 0 && off' % 4 == 0
    requires Next(s, off).Step? && Next(s, off).next == off + n <= |s|
    requires off' + n <= |s'| && s'[off'..off' + n] == s[off..off + n]
    ensures Next(s', off') == Step(Next(s, off).tok, off' + n)
  {
    var w, w' := s[off..], s'[off'..];
    var k := Lex(w).len;
    AlignShift(off, k);
    AlignShift(off', k);
    assert w[..k] == s[off..off + n][..k];
    assert w'[..k] == s'[off'..off' + n][..k];
    LexPrefix(w, w');
  }

  lemma EndFits(s: Bytes, end: nat)
    requires Next(s, end).Step? && Next(s, end).tok == End && end % 4 == 0
    ensures Next(s, end).next == end + 4 <= |s|
  {
  }

  lemma TailSlices(s: Bytes, a: nat, s': Bytes, a': nat, d: nat)
    requires a + d + 4 <= |s| && a' <= |s'| && s[a..] == s'[a'..]
    ensures a' + d + 4 <= |s'|
    ensures s[a..a + d] == s'[a'..a' + d] && s[a + d..a + d + 4] == s'[a' + d..a' + d + 4]
  {
    assert |s| - a == |s'| - a';
    SliceOfSlice(s, a, |s|, 0, d);
    SliceOfSlice(s', a', |s'|, 0, d);
    SliceOfSlice(s, a, |s|, d, d + 4);
    SliceOfSlice(s', a', |s'|, d, d + 4);
    assert s[a..|s|] == s[a..] && s'[a'..|s'|] == s'[a'..];
  }

  // ---- Walks -------------------------------------------------------------------------------------

  /** From off, the walk reads the tokens ts (none of them END) and arrives at end. */
  ghost predicate Walk(s: Bytes, off: nat, ts: seq<Token>, end: nat)
    decreases |ts|
  {
    && off % 4 == 0 && off <= |s|
    && if ts == [] then off == end
       else Next(s, off).Step? && Next(s, off).tok == ts[0] && !ts[0].End? && Walk(s, Next(s, off).next, ts[1..], end)
  }

  lemma {:induction false} WalkBounds(s: Bytes, off: nat, ts: seq<Token>, end: nat)
    requires Walk(s, off, ts, end)
    ensures off + 4 * |ts| <= end <= |s| && end % 4 == 0
    decreases |ts|
  {
    if ts != [] {
      WalkBounds(s, Next(s, off).next, ts[1..], end);
    }
  }

  lemma {:induction false} WalkJoin(s: Bytes, off: nat, ts: seq<Token>, mid: nat, us: seq<Token>, end: nat)
    requires Walk(s, off, ts, mid) && Walk(s, mid, us, end)
    ensures Walk(s, off, ts + us, end)
    decreases |ts|
  {
    hide Next;
    if ts == [] {
      assert ts + us == us;
    } else {
      WalkJoin(s, Next(s, off).next, ts[1..], mid, us, end);
      assert (ts + us)[1..] == ts[1..] + us;
    }
  }

  lemma {:induction false} WalkSplit(s: Bytes, off: nat, ts: seq<Token>, us: seq<Token>, end: nat) returns (mid: nat)
    requires Walk(s, off, ts + us, end)
    ensures Walk(s, off, ts, mid) && Walk(s, mid, us, end)
    decreases |ts|
  {
    hide Next;
    if ts == [] {
      assert ts + us == us;
      mid := off;
    } else {
      assert (ts + us)[1..] == ts[1..] + us;
      mid := WalkSplit(s, Next(s, off).next, ts[1..], us, end);
    }
  }

  /** A stretch of tokens reads the same wherever its bytes are moved by a multiple of 4. */
  lemma {:induction false} WalkShift(s: Bytes, off: nat, ts: seq<Token>, n: nat, s': Bytes, off': nat)
    requires Walk(s, off, ts, off + n) && off + n <= |s| && off' % 4 == 0 && off' + n <= |s'|
    requires s'[off'..off' + n] == s[off..off + n]
    ensures Walk(s', off', ts, off' + n)
    decreases |ts|
  {
    hide Next;
    if ts != [] {
      var d := Next(s, off).next - off;
      WalkBounds(s, off + d, ts[1..], off + n);
      assert s'[off'..off' + d] == s'[off'..off' + n][..d];
      assert s[off..off + d] == s[off..off + n][..d];
      NextShift(s, off, s', off', d);
      assert s'[off' + d..off' + n] == s'[off'..off' + n][d..];
      assert s[off + d..off + n] == s[off..off + n][d..];
      WalkShift(s, off + d, ts[1..], n - d, s', off' + d);
    }
  }

  /** The tokens up to the END token, which sits at end. */
  ghost predicate Tree(s: Bytes, ts: seq<Token>, end: nat) {
    Walk(s, 0, ts, end) && Next(s, end).Step? && Next(s, end).tok == End
  }

  lemma {:induction false} WalkUnique(s: Bytes, off: nat, ts: seq<Token>, end: nat, us: seq<Token>, end': nat)
    requires Walk(s, off, ts, end) && Walk(s, off, us, end')
    requires Next(s, end).Step? ==> Next(s, end).tok == End
    requires Next(s, end').Step? ==> Next(s, end').tok == End
    ensures ts == us && end == end'
    decreases |ts|
  {
    hide Next;
    if ts != [] && us != [] {
      WalkUnique(s, Next(s, off).next, ts[1..], end, us[1..], end');
      assert ts == [ts[0]] + ts[1..] && us == [us[0]] + us[1..];
    }
  }

  /** A structure block has one reading. */
  lemma TreeUnique(s: Bytes, ts: seq<Token>, end: nat, us: seq<Token>, end': nat)
    requires Tree(s, ts, end) && Tree(s, us, end')
    ensures ts == us && end == end'
  {
    WalkUnique(s, 0, ts, end, us, end');
  }
}
