/**
  The validators fdt_check_header (libfdt/fdt.c) and fdt_check_full (libfdt/fdt_check.c),
  and exactly which blobs they accept.
*/
module FdtCheck {
  import opened Machine
  import opened FdtFormat
  import opened FdtReader

  const HEADER_SIZE := 40   // FDT_V17_SIZE

  /** fdt_header_size_ */
  function HeaderSize(version: nat): nat {
    if version <= 1 then 28 else if version <= 2 then 32 else if version <= 16 then 36 else HEADER_SIZE
  }

  lemma HeaderSizes()
    ensures HeaderSize(1) == 28 && HeaderSize(2) == 32 && HeaderSize(3) == HeaderSize(16) == 36 && HeaderSize(17) == 40
  {
  }

  predicate CheckOff(hdrsize: nat, total: nat, off: nat) {
    hdrsize <= off <= total
  }

  predicate CheckBlock(hdrsize: nat, total: nat, base: nat, size: nat) {
    && CheckOff(hdrsize, total, base) && (base + size) % WORD >= base
    && CheckOff(hdrsize, total, (base + size) % WORD)
  }

  predicate HeaderWords(h: Header) {
    && h.magic < WORD && h.total < WORD && h.offStruct < WORD && h.offStrings < WORD && h.offRsv < WORD
    && h.version < WORD && h.lastComp < WORD && h.sizeStrings < WORD && h.sizeStruct < WORD
  }

  /** fdt_check_header: alignment, magic number, version, and every block inside the total size. */
  function CheckHeader(h: Header, addr: nat): (r: int)
    requires HeaderWords(h)
    ensures r == 0 <==>
            var hdrsize := HeaderSize(h.version);
            && addr % 8 == 0 && h.magic == FDT_MAGIC
            && 2 <= h.version && h.lastComp <= 17 && h.lastComp <= h.version
            && hdrsize <= h.total <= INT_MAX && hdrsize <= h.offRsv <= h.total
            && hdrsize <= h.offStruct && h.offStruct + (if h.version < 17 then 0 else h.sizeStruct) <= h.total
            && hdrsize <= h.offStrings && h.offStrings + h.sizeStrings <= h.total
  {
    var hdrsize := HeaderSize(h.version);
    if addr % 8 != 0 then -ALIGNMENT
    else if h.magic != FDT_MAGIC then -BADMAGIC
    else if h.version < 2 || h.lastComp > 17 || h.version < h.lastComp then -BADVERSION
    else if h.total < hdrsize || h.total > INT_MAX then -TRUNCATED
    else if !CheckOff(hdrsize, h.total, h.offRsv) then -TRUNCATED
    else if h.version < 17 && !CheckOff(hdrsize, h.total, h.offStruct) then -TRUNCATED
    else if h.version >= 17 && !CheckBlock(hdrsize, h.total, h.offStruct, h.sizeStruct) then -TRUNCATED
    else if !CheckBlock(hdrsize, h.total, h.offStrings, h.sizeStrings) then -TRUNCATED
    else 0
  }

  /** Which error fdt_check_header gives: an unaligned address, then the magic number, then the version come first. */
  lemma CheckHeaderErrors(h: Header, addr: nat)
    requires HeaderWords(h)
    ensures var supported := 2 <= h.version && h.lastComp <= 17 && h.lastComp <= h.version;
            && (CheckHeader(h, addr) == -ALIGNMENT <==> addr % 8 != 0)
            && (CheckHeader(h, addr) == -BADMAGIC <==> addr % 8 == 0 && h.magic != 0xD00D_FEED)
            && (CheckHeader(h, addr) == -BADVERSION <==> addr % 8 == 0 && h.magic == 0xD00D_FEED && !supported)
            && (CheckHeader(h, addr) == -TRUNCATED <==>
                  && addr % 8 == 0 && h.magic == 0xD00D_FEED && supported && CheckHeader(h, addr) != 0)
  {
  }

  /**
    fdt_ro_probe_ by its results: the total size exactly for an aligned address and a finished tree of a supported
    version, or one being written that has begun its structure block, below 2^31 - 1 bytes.
  */
  lemma RoProbeExact(h: Header, addr: nat)
    requires HeaderWords(h)
    ensures var finished, unfinished := h.magic == 0xD00D_FEED, h.magic == 0x2FF2_0112;
            var supported, begun := 2 <= h.version && h.lastComp <= 17, h.sizeStruct > 0;
            var readable := addr % 8 == 0 && ((finished && supported) || (unfinished && begun));
            && (RoProbe(h, addr) >= 0 <==> readable && h.total < INT_MAX)
            && (RoProbe(h, addr) >= 0 ==> RoProbe(h, addr) == h.total)
            && (RoProbe(h, addr) == -ALIGNMENT <==> addr % 8 != 0)
            && (RoProbe(h, addr) == -BADMAGIC <==> addr % 8 == 0 && !finished && !unfinished)
            && (RoProbe(h, addr) == -BADVERSION <==> addr % 8 == 0 && finished && !supported)
            && (RoProbe(h, addr) == -BADSTATE <==> addr % 8 == 0 && unfinished && !begun)
            && (RoProbe(h, addr) == -TRUNCATED <==> readable && h.total >= INT_MAX)
  {
  }

  /** What fdt_check_header accepts can be read, unless its size is the largest int. */
  lemma CheckedIsReadable(h: Header, addr: nat)
    requires HeaderWords(h) && CheckHeader(h, addr) == 0
    ensures RoProbe(h, addr) == if h.total == INT_MAX then -TRUNCATED else h.total
  {
  }

  // ---- Which token sequences are accepted --------------------------------------------------------

  /** The nodes of ts, entered at the given depth, close up again, and nothing follows the root. */
  ghost predicate Balanced(ts: seq<Token>, depth: nat, closed: bool)
    decreases |ts|
  {
    if ts == [] then depth == 0
    else
      && !closed && !ts[0].End?
      && match ts[0]
         case Begin(name) => (depth == 0 ==> name == []) && Balanced(ts[1..], depth + 1, false)
         case EndNode => depth > 0 && Balanced(ts[1..], depth - 1, depth == 1)
         case Prop(_, _) => Balanced(ts[1..], depth, false)
         case Nop => Balanced(ts[1..], depth, false)
         case End => false
  }

  ghost predicate NamesResolve(t: Bytes, ts: seq<Token>) {
    forall i :: 0 <= i < |ts| && ts[i].Prop? ==> StrAt(t, ts[i].nameoff).Some?
  }

  /** What the loop of fdt_check_full returns from the given state on. */
  ghost function Verdict(s: Bytes, t: Bytes, off: nat, depth: nat, closed: bool): int
    decreases |s| + 4 - off
  {
    match Next(s, off)
    case Bad(e) => 0 - e
    case Step(x, n) =>
      if closed && !x.End? then -BADSTRUCTURE
      else
        match x
        case End => if depth != 0 then -BADSTRUCTURE else 0
        case Begin(name) =>
          if depth == 0 && name != [] then -BADSTRUCTURE else Verdict(s, t, n, depth + 1, closed)
        case EndNode =>
          if depth == 0 then -BADSTRUCTURE else Verdict(s, t, n, depth - 1, closed || depth == 1)
        case Prop(o, _) =>
          if StrAt(t, o).None? then StringError(t, o) else Verdict(s, t, n, depth, closed)
        case Nop => Verdict(s, t, n, depth, closed)
  }

  /** A balanced tree whose names resolve is accepted. */
  lemma {:induction false} BalancedIsAccepted(s: Bytes, t: Bytes, off: nat, ts: seq<Token>, end: nat, depth: nat,
                                              closed: bool)
    requires Walk(s, off, ts, end) && Next(s, end).Step? && Next(s, end).tok == End
    requires Balanced(ts, depth, closed) && NamesResolve(t, ts)
    ensures Verdict(s, t, off, depth, closed) == 0
    decreases |ts|
  {
    hide Next, StrAt;
    if ts != [] {
      var n, r := Next(s, off).next, ts[1..];
      assert NamesResolve(t, r) by {
        forall i | 0 <= i < |r| && r[i].Prop?
          ensures StrAt(t, r[i].nameoff).Some?
        {
          assert r[i] == ts[i + 1];
        }
      }
      match ts[0] {
        case Begin(_) => BalancedIsAccepted(s, t, n, r, end, depth + 1, false);
        case EndNode => BalancedIsAccepted(s, t, n, r, end, depth - 1, depth == 1);
        case Prop(_, _) => BalancedIsAccepted(s, t, n, r, end, depth, false);
        case Nop => BalancedIsAccepted(s, t, n, r, end, depth, false);
      }
    }
  }

  /** Only balanced trees whose names resolve are accepted. */
  lemma {:induction false} AcceptedIsBalanced(s: Bytes, t: Bytes, off: nat, depth: nat, closed: bool)
    returns (ts: seq<Token>, end: nat)
    requires Verdict(s, t, off, depth, closed) == 0 && off % 4 == 0
    ensures Walk(s, off, ts, end) && Next(s, end).Step? && Next(s, end).tok == End
    ensures Balanced(ts, depth, closed) && NamesResolve(t, ts)
    decreases |s| + 4 - off
  {
    assert Next(s, off).Step? by {
      ErrorIsNegative(s, off);
    }
    var x, n := Next(s, off).tok, Next(s, off).next;
    if x.End? {
      return [], off;
    }
    var depth', closed' := (if x.Begin? then depth + 1 else if x.EndNode? then depth - 1 else depth), x.EndNode?
      && depth == 1;
    var r, e := AcceptedIsBalanced(s, t, n, depth', closed');
    ts, end := [x] + r, e;
    assert ts[1..] == r;
    forall i | 0 <= i < |ts| && ts[i].Prop?
      ensures StrAt(t, ts[i].nameoff).Some?
    {
      assert i > 0 ==> ts[i] == r[i - 1];
    }
  }

  /** Everything that fdt_check_full asks of a blob. */
  ghost predicate Accepted(f: Buffer)
    requires HeaderWords(f.h) && (f.h.version < 2 || f.h.version >= 17)
    reads f, f.mem
  {
    && CheckHeader(f.h, f.addr) == 0 && f.h.total <= f.mem.Length
    && (exists k :: 0 <= k && RsvEndsAt(f.h, f.mem[..], k))
    && Verdict(StructOf(f), StringsOf(f), 0, 0, false) == 0
  }

  /** fdt_check_full, for the versions that it refuses and those from 17 on. */
  method CheckFull(f: Buffer) returns (r: int)
    requires HeaderWords(f.h) && (f.h.version < 2 || f.h.version >= 17) && f.h.total != INT_MAX
    ensures r == 0 <==> Accepted(f)
    ensures r == if f.mem.Length < 28 || f.mem.Length < HeaderSize(f.h.version) then -TRUNCATED
                 else if CheckHeader(f.h, f.addr) != 0 then CheckHeader(f.h, f.addr)
                 else if f.mem.Length < f.h.total || forall k :: 0 <= k ==>
                   !RsvEndsAt(f.h, f.mem[..], k) then -TRUNCATED
                 else Verdict(StructOf(f), StringsOf(f), 0, 0, false)
  {
    var bufsize := f.mem.Length;
    if bufsize < HeaderSize(1) || bufsize < HeaderSize(f.h.version) {
      return -TRUNCATED;
    }
    var err := CheckHeader(f.h, f.addr);
    if err != 0 {
      return err;
    }
    if bufsize < f.h.total {
      return -TRUNCATED;
    }
    hide Verdict;
    var n := NumMemRsv(f);
    if n < 0 {
      return n;
    }
    r := CheckStruct(f);
  }

  /** The loop of fdt_check_full; it ends because every tag advances the offset. */
  method CheckStruct(f: Buffer) returns (r: int)
    requires Readable(f.h, f.addr, f.mem.Length)
    ensures r == Verdict(StructOf(f), StringsOf(f), 0, 0, false)
  {
    hide Next, StructOf, StringsOf, StrAt, Be32;
    var offset: nat, depth: nat, closed := 0, 0, false;
    ghost var s, t := StructOf(f), StringsOf(f);
    while true
      invariant StructOf(f) == s && StringsOf(f) == t
      invariant offset < |s| + 4
      invariant Verdict(s, t, 0, 0, false) == Verdict(s, t, offset, depth, closed)
      decreases |s| + 4 - offset
    {
      var tag, next := NextTag(f, offset);
      if next < 0 {
        return next;
      }
      if closed && tag != TAG_END {
        return -BADSTRUCTURE;
      }
      if tag == TAG_END {
        return if depth != 0 then -BADSTRUCTURE else 0;
      }
      var x := ReadItem(f, offset, tag);
      if tag == TAG_BEGIN {
        if depth == 0 && x.name != [] {
          return -BADSTRUCTURE;
        }
        depth := depth + 1;
      } else if tag == TAG_END_NODE {
        if depth == 0 {
          return -BADSTRUCTURE;
        }
        depth := depth - 1;
        if depth == 0 {
          closed := true;
        }
      } else if tag == TAG_PROP {
        if x.prop.None? {
          r := NameError(f, offset);
          return;
        }
      }
      offset := next;
    }
  }

  /** The error that fdt_getprop_by_offset passes on when the name does not resolve. */
  method NameError(f: Buffer, offset: nat) returns (err: int)
    requires Readable(f.h, f.addr, f.mem.Length)
    requires Next(StructOf(f), offset).Step? && Next(StructOf(f), offset).tok.Prop?
    requires StrAt(StringsOf(f), Next(StructOf(f), offset).tok.nameoff).None?
    ensures err == StringError(StringsOf(f), Next(StructOf(f), offset).tok.nameoff)
  {
    TokenCells(StructOf(f), offset);
    FinishedName(f, Next(StructOf(f), offset).tok.nameoff);
    hide Next, Be32, ZeroFrom, StructOf, StringsOf, StrAt, NameAt, NamesSane, RoProbe, StringError;
    var nameoff := StructWord(f, offset + 8);
    var name;
    name, err := GetString(f, AsInt(nameoff));
  }
}
