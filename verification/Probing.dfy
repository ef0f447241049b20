/**
  The probe sequence of the open-addressing hash table (common/htopen.c): double hashing
  with 32-bit arithmetic over a prime number of slots.
*/
module Probing {
  import opened Machine
  import opened Arith
  import opened Pigeonhole
  import opened Primes

  /** A key: the characters of a string without the final 0, or a pointer word. */
  datatype Key = Str(text: seq<nat>) | Ptr(word: nat)

  /** A char as the int it is promoted to (char is signed). */
  function CharValue(b: nat): int {
    if b < 128 then b else b - 256
  }

  function Djb2(s: seq<nat>): nat {
    if s == [] then 5381
    else (33 * Djb2(s[..|s| - 1]) + CharValue(s[|s| - 1])) % WORD
  }

  function Sdbm(s: seq<nat>): nat {
    if s == [] then 0
    else
      var h := Sdbm(s[..|s| - 1]);
      (CharValue(s[|s| - 1]) + 64 * h + 65536 * h - h) % WORD
  }

  /** The two 32-bit hash words of a key. */
  function Hash1(k: Key): nat {
    match k
    case Str(s) => Djb2(s)
    case Ptr(w) => (w * 2654435761) % WORD
  }

  function Hash2(k: Key): nat {
    match k
    case Str(s) => Sdbm(s)
    case Ptr(w) => (64 * w + 65536 * w) % WORD
  }

  /** The step between two probes, in 1 .. size - 1. */
  function Step(k: Key, size: nat): (h2: nat)
    requires size >= 2
    ensures 1 <= h2 < size
  {
    Hash2(k) % (size - 1) + 1
  }

  /** The hash words of some keys: two characters, one beyond 127, and a pointer. */
  lemma HashedKeys()
    ensures Hash1(Str([97, 98])) == 5863208 && Hash2(Str([97, 98])) == 6363201
    ensures Hash1(Str([200])) == 177517 && Hash2(Str([200])) == WORD - 56
    ensures Hash1(Ptr(1)) == 2654435761 && Hash2(Ptr(1)) == 65600
  {
    assert [97, 98][..1] == [97] && [97][..0] == [] && [200][..0] == [];
    assert Djb2([97]) == 177670 && Sdbm([97]) == 97;
  }

  /** Slot of the given try: (h1 + try * h2) in 32 bits, modulo size. */
  function Position(h1: nat, h2: nat, size: nat, t: nat): (h: nat)
    requires size > 0
    ensures h < size
  {
    (h1 + t * h2) % WORD % size
  }

  function Probe(k: Key, size: nat, t: nat): nat
    requires size >= 2
  {
    Position(Hash1(k), Step(k, size), size, t)
  }

  /** hash() of htopen.c. */
  method Hash(k: Key, size: nat, t: nat) returns (h: nat)
    requires size >= 2
    ensures h == Probe(k, size, t) && h < size
  {
    hide Position;
    var h1, h2: nat;
    match k {
      case Str(s) =>
        h1, h2 := 5381, 0;
        for i := 0 to |s|
          invariant h1 == Djb2(s[..i]) && h2 == Sdbm(s[..i])
        {
          assert s[..i + 1][..i] == s[..i];
          var c := CharValue(s[i]);
          h1 := (32 * h1 + h1 + c) % WORD;
          h2 := (c + 64 * h2 + 65536 * h2 - h2) % WORD;
        }
        assert s[..|s|] == s;
      case Ptr(w) =>
        h1 := (w * 2654435761) % WORD;
        h2 := (64 * w + 65536 * w) % WORD;
    }
    h2 := h2 % (size - 1) + 1;
    h := Position(h1, h2, size, t);
  }

  // ---- Which slots a probe sequence visits ----------------------------------------------------

  /** The slots of the size probes of a search, in order. */
  ghost function Positions(h1: nat, h2: nat, size: nat): seq<nat>
    requires size > 0
  {
    seq(size, t requires t >= 0 => Position(h1, h2, size, t))
  }

  /** size probes visit every slot. */
  ghost predicate VisitsAll(h1: nat, h2: nat, size: nat)
    requires size > 0
  {
    forall j: nat :: j < size ==> j in Positions(h1, h2, size)
  }

  /** The last probe of the sequence is still below 2^32. */
  predicate NoWrap(h1: nat, h2: nat, size: nat)
    requires size > 0
  {
    h1 + (size - 1) * h2 < WORD
  }

  lemma PositionUnwrapped(h1: nat, h2: nat, size: nat, t: nat)
    requires size > 0 && h1 + t * h2 < WORD
    ensures Position(h1, h2, size, t) == (h1 + t * h2) % size
  {
    DivModUnique(h1 + t * h2, WORD, 0, h1 + t * h2);
  }

  lemma PositionWrappedOnce(h1: nat, h2: nat, size: nat, t: nat)
    requires size > 0 && WORD <= h1 + t * h2 < 2 * WORD
    ensures Position(h1, h2, size, t) == (h1 + t * h2 - WORD) % size
  {
    DivModUnique(h1 + t * h2, WORD, 1, h1 + t * h2 - WORD);
  }

  /** Without wrap-around two probes never meet. */
  lemma ProbesDistinct(h1: nat, h2: nat, size: nat, t: nat, u: nat)
    requires IsPrime(size) && 0 < h2 < size && NoWrap(h1, h2, size)
    requires t < u < size
    ensures Position(h1, h2, size, t) != Position(h1, h2, size, u)
  {
    MulMono(t, size - 1, h2);
    MulMono(u, size - 1, h2);
    PositionUnwrapped(h1, h2, size, t);
    PositionUnwrapped(h1, h2, size, u);
    PrimeProduct(size, u - t, h2);
    Distribute(u, t, h2);
    assert (h1 + u * h2) - (h1 + t * h2) == (u - t) * h2;
    if (h1 + t * h2) % size == (h1 + u * h2) % size {
      SameRemainder(h1 + t * h2, h1 + u * h2, size);
    }
  }

  /** Without wrap-around the probes visit every slot. */
  lemma UnwrappedProbesVisitAll(h1: nat, h2: nat, size: nat)
    requires IsPrime(size) && 0 < h2 < size && NoWrap(h1, h2, size)
    ensures VisitsAll(h1, h2, size)
  {
    var s := Positions(h1, h2, size);
    forall t, u | 0 <= t < u < |s|
      ensures s[t] != s[u]
    {
      ProbesDistinct(h1, h2, size, t, u);
    }
    forall j: nat | j < size
      ensures j in s
    {
      DifferentMeansAll(s, j);
    }
  }

  // ---- Exactly when the probes cover the table ---------------------------------------------------

  lemma Pow2Of32()
    ensures Pow2(32) == WORD
  {
    assert Pow2(8) == 256;
    assert Pow2(16) == 65536;
    assert Pow2(24) == 16777216;
  }

  /** Steps of a table of at most 2^16 slots stay far below 2^32. */
  lemma StepsFit(h2: nat, size: nat, t: nat)
    requires 0 < h2 < size && size * size <= WORD && t < size
    ensures t * h2 <= (size - 1) * h2 < WORD
  {
    MulMono(t, size - 1, h2);
    MulMono(h2, size - 1, size - 1);
    Distribute(size, 1, size);
    Distribute(size, 1, size - 1);
  }

  lemma NonzeroFactor(e: nat, h2: nat, m: nat)
    requires m > 0 && (e * h2) % m != 0
    ensures e > 0
  {
    DivModUnique(0, m, 0, 0);
  }

  /** Some multiple of the step is congruent to 2^32 modulo an odd prime size. */
  lemma WrapShift(h2: nat, size: nat) returns (e: nat, k: int)
    requires IsPrime(size) && size != 2 && 0 < h2 < size && size * size <= WORD
    ensures 1 <= e < size && e * h2 == WORD + k * size
  {
    StepsFit(h2, size, 0);
    UnwrappedProbesVisitAll(0, h2, size);
    Pow2Of32();
    OddPrimeDividesNoPow2(size, 32);
    assert WORD % size in Positions(0, h2, size);
    e :| 0 <= e < size && Positions(0, h2, size)[e] == WORD % size;
    StepsFit(h2, size, e);
    PositionUnwrapped(0, h2, size, e);
    NonzeroFactor(e, h2, size);
    SameRemainder(WORD, e * h2, size);
    k := e * h2 / size - WORD / size;
  }

  /** If the sequence wraps, two of its probes meet (in a table of more than 2 slots). */
  lemma WrappingProbesMeet(h1: nat, h2: nat, size: nat) returns (t: nat, u: nat)
    requires IsPrime(size) && size != 2 && 0 < h2 < size && size * size <= WORD && h1 < WORD
    requires !NoWrap(h1, h2, size)
    ensures t < u < size && Position(h1, h2, size, t) == Position(h1, h2, size, u)
  {
    hide Position, IsPrime;
    var e, k := WrapShift(h2, size);
    var w := FirstWrap(h1, h2, size);
    if e >= w {
      t, u := 0, e;
      MulMono(w, e, h2);
      MulMono(e, size - 1, h2);
      MeetAtStart(h1, h2, size, e, k);
    } else {
      t, u := w - e, w;
      MulMono(w - e, w - 1, h2);
      MulMono(w, size - 1, h2);
      MeetAtWrap(h1, h2, size, e, k, w);
    }
  }

  lemma MeetAtStart(h1: nat, h2: nat, size: nat, e: nat, k: int)
    requires size > 0 && e * h2 == WORD + k * size && h1 < WORD <= h1 + e * h2 < 2 * WORD
    ensures Position(h1, h2, size, 0) == Position(h1, h2, size, e)
  {
    PositionUnwrapped(h1, h2, size, 0);
    PositionWrappedOnce(h1, h2, size, e);
    ModAddMultiple(h1, k, size);
  }

  lemma MeetAtWrap(h1: nat, h2: nat, size: nat, e: nat, k: int, w: nat)
    requires size > 0 && e <= w && e * h2 == WORD + k * size
    requires h1 + (w - e) * h2 < WORD <= h1 + w * h2 < 2 * WORD
    ensures Position(h1, h2, size, w - e) == Position(h1, h2, size, w)
  {
    PositionUnwrapped(h1, h2, size, w - e);
    PositionWrappedOnce(h1, h2, size, w);
    Distribute(w, e, h2);
    ModAddMultiple(h1 + (w - e) * h2, k, size);
  }

  /** w is the first try that exceeds 32 bits, and no try wraps twice. */
  lemma FirstWrap(h1: nat, h2: nat, size: nat) returns (w: nat)
    requires 2 <= size && 0 < h2 < size && size * size <= WORD && h1 < WORD && !NoWrap(h1, h2, size)
    ensures 1 <= w <= size - 1
    ensures h1 + (w - 1) * h2 < WORD <= h1 + w * h2
    ensures h1 + (size - 1) * h2 < 2 * WORD
  {
    var x := WORD - 1 - h1;
    w := x / h2 + 1;
    assert x == (x / h2) * h2 + x % h2;
    Distribute(x / h2, 1, h2);
    Distribute(w, 1, h2);
    WrapBeforeEnd(h1, h2, size, w);
    StepsFit(h2, size, 0);
  }

  lemma WrapBeforeEnd(h1: nat, h2: nat, size: nat, w: nat)
    requires 0 < h2 && 1 <= w && 1 <= size && h1 + (w - 1) * h2 < WORD <= h1 + (size - 1) * h2
    ensures w <= size - 1
  {
    Distribute(w - 1, size - 1, h2);
    MulSign(w - size, h2);
  }

  lemma ParityOfWord(x: nat)
    ensures x % WORD % 2 == x % 2
  {
    assert x == (x / WORD) * WORD + x % WORD;
    ModAddMultiple(x % WORD, (x / WORD) * (WORD / 2), 2);
  }

  lemma TwoSlotsVisited(h1: nat)
    ensures VisitsAll(h1, 1, 2)
  {
    ParityOfWord(h1);
    ParityOfWord(h1 + 1);
    var s := Positions(h1, 1, 2);
    assert s[0] == h1 % 2 && s[1] == (h1 + 1) % 2;
    forall j: nat | j < 2
      ensures j in s
    {
      DifferentMeansAll(s, j);
    }
  }

  /**
    The note of hash() says that a step coprime with the size lets every slot be probed.
    With 32-bit words that is so exactly when the last probe does not wrap, or the table
    has two slots.
  */
  lemma ProbesCoverExactlyWithoutWrap(h1: nat, h2: nat, size: nat)
    requires IsPrime(size) && 0 < h2 < size && size * size <= WORD && h1 < WORD
    ensures VisitsAll(h1, h2, size) <==> NoWrap(h1, h2, size) || size == 2
  {
    if NoWrap(h1, h2, size) {
      UnwrappedProbesVisitAll(h1, h2, size);
    } else if size == 2 {
      TwoSlotsVisited(h1);
    } else {
      var t, u := WrappingProbesMeet(h1, h2, size);
      var j := RepeatMeansMissing(Positions(h1, h2, size), t, u);
    }
  }
}
