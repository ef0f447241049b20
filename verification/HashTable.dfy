/**
  The open-addressing hash table of common/htopen.c. Every operation is proved against a
  plain map of keys to values; looking a key up may move it to an earlier freed slot, which
  the map does not show.
*/
module HashTable {
  import opened Machine
  import opened Arith
  import opened Primes
  import opened Probing
  import opened HashBuckets

  const KEYFREED := 0xF000_0001
  const HEADER_BYTES := 12
  const SLOT_BYTES := 8
  const MAX_BYTES := 4096

  /** A key that hto_set stores: of the table's type, neither NULL nor the deletion mark. */
  predicate Storable(pointers: bool, k: Key) {
    match k
    case Str(_) => !pointers
    case Ptr(w) => pointers && 0 < w < WORD && w != KEYFREED
  }

  /** A key of the table's type. */
  predicate OfType(pointers: bool, k: Key) {
    match k
    case Str(_) => !pointers
    case Ptr(w) => pointers && w < WORD
  }

  /** The probes of k over size slots visit every one of them. */
  ghost predicate Covers(k: Key, size: nat)
    requires size >= 2
  {
    VisitsAll(Hash1(k), Step(k, size), size)
  }

  /** The caller can tell from the hash words alone. */
  lemma CoversExactlyWithoutWrap(k: Key, size: nat)
    requires IsPrime(size) && size <= 510
    ensures Covers(k, size) <==> NoWrap(Hash1(k), Step(k, size), size) || size == 2
  {
    Hash1IsWord(k);
    MulMono(size, 510, size);
    ProbesCoverExactlyWithoutWrap(Hash1(k), Step(k, size), size);
  }

  lemma Hash1IsWord(k: Key)
    ensures Hash1(k) < WORD
  {
  }

  /** The pair x stands in the first slot of the search of k that no other key occupies, at most at try t. */
  ghost predicate PutFirst(b: Buckets, b': Buckets, k: Key, t: nat, x: Slot) {
    exists u :: 0 <= u <= t && FirstRoom(b, k, u) && b' == PutInto(b, Probe(k, |b|, t), Probe(k, |b|, u), x)
  }

  /** The search of k has met it at some try, and the pair x has been put first. */
  ghost predicate MovedUp(b: Buckets, b': Buckets, k: Key, x: Slot) {
    exists t :: 0 <= t < |b| && HoldsKey(b[Probe(k, |b|, t)], k) && PutFirst(b, b', k, t, x)
  }

  /** How the probing of a key ends. */
  datatype SearchEnd = Found | AtNull | Exhausted

  class Table {
    const size: nat
    const pointers: bool            // the field type: keys are pointers, not strings
    const bucket: array<Slot>
    var empty: nat
    var freed: nat
    ghost var contents: map<Key, int>

    ghost predicate Valid()
      reads this, bucket
    {
      && IsPrime(size) && size <= 510 && bucket.Length == size
      && Sound(bucket[..], contents)
      && (forall k :: k in contents ==> Storable(pointers, k))
      && empty == Count(bucket[..], Null) && freed == Count(bucket[..], Freed)
    }

    /** The part of hto_create after the allocation. */
    constructor (nb: nat, pointers: bool)
      requires IsPrime(nb) && nb <= 510
      ensures Valid() && fresh(bucket) && contents == map[] && freed == 0
      ensures size == nb && this.pointers == pointers
    {
      size := nb;
      this.pointers := pointers;
      bucket := new Slot[nb](_ => Null);
      empty, freed := nb, 0;
      contents := map[];
      new;
      AllNull(bucket[..]);
    }

    /**
      The loop that hto_get, hto_set and hto_del share: probe for the key until it, or a
      never-used slot, is met or size tries are made. slot is the first freed slot met
      before that, at try tslot, or -1.
    */
    method Walk(k: Key) returns (end: SearchEnd, t: nat, h: nat, slot: int, tslot: nat)
      requires 2 <= size == bucket.Length
      ensures t <= size && Scanned(bucket[..], k, t)
      ensures end.Exhausted? ==> t == size
      ensures !end.Exhausted? ==> t < size && h == Probe(k, size, t) < size
      ensures end.Found? ==> HoldsKey(bucket[h], k)
      ensures end.AtNull? ==> bucket[h] == Null
      ensures slot >= 0 ==> FreedBefore(bucket[..], k, slot, tslot, t)
      ensures slot < 0 ==> forall u :: 0 <= u < t ==> bucket[Probe(k, size, u)].Used?
      ensures slot >= 0 ==> forall u :: 0 <= u < tslot ==> bucket[Probe(k, size, u)].Used?
    {
      t, slot, tslot := 0, -1, 0;
      h := Hash(k, size, 0);
      hide Probe;
      while t < size
        invariant 0 <= t <= size && h == Probe(k, size, t) < size
        invariant Scanned(bucket[..], k, t)
        invariant slot >= 0 ==> FreedBefore(bucket[..], k, slot, tslot, t)
        invariant slot < 0 ==> forall u :: 0 <= u < t ==> bucket[Probe(k, size, u)].Used?
        invariant slot >= 0 ==> forall u :: 0 <= u < tslot ==> bucket[Probe(k, size, u)].Used?
      {
        var current := bucket[h];
        if current == Freed {
          if slot < 0 {
            slot, tslot := h, t;
          }
        } else if current == Null {
          return AtNull, t, h, slot, tslot;
        } else if current.key == k {
          return Found, t, h, slot, tslot;
        }
        t := t + 1;
        h := Hash(k, size, t);
      }
      return Exhausted, t, h, slot, tslot;
    }

    /** What the loop means for the map. */
    method Search(k: Key) returns (end: SearchEnd, t: nat, h: nat, slot: int, tslot: nat)
      requires Valid() && OfType(pointers, k)
      ensures end.Found? <==> k in contents
      ensures end.Found? ==> StoredAt(bucket[..], k, h) && bucket[h].val == contents[k] && t < size
      ensures end.AtNull? ==> FoundAt(bucket[..], k, h, t) && bucket[h] == Null
      ensures slot >= 0 ==> FoundAt(bucket[..], k, slot, tslot) && slot < size && bucket[slot] == Freed
      ensures end.Exhausted? && slot < 0 <==> OnlyOtherKeys(k)
      ensures Scanned(bucket[..], k, t) && (end.Found? ==> h == Probe(k, size, t))
      ensures !end.Exhausted? && slot < 0 ==> FirstRoom(bucket[..], k, t)
      ensures slot >= 0 ==> tslot < t && FirstRoom(bucket[..], k, tslot)
    {
      end, t, h, slot, tslot := Walk(k);
      ghost var b := bucket[..];
      FreedIsFound(b, k, slot, tslot, t);
      if end.Found? {
        StoredValue(b, contents, k, h);
      } else {
        AbsentAfterScan(b, contents, k, t);
      }
    }

    /** hto_get: the value of the key, or NULL; a key found past a freed slot moves there. */
    method Get(k: Key) returns (r: int)
      requires Valid() && OfType(pointers, k)
      modifies bucket, this`contents
      ensures Valid() && contents == old(contents)
      ensures r == if k in contents then contents[k] else 0
      ensures k !in contents ==> bucket[..] == old(bucket[..])
      ensures k in contents ==> MovedUp(old(bucket[..]), bucket[..], k, Used(k, r))
    {
      var end, t, h, slot, tslot := Search(k);
      ghost var b := bucket[..];
      if end.Found? {
        r := bucket[h].val;
        if slot >= 0 {
          Relocate(k, r, h, slot, tslot);
          assert bucket[..] == PutInto(b, Probe(k, size, t), Probe(k, size, tslot), Used(k, r));
        } else {
          assert bucket[..] == PutInto(b, Probe(k, size, t), Probe(k, size, t), Used(k, r));
        }
        assert PutFirst(b, bucket[..], k, t, Used(k, r));
        return;
      }
      return 0;
    }

    /** The key of slot h moves to the freed slot, which its search reaches first, with value v. */
    method Relocate(k: Key, v: int, h: nat, slot: nat, ghost tslot: nat)
      requires Valid() && StoredAt(bucket[..], k, h)
      requires FoundAt(bucket[..], k, slot, tslot) && bucket[slot] == Freed
      modifies bucket, this`contents
      ensures Valid() && contents == old(contents)[k := v]
      ensures bucket[..] == old(bucket[..])[h := Freed][slot := Used(k, v)]
    {
      ghost var b := bucket[..];
      MoveKept(b, contents, k, v, h, slot, tslot);
      CountUpdate(b, h, Freed, Null);
      CountUpdate(b, h, Freed, Freed);
      CountUpdate(b[h := Freed], slot, Used(k, v), Null);
      CountUpdate(b[h := Freed], slot, Used(k, v), Freed);
      bucket[h] := Freed;
      bucket[slot] := Used(k, v);
      contents := contents[k := v];
    }

    /** A new key goes into the never-used or freed slot that its search reaches. */
    method Insert(k: Key, v: int, slot: nat, ghost tslot: nat)
      requires Valid() && Storable(pointers, k) && k !in contents
      requires FoundAt(bucket[..], k, slot, tslot) && !bucket[slot].Used?
      modifies this, bucket
      ensures Valid() && contents == old(contents)[k := v] && freed <= old(freed)
      ensures bucket[..] == old(bucket[..])[slot := Used(k, v)]
    {
      ghost var b := bucket[..];
      InsertKept(b, contents, k, v, slot, tslot);
      CountUpdate(b, slot, Used(k, v), Null);
      CountUpdate(b, slot, Used(k, v), Freed);
      if bucket[slot] == Null {
        empty := empty - 1;
      } else {
        freed := freed - 1;
      }
      bucket[slot] := Used(k, v);
      contents := contents[k := v];
    }

    /** A stored key gets a new value where it is. */
    method Overwrite(k: Key, v: int, h: nat)
      requires Valid() && StoredAt(bucket[..], k, h)
      modifies bucket, this`contents
      ensures Valid() && contents == old(contents)[k := v] && bucket[..] == old(bucket[..])[h := Used(k, v)]
    {
      ghost var b := bucket[..];
      OverwriteKept(b, contents, k, v, h);
      CountUpdate(b, h, Used(k, v), Null);
      CountUpdate(b, h, Used(k, v), Freed);
      bucket[h] := Used(k, v);
      contents := contents[k := v];
    }

    /** The search of k meets only keys, and none of them is k. */
    ghost predicate OnlyOtherKeys(k: Key)
      requires Valid()
      reads this, bucket
    {
      k !in contents && forall t :: 0 <= t < size ==> bucket[Probe(k, size, t)].Used?
    }

    /**
      hto_set: the try that met the key or, for a new key, the one whose slot it got; -2 for the forbidden key;
      -ENOSPC, with nothing changed, exactly when every probed slot holds another key. The pair
      is put into the first slot of the search that no other key occupies.
    */
    method Set(k: Key, v: int) returns (r: int)
      requires Valid() && OfType(pointers, k) && k != Ptr(0)
      modifies this, bucket
      ensures Valid() && freed <= old(freed)
      ensures r == -2 <==> k == Ptr(KEYFREED)
      ensures r == -ENOSPC <==> k != Ptr(KEYFREED) && old(OnlyOtherKeys(k))
      ensures r == -2 || r == -ENOSPC || 0 <= r < size
      ensures r < 0 ==> contents == old(contents) && bucket[..] == old(bucket[..])
      ensures r >= 0 ==> contents == old(contents)[k := v]
      ensures r >= 0 && k !in old(contents) ==>
                && FirstRoom(old(bucket[..]), k, r)
                && bucket[..] == old(bucket[..])[Probe(k, size, r) := Used(k, v)]
      ensures r >= 0 && k in old(contents) ==>
                && HoldsKey(old(bucket[..])[Probe(k, size, r)], k) && Scanned(old(bucket[..]), k, r)
                && PutFirst(old(bucket[..]), bucket[..], k, r, Used(k, v))
    {
      if k == Ptr(KEYFREED) {
        return -2;
      }
      var end, t, h, slot, tslot := Search(k);
      ghost var b := bucket[..];
      if end.Found? {
        if slot >= 0 {
          Relocate(k, v, h, slot, tslot);
          assert bucket[..] == PutInto(b, Probe(k, size, t), Probe(k, size, tslot), Used(k, v));
        } else {
          Overwrite(k, v, h);
          assert bucket[..] == PutInto(b, Probe(k, size, t), Probe(k, size, t), Used(k, v));
        }
        return t;
      }
      if slot >= 0 {
        Insert(k, v, slot, tslot);
        return tslot;
      }
      if end.AtNull? {
        Insert(k, v, h, t);
        return t;
      }
      return -ENOSPC;
    }

    /** hto_del: the value of the key and its removal, or NULL. */
    method Del(k: Key) returns (r: int)
      requires Valid() && OfType(pointers, k)
      modifies this, bucket
      ensures Valid() && contents == old(contents) - {k}
      ensures r == if k in old(contents) then old(contents)[k] else 0
      ensures k !in old(contents) ==> bucket[..] == old(bucket[..])
      ensures k in old(contents) ==>
                exists j :: StoredAt(old(bucket[..]), k, j) && bucket[..] == old(bucket[..])[j := Freed]
    {
      var end, t, h, slot, tslot := Search(k);
      if !end.Found? {
        return 0;
      }
      ghost var b := bucket[..];
      DeleteKept(b, contents, k, h);
      CountUpdate(b, h, Freed, Null);
      CountUpdate(b, h, Freed, Freed);
      r := bucket[h].val;
      bucket[h] := Freed;
      freed := freed + 1;
      contents := contents - {k};
    }
  }

  /**
    For a key whose probes cover the table, hto_set reports a full table exactly when every
    slot holds another key: the table is a map of at most size keys.
  */
  lemma FullExactlyAtSize(b: Buckets, m: map<Key, int>, k: Key)
    requires IsPrime(|b|) && |b| <= 510 && Sound(b, m)
    requires NoWrap(Hash1(k), Step(k, |b|), |b|) || |b| == 2
    ensures (forall t :: 0 <= t < |b| ==> b[Probe(k, |b|, t)].Used?) <==> |m| == |b|
  {
    CoversExactlyWithoutWrap(k, |b|);
    SearchSeesAllSlots(b, m, k);
  }

  // ---- Whole runs --------------------------------------------------------------------------------

  datatype Op = OpSet(key: Key, val: int) | OpGet(key: Key) | OpDel(key: Key)

  /** The plain model: a map that accepts at most size keys. */
  function MapStep(size: nat, m: map<Key, int>, op: Op): map<Key, int> {
    match op
    case OpSet(k, v) => if k in m || |m| < size then m[k := v] else m
    case OpGet(_) => m
    case OpDel(k) => m - {k}
  }

  /** What the caller sees: the value got or deleted; 1 or 0 for a set that was stored or refused. */
  function MapAnswer(size: nat, m: map<Key, int>, op: Op): int {
    match op
    case OpSet(k, _) => if k in m || |m| < size then 1 else 0
    case OpGet(k) => if k in m then m[k] else 0
    case OpDel(k) => if k in m then m[k] else 0
  }

  function MapRun(size: nat, m: map<Key, int>, ops: seq<Op>): map<Key, int> {
    if ops == [] then m else MapStep(size, MapRun(size, m, ops[..|ops| - 1]), ops[|ops| - 1])
  }

  function MapAnswers(size: nat, m: map<Key, int>, ops: seq<Op>): seq<int> {
    if ops == [] then []
    else
      var before := ops[..|ops| - 1];
      MapAnswers(size, m, before) + [MapAnswer(size, MapRun(size, m, before), ops[|ops| - 1])]
  }

  /** The table answers every run of calls as the plain map does. */
  method Run(ht: Table, ops: seq<Op>) returns (answers: seq<int>)
    requires ht.Valid()
    requires forall i :: 0 <= i < |ops| ==>
               Storable(ht.pointers, ops[i].key)
               && (NoWrap(Hash1(ops[i].key), Step(ops[i].key, ht.size), ht.size) || ht.size == 2)
    modifies ht, ht.bucket
    ensures ht.Valid()
    ensures ht.contents == MapRun(ht.size, old(ht.contents), ops)
    ensures answers == MapAnswers(ht.size, old(ht.contents), ops)
  {
    answers := [];
    ghost var m := ht.contents;
    for i := 0 to |ops|
      invariant ht.Valid()
      invariant ht.contents == MapRun(ht.size, m, ops[..i])
      invariant answers == MapAnswers(ht.size, m, ops[..i])
    {
      assert ops[..i + 1][..i] == ops[..i];
      var a := Call(ht, ops[i]);
      answers := answers + [a];
    }
    assert ops[..|ops|] == ops;
  }

  /** One call of a run. */
  method Call(ht: Table, op: Op) returns (a: int)
    requires ht.Valid() && Storable(ht.pointers, op.key)
    requires NoWrap(Hash1(op.key), Step(op.key, ht.size), ht.size) || ht.size == 2
    modifies ht, ht.bucket
    ensures ht.Valid()
    ensures ht.contents == MapStep(ht.size, old(ht.contents), op)
    ensures a == MapAnswer(ht.size, old(ht.contents), op)
  {
    match op {
      case OpSet(k, v) =>
        FullExactlyAtSize(ht.bucket[..], ht.contents, k);
        FullMeansSizeKeys(ht.bucket[..], ht.contents);
        hide Sound, IsPrime, Probe;
        var r := ht.Set(k, v);
        a := if r >= 0 then 1 else 0;
      case OpGet(k) =>
        a := ht.Get(k);
      case OpDel(k) =>
        a := ht.Del(k);
    }
  }

  /** The map after calls that were answered so: a set took effect exactly if it was answered with 1. */
  function AnsweredMap(m: map<Key, int>, ops: seq<Op>, answers: seq<int>): map<Key, int>
    requires |ops| == |answers|
  {
    if ops == [] then m
    else
      var n := |ops| - 1;
      var before := AnsweredMap(m, ops[..n], answers[..n]);
      match ops[n]
      case OpSet(k, v) => if answers[n] == 1 then before[k := v] else before
      case OpGet(_) => before
      case OpDel(k) => before - {k}
  }

  /** The answer to a call that finds the map m: a stored key always takes a new value. */
  ghost predicate RightAnswer(m: map<Key, int>, op: Op, a: int) {
    match op
    case OpSet(k, _) => a == 1 || (a == 0 && k !in m)
    case OpGet(k) => a == if k in m then m[k] else 0
    case OpDel(k) => a == if k in m then m[k] else 0
  }

  /** Every call is answered by the map that the calls before it made. */
  ghost predicate RightAnswers(m: map<Key, int>, ops: seq<Op>, answers: seq<int>) {
    && |ops| == |answers|
    && forall i :: 0 <= i < |ops| ==> RightAnswer(AnsweredMap(m, ops[..i], answers[..i]), ops[i], answers[i])
  }

  /**
    Whether or not the probes of a key cover the table, any run of calls is answered by one map:
    a get returns the last value set with success and not deleted since.
  */
  method RunAnyKeys(ht: Table, ops: seq<Op>) returns (answers: seq<int>)
    requires ht.Valid()
    requires forall i :: 0 <= i < |ops| ==> Storable(ht.pointers, ops[i].key)
    modifies ht, ht.bucket
    ensures ht.Valid()
    ensures RightAnswers(old(ht.contents), ops, answers)
    ensures ht.contents == AnsweredMap(old(ht.contents), ops, answers)
  {
    answers := [];
    ghost var m := ht.contents;
    for i := 0 to |ops|
      invariant ht.Valid()
      invariant RightAnswers(m, ops[..i], answers)
      invariant ht.contents == AnsweredMap(m, ops[..i], answers)
    {
      ghost var before := answers;
      var a := CallAnyKey(ht, ops[i]);
      answers := answers + [a];
      OneMoreAnswer(m, ops, i, before, a);
    }
    assert ops[..|ops|] == ops;
  }

  method CallAnyKey(ht: Table, op: Op) returns (a: int)
    requires ht.Valid() && Storable(ht.pointers, op.key)
    modifies ht, ht.bucket
    ensures ht.Valid() && RightAnswer(old(ht.contents), op, a)
    ensures ht.contents == AnsweredMap(old(ht.contents), [op], [a])
  {
    ghost var m := ht.contents;
    match op {
      case OpSet(k, v) =>
        hide Sound, IsPrime, Probe;
        var r := ht.Set(k, v);
        a := if r >= 0 then 1 else 0;
      case OpGet(k) =>
        a := ht.Get(k);
      case OpDel(k) =>
        a := ht.Del(k);
    }
    assert AnsweredMap(m, [], []) == m;
    assert [op][..0] == [] && [a][..0] == [];
  }

  lemma OneMoreAnswer(m: map<Key, int>, ops: seq<Op>, i: nat, answers: seq<int>, a: int)
    requires i < |ops| && RightAnswers(m, ops[..i], answers)
    requires RightAnswer(AnsweredMap(m, ops[..i], answers), ops[i], a)
    ensures RightAnswers(m, ops[..i + 1], answers + [a])
    ensures AnsweredMap(m, ops[..i + 1], answers + [a]) == AnsweredMap(AnsweredMap(m, ops[..i], answers), [ops[i]], [a])
  {
    AnswersJoined(m, ops[..i], answers, ops[i], a);
    LastAnswer(m, ops[..i], answers, ops[i], a);
    assert ops[..i + 1] == ops[..i] + [ops[i]];
  }

  lemma AnswersJoined(m: map<Key, int>, ops: seq<Op>, answers: seq<int>, op: Op, a: int)
    requires RightAnswers(m, ops, answers) && RightAnswer(AnsweredMap(m, ops, answers), op, a)
    ensures RightAnswers(m, ops + [op], answers + [a])
  {
    hide AnsweredMap, RightAnswer;
    var os, as_ := ops + [op], answers + [a];
    forall j | 0 <= j < |os|
      ensures RightAnswer(AnsweredMap(m, os[..j], as_[..j]), os[j], as_[j])
    {
      if j < |ops| {
        assert os[..j] == ops[..j] && as_[..j] == answers[..j];
      } else {
        assert os[..j] == ops && as_[..j] == answers;
      }
    }
  }

  lemma LastAnswer(m: map<Key, int>, ops: seq<Op>, answers: seq<int>, op: Op, a: int)
    requires |ops| == |answers|
    ensures AnsweredMap(m, ops + [op], answers + [a]) == AnsweredMap(AnsweredMap(m, ops, answers), [op], [a])
  {
    var os, as_ := ops + [op], answers + [a];
    assert os[..|ops|] == ops && as_[..|ops|] == answers;
    var before := AnsweredMap(m, ops, answers);
    assert [op][..0] == [] && [a][..0] == [];
    assert AnsweredMap(before, [], []) == before;
  }

  // ---- A key whose probes wrap -------------------------------------------------------------------

  /** A pointer whose first hash word is 2^32 - 1. */
  const WRAPPING := Ptr(0xF174_D0AF)

  /** Three slots, two of them taken. */
  function OneSlotFree(v: int, w: int): Buckets {
    [Used(Ptr(76), v), Used(Ptr(8), w), Null]
  }

  lemma WrappingWords()
    ensures Hash1(WRAPPING) == WORD - 1 && Step(WRAPPING, 3) == 1
    ensures Hash1(Ptr(76)) == 4168622220 && Hash1(Ptr(8)) == 4055616904
  {
  }

  lemma WrappingPositions(h1: nat)
    requires h1 == WORD - 1
    ensures forall t: nat :: t < 3 ==> Position(h1, 1, 3, t) == if t == 2 then 1 else 0
  {
  }

  lemma FirstPosition(h1: nat, h2: nat, size: nat)
    requires h1 < WORD && size > 0
    ensures Position(h1, h2, size, 0) == h1 % size
  {
  }

  lemma WrappingProbes()
    ensures Probe(WRAPPING, 3, 0) == 0 && Probe(WRAPPING, 3, 1) == 0 && Probe(WRAPPING, 3, 2) == 1
    ensures Probe(Ptr(76), 3, 0) == 0 && Probe(Ptr(8), 3, 0) == 1
  {
    hide Position, Hash1, Step;
    WrappingWords();
    WrappingPositions(WORD - 1);
    FirstPosition(Hash1(Ptr(76)), Step(Ptr(76), 3), 3);
    FirstPosition(Hash1(Ptr(8)), Step(Ptr(8), 3), 3);
  }

  lemma WrappingNotCovered()
    ensures !Covers(WRAPPING, 3)
  {
    hide Position, Hash1, Step;
    WrappingWords();
    WrappingPositions(WORD - 1);
    assert 2 !in Positions(WORD - 1, 1, 3);
  }

  lemma OneSlotFreeSound(v: int, w: int)
    ensures Sound(OneSlotFree(v, w), map[Ptr(76) := v, Ptr(8) := w])
  {
    WrappingProbes();
    hide Probe;
    var b := OneSlotFree(v, w);
    assert FoundAt(b, Ptr(76), 0, 0) && FoundAt(b, Ptr(8), 1, 0);
    assert StoredAt(b, Ptr(76), 0) && StoredAt(b, Ptr(8), 1);
  }

  /** In a table of three slots the probes of that key miss the third one, and the two others are taken. */
  lemma WrappingProbesMiss(v: int, w: int)
    ensures !Covers(WRAPPING, 3) && Storable(true, WRAPPING)
    ensures Sound(OneSlotFree(v, w), map[Ptr(76) := v, Ptr(8) := w])
    ensures forall t :: 0 <= t < 3 ==> OneSlotFree(v, w)[Probe(WRAPPING, 3, t)].Used?
  {
    hide Covers, Sound, Probe;
    WrappingNotCovered();
    OneSlotFreeSound(v, w);
    WrappingProbes();
  }

  /** So hto_set reports a full table although a slot was never used. */
  method FullWithFreeSlot(ht: Table, x: int, ghost v: int, ghost w: int) returns (r: int)
    requires ht.Valid() && ht.pointers && ht.size == 3 && ht.bucket[..] == OneSlotFree(v, w)
    modifies ht, ht.bucket
    ensures r == -ENOSPC && ht.bucket[..] == OneSlotFree(v, w)
  {
    WrappingProbesMiss(v, w);
    NotStored(ht.bucket[..], ht.contents, v, w);
    hide Sound, Probe;
    r := ht.Set(WRAPPING, x);
  }

  lemma NotStored(b: Buckets, m: map<Key, int>, v: int, w: int)
    requires Sound(b, m) && b == OneSlotFree(v, w)
    ensures WRAPPING !in m
  {
    forall k | k in m
      ensures k == Ptr(76) || k == Ptr(8)
    {
      var j :| StoredAt(b, k, j);
    }
  }

  // ---- Creating and rehashing --------------------------------------------------------------------

  /** Bytes that hto_create asks for, in a 32-bit word. */
  function TableBytes(p: nat): nat {
    (HEADER_BYTES + p * SLOT_BYTES) % WORD
  }

  ghost predicate IsLargestPrime(p: int, n: nat) {
    2 <= p <= n && IsPrime(p) && forall q :: p < q <= n ==> !IsPrime(q)
  }

  /**
    The bytes that hto_create asks for hold the slots that it clears exactly if nb is at least 2 and the size
    does not wrap. Below 2 the -1 of largest_prime is taken as a number of slots, and 4 bytes are asked for.
  */
  lemma TableBytesExact(nb: nat, p: nat)
    requires if nb < 2 then p == WORD - 1 else IsLargestPrime(p, nb)
    ensures TableBytes(p) == HEADER_BYTES + p * SLOT_BYTES <==> 2 <= nb && HEADER_BYTES + p * SLOT_BYTES < WORD
    ensures HEADER_BYTES + nb * SLOT_BYTES < WORD ==> (TableBytes(p) == HEADER_BYTES + p * SLOT_BYTES <==> 2 <= nb)
    ensures nb < 2 ==> TableBytes(p) == 4
  {
  }

  /** hto_create: a table of the largest prime not above nb, or NULL if that exceeds 4096 bytes. */
  method Create(nb: nat, pointers: bool, gotMemory: bool) returns (ht: Table?)
    requires 2 <= nb && HEADER_BYTES + nb * SLOT_BYTES < WORD
    ensures ht != null ==> gotMemory && fresh(ht) && fresh(ht.bucket) && ht.Valid() && ht.contents == map[]
    ensures ht != null ==> ht.freed == 0 && ht.pointers == pointers && IsLargestPrime(ht.size, nb)
    ensures ht == null <==> !gotMemory || TooLarge(nb)
  {
    var p := LargestPrime(nb);
    assert IsLargestPrime(p, nb);
    TableBytesExact(nb, p);
    if TableBytes(p) > MAX_BYTES || !gotMemory {
      return null;
    }
    ht := new Table(p, pointers);
  }

  /** Every key of m can be stored in a table of size slots: there is room and the probes cover. */
  ghost predicate Fits(m: map<Key, int>, size: nat) {
    size >= 2 && |m| <= size && forall k :: k in m ==> Covers(k, size)
  }

  /** The new size that hto_rehash computes in an unsigned word. */
  function ScaledSize(size: nat, percent: nat): nat {
    size * percent % WORD / 100
  }

  /** Absent wrap-around, the whole part of that percentage of the old size. */
  lemma ScaledSizeExact(size: nat, percent: nat)
    requires size * percent < WORD
    ensures 100 * ScaledSize(size, percent) <= size * percent < 100 * ScaledSize(size, percent) + 100
  {
    Hundredths(size * percent);
  }

  lemma Hundredths(x: nat)
    requires x < WORD
    ensures 100 * (x % WORD / 100) <= x < 100 * (x % WORD / 100) + 100
  {
    assert x % WORD == x;
  }

  /** No table of that size fits a page. */
  ghost predicate TooLarge(newSize: nat) {
    exists p :: IsLargestPrime(p, newSize) && p > 510
  }

  /**
    hto_rehash: the table that replaces the old one, or NULL exactly if the new size is below 2 or too large,
    or memory is short. It holds no freed slot and only pairs of the old table; it holds all of them if they fit.
  */
  method Rehash(ht: Table, percent: nat, gotMemory: bool) returns (r: Table?)
    requires ht.Valid()
    ensures r == null <==>
            !gotMemory || ScaledSize(ht.size, percent) < 2 || TooLarge(ScaledSize(ht.size, percent))
    ensures r != null ==> fresh(r) && fresh(r.bucket) && r.Valid() && r.freed == 0 && r.pointers == ht.pointers
    ensures r != null ==> IsLargestPrime(r.size, ScaledSize(ht.size, percent))
    ensures r != null ==> forall k :: k in r.contents ==> k in ht.contents && r.contents[k] == ht.contents[k]
    ensures r != null && Fits(ht.contents, r.size) ==> r.contents == ht.contents
    ensures r != null ==> OnlyFullDropped(ht.contents, r.bucket[..], r.contents)
    ensures r != null && percent >= 100 && ht.size * percent < WORD ==> r.size >= ht.size >= |ht.contents|
  {
    NewSize(ht.size, percent);
    hide ScaledSize, Sound, IsPrime, IsLargestPrime, Fits, TooLarge;
    if percent == 0 {
      return null;
    }
    r := Rebuild(ht, ScaledSize(ht.size, percent), gotMemory);
  }

  /** The rest of hto_rehash, for the new size. */
  method Rebuild(ht: Table, newSize: nat, gotMemory: bool) returns (r: Table?)
    requires ht.Valid() && newSize < TRIAL_LIMIT && HEADER_BYTES + newSize * SLOT_BYTES < WORD
    ensures r == null <==> !gotMemory || newSize < 2 || TooLarge(newSize)
    ensures r != null ==> fresh(r) && fresh(r.bucket) && r.Valid() && r.freed == 0 && r.pointers == ht.pointers
    ensures r != null ==> IsLargestPrime(r.size, newSize)
    ensures r != null ==> forall k :: k in r.contents ==> k in ht.contents && r.contents[k] == ht.contents[k]
    ensures r != null && Fits(ht.contents, r.size) ==> r.contents == ht.contents
    ensures r != null ==> OnlyFullDropped(ht.contents, r.bucket[..], r.contents)
    ensures r != null && newSize >= ht.size ==> r.size >= ht.size >= |ht.contents|
  {
    FullMeansSizeKeys(ht.bucket[..], ht.contents);
    hide Sound, Fits, Covers, Count;
    if newSize < 2 {
      return null;
    }
    var p := LargestPrime(newSize);
    assert IsLargestPrime(p, newSize);
    LargestTwice(p, newSize);
    r := Create(p, ht.pointers, gotMemory);
    if r == null {
      return null;
    }
    PrimeIsItsLargest(p, r.size, newSize, ht.size);
    Reinsert(ht, r);
  }

  /** The size is too large exactly if it is so for its largest prime. */
  lemma LargestTwice(p: nat, n: nat)
    requires IsLargestPrime(p, n)
    ensures TooLarge(n) <==> p > 510
    ensures TooLarge(p) <==> p > 510
  {
    assert IsLargestPrime(p, p);
  }

  lemma NewSize(size: nat, percent: nat)
    ensures percent == 0 ==> ScaledSize(size, percent) == 0
    ensures ScaledSize(size, percent) < TRIAL_LIMIT
    ensures HEADER_BYTES + ScaledSize(size, percent) * SLOT_BYTES < WORD
    ensures percent >= 100 && size * percent < WORD ==> size <= ScaledSize(size, percent)
  {
    if percent >= 100 && size * percent < WORD {
      MulMono(100, percent, size);
      DivMono(size * 100, size * percent, 100);
    }
  }

  /** hto_create looks for a prime again, and finds the one it was given. */
  lemma PrimeIsItsLargest(p: nat, q: nat, n: nat, s: nat)
    requires IsLargestPrime(p, n) && IsLargestPrime(q, p) && IsPrime(s)
    ensures p == q && (s <= n ==> s <= p)
  {
  }

  /** The loop of hto_rehash. */
  method Reinsert(ht: Table, r: Table)
    requires ht.Valid() && r.Valid() && r != ht && r.bucket != ht.bucket
    requires r.contents == map[] && r.freed == 0 && r.pointers == ht.pointers
    modifies r, r.bucket
    ensures r.Valid() && r.freed == 0
    ensures forall k :: k in r.contents ==> k in ht.contents && r.contents[k] == ht.contents[k]
    ensures Fits(ht.contents, r.size) ==> r.contents == ht.contents
    ensures OnlyFullDropped(ht.contents, r.bucket[..], r.contents)
  {
    ghost var b, m := ht.bucket[..], ht.contents;
    assert forall j :: 0 <= j < |b| && b[j].Used? ==> Storable(ht.pointers, b[j].key);
    hide Sound, IsPrime, Probe, Fits, DroppedFull;
    NoneDropped(b, r.bucket[..], r.contents);
    for i := 0 to ht.size
      invariant r.Valid() && r.freed == 0
      invariant ht.bucket[..] == b && ht.contents == m
      invariant Reinserted(b, m, i, r.contents, Fits(m, r.size))
      invariant DroppedFull(b, i, r.bucket[..], r.contents)
    {
      ReinsertSlot(r, ht.bucket[i], b, m, i);
    }
    AllReinserted(b, m, r.contents, Fits(m, r.size));
    AllDroppedFull(b, m, r.bucket[..], r.contents);
  }

  /** Every probe of the key meets a key. */
  ghost predicate AllProbesUsed(b: Buckets, k: Key) {
    forall t :: 0 <= t < |b| ==> b[Probe(k, |b|, t)].Used?
  }

  /** A key of m is missing from the new map only if every probe of it meets another key in the new table. */
  ghost predicate OnlyFullDropped(m: map<Key, int>, b: Buckets, n: map<Key, int>) {
    forall k :: k in m && k !in n ==> AllProbesUsed(b, k)
  }

  /** That is so of the keys of the first i slots of the old table. */
  ghost predicate DroppedFull(old_: Buckets, i: nat, b: Buckets, n: map<Key, int>) {
    i <= |old_| && forall j :: 0 <= j < i && old_[j].Used? && old_[j].key !in n ==> AllProbesUsed(b, old_[j].key)
  }

  lemma NoneDropped(old_: Buckets, b: Buckets, n: map<Key, int>)
    ensures DroppedFull(old_, 0, b, n)
  {
  }

  lemma AllDroppedFull(old_: Buckets, m: map<Key, int>, b: Buckets, n: map<Key, int>)
    requires DroppedFull(old_, |old_|, b, n) && Sound(old_, m)
    ensures OnlyFullDropped(m, b, n)
  {
    hide AllProbesUsed, Findable, NoKeyTwice;
    forall k | k in m && k !in n
      ensures AllProbesUsed(b, k)
    {
      var j :| StoredAt(old_, k, j);
    }
  }

  /** One more slot: its key is in the new table, or all its probes meet keys; used slots stay used. */
  lemma DroppedStep(old_: Buckets, i: nat, b: Buckets, n: map<Key, int>, b': Buckets, n': map<Key, int>)
    requires DroppedFull(old_, i, b, n) && i < |old_| && |b| == |b'| && n.Keys <= n'.Keys
    requires forall j :: 0 <= j < |b| && b[j].Used? ==> b'[j].Used?
    requires old_[i].Used? && old_[i].key !in n' ==> AllProbesUsed(b', old_[i].key)
    ensures DroppedFull(old_, i + 1, b', n')
  {
    forall j | 0 <= j < i && old_[j].Used? && old_[j].key !in n'
      ensures AllProbesUsed(b', old_[j].key)
    {
      assert AllProbesUsed(b, old_[j].key);
      hide Probe;
    }
  }

  /** One turn of that loop, for slot i of the old table. */
  method ReinsertSlot(r: Table, s: Slot, ghost b: Buckets, ghost m: map<Key, int>, ghost i: nat)
    requires r.Valid() && r.freed == 0 && Sound(b, m) && i < |b| && s == b[i]
    requires s.Used? ==> Storable(r.pointers, s.key)
    requires Reinserted(b, m, i, r.contents, Fits(m, r.size)) && DroppedFull(b, i, r.bucket[..], r.contents)
    modifies r, r.bucket
    ensures r.Valid() && r.freed == 0
    ensures Reinserted(b, m, i + 1, r.contents, Fits(m, r.size))
    ensures DroppedFull(b, i + 1, r.bucket[..], r.contents)
  {
    ghost var b0, n0 := r.bucket[..], r.contents;
    NextKey(b, m, i, r.contents, Fits(m, r.size));
    if s.Used? {
      if Fits(m, r.size) {
        StillRoom(b, m, i, r.bucket[..], r.contents, s.key);
      }
      KeyIsNew(b, m, i, n0, Fits(m, r.size));
      hide Sound, IsPrime, Fits, Probe, Reinserted, DroppedFull, AllProbesUsed;
      SetNew(r, s.key, s.val);
      DroppedStep(b, i, b0, n0, r.bucket[..], r.contents);
    } else {
      DroppedStep(b, i, b0, n0, r.bucket[..], r.contents);
    }
  }

  /** hto_set of a key that is not there, in a table without freed slots. */
  method SetNew(r: Table, k: Key, v: int)
    requires r.Valid() && r.freed == 0 && Storable(r.pointers, k) && k !in r.contents
    modifies r, r.bucket
    ensures r.Valid() && r.freed == 0
    ensures r.contents == if old(AllProbesUsed(r.bucket[..], k)) then old(r.contents) else old(r.contents)[k := v]
    ensures old(AllProbesUsed(r.bucket[..], k)) ==> AllProbesUsed(r.bucket[..], k)
    ensures forall j :: 0 <= j < r.size && old(r.bucket[..])[j].Used? ==> r.bucket[..][j].Used?
  {
    assert AllProbesUsed(r.bucket[..], k) <==> r.OnlyOtherKeys(k) by {
      forall t | 0 <= t < r.size
        ensures r.bucket[..][Probe(k, r.size, t)] == r.bucket[Probe(k, r.size, t)]
      {
      }
    }
    hide Sound, IsPrime, Probe;
    var t := r.Set(k, v);
  }

  /** n holds pairs of m only, among the keys of the first i slots of b, and all of those if fits. */
  ghost predicate Reinserted(b: Buckets, m: map<Key, int>, i: nat, n: map<Key, int>, fits: bool) {
    && i <= |b| && n.Keys <= KeysOf(b[..i]) && (fits ==> n.Keys == KeysOf(b[..i]))
    && forall k :: k in n ==> k in m && n[k] == m[k]
  }

  lemma NextKey(b: Buckets, m: map<Key, int>, i: nat, n: map<Key, int>, fits: bool)
    requires Sound(b, m) && i < |b| && Reinserted(b, m, i, n, fits)
    ensures !b[i].Used? ==> Reinserted(b, m, i + 1, n, fits)
    ensures b[i].Used? ==> b[i].key in m && b[i].key !in KeysOf(b[..i])
    ensures b[i].Used? ==> Reinserted(b, m, i + 1, n[b[i].key := b[i].val], fits)
    ensures b[i].Used? && !fits ==> Reinserted(b, m, i + 1, n, fits)
  {
    assert b[..i + 1][..i] == b[..i];
    if b[i].Used? {
      KeysOfHolds(b[..i], b[i].key);
    }
  }

  lemma KeyIsNew(b: Buckets, m: map<Key, int>, i: nat, n: map<Key, int>, fits: bool)
    requires Sound(b, m) && i < |b| && Reinserted(b, m, i, n, fits) && b[i].Used?
    ensures b[i].key !in n
  {
    NextKey(b, m, i, n, fits);
  }

  /** While keys remain to be reinserted the new table is not full. */
  lemma StillRoom(b: Buckets, m: map<Key, int>, i: nat, b': Buckets, n: map<Key, int>, k: Key)
    requires Sound(b, m) && i < |b| && HoldsKey(b[i], k) && Sound(b', n)
    requires Fits(m, |b'|) && Reinserted(b, m, i, n, true)
    ensures !(forall t :: 0 <= t < |b'| ==> b'[Probe(k, |b'|, t)].Used?)
  {
    NextKey(b, m, i, n, true);
    assert n.Keys < m.Keys;
    ProperSubsetSize(n.Keys, m.Keys, k);
    assert |n| < |m| by {
      assert |n| == |n.Keys| && |m| == |m.Keys|;
    }
    SearchSeesAllSlots(b', n, k);
  }

  lemma ProperSubsetSize<T>(x: set<T>, y: set<T>, e: T)
    requires x <= y && e in y && e !in x
    ensures |x| < |y|
  {
    assert y == x + (y - x);
    assert e in y - x;
  }

  lemma AllReinserted(b: Buckets, m: map<Key, int>, n: map<Key, int>, fits: bool)
    requires Sound(b, m) && Reinserted(b, m, |b|, n, fits)
    ensures fits ==> n == m
  {
    assert b[..|b|] == b;
    if fits {
      forall k | k in m
        ensures k in n
      {
        var j :| StoredAt(b, k, j);
        KeysOfHolds(b, k);
      }
      assert n.Keys == m.Keys;
    }
  }

  /** slot is the freed slot met at try tslot, before try t. */
  ghost predicate FreedBefore(b: Buckets, k: Key, slot: int, tslot: nat, t: nat) {
    tslot < t && 0 <= slot < |b| && slot == Probe(k, |b|, tslot) && b[slot] == Freed
  }

  lemma FreedIsFound(b: Buckets, k: Key, slot: int, tslot: nat, t: nat)
    requires slot >= 0 ==> FreedBefore(b, k, slot, tslot, t)
    requires Scanned(b, k, t) && t <= |b|
    ensures slot >= 0 ==> FoundAt(b, k, slot, tslot)
    ensures t < |b| ==> FoundAt(b, k, Probe(k, |b|, t), t)
  {
  }

  lemma StoredValue(b: Buckets, m: map<Key, int>, k: Key, j: nat)
    requires Sound(b, m) && j < |b| && HoldsKey(b[j], k)
    ensures k in m && m[k] == b[j].val && m[k := b[j].val] == m && StoredAt(b, k, j)
  {
  }

  lemma AllNull(b: Buckets)
    requires forall j :: 0 <= j < |b| ==> b[j] == Null
    ensures Sound(b, map[]) && Count(b, Null) == |b| && Count(b, Freed) == 0
  {
    KeyCount(b, map[]);
    assert Freed !in multiset(b);
  }
}
