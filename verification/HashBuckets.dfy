/**
  The slots of the open-addressing table (common/htopen.c) as a value: what makes every
  stored key findable, the map the slots stand for, and how each kind of update changes it.
*/
module HashBuckets {
  import opened Probing

  /** Never used (key NULL), deleted (key KEYFREED), or holding a key and its value. */
  datatype Slot = Null | Freed | Used(key: Key, val: int)

  type Buckets = b: seq<Slot> | |b| >= 2 witness [Null, Null]

  predicate HoldsKey(s: Slot, k: Key) {
    s.Used? && s.key == k
  }

  /** The probes of k before try t met no slot that was never used. */
  ghost predicate PathOpen(b: Buckets, k: Key, t: nat) {
    forall u :: 0 <= u < t ==> b[Probe(k, |b|, u)] != Null
  }

  ghost predicate FoundAt(b: Buckets, k: Key, j: nat, t: nat) {
    t < |b| && Probe(k, |b|, t) == j && PathOpen(b, k, t)
  }

  /** Every stored key can be found: some try hits its slot before any never-used slot. */
  ghost predicate Findable(b: Buckets) {
    forall j :: 0 <= j < |b| && b[j].Used? ==> exists t :: FoundAt(b, b[j].key, j, t)
  }

  ghost predicate NoKeyTwice(b: Buckets) {
    forall i, j :: 0 <= i < |b| && 0 <= j < |b| && b[i].Used? && b[j].Used? && b[i].key == b[j].key ==> i == j
  }

  ghost predicate StoredAt(b: Buckets, k: Key, j: int) {
    0 <= j < |b| && HoldsKey(b[j], k)
  }

  /** The slots hold exactly the pairs of the map m. */
  ghost predicate Represents(b: Buckets, m: map<Key, int>) {
    && (forall j :: 0 <= j < |b| && b[j].Used? ==> b[j].key in m && m[b[j].key] == b[j].val)
    && (forall k :: k in m ==> exists j :: StoredAt(b, k, j))
  }

  ghost predicate Sound(b: Buckets, m: map<Key, int>) {
    NoKeyTwice(b) && Findable(b) && Represents(b, m)
  }

  // ---- Searching -------------------------------------------------------------------------------

  /** The tries before t met neither the key nor a never-used slot. */
  ghost predicate Scanned(b: Buckets, k: Key, t: nat) {
    forall u :: 0 <= u < t ==> b[Probe(k, |b|, u)] != Null && !HoldsKey(b[Probe(k, |b|, u)], k)
  }

  /** Try u is the first one of k that does not meet another key. */
  ghost predicate FirstRoom(b: Buckets, k: Key, u: nat) {
    && u < |b| && !(b[Probe(k, |b|, u)].Used? && b[Probe(k, |b|, u)].key != k)
    && forall w :: 0 <= w < u ==> b[Probe(k, |b|, w)].Used? && b[Probe(k, |b|, w)].key != k
  }

  /** The pair x in slot j, after its key, if it was in another slot h, has been freed there. */
  function PutInto(b: Buckets, h: nat, j: nat, x: Slot): (b': Buckets)
    requires h < |b| && j < |b|
    ensures |b'| == |b|
  {
    if h == j then b[j := x] else b[h := Freed][j := x]
  }

  /** A search that meets a never-used slot, or has made all its tries, proves the key absent. */
  lemma AbsentAfterScan(b: Buckets, m: map<Key, int>, k: Key, t: nat)
    requires Sound(b, m) && Scanned(b, k, t)
    requires t >= |b| || b[Probe(k, |b|, t)] == Null
    ensures k !in m
  {
    forall j | 0 <= j < |b| && b[j].Used?
      ensures b[j].key != k
    {
      var u :| FoundAt(b, b[j].key, j, u);
    }
    forall x | x in m
      ensures x != k
    {
      var j :| StoredAt(b, x, j);
    }
  }

  // ---- Updates ---------------------------------------------------------------------------------

  /** Keys stay findable as long as no slot becomes never-used again. */
  lemma FindableKept(b: Buckets, b': Buckets)
    requires Findable(b) && |b| == |b'|
    requires forall i :: 0 <= i < |b| && b'[i] == Null ==> b[i] == Null
    requires forall j :: 0 <= j < |b| && b'[j].Used? ==>
               StoredAt(b, b'[j].key, j) || exists t :: FoundAt(b, b'[j].key, j, t)
    ensures Findable(b')
  {
    forall j | 0 <= j < |b'| && b'[j].Used?
      ensures exists t :: FoundAt(b', b'[j].key, j, t)
    {
      var t :| FoundAt(b, b'[j].key, j, t);
      assert FoundAt(b', b'[j].key, j, t);
    }
  }

  /** Storing k in a free slot that its own search reaches, when k is nowhere else. */
  lemma InsertKept(b: Buckets, m: map<Key, int>, k: Key, v: int, i: nat, t: nat)
    requires Sound(b, m) && FoundAt(b, k, i, t) && !b[i].Used? && k !in m
    ensures Sound(b[i := Used(k, v)], m[k := v])
  {
    var b' := b[i := Used(k, v)];
    FindableKept(b, b');
    assert StoredAt(b', k, i);
    forall x | x in m
      ensures exists j :: StoredAt(b', x, j)
    {
      var j :| StoredAt(b, x, j);
      assert StoredAt(b', x, j);
    }
  }

  /** Writing a new value beside a stored key. */
  lemma OverwriteKept(b: Buckets, m: map<Key, int>, k: Key, v: int, i: nat)
    requires Sound(b, m) && StoredAt(b, k, i)
    ensures Sound(b[i := Used(k, v)], m[k := v])
  {
    var b' := b[i := Used(k, v)];
    FindableKept(b, b');
    var m' := m[k := v];
    forall x | x in m'
      ensures exists j :: StoredAt(b', x, j)
    {
      var j :| StoredAt(b, x, j);
      assert StoredAt(b', x, j);
    }
  }

  /** Moving a key from slot i to an earlier freed slot of its search, with value v. */
  lemma MoveKept(b: Buckets, m: map<Key, int>, k: Key, v: int, i: nat, to: nat, t: nat)
    requires Sound(b, m) && StoredAt(b, k, i) && FoundAt(b, k, to, t) && b[to] == Freed
    ensures Sound(b[i := Freed][to := Used(k, v)], m[k := v])
  {
    var b' := b[i := Freed][to := Used(k, v)];
    FindableKept(b, b');
    var m' := m[k := v];
    forall x | x in m'
      ensures exists j :: StoredAt(b', x, j)
    {
      var j :| StoredAt(b, x, j);
      assert StoredAt(b', x, if x == k then to else j);
    }
  }

  /** Deleting a key leaves a freed slot behind. */
  lemma DeleteKept(b: Buckets, m: map<Key, int>, k: Key, i: nat)
    requires Sound(b, m) && StoredAt(b, k, i)
    ensures Sound(b[i := Freed], m - {k})
  {
    var b' := b[i := Freed];
    FindableKept(b, b');
    forall x | x in m - {k}
      ensures exists j :: StoredAt(b', x, j)
    {
      var j :| StoredAt(b, x, j);
      assert StoredAt(b', x, j);
    }
  }

  // ---- Counting --------------------------------------------------------------------------------

  ghost function Count(b: seq<Slot>, s: Slot): nat {
    multiset(b)[s]
  }

  lemma CountUpdate(b: seq<Slot>, i: nat, x: Slot, s: Slot)
    requires i < |b|
    ensures Count(b[i := x], s) == Count(b, s) - (if b[i] == s then 1 else 0) + (if x == s then 1 else 0)
  {
    assert b == b[..i] + [b[i]] + b[i + 1..];
    assert b[i := x] == b[..i] + [x] + b[i + 1..];
  }

  /** The keys of the slots. */
  ghost function KeysOf(b: seq<Slot>): set<Key> {
    if b == [] then {}
    else KeysOf(b[..|b| - 1]) + (if b[|b| - 1].Used? then {b[|b| - 1].key} else {})
  }

  lemma {:induction false} KeysOfHolds(b: seq<Slot>, k: Key)
    ensures k in KeysOf(b) <==> exists j :: 0 <= j < |b| && HoldsKey(b[j], k)
  {
    if b != [] {
      var r := b[..|b| - 1];
      KeysOfHolds(r, k);
      if k in KeysOf(r) {
        var j :| 0 <= j < |r| && HoldsKey(r[j], k);
        assert HoldsKey(b[j], k);
      }
      if j :| 0 <= j < |b| && HoldsKey(b[j], k) {
        assert j < |r| ==> HoldsKey(r[j], k);
      }
    }
  }

  lemma {:induction false} KeysOfSize(b: seq<Slot>)
    requires forall i, j :: 0 <= i < j < |b| && b[i].Used? && b[j].Used? ==> b[i].key != b[j].key
    ensures |KeysOf(b)| == |b| - Count(b, Null) - Count(b, Freed)
  {
    if b != [] {
      var r, last := b[..|b| - 1], b[|b| - 1];
      assert b == r + [last];
      KeysOfSize(r);
      if last.Used? {
        KeysOfHolds(r, last.key);
      }
    }
  }

  /** As many keys as slots that are neither never-used nor freed. */
  lemma KeyCount(b: Buckets, m: map<Key, int>)
    requires NoKeyTwice(b) && Represents(b, m)
    ensures |m| == |b| - Count(b, Null) - Count(b, Freed)
  {
    forall k
      ensures k in KeysOf(b) <==> k in m
    {
      KeysOfHolds(b, k);
      if k in m {
        var j :| StoredAt(b, k, j);
      }
    }
    assert KeysOf(b) == m.Keys;
    KeysOfSize(b);
  }

  /** No slot is never-used or freed exactly when the map has as many keys as there are slots. */
  lemma FullMeansSizeKeys(b: Buckets, m: map<Key, int>)
    requires NoKeyTwice(b) && Represents(b, m)
    ensures |m| <= |b|
    ensures |m| == |b| <==> forall j :: 0 <= j < |b| ==> b[j].Used?
  {
    KeyCount(b, m);
    if forall j :: 0 <= j < |b| ==> b[j].Used? {
      assert Null !in multiset(b) && Freed !in multiset(b);
    } else {
      var j :| 0 <= j < |b| && !b[j].Used?;
      assert b[j] in multiset(b);
    }
  }

  /** For a key whose probes cover the table, a search sees only foreign keys exactly when the table is full. */
  lemma SearchSeesAllSlots(b: Buckets, m: map<Key, int>, k: Key)
    requires NoKeyTwice(b) && Represents(b, m) && VisitsAll(Hash1(k), Step(k, |b|), |b|)
    ensures (forall t :: 0 <= t < |b| ==> b[Probe(k, |b|, t)].Used?) <==> |m| == |b|
  {
    FullMeansSizeKeys(b, m);
    var s := Positions(Hash1(k), Step(k, |b|), |b|);
    if forall t :: 0 <= t < |b| ==> b[Probe(k, |b|, t)].Used? {
      forall j | 0 <= j < |b|
        ensures b[j].Used?
      {
        assert j in s;
        var t :| 0 <= t < |b| && s[t] == j;
        assert Probe(k, |b|, t) == j;
      }
    }
  }
}
