/**
  The one-writer one-reader queue of kernel/klibc.c: a circular array with a read and a write
  pointer. fifo_push and fifo_pull are taken apart into their single reads and writes, which may
  interleave in any way.
*/
module Fifo {
  import opened Arith

  /** Where the writer is inside fifo_push. */
  datatype Pusher =
    | PushIdle
    | PushNext(c: char, next: nat)      // the next write pointer is computed
    | PushRoom(c: char, next: nat)      // the read pointer has been looked at: there is room
    | PushStored(c: char, next: nat)    // the character is in the array

  /** Where the reader is inside fifo_pull. */
  datatype Puller =
    | PullIdle
    | PullSome                          // the write pointer has been looked at: there is a character
    | PullTaken(c: char)                // the character has been read

  /** Shared memory, the two threads, and the characters pushed with success and pulled so far. */
  datatype State = State(data: seq<char>, rd: nat, wr: nat, push: Pusher, pull: Puller,
                         pushed: seq<char>, pulled: seq<char>)

  /** One access to shared memory. */
  datatype Access = StartPush(c: char) | LookAtRead | Store | Publish | LookAtWrite | Take | Release

  ghost predicate Enabled(s: State, a: Access) {
    match a
    case StartPush(_) => s.push.PushIdle?
    case LookAtRead => s.push.PushNext?
    case Store => s.push.PushRoom? && s.wr < |s.data|
    case Publish => s.push.PushStored?
    case LookAtWrite => s.pull.PullIdle?
    case Take => s.pull.PullSome? && s.rd < |s.data|
    case Release => s.pull.PullTaken?
  }

  function Step(s: State, a: Access): State
    requires Enabled(s, a) && |s.data| > 0
  {
    match a
    case StartPush(c) => s.(push := PushNext(c, (s.wr + 1) % |s.data|))
    case LookAtRead => s.(push := if s.push.next != s.rd then PushRoom(s.push.c, s.push.next) else PushIdle)
    case Store => s.(push := PushStored(s.push.c, s.push.next), data := s.data[s.wr := s.push.c])
    case Publish => s.(push := PushIdle, wr := s.push.next, pushed := s.pushed + [s.push.c])
    case LookAtWrite => s.(pull := if s.rd != s.wr then PullSome else PullIdle)
    case Take => s.(pull := PullTaken(s.data[s.rd]))
    case Release => s.(pull := PullIdle, rd := (s.rd + 1) % |s.data|, pulled := s.pulled + [s.pull.c])
  }

  /** The place of the k-th character. */
  function Cell(k: nat, n: nat): nat
    requires n > 0
  {
    k % n
  }

  /** Cells less than n apart are different, and the cell after a cell is the next one going round. */
  lemma CellsApart(j: nat, k: nat, n: nat)
    requires n > 0 && j < k < j + n
    ensures Cell(j, n) != Cell(k, n)
  {
    if Cell(j, n) == Cell(k, n) {
      SameRemainder(j, k, n);
      MulSign(k / n - j / n, n);
    }
  }

  lemma NextCell(k: nat, n: nat)
    requires n > 0
    ensures Cell(k, n) < n && (Cell(k, n) + 1) % n == Cell(k + 1, n) && Cell(k + n, n) == Cell(k, n)
  {
    ModAdd(k, 1, n);
    ModAddMultiple(k, 1, n);
  }

  /**
    What holds between any two accesses: the pointers are the cells after the characters pulled and
    pushed, the characters in between are in the array, and there are at most n - 1 of them.
  */
  ghost predicate Inv(s: State) {
    var n, w, r := |s.data|, |s.pushed|, |s.pulled|;
    && n > 0 && r <= w <= r + n - 1 && s.rd == Cell(r, n) && s.wr == Cell(w, n)
    && s.pulled == s.pushed[..r]
    && (forall k :: r <= k < w ==> Cell(k, n) < n && s.data[Cell(k, n)] == s.pushed[k])
    && (!s.push.PushIdle? ==> s.push.next == Cell(w + 1, n))
    && (s.push.PushRoom? || s.push.PushStored? ==> w + 1 <= r + n - 1)
    && (s.push.PushStored? ==> Cell(w, n) < n && s.data[Cell(w, n)] == s.push.c)
    && (!s.pull.PullIdle? ==> r < w)
    && (s.pull.PullTaken? ==> s.pull.c == s.pushed[r])
  }

  lemma LookAtReadKeeps(s: State)
    requires Inv(s) && s.push.PushNext?
    ensures s.push.next != s.rd ==> |s.pushed| + 1 <= |s.pulled| + |s.data| - 1
  {
    NextCell(|s.pulled|, |s.data|);
  }

  lemma StoreKeeps(s: State)
    requires Inv(s) && s.push.PushRoom?
    ensures s.wr < |s.data| && Inv(Step(s, Store))
  {
    var n, w, r := |s.data|, |s.pushed|, |s.pulled|;
    NextCell(w, n);
    var d := s.data[s.wr := s.push.c];
    forall k | r <= k < w
      ensures Cell(k, n) < n && d[Cell(k, n)] == s.pushed[k]
    {
      CellsApart(k, w, n);
    }
  }

  lemma PublishKeeps(s: State)
    requires Inv(s) && s.push.PushStored?
    ensures Inv(Step(s, Publish))
  {
    hide Cell;
    var n, w, r := |s.data|, |s.pushed|, |s.pulled|;
    var p := s.pushed + [s.push.c];
    assert p[..r] == s.pushed[..r];
    forall k | r <= k < w + 1
      ensures Cell(k, n) < n && s.data[Cell(k, n)] == p[k]
    {
      assert k < w ==> p[k] == s.pushed[k];
    }
  }

  lemma LookAtWriteKeeps(s: State)
    requires Inv(s)
    ensures s.rd != s.wr ==> |s.pulled| < |s.pushed|
  {
  }

  lemma ReleaseKeeps(s: State)
    requires Inv(s) && s.pull.PullTaken?
    ensures Inv(Step(s, Release))
  {
    hide Cell;
    NextCell(|s.pulled|, |s.data|);
    assert s.pushed[..|s.pulled| + 1] == s.pushed[..|s.pulled|] + [s.pushed[|s.pulled|]];
  }

  /** Every access of either side keeps the invariant. */
  lemma StepKeeps(s: State, a: Access)
    requires Inv(s) && Enabled(s, a)
    ensures Inv(Step(s, a))
  {
    match a {
      case StartPush(c) => NextCell(|s.pushed|, |s.data|);
      case LookAtRead => LookAtReadKeeps(s);
      case Store => StoreKeeps(s);
      case Publish => PublishKeeps(s);
      case LookAtWrite => LookAtWriteKeeps(s);
      case Take => NextCell(|s.pulled|, |s.data|);
      case Release => ReleaseKeeps(s);
    }
  }

  function Start(data: seq<char>): State {
    State(data, 0, 0, PushIdle, PullIdle, [], [])
  }

  lemma StartInv(data: seq<char>)
    requires |data| > 0
    ensures Inv(Start(data))
  {
    NextCell(0, |data|);
    assert Cell(0, |data|) == 0;
  }

  /** Any interleaving of the accesses of one writer and one reader. */
  ghost predicate Run(s: State, accesses: seq<Access>)
    decreases |accesses|
  {
    accesses == [] || (|s.data| > 0 && Enabled(s, accesses[0]) && Run(Step(s, accesses[0]), accesses[1..]))
  }

  ghost function After(s: State, accesses: seq<Access>): State
    requires Run(s, accesses)
    decreases |accesses|
  {
    if accesses == [] then s else After(Step(s, accesses[0]), accesses[1..])
  }

  lemma {:induction false} RunKeeps(s: State, accesses: seq<Access>)
    requires Inv(s) && Run(s, accesses)
    ensures Inv(After(s, accesses)) && |After(s, accesses).data| == |s.data|
    decreases |accesses|
  {
    hide Inv, Step;
    if accesses != [] {
      StepKeeps(s, accesses[0]);
      SameDepth(s, accesses[0]);
      RunKeeps(Step(s, accesses[0]), accesses[1..]);
    }
  }

  lemma SameDepth(s: State, a: Access)
    requires Enabled(s, a) && |s.data| > 0
    ensures |Step(s, a).data| == |s.data|
  {
  }

  /**
    Under every interleaving, the characters pulled are the first of those pushed with success, and at
    most depth - 1 characters are on their way.
  */
  lemma PulledIsPrefix(data: seq<char>, accesses: seq<Access>)
    requires |data| > 0 && Run(Start(data), accesses)
    ensures var s := After(Start(data), accesses);
            && |s.pulled| <= |s.pushed| <= |s.pulled| + |data| - 1
            && s.pulled == s.pushed[..|s.pulled|]
  {
    StartInv(data);
    RunKeeps(Start(data), accesses);
  }

  // ---- The calls, one after the other ----------------------------------------------------------------

  class Queue {
    const data: array<char>
    var ptRead: nat
    var ptWrite: nat
    ghost var pushed: seq<char>
    ghost var pulled: seq<char>

    ghost function Seen(): State
      reads this, data
    {
      State(data[..], ptRead, ptWrite, PushIdle, PullIdle, pushed, pulled)
    }

    ghost predicate Valid()
      reads this, data
    {
      Inv(Seen())
    }

    constructor (depth: nat)
      requires depth > 0
      ensures Valid() && data.Length == depth && pushed == [] && pulled == [] && fresh(data)
    {
      data := new char[depth](_ => ' ');
      ptRead, ptWrite, pushed, pulled := 0, 0, [], [];
      new;
      StartInv(data[..]);
    }

    /** fifo_push: false, and nothing changed, exactly when depth - 1 characters are waiting. */
    method Push(c: char) returns (ok: bool)
      requires Valid()
      modifies this, data
      ensures Valid() && pulled == old(pulled)
      ensures ok <==> |old(pushed)| < |pulled| + data.Length - 1
      ensures pushed == if ok then old(pushed) + [c] else old(pushed)
    {
      hide Inv;
      PushSteps(Seen(), c);
      var next := (ptWrite + 1) % data.Length;
      if next != ptRead {
        data[ptWrite] := c;
        ptWrite := next;
        pushed := pushed + [c];
        return true;
      }
      return false;
    }

    /** fifo_pull: the oldest waiting character, or false when there is none. */
    method Pull() returns (ok: bool, c: char)
      requires Valid()
      modifies this
      ensures Valid() && pushed == old(pushed)
      ensures ok <==> |old(pulled)| < |pushed|
      ensures ok ==> c == pushed[|old(pulled)|]
      ensures pulled == if ok then old(pulled) + [c] else old(pulled)
    {
      hide Inv;
      PullSteps(Seen());
      c := ' ';
      if ptRead != ptWrite {
        c := data[ptRead];
        ptRead := (ptRead + 1) % data.Length;
        pulled := pulled + [c];
        return true, c;
      }
      return false, c;
    }
  }

  /** An undisturbed fifo_push. */
  lemma PushSteps(s: State, c: char)
    requires Inv(s) && s.push.PushIdle?
    ensures |s.data| > 0 && s.wr < |s.data|
    ensures (s.wr + 1) % |s.data| != s.rd <==> |s.pushed| < |s.pulled| + |s.data| - 1
    ensures (s.wr + 1) % |s.data| != s.rd ==>
              Inv(s.(data := s.data[s.wr := c], wr := (s.wr + 1) % |s.data|, pushed := s.pushed + [c]))
  {
    NextCell(|s.pushed|, |s.data|);
    PushRoomIff(s);
    hide Inv;
    if (s.wr + 1) % |s.data| != s.rd {
      StepKeeps(s, StartPush(c));
      var s1 := Step(s, StartPush(c));
      StepKeeps(s1, LookAtRead);
      var s2 := Step(s1, LookAtRead);
      StepKeeps(s2, Store);
      var s3 := Step(s2, Store);
      StepKeeps(s3, Publish);
      assert Step(s3, Publish) == s.(data := s.data[s.wr := c], wr := (s.wr + 1) % |s.data|, pushed := s.pushed + [c]);
    }
  }

  lemma PushRoomIff(s: State)
    requires Inv(s)
    ensures (s.wr + 1) % |s.data| != s.rd <==> |s.pushed| < |s.pulled| + |s.data| - 1
  {
    if (s.wr + 1) % |s.data| == s.rd {
      FullNow(s);
    } else {
      NextCell(|s.pushed|, |s.data|);
      NextCell(|s.pulled|, |s.data|);
    }
  }

  /** An undisturbed fifo_pull. */
  lemma PullSteps(s: State)
    requires Inv(s) && s.pull.PullIdle?
    ensures |s.data| > 0 && s.rd < |s.data|
    ensures s.rd != s.wr <==> |s.pulled| < |s.pushed|
    ensures s.rd != s.wr ==> s.data[s.rd] == s.pushed[|s.pulled|]
    ensures s.rd != s.wr ==> Inv(s.(rd := (s.rd + 1) % |s.data|, pulled := s.pulled + [s.data[s.rd]]))
  {
    NextCell(|s.pulled|, |s.data|);
    PointersDiffer(s);
    if s.rd != s.wr {
      StepKeeps(s, LookAtWrite);
      var s1 := Step(s, LookAtWrite);
      StepKeeps(s1, Take);
      var s2 := Step(s1, Take);
      StepKeeps(s2, Release);
      assert Step(s2, Release) == s.(rd := (s.rd + 1) % |s.data|, pulled := s.pulled + [s.data[s.rd]]);
    }
  }

  lemma FullNow(s: State)
    requires Inv(s) && (s.wr + 1) % |s.data| == s.rd
    ensures |s.pushed| == |s.pulled| + |s.data| - 1
  {
    var n, w, r := |s.data|, |s.pushed|, |s.pulled|;
    NextCell(w, n);
    if w + 1 < r + n {
      CellsApart(r, w + 1, n);
    }
  }

  lemma PointersDiffer(s: State)
    requires Inv(s)
    ensures s.rd != s.wr <==> |s.pulled| < |s.pushed|
  {
    if |s.pulled| < |s.pushed| {
      CellsApart(|s.pulled|, |s.pushed|, |s.data|);
    }
  }
}
