/** The bounded task queue of brute.c (brute.c:43-58, brute.c:79-124): a ring
    buffer of SIZE_Q task slots with a head and a tail cursor and two counting
    semaphores, `empty` (free slots) and `full` (occupied slots).

    The model is sequential: a push or pop that would block on its semaphore is
    reported as `None` instead of waiting. The mutexes only serialise cursor
    updates and have no sequential counterpart.
 */
module TaskQueue {
  import opened Enumeration
  import opened Generator

  /** Capacity of the ring buffer (brute.c:14). */
  const SIZE_Q: nat := 7

  /** `task_t` (brute.c:43-47): a password buffer and the range `[from, to)` still to fill. */
  datatype Task = Task(password: Buffer, from: nat, upTo: nat)

  /** `queue_t` (brute.c:50-58) without its locks; `empty` and `full` are the semaphore counts. */
  datatype Queue = Queue(slots: seq<Task>, head: nat, tail: nat, empty: nat, full: nat)

  /** The shape every reachable queue has: cursors inside the ring, the two counts adding up to
      the capacity, and the tail `full` slots ahead of the head. */
  predicate Valid(q: Queue)
  {
    && |q.slots| == SIZE_Q
    && q.head < SIZE_Q && q.tail < SIZE_Q
    && q.empty + q.full == SIZE_Q
    && q.tail == Wrap(q.head + q.full)
  }

  /** A position at most one lap past the ring, folded back into it. */
  function Wrap(x: nat): (j: nat)
    requires x < 2 * SIZE_Q
    ensures j < SIZE_Q
  {
    if x >= SIZE_Q then x - SIZE_Q else x
  }

  /** Folding back is taking the position modulo the capacity. */
  lemma WrapIsModulo(x: nat)
    requires x < 2 * SIZE_Q
    ensures Wrap(x) == x % SIZE_Q
  {
  }

  /** The queued tasks, oldest first. */
  function Contents(q: Queue): seq<Task>
    requires Valid(q)
  {
    seq(q.full, i requires 0 <= i < q.full => q.slots[Wrap(q.head + i)])
  }

  /** `if (++cursor >= SIZE_Q) cursor = 0` (brute.c:107-108, brute.c:119-120). */
  function Advance(i: nat): (j: nat)
    requires i < SIZE_Q
    ensures j < SIZE_Q && j == Wrap(i + 1)
  {
    if i + 1 >= SIZE_Q then 0 else i + 1
  }

  /** `queue_init` (brute.c:79-98) when every primitive initialises: both cursors at slot 0,
      `empty` at the capacity, `full` at 0. The slots hold whatever `filler` says; nothing reads
      them before a push writes them. */
  function Init(filler: Task): (q: Queue)
    ensures Valid(q) && Contents(q) == [] && q.empty == SIZE_Q
  {
    Queue(seq(SIZE_Q, _ => filler), 0, 0, SIZE_Q, 0)
  }

  /** `queue_push` (brute.c:114-124): store at the tail and advance it. `None` when the `empty`
      semaphore is 0, where the C call blocks. */
  function Push(q: Queue, t: Task): (r: Option<Queue>)
    requires Valid(q)
    ensures r.None? <==> q.full == SIZE_Q
    ensures r.Some? ==> Valid(r.value) && Contents(r.value) == Contents(q) + [t]
    ensures r.Some? ==> r.value.full == q.full + 1
  {
    if q.empty == 0 then None
    else
      var r := Queue(q.slots[q.tail := t], q.head, Advance(q.tail), q.empty - 1, q.full + 1);
      PushContents(q, t, r);
      Some(r)
  }

  /** `queue_pop` (brute.c:100-112): take the task at the head and advance it. `None` when the
      `full` semaphore is 0, where the C call blocks. */
  function Pop(q: Queue): (r: Option<(Task, Queue)>)
    requires Valid(q)
    ensures r.None? <==> q.full == 0
    ensures r.Some? ==> Valid(r.value.1) && [r.value.0] + Contents(r.value.1) == Contents(q)
    ensures r.Some? ==> r.value.1.full == q.full - 1
  {
    if q.full == 0 then None
    else
      var r := Queue(q.slots, Advance(q.head), q.tail, q.empty + 1, q.full - 1);
      PopContents(q, r);
      Some((q.slots[q.head], r))
  }

  /** The task `i` places behind the head. */
  lemma ContentsAt(q: Queue, i: nat)
    requires Valid(q) && i < q.full
    ensures |Contents(q)| == q.full && Contents(q)[i] == q.slots[Wrap(q.head + i)]
  {
  }

  /** A push moves the tail, and a pop the head, one slot on modulo SIZE_Q. */
  lemma CursorsModulo(q: Queue, t: Task)
    requires Valid(q)
    ensures Push(q, t).Some? ==> Push(q, t).value.tail == (q.tail + 1) % SIZE_Q
    ensures Pop(q).Some? ==> Pop(q).value.1.head == (q.head + 1) % SIZE_Q
  {
    WrapIsModulo(q.tail + 1);
    WrapIsModulo(q.head + 1);
  }

  /** Writing the tail slot of a queue that is not full appends to its contents. */
  lemma PushContents(q: Queue, t: Task, r: Queue)
    requires Valid(q) && q.full < SIZE_Q
    requires r == Queue(q.slots[q.tail := t], q.head, Advance(q.tail), q.empty - 1, q.full + 1)
    ensures Valid(r) && Contents(r) == Contents(q) + [t]
  {
    assert Valid(r);
    var c, c' := Contents(q), Contents(r);
    forall i | 0 <= i < q.full + 1
      ensures c'[i] == (c + [t])[i]
    {
      ContentsAt(r, i);
      if i < q.full {
        ContentsAt(q, i);
        assert Wrap(q.head + i) != q.tail;
      } else {
        assert Wrap(q.head + i) == q.tail;
      }
    }
    assert |c'| == |c + [t]| by {
      assert |c'| == q.full + 1 && |c| == q.full;
    }
  }

  /** Advancing the head of a non-empty queue drops its oldest task. */
  lemma PopContents(q: Queue, r: Queue)
    requires Valid(q) && q.full > 0
    requires r == Queue(q.slots, Advance(q.head), q.tail, q.empty + 1, q.full - 1)
    ensures Valid(r) && [q.slots[q.head]] + Contents(r) == Contents(q)
  {
    assert Valid(r);
    var c, c' := Contents(q), Contents(r);
    forall i | 0 <= i < q.full
      ensures ([q.slots[q.head]] + c')[i] == c[i]
    {
      ContentsAt(q, i);
      if i > 0 {
        ContentsAt(r, i - 1);
        assert Wrap(r.head + (i - 1)) == Wrap(q.head + i);
      } else {
        assert Wrap(q.head + 0) == q.head;
      }
    }
    assert |[q.slots[q.head]] + c'| == |c| by {
      assert |c'| == q.full - 1 && |c| == q.full;
    }
  }

  // ---------------------------------------------------------------------------------------
  // Sequences of operations

  /** One queue operation: a push of a task or a pop. */
  datatype Op = PushOp(t: Task) | PopOp

  /** The tasks the pushes of `ops` store, in order. */
  function Pushed(ops: seq<Op>): seq<Task>
    decreases |ops|
  {
    if |ops| == 0 then []
    else (if ops[0].PushOp? then [ops[0].t] else []) + Pushed(ops[1..])
  }

  /** The number of occupied slots after `ops`, starting from `n`, counting each push as one
      more and each pop as one fewer. */
  function Occupied(n: int, ops: seq<Op>): int
    decreases |ops|
  {
    if |ops| == 0 then n
    else Occupied(if ops[0].PushOp? then n + 1 else n - 1, ops[1..])
  }

  /** Run `ops` in order; the final queue and the tasks the pops returned, or `None` when some
      operation would block. */
  function Replay(q: Queue, ops: seq<Op>): Option<(Queue, seq<Task>)>
    requires Valid(q)
    decreases |ops|
  {
    if |ops| == 0 then Some((q, []))
    else
      match ops[0]
      case PushOp(t) =>
        (match Push(q, t)
         case None => None
         case Some(q') => Replay(q', ops[1..]))
      case PopOp =>
        (match Pop(q)
         case None => None
         case Some((t, q')) =>
           (match Replay(q', ops[1..])
            case None => None
            case Some((q'', popped)) => Some((q'', [t] + popped))))
  }

  /** A replay that starts with a push continues from the pushed-to queue. */
  lemma ReplayPush(q: Queue, ops: seq<Op>)
    requires Valid(q) && |ops| > 0 && ops[0].PushOp? && Push(q, ops[0].t).Some?
    ensures Replay(q, ops) == Replay(Push(q, ops[0].t).value, ops[1..])
    ensures Pushed(ops) == [ops[0].t] + Pushed(ops[1..])
  {
  }

  /** A replay that starts with a successful pop continues from the popped-from queue and
      reports the popped task first. */
  lemma ReplayPop(q: Queue, ops: seq<Op>)
    requires Valid(q) && |ops| > 0 && ops[0].PopOp? && Pop(q).Some?
    ensures var (t, q') := Pop(q).value;
      Replay(q, ops) == (match Replay(q', ops[1..])
        case None => None
        case Some((q'', popped)) => Some((q'', [t] + popped)))
    ensures Pushed(ops) == Pushed(ops[1..])
  {
  }

  /** First in, first out: what the pops returned followed by what is still queued is what was
      queued at the start followed by what was pushed. So every pushed task is popped at most
      once, and in push order. */
  lemma {:induction false} ReplayFifo(q: Queue, ops: seq<Op>)
    requires Valid(q) && Replay(q, ops).Some?
    ensures Valid(Replay(q, ops).value.0)
    ensures Replay(q, ops).value.1 + Contents(Replay(q, ops).value.0) == Contents(q) + Pushed(ops)
    decreases |ops|
  {
    if |ops| > 0 {
      var r := Replay(q, ops).value;
      if ops[0].PushOp? {
        var q' := Push(q, ops[0].t).value;
        assert Replay(q', ops[1..]).Some? && r == Replay(q', ops[1..]).value &&
            Pushed(ops) == [ops[0].t] + Pushed(ops[1..]) by {
          ReplayPush(q, ops);
        }
        ReplayFifo(q', ops[1..]);
        Regroup(r.1, Contents(r.0), Contents(q), [ops[0].t], Pushed(ops[1..]));
      } else {
        var t := Pop(q).value.0;
        var q' := Pop(q).value.1;
        var rest := Replay(q', ops[1..]).value;
        assert Replay(q', ops[1..]).Some? && r.0 == rest.0 && r.1 == [t] + rest.1 &&
            Pushed(ops) == Pushed(ops[1..]) by {
          ReplayPop(q, ops);
        }
        ReplayFifo(q', ops[1..]);
        Regroup([t], rest.1, Contents(q'), Contents(rest.0), Pushed(ops[1..]));
      }
    }
  }

  /** Concatenation regrouped, for the two steps of the replay. */
  lemma Regroup(a: seq<Task>, b: seq<Task>, c: seq<Task>, d: seq<Task>, e: seq<Task>)
    ensures a + b == c + d + e ==> a + b == c + (d + e)
    ensures b + d == c + e ==> a + b + d == a + c + e
  {
    assert a + b + d == a + (b + d);
    assert a + c + e == a + (c + e);
  }

  /** No operation blocks exactly when the occupied count stays within `[0, SIZE_Q]` after every
      prefix of `ops`; the final queue then holds that many tasks. */
  lemma {:induction false} ReplayDefined(q: Queue, ops: seq<Op>)
    requires Valid(q)
    ensures Replay(q, ops).Some? <==>
      forall k :: 0 <= k <= |ops| ==> 0 <= Occupied(q.full, ops[..k]) <= SIZE_Q
    ensures Replay(q, ops).Some? ==> Replay(q, ops).value.0.full == Occupied(q.full, ops)
    decreases |ops|
  {
    var bounded := forall k :: 0 <= k <= |ops| ==> 0 <= Occupied(q.full, ops[..k]) <= SIZE_Q;
    assert Occupied(q.full, ops[..0]) == q.full;
    if |ops| > 0 {
      var n' := if ops[0].PushOp? then q.full + 1 else q.full - 1;
      assert Occupied(q.full, ops[..1]) == n' by {
        assert ops[..1][1..] == [];
      }
      forall k | 1 <= k <= |ops|
        ensures Occupied(q.full, ops[..k]) == Occupied(n', ops[1..][..k - 1])
      {
        assert ops[..k][0] == ops[0] && ops[..k][1..] == ops[1..][..k - 1];
      }
      assert ops[..|ops|] == ops;
      if 0 <= n' <= SIZE_Q {
        var q' := if ops[0].PushOp? then Push(q, ops[0].t).value else Pop(q).value.1;
        assert q'.full == n';
        ReplayDefined(q', ops[1..]);
        assert Replay(q, ops).Some? <==> Replay(q', ops[1..]).Some?;
        if Replay(q', ops[1..]).Some? {
          assert Replay(q, ops).value.0 == Replay(q', ops[1..]).value.0;
        }
        if bounded {
          forall j | 0 <= j <= |ops| - 1
            ensures 0 <= Occupied(n', ops[1..][..j]) <= SIZE_Q
          {
            assert Occupied(q.full, ops[..j + 1]) == Occupied(n', ops[1..][..j]);
          }
        }
      } else {
        assert Replay(q, ops).None?;
        assert !bounded;
      }
    }
  }
}
