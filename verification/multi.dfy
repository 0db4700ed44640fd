/** The multi-threaded dispatcher `run_multi` (brute.c:279-304), its publish
    handler `task_push` (brute.c:126-132) and the `worker` loop
    (brute.c:244-260), as one sequential schedule.

    `run_multi` starts `ncpu` workers, and `ncpu` is always 1 (brute.c:280
    discards the `sysconf` result). The schedule lets that worker run only when
    it must: when a push finds the queue full, the worker first takes one task
    off it and processes it completely; after publishing, the worker drains
    the queue while the dispatcher waits for `tip` to reach 0.
 */
module Multi {
  import opened Enumeration
  import opened Generator
  import opened TaskQueue
  import opened Checker
  import opened Search

  /** The parts of `context_t` (brute.c:65-75) a multi-threaded run shares: the configuration,
      the queue, the live-task counter `tip` and the result; plus the history of the tasks
      published and the tasks processed so far. */
  datatype Shared = Shared(
    cfg: Config,
    queue: Queue,
    tip: int,
    result: SearchResult,
    published: seq<Task>,
    processed: seq<Task>)

  /** Between two steps of the schedule: a valid configuration and queue, one live task per
      queued task, and the queue holding exactly the published tasks not yet processed. */
  predicate Consistent(st: Shared)
  {
    && ValidConfig(st.cfg)
    && Valid(st.queue)
    && st.tip == st.queue.full
    && st.processed + Contents(st.queue) == st.published
  }

  type State = st: Shared | Consistent(st)
    witness Shared(Config(Recursive, Multi, 0, "a"), Init(Task(Blank(), 0, 0)), 0, NotFound, [], [])

  /** The range a worker gives a popped task: `task.from = task.to; task.to += END`
      (brute.c:252-253). */
  function Extend(t: Task): (e: Task)
    ensures e.password == t.password && e.from == t.upTo && e.upTo == t.upTo + END
  {
    Task(t.password, t.upTo, t.upTo + END)
  }

  /** The range a worker derives from a published prefix task is one the configured strategy
      can run, and it ends inside the password: `[to, to + END)` with `to + END` at most
      `password_length`. */
  lemma ExtendRunnable(cfg: Config, t: Task)
    requires ValidConfig(cfg) && Publishable(cfg, t)
    ensures Runnable(cfg, Extend(t))
    ensures Extend(t).from == t.upTo && Extend(t).upTo <= cfg.passwordLength
  {
  }

  /** One iteration of `worker` (brute.c:250-258): pop a task, extend its range, run `brute_all`
      with `check` on it, and count it done (`--tip`). A task whose extended range the strategy
      cannot run leaves the result as it is; `MultiRanges` shows none is ever published. */
  function WorkerStep(verify: string -> bool, st: State): (r: State)
    requires st.queue.full > 0
    ensures r.cfg == st.cfg && r.published == st.published
    ensures r.tip == st.tip - 1
    ensures r.processed == st.processed + [Contents(st.queue)[0]]
  {
    var t := Pop(st.queue).value.0;
    var q := Pop(st.queue).value.1;
    var e := Extend(t);
    var res := if Runnable(st.cfg, e) then BruteAll(st.cfg, Check(verify), st.result, e).state else st.result;
    assert st.processed + [t] + Contents(q) == st.processed + ([t] + Contents(q));
    Shared(st.cfg, q, st.tip - 1, res, st.published, st.processed + [t])
  }

  /** `task_push` for the prefix task `[0, upTo)` while its buffer holds `buf`: one more live
      task, and the task queued. On a full queue `queue_push` blocks until the worker has
      taken a task off; the schedule runs that worker step first. */
  function PushStep(verify: string -> bool, upTo: nat, st: State, buf: Buffer): (r: State)
    ensures r.cfg == st.cfg
    ensures r.published == st.published + [Task(buf, 0, upTo)]
    ensures st.queue.full < SIZE_Q ==> r.tip == st.tip + 1 && r.processed == st.processed
    ensures st.queue.full == SIZE_Q ==> r.tip == st.tip && |r.processed| == |st.processed| + 1
  {
    var st' := if st.queue.full == SIZE_Q then WorkerStep(verify, st) else st;
    var task := Task(buf, 0, upTo);
    var q := Push(st'.queue, task).value;
    Shared(st'.cfg, q, st'.tip + 1, st'.result, st'.published + [task], st'.processed)
  }

  /** `task_push` as a handler: it returns the shared `found` flag. */
  function TaskPush(verify: string -> bool, upTo: nat): Handler<State>
  {
    Handler((st: State, buf: Buffer) => PushStep(verify, upTo, st, buf), (st: State) => st.result.found)
  }

  /** The iterations of `run_multi`'s publishing loop from prefix length `upTo` on
      (brute.c:289-298): each `to <= password_length - END` runs `brute_all` with `task_push`
      over `[0, to)`. */
  function MultiFrom(cfg: Config, verify: string -> bool, upTo: nat, st: State): State
    requires ValidConfig(cfg)
    decreases cfg.passwordLength - END + 1 - upTo
  {
    if upTo > cfg.passwordLength - END then st
    else
      var t := FreshTask(upTo);
      FreshTaskStart(cfg, upTo);
      MultiFrom(cfg, verify, upTo + 1, BruteAll(cfg, TaskPush(verify, upTo), st, t).state)
  }

  /** The dispatcher's wait `while (tip > 0)` (brute.c:300-303) while the worker keeps taking
      tasks off the queue. */
  function Drain(verify: string -> bool, st: State): (r: State)
    ensures r.tip == 0 && r.queue.full == 0
    decreases st.tip
  {
    if st.tip > 0 then Drain(verify, WorkerStep(verify, st)) else st
  }

  /** The shared state `main` sets up (brute.c:322-332): an initialised queue, `tip` 0, nothing
      found. */
  function Initial(cfg: Config): (st: State)
    requires ValidConfig(cfg)
    ensures st.tip == 0 && st.published == [] && st.processed == [] && !st.result.found
    ensures Contents(st.queue) == [] && st.queue.empty == SIZE_Q
  {
    Shared(cfg, Init(Task(Blank(), 0, 0)), 0, NotFound, [], [])
  }

  /** The run starts in a good state: nothing published, nothing processed, nothing found, and
      an empty queue with every slot free. */
  lemma InitialGood(cfg: Config, verify: string -> bool)
    requires ValidConfig(cfg)
    ensures Good(cfg, verify, Initial(cfg))
    ensures Contents(Initial(cfg).queue) == [] && Initial(cfg).queue.empty == SIZE_Q
    ensures Initial(cfg).tip == 0
  {
  }

  /** `run_multi`: publish every prefix, then wait for the worker to finish. */
  function RunMulti(cfg: Config, verify: string -> bool): State
    requires ValidConfig(cfg)
  {
    Drain(verify, MultiFrom(cfg, verify, 0, Initial(cfg)))
  }

  /** `main`'s switch on the thread mode (brute.c:361-372): the result it prints. */
  function Run(cfg: Config, verify: string -> bool): SearchResult
    requires ValidConfig(cfg)
  {
    match cfg.threadMode
    case Single => RunSingle(cfg, verify)
    case Multi => RunMulti(cfg, verify).result
  }

  // ---------------------------------------------------------------------------------------
  // What a run publishes

  /** The prefix tasks of length `upTo`, in generator order. */
  function Level(cfg: Config, upTo: nat): seq<Task>
    requires upTo <= MAX_LENGTH
  {
    Entries((b: Buffer) => Task(b, 0, upTo), Candidates(cfg.alph, Blank(), 0, upTo))
  }

  /** The prefix tasks of every length from `upTo` to `password_length - END`, shortest first. */
  function Prefixes(cfg: Config, upTo: nat): seq<Task>
    requires ValidConfig(cfg)
    decreases cfg.passwordLength - END + 1 - upTo
  {
    if upTo > cfg.passwordLength - END then [] else Level(cfg, upTo) + Prefixes(cfg, upTo + 1)
  }

  /** A task as `run_multi` publishes it: the range `[0, to)` with `to + END` within the
      password length, and the buffer holding a word of `to` symbols. */
  predicate Publishable(cfg: Config, t: Task)
  {
    && t.from == 0
    && t.upTo + END <= cfg.passwordLength
    && Holds(cfg.alph, t.password, t.upTo)
  }

  /** No extension of the task's prefix by END symbols is accepted. */
  ghost predicate Refuted(verify: string -> bool, alph: seq<char>, t: Task)
    requires t.upTo <= MAX_LENGTH
  {
    forall w :: IsWord(alph, w) && |w| == END ==> !verify(t.password[..t.upTo] + w)
  }

  /** What the schedule keeps true of the shared state: the run's configuration, only
      publishable tasks published, a sound result, and, while nothing is found, every
      processed task refuted. */
  ghost predicate Good(cfg: Config, verify: string -> bool, st: State)
  {
    && st.cfg == cfg
    && (forall i :: 0 <= i < |st.published| ==> Publishable(cfg, st.published[i]))
    && Sound(verify, cfg.alph, END, cfg.passwordLength, st.result)
    && (!st.result.found ==>
          forall i :: 0 <= i < |st.processed| ==>
            st.processed[i].upTo <= MAX_LENGTH && Refuted(verify, cfg.alph, st.processed[i]))
  }

  /** A worker step keeps the state good, never clears `found`, and sets it exactly when the
      popped task has an accepted extension. */
  lemma WorkerGood(cfg: Config, verify: string -> bool, st: State)
    requires st.queue.full > 0 && Good(cfg, verify, st)
    ensures var r := WorkerStep(verify, st);
      && Good(cfg, verify, r)
      && (st.result.found ==> r.result.found)
    ensures !st.result.found ==>
      var t := Contents(st.queue)[0];
      && t.upTo <= MAX_LENGTH
      && (WorkerStep(verify, st).result.found <==> !Refuted(verify, cfg.alph, t))
  {
    var t := Contents(st.queue)[0];
    var k := |st.processed|;
    assert st.published[k] == t;
    var e := Extend(t);
    var r := WorkerStep(verify, st);
    assert Runnable(cfg, e);
    assert Start(cfg, e) == t.password by {
      assert t.password[cfg.passwordLength] == '\0';
    }
    BruteAllSpec(cfg, Check(verify), st.result, e);
    CheckLevel(verify, cfg.alph, st.result, t.password, t.upTo, t.upTo + END, END, cfg.passwordLength);
    if !r.result.found {
      forall i | 0 <= i < |r.processed|
        ensures r.processed[i].upTo <= MAX_LENGTH && Refuted(verify, cfg.alph, r.processed[i])
      {
        if i < k {
          assert r.processed[i] == st.processed[i];
        } else {
          assert r.processed[i] == t;
        }
      }
    }
  }

  /** A push step on a buffer holding a word of `upTo` symbols keeps the state good and never
      clears `found`. */
  lemma PushGood(cfg: Config, verify: string -> bool, upTo: nat, st: State, buf: Buffer)
    requires Good(cfg, verify, st)
    requires upTo + END <= cfg.passwordLength && Holds(cfg.alph, buf, upTo)
    ensures var r := PushStep(verify, upTo, st, buf);
      && Good(cfg, verify, r)
      && (st.result.found ==> r.result.found)
  {
    if st.queue.full == SIZE_Q {
      WorkerGood(cfg, verify, st);
    }
  }

  /** One iteration of the publishing loop keeps the state good and never clears `found`; when
      `found` stays clear it has published every prefix of length `upTo`, in generator order. */
  lemma ProducerLevel(cfg: Config, verify: string -> bool, upTo: nat, st: State)
    requires Good(cfg, verify, st) && upTo + END <= cfg.passwordLength
    ensures Runnable(cfg, FreshTask(upTo))
    ensures var r := BruteAll(cfg, TaskPush(verify, upTo), st, FreshTask(upTo)).state;
      && Good(cfg, verify, r)
      && (st.result.found ==> r.result.found)
      && (!r.result.found ==> r.published == st.published + Level(cfg, upTo))
  {
    FreshTaskStart(cfg, upTo);
    var h := TaskPush(verify, upTo);
    BruteAllSpec(cfg, h, st, FreshTask(upTo));
    var cands := Candidates(cfg.alph, Blank(), 0, upTo);
    CandidatesHold(cfg.alph, Blank(), 0, upTo);
    var inv := (s: State) => Good(cfg, verify, s) && (st.result.found ==> s.result.found);
    forall s': State, k | 0 <= k < |cands| && inv(s')
      ensures inv(h.step(s', cands[k]))
    {
      assert cands[k] in cands;
      PushGood(cfg, verify, upTo, s', cands[k]);
    }
    DrivePreserves(h, inv, st, cands);
    var entry := (b: Buffer) => Task(b, 0, upTo);
    forall s': State, b: Buffer
      ensures h.step(s', b).published == s'.published + [entry(b)]
    {
    }
    DriveLog(h, (s: State) => s.published, entry, st, cands);
    DriveShortCircuit(h, st, cands);
  }

  /** The publishing loop from `upTo` on keeps the state good and never clears `found`. */
  lemma {:induction false} MultiFromGood(cfg: Config, verify: string -> bool, upTo: nat, st: State)
    requires ValidConfig(cfg) && Good(cfg, verify, st)
    ensures var r := MultiFrom(cfg, verify, upTo, st);
      Good(cfg, verify, r) && (st.result.found ==> r.result.found)
    decreases cfg.passwordLength - END + 1 - upTo
  {
    if upTo <= cfg.passwordLength - END {
      var st' := BruteAll(cfg, TaskPush(verify, upTo), st, FreshTask(upTo)).state;
      assert Good(cfg, verify, st') && (st.result.found ==> st'.result.found) by {
        ProducerLevel(cfg, verify, upTo, st);
      }
      assert MultiFrom(cfg, verify, upTo, st) == MultiFrom(cfg, verify, upTo + 1, st');
      MultiFromGood(cfg, verify, upTo + 1, st');
    } else {
      assert MultiFrom(cfg, verify, upTo, st) == st;
    }
  }

  /** When `found` stays clear, the publishing loop from `upTo` on publishes every prefix of
      every length from `upTo` to `password_length - END`, shortest first. */
  lemma {:induction false} MultiFromSpec(cfg: Config, verify: string -> bool, upTo: nat, st: State)
    requires ValidConfig(cfg) && Good(cfg, verify, st)
    ensures var r := MultiFrom(cfg, verify, upTo, st);
      !r.result.found ==> r.published == st.published + Prefixes(cfg, upTo)
    decreases cfg.passwordLength - END + 1 - upTo
  {
    if upTo <= cfg.passwordLength - END {
      var st' := BruteAll(cfg, TaskPush(verify, upTo), st, FreshTask(upTo)).state;
      var level, rest := Level(cfg, upTo), Prefixes(cfg, upTo + 1);
      assert Good(cfg, verify, st') && (!st'.result.found ==> st'.published == st.published + level) by {
        ProducerLevel(cfg, verify, upTo, st);
      }
      var r := MultiFrom(cfg, verify, upTo + 1, st');
      assert MultiFrom(cfg, verify, upTo, st) == r;
      assert Prefixes(cfg, upTo) == level + rest;
      assert st'.result.found ==> r.result.found by {
        MultiFromGood(cfg, verify, upTo + 1, st');
      }
      assert !r.result.found ==> r.published == st'.published + rest by {
        MultiFromSpec(cfg, verify, upTo + 1, st');
      }
      Associate(st.published, level, rest);
    } else {
      assert MultiFrom(cfg, verify, upTo, st) == st;
      assert Prefixes(cfg, upTo) == [];
      assert st.published + [] == st.published;
    }
  }

  /** Nothing in front changes nothing. */
  lemma EmptyAppend(s: seq<Task>)
    ensures [] + s == s
  {
  }

  /** Concatenation regrouped, for chaining the levels. */
  lemma Associate(a: seq<Task>, b: seq<Task>, c: seq<Task>)
    ensures a + b + c == a + (b + c)
  {
  }

  /** Waiting for `tip` to reach 0 keeps the state good and never clears `found`; at the end
      the queue is empty and every published task has been processed, once each and in
      publishing order. */
  lemma {:induction false} DrainSpec(cfg: Config, verify: string -> bool, st: State)
    requires Good(cfg, verify, st)
    ensures var r := Drain(verify, st);
      && Good(cfg, verify, r)
      && (st.result.found ==> r.result.found)
      && r.published == st.published
      && Contents(r.queue) == []
      && r.processed == r.published
    decreases st.tip
  {
    if st.tip > 0 {
      WorkerGood(cfg, verify, st);
      DrainSpec(cfg, verify, WorkerStep(verify, st));
    } else {
      assert st.processed + [] == st.processed;
    }
  }

  /** A task of the prefix candidates of a length in `[lo, password_length - END]` is among the
      prefixes published from `lo` on. */
  lemma {:induction false} PrefixesContain(cfg: Config, lo: nat, n: nat, k: nat)
    requires ValidConfig(cfg) && lo <= n && n + END <= cfg.passwordLength
    requires k < |Candidates(cfg.alph, Blank(), 0, n)|
    ensures Task(Candidates(cfg.alph, Blank(), 0, n)[k], 0, n) in Prefixes(cfg, lo)
    decreases n - lo
  {
    assert Prefixes(cfg, lo) == Level(cfg, lo) + Prefixes(cfg, lo + 1);
    if lo == n {
      assert Level(cfg, n)[k] == Task(Candidates(cfg.alph, Blank(), 0, n)[k], 0, n);
    } else {
      PrefixesContain(cfg, lo + 1, n, k);
    }
  }

  /** A word of END to `password_length` symbols is the extension of a published prefix, so
      once every published prefix is refuted the verifier rejects it. */
  lemma PrefixesRefute(cfg: Config, verify: string -> bool, done: seq<Task>, w: string)
    requires ValidConfig(cfg) && done == Prefixes(cfg, 0)
    requires forall i :: 0 <= i < |done| ==> done[i].upTo <= MAX_LENGTH && Refuted(verify, cfg.alph, done[i])
    requires IsWord(cfg.alph, w) && END <= |w| <= cfg.passwordLength
    ensures !verify(w)
  {
    var alph := cfg.alph;
    var n := |w| - END;
    var p, x := w[..n], w[n..];
    assert IsWord(alph, p) by {
      forall j | 0 <= j < |p| ensures p[j] in alph { assert p[j] == w[j]; }
    }
    assert IsWord(alph, x) by {
      forall j | 0 <= j < |x| ensures x[j] in alph { assert x[j] == w[n + j]; }
    }
    var k := ExtensionIsCandidate(alph, Blank(), 0, n, p);
    var c := Candidates(alph, Blank(), 0, n)[k];
    assert c[..n] == p by {
      EmptyPrefix(Blank(), p);
    }
    var t := Task(c, 0, n);
    assert t in done by {
      PrefixesContain(cfg, 0, n, k);
    }
    var i :| 0 <= i < |done| && done[i] == t;
    assert Refuted(verify, alph, t);
    assert c[..n] + x == w by {
      SplitJoin(w, n);
    }
  }

  /** Nothing in front of a word changes it. */
  lemma EmptyPrefix(b: Buffer, p: seq<char>)
    ensures b[..0] + p == p
  {
  }

  /** A word is its two halves put back together. */
  lemma SplitJoin(w: seq<char>, n: nat)
    requires n <= |w|
    ensures w[..n] + w[n..] == w
  {
  }

  /** `run_multi` reports found exactly when some word over the alphabet of END to
      `password_length` symbols is accepted, and what it reports is such a word. */
  lemma MultiCorrect(cfg: Config, verify: string -> bool)
    requires ValidConfig(cfg)
    ensures var r := RunMulti(cfg, verify).result;
      && Sound(verify, cfg.alph, END, cfg.passwordLength, r)
      && (r.found <==> exists w :: IsWord(cfg.alph, w) && END <= |w| <= cfg.passwordLength && verify(w))
  {
    var alph, pl := cfg.alph, cfg.passwordLength;
    var r := RunMulti(cfg, verify);
    assert Good(cfg, verify, r) && r.processed == r.published
        && (!r.result.found ==> r.published == Prefixes(cfg, 0)) by {
      RunMultiSpec(cfg, verify);
    }
    if r.result.found {
      var w := r.result.password;
      assert IsWord(alph, w) && END <= |w| <= pl && verify(w);
    } else {
      forall w | IsWord(alph, w) && END <= |w| <= pl
        ensures !verify(w)
      {
        PrefixesRefute(cfg, verify, r.processed, w);
      }
    }
  }

  /** The ranges of a multi-threaded run: every published task is a prefix range `[0, to)` with
      `to <= password_length - END`, which the worker extends to `[to, to + END)` inside the
      password, and at the end `tip` is back to 0. */
  lemma MultiRanges(cfg: Config, verify: string -> bool)
    requires ValidConfig(cfg)
    ensures var r := RunMulti(cfg, verify);
      && r.tip == 0
      && (forall i :: 0 <= i < |r.published| ==>
            && r.published[i].from == 0
            && r.published[i].upTo + END <= cfg.passwordLength
            && Runnable(cfg, Extend(r.published[i])))
  {
    var r := RunMulti(cfg, verify);
    assert Good(cfg, verify, r) by {
      RunMultiSpec(cfg, verify);
    }
    forall i | 0 <= i < |r.published|
      ensures Runnable(cfg, Extend(r.published[i]))
    {
      assert Publishable(cfg, r.published[i]);
    }
  }

  /** The whole multi-threaded run: the invariant holds at the end, the queue is drained, and
      unless a word is found everything published is every prefix of every length from 0 to
      `password_length - END`. */
  lemma RunMultiSpec(cfg: Config, verify: string -> bool)
    requires ValidConfig(cfg)
    ensures var r := RunMulti(cfg, verify);
      && Good(cfg, verify, r)
      && Contents(r.queue) == [] && r.processed == r.published
      && (!r.result.found ==> r.published == Prefixes(cfg, 0))
      && (cfg.passwordLength < END ==> r.published == [])
  {
    var st0 := Initial(cfg);
    var st1 := MultiFrom(cfg, verify, 0, st0);
    assert Good(cfg, verify, st1) by {
      MultiFromGood(cfg, verify, 0, st0);
    }
    assert !st1.result.found ==> st1.published == Prefixes(cfg, 0) by {
      MultiFromSpec(cfg, verify, 0, st0);
      EmptyAppend(Prefixes(cfg, 0));
    }
    var r := Drain(verify, st1);
    assert Good(cfg, verify, r) && (st1.result.found ==> r.result.found) && r.published == st1.published
        && Contents(r.queue) == [] && r.processed == r.published by {
      DrainSpec(cfg, verify, st1);
    }
    assert RunMulti(cfg, verify) == r;
    if cfg.passwordLength < END {
      assert st1 == st0;
    }
  }

  /** The prefixes of one length are the |alphabet|^length candidates. */
  lemma LevelCount(cfg: Config, n: nat)
    requires n <= MAX_LENGTH
    ensures |Level(cfg, n)| == Pow(|cfg.alph|, n)
  {
    CandidatesCount(cfg.alph, Blank(), 0, n);
  }

  /** The number of digit vectors of every length from `lo` to `hi`. */
  function PowSum(base: nat, lo: nat, hi: int): nat
    decreases hi + 1 - lo
  {
    if lo > hi then 0 else Pow(base, lo) + PowSum(base, lo + 1, hi)
  }

  /** The run publishes |alphabet|^n prefixes of each length n from `upTo` to
      `password_length - END`. */
  lemma {:induction false} PrefixesCount(cfg: Config, upTo: nat)
    requires ValidConfig(cfg)
    ensures |Prefixes(cfg, upTo)| == PowSum(|cfg.alph|, upTo, cfg.passwordLength - END)
    decreases cfg.passwordLength - END + 1 - upTo
  {
    if upTo <= cfg.passwordLength - END {
      LevelCount(cfg, upTo);
      PrefixesCount(cfg, upTo + 1);
    }
  }

  /** With three symbols and password length 4 the run publishes the 1 + 3 + 9 prefixes of
      lengths 0, 1 and 2, not only the 9 of length 2. */
  lemma PrefixesCountExample(cfg: Config)
    requires ValidConfig(cfg) && |cfg.alph| == 3 && cfg.passwordLength == 4
    ensures |Prefixes(cfg, 0)| == 13
  {
    PrefixesCount(cfg, 0);
    assert Pow(3, 0) == 1 && Pow(3, 1) == 3 && Pow(3, 2) == 9;
    assert PowSum(3, 0, 2) == 13;
  }

  /** Without an accepted word shorter than END, both thread modes report the same outcome. */
  lemma ModesAgree(cfg: Config, verify: string -> bool)
    requires ValidConfig(cfg)
    requires forall w :: IsWord(cfg.alph, w) && |w| < END ==> !verify(w)
    ensures Run(cfg.(threadMode := Single), verify).found == Run(cfg.(threadMode := Multi), verify).found
  {
    SingleCorrect(cfg.(threadMode := Single), verify);
    MultiCorrect(cfg.(threadMode := Multi), verify);
  }

  /** Words shorter than END are only tried by `run_single`: accepting just the empty password,
      the single-threaded run finds it and the multi-threaded run does not. */
  lemma ShortWordsSingleOnly(cfg: Config)
    requires ValidConfig(cfg) && cfg.passwordLength >= 0
    ensures Run(cfg.(threadMode := Single), (w: string) => |w| == 0).found
    ensures !Run(cfg.(threadMode := Multi), (w: string) => |w| == 0).found
  {
    var verify := (w: string) => |w| == 0;
    SingleCorrect(cfg.(threadMode := Single), verify);
    MultiCorrect(cfg.(threadMode := Multi), verify);
    assert IsWord(cfg.alph, []) && verify([]);
  }
}
