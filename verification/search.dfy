/** The configuration, the strategy switch `brute_all` (brute.c:228-242) and the
    single-threaded dispatcher `run_single` (brute.c:264-276).

    At this level both strategies are the function `BruteRec`: the iterative one
    on the buffer terminated at `password_length`, as `Odometer.BruteIter`
    proves equivalent; `BruteAllImpl` runs the two real strategies and meets
    the same contract.
 */
module Search {
  import opened Generator
  import opened Odometer
  import opened TaskQueue
  import opened Checker

  /** Width of the suffix a worker enumerates (brute.c:15). */
  const END: nat := 2

  /** `brute_mode_t` (brute.c:22-25). */
  datatype BruteMode = Recursive | Iterative

  /** `thread_mode_t` (brute.c:27-30). */
  datatype ThreadMode = Single | Multi

  /** `config_t` (brute.c:35-41) without the hash, which `verify` stands for. */
  datatype Config = Config(bruteMode: BruteMode, threadMode: ThreadMode, passwordLength: int, alph: seq<char>)

  /** What a run assumes of its configuration: a non-empty alphabet (a C string, so without NUL)
      and a password length that fits `password_t`. */
  predicate ValidConfig(cfg: Config)
  {
    |cfg.alph| > 0 && '\0' !in cfg.alph && cfg.passwordLength <= MAX_LENGTH
  }

  /** A task the configured strategy can run: its range lies in `password_t`, and for
      `brute_iter` also inside the digit array `a[password_length]`. */
  predicate Runnable(cfg: Config, t: Task)
  {
    && ValidConfig(cfg)
    && t.from <= t.upTo <= MAX_LENGTH
    && (cfg.bruteMode.Iterative? ==> t.upTo <= cfg.passwordLength)
  }

  /** The buffer the strategy enumerates over: `brute_iter` first writes the terminator at
      `password_length` (brute.c:172). */
  function Start(cfg: Config, t: Task): Buffer
    requires Runnable(cfg, t)
  {
    if cfg.bruteMode.Iterative? then t.password[cfg.passwordLength := '\0'] else t.password
  }

  /** `brute_all`: the configured strategy hands the candidates of the task's range to the
      handler, in order, until it reports found. */
  function BruteAll<S>(cfg: Config, h: Handler<S>, s: S, t: Task): Run<S>
    requires Runnable(cfg, t)
  {
    BruteRec(cfg.alph, h, s, Start(cfg, t), t.from, t.upTo).AsRun()
  }

  /** `brute_all` hands the candidates of the task's range to the handler, in order, until it
      reports found. */
  lemma BruteAllSpec<S>(cfg: Config, h: Handler<S>, s: S, t: Task)
    requires Runnable(cfg, t)
    ensures BruteAll(cfg, h, s, t) == Drive(h, s, Candidates(cfg.alph, Start(cfg, t), t.from, t.upTo))
  {
    RecMeetsSpec(cfg.alph, h, t.from, t.upTo, s, Start(cfg, t));
  }

  /** `brute_all` on the two strategies as written: `brute_iter`'s loop or `brute_rec`'s
      recursion; either way the run `BruteAll` describes. */
  method BruteAllImpl<S>(cfg: Config, h: Handler<S>, s: S, t: Task) returns (r: Run<S>)
    requires Runnable(cfg, t)
    ensures r == BruteAll(cfg, h, s, t)
    ensures r == Drive(h, s, Candidates(cfg.alph, Start(cfg, t), t.from, t.upTo))
  {
    BruteAllSpec(cfg, h, s, t);
    match cfg.bruteMode
    case Iterative =>
      var s', found, calls, _ := BruteIter(cfg.alph, h, cfg.passwordLength, s, t.password, t.from, t.upTo);
      r := Run(s', found, calls);
    case Recursive =>
      r := BruteRec(cfg.alph, h, s, t.password, t.from, t.upTo).AsRun();
  }

  /** On a task whose buffer is already NUL at `password_length`, the terminator `brute_iter`
      writes changes nothing, so both strategies make the same calls. */
  lemma StrategiesAgree<S>(cfg: Config, h: Handler<S>, s: S, t: Task)
    requires Runnable(cfg, t) && t.upTo <= cfg.passwordLength
    requires t.password[cfg.passwordLength] == '\0'
    ensures Start(cfg, t) == t.password
    ensures BruteAll(cfg.(bruteMode := Iterative), h, s, t) == BruteAll(cfg.(bruteMode := Recursive), h, s, t)
  {
    assert t.password[cfg.passwordLength := '\0'] == t.password;
    var ci, cr := cfg.(bruteMode := Iterative), cfg.(bruteMode := Recursive);
    assert Start(ci, t) == t.password == Start(cr, t);
  }

  // ---------------------------------------------------------------------------------------
  // `run_single`

  /** The task `run_single` and `run_multi` build for length `upTo`: a zero-initialised
      password, terminated at `upTo`, with the range `[0, upTo)` to fill (brute.c:269-273,
      brute.c:292-296). */
  function FreshTask(upTo: nat): (t: Task)
    requires upTo <= MAX_LENGTH
    ensures t.from == 0 && t.upTo == upTo
    ensures forall j :: 0 <= j < BUFFER_SIZE ==> t.password[j] == '\0'
  {
    Task(Blank()[upTo := '\0'], 0, upTo)
  }

  /** The iterations of `run_single`'s loop from length `upTo` on: each length up to
      `password_length` gets a full `brute_all` with `check`, found or not. */
  function SingleFrom(cfg: Config, verify: string -> bool, upTo: nat, res: SearchResult): SearchResult
    requires ValidConfig(cfg)
    decreases cfg.passwordLength + 1 - upTo
  {
    if upTo > cfg.passwordLength then res
    else SingleFrom(cfg, verify, upTo + 1, BruteAll(cfg, Check(verify), res, FreshTask(upTo)).state)
  }

  /** `run_single`: every length from 0 to `password_length`, inclusive. */
  function RunSingle(cfg: Config, verify: string -> bool): SearchResult
    requires ValidConfig(cfg)
  {
    SingleFrom(cfg, verify, 0, NotFound)
  }

  /** The terminated zero buffer is the zero buffer, and it holds the empty word. */
  lemma FreshTaskStart(cfg: Config, upTo: nat)
    requires ValidConfig(cfg) && upTo <= cfg.passwordLength
    ensures Runnable(cfg, FreshTask(upTo))
    ensures Start(cfg, FreshTask(upTo)) == Blank()
    ensures Holds(cfg.alph, Blank(), 0)
  {
    assert Blank()[upTo := '\0'] == Blank();
    assert Blank()[cfg.passwordLength := '\0'] == Blank();
  }

  /** The loop from `upTo` on keeps the result sound. */
  lemma {:induction false} SingleFromSound(cfg: Config, verify: string -> bool, upTo: nat, res: SearchResult)
    requires ValidConfig(cfg) && Sound(verify, cfg.alph, 0, cfg.passwordLength, res)
    ensures Sound(verify, cfg.alph, 0, cfg.passwordLength, SingleFrom(cfg, verify, upTo, res))
    decreases cfg.passwordLength + 1 - upTo
  {
    if upTo <= cfg.passwordLength {
      var res' := BruteAll(cfg, Check(verify), res, FreshTask(upTo)).state;
      assert Sound(verify, cfg.alph, 0, cfg.passwordLength, res') by {
        SingleLevel(cfg, verify, upTo, res);
      }
      assert SingleFrom(cfg, verify, upTo, res) == SingleFrom(cfg, verify, upTo + 1, res');
      SingleFromSound(cfg, verify, upTo + 1, res');
    }
  }

  /** Some word over the alphabet with a length in `[lo, hi]` is accepted. */
  ghost predicate AcceptedWithin(verify: string -> bool, alph: seq<char>, lo: int, hi: int)
  {
    exists w :: IsWord(alph, w) && lo <= |w| <= hi && verify(w)
  }

  /** The loop from `upTo` on finds exactly the accepted words of length `upTo` to
      `password_length`. */
  lemma {:induction false} SingleFromSpec(cfg: Config, verify: string -> bool, upTo: nat, res: SearchResult)
    requires ValidConfig(cfg) && Sound(verify, cfg.alph, 0, cfg.passwordLength, res)
    ensures SingleFrom(cfg, verify, upTo, res).found <==>
      res.found || AcceptedWithin(verify, cfg.alph, upTo, cfg.passwordLength)
    decreases cfg.passwordLength + 1 - upTo
  {
    var alph, pl := cfg.alph, cfg.passwordLength;
    if upTo <= pl {
      var res' := BruteAll(cfg, Check(verify), res, FreshTask(upTo)).state;
      var exact, longer := AcceptedWithin(verify, alph, upTo, upTo), AcceptedWithin(verify, alph, upTo + 1, pl);
      assert Sound(verify, alph, 0, pl, res') && (res'.found <==> res.found || exact) by {
        SingleLevel(cfg, verify, upTo, res);
      }
      var r := SingleFrom(cfg, verify, upTo + 1, res');
      assert SingleFrom(cfg, verify, upTo, res) == r;
      assert r.found <==> res'.found || longer by {
        SingleFromSpec(cfg, verify, upTo + 1, res');
      }
      assert AcceptedWithin(verify, alph, upTo, pl) <==> exact || longer by {
        LengthSplit(verify, alph, upTo, pl);
      }
    } else {
      assert SingleFrom(cfg, verify, upTo, res) == res;
      assert !AcceptedWithin(verify, alph, upTo, pl);
    }
  }

  /** An accepted word with a length in `[lo, hi]` has length `lo` or a length in `[lo + 1, hi]`. */
  lemma LengthSplit(verify: string -> bool, alph: seq<char>, lo: int, hi: int)
    requires lo <= hi
    ensures AcceptedWithin(verify, alph, lo, hi) <==>
      AcceptedWithin(verify, alph, lo, lo) || AcceptedWithin(verify, alph, lo + 1, hi)
  {
    if AcceptedWithin(verify, alph, lo, hi) {
      var w :| IsWord(alph, w) && lo <= |w| <= hi && verify(w);
      assert |w| == lo || lo + 1 <= |w| <= hi;
    }
  }

  /** One iteration of `run_single`'s loop: the run over length `upTo` adds exactly the accepted
      words of that length, and keeps the result sound. */
  lemma SingleLevel(cfg: Config, verify: string -> bool, upTo: nat, res: SearchResult)
    requires ValidConfig(cfg) && upTo <= cfg.passwordLength
    requires Sound(verify, cfg.alph, 0, cfg.passwordLength, res)
    ensures var r := BruteAll(cfg, Check(verify), res, FreshTask(upTo)).state;
      && Sound(verify, cfg.alph, 0, cfg.passwordLength, r)
      && (r.found <==> res.found || AcceptedWithin(verify, cfg.alph, upTo, upTo))
  {
    var alph, pl, t := cfg.alph, cfg.passwordLength, FreshTask(upTo);
    var cands := Candidates(alph, Blank(), 0, upTo);
    assert Runnable(cfg, t) && Start(cfg, t) == Blank() && Holds(alph, Blank(), 0) by {
      FreshTaskStart(cfg, upTo);
    }
    var r := BruteAll(cfg, Check(verify), res, t).state;
    assert r == Drive(Check(verify), res, cands).state by {
      BruteAllSpec(cfg, Check(verify), res, t);
    }
    var blank := exists w :: IsWord(alph, w) && |w| == upTo - 0 && verify(Blank()[..0] + w);
    assert Sound(verify, alph, 0, pl, r) && (r.found <==> res.found || blank) by {
      CheckLevel(verify, alph, res, Blank(), 0, upTo, 0, pl);
    }
    BlankWords(alph, verify, upTo);
  }

  /** Extending the empty word before position 0 is taking the word itself. */
  lemma BlankWords(alph: seq<char>, verify: string -> bool, n: nat)
    ensures (exists w :: IsWord(alph, w) && |w| == n - 0 && verify(Blank()[..0] + w)) <==>
      AcceptedWithin(verify, alph, n, n)
  {
    assert forall w: seq<char> {:trigger Blank()[..0] + w} :: Blank()[..0] + w == w;
  }

  /** `run_single` reports found exactly when some word over the alphabet of at most
      `password_length` symbols (the empty word included) is accepted, and what it reports is
      such a word. */
  lemma SingleCorrect(cfg: Config, verify: string -> bool)
    requires ValidConfig(cfg)
    ensures var r := RunSingle(cfg, verify);
      && Sound(verify, cfg.alph, 0, cfg.passwordLength, r)
      && (r.found <==> exists w :: IsWord(cfg.alph, w) && |w| <= cfg.passwordLength && verify(w))
  {
    SingleFromSound(cfg, verify, 0, NotFound);
    SingleFromSpec(cfg, verify, 0, NotFound);
    assert AcceptedWithin(verify, cfg.alph, 0, cfg.passwordLength) <==>
      exists w :: IsWord(cfg.alph, w) && |w| <= cfg.passwordLength && verify(w);
  }
}
