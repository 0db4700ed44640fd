/** The candidate generator of brute.c: its specification and its recursive strategy.

    A task is a password buffer plus a half-open range `[from, to)`.  The generator writes every
    combination of alphabet symbols into positions `from .. to - 1` and hands each filled buffer
    to a handler, stopping as soon as the handler leaves the shared `found` flag set.  The
    handler is modelled as a state transformer plus the `found` reading of the state: both
    handlers of brute.c update the context and return `result.found`, which is all either
    strategy looks at.
 */
module Generator {
  import opened Enumeration

  /** Longest password the buffer holds (brute.c:13). */
  const MAX_LENGTH: nat := 15

  /** `password_t` is `char[MAX_LENGTH + 1]` (brute.c:33). */
  const BUFFER_SIZE: nat := MAX_LENGTH + 1

  type Buffer = b: seq<char> | |b| == BUFFER_SIZE witness seq(BUFFER_SIZE, _ => '\0')

  /** The all-NUL buffer a zero-initialised `password_t` holds. */
  function Blank(): (b: Buffer)
    ensures forall j :: 0 <= j < BUFFER_SIZE ==> b[j] == '\0'
  {
    seq(BUFFER_SIZE, _ => '\0')
  }

  /** A handler: how one call changes the state, and how the generator reads `found` from it. */
  datatype Handler<!S> = Handler(step: (S, Buffer) -> S, found: S -> bool)

  /** What a generator run amounts to: the final state, the value it returns, and the buffers
      it handed to the handler, in order. */
  datatype Run<S> = Run(state: S, found: bool, calls: seq<Buffer>)

  /** A run of a concrete strategy, which in addition leaves the buffer in some state. */
  datatype Outcome<S> = Outcome(state: S, found: bool, calls: seq<Buffer>, buf: Buffer)
  {
    function AsRun(): Run<S>
    {
      Run(state, found, calls)
    }
  }

  // ---------------------------------------------------------------------------------------
  // Specification

  /** The symbols a digit vector selects from the alphabet. */
  function Spell(alph: seq<char>, d: seq<nat>): seq<char>
    requires InRange(|alph|, d)
  {
    seq(|d|, j requires 0 <= j < |d| => alph[d[j]])
  }

  /** `buf` with `w` written from position `from` on. */
  function Fill(buf: Buffer, from: nat, w: seq<char>): Buffer
    requires from + |w| <= BUFFER_SIZE
  {
    buf[..from] + w + buf[from + |w|..]
  }

  /** The buffers obtained by writing each vector of `ts` into `buf` from position `from` on. */
  function Render(alph: seq<char>, buf: Buffer, from: nat, n: nat, ts: seq<seq<nat>>): seq<Buffer>
    requires from + n <= BUFFER_SIZE && Shaped(|alph|, n, ts)
  {
    seq(|ts|, k requires 0 <= k < |ts| => Fill(buf, from, Spell(alph, ts[k])))
  }

  /** Every filling of `[from, to)` of `buf`, in the order the generator must present them. */
  function Candidates(alph: seq<char>, buf: Buffer, from: nat, upTo: nat): seq<Buffer>
    requires from <= upTo <= BUFFER_SIZE
  {
    Render(alph, buf, from, upTo - from, Tuples(|alph|, upTo - from))
  }

  /** Hand `bufs` to the handler in order, stopping right after the first call that leaves
      `found` set. */
  function Drive<S>(h: Handler<S>, s: S, bufs: seq<Buffer>): Run<S>
    decreases |bufs|
  {
    if |bufs| == 0 then Run(s, false, [])
    else
      var s' := h.step(s, bufs[0]);
      if h.found(s') then Run(s', true, [bufs[0]])
      else
        var rest := Drive(h, s', bufs[1..]);
        Run(rest.state, rest.found, [bufs[0]] + rest.calls)
  }

  /** The state after handing every one of `bufs` to the handler, without stopping. */
  function Fold<S>(h: Handler<S>, s: S, bufs: seq<Buffer>): S
    decreases |bufs|
  {
    if |bufs| == 0 then s else Fold(h, h.step(s, bufs[0]), bufs[1..])
  }

  // ---------------------------------------------------------------------------------------
  // The recursive strategy, `rec` and `brute_rec` (brute.c:146-165)

  /** `rec(pos, ...)`: at `pos >= to` call the handler once and return `found`; otherwise try
      every symbol at `pos` in alphabet order and recurse, returning true as soon as a
      recursive call does. */
  function Rec<S>(alph: seq<char>, h: Handler<S>, pos: nat, upTo: nat, s: S, buf: Buffer): (r: Outcome<S>)
    requires pos <= upTo <= BUFFER_SIZE
    ensures r.buf[..pos] == buf[..pos] && r.buf[upTo..] == buf[upTo..]
    ensures r.found ==> h.found(r.state)
    ensures !r.found && |r.calls| > 0 ==> !h.found(r.state)
    ensures |r.calls| == 0 ==> r.state == s && !r.found
    decreases upTo - pos, 1
  {
    if pos >= upTo then
      var s' := h.step(s, buf);
      Outcome(s', h.found(s'), [buf], buf)
    else
      RecLoop(alph, h, pos, upTo, 0, s, buf)
  }

  /** The `for (i = ...; i < alph_size; i++)` loop of `rec` from symbol `i` on. */
  function RecLoop<S>(alph: seq<char>, h: Handler<S>, pos: nat, upTo: nat, i: nat, s: S, buf: Buffer): (r: Outcome<S>)
    requires pos < upTo <= BUFFER_SIZE
    ensures r.buf[..pos] == buf[..pos] && r.buf[upTo..] == buf[upTo..]
    ensures r.found ==> h.found(r.state)
    ensures !r.found && |r.calls| > 0 ==> !h.found(r.state)
    ensures |r.calls| == 0 ==> r.state == s && !r.found
    decreases upTo - pos, 0, |alph| - i
  {
    if i >= |alph| then Outcome(s, false, [], buf)
    else
      var inner := Rec(alph, h, pos + 1, upTo, s, buf[pos := alph[i]]);
      assert inner.buf[..pos] == buf[..pos] by {
        assert inner.buf[..pos] == inner.buf[..pos + 1][..pos];
      }
      if inner.found then inner
      else
        var rest := RecLoop(alph, h, pos, upTo, i + 1, inner.state, inner.buf);
        Outcome(rest.state, rest.found, inner.calls + rest.calls, rest.buf)
  }

  function BruteRec<S>(alph: seq<char>, h: Handler<S>, s: S, buf: Buffer, from: nat, upTo: nat): Outcome<S>
    requires from <= upTo <= BUFFER_SIZE
  {
    Rec(alph, h, from, upTo, s, buf)
  }

  // ---------------------------------------------------------------------------------------
  // Properties of the specification

  /** Handing a concatenation to the handler: the second part is reached only if the first
      part did not set `found`. */
  lemma {:induction false} DriveAppend<S>(h: Handler<S>, s: S, xs: seq<Buffer>, ys: seq<Buffer>)
    ensures var a := Drive(h, s, xs);
      var b := Drive(h, a.state, ys);
      Drive(h, s, xs + ys) == if a.found then a else Run(b.state, b.found, a.calls + b.calls)
    decreases |xs|
  {
    if |xs| == 0 {
      assert xs + ys == ys;
    } else {
      assert (xs + ys)[0] == xs[0];
      assert (xs + ys)[1..] == xs[1..] + ys;
      var s' := h.step(s, xs[0]);
      if !h.found(s') {
        DriveAppend(h, s', xs[1..], ys);
      }
    }
  }

  /** Short-circuit, against the non-stopping reference `Fold`: the buffers handed over are a
      prefix of the candidates, the state is what handing over exactly those produces, no
      handed-over prefix before the last left `found` set, and the run returns `found`. All
      candidates are handed over unless `found` was set. */
  lemma {:induction false} DriveShortCircuit<S>(h: Handler<S>, s: S, bufs: seq<Buffer>)
    ensures var r := Drive(h, s, bufs);
      && |r.calls| <= |bufs| && r.calls == bufs[..|r.calls|]
      && r.state == Fold(h, s, r.calls)
      && (forall j :: 0 < j < |r.calls| ==> !h.found(Fold(h, s, r.calls[..j])))
      && (r.found <==> |r.calls| > 0 && h.found(r.state))
      && (!r.found ==> r.calls == bufs)
    decreases |bufs|
  {
    var r := Drive(h, s, bufs);
    if |bufs| > 0 {
      var s' := h.step(s, bufs[0]);
      if h.found(s') {
        assert r.calls == [bufs[0]] == bufs[..1];
        assert Fold(h, s', []) == s';
      } else {
        var rest := Drive(h, s', bufs[1..]);
        DriveShortCircuit(h, s', bufs[1..]);
        assert r.calls == [bufs[0]] + rest.calls;
        assert r.calls == bufs[..|r.calls|];
        assert r.calls[1..] == rest.calls;
        forall j | 0 < j < |r.calls|
          ensures !h.found(Fold(h, s, r.calls[..j]))
        {
          var pre := r.calls[..j];
          assert pre[0] == bufs[0] && pre[1..] == rest.calls[..j - 1];
          if j == 1 {
            assert Fold(h, s', []) == s';
          }
        }
        if |rest.calls| == 0 {
          assert Fold(h, s', []) == s';
        }
      }
    }
  }

  /** If a call sets `found` exactly when it was set already or the verifier accepts the
      buffer, the run ends with `found` set iff it started so or some candidate is accepted. */
  lemma {:induction false} DriveFound<S>(h: Handler<S>, accepts: Buffer -> bool, s: S, bufs: seq<Buffer>)
    requires forall s', b :: h.found(h.step(s', b)) <==> h.found(s') || accepts(b)
    ensures h.found(Drive(h, s, bufs).state) <==>
      h.found(s) || exists k :: 0 <= k < |bufs| && accepts(bufs[k])
    decreases |bufs|
  {
    if |bufs| > 0 {
      var s' := h.step(s, bufs[0]);
      if !h.found(s') {
        DriveFound(h, accepts, s', bufs[1..]);
        if exists k :: 0 <= k < |bufs| && accepts(bufs[k]) {
          var k :| 0 <= k < |bufs| && accepts(bufs[k]);
          assert k > 0 && bufs[1..][k - 1] == bufs[k];
        }
        if exists k :: 0 <= k < |bufs| - 1 && accepts(bufs[1..][k]) {
          var k :| 0 <= k < |bufs| - 1 && accepts(bufs[1..][k]);
          assert bufs[k + 1] == bufs[1..][k];
        }
      }
    }
  }

  /** Any property of the state that every handler call on one of `bufs` keeps also holds
      after the run. */
  lemma {:induction false} DrivePreserves<S>(h: Handler<S>, inv: S -> bool, s: S, bufs: seq<Buffer>)
    requires inv(s)
    requires forall s', k :: 0 <= k < |bufs| && inv(s') ==> inv(h.step(s', bufs[k]))
    ensures inv(Drive(h, s, bufs).state)
    decreases |bufs|
  {
    if |bufs| > 0 {
      var s' := h.step(s, bufs[0]);
      if !h.found(s') {
        forall s'', k | 0 <= k < |bufs| - 1 && inv(s'')
          ensures inv(h.step(s'', bufs[1..][k]))
        {
          assert bufs[1..][k] == bufs[k + 1];
        }
        DrivePreserves(h, inv, s', bufs[1..]);
      }
    }
  }

  /** The entries a log gains when the buffers `bufs` are handed over one by one. */
  function Entries<T>(entry: Buffer -> T, bufs: seq<Buffer>): (r: seq<T>)
    ensures |r| == |bufs| && forall i :: 0 <= i < |bufs| ==> r[i] == entry(bufs[i])
  {
    seq(|bufs|, i requires 0 <= i < |bufs| => entry(bufs[i]))
  }

  /** A handler whose every call appends one entry, computed from the buffer, to a log kept in
      the state: after the run the log has grown by the entries of exactly the buffers handed
      over. */
  lemma {:induction false} DriveLog<S, T>(h: Handler<S>, log: S -> seq<T>, entry: Buffer -> T, s: S, bufs: seq<Buffer>)
    requires forall s', b :: log(h.step(s', b)) == log(s') + [entry(b)]
    ensures var r := Drive(h, s, bufs);
      log(r.state) == log(s) + Entries(entry, r.calls)
    decreases |bufs|
  {
    if |bufs| > 0 {
      var s' := h.step(s, bufs[0]);
      if h.found(s') {
        assert Entries(entry, [bufs[0]]) == [entry(bufs[0])];
      } else {
        DriveLog(h, log, entry, s', bufs[1..]);
        var rest := Drive(h, s', bufs[1..]);
        assert Entries(entry, [bufs[0]] + rest.calls) == [entry(bufs[0])] + Entries(entry, rest.calls);
      }
    }
  }

  lemma {:induction false} CandidatesCount(alph: seq<char>, buf: Buffer, from: nat, upTo: nat)
    requires from <= upTo <= BUFFER_SIZE
    ensures |Candidates(alph, buf, from, upTo)| == Pow(|alph|, upTo - from)
  {
    TuplesCount(|alph|, upTo - from);
  }

  /** Every candidate keeps the buffer outside `[from, to)` and writes alphabet symbols inside. */
  lemma CandidatesShape(alph: seq<char>, buf: Buffer, from: nat, upTo: nat)
    requires from <= upTo <= BUFFER_SIZE
    ensures forall c :: c in Candidates(alph, buf, from, upTo) ==>
      && c[..from] == buf[..from] && c[upTo..] == buf[upTo..]
      && forall j :: from <= j < upTo ==> c[j] in alph
  {
    var cs := Candidates(alph, buf, from, upTo);
    var ts := Tuples(|alph|, upTo - from);
    forall c | c in cs
      ensures c[..from] == buf[..from] && c[upTo..] == buf[upTo..]
      ensures forall j :: from <= j < upTo ==> c[j] in alph
    {
      var k :| 0 <= k < |cs| && cs[k] == c;
      var w := Spell(alph, ts[k]);
      assert c == buf[..from] + w + buf[upTo..];
      forall j | from <= j < upTo
        ensures c[j] in alph
      {
        assert c[j] == w[j - from] == alph[ts[k][j - from]];
      }
    }
  }

  /** An empty range has exactly one candidate: the buffer itself. */
  lemma EmptyRangeSingleCandidate(alph: seq<char>, buf: Buffer, from: nat)
    requires from <= BUFFER_SIZE
    ensures Candidates(alph, buf, from, from) == [buf]
  {
    assert Tuples(|alph|, 0) == [[]];
    assert Spell(alph, []) == [];
    assert Fill(buf, from, []) == buf;
  }

  // ---------------------------------------------------------------------------------------
  // The recursive strategy meets the specification

  lemma RenderAppend(alph: seq<char>, buf: Buffer, from: nat, n: nat, xs: seq<seq<nat>>, ys: seq<seq<nat>>)
    requires from + n <= BUFFER_SIZE && Shaped(|alph|, n, xs) && Shaped(|alph|, n, ys)
    ensures Shaped(|alph|, n, xs + ys)
    ensures Render(alph, buf, from, n, xs + ys) == Render(alph, buf, from, n, xs) + Render(alph, buf, from, n, ys)
  {
    var zs := xs + ys;
    assert forall k :: 0 <= k < |zs| ==> zs[k] == if k < |xs| then xs[k] else ys[k - |xs|];
  }

  /** Writing `[x] + t` from `pos` is writing symbol `x` at `pos`, then `t` from `pos + 1`. */
  lemma RenderPrepend(alph: seq<char>, buf: Buffer, pos: nat, n: nat, x: nat, ts: seq<seq<nat>>)
    requires pos + n + 1 <= BUFFER_SIZE && Shaped(|alph|, n, ts) && x < |alph|
    ensures Shaped(|alph|, n + 1, Prepend(x, ts))
    ensures Render(alph, buf, pos, n + 1, Prepend(x, ts)) == Render(alph, buf[pos := alph[x]], pos + 1, n, ts)
  {
    var p := Prepend(x, ts);
    var b' := buf[pos := alph[x]];
    forall k | 0 <= k < |ts|
      ensures Fill(buf, pos, Spell(alph, p[k])) == Fill(b', pos + 1, Spell(alph, ts[k]))
    {
      var w := Spell(alph, ts[k]);
      assert Spell(alph, p[k]) == [alph[x]] + w;
      assert b'[..pos + 1] == buf[..pos] + [alph[x]];
      assert b'[pos + 1 + n..] == buf[pos + 1 + n..];
    }
  }

  /** Candidates depend on the buffer only outside the range they fill. */
  lemma RenderFrame(alph: seq<char>, b1: Buffer, b2: Buffer, from: nat, n: nat, ts: seq<seq<nat>>)
    requires from + n <= BUFFER_SIZE && Shaped(|alph|, n, ts)
    requires b1[..from] == b2[..from] && b1[from + n..] == b2[from + n..]
    ensures Render(alph, b1, from, n, ts) == Render(alph, b2, from, n, ts)
  {
  }

  lemma {:induction false} RecMeetsSpec<S>(alph: seq<char>, h: Handler<S>, pos: nat, upTo: nat, s: S, buf: Buffer)
    requires pos <= upTo <= BUFFER_SIZE
    ensures Rec(alph, h, pos, upTo, s, buf).AsRun() == Drive(h, s, Candidates(alph, buf, pos, upTo))
    decreases upTo - pos, 1
  {
    if pos >= upTo {
      EmptyRangeSingleCandidate(alph, buf, pos);
      assert [buf][1..] == [];
    } else {
      RecLoopMeetsSpec(alph, h, pos, upTo, 0, s, buf);
    }
  }

  /** The recursion below `pos` after writing symbol `i` there leaves the buffer outside
      `[pos, upTo)` as it was. */
  lemma InnerFrame<S>(alph: seq<char>, h: Handler<S>, pos: nat, upTo: nat, i: nat, s: S, buf: Buffer)
    requires pos < upTo <= BUFFER_SIZE && i < |alph|
    ensures var inner := Rec(alph, h, pos + 1, upTo, s, buf[pos := alph[i]]);
      inner.buf[..pos] == buf[..pos] && inner.buf[upTo..] == buf[upTo..]
  {
    var b' := buf[pos := alph[i]];
    var inner := Rec(alph, h, pos + 1, upTo, s, b');
    assert inner.buf[..pos] == inner.buf[..pos + 1][..pos];
    assert b'[..pos + 1][..pos] == buf[..pos];
    assert b'[upTo..] == buf[upTo..];
  }

  lemma {:induction false} RecLoopMeetsSpec<S>(alph: seq<char>, h: Handler<S>, pos: nat, upTo: nat, i: nat, s: S, buf: Buffer)
    requires pos < upTo <= BUFFER_SIZE
    ensures var n := upTo - pos - 1;
      RecLoop(alph, h, pos, upTo, i, s, buf).AsRun()
        == Drive(h, s, Render(alph, buf, pos, n + 1, Layer(|alph|, n, Tuples(|alph|, n), i)))
    decreases upTo - pos, 0, |alph| - i
  {
    var n := upTo - pos - 1;
    var ts := Tuples(|alph|, n);
    if i < |alph| {
      var lrest := Layer(|alph|, n, ts, i + 1);
      var b' := buf[pos := alph[i]];
      var first := Candidates(alph, b', pos + 1, upTo);
      var restR := Render(alph, buf, pos, n + 1, lrest);
      assert Render(alph, buf, pos, n + 1, Layer(|alph|, n, ts, i)) == first + restR by {
        var p := Prepend(i, ts);
        assert Layer(|alph|, n, ts, i) == p + lrest;
        RenderPrepend(alph, buf, pos, n, i, ts);
        RenderAppend(alph, buf, pos, n + 1, p, lrest);
      }
      var inner := Rec(alph, h, pos + 1, upTo, s, b');
      assert inner.AsRun() == Drive(h, s, first) by {
        RecMeetsSpec(alph, h, pos + 1, upTo, s, b');
      }
      DriveAppend(h, s, first, restR);
      if !inner.found {
        assert restR == Render(alph, inner.buf, pos, n + 1, lrest) by {
          InnerFrame(alph, h, pos, upTo, i, s, buf);
          assert pos + (n + 1) == upTo;
          RenderFrame(alph, inner.buf, buf, pos, n + 1, lrest);
        }
        RecLoopMeetsSpec(alph, h, pos, upTo, i + 1, inner.state, inner.buf);
      }
    }
  }


  /** Exhaustive enumeration: when the handler never reports found, `brute_rec` calls it
      exactly |alph|^(upTo - from) times, once on every candidate and in candidate order. */
  lemma RecExhaustive<S>(alph: seq<char>, h: Handler<S>, s: S, buf: Buffer, from: nat, upTo: nat)
    requires from <= upTo <= BUFFER_SIZE
    requires forall s', b :: !h.found(h.step(s', b))
    ensures var r := BruteRec(alph, h, s, buf, from, upTo);
      && !r.found
      && r.calls == Candidates(alph, buf, from, upTo)
      && |r.calls| == Pow(|alph|, upTo - from)
  {
    RecMeetsSpec(alph, h, from, upTo, s, buf);
    DriveNeverFound(h, s, Candidates(alph, buf, from, upTo));
    CandidatesCount(alph, buf, from, upTo);
  }

  /** A handler that never reports found is handed every buffer. */
  lemma {:induction false} DriveNeverFound<S>(h: Handler<S>, s: S, bufs: seq<Buffer>)
    requires forall s', b :: !h.found(h.step(s', b))
    ensures Drive(h, s, bufs) == Run(Fold(h, s, bufs), false, bufs)
    decreases |bufs|
  {
    if |bufs| > 0 {
      DriveNeverFound(h, h.step(s, bufs[0]), bufs[1..]);
      assert [bufs[0]] + bufs[1..] == bufs;
    }
  }

  /** Order: the k-th buffer handed over by `brute_rec` carries the k-th digit vector of the
      lexicographic enumeration. `CandidatesDistinct` shows those buffers are pairwise distinct
      when the alphabet has no repeated symbol. */
  lemma RecOrder<S>(alph: seq<char>, h: Handler<S>, s: S, buf: Buffer, from: nat, upTo: nat)
    requires from <= upTo <= BUFFER_SIZE
    ensures var r := BruteRec(alph, h, s, buf, from, upTo);
      var ts := Tuples(|alph|, upTo - from);
      && |r.calls| <= |ts|
      && StrictlySorted(ts)
      && forall k :: 0 <= k < |r.calls| ==> r.calls[k] == Fill(buf, from, Spell(alph, ts[k]))
  {
    var cs := Candidates(alph, buf, from, upTo);
    RecMeetsSpec(alph, h, from, upTo, s, buf);
    DriveShortCircuit(h, s, cs);
    TuplesSorted(|alph|, upTo - from);
  }

  /** Distinct symbols give distinct candidates: no buffer is handed over twice. */
  lemma CandidatesDistinct(alph: seq<char>, buf: Buffer, from: nat, upTo: nat)
    requires from <= upTo <= BUFFER_SIZE
    requires forall i, j :: 0 <= i < j < |alph| ==> alph[i] != alph[j]
    ensures var cs := Candidates(alph, buf, from, upTo);
      forall i, j :: 0 <= i < j < |cs| ==> cs[i] != cs[j]
  {
    var n := upTo - from;
    var ts := Tuples(|alph|, n);
    var cs := Candidates(alph, buf, from, upTo);
    TuplesDistinct(|alph|, n);
    forall i, j | 0 <= i < j < |cs|
      ensures cs[i] != cs[j]
    {
      assert |cs| == |ts|;
      assert ts[i] != ts[j];
      var m :| 0 <= m < n && ts[i][m] != ts[j][m];
      assert cs[i][from + m] == alph[ts[i][m]];
      assert cs[j][from + m] == alph[ts[j][m]];
    }
  }

  /** The alphabet index of a symbol it holds. */
  function IndexOf(alph: seq<char>, c: char): (i: nat)
    requires c in alph
    ensures i < |alph| && alph[i] == c
  {
    if alph[0] == c then 0 else 1 + IndexOf(alph[1..], c)
  }

  /** Every assignment of alphabet symbols to `[from, to)` is a candidate. */
  lemma CandidatesComplete(alph: seq<char>, buf: Buffer, from: nat, w: seq<char>)
    requires from + |w| <= BUFFER_SIZE
    requires forall j :: 0 <= j < |w| ==> w[j] in alph
    ensures Fill(buf, from, w) in Candidates(alph, buf, from, from + |w|)
  {
    var d := seq(|w|, j requires 0 <= j < |w| => IndexOf(alph, w[j]));
    assert InRange(|alph|, d);
    TuplesComplete(|alph|, d);
    var ts := Tuples(|alph|, |w|);
    var k :| 0 <= k < |ts| && ts[k] == d;
    assert Spell(alph, d) == w;
    assert Candidates(alph, buf, from, from + |w|)[k] == Fill(buf, from, w);
  }
}
