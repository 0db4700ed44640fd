/** The iterative strategy of brute.c, `brute_iter` (brute.c:167-191): a mixed-radix odometer
    over the index array `a[]`.  Its postcondition is the strategy equivalence: it hands the
    handler exactly the buffers `brute_rec` hands it, stops at the same call and returns the
    same value.  The one difference in effect is the terminator `brute_iter` writes at
    `password[password_length]` before it starts, so the recursive run it is compared with
    starts from the buffer with that terminator written.
 */
module Odometer {
  import opened Enumeration
  import opened Generator

  /** A buffer known position by position is the buffer `w` is written into. */
  lemma FillPointwise(buf: Buffer, base: Buffer, from: nat, w: seq<char>)
    requires from + |w| <= BUFFER_SIZE
    requires buf[..from] == base[..from] && buf[from + |w|..] == base[from + |w|..]
    requires forall j :: 0 <= j < |w| ==> buf[from + j] == w[j]
    ensures buf == Fill(base, from, w)
  {
    var f := Fill(base, from, w);
    forall p | 0 <= p < BUFFER_SIZE
      ensures buf[p] == f[p]
    {
      if p < from {
        assert buf[p] == buf[..from][p] && f[p] == base[..from][p];
      } else if p < from + |w| {
        assert buf[from + (p - from)] == w[p - from];
      } else {
        assert buf[p] == buf[from + |w|..][p - from - |w|];
        assert f[p] == base[from + |w|..][p - from - |w|];
      }
    }
  }

  /** The k-th candidate read position by position. */
  lemma CandidatePointwise(alph: seq<char>, base: Buffer, from: nat, upTo: nat, k: nat)
    requires from <= upTo <= BUFFER_SIZE && k < |Tuples(|alph|, upTo - from)|
    ensures var c := Candidates(alph, base, from, upTo)[k];
      && c[..from] == base[..from] && c[upTo..] == base[upTo..]
      && forall j :: from <= j < upTo ==> c[j] == alph[Tuples(|alph|, upTo - from)[k][j - from]]
  {
    var d := Tuples(|alph|, upTo - from)[k];
    var w := Spell(alph, d);
    var c := Candidates(alph, base, from, upTo)[k];
    assert c == base[..from] + w + base[upTo..];
    forall j | from <= j < upTo
      ensures c[j] == alph[d[j - from]]
    {
      assert c[j] == w[j - from];
    }
  }

  /** A buffer that agrees with the base outside the range and spells the k-th digit vector
      inside it is the k-th candidate. */
  lemma CandidateFromPointwise(alph: seq<char>, base: Buffer, from: nat, upTo: nat, k: nat, buf: Buffer)
    requires from <= upTo <= BUFFER_SIZE && k < |Tuples(|alph|, upTo - from)|
    requires buf[..from] == base[..from] && buf[upTo..] == base[upTo..]
    requires forall j :: from <= j < upTo ==> buf[j] == alph[Tuples(|alph|, upTo - from)[k][j - from]]
    ensures buf == Candidates(alph, base, from, upTo)[k]
  {
    var d := Tuples(|alph|, upTo - from)[k];
    var w := Spell(alph, d);
    forall j | 0 <= j < |w|
      ensures buf[from + j] == w[j]
    {
      assert buf[from + j] == alph[d[(from + j) - from]];
    }
    FillPointwise(buf, base, from, w);
  }

  /** One handler call on the `k`-th candidate either ends the drive there or leaves the drive
      of the remaining candidates to decide. */
  lemma DriveAdvance<S>(h: Handler<S>, s0: S, s: S, cands: seq<Buffer>, k: nat, calls: seq<Buffer>)
    requires k < |cands| && calls == cands[..k]
    requires Drive(h, s0, cands) == Prefixed(calls, Drive(h, s, cands[k..]))
    ensures calls + [cands[k]] == cands[..k + 1]
    ensures h.found(h.step(s, cands[k])) ==>
      Drive(h, s0, cands) == Run(h.step(s, cands[k]), true, cands[..k + 1])
    ensures !h.found(h.step(s, cands[k])) ==>
      Drive(h, s0, cands) == Prefixed(cands[..k + 1], Drive(h, h.step(s, cands[k]), cands[k + 1..]))
  {
    var s' := h.step(s, cands[k]);
    assert cands[..k + 1] == calls + [cands[k]];
    var r := Drive(h, s, cands[k..]);
    if h.found(s') {
      assert r == Run(s', true, [cands[k]]) by {
        DriveUnfold(h, s, cands, k);
      }
    } else {
      var rest := Drive(h, s', cands[k + 1..]);
      assert r == Prefixed([cands[k]], rest) by {
        DriveUnfold(h, s, cands, k);
      }
      PrefixedTwice(calls, [cands[k]], rest);
    }
  }

  /** A run with the buffers `done` already handed over in front. */
  function Prefixed<S>(done: seq<Buffer>, r: Run<S>): Run<S>
  {
    Run(r.state, r.found, done + r.calls)
  }

  /** Prefixing twice is prefixing with the concatenation. */
  lemma PrefixedTwice<S>(xs: seq<Buffer>, ys: seq<Buffer>, r: Run<S>)
    ensures Prefixed(xs, Prefixed(ys, r)) == Prefixed(xs + ys, r)
  {
    assert xs + (ys + r.calls) == xs + ys + r.calls;
  }

  /** One handler call of a run that starts at candidate `k`. */
  lemma DriveUnfold<S>(h: Handler<S>, s: S, bufs: seq<Buffer>, k: nat)
    requires k < |bufs|
    ensures var s' := h.step(s, bufs[k]);
      Drive(h, s, bufs[k..]) ==
        if h.found(s') then Run(s', true, [bufs[k]]) else Prefixed([bufs[k]], Drive(h, s', bufs[k + 1..]))
  {
    assert bufs[k..][0] == bufs[k] && bufs[k..][1..] == bufs[k + 1..];
  }

  /** The buffer spells, at each position of `[from, upTo)`, the symbol the digit `a[p]` there
      selects, and agrees with `base` everywhere else. */
  predicate Displays(buf: Buffer, base: Buffer, alph: seq<char>, from: nat, upTo: nat, a: seq<nat>)
    requires from <= upTo <= |a| && upTo <= BUFFER_SIZE
  {
    && buf[..from] == base[..from] && buf[upTo..] == base[upTo..]
    && forall j :: from <= j < upTo ==> a[j] < |alph| && buf[j] == alph[a[j]]
  }

  lemma DisplaysCandidate(alph: seq<char>, base: Buffer, from: nat, upTo: nat, a: seq<nat>, k: nat, buf: Buffer)
    requires from <= upTo <= |a| && upTo <= BUFFER_SIZE && k < |Tuples(|alph|, upTo - from)|
    requires a[from..upTo] == Tuples(|alph|, upTo - from)[k]
    ensures Displays(buf, base, alph, from, upTo, a) <==> buf == Candidates(alph, base, from, upTo)[k]
  {
    var d := Tuples(|alph|, upTo - from)[k];
    assert forall j :: from <= j < upTo ==> a[j] == d[j - from];
    CandidatePointwise(alph, base, from, upTo, k);
    if Displays(buf, base, alph, from, upTo, a) {
      CandidateFromPointwise(alph, base, from, upTo, k, buf);
    }
  }

  /** The carry loop of `brute_iter` (brute.c:180-183): walking left from `upTo - 1`, every digit
      holding the last symbol is reset to the first one; stops at the first other digit, or
      one left of `from`. */
  method Carry(alph: seq<char>, a: seq<nat>, buf: Buffer, ghost base: Buffer, from: nat, upTo: nat)
    returns (i: int, a': seq<nat>, buf': Buffer)
    requires |alph| > 0 && from <= upTo <= |a| && upTo <= BUFFER_SIZE
    requires Displays(buf, base, alph, from, upTo, a)
    ensures from - 1 <= i < upTo && |a'| == |a|
    ensures forall j :: from <= j <= i ==> a'[j] == a[j]
    ensures forall j :: i < j < upTo ==> a'[j] == 0 && a[j] == |alph| - 1
    ensures i >= from ==> a[i] != |alph| - 1
    ensures Displays(buf', base, alph, from, upTo, a')
  {
    var last := |alph| - 1;
    a' := a;
    buf' := buf;
    i := upTo - 1;
    while i >= from && a'[i] == last
      invariant from - 1 <= i < upTo
      invariant |a'| == |a|
      invariant forall j :: from <= j <= i ==> a'[j] == a[j]
      invariant forall j :: i < j < upTo ==> a'[j] == 0 && a[j] == last
      invariant Displays(buf', base, alph, from, upTo, a')
    {
      a' := a'[i := 0];
      buf' := buf'[i := alph[0]];
      i := i - 1;
    }
  }

  /** What the carry loop leaves behind, followed by the advance at `i`, is one odometer step. */
  lemma CarryIsInc(base: nat, a: seq<nat>, a': seq<nat>, from: nat, upTo: nat, i: int)
    requires from <= upTo <= |a| == |a'| && from - 1 <= i < upTo
    requires forall j :: from <= j <= i ==> a'[j] == a[j]
    requires forall j :: i < j < upTo ==> a'[j] == 0 && a[j] == base - 1
    requires i >= from ==> a[i] != base - 1
    ensures i < from ==> Inc(base, a[from..upTo]) == None && a'[from..upTo] == Zeros(upTo - from)
    ensures i >= from ==> Inc(base, a[from..upTo]) == Some(a'[i := a[i] + 1][from..upTo])
  {
    var d := a[from..upTo];
    if i < from {
      IncOverflow(base, d);
      assert a'[from..upTo] == Zeros(upTo - from);
    } else {
      var j := i - from;
      IncCarry(base, d, j);
      var e := d[..j] + [d[j] + 1] + Zeros(upTo - i - 1);
      var b := a'[i := a[i] + 1];
      forall m | 0 <= m < upTo - from
        ensures b[from + m] == e[m]
      {
        if m < j {
          assert e[m] == d[..j][m];
        } else if m > j {
          assert e[m] == Zeros(upTo - i - 1)[m - j - 1];
        }
      }
      assert b[from..upTo] == e;
    }
  }

  /** The carry loop and the advance of `brute_iter` (brute.c:180-186) together: one odometer
      step `Inc` on the digits of the range; `more` is false when the carry ran past `from`. */
  method OdometerStep(alph: seq<char>, a: seq<nat>, buf: Buffer, ghost base: Buffer, from: nat, upTo: nat)
    returns (more: bool, a': seq<nat>, buf': Buffer)
    requires |alph| > 0 && from <= upTo <= |a| && upTo <= BUFFER_SIZE
    requires Displays(buf, base, alph, from, upTo, a)
    ensures |a'| == |a| && Displays(buf', base, alph, from, upTo, a')
    ensures more <==> Inc(|alph|, a[from..upTo]).Some?
    ensures more ==> a'[from..upTo] == Inc(|alph|, a[from..upTo]).value
    ensures !more ==> a'[from..upTo] == Zeros(upTo - from)
  {
    var i;
    i, a', buf' := Carry(alph, a, buf, base, from, upTo);
    CarryIsInc(|alph|, a, a', from, upTo, i);
    if i < from {
      more := false;
    } else {
      a' := a'[i := a'[i] + 1];
      buf' := buf'[i := alph[a'[i]]];
      more := true;
    }
  }

  /** The reset at the head of `brute_iter` (brute.c:173-176): starting from whatever digits
      `a0` the uninitialised array holds, every digit of the range becomes 0 and every position
      of the range shows the first symbol. */
  method Reset(alph: seq<char>, passwordLength: nat, a0: seq<nat>, base: Buffer, from: nat, upTo: nat)
    returns (a: seq<nat>, buf: Buffer)
    requires |alph| > 0 && from <= upTo <= passwordLength <= MAX_LENGTH && |a0| == passwordLength
    ensures |a| == passwordLength && a[from..upTo] == Zeros(upTo - from)
    ensures Displays(buf, base, alph, from, upTo, a)
  {
    a := a0;
    buf := base;
    var i := from;
    while i < upTo
      invariant from <= i <= upTo
      invariant |a| == passwordLength
      invariant forall j :: from <= j < i ==> a[j] == 0 && buf[j] == alph[0]
      invariant buf[..from] == base[..from] && buf[i..] == base[i..]
    {
      a := a[i := 0];
      buf := buf[i := alph[0]];
      i := i + 1;
    }
    assert a[from..upTo] == Zeros(upTo - from);
  }

  /** The all-zero digit vector spells the first symbol everywhere in the range. */
  lemma ZerosCandidate(alph: seq<char>, base: Buffer, from: nat, upTo: nat)
    requires |alph| > 0 && from <= upTo <= BUFFER_SIZE
    requires |Tuples(|alph|, upTo - from)| > 0 && Tuples(|alph|, upTo - from)[0] == Zeros(upTo - from)
    ensures Candidates(alph, base, from, upTo)[0] == Fill(base, from, seq(upTo - from, _ => alph[0]))
  {
    var n := upTo - from;
    assert Candidates(alph, base, from, upTo)[0] == Fill(base, from, Spell(alph, Zeros(n)));
    assert Spell(alph, Zeros(n)) == seq(n, _ => alph[0]);
  }

  /** One odometer step of `brute_iter` in terms of the enumeration: from the `k`-th candidate
      it moves to the next one, or, after the last, reports exhaustion and leaves the range
      showing the first symbol everywhere. */
  method Next(alph: seq<char>, a: seq<nat>, buf: Buffer, ghost base: Buffer, from: nat, upTo: nat, ghost k: nat)
    returns (more: bool, a': seq<nat>, buf': Buffer)
    requires |alph| > 0 && from <= upTo <= |a| && upTo <= BUFFER_SIZE
    requires k < |Tuples(|alph|, upTo - from)|
    requires a[from..upTo] == Tuples(|alph|, upTo - from)[k]
    requires buf == Candidates(alph, base, from, upTo)[k]
    ensures |a'| == |a|
    ensures more <==> k + 1 < |Tuples(|alph|, upTo - from)|
    ensures more ==> a'[from..upTo] == Tuples(|alph|, upTo - from)[k + 1]
    ensures more ==> buf' == Candidates(alph, base, from, upTo)[k + 1]
    ensures !more ==> buf' == Fill(base, from, seq(upTo - from, _ => alph[0]))
  {
    ghost var n := upTo - from;
    ghost var ts := Tuples(|alph|, n);
    assert Displays(buf, base, alph, from, upTo, a) by {
      DisplaysCandidate(alph, base, from, upTo, a, k, buf);
    }
    more, a', buf' := OdometerStep(alph, a, buf, base, from, upTo);
    assert (Inc(|alph|, ts[k]).Some? <==> k + 1 < |ts|)
        && (k + 1 < |ts| ==> Inc(|alph|, ts[k]) == Some(ts[k + 1])) by {
      TuplesIncNone(|alph|, n, k);
    }
    if more {
      assert buf' == Candidates(alph, base, from, upTo)[k + 1] by {
        DisplaysCandidate(alph, base, from, upTo, a', k + 1, buf');
      }
    } else {
      assert ts[0] == Zeros(n) by {
        TuplesOdometer(|alph|, n);
      }
      assert buf' == Candidates(alph, base, from, upTo)[0] by {
        DisplaysCandidate(alph, base, from, upTo, a', 0, buf');
      }
      ZerosCandidate(alph, base, from, upTo);
    }
  }

  /** The main loop of `brute_iter` (brute.c:177-187), started on a range reset to the first
      symbol: alternates a handler call with an odometer step, and ends as `Drive` does on the
      candidates of the range. */
  method IterLoop<S>(alph: seq<char>, h: Handler<S>, s0: S, a0: seq<nat>, buf0: Buffer, ghost base: Buffer, from: nat, upTo: nat)
    returns (s: S, found: bool, calls: seq<Buffer>, buf: Buffer)
    requires |alph| > 0 && from <= upTo <= |a0| && upTo <= BUFFER_SIZE
    requires a0[from..upTo] == Zeros(upTo - from) && Displays(buf0, base, alph, from, upTo, a0)
    ensures Drive(h, s0, Candidates(alph, base, from, upTo)) == Run(s, found, calls)
    ensures found ==> |calls| > 0 && buf == calls[|calls| - 1]
    ensures !found ==> buf == Fill(base, from, seq(upTo - from, _ => alph[0]))
  {
    ghost var cands := Candidates(alph, base, from, upTo);
    ghost var count := |Tuples(|alph|, upTo - from)|;
    var a := a0;
    buf := buf0;
    assert a[from..upTo] == Tuples(|alph|, upTo - from)[0] && buf == cands[0] by {
      TuplesOdometer(|alph|, upTo - from);
      DisplaysCandidate(alph, base, from, upTo, a, 0, buf);
    }

    ghost var k := 0;
    s := s0;
    calls := [];
    while true
      invariant 0 <= k < count == |cands| && |a| == |a0|
      invariant a[from..upTo] == Tuples(|alph|, upTo - from)[k]
      invariant buf == cands[k]
      invariant calls == cands[..k]
      invariant Drive(h, s0, cands) == Prefixed(calls, Drive(h, s, cands[k..]))
      decreases count - k
    {
      ghost var s1 := s;
      s := h.step(s, buf);
      DriveAdvance(h, s0, s1, cands, k, calls);
      calls := calls + [buf];
      if h.found(s) {
        found := true;
        return;
      }
      var more;
      more, a, buf := Next(alph, a, buf, base, from, upTo, k);
      if !more {
        assert cands[k + 1..] == [];
        found := false;
        return;
      }
      k := k + 1;
    }
  }

  /** `brute_iter`: terminate the password at `passwordLength`, reset the range to the first
      symbol, then run the odometer loop. It makes the same handler calls, in the same order,
      stopping at the same point, as `brute_rec` on the terminated buffer. */
  method BruteIter<S>(alph: seq<char>, h: Handler<S>, passwordLength: nat, s0: S, buf0: Buffer, from: nat, upTo: nat)
    returns (s: S, found: bool, calls: seq<Buffer>, buf: Buffer)
    requires |alph| > 0
    requires from <= upTo <= passwordLength <= MAX_LENGTH
    ensures var r := BruteRec(alph, h, s0, buf0[passwordLength := '\0'], from, upTo);
      s == r.state && found == r.found && calls == r.calls
    ensures found ==> |calls| > 0 && buf == calls[|calls| - 1]
    ensures !found ==> buf == Fill(buf0[passwordLength := '\0'], from, seq(upTo - from, _ => alph[0]))
  {
    var base: Buffer := buf0[passwordLength := '\0'];
    // `int a[password_length]` is not initialised; the reset does not depend on what it holds.
    var a0: seq<nat> := seq(passwordLength, _ => 0);
    var a;
    a, buf := Reset(alph, passwordLength, a0, base, from, upTo);
    s, found, calls, buf := IterLoop(alph, h, s0, a, buf, base, from, upTo);
    RecMeetsSpec(alph, h, from, upTo, s0, base);
  }
}
