/** Mixed-radix digit vectors in the order the candidate generator visits them.

    A candidate over an alphabet of size `base` filling `n` positions is identified by the
    vector of alphabet indices it uses.  `Tuples(base, n)` lists every such vector in
    lexicographic order, the last position varying fastest, which is the order of both the
    depth-first fill and the odometer of brute.c.
 */
module Enumeration {

  datatype Option<T> = None | Some(value: T)

  function Pow(base: nat, n: nat): nat
  {
    if n == 0 then 1 else base * Pow(base, n - 1)
  }

  /** Every digit of `d` is an index into an alphabet of size `base`. */
  predicate InRange(base: nat, d: seq<nat>)
  {
    forall j :: 0 <= j < |d| ==> d[j] < base
  }

  /** Every vector of `ts` has `n` digits, each below `base`. */
  predicate Shaped(base: nat, n: nat, ts: seq<seq<nat>>)
  {
    forall k :: 0 <= k < |ts| ==> |ts[k]| == n && InRange(base, ts[k])
  }

  function Zeros(n: nat): seq<nat>
  {
    seq(n, _ => 0)
  }

  lemma ZerosCons(n: nat)
    requires n > 0
    ensures [0] + Zeros(n - 1) == Zeros(n)
  {
    assert forall j :: 0 <= j < n ==> ([0] + Zeros(n - 1))[j] == Zeros(n)[j];
  }

  function Prepend(x: nat, ts: seq<seq<nat>>): seq<seq<nat>>
  {
    seq(|ts|, k requires 0 <= k < |ts| => [x] + ts[k])
  }

  /** The vectors `[y] + t` for `y` from `x` up to `base - 1` and `t` in `ts`, `y` varying slowest. */
  function Layer(base: nat, n: nat, ts: seq<seq<nat>>, x: nat): (r: seq<seq<nat>>)
    requires Shaped(base, n, ts)
    ensures Shaped(base, n + 1, r)
    decreases base - x
  {
    if x >= base then [] else Prepend(x, ts) + Layer(base, n, ts, x + 1)
  }

  /** All digit vectors of length `n` over `[0, base)` in lexicographic order. */
  function Tuples(base: nat, n: nat): (r: seq<seq<nat>>)
    ensures Shaped(base, n, r)
  {
    if n == 0 then [[]] else Layer(base, n - 1, Tuples(base, n - 1), 0)
  }

  /** One odometer step: the rightmost digit that is not the last symbol is advanced and every
      digit to its right is reset to zero; `None` when every digit is the last symbol. */
  function Inc(base: nat, d: seq<nat>): Option<seq<nat>>
    decreases |d|
  {
    if |d| == 0 then None
    else if d[|d| - 1] != base - 1 then Some(d[..|d| - 1] + [d[|d| - 1] + 1])
    else
      match Inc(base, d[..|d| - 1])
      case None => None
      case Some(p) => Some(p + [0])
  }

  /** Consecutive vectors of `ts` are one odometer step apart. */
  predicate Chain(base: nat, ts: seq<seq<nat>>)
  {
    forall k :: 0 <= k < |ts| - 1 ==> Inc(base, ts[k]) == Some(ts[k + 1])
  }

  /** Strict lexicographic order on digit vectors, first digit most significant. */
  predicate LexLess(a: seq<nat>, b: seq<nat>)
    decreases |a|
  {
    && |a| > 0 && |b| > 0
    && (a[0] < b[0] || (a[0] == b[0] && LexLess(a[1..], b[1..])))
  }

  predicate StrictlySorted(ts: seq<seq<nat>>)
  {
    forall i, j :: 0 <= i < j < |ts| ==> LexLess(ts[i], ts[j])
  }

  /** A layer from digit `x` on holds `base - x` copies of `ts`. */
  lemma {:induction false} LayerCount(base: nat, n: nat, ts: seq<seq<nat>>, x: nat)
    requires Shaped(base, n, ts) && x <= base
    ensures |Layer(base, n, ts, x)| == (base - x) * |ts|
    decreases base - x
  {
    if x < base {
      LayerCount(base, n, ts, x + 1);
      assert (base - x) * |ts| == |ts| + (base - (x + 1)) * |ts|;
    }
  }

  /** There are base^n digit vectors of length n. */
  lemma {:induction false} TuplesCount(base: nat, n: nat)
    ensures |Tuples(base, n)| == Pow(base, n)
  {
    if n > 0 {
      TuplesCount(base, n - 1);
      LayerCount(base, n - 1, Tuples(base, n - 1), 0);
    }
  }

  lemma {:induction false} LexLessIrreflexive(a: seq<nat>)
    ensures !LexLess(a, a)
    decreases |a|
  {
    if |a| > 0 {
      LexLessIrreflexive(a[1..]);
    }
  }

  // ---------------------------------------------------------------------------------------
  // Order: the enumeration is strictly increasing, hence free of duplicates.

  lemma {:induction false} LayerSorted(base: nat, n: nat, ts: seq<seq<nat>>, x: nat)
    requires Shaped(base, n, ts) && StrictlySorted(ts)
    ensures var r := Layer(base, n, ts, x);
      && StrictlySorted(r)
      && forall k :: 0 <= k < |r| ==> x <= r[k][0]
    decreases base - x
  {
    if x < base {
      var p := Prepend(x, ts);
      var rest := Layer(base, n, ts, x + 1);
      LayerSorted(base, n, ts, x + 1);
      var r := p + rest;
      assert r == Layer(base, n, ts, x);
      forall i, j | 0 <= i < j < |r|
        ensures LexLess(r[i], r[j])
      {
        if j < |p| {
          assert r[i] == [x] + ts[i] && r[j] == [x] + ts[j];
          assert r[i][1..] == ts[i] && r[j][1..] == ts[j];
        } else if i < |p| {
          assert r[i][0] == x;
          assert r[j] == rest[j - |p|];
        } else {
          assert r[i] == rest[i - |p|] && r[j] == rest[j - |p|];
        }
      }
    }
  }

  /** Lexicographic order, strictly: the k-th vector precedes the (k+1)-th and all later ones. */
  lemma {:induction false} TuplesSorted(base: nat, n: nat)
    ensures StrictlySorted(Tuples(base, n))
  {
    if n > 0 {
      TuplesSorted(base, n - 1);
      LayerSorted(base, n - 1, Tuples(base, n - 1), 0);
    }
  }

  /** No digit vector is listed twice. */
  lemma TuplesDistinct(base: nat, n: nat)
    ensures forall i, j :: 0 <= i < j < |Tuples(base, n)| ==> Tuples(base, n)[i] != Tuples(base, n)[j]
  {
    var ts := Tuples(base, n);
    TuplesSorted(base, n);
    forall i, j | 0 <= i < j < |ts|
      ensures ts[i] != ts[j]
    {
      LexLessIrreflexive(ts[i]);
      assert LexLess(ts[i], ts[j]);
    }
  }

  // ---------------------------------------------------------------------------------------
  // Completeness: every digit vector is listed.

  lemma {:induction false} LayerContains(base: nat, n: nat, ts: seq<seq<nat>>, x: nat, y: nat, k: nat)
    requires Shaped(base, n, ts)
    requires x <= y < base && k < |ts|
    ensures [y] + ts[k] in Layer(base, n, ts, x)
    decreases y - x
  {
    var p := Prepend(x, ts);
    assert Layer(base, n, ts, x) == p + Layer(base, n, ts, x + 1);
    if y == x {
      assert p[k] == [y] + ts[k];
    } else {
      LayerContains(base, n, ts, x + 1, y, k);
    }
  }

  /** Prefixing a listed vector with a digit gives a listed vector one longer. */
  lemma TuplesPrepend(base: nat, n: nat, y: nat, t: seq<nat>)
    requires y < base && t in Tuples(base, n)
    ensures [y] + t in Tuples(base, n + 1)
  {
    var ts := Tuples(base, n);
    var k :| 0 <= k < |ts| && ts[k] == t;
    LayerContains(base, n, ts, 0, y, k);
  }

  /** Every digit vector over `[0, base)` is listed. */
  lemma {:induction false} TuplesComplete(base: nat, d: seq<nat>)
    requires InRange(base, d)
    ensures d in Tuples(base, |d|)
    decreases |d|
  {
    if |d| > 0 {
      var tail := d[1..];
      assert InRange(base, tail) by {
        forall j | 0 <= j < |tail| ensures tail[j] < base { assert tail[j] == d[j + 1]; }
      }
      TuplesComplete(base, tail);
      TuplesPrepend(base, |tail|, d[0], tail);
      assert d == [d[0]] + tail;
    }
  }

  // ---------------------------------------------------------------------------------------
  // The odometer view: the first vector is all zeros, each next one is one `Inc` step away,
  // and `Inc` carries out of the last one.

  lemma {:induction false} IncPrepend(base: nat, x: nat, t: seq<nat>)
    ensures Inc(base, [x] + t) ==
      match Inc(base, t)
      case Some(u) => Some([x] + u)
      case None => if x != base - 1 then Some([x + 1] + Zeros(|t|)) else None
    decreases |t|
  {
    var xt := [x] + t;
    if |t| == 0 {
      assert xt[..|xt| - 1] == [] && xt[|xt| - 1] == x;
      assert Inc(base, []) == None;
      assert [] + [x + 1] == [x + 1] + Zeros(0);
    } else {
      var last := |t| - 1;
      assert xt[..|xt| - 1] == [x] + t[..last];
      assert xt[|xt| - 1] == t[last];
      IncPrepend(base, x, t[..last]);
      if t[last] != base - 1 {
        assert [x] + t[..last] + [t[last] + 1] == [x] + (t[..last] + [t[last] + 1]);
      } else {
        match Inc(base, t[..last])
        case Some(u) =>
          assert [x] + u + [0] == [x] + (u + [0]);
        case None =>
          assert [x + 1] + Zeros(last) + [0] == [x + 1] + Zeros(|t|);
      }
    }
  }

  lemma {:induction false} ChainAppend(base: nat, xs: seq<seq<nat>>, ys: seq<seq<nat>>)
    requires Chain(base, xs) && Chain(base, ys)
    requires |xs| > 0 && |ys| > 0 && Inc(base, xs[|xs| - 1]) == Some(ys[0])
    ensures Chain(base, xs + ys)
  {
    var r := xs + ys;
    forall k | 0 <= k < |r| - 1
      ensures Inc(base, r[k]) == Some(r[k + 1])
    {
      if k < |xs| - 1 {
        assert r[k] == xs[k] && r[k + 1] == xs[k + 1];
      } else if k == |xs| - 1 {
        assert r[k] == xs[k] && r[k + 1] == ys[0];
      } else {
        assert r[k] == ys[k - |xs|] && r[k + 1] == ys[k + 1 - |xs|];
      }
    }
  }

  lemma {:induction false} LayerOdometer(base: nat, n: nat, ts: seq<seq<nat>>, x: nat)
    requires Shaped(base, n, ts) && |ts| > 0
    requires ts[0] == Zeros(n) && Chain(base, ts) && Inc(base, ts[|ts| - 1]) == None
    requires x < base
    ensures var r := Layer(base, n, ts, x);
      && |r| > 0
      && r[0] == [x] + Zeros(n)
      && Chain(base, r)
      && Inc(base, r[|r| - 1]) == None
    decreases base - x
  {
    var p := Prepend(x, ts);
    var rest := Layer(base, n, ts, x + 1);
    assert Layer(base, n, ts, x) == p + rest;
    forall k | 0 <= k < |p| - 1
      ensures Inc(base, p[k]) == Some(p[k + 1])
    {
      IncPrepend(base, x, ts[k]);
    }
    var lastT := ts[|ts| - 1];
    IncPrepend(base, x, lastT);
    assert p[|p| - 1] == [x] + lastT;
    assert |lastT| == n;
    if x + 1 == base {
      assert rest == [];
      assert p + rest == p;
    } else {
      LayerOdometer(base, n, ts, x + 1);
      ChainAppend(base, p, rest);
      assert (p + rest)[|p + rest| - 1] == rest[|rest| - 1];
    }
  }

  /** The enumeration read as an odometer: it starts at all zeros, each vector is one carry
      step after the previous one, and the carry runs off the left end only after the last. */
  lemma {:induction false} TuplesOdometer(base: nat, n: nat)
    requires base > 0
    ensures var ts := Tuples(base, n);
      && |ts| > 0
      && ts[0] == Zeros(n)
      && Chain(base, ts)
      && Inc(base, ts[|ts| - 1]) == None
  {
    if n == 0 {
      assert Tuples(base, 0) == [[]];
      assert Zeros(0) == [];
    } else {
      var r := Layer(base, n - 1, Tuples(base, n - 1), 0);
      assert Tuples(base, n) == r;
      TuplesOdometer(base, n - 1);
      LayerOdometer(base, n - 1, Tuples(base, n - 1), 0);
      assert r[0] == Zeros(n) by {
        ZerosCons(n);
      }
    }
  }

  /** The odometer step in the shape the carry loop of brute_iter produces: digits right of `j`
      are the last symbol and reset to zero, digit `j` is advanced, digits left of it stay. */
  lemma {:induction false} IncCarry(base: nat, d: seq<nat>, j: nat)
    requires j < |d| && d[j] != base - 1
    requires forall i :: j < i < |d| ==> d[i] == base - 1
    ensures Inc(base, d) == Some(d[..j] + [d[j] + 1] + Zeros(|d| - j - 1))
    decreases |d|
  {
    var last := |d| - 1;
    if j == last {
      assert d[..j] + [d[j] + 1] + Zeros(0) == d[..last] + [d[last] + 1];
    } else {
      var init := d[..last];
      assert init[..j] == d[..j] && init[j] == d[j];
      IncCarry(base, init, j);
      assert d[..j] + [d[j] + 1] + Zeros(last - j - 1) + [0] == d[..j] + [d[j] + 1] + Zeros(|d| - j - 1);
    }
  }

  /** When every digit is the last symbol the carry runs off the left end. */
  lemma {:induction false} IncOverflow(base: nat, d: seq<nat>)
    requires forall i :: 0 <= i < |d| ==> d[i] == base - 1
    ensures Inc(base, d) == None
    decreases |d|
  {
    if |d| > 0 {
      IncOverflow(base, d[..|d| - 1]);
    }
  }

  /** The odometer step carries out of the k-th vector exactly when it is the last one. */
  lemma TuplesIncNone(base: nat, n: nat, k: nat)
    requires base > 0
    requires k < |Tuples(base, n)|
    ensures Inc(base, Tuples(base, n)[k]).None? <==> k == |Tuples(base, n)| - 1
    ensures k < |Tuples(base, n)| - 1 ==> Inc(base, Tuples(base, n)[k]) == Some(Tuples(base, n)[k + 1])
  {
    var ts := Tuples(base, n);
    TuplesOdometer(base, n);
    if k < |ts| - 1 {
      assert Inc(base, ts[k]) == Some(ts[k + 1]);
    }
  }
}
