/** The `check` handler of brute.c (brute.c:135-144) and the C-string view of
    a password buffer it works on.

    The hash comparison through `crypt_r` is a parameter: `verify(w)` says
    whether hashing the string `w` with the configured hash as salt gives back
    the configured hash.
 */
module Checker {
  import opened Generator

  /** `result_t` (brute.c:60-63); the password is the C string copied out of the buffer. */
  datatype SearchResult = SearchResult(found: bool, password: string)

  /** The result every run starts from (brute.c:325). */
  const NotFound: SearchResult := SearchResult(false, [])

  /** The C string a `char` array holds: everything before its first NUL. */
  function CStr(s: seq<char>): (w: string)
    ensures |w| <= |s| && w == s[..|w|]
    ensures '\0' !in w
    ensures |w| < |s| ==> s[|w|] == '\0'
    decreases |s|
  {
    if |s| == 0 || s[0] == '\0' then [] else [s[0]] + CStr(s[1..])
  }

  /** One call of `check`: on a match, set `found` and copy the candidate with
      `strncpy(..., sizeof(password) - 1)`, that is at most MAX_LENGTH characters; the flag it
      returns is `found`, whether set now or earlier. */
  function CheckStep(verify: string -> bool, res: SearchResult, buf: Buffer): (r: SearchResult)
    ensures r.found <==> res.found || verify(CStr(buf))
    ensures verify(CStr(buf)) ==> r.password == CStr(buf[..MAX_LENGTH])
    ensures !verify(CStr(buf)) ==> r == res
  {
    if verify(CStr(buf)) then SearchResult(true, CStr(buf[..MAX_LENGTH])) else res
  }

  /** `check` as a handler over the search result. */
  function Check(verify: string -> bool): Handler<SearchResult>
  {
    Handler((res: SearchResult, buf: Buffer) => CheckStep(verify, res, buf), (res: SearchResult) => res.found)
  }

  /** Every symbol of `w` is in the alphabet. */
  predicate IsWord(alph: seq<char>, w: seq<char>)
  {
    forall j :: 0 <= j < |w| ==> w[j] in alph
  }

  /** `buf` holds a word of `n` alphabet symbols followed by NULs only. */
  predicate Holds(alph: seq<char>, buf: Buffer, n: nat)
  {
    && n <= MAX_LENGTH
    && IsWord(alph, buf[..n])
    && forall j :: n <= j < BUFFER_SIZE ==> buf[j] == '\0'
  }

  /** A result that reports success names a word over the alphabet, of length in `[lo, hi]`,
      that the verifier accepts. */
  predicate Sound(verify: string -> bool, alph: seq<char>, lo: int, hi: int, res: SearchResult)
  {
    res.found ==> verify(res.password) && IsWord(alph, res.password) && lo <= |res.password| <= hi
  }

  /** The C string of an array whose first NUL is at `n` (or which has none and length `n`). */
  lemma {:induction false} CStrPrefix(s: seq<char>, n: nat)
    requires n <= |s|
    requires forall j :: 0 <= j < n ==> s[j] != '\0'
    requires n < |s| ==> s[n] == '\0'
    ensures CStr(s) == s[..n]
    decreases n
  {
    if n > 0 {
      CStrPrefix(s[1..], n - 1);
      assert s[..n] == [s[0]] + s[1..][..n - 1];
    }
  }

  /** Over an alphabet without NUL, the C string of a buffer holding a word is that word, and so
      is the C string of its first MAX_LENGTH characters, the part `strncpy` copies. */
  lemma HoldsCStr(alph: seq<char>, buf: Buffer, n: nat)
    requires '\0' !in alph && Holds(alph, buf, n)
    ensures CStr(buf) == buf[..n]
    ensures CStr(buf[..MAX_LENGTH]) == buf[..n]
  {
    forall j | 0 <= j < n
      ensures buf[j] != '\0'
    {
      assert buf[..n][j] == buf[j];
    }
    CStrPrefix(buf, n);
    CStrPrefix(buf[..MAX_LENGTH], n);
  }

  /** `check` run over buffers that each hold a word of length `n`: the run ends with `found`
      exactly when it started so or the verifier accepts one of the words, and it keeps the
      result sound for any length window containing `n`. */
  lemma CheckRun(verify: string -> bool, alph: seq<char>, res: SearchResult, bufs: seq<Buffer>, n: nat, lo: int, hi: int)
    requires '\0' !in alph && n <= MAX_LENGTH
    requires forall k :: 0 <= k < |bufs| ==> Holds(alph, bufs[k], n)
    ensures var r := Drive(Check(verify), res, bufs).state;
      r.found <==> res.found || exists k :: 0 <= k < |bufs| && verify(bufs[k][..n])
    ensures lo <= n <= hi && Sound(verify, alph, lo, hi, res) ==>
      Sound(verify, alph, lo, hi, Drive(Check(verify), res, bufs).state)
  {
    var h := Check(verify);
    var accepts := (b: Buffer) => verify(CStr(b));
    DriveFound(h, accepts, res, bufs);
    forall k | 0 <= k < |bufs|
      ensures accepts(bufs[k]) <==> verify(bufs[k][..n])
    {
      HoldsCStr(alph, bufs[k], n);
    }
    if lo <= n <= hi && Sound(verify, alph, lo, hi, res) {
      var inv := (r: SearchResult) => Sound(verify, alph, lo, hi, r);
      forall r: SearchResult, k | 0 <= k < |bufs| && inv(r)
        ensures inv(h.step(r, bufs[k]))
      {
        HoldsCStr(alph, bufs[k], n);
      }
      DrivePreserves(h, inv, res, bufs);
    }
  }

  /** The candidates of `[from, upTo)` over a buffer holding a word of length `from` hold words
      of length `upTo`. */
  lemma CandidatesHold(alph: seq<char>, base: Buffer, from: nat, upTo: nat)
    requires from <= upTo <= MAX_LENGTH && Holds(alph, base, from)
    ensures forall c :: c in Candidates(alph, base, from, upTo) ==> Holds(alph, c, upTo)
  {
    CandidatesShape(alph, base, from, upTo);
    forall c | c in Candidates(alph, base, from, upTo)
      ensures Holds(alph, c, upTo)
    {
      forall j | 0 <= j < upTo
        ensures c[..upTo][j] in alph
      {
        if j < from {
          assert c[j] == c[..from][j] == base[..from][j];
        }
      }
      forall j | upTo <= j < BUFFER_SIZE
        ensures c[j] == '\0'
      {
        assert c[j] == c[upTo..][j - upTo] == base[upTo..][j - upTo];
      }
    }
  }

  /** Each candidate of `[from, upTo)` is the word before `from` extended by a word of
      `upTo - from` symbols. */
  lemma CandidateIsExtension(alph: seq<char>, base: Buffer, from: nat, upTo: nat, k: nat)
    requires from <= upTo <= MAX_LENGTH && k < |Candidates(alph, base, from, upTo)|
    ensures var c := Candidates(alph, base, from, upTo)[k];
      IsWord(alph, c[from..upTo]) && c[..upTo] == base[..from] + c[from..upTo]
  {
    CandidatesShape(alph, base, from, upTo);
    var c := Candidates(alph, base, from, upTo)[k];
    assert c in Candidates(alph, base, from, upTo);
    var w := c[from..upTo];
    assert c[..upTo] == c[..from] + w;
    forall j | 0 <= j < |w|
      ensures w[j] in alph
    {
      assert w[j] == c[from + j];
    }
  }

  /** Each extension of the word before `from` by a word of `upTo - from` symbols is a
      candidate of `[from, upTo)`. */
  lemma ExtensionIsCandidate(alph: seq<char>, base: Buffer, from: nat, upTo: nat, w: seq<char>) returns (k: nat)
    requires from <= upTo <= MAX_LENGTH && |w| == upTo - from && IsWord(alph, w)
    ensures k < |Candidates(alph, base, from, upTo)|
    ensures Candidates(alph, base, from, upTo)[k][..upTo] == base[..from] + w
  {
    CandidatesComplete(alph, base, from, w);
    var c := Fill(base, from, w);
    var cands := Candidates(alph, base, from, upTo);
    assert cands == Candidates(alph, base, from, from + |w|);
    k :| 0 <= k < |cands| && cands[k] == c;
    assert c[..upTo] == base[..from] + w;
  }

  /** An accepted candidate of `[from, upTo)` is an accepted extension of the word before
      `from`. */
  lemma AcceptedCandidate(verify: string -> bool, alph: seq<char>, base: Buffer, from: nat, upTo: nat, k: nat)
    requires from <= upTo <= MAX_LENGTH && k < |Candidates(alph, base, from, upTo)|
    requires verify(Candidates(alph, base, from, upTo)[k][..upTo])
    ensures exists w :: IsWord(alph, w) && |w| == upTo - from && verify(base[..from] + w)
  {
    CandidateIsExtension(alph, base, from, upTo, k);
    var w := Candidates(alph, base, from, upTo)[k][from..upTo];
    assert IsWord(alph, w) && |w| == upTo - from && verify(base[..from] + w);
  }

  /** An accepted extension of the word before `from` by `upTo - from` symbols is an accepted
      candidate of `[from, upTo)`. */
  lemma AcceptedExtension(verify: string -> bool, alph: seq<char>, base: Buffer, from: nat, upTo: nat, w: seq<char>)
    requires from <= upTo <= MAX_LENGTH && |w| == upTo - from
    requires IsWord(alph, w) && verify(base[..from] + w)
    ensures var cands := Candidates(alph, base, from, upTo);
      exists k :: 0 <= k < |cands| && verify(cands[k][..upTo])
  {
    var k := ExtensionIsCandidate(alph, base, from, upTo, w);
    assert verify(Candidates(alph, base, from, upTo)[k][..upTo]);
  }

  /** Accepting a candidate of `[from, upTo)` is accepting the word before `from` extended by
      some word of `upTo - from` symbols. */
  lemma CandidateWords(verify: string -> bool, alph: seq<char>, base: Buffer, from: nat, upTo: nat)
    requires from <= upTo <= MAX_LENGTH
    ensures var cands := Candidates(alph, base, from, upTo);
      (exists k :: 0 <= k < |cands| && verify(cands[k][..upTo])) <==>
      (exists w :: IsWord(alph, w) && |w| == upTo - from && verify(base[..from] + w))
  {
    var cands := Candidates(alph, base, from, upTo);
    if exists k :: 0 <= k < |cands| && verify(cands[k][..upTo]) {
      var k :| 0 <= k < |cands| && verify(cands[k][..upTo]);
      AcceptedCandidate(verify, alph, base, from, upTo, k);
    }
    if exists w :: IsWord(alph, w) && |w| == upTo - from && verify(base[..from] + w) {
      var w :| IsWord(alph, w) && |w| == upTo - from && verify(base[..from] + w);
      AcceptedExtension(verify, alph, base, from, upTo, w);
    }
  }

  /** `check` over one range: with the buffer holding the word `p` before `from`, the run over
      the candidates of `[from, upTo)` ends with `found` exactly when it started so or the
      verifier accepts `p` extended by some word of `upTo - from` symbols. */
  lemma CheckLevel(verify: string -> bool, alph: seq<char>, res: SearchResult, base: Buffer, from: nat, upTo: nat, lo: int, hi: int)
    requires '\0' !in alph && from <= upTo <= MAX_LENGTH && Holds(alph, base, from)
    ensures var r := Drive(Check(verify), res, Candidates(alph, base, from, upTo)).state;
      r.found <==> (res.found ||
        exists w :: IsWord(alph, w) && |w| == upTo - from && verify(base[..from] + w))
    ensures lo <= upTo <= hi && Sound(verify, alph, lo, hi, res) ==>
      Sound(verify, alph, lo, hi, Drive(Check(verify), res, Candidates(alph, base, from, upTo)).state)
  {
    var cands := Candidates(alph, base, from, upTo);
    CandidatesHold(alph, base, from, upTo);
    CheckRun(verify, alph, res, cands, upTo, lo, hi);
    CandidateWords(verify, alph, base, from, upTo);
  }
}
