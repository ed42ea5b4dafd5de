/** The two identifier policies of the server: the persisted sequential counter
    of newServer.cpp and the random retry of server.cpp. Both put the seconds
    since local midnight in the high half of a 32-bit token, shifted in
    `uint32_t` arithmetic, and a 16-bit disambiguator in the low half. */
module Tokens {
  import opened Bits
  import opened Wrappers

  // ---------------------------------------------------------------------------
  // Sequential policy (newServer.cpp)

  /** `(seconds_today << 16) | ((last_id + 1) & 0xFFFF)` in `uint32_t` arithmetic. */
  function NextId(seconds: u32, last: u32): (id: nat)
    ensures id < TWO_32
  {
    var lo := And(Add(last, 1), 0xFFFF);
    AndLow16Bound(Add(last, 1));
    Pack16Bound(seconds, lo);
    Or(ShiftLeft(seconds, 16), lo)
  }

  /** The counter stored back after a call: `new_id & 0xFFFF`. */
  function NextLast(seconds: u32, last: u32): (r: nat)
    ensures r < TWO_16
  {
    AndLow16Bound(NextId(seconds, last));
    And(NextId(seconds, last), 0xFFFF)
  }

  /** A sequential token in closed form: the seconds value modulo 2^16 in the
      high half, the incremented counter modulo 2^16 in the low half. */
  lemma NextIdClosed(seconds: u32, last: u32)
    ensures NextId(seconds, last) == (seconds % TWO_16) * TWO_16 + (last + 1) % TWO_16
  {
    var lo := And(Add(last, 1), 0xFFFF);
    AndLow16(Add(last, 1));
    assert TWO_16 * TWO_16 == TWO_32;
    ModMod(last + 1, TWO_16, TWO_16);
    assert lo == (last + 1) % TWO_16;
    Pack16(seconds, lo);
  }

  /** The low half of a sequential token is the previous counter plus one,
      modulo 2^16. */
  lemma NextIdLow(seconds: u32, last: u32)
    ensures NextId(seconds, last) % TWO_16 == (last + 1) % TWO_16
  {
    NextIdClosed(seconds, last);
    DivModUnique(NextId(seconds, last), TWO_16, seconds % TWO_16, (last + 1) % TWO_16);
  }

  /** The high half of a sequential token is the seconds value modulo 2^16: bit
      16 and above of `seconds` are shifted out. */
  lemma NextIdHigh(seconds: u32, last: u32)
    ensures ShiftRight(NextId(seconds, last), 16) == seconds % TWO_16
  {
    NextIdClosed(seconds, last);
    DivModUnique(NextId(seconds, last), TWO_16, seconds % TWO_16, (last + 1) % TWO_16);
    Pow2Is16();
  }

  /** The counter stored back is the low half of the token, so it is always
      below 65536. */
  lemma NextLastLow(seconds: u32, last: u32)
    ensures NextLast(seconds, last) == (last + 1) % TWO_16 < TWO_16
  {
    NextIdLow(seconds, last);
    AndLow16(NextId(seconds, last));
  }

  /** The three facts above together. */
  lemma NextIdBits(seconds: u32, last: u32)
    ensures NextId(seconds, last) % TWO_16 == (last + 1) % TWO_16
    ensures ShiftRight(NextId(seconds, last), 16) == seconds % TWO_16
    ensures NextLast(seconds, last) == (last + 1) % TWO_16 < TWO_16
  {
    NextIdLow(seconds, last);
    NextIdHigh(seconds, last);
    NextLastLow(seconds, last);
  }

  /** A token says which second (modulo 2^16) it was issued in: tokens from
      seconds of the day that differ modulo 2^16 never collide. */
  lemma DifferentSecondsDifferentIds(s1: u32, l1: u32, s2: u32, l2: u32)
    requires s1 % TWO_16 != s2 % TWO_16
    ensures NextId(s1, l1) != NextId(s2, l2)
  {
    NextIdBits(s1, l1);
    NextIdBits(s2, l2);
  }

  /** The truncation of `seconds_today << 16`: second `s` and second `s + 65536`
      of the day (18:12:16 onwards) produce the same token for the same counter. */
  lemma SecondsAlias(seconds: u32, last: u32)
    requires seconds + TWO_16 < TWO_32
    ensures NextId(seconds + TWO_16, last) == NextId(seconds, last)
  {
    NextIdClosed(seconds, last);
    NextIdClosed(seconds + TWO_16, last);
    DivModUnique(seconds + TWO_16, TWO_16, seconds / TWO_16 + 1, seconds % TWO_16);
  }

  /** `loadLastId` at startup, with the counter's initial value 0: the side file's
      value when there is one. */
  function Loaded(file: Option<u32>): u32
  {
    if file.Some? then file.value else 0
  }

  /** A counter of 0 (the initial value, when there is no side file) makes the
      next low half 1. */
  lemma FromZero(seconds: u32)
    ensures NextId(seconds, 0) % TWO_16 == 1
  {
    NextIdLow(seconds, 0);
    DivModUnique(1, TWO_16, 0, 1);
  }

  /** Restart round trip: when the side file holds `k`, the first token after
      loading it continues the counter, with low half `(k + 1) & 0xFFFF`; with no
      side file the counter starts from 0 and the first low half is 1. */
  lemma ResumeAfterRestart(k: u32, seconds: u32)
    ensures NextId(seconds, Loaded(Some(k))) % TWO_16 == (k + 1) % TWO_16
    ensures NextId(seconds, Loaded(None)) % TWO_16 == 1
  {
    NextIdLow(seconds, k);
    FromZero(seconds);
  }

  /** The tokens returned by `n` consecutive calls within one second of the day,
      starting from counter `last`. */
  function IdRun(seconds: u32, last: u32, n: nat): (ids: seq<u32>)
    ensures |ids| == n
    decreases n
  {
    if n == 0 then [] else [NextId(seconds, last)] + IdRun(seconds, NextLast(seconds, last), n - 1)
  }

  /** A run is its first token followed by the run from the stored counter.
      The shorter length `m` and index `j` are parameters, not `n - 1` and
      `k - 1`, so that the caller's proof does not have to unfold that arithmetic. */
  lemma IdRunStep(seconds: u32, last: u32, n: nat, k: nat, m: nat, j: nat)
    requires k < n && m + 1 == n && j + 1 == k
    ensures IdRun(seconds, last, n)[k] == IdRun(seconds, NextLast(seconds, last), m)[j]
  {
  }

  lemma IdRunFirst(seconds: u32, last: u32, n: nat)
    requires 0 < n
    ensures IdRun(seconds, last, n)[0] == (seconds % TWO_16) * TWO_16 + (last + 1) % TWO_16
  {
    assert IdRun(seconds, last, n)[0] == NextId(seconds, last);
    NextIdClosed(seconds, last);
  }

  /** The `k`-th token of a run: the seconds value modulo 2^16 in the high half
      and `last + k + 1` modulo 2^16 in the low half. */
  lemma {:induction false} IdRunAt(seconds: u32, last: u32, n: nat, k: nat)
    requires k < n
    ensures IdRun(seconds, last, n)[k] == (seconds % TWO_16) * TWO_16 + (last + k + 1) % TWO_16
    decreases k
  {
    if k == 0 {
      IdRunFirst(seconds, last, n);
    } else {
      var next, m, j := NextLast(seconds, last), n - 1, k - 1;
      IdRunStep(seconds, last, n, k, m, j);
      IdRunAt(seconds, next, m, j);
      NextLastLow(seconds, last);
      LowAfter(next, last, k, j);
    }
  }

  lemma LowAfter(next: int, last: int, k: int, j: int)
    requires next == (last + 1) % TWO_16 && j + 1 == k
    ensures (next + j + 1) % TWO_16 == (last + k + 1) % TWO_16
  {
    ModAddLeft(last + 1, k, TWO_16);
    assert next + j + 1 == (last + 1) % TWO_16 + k;
  }

  /** Up to 65536 consecutive calls within one second return pairwise distinct
      tokens. */
  lemma IdRunDistinct(seconds: u32, last: u32, n: nat)
    requires n <= TWO_16
    ensures forall i, j :: 0 <= i < j < n ==> IdRun(seconds, last, n)[i] != IdRun(seconds, last, n)[j]
  {
    forall i, j | 0 <= i < j < n
      ensures IdRun(seconds, last, n)[i] != IdRun(seconds, last, n)[j]
    {
      IdRunAt(seconds, last, n, i);
      IdRunAt(seconds, last, n, j);
      LowDistinct((seconds % TWO_16) * TWO_16, last, i, j);
    }
  }

  lemma LowDistinct(high: int, last: int, i: int, j: int)
    requires 0 <= i < j < TWO_16
    ensures high + (last + i + 1) % TWO_16 != high + (last + j + 1) % TWO_16
  {
    ModDistinct(last + i + 1, last + j + 1, TWO_16);
  }

  /** ... and the 65537th call of a run repeats the first token. */
  lemma IdRunWraps(seconds: u32, last: u32, n: nat)
    requires n > TWO_16
    ensures IdRun(seconds, last, n)[TWO_16] == IdRun(seconds, last, n)[0]
  {
    IdRunAt(seconds, last, n, 0);
    IdRunAt(seconds, last, n, TWO_16);
    LowPeriod(last);
  }

  lemma LowPeriod(last: int)
    ensures (last + TWO_16 + 1) % TWO_16 == (last + 1) % TWO_16
  {
    var r := (last + 1) % TWO_16;
    ModAddLeft(last + 1, TWO_16, TWO_16);
    DivModUnique(r + TWO_16, TWO_16, 1, r);
  }

  // ---------------------------------------------------------------------------
  // Random policy (server.cpp)

  /** One try of the retry loop: `(base << 16) | (rand() & 0xFFFF)`, where `draw`
      is the non-negative value `rand()` returned. */
  function Candidate(base: u32, draw: nat): (id: nat)
    ensures id < TWO_32
  {
    AndLow16Bound(draw);
    Pack16Bound(base, And(draw, 0xFFFF));
    Or(ShiftLeft(base, 16), And(draw, 0xFFFF))
  }

  /** A candidate's high half is `base` modulo 2^16 and its low half the draw
      masked to 0..65535. */
  lemma CandidateBits(base: u32, draw: nat)
    ensures ShiftRight(Candidate(base, draw), 16) == base % TWO_16
    ensures Candidate(base, draw) % TWO_16 == And(draw, 0xFFFF) == draw % TWO_16
  {
    AndLow16(draw);
    Pack16(base, And(draw, 0xFFFF));
    Pow2Is16();
  }

  /** The issued tokens that share the high half the current `base` gives. */
  function SameHigh(used: set<u32>, base: u32): set<u32>
  {
    set id | id in used && id / TWO_16 == base % TWO_16
  }

  /** The candidates the draws `0 .. n-1` give. */
  function Candidates(base: u32, n: nat): set<u32>
  {
    set lo: nat | lo < n :: Candidate(base, lo)
  }

  /** Distinct draws below 2^16 give distinct candidates. */
  lemma CandidateInjective(base: u32, d1: nat, d2: nat)
    requires d1 < TWO_16 && d2 < TWO_16 && d1 != d2
    ensures Candidate(base, d1) != Candidate(base, d2)
  {
    CandidateBits(base, d1);
    CandidateBits(base, d2);
    DivModUnique(d1, TWO_16, 0, d1);
    DivModUnique(d2, TWO_16, 0, d2);
  }

  lemma {:induction false} CandidatesSize(base: u32, n: nat)
    requires n <= TWO_16
    ensures |Candidates(base, n)| == n
    decreases n
  {
    if n == 0 {
      assert Candidates(base, n) == {};
    } else {
      var earlier, c := Candidates(base, n - 1), Candidate(base, n - 1);
      CandidatesSize(base, n - 1);
      assert c !in earlier by {
        forall lo: nat | lo < n - 1
          ensures Candidate(base, lo) != c
        {
          CandidateInjective(base, lo, n - 1);
        }
      }
      assert Candidates(base, n) == earlier + {c};
      assert |earlier + {c}| == |earlier| + 1;
    }
  }

  lemma {:induction false} SubsetSize<T>(a: set<T>, b: set<T>)
    requires a <= b
    ensures |a| <= |b|
  {
    if a != {} {
      var x :| x in a;
      SubsetSize(a - {x}, b - {x});
    }
  }

  /** The retry loop can stop: while fewer than 65536 issued tokens share the
      current high half, some 16-bit low half is still free for this `base`. */
  lemma FreeLowExists(used: set<u32>, base: u32)
    requires |SameHigh(used, base)| < TWO_16
    ensures exists lo: nat :: lo < TWO_16 && Candidate(base, lo) !in used
  {
    if forall lo: nat :: lo < TWO_16 ==> Candidate(base, lo) in used {
      forall c | c in Candidates(base, TWO_16) ensures c in SameHigh(used, base) {
        var lo: nat :| lo < TWO_16 && c == Candidate(base, lo);
        CandidateBits(base, lo);
        Pow2Is16();
      }
      SubsetSize(Candidates(base, TWO_16), SameHigh(used, base));
      CandidatesSize(base, TWO_16);
      assert false;
    }
  }

  /** Where the retry loop stops in a sequence of `rand()` results: the first
      draw whose candidate is not yet in `used`. */
  ghost function FirstFree(base: u32, draws: seq<nat>, used: set<u32>): (k: nat)
    requires exists i :: 0 <= i < |draws| && Candidate(base, draws[i]) !in used
    ensures k < |draws| && Candidate(base, draws[k]) !in used
    ensures forall j :: 0 <= j < k ==> Candidate(base, draws[j]) in used
  {
    if Candidate(base, draws[0]) !in used then 0
    else
      var i :| 0 <= i < |draws| && Candidate(base, draws[i]) !in used;
      assert draws[1..][i - 1] == draws[i];
      1 + FirstFree(base, draws[1..], used)
  }
}
