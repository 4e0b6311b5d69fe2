/** Latency samples: aggregates over the whole history, percentiles over a bounded window of it. */
module LatencyStats {
  import opened Prelude

  const MAX_RETAINED_SAMPLES := 0x4000

  /** The accumulator as a value. */
  datatype Stats = Stats(count: nat, sum: nat, min: Option<nat>, max: Option<nat>, samples: seq<nat>)

  const EMPTY := Stats(0, 0, None, None, [])

  function Recorded(s: Stats, micros: nat): Stats {
    Stats(
      s.count + 1,
      s.sum + micros,
      Some(if s.min.Some? then Min(s.min.value, micros) else micros),
      Some(if s.max.Some? then Max(s.max.value, micros) else micros),
      (if |s.samples| == MAX_RETAINED_SAMPLES then s.samples[1..] else s.samples) + [micros])
  }

  /** The accumulator after a history of samples. */
  function After(history: seq<nat>): Stats {
    if history == [] then EMPTY
    else
      var n := |history| - 1;
      Recorded(After(history[..n]), history[n])
  }

  function Sum(history: seq<nat>): nat {
    if history == [] then 0
    else
      var n := |history| - 1;
      Sum(history[..n]) + history[n]
  }

  /** The samples percentiles are taken from: the most recent ones. */
  function Window(history: seq<nat>): seq<nat> {
    if |history| <= MAX_RETAINED_SAMPLES then history else history[|history| - MAX_RETAINED_SAMPLES..]
  }

  lemma WindowGrows(history: seq<nat>, micros: nat)
    ensures Window(history + [micros]) ==
            (if |Window(history)| == MAX_RETAINED_SAMPLES then Window(history)[1..] else Window(history)) + [micros]
  {
  }

  /** Whatever was recorded: exact count and sum, and the window is exactly the last samples. */
  lemma {:induction false} AfterHistory(history: seq<nat>)
    ensures After(history).count == |history| && After(history).sum == Sum(history)
    ensures After(history).samples == Window(history)
  {
    if history != [] {
      var n := |history| - 1;
      AfterHistory(history[..n]);
      WindowGrows(history[..n], history[n]);
      assert history[..n] + [history[n]] == history;
    }
  }

  predicate IsMin(history: seq<nat>, m: Option<nat>) {
    if history == [] then m.None? else m.Some? && m.value in history && forall x :: x in history ==> m.value <= x
  }

  predicate IsMax(history: seq<nat>, m: Option<nat>) {
    if history == [] then m.None? else m.Some? && m.value in history && forall x :: x in history ==> x <= m.value
  }

  lemma {:induction false} ExtremesOfHistory(history: seq<nat>)
    ensures IsMin(history, After(history).min) && IsMax(history, After(history).max)
  {
    if history != [] {
      var n := |history| - 1;
      ExtremesOfHistory(history[..n]);
      assert forall x :: x in history <==> x in history[..n] || x == history[n];
    }
  }

  // ---------------------------------------------------------------------------
  // Percentiles
  // ---------------------------------------------------------------------------

  function Insert(x: nat, s: seq<nat>): seq<nat> {
    if s == [] || x <= s[0] then [x] + s else [s[0]] + Insert(x, s[1..])
  }

  function Sorted(s: seq<nat>): (r: seq<nat>)
  {
    if s == [] then [] else Insert(s[0], Sorted(s[1..]))
  }

  function Ceiling(x: real): int {
    -((-x).Floor)
  }

  function Clamped(p: real): real {
    if p < 0.0 then 0.0 else if p > 100.0 then 100.0 else p
  }

  /** The nearest rank among `n` samples, counted from 1. */
  function Rank(p: real, n: nat): int {
    Ceiling(Clamped(p) / 100.0 * n as real)
  }

  class LatencyStats {
    var count: nat
    var sum: nat
    var min: Option<nat>
    var max: Option<nat>
    var samples: seq<nat>

    function State(): Stats
      reads this
    {
      Stats(count, sum, min, max, samples)
    }

    constructor ()
      ensures State() == EMPTY
    {
      count, sum, min, max, samples := 0, 0, None, None, [];
    }

    method Record(micros: nat)
      modifies this
      ensures State() == Recorded(old(State()), micros)
    {
      count := count + 1;
      sum := sum + micros;
      min := Some(if min.Some? then Min(min.value, micros) else micros);
      max := Some(if max.Some? then Max(max.value, micros) else micros);
      if |samples| == MAX_RETAINED_SAMPLES {
        samples := samples[1..];
      }
      samples := samples + [micros];
    }

    method Percentile(p: real) returns (r: Option<nat>)
      ensures r.None? <==> samples == []
      ensures r.Some? ==> IsNearestRank(samples, Max(Rank(p, |samples|), 1), r.value)
    {
      if samples == [] {
        return None;
      }
      var sorted := Sorted(samples);
      SortedLength(samples);
      var n := |sorted|;
      var rank := Rank(p, n);
      RankInRange(p, n);
      var idx := Min(Max(rank - 1, 0), n - 1);
      SortedAtRank(samples, idx);
      return Some(sorted[idx]);
    }
  }

  // ---------------------------------------------------------------------------
  // What a percentile is
  // ---------------------------------------------------------------------------

  function AtMost(s: seq<nat>, v: nat): nat {
    if s == [] then 0 else (if s[0] <= v then 1 else 0) + AtMost(s[1..], v)
  }

  function Below(s: seq<nat>, v: nat): nat {
    if s == [] then 0 else (if s[0] < v then 1 else 0) + Below(s[1..], v)
  }

  /** `v` is a sample, at least `rank` samples are at most `v`, and fewer than `rank` are below it. */
  predicate IsNearestRank(s: seq<nat>, rank: int, v: nat) {
    v in s && AtMost(s, v) >= rank && Below(s, v) < rank
  }

  predicate Ascending(s: seq<nat>) {
    forall i, j :: 0 <= i < j < |s| ==> s[i] <= s[j]
  }

  lemma {:induction false} InsertKeeps(x: nat, s: seq<nat>, v: nat)
    ensures |Insert(x, s)| == |s| + 1
    ensures AtMost(Insert(x, s), v) == AtMost(s, v) + if x <= v then 1 else 0
    ensures Below(Insert(x, s), v) == Below(s, v) + if x < v then 1 else 0
    ensures v in Insert(x, s) <==> v == x || v in s
  {
    if s == [] || x <= s[0] {
      assert ([x] + s)[1..] == s;
    } else {
      InsertKeeps(x, s[1..], v);
      assert ([s[0]] + Insert(x, s[1..]))[1..] == Insert(x, s[1..]);
    }
  }

  lemma {:induction false} InsertAscending(x: nat, s: seq<nat>)
    requires Ascending(s)
    ensures Ascending(Insert(x, s))
    ensures Insert(x, s)[0] == if s == [] then x else Min(x, s[0])
  {
    if s != [] && x > s[0] {
      InsertAscending(x, s[1..]);
      forall v
        ensures v in Insert(x, s[1..]) ==> s[0] <= v
      {
        InsertKeeps(x, s[1..], v);
      }
    }
  }

  lemma {:induction false} SortedKeeps(s: seq<nat>, v: nat)
    ensures |Sorted(s)| == |s|
    ensures AtMost(Sorted(s), v) == AtMost(s, v) && Below(Sorted(s), v) == Below(s, v)
    ensures v in Sorted(s) <==> v in s
  {
    if s != [] {
      SortedKeeps(s[1..], v);
      InsertKeeps(s[0], Sorted(s[1..]), v);
    }
  }

  lemma SortedLength(s: seq<nat>)
    ensures |Sorted(s)| == |s|
  {
    SortedKeeps(s, 0);
  }

  lemma {:induction false} SortedAscending(s: seq<nat>)
    ensures Ascending(Sorted(s))
  {
    if s != [] {
      SortedAscending(s[1..]);
      InsertAscending(s[0], Sorted(s[1..]));
    }
  }

  /** In an ascending sequence, `k + 1` elements are at most the `k`-th, and at most `k` are below it. */
  lemma {:induction false} CountsAt(s: seq<nat>, k: nat)
    requires Ascending(s) && k < |s|
    ensures AtMost(s, s[k]) >= k + 1
    ensures Below(s, s[k]) <= k
  {
    if k == 0 {
      NoneBelow(s, s[0]);
    } else {
      CountsAt(s[1..], k - 1);
    }
  }

  lemma {:induction false} NoneBelow(s: seq<nat>, v: nat)
    requires forall i :: 0 <= i < |s| ==> v <= s[i]
    ensures Below(s, v) == 0
  {
    if s != [] {
      NoneBelow(s[1..], v);
    }
  }

  lemma SortedAtRank(s: seq<nat>, idx: nat)
    requires idx < |Sorted(s)|
    ensures IsNearestRank(s, idx + 1, Sorted(s)[idx])
  {
    SortedAscending(s);
    CountsAt(Sorted(s), idx);
    SortedKeeps(s, Sorted(s)[idx]);
  }

  lemma RankInRange(p: real, n: nat)
    requires n > 0
    ensures 0 <= Rank(p, n) <= n
    ensures p > 0.0 ==> Rank(p, n) >= 1
  {
    var q := Clamped(p) / 100.0;
    assert 0.0 <= q <= 1.0;
    assert 0.0 <= q * n as real <= n as real;
  }

  /** The part of `n` samples that `p` percent are, with `p` cut to 0 to 100. */
  function Share(p: real, n: nat): real {
    if p <= 0.0 then 0.0 else if p >= 100.0 then n as real else p * n as real / 100.0
  }

  lemma RankIsShare(p: real, n: nat, k: nat)
    ensures Clamped(p) / 100.0 * n as real == Share(p, n)
    ensures k >= Rank(p, n) <==> k as real >= Share(p, n)
  {
    var x := Share(p, n);
    if p < 0.0 {
      assert 0.0 / 100.0 * n as real == 0.0;
    } else if p > 100.0 {
      assert 100.0 / 100.0 * n as real == n as real;
    } else {
      assert p / 100.0 * n as real == p * n as real / 100.0;
    }
    CeilingIsLeast(x, k);
  }

  lemma CeilingIsLeast(x: real, k: int)
    ensures k >= Ceiling(x) <==> k as real >= x
  {
  }

  /** In terms of the share: at least that many samples are at most the answer, and fewer, or none, below it. */
  lemma PercentileMeaning(s: seq<nat>, p: real, v: nat)
    requires s != []
    ensures IsNearestRank(s, Max(Rank(p, |s|), 1), v) <==>
            && v in s && AtMost(s, v) as real >= Share(p, |s|)
            && (Below(s, v) as real < Share(p, |s|) || Below(s, v) == 0)
  {
    RankIsShare(p, |s|, AtMost(s, v));
    RankIsShare(p, |s|, Below(s, v));
    if v in s {
      AtMostItself(s, v);
    }
  }

  lemma {:induction false} AtMostItself(s: seq<nat>, v: nat)
    requires v in s
    ensures AtMost(s, v) >= 1
  {
    if s[0] != v {
      AtMostItself(s[1..], v);
    }
  }

  lemma {:induction false} AtMostIsBelow(s: seq<nat>, v: nat, w: nat)
    requires v < w
    ensures AtMost(s, v) <= Below(s, w)
  {
    if s != [] {
      AtMostIsBelow(s[1..], v, w);
    }
  }

  /** A higher rank has no smaller value; in particular the value of a rank is unique. */
  lemma NearestRankMonotone(s: seq<nat>, rank: int, v: nat, higher: int, w: nat)
    requires rank <= higher && IsNearestRank(s, rank, v) && IsNearestRank(s, higher, w)
    ensures v <= w
    ensures rank == higher ==> v == w
  {
    if w < v {
      AtMostIsBelow(s, w, v);
    }
    if v < w && rank == higher {
      AtMostIsBelow(s, v, w);
    }
  }

  lemma RankMonotone(p: real, q: real, n: nat)
    requires p <= q
    ensures Rank(p, n) <= Rank(q, n)
  {
    assert Clamped(p) / 100.0 * n as real <= Clamped(q) / 100.0 * n as real;
  }

  /** Percentiles grow with `p`: whatever two answers over one window are, the one for more is no less. */
  lemma PercentileMonotone(s: seq<nat>, p: real, q: real, v: nat, w: nat)
    requires s != [] && p <= q
    requires IsNearestRank(s, Max(Rank(p, |s|), 1), v) && IsNearestRank(s, Max(Rank(q, |s|), 1), w)
    ensures v <= w
  {
    RankMonotone(p, q, |s|);
    NearestRankMonotone(s, Max(Rank(p, |s|), 1), v, Max(Rank(q, |s|), 1), w);
  }
}
