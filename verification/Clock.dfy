/** The clock-offset estimate of one ping exchange, and of the best of several. */
module Clock {
  import opened Prelude

  /** `t0` and `t3` are read on the host's clock, `t1` and `t2` on the phone's. */
  datatype Exchange = Exchange(t0: nat, t1: nat, t2: nat, t3: nat)

  datatype ClockOffset = ClockOffset(offsetUs: int, rttUs: nat)

  const TWO_63 := 0x8000_0000_0000_0000
  const TWO_64 := 0x1_0000_0000_0000_0000

  /** Rust's `/ 2`, which rounds toward zero. */
  function Half(n: int): int {
    if n >= 0 then n / 2 else -(-n / 2)
  }

  /** Rust's cast to `i64`, which wraps. */
  function AsI64(n: int): int {
    (n + TWO_63) % TWO_64 - TWO_63
  }

  function Estimate(x: Exchange): ClockOffset {
    ClockOffset(AsI64(Half((x.t1 - x.t0) + (x.t2 - x.t3))), Max((x.t3 - x.t0) - (x.t2 - x.t1), 0))
  }

  /**
   What an exchange reads when the phone's clock is `theta` ahead, the ping takes `out`, the phone holds
   it for `hold`, and the pong takes `back`.
   */
  predicate Happens(x: Exchange, theta: int, out: nat, hold: nat, back: nat) {
    && x.t1 == x.t0 + out + theta
    && x.t2 == x.t1 + hold
    && x.t3 == x.t2 - theta + back
  }

  /** The sum that is halved. */
  function Sum(x: Exchange): int {
    (x.t1 - x.t0) + (x.t2 - x.t3)
  }

  /** Its half fits the 64 bits it is cast to. */
  predicate FitsI64(x: Exchange) {
    -TWO_63 <= Half(Sum(x)) < TWO_63
  }

  /** Timestamps below 2^63 are small enough for that. */
  lemma SmallTimesFit(x: Exchange)
    requires x.t0 < TWO_63 && x.t1 < TWO_63 && x.t2 < TWO_63 && x.t3 < TWO_63
    ensures FitsI64(x)
  {
  }

  lemma NoWrap(x: Exchange)
    requires FitsI64(x)
    ensures Estimate(x).offsetUs == Half(Sum(x))
  {
  }

  lemma HalfRounds(n: int)
    ensures -1 <= n - 2 * Half(n) <= 1
    ensures n % 2 == 0 ==> n == 2 * Half(n)
  {
  }

  lemma SameParity(theta: int, out: nat, back: nat)
    ensures (out + back) % 2 == 0 ==> (2 * theta + out - back) % 2 == 0
  {
    if (out + back) % 2 == 0 {
      var m := (out + back) / 2;
      assert 2 * theta + out - back == 2 * (theta + m - back);
    }
  }

  lemma HalfError(theta: int, out: nat, back: nat)
    ensures var error := 2 * (Half(2 * theta + out - back) - theta);
            && -(out + back + 1) <= error <= out + back + 1
            && ((out + back) % 2 == 0 ==> -(out + back) <= error <= out + back)
  {
    HalfRounds(2 * theta + out - back);
    SameParity(theta, out, back);
  }

  lemma EstimateIs(x: Exchange, theta: int, out: nat, hold: nat, back: nat)
    requires FitsI64(x) && Happens(x, theta, out, hold, back)
    ensures Estimate(x) == ClockOffset(Half(2 * theta + out - back), out + back)
  {
    NoWrap(x);
    assert Sum(x) == 2 * theta + out - back;
  }

  /** Twice the error of an estimate is at most the round trip, rounded up to an even number. */
  predicate Accurate(e: ClockOffset, theta: int) {
    var error, rtt: int := 2 * (e.offsetUs - theta), e.rttUs;
    -(rtt + rtt % 2) <= error <= rtt + rtt % 2
  }

  lemma HalfAccurate(theta: int, out: nat, back: nat)
    ensures Accurate(ClockOffset(Half(2 * theta + out - back), out + back), theta)
  {
    HalfError(theta, out, back);
  }

  /**
   For any true offset, delays and hold time: the round trip is the two delays, and twice the error of
   the estimate is at most that, and one more where it is odd.
   */
  lemma ErrorBounded(x: Exchange, theta: int, out: nat, hold: nat, back: nat)
    requires FitsI64(x) && Happens(x, theta, out, hold, back)
    ensures Estimate(x).rttUs == out + back && Accurate(Estimate(x), theta)
  {
    EstimateIs(x, theta, out, hold, back);
    HalfAccurate(theta, out, back);
  }

  /** The documented bound: the error is at most half the round trip. */
  predicate WithinHalf(e: ClockOffset, theta: int) {
    var rtt: int := e.rttUs;
    -rtt <= 2 * (e.offsetUs - theta) <= rtt
  }

  lemma HalfOfOdd(n: int)
    requires n % 2 == 1
    ensures 2 * Half(n) == if n > 0 then n - 1 else n + 1
  {
    if n < 0 {
      assert -n == 2 * ((-n - 1) / 2) + 1;
    }
  }

  /**
   It fails exactly where the sum to be halved is odd and one way took no time: halving toward zero then
   adds to the error of the lopsided delays.
   */
  lemma WithinHalfIff(x: Exchange, theta: int, out: nat, hold: nat, back: nat)
    requires FitsI64(x) && Happens(x, theta, out, hold, back)
    ensures var n := 2 * theta + out - back;
            !WithinHalf(Estimate(x), theta) <==> n % 2 == 1 && ((out == 0 && n > 0) || (back == 0 && n < 0))
  {
    EstimateIs(x, theta, out, hold, back);
    var n := 2 * theta + out - back;
    if n % 2 == 1 {
      HalfOfOdd(n);
    } else {
      HalfRounds(n);
    }
  }

  /** The two timestamps of the phone are in order, and it held the ping no longer than the exchange took. */
  predicate Ordered(x: Exchange) {
    x.t1 <= x.t2 && x.t2 - x.t1 <= x.t3 - x.t0
  }

  /** Whatever the true offset and delays behind the four timestamps were, the bound holds. */
  ghost predicate SurelyWithinHalf(x: Exchange) {
    forall theta, out, hold, back :: Happens(x, theta, out, hold, back) ==> WithinHalf(Estimate(x), theta)
  }

  /** From the timestamps alone: the documented bound is sure to hold if and only if the round trip is even. */
  lemma SurelyWithinHalfIff(x: Exchange)
    requires FitsI64(x) && Ordered(x)
    ensures SurelyWithinHalf(x) <==> Estimate(x).rttUs % 2 == 0
  {
    if Estimate(x).rttUs % 2 == 0 {
      forall theta, out, hold, back | Happens(x, theta, out, hold, back)
        ensures WithinHalf(Estimate(x), theta)
      {
        ErrorBounded(x, theta, out, hold, back);
      }
    } else {
      OddRoundTripUnsure(x);
    }
  }

  /** All the delay on one way, the one that the halving rounds toward. */
  lemma OddRoundTripUnsure(x: Exchange)
    requires FitsI64(x) && Ordered(x) && Estimate(x).rttUs % 2 == 1
    ensures !SurelyWithinHalf(x)
  {
    var hold: nat, rtt: nat := x.t2 - x.t1, (x.t3 - x.t0) - (x.t2 - x.t1);
    var n := Sum(x);
    assert n == 2 * (x.t1 - x.t0) - rtt;
    if n > 0 {
      assert Happens(x, x.t1 - x.t0, 0, hold, rtt);
      WithinHalfIff(x, x.t1 - x.t0, 0, hold, rtt);
    } else {
      assert Happens(x, x.t2 - x.t3, rtt, hold, 0);
      WithinHalfIff(x, x.t2 - x.t3, rtt, hold, 0);
    }
  }

  /** Such an exchange: a ping that takes 1 on a clock that is 1 behind. */
  lemma HalfRoundTripExceeded()
    ensures var x := Exchange(5, 5, 5, 6);
            Happens(x, -1, 1, 0, 0) && Estimate(x) == ClockOffset(0, 1) && !WithinHalf(Estimate(x), -1)
  {
    NoWrap(Exchange(5, 5, 5, 6));
  }

  /** And past 2^63 the cast wraps: a phone clock far ahead is taken for one far behind. */
  lemma FarClockWraps()
    ensures var x := Exchange(0, TWO_63, TWO_63, 0);
            Happens(x, TWO_63, 0, 0, 0) && Estimate(x).offsetUs == -TWO_63
  {
  }

  /** The cast keeps the halved sum exactly when that fits 64 bits. */
  lemma WrapIff(x: Exchange)
    ensures Estimate(x).offsetUs == Half(Sum(x)) <==> FitsI64(x)
  {
  }

  /** The four timestamps are unsigned 64-bit numbers. */
  predicate U64(x: Exchange) {
    x.t0 < TWO_64 && x.t1 < TWO_64 && x.t2 < TWO_64 && x.t3 < TWO_64
  }

  lemma WrappedIsFarOff(x: Exchange, theta: int, out: nat, hold: nat, back: nat)
    requires U64(x) && Happens(x, theta, out, hold, back) && !FitsI64(x)
    ensures !Accurate(Estimate(x), theta)
  {
    var n, rtt: int := Sum(x), out + back;
    assert n == 2 * theta + out - back;
    HalfRounds(n);
    assert Estimate(x).rttUs == rtt;
    assert Estimate(x).offsetUs == Half(n) - TWO_64 || Estimate(x).offsetUs == Half(n) + TWO_64;
  }

  /** For any timestamps the estimate obeys the error bound if and only if the cast did not wrap. */
  lemma AccurateIff(x: Exchange, theta: int, out: nat, hold: nat, back: nat)
    requires U64(x) && Happens(x, theta, out, hold, back)
    ensures Accurate(Estimate(x), theta) <==> FitsI64(x)
  {
    if FitsI64(x) {
      ErrorBounded(x, theta, out, hold, back);
    } else {
      WrappedIsFarOff(x, theta, out, hold, back);
    }
  }

  /** The first estimate of least round trip. */
  method EstimateBestOf(samples: seq<Exchange>) returns (r: Option<ClockOffset>)
    ensures r.None? <==> samples == []
    ensures r.Some? ==> exists k :: IsFirstBest(samples, k) && r.value == Estimate(samples[k])
  {
    if samples == [] {
      return None;
    }
    var best := Estimate(samples[0]);
    ghost var k := 0;
    for i := 1 to |samples|
      invariant 0 <= k < i && best == Estimate(samples[k])
      invariant forall j :: 0 <= j < k ==> Estimate(samples[j]).rttUs > best.rttUs
      invariant forall j :: 0 <= j < i ==> Estimate(samples[j]).rttUs >= best.rttUs
    {
      var next := Estimate(samples[i]);
      if next.rttUs < best.rttUs {
        best := next;
        k := i;
      }
    }
    assert IsFirstBest(samples, k);
    return Some(best);
  }

  ghost predicate IsFirstBest(samples: seq<Exchange>, k: int) {
    && 0 <= k < |samples|
    && (forall j :: 0 <= j < k ==> Estimate(samples[j]).rttUs > Estimate(samples[k]).rttUs)
    && forall j :: 0 <= j < |samples| ==> Estimate(samples[j]).rttUs >= Estimate(samples[k]).rttUs
  }

  /** The best of several carries an error bound no larger than that of any of them. */
  lemma BestHasTightestBound(samples: seq<Exchange>, k: nat, theta: int, out: nat, hold: nat, back: nat, j: nat)
    requires IsFirstBest(samples, k) && j < |samples|
    requires FitsI64(samples[k]) && Happens(samples[k], theta, out, hold, back)
    ensures Accurate(Estimate(samples[k]).(rttUs := Estimate(samples[j]).rttUs), theta)
  {
    ErrorBounded(samples[k], theta, out, hold, back);
  }
}
