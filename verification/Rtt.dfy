/** The round-trip-time estimator of the sender, in scaled 32-bit integers. */
module Rtt {

  type u32 = x: int | 0 <= x < 0x1_0000_0000

  const TCP_RTO_MIN: u32 := 2000

  function Wrap(x: int): u32 {
    x % 0x1_0000_0000
  }

  function Max(a: int, b: int): int {
    if a > b then a else b
  }

  /** struct tcp_sock: srtt is eight times the smoothed time, the other times are plain. */
  datatype Sock = Sock(srtt: u32, mdev: u32, mdevMax: u32, rttvar: u32, rttSeq: u32, sndUna: u32, sndNxt: u32)

  const INIT: Sock := Sock(0, 0, 0, 0, 0, 0, 0)

  /** "seq1 is after seq2": the difference is unsigned, so any difference at all. */
  predicate After(seq1: u32, seq2: u32) {
    Wrap(seq1 - seq2) > 0
  }

  lemma AfterIsDifferent(seq1: u32, seq2: u32)
    ensures After(seq1, seq2) <==> seq1 != seq2
  {
  }

  function Rto(s: Sock): u32 {
    Wrap(s.srtt / 8 + s.rttvar)
  }

  /** A sample of 0 is read as 1. */
  function Measured(mrtt: u32): u32 {
    if mrtt == 0 then 1 else mrtt
  }

  /** The error of the estimate, and what it adds to mdev: an eighth of the excess when the time got shorter. */
  function Error(s: Sock, mrtt: u32): int {
    Measured(mrtt) - s.srtt / 8
  }

  function MdevStep(s: Sock, mrtt: u32): int {
    var e := Error(s, mrtt);
    if e < 0 then
      var d := -e - s.mdev / 4;
      if d > 0 then d / 8 else d
    else e - s.mdev / 4
  }

  function Later(s: Sock, mrtt: u32): Sock {
    var mdev := Wrap(s.mdev + MdevStep(s, mrtt));
    var mdevMax: u32 := if mdev > s.mdevMax then mdev else s.mdevMax;
    var rttvar: u32 := if mdev > s.mdevMax && mdev > s.rttvar then mdev else s.rttvar;
    var t := s.(srtt := Wrap(s.srtt + Error(s, mrtt)), mdev := mdev, mdevMax := mdevMax, rttvar := rttvar);
    if After(s.sndUna, s.rttSeq) then
      t.(rttvar := if mdevMax < rttvar then rttvar - (rttvar - mdevMax) / 4 else rttvar, mdevMax := TCP_RTO_MIN)
    else t
  }

  function First(s: Sock, mrtt: u32): Sock {
    var mdev := Wrap(2 * Measured(mrtt));
    var high: u32 := if mdev > TCP_RTO_MIN then mdev else TCP_RTO_MIN;
    s.(srtt := Wrap(8 * Measured(mrtt)), mdev := mdev, mdevMax := high, rttvar := high)
  }

  function Estimate(s: Sock, mrtt: u32): Sock {
    if s.srtt != 0 then Later(s, mrtt) else First(s, mrtt)
  }

  class TcpSock {
    var srtt: u32
    var mdev: u32
    var mdevMax: u32
    var rttvar: u32
    var rttSeq: u32
    var sndUna: u32
    var sndNxt: u32

    ghost function Value(): Sock
      reads this
    {
      Sock(srtt, mdev, mdevMax, rttvar, rttSeq, sndUna, sndNxt)
    }

    constructor Init()
      ensures Value() == INIT
    {
      srtt, mdev, mdevMax, rttvar, rttSeq, sndUna, sndNxt := 0, 0, 0, 0, 0, 0, 0;
    }

    method TcpRttEstimator(mrtt: u32)
      modifies this
      ensures Value() == Estimate(old(Value()), mrtt)
    {
      hide Wrap, After;
      var m: int := mrtt;
      if m == 0 {
        m := 1;
      }
      if srtt != 0 {
        m := m - srtt / 8;
        srtt := Wrap(srtt + m);
        if m < 0 {
          m := -m;
          m := m - mdev / 4;
          if m > 0 {
            m := m / 8;
          }
        } else {
          m := m - mdev / 4;
        }
        mdev := Wrap(mdev + m);
        if mdev > mdevMax {
          mdevMax := mdev;
          if mdevMax > rttvar {
            rttvar := mdevMax;
          }
        }
        if After(sndUna, rttSeq) {
          if mdevMax < rttvar {
            rttvar := rttvar - (rttvar - mdevMax) / 4;
          }
          mdevMax := TCP_RTO_MIN;
        }
      } else {
        srtt := Wrap(8 * m);
        mdev := Wrap(2 * m);
        mdevMax := if mdev > TCP_RTO_MIN then mdev else TCP_RTO_MIN;
        rttvar := mdevMax;
      }
    }

    /** Whatever bounds lo..hi the samples have kept, the timeout is the unreduced sum and within its own bounds. */
    method TcpSetRto() returns (rto: u32)
      ensures rto == Rto(Value())
      ensures forall lo, hi :: 1 <= lo <= hi && 8 * hi < 0x1_0000_0000 && Bounded(Value(), lo, hi) ==>
                && rto == srtt / 8 + rttvar
                && lo + 2000 <= rto <= hi + Max(2000, Max(2 * hi, 4 * (hi - lo)))
    {
      hide Bounded, Max;
      forall lo, hi | 1 <= lo <= hi && 8 * hi < 0x1_0000_0000 && Bounded(Value(), lo, hi)
        ensures Rto(Value()) == srtt / 8 + rttvar
        ensures lo + 2000 <= Rto(Value()) <= hi + Max(2000, Max(2 * hi, 4 * (hi - lo)))
      {
        BoundedTimeout(Value(), lo, hi);
      }
      rto := Wrap(srtt / 8 + rttvar);
    }
  }

  // ----- What one sample does to the deviation -----

  /** mdev stands for four times the error. A longer time, or a shorter one within a quarter of mdev, brings the gap
      to the band 4e..4e+3 to three quarters; a shorter one beyond it raises mdev, but by an eighth of that step. */
  lemma MdevTowardsError(s: Sock, m: u32)
    requires s.srtt != 0 && m >= 1 && s.mdev + m < 0x1_0000_0000 && s.mdev + s.srtt / 8 < 0x1_0000_0000
    ensures var (e, d, d') := (m - s.srtt / 8, s.mdev, Estimate(s, m).mdev);
      var gap := if e < 0 then -e else e;
      if e >= 0 || gap <= d / 4 then
        && (d < 4 * gap ==> 4 * gap - d' == 3 * (4 * gap - d) / 4)
        && (4 * gap <= d <= 4 * gap + 3 ==> d' == d)
        && (d > 4 * gap + 3 ==> d' - (4 * gap + 3) == 3 * (d - (4 * gap + 3)) / 4)
      else
        && d <= d' < 4 * gap
        && 8 * (d' - d) <= (3 * d + 3) / 4 + gap - d < 8 * (d' - d) + 8
  {
    hide Wrap;
    WrapSmall(s.mdev + MdevStep(s, m));
  }

  /** A first sample is taken as it is: eight times, twice, and at least 2000; nothing else changes. */
  lemma FirstSample(s: Sock, m: u32)
    requires s.srtt == 0 && 1 <= m && 8 * m < 0x1_0000_0000
    ensures var t := Estimate(s, m);
      && t.srtt == 8 * m && t.mdev == 2 * m
      && t.rttvar == t.mdevMax == Max(2000, 2 * m)
      && (t.rttSeq, t.sndUna, t.sndNxt) == (s.rttSeq, s.sndUna, s.sndNxt)
  {
  }

  /** A sample of 0, which is what the daemon starts with, does what a sample of 1 does. */
  lemma ZeroCountsAsOne(s: Sock)
    ensures Estimate(s, 0) == Estimate(s, 1)
  {
  }

  /** No call touches the sequence numbers. */
  lemma SequenceUntouched(s: Sock, mrtt: u32)
    ensures var t := Estimate(s, mrtt); (t.rttSeq, t.sndUna, t.sndNxt) == (s.rttSeq, s.sndUna, s.sndNxt)
  {
    hide Wrap, MdevStep, After;
  }

  /** At the end of a period the excess of rttvar over the period's largest mdev comes down by a quarter and the
      maximum starts again; within one, both only follow mdev upwards. */
  lemma PeriodEnds(s: Sock, mrtt: u32)
    requires s.mdevMax <= s.rttvar
    ensures var t := Later(s, mrtt);
      var (peak, high) := (Max(s.mdevMax, t.mdev), Max(s.rttvar, t.mdev));
      if s.sndUna != s.rttSeq then
        t.mdevMax == 2000 && 3 * (high - peak) <= 4 * (t.rttvar - peak) <= 3 * (high - peak) + 3
      else
        t.mdevMax == peak && t.rttvar == high
  {
    hide Wrap, MdevStep, Error;
    AfterIsDifferent(s.sndUna, s.rttSeq);
  }

  // ----- Bounds over whole runs -----

  /** One call: the sample, and whatever the connection has in snd_una and rtt_seq at the time. */
  datatype Call = Call(mrtt: u32, sndUna: u32, rttSeq: u32)

  function Do(s: Sock, c: Call): Sock {
    Estimate(s.(sndUna := c.sndUna, rttSeq := c.rttSeq), c.mrtt)
  }

  function Run(s: Sock, cs: seq<Call>): Sock {
    if cs == [] then s else Do(Run(s, cs[..|cs| - 1]), cs[|cs| - 1])
  }

  predicate Within(cs: seq<Call>, lo: int, hi: int) {
    forall i :: 0 <= i < |cs| ==> lo <= Measured(cs[i].mrtt) <= hi
  }

  function Spread(lo: int, hi: int): int {
    Max(2 * hi, 4 * (hi - lo))
  }

  ghost predicate Bounded(s: Sock, lo: int, hi: int) {
    && 8 * lo <= s.srtt <= 8 * hi + 7
    && s.mdev <= Spread(lo, hi)
    && 2000 <= s.mdevMax <= s.rttvar <= Max(2000, Spread(lo, hi))
  }

  /** No 32-bit result of the call is reduced. */
  ghost predicate NoWrap(s: Sock, mrtt: u32) {
    if s.srtt != 0
    then 0 <= s.srtt + Error(s, mrtt) < 0x1_0000_0000 && 0 <= s.mdev + MdevStep(s, mrtt) < 0x1_0000_0000
    else 8 * Measured(mrtt) < 0x1_0000_0000
  }

  lemma FirstBounded(s: Sock, mrtt: u32, lo: int, hi: int)
    requires 1 <= lo <= Measured(mrtt) <= hi && 8 * hi < 0x1_0000_0000
    ensures Bounded(First(s, mrtt), lo, hi)
  {
  }

  lemma MdevBounded(s: Sock, mrtt: u32, lo: int, hi: int)
    requires 1 <= lo <= Measured(mrtt) <= hi && 8 * hi < 0x1_0000_0000 && Bounded(s, lo, hi)
    ensures 0 <= s.mdev + MdevStep(s, mrtt) <= Spread(lo, hi)
  {
    assert lo - hi <= Error(s, mrtt) <= hi - lo;
  }

  lemma SrttBounded(s: Sock, mrtt: u32, lo: int, hi: int)
    requires 1 <= lo <= Measured(mrtt) <= hi && 8 * lo <= s.srtt <= 8 * hi + 7
    ensures 8 * lo <= s.srtt + Error(s, mrtt) <= 8 * hi + 7
  {
  }

  lemma WrapSmall(x: int)
    requires 0 <= x < 0x1_0000_0000
    ensures Wrap(x) == x
  {
  }

  lemma LaterBounded(s: Sock, mrtt: u32, lo: int, hi: int)
    requires 1 <= lo <= Measured(mrtt) <= hi && 8 * hi < 0x1_0000_0000 && Bounded(s, lo, hi)
    ensures Bounded(Later(s, mrtt), lo, hi) && NoWrap(s, mrtt)
  {
    hide MdevStep, Wrap;
    MdevBounded(s, mrtt, lo, hi);
    SrttBounded(s, mrtt, lo, hi);
    WrapSmall(s.srtt + Error(s, mrtt));
    WrapSmall(s.mdev + MdevStep(s, mrtt));
  }

  lemma DoBounded(s: Sock, c: Call, lo: int, hi: int)
    requires 1 <= lo <= Measured(c.mrtt) <= hi && 8 * hi < 0x1_0000_0000
    requires s.srtt == 0 || Bounded(s, lo, hi)
    ensures Bounded(Do(s, c), lo, hi) && NoWrap(s, c.mrtt)
  {
    hide Later, First;
    var t := s.(sndUna := c.sndUna, rttSeq := c.rttSeq);
    if s.srtt == 0 {
      FirstBounded(t, c.mrtt, lo, hi);
    } else {
      LaterBounded(t, c.mrtt, lo, hi);
    }
  }

  lemma BoundedTimeout(s: Sock, lo: int, hi: int)
    requires 1 <= lo <= hi && 8 * hi < 0x1_0000_0000 && Bounded(s, lo, hi)
    ensures s.srtt != 0 && lo <= s.srtt / 8 <= hi
    ensures Rto(s) == s.srtt / 8 + s.rttvar
    ensures lo + 2000 <= Rto(s) <= hi + Max(2000, Max(2 * hi, 4 * (hi - lo)))
  {
  }

  /** Over every run of samples in lo..hi: after the first sample srtt is never 0 again, so the first-sample
      branch runs once; srtt >> 3 stays in lo..hi; nothing wraps; and the timeout has the stated bounds. */
  lemma {:induction false} RunBounded(cs: seq<Call>, lo: int, hi: int)
    requires 1 <= lo <= hi && 8 * hi < 0x1_0000_0000 && Within(cs, lo, hi) && cs != []
    ensures var s := Run(INIT, cs);
      && Bounded(s, lo, hi)
      && s.srtt != 0
      && lo <= s.srtt / 8 <= hi
      && lo + 2000 <= Rto(s) <= hi + Max(2000, Max(2 * hi, 4 * (hi - lo)))
    ensures var before := Run(INIT, cs[..|cs| - 1]);
      && NoWrap(before, cs[|cs| - 1].mrtt)
      && (before.srtt == 0 <==> |cs| == 1)
  {
    hide Do, Bounded, NoWrap, Rto, Max;
    var (front, c) := (cs[..|cs| - 1], cs[|cs| - 1]);
    if front == [] {
      assert Run(INIT, front) == INIT;
    } else {
      RunBounded(front, lo, hi);
    }
    DoBounded(Run(INIT, front), c, lo, hi);
    BoundedTimeout(Run(INIT, cs), lo, hi);
  }

  /** The bound on the samples is needed: a first sample that is a multiple of 2^29 leaves srtt at 0, so that the
      next sample counts as a first one again; no other first sample does. */
  lemma FirstSampleLost(s: Sock, mrtt: u32)
    ensures First(s, mrtt).srtt == 0 <==> mrtt != 0 && mrtt % 0x2000_0000 == 0
  {
  }

  // ----- Constant samples -----

  lemma BelowBand(x: int, m: int)
    requires 0 < x < 8 * m
    ensures 8 * m - (x + (m - x / 8)) == 7 * (8 * m - x) / 8
  {
  }

  lemma AboveBand(x: int, m: int)
    requires 0 < 8 * m + 7 < x
    ensures x + (m - x / 8) - (8 * m + 7) == 7 * (x - (8 * m + 7)) / 8
  {
  }

  /** Below the band 8m..8m+7 the gap shrinks to seven eighths of itself, and so does the excess above it. */
  lemma GapShrinks(s: Sock, m: u32)
    requires s.srtt > 0 && m >= 1 && 8 * m + 7 < 0x1_0000_0000
    ensures var t := Estimate(s, m).srtt;
      && (s.srtt < 8 * m ==> 8 * m - t == 7 * (8 * m - s.srtt) / 8)
      && (8 * m <= s.srtt <= 8 * m + 7 ==> t == s.srtt)
      && (s.srtt > 8 * m + 7 ==> t - (8 * m + 7) == 7 * (s.srtt - (8 * m + 7)) / 8)
  {
    hide Wrap, MdevStep;
    if s.srtt < 8 * m {
      BelowBand(s.srtt, m);
    } else if s.srtt > 8 * m + 7 {
      AboveBand(s.srtt, m);
    }
    WrapSmall(s.srtt + Error(s, m));
  }

  function Steady(s: Sock, m: u32, n: nat): Sock {
    if n == 0 then s else Estimate(Steady(s, m, n - 1), m)
  }

  function Distance(srtt: int, m: int): nat {
    if srtt < 8 * m then 8 * m - srtt else if srtt > 8 * m + 7 then srtt - (8 * m + 7) else 0
  }

  /** Under a constant sample srtt moves strictly towards the band without passing it, reaches it after
      finitely many calls and then stays, so that srtt >> 3 is the sample itself. */
  lemma {:induction false} SteadyConverges(s: Sock, m: u32, n: nat)
    requires s.srtt > 0 && m >= 1 && 8 * m + 7 < 0x1_0000_0000
    ensures Steady(s, m, n).srtt > 0
    ensures Distance(Steady(s, m, n).srtt, m) <= Max(0, Distance(s.srtt, m) - n)
    ensures s.srtt <= 8 * m + 7 ==> Steady(s, m, n).srtt <= 8 * m + 7
    ensures s.srtt >= 8 * m ==> Steady(s, m, n).srtt >= 8 * m
    ensures n >= Distance(s.srtt, m) ==>
              Steady(s, m, n).srtt / 8 == m && Steady(s, m, n + 1).srtt == Steady(s, m, n).srtt
  {
    if n > 0 {
      SteadyConverges(s, m, n - 1);
      GapShrinks(Steady(s, m, n - 1), m);
    }
    GapShrinks(Steady(s, m, n), m);
  }

  // ----- The connection as it is: snd_una and rtt_seq are never written -----

  function Untouched(cs: seq<u32>): seq<Call> {
    seq(|cs|, i requires 0 <= i < |cs| => Call(cs[i], 0, 0))
  }

  /** The largest of 2000 and every mdev from the first sample on. */
  function Peak(ms: seq<u32>): int {
    if ms == [] then 2000 else Max(Peak(ms[..|ms| - 1]), Run(INIT, Untouched(ms)).mdev)
  }

  lemma CallPeak(s: Sock, m: u32)
    requires s.srtt != 0 ==> s.rttvar == s.mdevMax
    ensures var t := Do(s, Call(m, 0, 0));
      && t.rttvar == t.mdevMax && t.sndUna == t.rttSeq == 0
      && t.rttvar == (if s.srtt != 0 then Max(s.rttvar, t.mdev) else Max(2000, t.mdev))
  {
    hide Wrap, MdevStep;
    WrapSmall(0);
  }

  /** While srtt does not come back to 0, rttvar is that running maximum: it is never brought down again. */
  lemma {:induction false} RttvarIsPeak(ms: seq<u32>)
    requires forall k :: 0 < k < |ms| ==> Run(INIT, Untouched(ms[..k])).srtt != 0
    requires ms != []
    ensures var s := Run(INIT, Untouched(ms));
      s.rttvar == s.mdevMax == Peak(ms) && s.sndUna == s.rttSeq == 0
  {
    hide Do;
    var front := ms[..|ms| - 1];
    assert Untouched(ms)[..|ms| - 1] == Untouched(front);
    if front != [] {
      forall k | 0 < k < |front|
        ensures Run(INIT, Untouched(front[..k])).srtt != 0
      {
        assert front[..k] == ms[..k];
      }
      RttvarIsPeak(front);
    }
    CallPeak(Run(INIT, Untouched(front)), ms[|ms| - 1]);
    assert ms[..|ms| - 1] == front;
  }

  lemma {:induction false} UntouchedBounded(ms: seq<u32>, k: nat, lo: int, hi: int)
    requires 1 <= lo <= hi && 8 * hi < 0x1_0000_0000 && 0 < k <= |ms|
    requires forall i :: 0 <= i < |ms| ==> lo <= Measured(ms[i]) <= hi
    ensures Bounded(Run(INIT, Untouched(ms[..k])), lo, hi)
  {
    RunBounded(Untouched(ms[..k]), lo, hi);
  }

  lemma {:induction false} UntouchedPeak(ms: seq<u32>, k: nat, lo: int, hi: int)
    requires 1 <= lo <= hi && 8 * hi < 0x1_0000_0000 && 0 < k <= |ms|
    requires forall i :: 0 <= i < |ms| ==> lo <= Measured(ms[i]) <= hi
    ensures var s := Run(INIT, Untouched(ms[..k]));
      Rto(s) - s.srtt / 8 == s.rttvar == Peak(ms[..k])
  {
    hide Run, Bounded, Peak, Rto;
    forall j | 0 < j <= k
      ensures Run(INIT, Untouched(ms[..k][..j])).srtt != 0
    {
      assert ms[..k][..j] == ms[..j];
      UntouchedBounded(ms, j, lo, hi);
      BoundedTimeout(Run(INIT, Untouched(ms[..j])), lo, hi);
    }
    UntouchedBounded(ms, k, lo, hi);
    BoundedTimeout(Run(INIT, Untouched(ms[..k])), lo, hi);
    RttvarIsPeak(ms[..k]);
  }

  lemma {:induction false} PeakGrows(ms: seq<u32>, k: nat)
    requires k <= |ms|
    ensures Peak(ms[..k]) <= Peak(ms)
    decreases |ms|
  {
    hide Run;
    if k == |ms| {
      assert ms[..k] == ms;
    } else {
      PeakGrows(ms[..|ms| - 1], k);
      assert ms[..|ms| - 1][..k] == ms[..k];
    }
  }

  /** So the margin of the timeout over the smoothed time, RTO - (srtt >> 3), never decreases over a run. */
  lemma {:induction false} MarginNeverShrinks(ms: seq<u32>, k: nat, lo: int, hi: int)
    requires 1 <= lo <= hi && 8 * hi < 0x1_0000_0000 && 0 < k <= |ms|
    requires forall i :: 0 <= i < |ms| ==> lo <= Measured(ms[i]) <= hi
    ensures var (s, t) := (Run(INIT, Untouched(ms[..k])), Run(INIT, Untouched(ms)));
      && Rto(s) - s.srtt / 8 == s.rttvar == Peak(ms[..k])
      && Rto(t) - t.srtt / 8 == t.rttvar == Peak(ms)
      && s.rttvar <= t.rttvar
  {
    hide Run, Peak, Rto;
    UntouchedPeak(ms, k, lo, hi);
    UntouchedPeak(ms, |ms|, lo, hi);
    assert ms[..|ms|] == ms;
    PeakGrows(ms, k);
  }
}
