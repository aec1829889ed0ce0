/** The statistics a PingTarget derives from its history (getStats in
    PingMon.cpp): loss, mean round-trip time and mean TTL over the slots of
    the circular buffer. */
module PingStatistics {
  import opened Unsigned32

  /** unsigned char */
  newtype u8 = x: int | 0 <= x < 256

  /** The slot has not been written since the last reset. */
  const Unset: int := -32768
  /** The probe of this slot got no reply. */
  const TimedOut: int := -1
  /** The TTL stored when none is known. */
  const UnknownTtl: u8 := 255
  /** The mean RTT reported when no probe was answered. */
  const AllGoneMs: nat := 999

  /** A loss percentage as the exact fraction `num / den`; the source keeps
      it as a float. */
  datatype Ratio = Ratio(num: nat, den: nat)

  /** PingStats: loss in percent, mean RTT in milliseconds, mean TTL. */
  datatype PingStats = PingStats(loss: Ratio, responseTimeMs: nat, ttl: u8)

  /** A slot counts as a probe sent when it holds an RTT or a timeout. */
  predicate IsSent(rtt: int) {
    rtt >= 0 || rtt == TimedOut
  }

  /** A slot counts as lost when it holds a timeout. */
  predicate IsLost(rtt: int) {
    rtt == TimedOut
  }

  /** The loop's accumulators after a prefix of the slots. */
  datatype Tally = Tally(sent: nat, lost: nat, rttSum: nat, ttlSum: nat)

  /** Slots answered: sent and not lost. */
  function Answered(t: Tally): nat
    requires t.lost <= t.sent
  {
    t.sent - t.lost
  }

  /** One iteration of the getStats loop: an RTT counts as sent and adds to
      both sums, a timeout counts as sent and lost, anything else is skipped. */
  function Count(t: Tally, rtt: int, ttl: u8): Tally {
    if rtt >= 0 then Tally(t.sent + 1, t.lost, t.rttSum + rtt, t.ttlSum + ttl as int)
    else if rtt == TimedOut then Tally(t.sent + 1, t.lost + 1, t.rttSum, t.ttlSum)
    else t
  }

  /** The accumulators of getStats after visiting the slots in order. */
  function TallyOf(rtts: seq<int>, ttls: seq<u8>): (t: Tally)
    requires |rtts| == |ttls|
    ensures t.lost <= t.sent <= |rtts|
    ensures t.ttlSum <= 255 * (t.sent - t.lost)
    decreases |rtts|
  {
    if rtts == [] then Tally(0, 0, 0, 0)
    else Count(TallyOf(rtts[..|rtts| - 1], ttls[..|ttls| - 1]), rtts[|rtts| - 1], ttls[|ttls| - 1])
  }

  /** Visiting one more slot is one more iteration of the loop. */
  lemma TallySnoc(rtts: seq<int>, ttls: seq<u8>, rtt: int, ttl: u8)
    requires |rtts| == |ttls|
    ensures TallyOf(rtts + [rtt], ttls + [ttl]) == Count(TallyOf(rtts, ttls), rtt, ttl)
  {
    assert (rtts + [rtt])[..|rtts|] == rtts && (ttls + [ttl])[..|ttls|] == ttls;
  }

  /** The indices of the slots that satisfy `p`. */
  function SlotsWhere(rtts: seq<int>, p: int -> bool): set<nat> {
    set i: nat | i < |rtts| && p(rtts[i])
  }

  /** The slots of `rtts` that satisfy `p` are those of its prefix without
      the last slot, and the last slot when it satisfies `p`. */
  lemma SlotsWhereSnoc(rtts: seq<int>, p: int -> bool)
    requires rtts != []
    ensures var n := |rtts| - 1;
      && n !in SlotsWhere(rtts[..n], p)
      && SlotsWhere(rtts, p) == SlotsWhere(rtts[..n], p) + (if p(rtts[n]) then {n} else {})
  {
    var n := |rtts| - 1;
    var front := rtts[..n];
    forall i: nat | i < n
      ensures front[i] == rtts[i]
    {
    }
  }

  /** The tally counts slots: `sent` is the number of slots holding an RTT or
      a timeout, `lost` the number holding a timeout; unset slots and other
      negative values are not counted. */
  lemma {:induction false} TallyCounts(rtts: seq<int>, ttls: seq<u8>)
    requires |rtts| == |ttls|
    ensures TallyOf(rtts, ttls).sent == |SlotsWhere(rtts, IsSent)|
    ensures TallyOf(rtts, ttls).lost == |SlotsWhere(rtts, IsLost)|
    decreases |rtts|
  {
    if rtts != [] {
      var n := |rtts| - 1;
      TallyCounts(rtts[..n], ttls[..n]);
      SlotsWhereSnoc(rtts, IsSent);
      SlotsWhereSnoc(rtts, IsLost);
    }
  }

  /** The RTT of an answered slot, 0 for any other slot. */
  function AnsweredRtt(rtt: int): nat {
    if rtt >= 0 then rtt else 0
  }

  /** The TTL of an answered slot, 0 for any other slot. */
  function AnsweredTtl(rtt: int, ttl: u8): nat {
    if rtt >= 0 then ttl as nat else 0
  }

  /** The sum of the RTTs of the answered slots, taken from the front. */
  function RttTotal(rtts: seq<int>): nat {
    if rtts == [] then 0 else AnsweredRtt(rtts[0]) + RttTotal(rtts[1..])
  }

  /** The sum of the TTLs of the answered slots, taken from the front. */
  function TtlTotal(rtts: seq<int>, ttls: seq<u8>): nat
    requires |rtts| == |ttls|
  {
    if rtts == [] then 0 else AnsweredTtl(rtts[0], ttls[0]) + TtlTotal(rtts[1..], ttls[1..])
  }

  /** One more slot at the back adds its answered RTT and TTL. */
  lemma {:induction false} TotalsSnoc(rtts: seq<int>, ttls: seq<u8>, rtt: int, ttl: u8)
    requires |rtts| == |ttls|
    ensures RttTotal(rtts + [rtt]) == RttTotal(rtts) + AnsweredRtt(rtt)
    ensures TtlTotal(rtts + [rtt], ttls + [ttl]) == TtlTotal(rtts, ttls) + AnsweredTtl(rtt, ttl)
    decreases |rtts|
  {
    if rtts != [] {
      assert (rtts + [rtt])[1..] == rtts[1..] + [rtt];
      assert (ttls + [ttl])[1..] == ttls[1..] + [ttl];
      TotalsSnoc(rtts[1..], ttls[1..], rtt, ttl);
    }
  }

  /** The loop's sums are the sums of the RTTs and of the TTLs of the slots
      holding an RTT; timeouts and unset slots add nothing. */
  lemma {:induction false} TallySums(rtts: seq<int>, ttls: seq<u8>)
    requires |rtts| == |ttls|
    ensures TallyOf(rtts, ttls).rttSum == RttTotal(rtts)
    ensures TallyOf(rtts, ttls).ttlSum == TtlTotal(rtts, ttls)
    decreases |rtts|
  {
    if rtts != [] {
      var n := |rtts| - 1;
      TallySums(rtts[..n], ttls[..n]);
      assert rtts == rtts[..n] + [rtts[n]] && ttls == ttls[..n] + [ttls[n]];
      TotalsSnoc(rtts[..n], ttls[..n], rtts[n], ttls[n]);
    }
  }

  /** When every answered slot has an RTT of at most `bound`, the RTT sum is at
      most `bound` per answered slot. */
  lemma {:induction false} RttSumBounded(rtts: seq<int>, ttls: seq<u8>, bound: nat)
    requires |rtts| == |ttls|
    requires forall i :: 0 <= i < |rtts| && rtts[i] >= 0 ==> rtts[i] <= bound
    ensures TallyOf(rtts, ttls).rttSum <= bound * Answered(TallyOf(rtts, ttls))
    decreases |rtts|
  {
    if rtts != [] {
      var n := |rtts| - 1;
      var front := rtts[..n];
      assert forall i :: 0 <= i < n ==> front[i] == rtts[i];
      RttSumBounded(front, ttls[..n], bound);
      CountKeepsBound(TallyOf(front, ttls[..n]), rtts[n], ttls[n], bound);
    }
  }

  /** The bound survives one more slot whose RTT, if any, is within it. */
  lemma CountKeepsBound(t: Tally, rtt: int, ttl: u8, bound: nat)
    requires t.lost <= t.sent && t.rttSum <= bound * Answered(t)
    requires rtt >= 0 ==> rtt <= bound
    ensures var t' := Count(t, rtt, ttl);
      t'.lost <= t'.sent && t'.rttSum <= bound * Answered(t')
  {
    if rtt >= 0 {
      SumStep(t.rttSum, Answered(t), rtt, bound);
    }
  }

  /** One more answered slot of at most `bound` keeps the sum within bound. */
  lemma SumStep(sum: nat, answered: nat, rtt: nat, bound: nat)
    requires sum <= bound * answered && rtt <= bound
    ensures sum + rtt <= bound * (answered + 1)
  {
  }

  /** x / n <= c when x <= c * n. */
  lemma DivBound(x: nat, n: nat, c: nat)
    requires n > 0 && x <= c * n
    ensures x / n <= c
  {
  }

  /** The second half of getStats: loss and means from the accumulators.
      The RTT accumulator is an `unsigned`, so its sum is taken modulo 2^32. */
  function Summarize(t: Tally): PingStats
    requires t.lost <= t.sent && t.ttlSum <= 255 * (t.sent - t.lost)
  {
    var rttAcc := t.rttSum % Modulus;
    var answering := t.sent > t.lost;
    var loss := if answering then Ratio(t.lost * 100, t.sent) else Ratio(100, 1);
    var rtt := if answering then rttAcc / Answered(t) else rttAcc;
    var ttl := if answering then t.ttlSum / Answered(t) else t.ttlSum;
    var rtt' := if t.lost == t.sent then AllGoneMs else rtt;
    assert ttl <= 255 by {
      if answering {
        DivBound(t.ttlSum, Answered(t), 255);
      }
    }
    PingStats(loss, rtt', ttl as u8)
  }

  /** getStats: tally the slots, then derive loss and means. */
  function Stats(rtts: seq<int>, ttls: seq<u8>): PingStats
    requires |rtts| == |ttls|
  {
    Summarize(TallyOf(rtts, ttls))
  }

  /** Loss is a percentage in [0, 100] with a positive denominator. */
  lemma LossInRange(rtts: seq<int>, ttls: seq<u8>)
    requires |rtts| == |ttls|
    ensures Stats(rtts, ttls).loss.den > 0
    ensures Stats(rtts, ttls).loss.num <= 100 * Stats(rtts, ttls).loss.den
  {
  }

  /** When some probe was answered: loss is 100 * lost / sent, and the means
      are the RTT sum (modulo 2^32) and the TTL sum divided by the number of
      answered slots, truncated. */
  lemma StatsWhenAnswered(rtts: seq<int>, ttls: seq<u8>)
    requires |rtts| == |ttls|
    requires |SlotsWhere(rtts, IsSent)| > |SlotsWhere(rtts, IsLost)|
    ensures var s := Stats(rtts, ttls);
      var answered := |SlotsWhere(rtts, IsSent)| - |SlotsWhere(rtts, IsLost)|;
      && s.loss == Ratio(100 * |SlotsWhere(rtts, IsLost)|, |SlotsWhere(rtts, IsSent)|)
      && s.responseTimeMs == (RttTotal(rtts) % Modulus) / answered
      && s.ttl as int == TtlTotal(rtts, ttls) / answered
  {
    TallyCounts(rtts, ttls);
    TallySums(rtts, ttls);
  }

  /** When nothing was answered, including when nothing was sent: loss 100,
      RTT 999 ("all is gone") and TTL 0. */
  lemma StatsWhenAllLost(rtts: seq<int>, ttls: seq<u8>)
    requires |rtts| == |ttls|
    requires |SlotsWhere(rtts, IsSent)| == |SlotsWhere(rtts, IsLost)|
    ensures Stats(rtts, ttls) == PingStats(Ratio(100, 1), AllGoneMs, 0)
  {
    TallyCounts(rtts, ttls);
  }

  /** The mean RTT is no more than any bound on the answered RTTs, so no more
      than the largest of them. */
  lemma MeanRttAtMostMax(rtts: seq<int>, ttls: seq<u8>, bound: nat)
    requires |rtts| == |ttls|
    requires forall i :: 0 <= i < |rtts| && rtts[i] >= 0 ==> rtts[i] <= bound
    requires |SlotsWhere(rtts, IsSent)| > |SlotsWhere(rtts, IsLost)|
    ensures Stats(rtts, ttls).responseTimeMs <= bound
  {
    TallyCounts(rtts, ttls);
    var t := TallyOf(rtts, ttls);
    RttSumBounded(rtts, ttls, bound);
    DivBound(t.rttSum % Modulus, Answered(t), bound);
  }

  /** The tally of a four-slot history is four iterations of the loop. */
  lemma TallyOfFour(rtts: seq<int>, ttls: seq<u8>)
    requires |rtts| == |ttls| == 4
    ensures TallyOf(rtts, ttls)
         == Count(Count(Count(Count(Tally(0, 0, 0, 0), rtts[0], ttls[0]), rtts[1], ttls[1]),
                        rtts[2], ttls[2]), rtts[3], ttls[3])
  {
    forall i | 0 <= i < 4
      ensures TallyOf(rtts[..i + 1], ttls[..i + 1]) == Count(TallyOf(rtts[..i], ttls[..i]), rtts[i], ttls[i])
    {
      assert rtts[..i + 1] == rtts[..i] + [rtts[i]] && ttls[..i + 1] == ttls[..i] + [ttls[i]];
      TallySnoc(rtts[..i], ttls[..i], rtts[i], ttls[i]);
    }
    assert rtts[..4] == rtts && ttls[..4] == ttls;
  }

  /** A burst with one timeout: RTTs 10, timeout, 20, 30 with TTLs 64, 60, 50
      give 25 % loss, mean RTT 20 and mean TTL 58. */
  lemma ExampleOneTimeout(rtts: seq<int>, ttls: seq<u8>)
    requires rtts == [10, -1, 20, 30] && ttls == [64, 255, 60, 50]
    ensures Stats(rtts, ttls) == PingStats(Ratio(100, 4), 20, 58)
  {
    TallyOfFour(rtts, ttls);
  }
}
