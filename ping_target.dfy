/** One monitored host (PingTarget in PingMon.h and PingMon.cpp): a circular
    history of the last four probe outcomes, the burst-of-three timing
    policy, and the fold of a Pinger response into the history.

    The clock is a parameter: `now` is the reading taken when a target
    decides whether to probe, `finish` the reading stamped after the probe.
    The ICMP transport is a parameter too: the response it delivered, or
    None when `Pinger::Ping` could not issue the probe. */
module PingTargets {
  import opened Wrappers
  import opened PingStatistics
  import opened Unsigned32

  /** _history: the three pings of a burst plus one kept from before. */
  const HistoryLength: nat := 4
  /** Seconds after which an idle target is probed again. */
  const SweepSeconds: nat := 120
  /** Probes per burst. */
  const BurstLength: nat := 3

  /** A GetHostnameFunc, known only by its identity. */
  type ResolverId = nat

  /** The second argument of reset: a host name or address, or a function
      that produces one. */
  datatype HostSource = Hostname(hostname: string) | Resolver(resolver: ResolverId)

  /** What the Pinger library hands to the response callback. */
  datatype PingerResponse = PingerResponse(receivedResponse: bool, responseTime: int, timeToLive: int)

  /** The value of the circular buffer: slot RTTs, slot TTLs, the cursor. */
  datatype History = History(rtts: seq<int>, ttls: seq<u8>, ptr: nat)

  predicate WellFormed(h: History) {
    |h.rtts| == HistoryLength && |h.ttls| == HistoryLength && h.ptr < HistoryLength
  }

  /** The buffer after _init: every slot unset, cursor at slot 0. */
  const EmptyHistory: History :=
    History([Unset, Unset, Unset, Unset], [UnknownTtl, UnknownTtl, UnknownTtl, UnknownTtl], 0)

  /** The TTL stored for `ttl`: itself when in [0, 255), else unknown. */
  function ClampTtl(ttl: int): u8 {
    if 0 <= ttl < 255 then ttl as u8 else UnknownTtl
  }

  /** addResponse on the value of the buffer: overwrite the slot under the
      cursor and advance the cursor modulo 4. */
  function Record(h: History, rtt: int, ttl: int): (r: History)
    requires WellFormed(h)
    ensures WellFormed(r)
  {
    History(h.rtts[h.ptr := rtt], h.ttls[h.ptr := ClampTtl(ttl)], (h.ptr + 1) % HistoryLength)
  }

  /** The fold done by _onPingResponse: a reply records its RTT and TTL, a
      missing reply records a timeout (addResponseTimeout is addResponse(-1, -1)). */
  function Absorb(h: History, response: PingerResponse): History
    requires WellFormed(h)
  {
    if response.receivedResponse then Record(h, response.responseTime, response.timeToLive)
    else Record(h, TimedOut, -1)
  }

  /** One argument pair of addResponse. */
  datatype Sample = Sample(rtt: int, ttl: int)

  /** The buffer after recording `xs` in order. */
  function RecordAll(h: History, xs: seq<Sample>): (r: History)
    requires WellFormed(h)
    ensures WellFormed(r)
    decreases |xs|
  {
    if xs == [] then h
    else
      Record(RecordAll(h, xs[..|xs| - 1]), xs[|xs| - 1].rtt, xs[|xs| - 1].ttl)
  }

  /** Distinct positions less than four apart occupy distinct slots. */
  lemma SlotsDiffer(i: nat, j: nat)
    requires i < j < i + HistoryLength
    ensures i % HistoryLength != j % HistoryLength
  {
  }

  /** Advancing a cursor that holds `n mod 4` gives `(n + 1) mod 4`. */
  lemma CursorStep(n: nat)
    ensures (n % HistoryLength + 1) % HistoryLength == (n + 1) % HistoryLength
  {
    var q := n / HistoryLength;
    assert n + 1 == HistoryLength * q + (n % HistoryLength + 1);
  }

  /** Record writes the slot under the cursor and keeps every other slot. */
  lemma RecordSlot(h: History, rtt: int, ttl: int, s: nat)
    requires WellFormed(h) && s < HistoryLength
    ensures Record(h, rtt, ttl).rtts[s] == if s == h.ptr then rtt else h.rtts[s]
    ensures Record(h, rtt, ttl).ttls[s] == if s == h.ptr then ClampTtl(ttl) else h.ttls[s]
  {
  }

  /** After k records since _init the cursor is k mod 4, the slot of each of
      the last four records holds that record, and the slots not yet written
      are still unset: the buffer is a window over the last four outcomes. */
  lemma {:induction false} WindowHoldsLastFour(xs: seq<Sample>)
    ensures RecordAll(EmptyHistory, xs).ptr == |xs| % HistoryLength
    ensures forall i :: 0 <= i < |xs| && |xs| - HistoryLength <= i ==>
      RecordAll(EmptyHistory, xs).rtts[i % HistoryLength] == xs[i].rtt &&
      RecordAll(EmptyHistory, xs).ttls[i % HistoryLength] == ClampTtl(xs[i].ttl)
    ensures forall s :: |xs| <= s < HistoryLength ==>
      RecordAll(EmptyHistory, xs).rtts[s] == Unset &&
      RecordAll(EmptyHistory, xs).ttls[s] == UnknownTtl
    decreases |xs|
  {
    if xs != [] {
      var n := |xs| - 1;
      var front := xs[..n];
      WindowHoldsLastFour(front);
      var h' := RecordAll(EmptyHistory, front);
      var h := RecordAll(EmptyHistory, xs);
      assert h == Record(h', xs[n].rtt, xs[n].ttl);
      CursorStep(n);
      forall i | 0 <= i < |xs| && |xs| - HistoryLength <= i
        ensures h.rtts[i % HistoryLength] == xs[i].rtt
        ensures h.ttls[i % HistoryLength] == ClampTtl(xs[i].ttl)
      {
        RecordSlot(h', xs[n].rtt, xs[n].ttl, i % HistoryLength);
        if i < n {
          assert front[i] == xs[i];
          SlotsDiffer(i, n);
        }
      }
      forall s | |xs| <= s < HistoryLength
        ensures h.rtts[s] == Unset && h.ttls[s] == UnknownTtl
      {
        RecordSlot(h', xs[n].rtt, xs[n].ttl, s);
      }
    }
  }

  /** Once four records have been made, the cursor is on the slot of the
      oldest of the last four, so the next record overwrites the oldest. */
  lemma NextOverwritesOldest(xs: seq<Sample>)
    requires |xs| >= HistoryLength
    ensures var h := RecordAll(EmptyHistory, xs);
      h.rtts[h.ptr] == xs[|xs| - HistoryLength].rtt && h.ttls[h.ptr] == ClampTtl(xs[|xs| - HistoryLength].ttl)
  {
    var h := RecordAll(EmptyHistory, xs);
    var k := |xs| - HistoryLength;
    assert h.ptr == k % HistoryLength by {
      WindowHoldsLastFour(xs);
      CursorLap(k);
    }
    assert h.rtts[k % HistoryLength] == xs[k].rtt && h.ttls[k % HistoryLength] == ClampTtl(xs[k].ttl) by {
      WindowHoldsLastFour(xs);
    }
  }

  /** Four records bring the cursor back round. */
  lemma CursorLap(k: nat)
    ensures (k + HistoryLength) % HistoryLength == k % HistoryLength
  {
    assert k + HistoryLength == HistoryLength * (k / HistoryLength + 1) + k % HistoryLength;
  }

  /** `now - since` on 32-bit unsigned readings. */
  function ElapsedMs(now: int, since: int): (d: nat)
    ensures d < Modulus
    ensures since <= now < since + Modulus ==> d == now - since
  {
    (now - since) % Modulus
  }

  /** The burst policy of PingTarget::update: probe when the last probe is
      more than two minutes old, when there has never been one, or in the
      middle of a burst once a second has passed. */
  predicate Due(totalResponses: nat, secondsPassed: nat) {
    secondsPassed > SweepSeconds
    || totalResponses == 0
    || (totalResponses % BurstLength != 0 && secondsPassed >= 1)
  }

  /** Everything a PingTarget holds, as a value. */
  datatype TargetState = TargetState(
    name: Option<string>,
    hostname: string,
    resolver: Option<ResolverId>,
    history: History,
    lastResponseMs: int,
    totalResponses: nat)

  /** The state of a member of PingMon's target table before any reset: every
      field zero, as for an object of static storage duration. */
  const ZeroState: TargetState :=
    TargetState(None, "", None, History([0, 0, 0, 0], [0, 0, 0, 0], 0), 0, 0)

  /** reset(name, host): a fresh history and counters with the new name
      (None for a null `name`). A host name replaces the stored one and drops
      any resolver; a resolver is installed and the stored host name is kept. */
  function AfterReset(s: TargetState, name: Option<string>, host: HostSource): (r: TargetState)
    ensures r.history == EmptyHistory && r.lastResponseMs == 0 && r.totalResponses == 0
    ensures r.name == name
    ensures host.Hostname? ==> r.hostname == host.hostname && r.resolver == None
    ensures host.Resolver? ==> r.hostname == s.hostname && r.resolver == Some(host.resolver)
  {
    TargetState(
      name,
      if host.Hostname? then host.hostname else s.hostname,
      if host.Hostname? then None else Some(host.resolver),
      EmptyHistory, 0, 0)
  }

  /** A target just reset reports getStats' "all is gone" values: loss 100,
      RTT 999 and TTL 0, since none of its slots counts as sent. */
  lemma ResetTargetReportsAllGone(s: TargetState, name: Option<string>, host: HostSource)
    ensures var h := AfterReset(s, name, host).history;
      Stats(h.rtts, h.ttls) == PingStats(Ratio(100, 1), AllGoneMs, 0)
  {
    var h := EmptyHistory;
    assert forall i :: 0 <= i < |h.rtts| ==> !IsSent(h.rtts[i]) && !IsLost(h.rtts[i]);
    assert SlotsWhere(h.rtts, IsSent) == {} == SlotsWhere(h.rtts, IsLost);
    StatsWhenAllLost(h.rtts, h.ttls);
  }

  /** Whether PingTarget::update probes at `now`. */
  predicate Acts(s: TargetState, now: nat) {
    Due(s.totalResponses, ElapsedMs(now, s.lastResponseMs) / 1000)
  }

  /** PingTarget::update on the value of a target: when due, fold in the
      response if the probe was issued, stamp `finish` and count the probe,
      issued or not; when not due, nothing changes. A due probe calls getHost,
      which stores what an installed resolver returns; `resolved` is what it
      returned at the last of those calls. */
  function AfterUpdate(s: TargetState, now: nat, probe: Option<PingerResponse>, resolved: string,
                       finish: nat): (r: TargetState)
    requires WellFormed(s.history)
    ensures WellFormed(r.history)
  {
    if !Acts(s, now) then s
    else
      var h := if probe.Some? then Absorb(s.history, probe.value) else s.history;
      var host := if s.resolver.Some? then resolved else s.hostname;
      s.(hostname := host, history := h, lastResponseMs := finish, totalResponses := s.totalResponses + 1)
  }

  /** A target reset with a host name keeps probing that name; one reset
      with a resolver probes whatever the resolver returns. */
  lemma ProbeUsesResolvedHost(s: TargetState, name: Option<string>, host: HostSource, now: nat,
                              probe: Option<PingerResponse>, resolved: string, finish: nat)
    ensures var r := AfterUpdate(AfterReset(s, name, host), now, probe, resolved, finish);
      && (host.Hostname? ==> r.hostname == host.hostname)
      && (host.Resolver? ==> r.hostname == resolved && r.resolver == Some(host.resolver))
  {
    assert Acts(AfterReset(s, name, host), now);
  }

  /** The burst of three: a freshly reset target probes at once, then twice
      more at least a second apart; after the third probe it stays idle for
      two minutes and probes again once 121 seconds have passed. */
  lemma BurstOfThree(s: TargetState, name: Option<string>, host: HostSource,
                     t1: nat, f1: nat, t2: nat, f2: nat, t3: nat, f3: nat, t4: nat, t5: nat, resolved: string,
                     p1: Option<PingerResponse>, p2: Option<PingerResponse>,
                     p3: Option<PingerResponse>, p4: Option<PingerResponse>)
    requires f1 + 1000 <= t2 < f1 + Modulus
    requires f2 + 1000 <= t3 < f2 + Modulus
    requires f3 <= t4 < f3 + 121000
    requires f3 + 121000 <= t5 < f3 + Modulus
    ensures var s0 := AfterReset(s, name, host);
      var s1 := AfterUpdate(s0, t1, p1, resolved, f1);
      var s2 := AfterUpdate(s1, t2, p2, resolved, f2);
      var s3 := AfterUpdate(s2, t3, p3, resolved, f3);
      && Acts(s0, t1) && Acts(s1, t2) && Acts(s2, t3)
      && s3.totalResponses == 3 && s3.lastResponseMs == f3
      && !Acts(s3, t4) && AfterUpdate(s3, t4, p4, resolved, t4) == s3
      && Acts(s3, t5)
  {
  }

  /** The static `_onPingResponseTarget` of PingMon.cpp: the one target whose
      probe is outstanding, shared by all targets. */
  class PendingResponse {
    var target: PingTarget?

    constructor ()
      ensures target == null
    {
      target := null;
    }
  }

  class PingTarget {
    /** _name; None is the null pointer, as in a target never reset or one
        reset with a null name. */
    var name: Option<string>
    /** _hostname */
    var hostname: string
    /** _getHostnameFunc */
    var resolver: Option<ResolverId>
    /** _responseTimeMs */
    const rtts: array<int>
    /** _ttls */
    const ttls: array<u8>
    /** _histPtr */
    var histPtr: nat
    /** _lastResponseMs */
    var lastResponseMs: int
    /** _totalResponses */
    var totalResponses: nat

    ghost predicate Valid()
      reads this
    {
      rtts.Length == HistoryLength && ttls.Length == HistoryLength && histPtr < HistoryLength
    }

    ghost function HistoryOf(): History
      reads this, rtts, ttls
    {
      History(rtts[..], ttls[..], histPtr)
    }

    ghost function State(): TargetState
      reads this, rtts, ttls
    {
      TargetState(name, hostname, resolver, HistoryOf(), lastResponseMs, totalResponses)
    }

    constructor ()
      ensures Valid() && fresh(rtts) && fresh(ttls)
      ensures State() == ZeroState
    {
      name, hostname, resolver := None, "", None;
      rtts := new int[HistoryLength](_ => 0);
      ttls := new u8[HistoryLength](_ => 0);
      histPtr, lastResponseMs, totalResponses := 0, 0, 0;
    }

    /** _init: mark every slot unset and clear the cursor and counters. */
    method Init()
      requires Valid()
      modifies this`histPtr, this`lastResponseMs, this`totalResponses, rtts, ttls
      ensures Valid()
      ensures HistoryOf() == EmptyHistory && lastResponseMs == 0 && totalResponses == 0
    {
      for i := 0 to HistoryLength
        invariant forall j :: 0 <= j < i ==> rtts[j] == Unset && ttls[j] == UnknownTtl
      {
        rtts[i] := Unset;
        ttls[i] := UnknownTtl;
      }
      histPtr := 0;
      lastResponseMs := 0;
      totalResponses := 0;
    }

    /** reset, for each of its three overloads. */
    method Reset(name: Option<string>, host: HostSource)
      requires Valid()
      modifies this, rtts, ttls
      ensures Valid()
      ensures State() == AfterReset(old(State()), name, host)
    {
      Init();
      this.name := name;
      match host
      case Hostname(h) =>
        hostname := h;
        resolver := None;
      case Resolver(f) =>
        resolver := Some(f);
    }

    /** getId: the name, or "<INVALID>" when it is null. */
    method GetId() returns (id: string)
      ensures name.Some? ==> id == name.value
      ensures name.None? ==> id == "<INVALID>"
    {
      match name
      case None => id := "<INVALID>";
      case Some(n) => id := n;
    }

    /** addResponse: only the slot under the cursor changes; the TTL is
      clamped; the cursor advances by one modulo 4. */
    method AddResponse(responseTimeMs: int, ttl: int)
      requires Valid()
      modifies this`histPtr, rtts, ttls
      ensures Valid()
      ensures rtts[old(histPtr)] == responseTimeMs
      ensures ttls[old(histPtr)] as int == if 0 <= ttl < 255 then ttl else 255
      ensures forall i :: 0 <= i < HistoryLength && i != old(histPtr) ==>
        rtts[i] == old(rtts[i]) && ttls[i] == old(ttls[i])
      ensures histPtr == (old(histPtr) + 1) % HistoryLength
      ensures HistoryOf() == Record(old(HistoryOf()), responseTimeMs, ttl)
    {
      rtts[histPtr] := responseTimeMs;
      ttls[histPtr] := if ttl >= 0 && ttl < 255 then ttl as u8 else 255;
      histPtr := (histPtr + 1) % HistoryLength;
    }

    /** addResponseTimeout: record the timeout sentinel with an unknown TTL. */
    method AddResponseTimeout()
      requires Valid()
      modifies this`histPtr, rtts, ttls
      ensures Valid()
      ensures rtts[old(histPtr)] == TimedOut && ttls[old(histPtr)] == UnknownTtl
      ensures HistoryOf() == Record(old(HistoryOf()), TimedOut, -1)
    {
      AddResponse(-1, -1);
    }

    /** getStats: the loop over the slots, read-only. */
    method GetStats() returns (stats: PingStats)
      requires Valid()
      ensures stats == Stats(rtts[..], ttls[..])
    {
      var sent: nat, lost: nat, responseTimeMs: nat, ttl: nat := 0, 0, 0, 0;
      ghost var t := Tally(0, 0, 0, 0);
      for i := 0 to HistoryLength
        invariant t == TallyOf(rtts[..i], ttls[..i])
        invariant sent == t.sent && lost == t.lost && ttl == t.ttlSum
        invariant responseTimeMs == t.rttSum % Modulus
      {
        assert rtts[..i + 1] == rtts[..i] + [rtts[i]] && ttls[..i + 1] == ttls[..i] + [ttls[i]];
        TallySnoc(rtts[..i], ttls[..i], rtts[i], ttls[i]);
        if rtts[i] >= 0 {
          sent := sent + 1;
          responseTimeMs := (responseTimeMs + rtts[i]) % Modulus;
          ttl := ttl + ttls[i] as nat;
        } else if rtts[i] == -1 {
          sent := sent + 1;
          lost := lost + 1;
        }
        t := Count(t, rtts[i], ttls[i]);
      }
      assert rtts[..HistoryLength] == rtts[..] && ttls[..HistoryLength] == ttls[..];
      assert Stats(rtts[..], ttls[..]) == Summarize(t);
      var loss := Ratio(100, 1);
      if sent > lost {
        loss := Ratio(lost * 100, sent);
        responseTimeMs := responseTimeMs / (sent - lost);
        DivBound(ttl, sent - lost, 255);
        ttl := ttl / (sent - lost);
      }
      if lost == sent {
        responseTimeMs := AllGoneMs;
      }
      stats := PingStats(loss, responseTimeMs, ttl as u8);
    }

    /** PingTarget::update. `acted` is its result; `misuse` is the
      "Programming error" report, raised when another probe's target is
      still registered. The response (if the probe was issued) is folded in
      through `OnPingResponse`, which clears the registration; a probe that
      could not be issued leaves this target registered. */
    method Update(now: nat, probe: Option<PingerResponse>, resolved: string, finish: nat, pending: PendingResponse)
      returns (acted: bool, misuse: bool)
      requires Valid()
      modifies this, rtts, ttls, pending
      ensures Valid()
      ensures acted == Acts(old(State()), now)
      ensures State() == AfterUpdate(old(State()), now, probe, resolved, finish)
      ensures misuse == (acted && old(pending.target) != null)
      ensures pending.target ==
        if !acted then old(pending.target) else if probe.Some? then null else this
    {
      var timePassed := ElapsedMs(now, lastResponseMs) / 1000;
      if timePassed > SweepSeconds {
      } else if totalResponses == 0 {
      } else if totalResponses % BurstLength != 0 && timePassed >= 1 {
      } else {
        return false, false;
      }
      misuse := pending.target != null;
      pending.target := this;
      if probe.Some? {
        var _ := OnPingResponse(pending, probe.value);
      }
      if resolver.Some? {
        hostname := resolved;
      }
      lastResponseMs := finish;
      totalResponses := totalResponses + 1;
      acted := true;
    }
  }

  /** _onPingResponse: fold the response into the registered target, then
      clear the registration. It returns false: no further pings. */
  method OnPingResponse(pending: PendingResponse, response: PingerResponse) returns (more: bool)
    requires pending.target != null && pending.target.Valid()
    modifies pending, pending.target`histPtr, pending.target.rtts, pending.target.ttls
    ensures pending.target == null && !more
    ensures old(pending.target).Valid()
    ensures old(pending.target).State()
         == old(pending.target.State()).(history := Absorb(old(pending.target.HistoryOf()), response))
  {
    var tgt := pending.target;
    if response.receivedResponse {
      tgt.AddResponse(response.responseTime, response.timeToLive);
    } else {
      tgt.AddResponseTimeout();
    }
    pending.target := null;
    more := false;
  }

  /** A probe that could not be issued leaves its target registered, so the
      next due probe, by any target, reports a programming error although
      nothing is outstanding. */
  method StaleRegistrationAfterUnissuedProbe(a: PingTarget, b: PingTarget, pending: PendingResponse,
                                              now: nat, later: nat)
    returns (first: bool, second: bool)
    requires a.Valid() && b.Valid() && a != b && a.totalResponses == 0 && b.totalResponses == 0
    requires pending.target == null
    modifies a, a.rtts, a.ttls, b, b.rtts, b.ttls, pending
    ensures !first && second
  {
    var acted;
    acted, first := a.Update(now, None, "", now, pending);
    assert pending.target == a;
    acted, second := b.Update(later, None, "", later, pending);
  }
}
