/** The round-robin scheduler of PingMon.h: a fixed table of six targets,
    registration into the next free entry, and a time-budgeted pass that
    resumes where the previous one stopped.

    Each visit of the pass reads the clock three times: when the target
    decides whether to probe, after its probe, and when the scheduler checks
    its budget. Those readings, the probe outcome and the host name a
    resolver returned are the `Visit` values passed to `PingMon.Update`. */
module PingMonitor {
  import opened Wrappers
  import opened PingTargets

  /** _maxTargets */
  const MaxTargets: nat := 6
  /** A pass stops after the first target that takes it past this many ms. */
  const BudgetMs: nat := 500

  /** The inputs of one iteration of the loop in PingMon::update. */
  datatype Visit = Visit(start: nat, probe: Option<PingerResponse>, resolved: string, finish: nat, check: nat)

  /** True if, after visit `v`, the pass begun at `t0` is over its budget. */
  predicate OverBudget(t0: nat, v: Visit) {
    ElapsedMs(v.check, t0) > BudgetMs
  }

  /** The value of `i` after the loop, continued from iteration `i`. */
  function ProcessedFrom(t0: nat, visits: seq<Visit>, n: nat, i: nat): (k: nat)
    requires i <= n <= |visits|
    ensures i <= k <= n && (i < n ==> i < k)
    ensures forall j :: i <= j < k - 1 ==> !OverBudget(t0, visits[j])
    ensures k < n ==> OverBudget(t0, visits[k - 1])
    decreases n - i
  {
    if i == n then n
    else if OverBudget(t0, visits[i]) then i + 1
    else ProcessedFrom(t0, visits, n, i + 1)
  }

  /** How many targets a pass over `n` targets visits: all of them, or up to
      and including the first visit that ends over budget. */
  function Processed(t0: nat, visits: seq<Visit>, n: nat): (k: nat)
    requires n <= |visits|
    ensures k <= n && (0 < n ==> 0 < k)
    ensures forall j :: 0 <= j < k - 1 ==> !OverBudget(t0, visits[j])
    ensures k < n ==> OverBudget(t0, visits[k - 1])
  {
    ProcessedFrom(t0, visits, n, 0)
  }

  /** The contract of `Processed` determines it: `k` is the count when no
      visit before the `k`-th was over budget and either that one was or the
      pass is complete. */
  lemma ProcessedIs(t0: nat, visits: seq<Visit>, n: nat, k: nat)
    requires 0 < k <= n <= |visits|
    requires forall j :: 0 <= j < k - 1 ==> !OverBudget(t0, visits[j])
    requires k == n || OverBudget(t0, visits[k - 1])
    ensures Processed(t0, visits, n) == k
  {
  }

  /** A pass in which no visit before the last ends over budget visits every
      target. */
  lemma {:induction false} ProcessedFromAll(t0: nat, visits: seq<Visit>, n: nat, i: nat)
    requires i <= n <= |visits|
    requires forall j :: i <= j < n - 1 ==> !OverBudget(t0, visits[j])
    ensures ProcessedFrom(t0, visits, n, i) == n
    decreases n - i
  {
    if i < n - 1 {
      ProcessedFromAll(t0, visits, n, i + 1);
    }
  }

  /** A full pass leaves the resume cursor where it was. */
  lemma FullPassKeepsCursor(t0: nat, visits: seq<Visit>, n: nat, c: nat)
    requires c < n <= |visits|
    requires forall j :: 0 <= j < n - 1 ==> !OverBudget(t0, visits[j])
    ensures Processed(t0, visits, n) == n
    ensures (c + Processed(t0, visits, n)) % n == c
  {
    ProcessedFromAll(t0, visits, n, 0);
    ModInRange(c + n, n);
  }

  /** With three targets, a slow second target ends the pass there, and the
      next pass starts with the third. */
  lemma SlowSecondTarget(t0: nat, visits: seq<Visit>)
    requires |visits| >= 3
    requires !OverBudget(t0, visits[0]) && OverBudget(t0, visits[1])
    ensures Processed(t0, visits, 3) == 2
    ensures (0 + Processed(t0, visits, 3)) % 3 == 2
  {
  }

  /** The table index of visit `i` of a pass over `n` targets that starts at
      target `c`; also the resume cursor after `i` visits. */
  function Slot(i: nat, c: nat, n: nat): (r: nat)
    requires 0 < n
    ensures r < n
  {
    (i + c) % n
  }

  /** The position of target `j` in a pass over `n` targets starting at
      target `c`: how many steps round the table `j` lies after `c`. */
  function Offset(j: nat, c: nat, n: nat): int {
    if j >= c then j - c else j + n - c
  }

  lemma ModInRange(x: int, n: int)
    requires 0 < n && 0 <= x < 2 * n
    ensures x % n == if x < n then x else x - n
  {
    if x >= n {
      assert x == (x - n) + n;
    }
  }

  /** The `i`-th visit of a pass starting at `c` goes to target `(i + c) % n`,
      and that is the only target at position `i`. */
  lemma OffsetOfVisit(i: nat, c: nat, n: nat, j: nat)
    requires i < n && c < n && j < n
    ensures (i + c) % n < n
    ensures Offset(j, c, n) == i <==> j == (i + c) % n
  {
    ModInRange(i + c, n);
  }

  /** The state of target `j` after the first `k` visits of a pass over `n`
      targets that started at target `c`: visit `i` goes to target
      `(i + c) % n` and updates it as PingTarget::update does. */
  function AfterPass(s: TargetState, j: nat, c: nat, n: nat, k: nat, visits: seq<Visit>): (r: TargetState)
    requires WellFormed(s.history) && 0 < n && k <= |visits|
    ensures WellFormed(r.history)
  {
    if k == 0 then s
    else
      var before := AfterPass(s, j, c, n, k - 1, visits);
      var v := visits[k - 1];
      if Slot(k - 1, c, n) == j then AfterUpdate(before, v.start, v.probe, v.resolved, v.finish)
      else before
  }

  /** Within one pass each target is visited at most once: a target ends
      the first `k` visits updated by its own visit if its position in the
      pass is below `k`, and untouched otherwise. Targets beyond `n` are
      never visited. */
  lemma {:induction false} VisitedAtMostOnce(s: TargetState, j: nat, c: nat, n: nat, k: nat, visits: seq<Visit>)
    requires WellFormed(s.history) && c < n && k <= n <= |visits|
    ensures AfterPass(s, j, c, n, k, visits) ==
      if j < n && Offset(j, c, n) < k then
        AfterUpdate(s, visits[Offset(j, c, n)].start, visits[Offset(j, c, n)].probe, visits[Offset(j, c, n)].resolved,
                    visits[Offset(j, c, n)].finish)
      else s
  {
    if k > 0 {
      VisitedAtMostOnce(s, j, c, n, k - 1, visits);
      ModInRange(k - 1 + c, n);
      if j < n {
        OffsetOfVisit(k - 1, c, n, j);
      }
    }
  }

  /** Whether visit `k` of a pass over targets starting in states `s0` finds
      its target due, so that PingTarget::update probes. */
  predicate ActsAt(s0: seq<TargetState>, c: nat, n: nat, k: nat, visits: seq<Visit>)
    requires |s0| == MaxTargets && forall j :: 0 <= j < MaxTargets ==> WellFormed(s0[j].history)
    requires 0 < n <= MaxTargets && k < |visits|
  {
    var j := Slot(k, c, n);
    Acts(AfterPass(s0[j], j, c, n, k, visits), visits[k].start)
  }

  /** `_onPingResponseTarget` after the first `k` visits of a pass, from `p`
      before it: a visit that probes registers its target, and the response
      callback clears the registration when the probe was issued. */
  function PendingAfter(p: PingTarget?, ts: seq<PingTarget>, s0: seq<TargetState>,
                        c: nat, n: nat, k: nat, visits: seq<Visit>): PingTarget?
    requires |ts| == |s0| == MaxTargets && forall j :: 0 <= j < MaxTargets ==> WellFormed(s0[j].history)
    requires 0 < n <= MaxTargets && k <= |visits|
  {
    if k == 0 then p
    else
      var before := PendingAfter(p, ts, s0, c, n, k - 1, visits);
      if !ActsAt(s0, c, n, k - 1, visits) then before
      else if visits[k - 1].probe.Some? then null
      else ts[Slot(k - 1, c, n)]
  }

  /** Whether one of the first `k` visits of a pass reported the programming
      error: it probed while a target was still registered. */
  predicate MisusedIn(p: PingTarget?, ts: seq<PingTarget>, s0: seq<TargetState>,
                      c: nat, n: nat, k: nat, visits: seq<Visit>)
    requires |ts| == |s0| == MaxTargets && forall j :: 0 <= j < MaxTargets ==> WellFormed(s0[j].history)
    requires 0 < n <= MaxTargets && k <= |visits|
  {
    k > 0 &&
    (MisusedIn(p, ts, s0, c, n, k - 1, visits)
     || (ActsAt(s0, c, n, k - 1, visits) && PendingAfter(p, ts, s0, c, n, k - 1, visits) != null))
  }

  /** A pass that starts with nothing registered and whose every probe is
      issued ends with nothing registered and reports no error. */
  lemma {:induction false} IssuedProbesLeaveNothingPending(ts: seq<PingTarget>, s0: seq<TargetState>,
                                                           c: nat, n: nat, k: nat, visits: seq<Visit>)
    requires |ts| == |s0| == MaxTargets && forall j :: 0 <= j < MaxTargets ==> WellFormed(s0[j].history)
    requires 0 < n <= MaxTargets && k <= |visits|
    requires forall i :: 0 <= i < k ==> visits[i].probe.Some?
    ensures PendingAfter(null, ts, s0, c, n, k, visits) == null
    ensures !MisusedIn(null, ts, s0, c, n, k, visits)
  {
    if k > 0 {
      IssuedProbesLeaveNothingPending(ts, s0, c, n, k - 1, visits);
    }
  }

  /** A visit whose probe is not issued leaves its target registered until
      the next visit that probes, which reports the programming error. */
  lemma UnissuedProbeIsReported(p: PingTarget?, ts: seq<PingTarget>, s0: seq<TargetState>,
                                c: nat, n: nat, i: nat, visits: seq<Visit>)
    requires |ts| == |s0| == MaxTargets && forall j :: 0 <= j < MaxTargets ==> WellFormed(s0[j].history)
    requires 0 < n <= MaxTargets && i + 1 < |visits|
    requires ActsAt(s0, c, n, i, visits) && visits[i].probe.None?
    requires ActsAt(s0, c, n, i + 1, visits)
    ensures PendingAfter(p, ts, s0, c, n, i + 1, visits) == ts[Slot(i, c, n)]
    ensures MisusedIn(p, ts, s0, c, n, i + 2, visits)
  {
  }

  /** Targets that are valid, zeroed and pairwise distinct, arrays included. */
  ghost predicate Zeroed(ts: seq<PingTarget>)
    reads set i | 0 <= i < |ts| :: ts[i]
    reads set i | 0 <= i < |ts| :: ts[i].rtts
    reads set i | 0 <= i < |ts| :: ts[i].ttls
  {
    && (forall i :: 0 <= i < |ts| ==> ts[i].Valid() && ts[i].State() == ZeroState)
    && (forall i, j :: 0 <= i < j < |ts| ==>
          ts[i] != ts[j] && ts[i].rtts != ts[j].rtts && ts[i].ttls != ts[j].ttls)
  }

  class PingMon {
    /** _dests: six distinct target objects, fixed for the monitor's life. */
    const dests: seq<PingTarget>
    /** _nTargets */
    var nTargets: nat
    /** _curTarget: where the next pass starts. */
    var curTarget: nat

    /** The target objects. */
    ghost function Targets(): set<PingTarget> {
      set i | 0 <= i < |dests| :: dests[i]
    }

    /** The states of the table entries. */
    ghost function States(): (r: seq<TargetState>)
      reads Objects()
      ensures |r| == |dests| && forall j :: 0 <= j < |dests| ==> r[j] == dests[j].State()
    {
      seq(|dests|, j requires 0 <= j < |dests| reads Objects() => dests[j].State())
    }

    /** Every object of every target. */
    ghost function Objects(): set<object> {
      (set i | 0 <= i < |dests| :: dests[i] as object)
      + (set i | 0 <= i < |dests| :: dests[i].rtts as object)
      + (set i | 0 <= i < |dests| :: dests[i].ttls as object)
    }

    ghost predicate Valid()
      reads this, Targets()
    {
      && |dests| == MaxTargets
      && nTargets <= MaxTargets
      && (if nTargets == 0 then curTarget == 0 else curTarget < nTargets)
      && (forall i :: 0 <= i < MaxTargets ==> dests[i].Valid())
      && (forall i, j :: 0 <= i < j < MaxTargets ==>
            dests[i] != dests[j] && dests[i].rtts != dests[j].rtts && dests[i].ttls != dests[j].ttls)
    }

    /** PingMon(): no targets, cursor 0; the table holds zeroed targets. */
    constructor ()
      ensures Valid() && nTargets == 0 && curTarget == 0
      ensures forall j :: 0 <= j < MaxTargets ==> dests[j].State() == ZeroState
      ensures fresh(Objects())
    {
      // The member array _dests is default-constructed element by element.
      var ts: seq<PingTarget> := [];
      while |ts| < MaxTargets
        invariant |ts| <= MaxTargets && Zeroed(ts)
        invariant forall i :: 0 <= i < |ts| ==> fresh(ts[i]) && fresh(ts[i].rtts) && fresh(ts[i].ttls)
      {
        var t := new PingTarget();
        ts := ts + [t];
      }
      dests := ts;
      nTargets := 0;
      curTarget := 0;
    }

    /** getTargetCount */
    method GetTargetCount() returns (n: nat)
      requires Valid()
      ensures n == nTargets && n <= MaxTargets
    {
      n := nTargets;
    }

    /** getTarget: any entry of the table, registered or not. */
    method GetTarget(i: int) returns (t: PingTarget)
      requires Valid() && 0 <= i < MaxTargets
      ensures t == dests[i] && t.Valid()
    {
      t := dests[i];
    }

    /** addTarget: a full table ignores the registration; otherwise the next
      free entry is reset with the name and host and becomes registered. */
    method AddTarget(name: Option<string>, host: HostSource)
      requires Valid()
      modifies this`nTargets, Objects()
      ensures Valid() && nTargets <= MaxTargets
      ensures old(nTargets) == MaxTargets ==> nTargets == old(nTargets)
      ensures old(nTargets) < MaxTargets ==> nTargets == old(nTargets) + 1
      ensures forall j :: 0 <= j < MaxTargets ==>
        dests[j].State() == (if j == old(nTargets) then AfterReset(old(dests[j].State()), name, host)
                             else old(dests[j].State()))
    {
      if nTargets >= MaxTargets {
        return;
      }
      dests[nTargets].Reset(name, host);
      nTargets := nTargets + 1;
    }

    /** Where a pass stands after `i` visits, relative to the states `s0`
      and the registration `p` it started from. */
    ghost predicate Midway(s0: seq<TargetState>, p: PingTarget?, pending: PendingResponse, i: nat, visits: seq<Visit>)
      reads this, Objects(), pending
    {
      && Valid() && 0 < nTargets && i <= nTargets <= |visits|
      && |s0| == MaxTargets && (forall j :: 0 <= j < MaxTargets ==> WellFormed(s0[j].history))
      && (forall j :: 0 <= j < MaxTargets ==>
            dests[j].State() == AfterPass(s0[j], j, curTarget, nTargets, i, visits))
      && pending.target == PendingAfter(p, dests, s0, curTarget, nTargets, i, visits)
    }

    /** The body of the loop of update, up to the budget check: visit `i`
      of the pass goes to entry `(i + curTarget) % nTargets`, and the table
      and the registration go from `i` visits done to `i + 1`. The entry's
      error report, which the source ignores, is added to `misuse`. */
    method VisitNext(i: nat, visits: seq<Visit>, pending: PendingResponse,
                     ghost s0: seq<TargetState>, ghost p: PingTarget?, misuse: bool) returns (misuse': bool)
      requires Midway(s0, p, pending, i, visits) && i < nTargets
      requires misuse == MisusedIn(p, dests, s0, curTarget, nTargets, i, visits)
      modifies Objects(), pending
      ensures Midway(s0, p, pending, i + 1, visits)
      ensures misuse' == MisusedIn(p, dests, s0, curTarget, nTargets, i + 1, visits)
    {
      var cur := Slot(i, curTarget, nTargets);
      var v := visits[i];
      ghost var before := States();
      var acted, reported := dests[cur].Update(v.start, v.probe, v.resolved, v.finish, pending);
      misuse' := misuse || reported;
      forall j | 0 <= j < MaxTargets
        ensures dests[j].State() == AfterPass(s0[j], j, curTarget, nTargets, i + 1, visits)
      {
        if j != cur {
          assert dests[j] != dests[cur] && dests[j].rtts != dests[cur].rtts && dests[j].ttls != dests[cur].ttls;
          assert dests[j].State() == before[j];
        }
      }
    }

    /** The loop of update: visit entries `(i + curTarget) % nTargets` for
      i = 0, 1, ..., stopping after all of them or after the first visit
      that ends more than 500 ms after `t0`; `i` is the count of visits. */
    method Pass(t0: nat, visits: seq<Visit>, pending: PendingResponse,
                ghost s0: seq<TargetState>, ghost p: PingTarget?) returns (i: nat, misuse: bool)
      requires Midway(s0, p, pending, 0, visits)
      modifies Objects(), pending
      ensures i == Processed(t0, visits, nTargets)
      ensures Midway(s0, p, pending, i, visits)
      ensures misuse == MisusedIn(p, dests, s0, curTarget, nTargets, i, visits)
    {
      misuse := false;
      i := 0;
      while i < nTargets
        invariant i <= nTargets
        invariant ProcessedFrom(t0, visits, nTargets, i) == Processed(t0, visits, nTargets)
        invariant Midway(s0, p, pending, i, visits)
        invariant misuse == MisusedIn(p, dests, s0, curTarget, nTargets, i, visits)
      {
        var v := visits[i];
        misuse := VisitNext(i, visits, pending, s0, p, misuse);
        if OverBudget(t0, v) {
          i := i + 1;
          break;
        }
        i := i + 1;
      }
    }

    /** update: one pass from the cursor, then resume next time after the
      last entry visited. Entry `j` is visited at most once, by visit
      `Offset(j, ...)`. `misuse` tells whether some visit reported the
      programming error. */
    method Update(t0: nat, visits: seq<Visit>, pending: PendingResponse) returns (misuse: bool)
      requires Valid() && nTargets > 0 && |visits| >= nTargets
      modifies this`curTarget, Objects(), pending
      ensures Valid() && nTargets == old(nTargets) && curTarget < nTargets
      ensures curTarget == Slot(Processed(t0, visits, nTargets), old(curTarget), nTargets)
      ensures forall j :: 0 <= j < MaxTargets ==>
        dests[j].State() == AfterPass(old(dests[j].State()), j, old(curTarget), nTargets, Processed(t0, visits, nTargets), visits)
      ensures pending.target
           == PendingAfter(old(pending.target), dests, old(States()), old(curTarget), nTargets,
                           Processed(t0, visits, nTargets), visits)
      ensures misuse
           == MisusedIn(old(pending.target), dests, old(States()), old(curTarget), nTargets,
                        Processed(t0, visits, nTargets), visits)
    {
      ghost var s0 := States();
      ghost var p := pending.target;
      assert this !in Objects();
      var i;
      i, misuse := Pass(t0, visits, pending, s0, p);
      curTarget := Slot(i, curTarget, nTargets);
    }
  }

  /** A monitor built and given three targets: each registration takes the
      next entry of the table in order, and the cursor stays at the first. */
  method ThreeTargets(r: ResolverId) returns (m: PingMon)
    ensures fresh(m) && m.Valid()
    ensures m.nTargets == 3 && m.curTarget == 0
    ensures m.dests[0].State() == AfterReset(ZeroState, Some("gateway"), Hostname("192.168.1.1"))
    ensures m.dests[1].State() == AfterReset(ZeroState, Some("dns"), Hostname("8.8.8.8"))
    ensures m.dests[2].State() == AfterReset(ZeroState, Some("remote"), Resolver(r))
  {
    m := new PingMon();
    m.AddTarget(Some("gateway"), Hostname("192.168.1.1"));
    m.AddTarget(Some("dns"), Hostname("8.8.8.8"));
    m.AddTarget(Some("remote"), Resolver(r));
  }
}
