/** The pending-request counter and the gate (pkg/controller/csr_check.go:499-523 and
    controller.go:175-205, 330-339). */
module Limits {
  import opened Types
  import opened Authorization
  import opened Approval

  const MAX_PENDING_DELTA: Time := HOUR
  const MAX_DIFFERENCE := 100

  /** Created within the hour before `now` (or up to the clock skew after it). */
  predicate InWindow(csr: CSR, now: Time) {
    now - MAX_PENDING_DELTA < csr.created < now + MAX_MACHINE_CLOCK_SKEW
  }

  /** A recent request by a node or for a node that nobody has approved. */
  predicate Counts(csr: CSR, now: Time) {
    InWindow(csr, now) && (FromBootstrapper(csr) || FromNodeUser(csr)) && !IsApproved(csr)
  }

  function PositionsBefore(csrs: seq<CSR>, end: nat, now: Time): set<int>
    requires end <= |csrs|
  {
    set i | 0 <= i < end && Counts(csrs[i], now)
  }

  function PendingPositions(csrs: seq<CSR>, now: Time): set<int> {
    PositionsBefore(csrs, |csrs|, now)
  }

  /** How many listed requests are recent and pending. */
  function Pending(csrs: seq<CSR>, now: Time): nat {
    |PendingPositions(csrs, now)|
  }

  lemma OneMoreCounted(csrs: seq<CSR>, i: nat, now: Time)
    requires i < |csrs|
    ensures |PositionsBefore(csrs, i + 1, now)| == |PositionsBefore(csrs, i, now)| + if Counts(csrs[i], now) then 1 else 0
  {
    var seen := PositionsBefore(csrs, i, now);
    assert PositionsBefore(csrs, i + 1, now) == if Counts(csrs[i], now) then seen + {i} else seen;
  }

  method RecentlyPendingNodeCSRs(csrs: seq<CSR>, now: Time) returns (pending: nat)
    ensures pending == Pending(csrs, now)
  {
    var start := now - MAX_PENDING_DELTA;
    var end := now + MAX_MACHINE_CLOCK_SKEW;
    pending := 0;
    for i := 0 to |csrs|
      invariant pending == |PositionsBefore(csrs, i, now)|
    {
      OneMoreCounted(csrs, i, now);
      if !InTimeSpan(start, end, csrs[i].created) {
        continue;
      }
      if (FromBootstrapper(csrs[i]) || FromNodeUser(csrs[i])) && !IsApproved(csrs[i]) {
        pending := pending + 1;
      }
    }
  }

  function Max(x: int, y: int): int {
    if x < y then y else x
  }

  /** The number of recent pending requests that is still tolerated. */
  function MaxPending(machines: nat, nodes: nat): (r: nat)
    ensures machines + 100 <= r && nodes + 100 <= r && (r == machines + 100 || r == nodes + 100)
  {
    Max(machines, nodes) + MAX_DIFFERENCE
  }

  ghost predicate Gated(csrs: seq<CSR>, machines: nat, nodes: nat, now: Time) {
    Pending(csrs, now) > MaxPending(machines, nodes)
  }

  /** The values of a 32-bit gauge. */
  type U32 = x: int | 0 <= x < 0x1_0000_0000

  function Wrap(x: nat): U32 {
    x % 0x1_0000_0000
  }

  /** A store to one of the two published gauges. */
  datatype Store = MaxStore(value: U32) | PendingStore(value: U32)

  /** The stores of one round of the limit check: the maximum, then the pending count. */
  ghost function Round(csrs: seq<CSR>, machines: nat, nodes: nat, now: Time): seq<Store> {
    [MaxStore(Wrap(MaxPending(machines, nodes))), PendingStore(Wrap(Pending(csrs, now)))]
  }

  /** The two published gauges, with the stores made to them so far. */
  class Gauges {
    var maxPendingCSRs: U32
    var pendingCSRs: U32
    ghost var stores: seq<Store>

    constructor ()
      ensures maxPendingCSRs == pendingCSRs == 0 && stores == []
    {
      maxPendingCSRs, pendingCSRs := 0, 0;
      stores := [];
    }

    method StoreMaximum(value: U32)
      modifies this
      ensures maxPendingCSRs == value && pendingCSRs == old(pendingCSRs)
      ensures stores == old(stores) + [MaxStore(value)]
    {
      maxPendingCSRs := value;
      stores := stores + [MaxStore(value)];
    }

    method StorePending(value: U32)
      modifies this
      ensures pendingCSRs == value && maxPendingCSRs == old(maxPendingCSRs)
      ensures stores == old(stores) + [PendingStore(value)]
    {
      pendingCSRs := value;
      stores := stores + [PendingStore(value)];
    }

    method ReconcileLimits(machines: seq<Machine>, nodes: seq<Node>, csrs: seq<CSR>, now: Time) returns (offLimits: bool)
      modifies this
      ensures offLimits <==> Gated(csrs, |machines|, |nodes|, now)
      ensures maxPendingCSRs == Wrap(MaxPending(|machines|, |nodes|))
      ensures pendingCSRs == Wrap(Pending(csrs, now))
      ensures stores == old(stores) + Round(csrs, |machines|, |nodes|, now)
    {
      var maxPending := MaxPending(|machines|, |nodes|);
      StoreMaximum(Wrap(maxPending));
      var pending := RecentlyPendingNodeCSRs(csrs, now);
      StorePending(Wrap(pending));
      if pending > maxPending {
        return true;
      }
      return false;
    }
  }

  // ---------------------------------------------------------------- properties

  /** Everything that can be authorised is counted while it is recent and pending. */
  lemma AuthorizedIsCounted(clientDisabled: bool, machines: seq<Machine>, req: CSR, csr: CertificateRequest,
                            ca: bool, view: View, now: Time)
    requires Authorized(clientDisabled, machines, req, csr, ca, view)
    ensures Counts(req, now) <==> InWindow(req, now) && !IsApproved(req)
  {
  }

  /** Conservation: approving one authorised pending request lowers the count by exactly
      one when the request is in the window, and leaves it alone when it is not. */
  lemma ApprovalLowersCount(clientDisabled: bool, machines: seq<Machine>, csrs: seq<CSR>, i: nat, parsed: CertificateRequest,
                            ca: bool, view: View, approvedAt: Time, version: nat, now: Time)
    requires i < |csrs| && !IsApproved(csrs[i])
    requires Authorized(clientDisabled, machines, csrs[i], parsed, ca, view)
    ensures Pending(csrs[i := Approval.Approve(csrs[i], approvedAt).(resourceVersion := version)], now)
         == Pending(csrs, now) - if InWindow(csrs[i], now) then 1 else 0
  {
    var stored := Approval.Approve(csrs[i], approvedAt).(resourceVersion := version);
    var after := csrs[i := stored];
    AuthorizedIsCounted(clientDisabled, machines, csrs[i], parsed, ca, view, now);
    ApproveIsIdempotent(csrs[i], approvedAt, approvedAt);
    assert stored.conditions == Approval.Approve(csrs[i], approvedAt).conditions;
    assert PendingPositions(after, now) == PendingPositions(csrs, now) - {i};
  }

  /** An hour after the last request was created nothing is counted and the gate is open. */
  lemma GateReleases(csrs: seq<CSR>, latest: Time, machines: nat, nodes: nat, now: Time)
    requires forall i | 0 <= i < |csrs| :: csrs[i].created <= latest
    requires now >= latest + HOUR
    ensures Pending(csrs, now) == 0 && !Gated(csrs, machines, nodes, now)
  {
    assert PendingPositions(csrs, now) == {};
  }

  /** Over a fixed list of requests created by `now` the count only falls. */
  lemma CountFallsWithTime(csrs: seq<CSR>, now: Time, later: Time)
    requires forall i | 0 <= i < |csrs| :: csrs[i].created <= now
    requires now <= later
    ensures Pending(csrs, later) <= Pending(csrs, now)
  {
    SubsetCount(PendingPositions(csrs, later), PendingPositions(csrs, now));
  }

  /** Comparing two counts after reduction modulo 2^32. */
  lemma WrappedComparison(x: nat, y: nat)
    ensures (Wrap(x) > Wrap(y) <==> x > y) <==>
            var highX, highY := x / 0x1_0000_0000, y / 0x1_0000_0000;
            highX == highY || (highX > highY <==> Wrap(x) > Wrap(y))
    ensures x < 0x1_0000_0000 && y < 0x1_0000_0000 ==> Wrap(x) == x && Wrap(y) == y
  {
    assert x == x / 0x1_0000_0000 * 0x1_0000_0000 + Wrap(x);
    assert y == y / 0x1_0000_0000 * 0x1_0000_0000 + Wrap(y);
  }

  /** When the two 32-bit gauges alert as the gate does, by the counts alone. */
  lemma AlertCondition(pending: nat, max: nat)
    ensures max < 0x1_0000_0000 ==>
              ((Wrap(pending) > Wrap(max) <==> pending > max) <==> pending < 0x1_0000_0000 || pending % 0x1_0000_0000 > max)
    ensures (Wrap(pending) > Wrap(max) <==> pending > max) <==>
            var p, m := pending / 0x1_0000_0000, max / 0x1_0000_0000;
            || p == m
            || (p > m && pending % 0x1_0000_0000 > max % 0x1_0000_0000)
            || (p < m && pending % 0x1_0000_0000 <= max % 0x1_0000_0000)
  {
    WrappedComparison(pending, max);
  }

  ghost predicate Alerts(csrs: seq<CSR>, machines: nat, nodes: nat, now: Time) {
    Wrap(Pending(csrs, now)) > Wrap(MaxPending(machines, nodes))
  }

  /** The alert compares the two 32-bit gauges.  While the limit fits 32 bits it agrees with
      the gate exactly when the pending count fits as well, or its remainder is above the
      limit.  Beyond that the remainders must be ordered as the quotients are. */
  lemma AlertAgreesWithGate(csrs: seq<CSR>, machines: nat, nodes: nat, now: Time)
    ensures var pending, max := Pending(csrs, now), MaxPending(machines, nodes);
            max < 0x1_0000_0000 ==>
              ((Alerts(csrs, machines, nodes, now) <==> Gated(csrs, machines, nodes, now)) <==>
               pending < 0x1_0000_0000 || pending % 0x1_0000_0000 > max)
    ensures var pending, max := Pending(csrs, now), MaxPending(machines, nodes);
            (Alerts(csrs, machines, nodes, now) <==> Gated(csrs, machines, nodes, now)) <==>
            var p, m := pending / 0x1_0000_0000, max / 0x1_0000_0000;
            || p == m
            || (p > m && pending % 0x1_0000_0000 > max % 0x1_0000_0000)
            || (p < m && pending % 0x1_0000_0000 <= max % 0x1_0000_0000)
  {
    AlertCondition(Pending(csrs, now), MaxPending(machines, nodes));
  }

  lemma {:induction false} AllAreCounted(csrs: seq<CSR>, end: nat, now: Time)
    requires end <= |csrs| && forall i | 0 <= i < |csrs| :: Counts(csrs[i], now)
    ensures |PositionsBefore(csrs, end, now)| == end
  {
    if end > 0 {
      AllAreCounted(csrs, end - 1, now);
      OneMoreCounted(csrs, end - 1, now);
    } else {
      assert PositionsBefore(csrs, 0, now) == {};
    }
  }

  /** The converse of the release: unapproved node requests of the last hour are all counted,
      so that more of them than tolerated shut the gate. */
  lemma YoungRequestsAreCounted(csrs: seq<CSR>, machines: nat, nodes: nat, now: Time)
    requires forall i | 0 <= i < |csrs| ::
               && !IsApproved(csrs[i]) && (FromBootstrapper(csrs[i]) || FromNodeUser(csrs[i]))
               && csrs[i].created <= now < csrs[i].created + 3_600_000_000_000
    ensures Pending(csrs, now) == |csrs|
    ensures Gated(csrs, machines, nodes, now) <==> |csrs| > machines + 100 && |csrs| > nodes + 100
  {
    AllAreCounted(csrs, |csrs|, now);
  }

  /** One request counts when it is a node's, unapproved, less than an hour old and less than
      ten seconds from the future (in nanoseconds). */
  lemma OneRequestCounts(csr: CSR, now: Time)
    ensures Pending([csr], now) ==
            if !IsApproved(csr) && (FromBootstrapper(csr) || FromNodeUser(csr)) &&
               now < csr.created + 3_600_000_000_000 && csr.created < now + 10_000_000_000
            then 1 else 0
  {
    OneMoreCounted([csr], 0, now);
    assert PositionsBefore([csr], 0, now) == {};
  }

  lemma {:induction false} CountsPrefix(csrs: seq<CSR>, more: seq<CSR>, end: nat, now: Time)
    requires end <= |more|
    ensures |PositionsBefore(csrs + more, |csrs| + end, now)| == Pending(csrs, now) + |PositionsBefore(more, end, now)|
  {
    if end == 0 {
      assert PositionsBefore(csrs + more, |csrs|, now) == PendingPositions(csrs, now);
      assert PositionsBefore(more, 0, now) == {};
    } else {
      CountsPrefix(csrs, more, end - 1, now);
      OneMoreCounted(more, end - 1, now);
      OneMoreCounted(csrs + more, |csrs| + end - 1, now);
    }
  }

  /** Counts of lists add up, so the count is determined by that of single requests. */
  lemma CountsAdd(csrs: seq<CSR>, more: seq<CSR>, now: Time)
    ensures Pending(csrs + more, now) == Pending(csrs, now) + Pending(more, now)
  {
    CountsPrefix(csrs, more, |more|, now);
  }

  /** Past 32 bits the gate can be shut while the alert stays silent. */
  lemma AlertCanMissGate() returns (csrs: seq<CSR>, now: Time)
    ensures Gated(csrs, 0, 0, now) && !Alerts(csrs, 0, 0, now)
  {
    var csr := CSR("", 0, 0, 0, NODE_USER_PREFIX, [], [], NoBlock, []);
    csrs, now := seq(0x1_0000_0000, i => csr), 0;
    assert FromNodeUser(csr) && !IsApproved(csr);
    AllAreCounted(csrs, |csrs|, now);
  }
}
