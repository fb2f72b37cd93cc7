/** The pending count over whole runs: what an approval does to a complete, current listing. */
module Recount {
  import opened Types
  import opened Authorization
  import opened Approval
  import opened Limits
  import opened Protocol
  import opened Undisturbed

  /** A listing of everything the server holds now, in any order. */
  ghost predicate Lists(csrs: seq<CSR>, server: Server) {
    && (forall i | 0 <= i < |csrs| :: HoldsAt(server, csrs[i]))
    && (forall i, j | 0 <= i < j < |csrs| :: csrs[i].name != csrs[j].name)
    && (forall n | n in server.csrs :: exists i | 0 <= i < |csrs| :: csrs[i].name == n)
  }

  ghost function CountedNames(server: Server, now: Time): set<string> {
    set n | n in server.csrs && Counts(server.csrs[n], now)
  }

  ghost function NamesBefore(csrs: seq<CSR>, end: nat, now: Time): set<string>
    requires end <= |csrs|
  {
    set i | 0 <= i < end && Counts(csrs[i], now) :: csrs[i].name
  }

  lemma OneMoreName(csrs: seq<CSR>, end: nat, now: Time)
    requires end < |csrs| && forall i | 0 <= i < end :: csrs[i].name != csrs[end].name
    ensures |NamesBefore(csrs, end + 1, now)| == |NamesBefore(csrs, end, now)| + if Counts(csrs[end], now) then 1 else 0
  {
    var names := NamesBefore(csrs, end, now);
    assert csrs[end].name !in names;
    if Counts(csrs[end], now) {
      assert NamesBefore(csrs, end + 1, now) == names + {csrs[end].name};
    } else {
      assert NamesBefore(csrs, end + 1, now) == names;
    }
  }

  lemma {:induction false} PositionsAsNames(csrs: seq<CSR>, end: nat, now: Time)
    requires end <= |csrs| && forall i, j | 0 <= i < j < |csrs| :: csrs[i].name != csrs[j].name
    ensures |PositionsBefore(csrs, end, now)| == |NamesBefore(csrs, end, now)|
  {
    if end == 0 {
      assert PositionsBefore(csrs, 0, now) == {} && NamesBefore(csrs, 0, now) == {};
    } else {
      PositionsAsNames(csrs, end - 1, now);
      OneMoreCounted(csrs, end - 1, now);
      OneMoreName(csrs, end - 1, now);
    }
  }

  /** The count of a complete listing depends on the server alone, not on the order. */
  lemma ListingCountsNames(csrs: seq<CSR>, server: Server, now: Time)
    requires Lists(csrs, server)
    ensures Pending(csrs, now) == |CountedNames(server, now)|
  {
    PositionsAsNames(csrs, |csrs|, now);
    forall n | n in CountedNames(server, now) ensures n in NamesBefore(csrs, |csrs|, now) {
      var i :| 0 <= i < |csrs| && csrs[i].name == n;
      assert HoldsAt(server, csrs[i]);
    }
    forall n | n in NamesBefore(csrs, |csrs|, now) ensures n in CountedNames(server, now) {
      var i :| 0 <= i < |csrs| && Counts(csrs[i], now) && csrs[i].name == n;
      assert HoldsAt(server, csrs[i]);
    }
    assert NamesBefore(csrs, |csrs|, now) == CountedNames(server, now);
  }

  lemma ApprovalUncounts(server: Server, csr: CSR, approvedAt: Time, now: Time)
    requires HoldsAt(server, csr) && !IsApproved(csr)
    requires FromBootstrapper(csr) || FromNodeUser(csr)
    ensures |CountedNames(WithApproval(server, csr, approvedAt), now)|
         == |CountedNames(server, now)| - if InWindow(csr, now) then 1 else 0
  {
    var after := WithApproval(server, csr, approvedAt);
    ApproveIsIdempotent(csr, approvedAt, approvedAt);
    assert after.csrs[csr.name].conditions == Approval.Approve(csr, approvedAt).conditions;
    assert IsApproved(after.csrs[csr.name]);
    assert CountedNames(after, now) == CountedNames(server, now) - {csr.name};
  }

  lemma ListingCountFalls(server: Server, csr: CSR, approvedAt: Time, before: seq<CSR>, after: seq<CSR>, now: Time)
    requires HoldsAt(server, csr) && !IsApproved(csr)
    requires FromBootstrapper(csr) || FromNodeUser(csr)
    requires Lists(before, server) && Lists(after, WithApproval(server, csr, approvedAt))
    ensures Pending(after, now) == Pending(before, now) - if InWindow(csr, now) then 1 else 0
  {
    ListingCountsNames(before, server, now);
    ListingCountsNames(after, WithApproval(server, csr, approvedAt), now);
    ApprovalUncounts(server, csr, approvedAt, now);
  }

  lemma SubmitIsWithApproval(s: State, e: Event)
    requires ServerInv(s.past, s.groups) && Enabled(s, e) && e.Submit?
    requires Grounded(s.past, s.groups, s.workers[e.worker].job)
    ensures var csr := Decided(s, e);
            && HoldsAt(Now(s), csr) && !IsApproved(csr) && (FromBootstrapper(csr) || FromNodeUser(csr))
            && NextServer(s, e) == WithApproval(Now(s), csr, e.approvedAt)
  {
    SubmittedIsCurrent(s, e);
  }

  /** Conservation at every write of every run: whatever list the decision was made on, a
      complete listing after the write counts one less than one before it, at any clock at
      which the request is in the window, and the same at any other. */
  lemma EveryWriteLowersCount(start: State, events: seq<Event>, e: Event, before: seq<CSR>, after: seq<CSR>, now: Time)
    requires Initial(start) && Execute(start, events).Some?
    requires var s := Execute(start, events).value;
             Enabled(s, e) && e.Submit? && Lists(before, Now(s)) && Lists(after, NextServer(s, e))
    ensures Pending(after, now)
         == Pending(before, now) - if InWindow(Decided(Execute(start, events).value, e), now) then 1 else 0
  {
    InvAlways(start, events);
    var s := Execute(start, events).value;
    SubmitIsWithApproval(s, e);
    ListingCountFalls(Now(s), Decided(s, e), e.approvedAt, before, after, now);
  }

  /** So the recount at the end of an undisturbed reconcile is one less than a count at its
      start at the same clock, if the request is in the window. */
  lemma UndisturbedRecount(start: State, worker: nat, csrs: seq<CSR>, target: nat, c: Choice, approvedAt: Time,
                           before: seq<CSR>, after: seq<CSR>, now: Time)
    requires ServerInv(start.past, start.groups) && Enabled(start, Begin(worker, csrs, target))
    requires var end := Execute(start, Reconciling(worker, csrs, target, c, start.groups, approvedAt));
             end.Some? && Lists(before, Now(start)) && Lists(after, Now(end.value))
    ensures Pending(after, now) == Pending(before, now) - if InWindow(csrs[target], now) then 1 else 0
  {
    UndisturbedReconcile(start, worker, csrs, target, c, approvedAt);
    ListingCountFalls(Now(start), csrs[target], approvedAt, before, after, now);
  }
}
