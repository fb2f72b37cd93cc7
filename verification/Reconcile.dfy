/** One call of Reconcile (pkg/controller/controller.go:118-242): which outcome follows
    from what was read. */
module Reconcile {
  import opened Types
  import opened Authorization
  import opened Approval
  import opened Limits

  // ================================================================ specification

  /** What a reconcile has read by the time it decides. */
  datatype Snapshot = Snapshot(
    csrs: seq<CSR>, machines: seq<Machine>, nodes: nat, countedAt: Time, ca: bool, view: View)

  ghost predicate OverLimit(s: Snapshot) {
    Gated(s.csrs, |s.machines|, s.nodes, s.countedAt)
  }

  const REQUEST_LABEL := "CERTIFICATE REQUEST"

  /** The request can be parsed: the label of section 7 of RFC 7468 and valid X.509. */
  predicate Parses(csr: CSR) {
    csr.request.Block? && csr.request.tag == REQUEST_LABEL && csr.request.content.Some?
  }

  /** Request `i` is the first listed under that name. */
  ghost predicate Target(csrs: seq<CSR>, i: int, name: string) {
    0 <= i < |csrs| && csrs[i].name == name && forall j | 0 <= j < i :: csrs[j].name != name
  }

  /** This listed request may be approved on what was read. */
  ghost predicate ApprovesRequest(clientDisabled: bool, s: Snapshot, csr: CSR) {
    && !OverLimit(s)
    && !IsApproved(csr) && Parses(csr)
    && Authorized(clientDisabled, s.machines, csr, csr.request.content.value, s.ca, s.view)
  }

  ghost predicate Approves(clientDisabled: bool, name: string, s: Snapshot) {
    exists i :: Target(s.csrs, i, name) && ApprovesRequest(clientDisabled, s, s.csrs[i])
  }

  /** The ways to end with neither an approval nor an error. */
  ghost predicate PassedOver(clientDisabled: bool, name: string, s: Snapshot) {
    || OverLimit(s)
    || (forall csr | csr in s.csrs :: csr.name != name)
    || exists i :: Target(s.csrs, i, name) &&
         (IsApproved(s.csrs[i]) ||
          (Parses(s.csrs[i]) && Refused(clientDisabled, s.machines, s.csrs[i], s.csrs[i].request.content.value, s.view)))
  }

  // ================================================================ the code

  /** Everything the outside world answers during one call; None is a failed API call.
      There is one machine list per configured API group version. */
  datatype Answers = Answers(
    csrs: Option<seq<CSR>>,
    machineLists: seq<Option<seq<Machine>>>,
    nodes: Option<seq<Node>>,
    countedAt: Time,
    ca: bool,
    view: View,
    approvedAt: Time,
    updateAccepted: bool,
    recount: Option<seq<CSR>>,
    recountedAt: Time)

  datatype Error =
    | CSRsUnlisted | MachinesUnlisted | NodesUnlisted | Unparsable
    | Unauthorized(cause: AuthError) | UpdateRejected | RecountFailed

  ghost predicate AllListed(lists: seq<Option<seq<Machine>>>) {
    forall i | 0 <= i < |lists| :: lists[i].Some?
  }

  /** The machines of all API groups, in order. */
  ghost function Concatenated(lists: seq<Option<seq<Machine>>>): seq<Machine>
    requires AllListed(lists)
  {
    if lists == [] then []
    else Concatenated(lists[..|lists| - 1]) + lists[|lists| - 1].value
  }

  ghost predicate Listed(a: Answers) {
    a.csrs.Some? && AllListed(a.machineLists) && a.nodes.Some?
  }

  ghost function Taken(a: Answers): Snapshot
    requires Listed(a)
  {
    Snapshot(a.csrs.value, Concatenated(a.machineLists), |a.nodes.value|, a.countedAt, a.ca, a.view)
  }

  method ParseCSR(csr: CSR) returns (parsed: Option<CertificateRequest>)
    ensures parsed.Some? <==> Parses(csr)
    ensures parsed.Some? ==> parsed == csr.request.content
  {
    if csr.request.NoBlock? || csr.request.tag != REQUEST_LABEL {
      return None;
    }
    return csr.request.content;
  }

  /** The call went on to count once more: the request was found below the limit and dealt
      with, and the second listing succeeded. */
  ghost predicate Recounted(name: string, a: Answers, err: Option<Error>)
    requires Listed(a)
  {
    err.None? && !OverLimit(Taken(a)) && (exists csr | csr in a.csrs.value :: csr.name == name) && a.recount.Some?
  }

  /** The first request of that name decides the outcome. */
  lemma TargetDecides(clientDisabled: bool, name: string, s: Snapshot, i: int)
    requires Target(s.csrs, i, name)
    ensures s.csrs[i] in s.csrs
    ensures Approves(clientDisabled, name, s) <==> ApprovesRequest(clientDisabled, s, s.csrs[i])
    ensures PassedOver(clientDisabled, name, s) <==>
            || OverLimit(s)
            || IsApproved(s.csrs[i])
            || (Parses(s.csrs[i]) && Refused(clientDisabled, s.machines, s.csrs[i], s.csrs[i].request.content.value, s.view))
  {
    assert forall j | Target(s.csrs, j, name) :: j == i;
  }

  /** The approver with its configuration and the gauges it publishes. */
  class CertificateApprover {
    const clientDisabled: bool
    const gauges: Gauges

    constructor (clientDisabled: bool, gauges: Gauges)
      ensures this.clientDisabled == clientDisabled && this.gauges == gauges
    {
      this.clientDisabled := clientDisabled;
      this.gauges := gauges;
    }

    /** Sends at most one approval; `failed` tells why not, if it is worth a retry. */
    method ReconcileCSR(csr: CSR, machines: seq<Machine>, a: Answers) returns (sent: Option<CSR>, failed: Option<Error>)
      ensures sent.Some? <==>
              !IsApproved(csr) && Parses(csr) && Authorized(clientDisabled, machines, csr, csr.request.content.value, a.ca, a.view)
      ensures sent.Some? ==> sent.value == Approval.Approve(csr, a.approvedAt)
      ensures sent.Some? ==> failed == if a.updateAccepted then None else Some(UpdateRejected)
      ensures failed.Some? ==> failed.value.Unparsable? || failed.value.Unauthorized? || failed.value.UpdateRejected?
      ensures sent.None? && failed.None? <==>
              IsApproved(csr) || (Parses(csr) && Refused(clientDisabled, machines, csr, csr.request.content.value, a.view))
    {
      if IsApproved(csr) {
        return None, None;
      }
      var parsed := ParseCSR(csr);
      if parsed.None? {
        return None, Some(Unparsable);
      }
      RefusalIsNotApproval(clientDisabled, machines, csr, parsed.value, a.ca, a.view);
      var authorized, err := AuthorizeCSR(clientDisabled, machines, Some(csr), parsed, a.ca, a.view);
      if !authorized {
        return None, if err.Some? then Some(Unauthorized(err.value)) else None;
      }
      var pointer := new Pointer(csr);
      ApproveIsIdempotent(csr, a.approvedAt, a.approvedAt);
      var rejected;
      sent, rejected := pointer.ApproveInPlace(a.approvedAt, a.updateAccepted);
      if rejected {
        return sent, Some(UpdateRejected);
      }
      return sent, None;
    }

    method ListMachines(lists: seq<Option<seq<Machine>>>) returns (machines: Option<seq<Machine>>)
      ensures machines.Some? <==> AllListed(lists)
      ensures machines.Some? ==> machines.value == Concatenated(lists)
    {
      var all: seq<Machine> := [];
      for i := 0 to |lists|
        invariant AllListed(lists[..i])
        invariant all == Concatenated(lists[..i])
      {
        if lists[i].None? {
          return None;
        }
        all := all + lists[i].value;
        assert lists[..i + 1][..i] == lists[..i];
      }
      assert lists[..|lists|] == lists;
      return Some(all);
    }

    /** Publishes the counts of a second listing, if it succeeds. */
    method ReconcileLimitsUncached(machines: seq<Machine>, nodes: seq<Node>, recount: Option<seq<CSR>>, now: Time)
      returns (err: Option<Error>)
      modifies gauges
      ensures err == if recount.Some? then None else Some(RecountFailed)
      ensures recount.None? ==> unchanged(gauges)
      ensures recount.Some? ==>
        && gauges.maxPendingCSRs == Wrap(MaxPending(|machines|, |nodes|))
        && gauges.pendingCSRs == Wrap(Pending(recount.value, now))
        && gauges.stores == old(gauges.stores) + Round(recount.value, |machines|, |nodes|, now)
    {
      if recount.None? {
        return Some(RecountFailed);
      }
      var _ := gauges.ReconcileLimits(machines, nodes, recount.value, now);
      return None;
    }

    /** `sent` is the object handed to the approval endpoint, if any. */
    method Reconcile(name: string, a: Answers) returns (sent: Option<CSR>, err: Option<Error>)
      modifies gauges
      // Nothing happens before the three lists are there.
      ensures !Listed(a) ==> sent.None? && err.Some? && unchanged(gauges)
      // An approval is sent exactly when what was read allows it, and it is the right one.
      ensures Listed(a) ==> (sent.Some? <==> Approves(clientDisabled, name, Taken(a)))
      ensures sent.Some? ==> Listed(a) && exists i :: Target(a.csrs.value, i, name) && sent.value == Approval.Approve(a.csrs.value[i], a.approvedAt)
      ensures sent.Some? && !a.updateAccepted ==> err == Some(UpdateRejected)
      ensures sent.Some? && a.updateAccepted ==> err == if a.recount.Some? then None else Some(RecountFailed)
      // Without API failures the outcomes with no approval and no error are the listed ones.
      ensures Listed(a) && PassedOver(clientDisabled, name, Taken(a)) ==> sent.None? && (err.None? || err == Some(RecountFailed))
      ensures Listed(a) && OverLimit(Taken(a)) ==> err.None?
      ensures Listed(a) && sent.None? && err.None? ==> PassedOver(clientDisabled, name, Taken(a))
      ensures err == Some(RecountFailed) ==> a.recount.None?
      // The gauges show the limit check, or the recount when the call got that far.
      ensures Listed(a) ==> gauges.maxPendingCSRs == Wrap(MaxPending(|Taken(a).machines|, Taken(a).nodes))
      ensures Listed(a) ==>
        gauges.pendingCSRs == Wrap(
          if Recounted(name, a, err) then Pending(a.recount.value, a.recountedAt) else Pending(a.csrs.value, a.countedAt))
      // They were stored in one or two rounds, the maximum always first.
      ensures Listed(a) ==>
        gauges.stores == old(gauges.stores)
          + Round(a.csrs.value, |Taken(a).machines|, Taken(a).nodes, a.countedAt)
          + if Recounted(name, a, err) then Round(a.recount.value, |Taken(a).machines|, Taken(a).nodes, a.recountedAt) else []
    {
      sent := None;
      if a.csrs.None? {
        return None, Some(CSRsUnlisted);
      }
      var csrs := a.csrs.value;
      var listed := ListMachines(a.machineLists);
      if listed.None? {
        return None, Some(MachinesUnlisted);
      }
      var machines := listed.value;
      if a.nodes.None? {
        return None, Some(NodesUnlisted);
      }
      var nodes := a.nodes.value;

      var offLimits := gauges.ReconcileLimits(machines, nodes, csrs, a.countedAt);
      if offLimits {
        return None, None;
      }
      label Checked:
      for i := 0 to |csrs|
        invariant forall j | 0 <= j < i :: csrs[j].name != name
        invariant unchanged@Checked(gauges)
      {
        if csrs[i].name == name {
          TargetDecides(clientDisabled, name, Taken(a), i);
          var failed;
          sent, failed := ReconcileCSR(csrs[i], machines, a);
          if failed.Some? {
            return sent, failed;
          }
          err := ReconcileLimitsUncached(machines, nodes, a.recount, a.recountedAt);
          return;
        }
      }
      return None, None;
    }
  }

  // ================================================================ consequences

  /** No silent drop: a present, pending serving request with valid contents that is not
      over the limit is never passed over, so the call approves it or returns an error. */
  lemma ServingRequestIsNotPassedOver(clientDisabled: bool, name: string, s: Snapshot, i: int)
    requires Target(s.csrs, i, name) && !OverLimit(s) && !IsApproved(s.csrs[i])
    requires Parses(s.csrs[i]) ==> ServingContents(s.csrs[i], s.csrs[i].request.content.value)
    ensures !PassedOver(clientDisabled, name, s)
  {
    TargetDecides(clientDisabled, name, s, i);
    if Parses(s.csrs[i]) {
      FlowsAreExclusive(s.csrs[i], s.csrs[i].request.content.value);
    }
  }

  /** Machines of further API groups never turn an approval into something else: the limit
      only grows and the first match stays the first. */
  lemma MoreMachinesKeepApproval(clientDisabled: bool, name: string, s: Snapshot, more: seq<Machine>)
    requires Approves(clientDisabled, name, s)
    ensures Approves(clientDisabled, name, s.(machines := s.machines + more))
  {
    var i :| Target(s.csrs, i, name) && ApprovesRequest(clientDisabled, s, s.csrs[i]);
    var csr := s.csrs[i];
    MoreMachinesKeepAuthorization(clientDisabled, s.machines, more, csr, csr.request.content.value, s.ca, s.view);
    var s' := s.(machines := s.machines + more);
    assert Target(s'.csrs, i, name) && ApprovesRequest(clientDisabled, s', s'.csrs[i]);
  }

  /** Machines of API groups read earlier are another matter.  They keep an approval exactly
      when none of them is one that the request is about, or when they authorise it alone. */
  lemma MachinesInFrontKeepApproval(clientDisabled: bool, name: string, s: Snapshot, front: seq<Machine>, i: int)
    requires Target(s.csrs, i, name) && ApprovesRequest(clientDisabled, s, s.csrs[i])
    ensures var csr := s.csrs[i].request.content.value;
            Approves(clientDisabled, name, s.(machines := front + s.machines)) <==>
            Strangers(front, s.csrs[i], csr) || Authorized(clientDisabled, front, s.csrs[i], csr, s.ca, s.view)
  {
    var csr, s' := s.csrs[i], s.(machines := front + s.machines);
    TargetDecides(clientDisabled, name, s', i);
    assert !OverLimit(s');
    JoinedMachines(clientDisabled, front, s.machines, csr, csr.request.content.value, s.ca, s.view);
  }

  /** Conservation at the end of a call: when the recount lists what was listed before with
      the approved request in its place, at the same clock, the published pending count is
      that of the limit check less one, or the same if the request was out of the window. */
  lemma RecountPublishesOneLess(clientDisabled: bool, name: string, a: Answers, i: int, version: nat)
    requires Listed(a) && Target(a.csrs.value, i, name) && ApprovesRequest(clientDisabled, Taken(a), a.csrs.value[i])
    requires a.recountedAt == a.countedAt
    requires a.recount == Some(a.csrs.value[i := Approval.Approve(a.csrs.value[i], a.approvedAt).(resourceVersion := version)])
    ensures Pending(a.recount.value, a.recountedAt)
         == Pending(a.csrs.value, a.countedAt) - if InWindow(a.csrs.value[i], a.countedAt) then 1 else 0
  {
    var csr := a.csrs.value[i];
    ApprovalLowersCount(clientDisabled, Taken(a).machines, a.csrs.value, i, csr.request.content.value, a.ca, a.view,
                        a.approvedAt, version, a.countedAt);
  }

  /** Of several listed requests of one name the first decides alone. */
  lemma FirstOfNameDecides(clientDisabled: bool, name: string, s: Snapshot, i: int)
    requires 0 <= i < |s.csrs| && s.csrs[i].name == name && forall j | 0 <= j < i :: s.csrs[j].name != name
    ensures Approves(clientDisabled, name, s) <==>
            && !OverLimit(s) && !IsApproved(s.csrs[i])
            && s.csrs[i].request.Block? && s.csrs[i].request.tag == "CERTIFICATE REQUEST" && s.csrs[i].request.content.Some?
            && Authorized(clientDisabled, s.machines, s.csrs[i], s.csrs[i].request.content.value, s.ca, s.view)
  {
    TargetDecides(clientDisabled, name, s, i);
  }

  // ---------------------------------------------------------------- the lists of all groups

  /** The lists of the API groups, all of them read. */
  ghost function Answered(lists: seq<seq<Machine>>): (r: seq<Option<seq<Machine>>>)
    ensures AllListed(r)
  {
    seq(|lists|, i requires 0 <= i < |lists| => Some(lists[i]))
  }

  /** One group's machines are its list. */
  lemma OneList(list: seq<Machine>)
    ensures Concatenated([Some(list)]) == list
  {
    assert Concatenated([Some(list)][..0]) == [];
  }

  lemma OneListMore(lists: seq<Option<seq<Machine>>>, more: seq<Machine>)
    requires AllListed(lists)
    ensures AllListed(lists + [Some(more)]) && Concatenated(lists + [Some(more)]) == Concatenated(lists) + more
  {
    assert (lists + [Some(more)])[..|lists|] == lists;
  }

  lemma JoinOneMore(a: seq<Option<seq<Machine>>>, b: seq<Option<seq<Machine>>>, last: seq<Machine>)
    requires AllListed(a) && AllListed(b) && Concatenated(a + b) == Concatenated(a) + Concatenated(b)
    ensures Concatenated(a + (b + [Some(last)])) == Concatenated(a) + Concatenated(b + [Some(last)])
  {
    calc {
      Concatenated(a + (b + [Some(last)]));
      { Associative(a, b, [Some(last)]); }
      Concatenated(a + b + [Some(last)]);
      { OneListMore(a + b, last); }
      Concatenated(a) + Concatenated(b) + last;
      { Associative(Concatenated(a), Concatenated(b), last); }
      Concatenated(a) + (Concatenated(b) + last);
      { OneListMore(b, last); }
      Concatenated(a) + Concatenated(b + [Some(last)]);
    }
  }

  /** Groups of groups: no machine is lost, none is added, and the order is kept. */
  lemma {:induction false} ListsJoin(a: seq<Option<seq<Machine>>>, b: seq<Option<seq<Machine>>>)
    requires AllListed(a) && AllListed(b)
    ensures Concatenated(a + b) == Concatenated(a) + Concatenated(b)
    decreases |b|
  {
    if b == [] {
      assert a + b == a && Concatenated(b) == [];
    } else {
      var init, last := b[..|b| - 1], b[|b| - 1].value;
      ListsJoin(a, init);
      JoinOneMore(a, init, last);
      assert b == init + [Some(last)];
    }
  }

  /** Reading one more API group, with machines or without, keeps an approval. */
  lemma FurtherGroupKeepsApproval(clientDisabled: bool, name: string, a: Answers, more: seq<Machine>)
    requires Listed(a) && Approves(clientDisabled, name, Taken(a))
    ensures var a' := a.(machineLists := a.machineLists + [Some(more)]);
            Listed(a') && Approves(clientDisabled, name, Taken(a'))
  {
    var a' := a.(machineLists := a.machineLists + [Some(more)]);
    OneListMore(a.machineLists, more);
    MoreMachinesKeepApproval(clientDisabled, name, Taken(a), more);
    assert Taken(a') == Taken(a).(machines := Taken(a).machines + more);
  }
}
