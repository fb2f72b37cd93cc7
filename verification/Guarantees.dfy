/** What every logged approval of every run rests on, written out: when its values were read,
    which objects they are, and what was stored. */
module Guarantees {
  import opened Types
  import opened Usages
  import opened Authorization
  import opened Approval
  import opened Limits
  import opened Reconcile
  import opened Protocol
  import opened Undisturbed
  import opened Decision

  // ================================================================ one write

  /** The request a write was decided on. */
  ghost predicate IsJudged(w: Write, csr: CSR) {
    w.job.target < |w.job.snapshot.csrs| && csr == w.job.snapshot.csrs[w.job.target] && Parses(csr)
  }

  /** Each listed request was on the server when the list was handed over or before; then came
      the reads, in order, and then the write. */
  ghost predicate TimedRight(groups: nat, past: seq<Server>, w: Write) {
    var at := w.job.at;
    && |at| == groups + 5
    && (forall j | 0 <= j < |at| :: w.job.begun <= at[j] < w.moment < |past|)
    && (forall j, k | 0 <= j < k < |at| :: at[j] <= at[k])
    && forall c | c in w.job.snapshot.csrs ::
         exists k :: 0 <= k <= w.job.begun < |past| && c.name in past[k].csrs && past[k].csrs[c.name] == c
  }

  lemma JustifiedIsTimed(clientDisabled: bool, groups: nat, past: seq<Server>, w: Write)
    requires Justified(clientDisabled, groups, past, w)
    ensures TimedRight(groups, past, w)
  {
    forall c | c in w.job.snapshot.csrs
      ensures exists k :: 0 <= k <= w.job.begun < |past| && c.name in past[k].csrs && past[k].csrs[c.name] == c
    {
      var k :| 0 <= k < w.job.begun + 1 && HoldsAt(past[..w.job.begun + 1][k], c);
      assert past[k].csrs[c.name] == c;
    }
  }

  /** The answers of the API groups, group `g` read at moment `at[g]`. */
  ghost function ListsAt(past: seq<Server>, at: seq<nat>, groups: nat): (lists: seq<Option<seq<Machine>>>)
    requires groups <= |at| && forall g | 0 <= g < groups :: at[g] < |past| && g < |past[at[g]].machines|
    ensures |lists| == groups && forall g | 0 <= g < groups :: lists[g] == Some(past[at[g]].machines[g])
  {
    seq(groups, g requires 0 <= g < groups => Some(past[at[g]].machines[g]))
  }

  /** The limit was that of the machines of all groups and of the nodes, the count that of the
      list at the server's clock. */
  ghost predicate WithinLimit(groups: nat, past: seq<Server>, w: Write)
    requires TimedRight(groups, past, w)
  {
    var s, at := w.job.snapshot, w.job.at;
    && (forall g | 0 <= g < groups :: g < |past[at[g]].machines|)
    && s.machines == Concatenated(ListsAt(past, at, groups))
    && s.nodes == |past[at[groups]].nodes|
    && (Pending(s.csrs, past[at[groups + 1]].clock) <= |s.machines| + 100 ||
        Pending(s.csrs, past[at[groups + 1]].clock) <= s.nodes + 100)
  }

  lemma {:induction false} MachinesAreConcatenated(past: seq<Server>, at: seq<nat>, lists: seq<Option<seq<Machine>>>)
    requires forall g | 0 <= g < |at| :: at[g] < |past| && g < |past[at[g]].machines|
    requires |lists| == |at| && forall g | 0 <= g < |at| :: lists[g] == Some(past[at[g]].machines[g])
    ensures MachinesAt(past, at) == Concatenated(lists)
  {
    if at != [] {
      MachinesAreConcatenated(past, at[..|at| - 1], lists[..|at| - 1]);
    }
  }

  lemma MachinesAreListed(past: seq<Server>, at: seq<nat>, groups: nat)
    requires groups <= |at| && forall g | 0 <= g < groups :: at[g] < |past| && g < |past[at[g]].machines|
    ensures MachinesAt(past, at[..groups]) == Concatenated(ListsAt(past, at, groups))
  {
    MachinesAreConcatenated(past, at[..groups], ListsAt(past, at, groups));
  }

  lemma LimitAsCounts(s: Snapshot, clock: Time)
    requires s.countedAt == clock
    ensures !OverLimit(s) <==> Pending(s.csrs, clock) <= |s.machines| + 100 || Pending(s.csrs, clock) <= s.nodes + 100
  {
  }

  lemma JustifiedIsWithinLimit(clientDisabled: bool, groups: nat, past: seq<Server>, w: Write)
    requires Justified(clientDisabled, groups, past, w) && TimedRight(groups, past, w)
    ensures WithinLimit(groups, past, w)
  {
    MachinesAreListed(past, w.job.at, groups);
    LimitAsCounts(w.job.snapshot, past[w.job.at[groups + 1]].clock);
  }

  /** The lookups of the client flow: the node named by the subject was not there. */
  lemma ClientLookup(clientDisabled: bool, groups: nat, past: seq<Server>, w: Write, csr: CSR, n: string)
    requires Justified(clientDisabled, groups, past, w) && IsJudged(w, csr)
    requires NodeClientRequest(csr.usages, csr.request.content.value)
    requires csr.request.content.value.commonName == "system:node:" + n
    ensures n !in past[w.job.at[NodeRead(groups)]].nodes
  {
    ClientNodeIs(csr.request.content.value, n);
  }

  /** The lookups of the serving flow: what was found under the name of the user's node is
      what the server held under that name. */
  ghost predicate FoundIsHeld(groups: nat, past: seq<Server>, w: Write, n: string)
    requires TimedRight(groups, past, w)
  {
    var view, at := w.job.snapshot.view, w.job.at;
    var nodes, networks, subnets := past[at[groups + 2]].nodes, past[at[groups + 3]].networks, past[at[groups + 4]].hostSubnets;
    && (view.node.Found? ==> n in nodes && view.node.value == nodes[n])
    && (view.network.Found? ==> "cluster" in networks && view.network.value == networks["cluster"])
    && (view.hostSubnet.Found? ==> n in subnets && view.hostSubnet.value == subnets[n])
    && (view.node.NotFound? ==> n !in nodes) && (view.hostSubnet.NotFound? ==> n !in subnets)
  }

  lemma ServingLookup(clientDisabled: bool, groups: nat, past: seq<Server>, w: Write, csr: CSR, n: string)
    requires Justified(clientDisabled, groups, past, w) && IsJudged(w, csr) && TimedRight(groups, past, w)
    requires !NodeClientRequest(csr.usages, csr.request.content.value) && csr.username == "system:node:" + n
    ensures FoundIsHeld(groups, past, w, n)
  {
    ServingNodeIs(csr, n);
  }

  /** What the write replaced and what it stored: the very object that was judged, unapproved,
      and the same object with this controller's approval as one more condition. */
  ghost predicate StoredRight(past: seq<Server>, w: Write, csr: CSR) {
    var c := w.stored;
    && 0 < w.moment < |past|
    && csr.name in past[w.moment - 1].csrs && past[w.moment - 1].csrs[csr.name] == csr
    && csr.name in past[w.moment].csrs && past[w.moment].csrs[csr.name] == c
    && c.name == csr.name && c.uid == csr.uid && c.created == csr.created && c.username == csr.username
    && c.groups == csr.groups && c.usages == csr.usages && c.request == csr.request
    && csr.request.Block? && csr.request.tag == "CERTIFICATE REQUEST"
    && (forall a | a in csr.conditions :: a.kind != "Approved")
    && c.conditions == csr.conditions + [Condition(
         "Approved", "True", "NodeCSRApprove",
         "This CSR was approved by the Node CSR Approver (cluster-machine-approver)", w.approvedAt, w.approvedAt)]
  }

  /** An unapproved request gets the approval appended. */
  lemma {:induction false} UnapprovedIsAppended(conditions: seq<Condition>, ours: Condition)
    requires ApprovalIn(conditions).None? && ours.kind == APPROVED
    ensures forall a | a in conditions :: a.kind != APPROVED
    ensures Upsert(conditions, ours) == conditions + [ours]
  {
    if conditions != [] {
      UnapprovedIsAppended(conditions[1..], ours);
      assert conditions == [conditions[0]] + conditions[1..];
    }
  }

  lemma JustifiedIsStored(clientDisabled: bool, groups: nat, past: seq<Server>, w: Write, csr: CSR)
    requires Justified(clientDisabled, groups, past, w) && IsJudged(w, csr)
    ensures StoredRight(past, w, csr)
  {
    UnapprovedIsAppended(csr.conditions, OurApproval(w.approvedAt));
    assert w.stored.conditions == Approval.Approve(csr, w.approvedAt).conditions;
  }

  // ================================================================ whole runs

  lemma WritesAreJustified(start: State, events: seq<Event>, i: nat)
    requires Initial(start) && Execute(start, events).Some? && i < |Execute(start, events).value.writes|
    ensures var end := Execute(start, events).value;
            end.clientDisabled == start.clientDisabled && Justified(start.clientDisabled, end.groups, end.past, end.writes[i])
  {
    InvAlways(start, events);
    ConfigurationIsFixed(start, events);
    var end := Execute(start, events).value;
    assert AllJustified(end.clientDisabled, end.groups, end.past, end.writes);
  }

  /** Every approval of every run, in full: its times, its limit, the objects behind its
      lookups, the decision on them, and the object stored. */
  lemma EveryWriteInFull(start: State, events: seq<Event>, i: nat) returns (csr: CSR)
    requires Initial(start) && Execute(start, events).Some? && i < |Execute(start, events).value.writes|
    ensures var end := Execute(start, events).value;
            var w, s := end.writes[i], end.writes[i].job.snapshot;
            && IsJudged(w, csr) && TimedRight(end.groups, end.past, w) && WithinLimit(end.groups, end.past, w)
            && (forall j | 0 <= j < w.job.target :: s.csrs[j].name != csr.name)
            && Authorized(start.clientDisabled, s.machines, csr, csr.request.content.value, s.ca, s.view)
            && (forall n | !NodeClientRequest(csr.usages, csr.request.content.value) && csr.username == "system:node:" + n ::
                  FoundIsHeld(end.groups, end.past, w, n))
            && StoredRight(end.past, w, csr)
  {
    WritesAreJustified(start, events, i);
    var end := Execute(start, events).value;
    var w := end.writes[i];
    csr := w.job.snapshot.csrs[w.job.target];
    JustifiedIsTimed(start.clientDisabled, end.groups, end.past, w);
    JustifiedIsWithinLimit(start.clientDisabled, end.groups, end.past, w);
    JustifiedIsStored(start.clientDisabled, end.groups, end.past, w, csr);
    forall n | !NodeClientRequest(csr.usages, csr.request.content.value) && csr.username == "system:node:" + n
      ensures FoundIsHeld(end.groups, end.past, w, n)
    {
      ServingLookup(start.clientDisabled, end.groups, end.past, w, csr, n);
    }
  }

  /** No client certificate for a node that exists: at the moment of the lookup, which lies
      between the list and the write, the server held no Node of the requested name. */
  lemma ClientNodeWasAbsent(start: State, events: seq<Event>, i: nat, csr: CSR, n: string)
    requires Initial(start) && Execute(start, events).Some? && i < |Execute(start, events).value.writes|
    requires IsJudged(Execute(start, events).value.writes[i], csr)
    requires NodeClientRequest(csr.usages, csr.request.content.value)
    requires csr.request.content.value.commonName == "system:node:" + n
    ensures var end := Execute(start, events).value;
            var at := end.writes[i].job.at;
            && NodeRead(end.groups) < |at| && at[NodeRead(end.groups)] < |end.past|
            && n !in end.past[at[NodeRead(end.groups)]].nodes
  {
    WritesAreJustified(start, events, i);
    var end := Execute(start, events).value;
    ClientLookup(start.clientDisabled, end.groups, end.past, end.writes[i], csr, n);
  }

  // ================================================================ the undisturbed run

  lemma {:induction false} FlattenedIsConcatenated(lists: seq<seq<Machine>>)
    ensures Flattened(lists) == Concatenated(Answered(lists))
  {
    if lists != [] {
      FlattenedIsConcatenated(lists[..|lists| - 1]);
      assert Answered(lists)[..|lists| - 1] == Answered(lists[..|lists| - 1]);
    }
  }

  /** What the undisturbed reconcile knows: the lists of the server as one call concatenates
      them, and the objects under the node's own name. */
  lemma FullSnapshotIsServer(csrs: seq<CSR>, target: nat, server: Server, c: Choice, n: string)
    requires target < |csrs| && Parses(csrs[target]) && !c.fails
    requires var csr := csrs[target].request.content.value;
             if NodeClientRequest(csrs[target].usages, csr) then csr.commonName == "system:node:" + n
             else csrs[target].username == "system:node:" + n
    ensures var s := FullSnapshot(csrs, target, server, c);
            && s.csrs == csrs && s.machines == Concatenated(Answered(server.machines))
            && s.nodes == |server.nodes| && s.countedAt == server.clock
            && s.view.node == (if n in server.nodes then Found(server.nodes[n]) else NotFound)
            && s.view.hostSubnet == (if n in server.hostSubnets then Found(server.hostSubnets[n]) else NotFound)
            && s.view.network == (if "cluster" in server.networks then Found(server.networks["cluster"]) else NotFound)
  {
    FlattenedIsConcatenated(server.machines);
    if NodeClientRequest(csrs[target].usages, csrs[target].request.content.value) {
      ClientNodeIs(csrs[target].request.content.value, n);
    } else {
      ServingNodeIs(csrs[target], n);
    }
  }

  /** The undisturbed reconcile of a client request stores no approval while the node exists. */
  lemma ExistingNodeBlocksClient(start: State, worker: nat, csrs: seq<CSR>, target: nat, c: Choice, approvedAt: Time, n: string)
    requires ServerInv(start.past, start.groups) && Enabled(start, Begin(worker, csrs, target))
    requires NodeClientRequest(csrs[target].usages, csrs[target].request.content.value)
    requires csrs[target].request.content.value.commonName == "system:node:" + n && n in Now(start).nodes
    ensures Execute(start, Reconciling(worker, csrs, target, c, start.groups, approvedAt)).None?
  {
    UndisturbedReconcile(start, worker, csrs, target, c, approvedAt);
    ClientNodeIs(csrs[target].request.content.value, n);
  }
}
