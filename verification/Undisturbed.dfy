/** A reconcile that runs from its list to its write with nothing in between: whether it
    approves depends on the server's contents alone. */
module Undisturbed {
  import opened Types
  import opened Text
  import opened Usages
  import opened Machines
  import opened SubjectNames
  import opened Authorization
  import opened Approval
  import opened Limits
  import opened Reconcile
  import opened Protocol

  // ================================================================ the run

  /** One worker begins and makes `count` reads; nobody else takes a step. */
  ghost function Reading(worker: nat, csrs: seq<CSR>, target: nat, c: Choice, count: nat): seq<Event> {
    if count == 0 then [Begin(worker, csrs, target)]
    else Reading(worker, csrs, target, c, count - 1) + [ReadNext(worker, c)]
  }

  /** It makes all its reads and submits. */
  ghost function Reconciling(worker: nat, csrs: seq<CSR>, target: nat, c: Choice, groups: nat, approvedAt: Time): seq<Event> {
    Reading(worker, csrs, target, c, AllReads(groups)) + [Submit(worker, approvedAt)]
  }

  // ================================================================ what it knows

  ghost function Flattened(lists: seq<seq<Machine>>): seq<Machine> {
    if lists == [] then [] else Flattened(lists[..|lists| - 1]) + lists[|lists| - 1]
  }

  /** What a reconcile knows when it has read everything from one server state. */
  ghost function FullSnapshot(csrs: seq<CSR>, target: nat, server: Server, c: Choice): Snapshot
    requires target < |csrs| && Parses(csrs[target])
  {
    var node := LookedUp(csrs[target]);
    Snapshot(csrs, Flattened(server.machines), |server.nodes|, server.clock, c.ca,
             View(Fetch(c.fails, server.nodes, node), c.dialed, c.verified,
                  Fetch(c.fails, server.networks, CLUSTER_NETWORK), c.verified,
                  Fetch(c.fails, server.hostSubnets, node)))
  }

  ghost function SnapshotAfter(csrs: seq<CSR>, target: nat, count: nat, groups: nat, server: Server, c: Choice): (r: Snapshot)
    requires target < |csrs| && Parses(csrs[target])
    requires |server.machines| == groups && count <= AllReads(groups)
    ensures r.csrs == csrs
  {
    if count == 0 then BlankSnapshot(csrs)
    else AfterRead(SnapshotAfter(csrs, target, count - 1, groups, server, c), target, count - 1, groups, server, c)
  }

  lemma {:induction false} MachinesRead(csrs: seq<CSR>, target: nat, count: nat, groups: nat, server: Server, c: Choice)
    requires target < |csrs| && Parses(csrs[target])
    requires |server.machines| == groups && count <= groups
    ensures SnapshotAfter(csrs, target, count, groups, server, c)
         == BlankSnapshot(csrs).(machines := Flattened(server.machines[..count]))
  {
    if count > 0 {
      MachinesRead(csrs, target, count - 1, groups, server, c);
      assert server.machines[..count][..count - 1] == server.machines[..count - 1];
    }
  }

  lemma ListsRead(csrs: seq<CSR>, target: nat, groups: nat, server: Server, c: Choice)
    requires target < |csrs| && Parses(csrs[target]) && |server.machines| == groups
    ensures SnapshotAfter(csrs, target, LimitRead(groups) + 1, groups, server, c)
         == BlankSnapshot(csrs).(machines := Flattened(server.machines), nodes := |server.nodes|, countedAt := server.clock)
  {
    MachinesRead(csrs, target, groups, groups, server, c);
    assert server.machines[..groups] == server.machines;
    var nodes := SnapshotAfter(csrs, target, groups + 1, groups, server, c);
  }

  lemma EverythingRead(csrs: seq<CSR>, target: nat, groups: nat, server: Server, c: Choice)
    requires target < |csrs| && Parses(csrs[target]) && |server.machines| == groups
    ensures SnapshotAfter(csrs, target, AllReads(groups), groups, server, c) == FullSnapshot(csrs, target, server, c)
    ensures OverLimit(SnapshotAfter(csrs, target, LimitRead(groups) + 1, groups, server, c))
       <==> OverLimit(FullSnapshot(csrs, target, server, c))
  {
    ListsRead(csrs, target, groups, server, c);
    var node := SnapshotAfter(csrs, target, groups + 3, groups, server, c);
    var network := SnapshotAfter(csrs, target, groups + 4, groups, server, c);
  }

  // ================================================================ the state it reaches

  /** `worker` has made `count` reads of the job, and nothing else differs from the start. */
  ghost predicate HasRead(start: State, end: State, worker: nat, csrs: seq<CSR>, target: nat, count: nat, c: Choice)
    requires start.past != [] && target < |csrs| && Parses(csrs[target])
    requires |Now(start).machines| == start.groups && count <= AllReads(start.groups)
  {
    && end.past != [] && Now(end) == Now(start)
    && end.groups == start.groups && end.clientDisabled == start.clientDisabled && end.writes == start.writes
    && IsBusy(end, worker) && end.workers[worker := Idle] == start.workers
    && end.workers[worker].job.target == target && |end.workers[worker].job.at| == count
    && end.workers[worker].job.snapshot == SnapshotAfter(csrs, target, count, start.groups, Now(start), c)
  }

  /** The next read goes through unless it is the one that finds the limit exceeded. */
  lemma OneMoreRead(start: State, s: State, worker: nat, csrs: seq<CSR>, target: nat, c: Choice, count: nat)
    requires start.past != [] && target < |csrs| && Parses(csrs[target])
    requires |Now(start).machines| == start.groups && count < AllReads(start.groups)
    requires HasRead(start, s, worker, csrs, target, count, c)
    ensures Enabled(s, ReadNext(worker, c)) <==>
            (count == LimitRead(start.groups) ==> !OverLimit(FullSnapshot(csrs, target, Now(start), c)))
    ensures Enabled(s, ReadNext(worker, c)) ==>
              HasRead(start, Step(s, ReadNext(worker, c)), worker, csrs, target, count + 1, c)
  {
    EverythingRead(csrs, target, start.groups, Now(start), c);
    var job := s.workers[worker].job;
    assert AfterRead(job.snapshot, target, count, s.groups, Now(s), c)
        == SnapshotAfter(csrs, target, count + 1, start.groups, Now(start), c);
  }

  lemma ExecuteLast(start: State, events: seq<Event>, e: Event)
    requires start.past != []
    ensures Execute(start, events + [e]) ==
            if Execute(start, events).Some? && Enabled(Execute(start, events).value, e)
            then Some(Step(Execute(start, events).value, e)) else None
  {
    assert (events + [e])[..|events|] == events;
  }

  lemma NothingRead(start: State, worker: nat, csrs: seq<CSR>, target: nat, c: Choice)
    requires start.past != [] && Enabled(start, Begin(worker, csrs, target))
    requires |Now(start).machines| == start.groups
    ensures Execute(start, [Begin(worker, csrs, target)]) == Some(Step(start, Begin(worker, csrs, target)))
    ensures HasRead(start, Step(start, Begin(worker, csrs, target)), worker, csrs, target, 0, c)
  {
    assert Execute(start, []) == Some(start);
    ExecuteLast(start, [], Begin(worker, csrs, target));
    assert [] + [Begin(worker, csrs, target)] == [Begin(worker, csrs, target)];
  }

  /** The events can be taken exactly if the limit check, once among them, lets the job
      through, and then they amount to `count` reads. */
  ghost predicate Reads(start: State, events: seq<Event>, worker: nat, csrs: seq<CSR>, target: nat, count: nat, c: Choice)
    requires start.past != [] && target < |csrs| && Parses(csrs[target])
    requires |Now(start).machines| == start.groups && count <= AllReads(start.groups)
  {
    && (Execute(start, events).Some? <==>
        (count > LimitRead(start.groups) ==> !OverLimit(FullSnapshot(csrs, target, Now(start), c))))
    && (Execute(start, events).Some? ==> HasRead(start, Execute(start, events).value, worker, csrs, target, count, c))
  }

  lemma ReadGoesThrough(start: State, before: seq<Event>, worker: nat, csrs: seq<CSR>, target: nat, c: Choice, count: nat)
    requires start.past != [] && target < |csrs| && Parses(csrs[target])
    requires |Now(start).machines| == start.groups && count < AllReads(start.groups)
    requires Reads(start, before, worker, csrs, target, count, c)
    ensures Reads(start, before + [ReadNext(worker, c)], worker, csrs, target, count + 1, c)
  {
    ExecuteLast(start, before, ReadNext(worker, c));
    if Execute(start, before).Some? {
      OneMoreRead(start, Execute(start, before).value, worker, csrs, target, c, count);
    }
  }

  lemma BeginGoesThrough(start: State, worker: nat, csrs: seq<CSR>, target: nat, c: Choice)
    requires start.past != [] && Enabled(start, Begin(worker, csrs, target))
    requires |Now(start).machines| == start.groups
    ensures Reads(start, [Begin(worker, csrs, target)], worker, csrs, target, 0, c)
  {
    NothingRead(start, worker, csrs, target, c);
  }

  lemma NextReading(start: State, worker: nat, csrs: seq<CSR>, target: nat, c: Choice, count: nat)
    requires start.past != [] && target < |csrs| && Parses(csrs[target])
    requires |Now(start).machines| == start.groups && count < AllReads(start.groups)
    requires Reads(start, Reading(worker, csrs, target, c, count), worker, csrs, target, count, c)
    ensures Reads(start, Reading(worker, csrs, target, c, count + 1), worker, csrs, target, count + 1, c)
  {
    var before := Reading(worker, csrs, target, c, count);
    ReadGoesThrough(start, before, worker, csrs, target, c, count);
    assert Reading(worker, csrs, target, c, count + 1) == before + [ReadNext(worker, c)];
  }

  /** Plain induction over the number of reads. */
  lemma {:induction false} Upwards(holds: nat -> bool, count: nat)
    requires holds(0) && forall k: nat | k < count && holds(k) :: holds(k + 1)
    ensures holds(count)
  {
    if count > 0 {
      Upwards(holds, count - 1);
    }
  }

  lemma ReadsGoThrough(start: State, worker: nat, csrs: seq<CSR>, target: nat, c: Choice)
    requires start.past != [] && Enabled(start, Begin(worker, csrs, target))
    requires |Now(start).machines| == start.groups
    ensures Reads(start, Reading(worker, csrs, target, c, AllReads(start.groups)), worker, csrs, target, AllReads(start.groups), c)
  {
    var all := AllReads(start.groups);
    var holds := (k: nat) => k <= all ==> Reads(start, Reading(worker, csrs, target, c, k), worker, csrs, target, k, c);
    BeginGoesThrough(start, worker, csrs, target, c);
    forall k: nat | k < all && holds(k) ensures holds(k + 1) {
      NextReading(start, worker, csrs, target, c, k);
    }
    Upwards(holds, all);
  }

  // ================================================================ its write

  /** Whether the server, and the decision on all it holds, let this listed request be
      approved. */
  ghost predicate Approvable(start: State, csrs: seq<CSR>, target: nat, c: Choice)
    requires start.past != [] && target < |csrs| && Parses(csrs[target])
  {
    && ApprovesRequest(start.clientDisabled, FullSnapshot(csrs, target, Now(start), c), csrs[target])
    && HoldsAt(Now(start), csrs[target]) && !IsDenied(csrs[target])
  }

  /** The server after the approval of one request: that object changes, by the upsert. */
  ghost function WithApproval(server: Server, csr: CSR, approvedAt: Time): Server {
    var stored := Approval.Approve(csr, approvedAt).(resourceVersion := server.nextVersion);
    server.(csrs := server.csrs[csr.name := stored], nextVersion := server.nextVersion + 1)
  }

  /** One write was logged, for that request, and every worker is where it was. */
  ghost predicate HasWritten(start: State, end: State, csr: CSR, approvedAt: Time)
    requires start.past != []
  {
    && end.past != [] && Now(end) == WithApproval(Now(start), csr, approvedAt)
    && end.workers == start.workers
    && |end.writes| == |start.writes| + 1 && end.writes[..|start.writes|] == start.writes
    && end.writes[|start.writes|].stored == Now(end).csrs[csr.name]
  }

  lemma ReadySubmits(start: State, s: State, worker: nat, csrs: seq<CSR>, target: nat, c: Choice, approvedAt: Time)
    requires start.past != [] && |Now(start).machines| == start.groups
    requires target < |csrs| && Parses(csrs[target])
    requires HasRead(start, s, worker, csrs, target, AllReads(start.groups), c)
    requires csrs[target].name in Now(start).csrs && Now(start).csrs[csrs[target].name].resourceVersion == csrs[target].resourceVersion
        ==> HoldsAt(Now(start), csrs[target])
    ensures Enabled(s, Submit(worker, approvedAt)) <==> Approvable(start, csrs, target, c)
    ensures Enabled(s, Submit(worker, approvedAt)) ==>
              HasWritten(start, Step(s, Submit(worker, approvedAt)), csrs[target], approvedAt)
  {
    EverythingRead(csrs, target, start.groups, Now(start), c);
  }

  lemma ListedIsStored(start: State, csrs: seq<CSR>, target: nat, worker: nat)
    requires ServerInv(start.past, start.groups) && Enabled(start, Begin(worker, csrs, target))
    ensures csrs[target].name in Now(start).csrs && Now(start).csrs[csrs[target].name].resourceVersion == csrs[target].resourceVersion
        ==> HoldsAt(Now(start), csrs[target])
  {
    assert csrs[target] in csrs;
    if csrs[target].name in Now(start).csrs && Now(start).csrs[csrs[target].name].resourceVersion == csrs[target].resourceVersion {
      MatchingVersionIsCurrent(start.past, csrs[target]);
    }
  }

  /** The converse of safety, exactly.  A reconcile that nobody interleaves with gets its
      approval stored if and only if the request, as listed, is the current object and not
      denied, and the decision on what the server holds is to approve; and then the server
      changes in that one object only. */
  lemma UndisturbedReconcile(start: State, worker: nat, csrs: seq<CSR>, target: nat, c: Choice, approvedAt: Time)
    requires ServerInv(start.past, start.groups) && Enabled(start, Begin(worker, csrs, target))
    ensures var end := Execute(start, Reconciling(worker, csrs, target, c, start.groups, approvedAt));
            && (end.Some? <==> Approvable(start, csrs, target, c))
            && (end.Some? ==> HasWritten(start, end.value, csrs[target], approvedAt))
  {
    assert |Now(start).machines| == start.groups;
    var reading := Reading(worker, csrs, target, c, AllReads(start.groups));
    ReadsGoThrough(start, worker, csrs, target, c);
    ExecuteLast(start, reading, Submit(worker, approvedAt));
    if Execute(start, reading).Some? {
      ListedIsStored(start, csrs, target, worker);
      ReadySubmits(start, Execute(start, reading).value, worker, csrs, target, c, approvedAt);
    }
  }

  // ================================================================ an actual run

  ghost function SampleRequest(): CSR {
    var user := NODE_USER_PREFIX + "a";
    CSR("csr", 0, 0, 0, user, [NODE_GROUP, AUTHENTICATED], [DIGITAL_SIGNATURE, SERVER_AUTH],
        Block(REQUEST_LABEL, Some(CertificateRequest(user, [NODE_GROUP], [], [], [], []))), [])
  }

  ghost function SampleMachine(): Machine {
    Machine(0, Some("a"), [])
  }

  /** One machine, one request, one worker. */
  ghost function SampleStart(): State {
    var server := Server(map[SampleRequest().name := SampleRequest()], [[SampleMachine()]], map[], map[], map[], 0, 1, 1);
    State(true, 1, [server], [Worker.Idle], [])
  }

  /** A node user that asks for no names is authorised by the machine linked to its node. */
  lemma SampleIsAuthorized(ca: bool, view: View)
    ensures var csr := SampleRequest(); Authorized(true, [SampleMachine()], csr, csr.request.content.value, ca, view)
  {
    var csr, machines := SampleRequest(), [SampleMachine()];
    var parsed := csr.request.content.value;
    assert TrimPrefix(csr.username, NODE_USER_PREFIX) == "a";
    assert csr.groups[0] == NODE_GROUP && csr.groups[1] == AUTHENTICATED && parsed.organization[0] == NODE_GROUP;
    assert csr.usages[0] == DIGITAL_SIGNATURE && csr.usages[1] == SERVER_AUTH;
    assert ServingContents(csr, parsed);
    FlowsAreExclusive(csr, parsed);
    assert FirstByNodeRef(machines, 0, "a") && OwnsNames(machines[0].addresses, parsed);
  }

  lemma SampleIsBelowLimit(s: Snapshot)
    requires |s.csrs| == 1
    ensures !OverLimit(s)
  {
    SubsetCount(PendingPositions(s.csrs, s.countedAt), {0});
  }

  lemma SampleIsApprovable(c: Choice)
    ensures Approvable(SampleStart(), [SampleRequest()], 0, c)
  {
    var csr, server := SampleRequest(), Now(SampleStart());
    var s := FullSnapshot([csr], 0, server, c);
    assert server.machines[..0] == [];
    assert Flattened(server.machines[..0]) == [];
    assert s.machines == [SampleMachine()];
    SampleIsAuthorized(s.ca, s.view);
    SampleIsBelowLimit(s);
  }

  lemma SampleCanBegin()
    ensures Initial(SampleStart()) && Enabled(SampleStart(), Begin(0, [SampleRequest()], 0))
  {
    assert HoldsAt(SampleStart().past[0], SampleRequest());
  }

  /** Runs with a write exist: from this small cluster the undisturbed reconcile stores an
      approval. */
  lemma ApprovalIsReachable() returns (start: State, events: seq<Event>)
    ensures Initial(start) && Execute(start, events).Some? && |Execute(start, events).value.writes| == 1
  {
    start := SampleStart();
    var c := Choice(true, false, None, false);
    events := Reconciling(0, [SampleRequest()], 0, c, 1, 0);
    SampleCanBegin();
    SampleIsApprovable(c);
    InitialInv(start);
    UndisturbedReconcile(start, 0, [SampleRequest()], 0, c, 0);
  }
}
