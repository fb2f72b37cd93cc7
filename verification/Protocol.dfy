/** The approval protocol over whole runs.

    The API server, its other clients and any number of reconcile workers take steps in any
    order.  A worker's reconcile is cut at each of its reads and at its write: a CSR list
    that may be stale in every entry, the machines of one API group after another, the
    nodes, the clock of the limit check, then the Node, the cluster network and the host
    subnet, and at last the approval.  Any read of an object may fail, the worker may stop
    at any point, and the approval is stored only if the resource version still matches.

    `past` keeps every state the server went through, so that "was read at an earlier
    moment" can be stated; `writes` keeps every approval that was stored. */
module Protocol {
  import opened Types
  import opened Usages
  import opened Authorization
  import opened Approval
  import opened Reconcile

  // ================================================================ state

  datatype Server = Server(
    csrs: map<string, CSR>,
    machines: seq<seq<Machine>>,
    nodes: map<string, Node>,
    networks: map<string, string>,
    hostSubnets: map<string, HostSubnet>,
    clock: Time,
    nextVersion: nat,
    nextUid: nat)

  /** A reconcile under way for request `target` of its list, which was handed over at
      moment `begun` (a position in `past`).  `at` holds the moments of the reads done since,
      in order. */
  datatype Job = Job(target: nat, snapshot: Snapshot, begun: nat, at: seq<nat>)

  datatype Worker = Idle | Busy(job: Job)

  /** A stored approval: made for `job`, it produced server state `moment`. */
  datatype Write = Write(job: Job, approvedAt: Time, moment: nat, stored: CSR)

  datatype State = State(
    clientDisabled: bool, groups: nat,
    past: seq<Server>, workers: seq<Worker>, writes: seq<Write>)

  ghost function Now(s: State): Server
    requires s.past != []
  {
    s.past[|s.past| - 1]
  }

  // ================================================================ reads

  /** An object of the server's CSR collection at some moment. */
  ghost predicate Stored(past: seq<Server>, c: CSR) {
    exists k | 0 <= k < |past| :: HoldsAt(past[k], c)
  }

  ghost predicate HoldsAt(server: Server, c: CSR) {
    c.name in server.csrs && server.csrs[c.name] == c
  }

  /** A read of one object agrees with the collection it was read from. */
  ghost predicate Agrees<T>(r: Read<T>, objects: map<string, T>, key: string) {
    match r
    case Found(v) => key in objects && objects[key] == v
    case NotFound => key !in objects
    case Failed => true
  }

  /** The node whose object the decision looks up. */
  ghost function LookedUp(csr: CSR): string
    requires Parses(csr)
  {
    if NodeClientRequest(csr.usages, csr.request.content.value)
    then ClientNode(csr.request.content.value) else ServingNode(csr)
  }

  const CLUSTER_NETWORK := "cluster"

  /** The machines read group by group, group `g` at moment `at[g]`. */
  ghost function MachinesAt(past: seq<Server>, at: seq<nat>): seq<Machine>
    requires forall g | 0 <= g < |at| :: at[g] < |past| && g < |past[at[g]].machines|
  {
    if at == [] then []
    else
      var g := |at| - 1;
      MachinesAt(past, at[..g]) + past[at[g]].machines[g]
  }

  // Reads come in this order: one per API group, then these.
  ghost function NodesRead(groups: nat): nat { groups }
  ghost function LimitRead(groups: nat): nat { groups + 1 }
  ghost function NodeRead(groups: nat): nat { groups + 2 }
  ghost function NetworkRead(groups: nat): nat { groups + 3 }
  ghost function SubnetRead(groups: nat): nat { groups + 4 }
  ghost function AllReads(groups: nat): nat { groups + 5 }

  ghost predicate InOrder(at: seq<nat>, bound: nat) {
    && (forall i | 0 <= i < |at| :: at[i] < bound)
    && (forall i, j | 0 <= i < j < |at| :: at[i] <= at[j])
  }

  /** Every listed request is a version that existed when the list was handed over, which was
      before the reads. */
  ghost predicate ListGrounded(past: seq<Server>, job: Job) {
    var csrs := job.snapshot.csrs;
    && job.begun < |past| && (job.at != [] ==> job.begun <= job.at[0])
    && job.target < |csrs| && Target(csrs, job.target, csrs[job.target].name) && Parses(csrs[job.target])
    && forall c | c in csrs :: Stored(past[..job.begun + 1], c)
  }

  /** What was read is what the server held at the moment of the read, and the limit check,
      once made, let the job through. */
  ghost predicate ReadsGrounded(past: seq<Server>, groups: nat, job: Job)
    requires ListGrounded(past, job)
  {
    var s, at := job.snapshot, job.at;
    && |at| <= AllReads(groups) && InOrder(at, |past|)
    && (forall k | 0 <= k < |past| :: |past[k].machines| == groups)
    && s.machines == MachinesAt(past, if |at| <= groups then at else at[..groups])
    && (|at| > NodesRead(groups) ==> s.nodes == |past[at[NodesRead(groups)]].nodes|)
    && (|at| > LimitRead(groups) ==> s.countedAt == past[at[LimitRead(groups)]].clock && !OverLimit(s))
    && (|at| > NodeRead(groups) ==> Agrees(s.view.node, past[at[NodeRead(groups)]].nodes, LookedUp(s.csrs[job.target])))
    && (|at| > NetworkRead(groups) ==> Agrees(s.view.network, past[at[NetworkRead(groups)]].networks, CLUSTER_NETWORK))
    && (|at| > SubnetRead(groups) ==> Agrees(s.view.hostSubnet, past[at[SubnetRead(groups)]].hostSubnets, LookedUp(s.csrs[job.target])))
  }

  /** Everything a job knows is what the server held at the moments it learnt it. */
  ghost predicate Grounded(past: seq<Server>, groups: nat, job: Job) {
    ListGrounded(past, job) && ReadsGrounded(past, groups, job)
  }

  // ================================================================ steps

  /** What a read step leaves open: whether the API call fails, and what is not part of the
      modelled server (the CA bundle, the TLS handshake, certificate verification). */
  datatype Choice = Choice(fails: bool, ca: bool, dialed: Option<Certificate>, verified: bool)

  datatype Event =
    | Create(csr: CSR)
    | Delete(name: string)
    | SetConditions(name: string, conditions: seq<Condition>)
    | Churn(machines: seq<seq<Machine>>, nodes: map<string, Node>, networks: map<string, string>,
            hostSubnets: map<string, HostSubnet>, clock: Time)
    | Begin(worker: nat, csrs: seq<CSR>, target: nat)
    | ReadNext(worker: nat, choice: Choice)
    | Submit(worker: nat, approvedAt: Time)
    | Abandon(worker: nat)

  ghost predicate ShowsOurs(conditions: seq<Condition>) {
    ApprovalIn(conditions).Some? && ApprovalIn(conditions).value.message == APPROVE_MESSAGE
  }

  /** What the API server and its other clients keep to: an approval, once there, is not
      removed, and nobody else signs with this controller's message.  The text and the times
      of an approval may be rewritten. */
  ghost predicate KeepsApproval(before: seq<Condition>, after: seq<Condition>) {
    && (ApprovalIn(before).Some? ==> ApprovalIn(after).Some?)
    && (ShowsOurs(after) ==> ShowsOurs(before))
  }

  ghost function Fetch<T>(fails: bool, objects: map<string, T>, key: string): (r: Read<T>)
    ensures Agrees(r, objects, key)
  {
    if fails then Failed else if key in objects then Found(objects[key]) else NotFound
  }

  /** The snapshot after the next read, number `read`, of a server. */
  ghost function AfterRead(s: Snapshot, target: nat, read: nat, groups: nat, server: Server, c: Choice): Snapshot
    requires target < |s.csrs| && Parses(s.csrs[target])
    requires |server.machines| == groups && read < AllReads(groups)
  {
    if read < groups then s.(machines := s.machines + server.machines[read])
    else if read == NodesRead(groups) then s.(nodes := |server.nodes|)
    else if read == LimitRead(groups) then s.(countedAt := server.clock)
    else if read == NodeRead(groups) then
      s.(ca := c.ca, view := s.view.(node := Fetch(c.fails, server.nodes, LookedUp(s.csrs[target])),
                                     dialed := c.dialed, verifiedForRenewal := c.verified))
    else if read == NetworkRead(groups) then
      s.(view := s.view.(network := Fetch(c.fails, server.networks, CLUSTER_NETWORK)))
    else
      s.(view := s.view.(hostSubnet := Fetch(c.fails, server.hostSubnets, LookedUp(s.csrs[target])), verifiedForEgress := c.verified))
  }

  const DENIED := "Denied"

  /** The server takes no approval of a denied request. */
  ghost predicate IsDenied(csr: CSR) {
    exists c | c in csr.conditions :: c.kind == DENIED
  }

  ghost predicate IsBusy(s: State, worker: nat) {
    worker < |s.workers| && s.workers[worker].Busy?
  }

  ghost predicate Enabled(s: State, e: Event)
    requires s.past != []
  {
    var server := Now(s);
    match e
    case Create(csr) =>
      csr.name !in server.csrs && csr.uid == server.nextUid && csr.resourceVersion == server.nextVersion && !IsApprovedByCMA(csr)
    case Delete(name) => name in server.csrs
    case SetConditions(name, conditions) => name in server.csrs && KeepsApproval(server.csrs[name].conditions, conditions)
    case Churn(machines, _, _, _, clock) => |machines| == s.groups && clock >= server.clock
    case Begin(worker, csrs, target) =>
      && worker < |s.workers| && s.workers[worker].Idle?
      && (forall c | c in csrs :: Stored(s.past, c))
      && target < |csrs| && Target(csrs, target, csrs[target].name) && Parses(csrs[target])
    case ReadNext(worker, choice) =>
      IsBusy(s, worker) &&
      var job := s.workers[worker].job;
      && |job.at| < AllReads(s.groups)
      && |server.machines| == s.groups
      && job.target < |job.snapshot.csrs| && Parses(job.snapshot.csrs[job.target])
      && (|job.at| == LimitRead(s.groups) ==> !OverLimit(AfterRead(job.snapshot, job.target, |job.at|, s.groups, server, choice)))
    case Submit(worker, _) =>
      IsBusy(s, worker) &&
      var job := s.workers[worker].job;
      && |job.at| == AllReads(s.groups) && job.target < |job.snapshot.csrs|
      && var csr := job.snapshot.csrs[job.target];
      && ApprovesRequest(s.clientDisabled, job.snapshot, csr)
      && csr.name in server.csrs && server.csrs[csr.name].resourceVersion == csr.resourceVersion
      && !IsDenied(csr)
    case Abandon(worker) => IsBusy(s, worker)
  }

  /** The object the server stores for an approval. */
  ghost function StoredApproval(s: State, csr: CSR, approvedAt: Time): CSR
    requires s.past != []
  {
    Approval.Approve(csr, approvedAt).(resourceVersion := Now(s).nextVersion)
  }

  ghost function BlankSnapshot(csrs: seq<CSR>): Snapshot {
    Snapshot(csrs, [], 0, 0, false, View(Failed, None, false, Failed, false, Failed))
  }

  ghost function NextServer(s: State, e: Event): Server
    requires s.past != [] && Enabled(s, e)
  {
    var server := Now(s);
    match e
    case Create(csr) =>
      server.(csrs := server.csrs[csr.name := csr], nextUid := server.nextUid + 1, nextVersion := server.nextVersion + 1)
    case Delete(name) => server.(csrs := server.csrs - {name})
    case SetConditions(name, conditions) =>
      server.(csrs := server.csrs[name := server.csrs[name].(conditions := conditions, resourceVersion := server.nextVersion)],
              nextVersion := server.nextVersion + 1)
    case Churn(machines, nodes, networks, hostSubnets, clock) =>
      server.(machines := machines, nodes := nodes, networks := networks, hostSubnets := hostSubnets, clock := clock)
    case Submit(worker, approvedAt) =>
      var job := s.workers[worker].job;
      var csr := job.snapshot.csrs[job.target];
      server.(csrs := server.csrs[csr.name := StoredApproval(s, csr, approvedAt)], nextVersion := server.nextVersion + 1)
    case _ => server
  }

  ghost function NextWorkers(s: State, e: Event): seq<Worker>
    requires s.past != [] && Enabled(s, e)
  {
    match e
    case Begin(worker, csrs, target) => s.workers[worker := Busy(Job(target, BlankSnapshot(csrs), |s.past| - 1, []))]
    case ReadNext(worker, choice) =>
      var job := s.workers[worker].job;
      var snapshot := AfterRead(job.snapshot, job.target, |job.at|, s.groups, Now(s), choice);
      s.workers[worker := Busy(job.(snapshot := snapshot, at := job.at + [|s.past| - 1]))]
    case Submit(worker, _) => s.workers[worker := Idle]
    case Abandon(worker) => s.workers[worker := Idle]
    case _ => s.workers
  }

  ghost function NextWrites(s: State, e: Event): seq<Write>
    requires s.past != [] && Enabled(s, e)
  {
    match e
    case Submit(worker, approvedAt) =>
      var job := s.workers[worker].job;
      s.writes + [Write(job, approvedAt, |s.past|, StoredApproval(s, job.snapshot.csrs[job.target], approvedAt))]
    case _ => s.writes
  }

  ghost function Step(s: State, e: Event): (s': State)
    requires s.past != [] && Enabled(s, e)
    ensures s'.past != []
  {
    s.(past := s.past + [NextServer(s, e)], workers := NextWorkers(s, e), writes := NextWrites(s, e))
  }

  /** The state after a run, if every event of it was possible. */
  ghost function Execute(start: State, events: seq<Event>): (end: Option<State>)
    requires start.past != []
    ensures end.Some? ==> end.value.past != []
  {
    if events == [] then Some(start)
    else
      var last := |events| - 1;
      match Execute(start, events[..last])
      case None => None
      case Some(s) => if Enabled(s, events[last]) then Some(Step(s, events[last])) else None
  }

  /** The approver starts on a cluster that holds no approval of its own. */
  ghost predicate Initial(s: State) {
    && |s.past| == 1 && s.writes == [] && (forall w | w in s.workers :: w.Idle?)
    && |Now(s).machines| == s.groups
    && WellKept(Now(s))
    && (forall m, n | m in Now(s).csrs && n in Now(s).csrs && m != n ::
          Now(s).csrs[m].resourceVersion != Now(s).csrs[n].resourceVersion && Now(s).csrs[m].uid != Now(s).csrs[n].uid)
    && (forall n | n in Now(s).csrs :: !IsApprovedByCMA(Now(s).csrs[n]))
  }

  // ================================================================ invariant

  /** Objects are filed under their names and carry numbers already given out. */
  ghost predicate WellKept(server: Server) {
    forall n | n in server.csrs ::
      server.csrs[n].name == n && server.csrs[n].resourceVersion < server.nextVersion && server.csrs[n].uid < server.nextUid
  }

  /** A resource version names one version of one object, ever. */
  ghost predicate VersionsAreUnique(past: seq<Server>) {
    forall c, d | Stored(past, c) && Stored(past, d) && c.resourceVersion == d.resourceVersion :: c == d
  }

  ghost predicate VersionsAreOld(past: seq<Server>, nextVersion: nat) {
    forall c | Stored(past, c) :: c.resourceVersion < nextVersion
  }

  ghost predicate UidsAreUnique(server: Server) {
    forall m, n | m in server.csrs && n in server.csrs && server.csrs[m].uid == server.csrs[n].uid :: m == n
  }

  /** Equal but for the conditions and the version. */
  ghost predicate SameRequest(c: CSR, d: CSR) {
    c.(conditions := d.conditions, resourceVersion := d.resourceVersion) == d
  }

  /** The decision behind a stored approval: made on a snapshot read from earlier server
      states, on the very version of the request that the approval replaced. */
  ghost predicate Justified(clientDisabled: bool, groups: nat, past: seq<Server>, w: Write) {
    && Grounded(past, groups, w.job) && |w.job.at| == AllReads(groups)
    && w.job.begun <= w.job.at[0] <= w.job.at[SubnetRead(groups)] < w.moment < |past|
    && var csr := w.job.snapshot.csrs[w.job.target];
    && ApprovesRequest(clientDisabled, w.job.snapshot, csr)
    && HoldsAt(past[w.moment - 1], csr) && HoldsAt(past[w.moment], w.stored)
    && SameRequest(csr, w.stored) && w.stored.conditions == Approval.Approve(csr, w.approvedAt).conditions
  }

  ghost predicate DistinctUids(writes: seq<Write>) {
    forall i, j | 0 <= i < j < |writes| :: writes[i].stored.uid != writes[j].stored.uid
  }

  /** A request that was approved by a write stays so for as long as it exists. */
  ghost predicate StaysApproved(server: Server, w: Write) {
    && w.stored.uid < server.nextUid
    && forall n | n in server.csrs && server.csrs[n].uid == w.stored.uid ::
         IsApproved(server.csrs[n]) && SameRequest(w.stored, server.csrs[n])
  }

  ghost predicate WrittenBy(writes: seq<Write>, c: CSR) {
    exists i | 0 <= i < |writes| :: writes[i].stored.uid == c.uid
  }

  ghost predicate ServerInv(past: seq<Server>, groups: nat) {
    && past != []
    && (forall k | 0 <= k < |past| :: |past[k].machines| == groups)
    && VersionsAreUnique(past)
    && var server := past[|past| - 1];
    && WellKept(server) && UidsAreUnique(server) && VersionsAreOld(past, server.nextVersion)
  }

  ghost predicate AllJustified(clientDisabled: bool, groups: nat, past: seq<Server>, writes: seq<Write>) {
    forall i | 0 <= i < |writes| :: Justified(clientDisabled, groups, past, writes[i])
  }

  ghost predicate AllStayApproved(server: Server, writes: seq<Write>) {
    forall i | 0 <= i < |writes| :: StaysApproved(server, writes[i])
  }

  ghost predicate AllApprovedAreWritten(server: Server, writes: seq<Write>) {
    forall n | n in server.csrs && IsApprovedByCMA(server.csrs[n]) :: WrittenBy(writes, server.csrs[n])
  }

  ghost predicate ApprovalsInv(server: Server, writes: seq<Write>) {
    AllStayApproved(server, writes) && DistinctUids(writes) && AllApprovedAreWritten(server, writes)
  }

  ghost predicate WorkersInv(past: seq<Server>, groups: nat, workers: seq<Worker>) {
    forall i | 0 <= i < |workers| && workers[i].Busy? :: Grounded(past, groups, workers[i].job)
  }

  ghost predicate Inv(s: State) {
    && ServerInv(s.past, s.groups)
    && WorkersInv(s.past, s.groups, s.workers)
    && AllJustified(s.clientDisabled, s.groups, s.past, s.writes)
    && ApprovalsInv(Now(s), s.writes)
  }

  // ================================================================ history only grows

  lemma StoredGrows(past: seq<Server>, server: Server, c: CSR)
    ensures Stored(past + [server], c) <==> Stored(past, c) || HoldsAt(server, c)
  {
    var longer := past + [server];
    if Stored(past, c) {
      var k :| 0 <= k < |past| && HoldsAt(past[k], c);
      assert HoldsAt(longer[k], c);
    }
    if HoldsAt(server, c) {
      assert HoldsAt(longer[|past|], c);
    }
    if Stored(longer, c) {
      var k :| 0 <= k < |longer| && HoldsAt(longer[k], c);
      assert k < |past| ==> HoldsAt(past[k], c);
    }
  }

  lemma {:induction false} MachinesAtGrows(past: seq<Server>, server: Server, at: seq<nat>)
    requires forall g | 0 <= g < |at| :: at[g] < |past| && g < |past[at[g]].machines|
    ensures MachinesAt(past + [server], at) == MachinesAt(past, at)
  {
    if at != [] {
      MachinesAtGrows(past, server, at[..|at| - 1]);
    }
  }

  lemma GroundedGrows(past: seq<Server>, server: Server, groups: nat, job: Job)
    requires Grounded(past, groups, job) && |server.machines| == groups
    ensures Grounded(past + [server], groups, job)
  {
    assert (past + [server])[..job.begun + 1] == past[..job.begun + 1];
    MachinesAtGrows(past, server, if |job.at| <= groups then job.at else job.at[..groups]);
  }

  lemma JustifiedGrows(clientDisabled: bool, groups: nat, past: seq<Server>, server: Server, w: Write)
    requires Justified(clientDisabled, groups, past, w) && |server.machines| == groups
    ensures Justified(clientDisabled, groups, past + [server], w)
  {
    GroundedGrows(past, server, groups, w.job);
  }

  // ================================================================ the server's part

  /** `c` is a later version of `old_`: the same request, still approved if it was, and newly
      ours only if the step approves, which it does to unapproved requests only. */
  ghost predicate Continues(old_: CSR, c: CSR, approves: bool) {
    && SameRequest(old_, c)
    && (IsApproved(old_) ==> IsApproved(c))
    && (if approves then !IsApproved(old_) && IsApprovedByCMA(c) else IsApprovedByCMA(c) ==> IsApprovedByCMA(old_))
  }

  /** What a step does to the collection of requests: at most it removes some, or it stores
      one new version under a number never used before. */
  ghost predicate Changes(before: Server, after: Server, version: Option<CSR>, approves: bool) {
    && before.nextVersion <= after.nextVersion && before.nextUid <= after.nextUid
    && match version
       case None =>
         !approves && forall n | n in after.csrs :: n in before.csrs && after.csrs[n] == before.csrs[n]
       case Some(c) =>
         && after.csrs == before.csrs[c.name := c]
         && c.resourceVersion == before.nextVersion < after.nextVersion
         && if c.name in before.csrs then Continues(before.csrs[c.name], c, approves)
            else !approves && c.uid == before.nextUid < after.nextUid && !IsApprovedByCMA(c)
  }

  lemma CurrentIsStored(past: seq<Server>, c: CSR)
    requires past != []
    ensures HoldsAt(past[|past| - 1], c) ==> Stored(past, c)
  {
  }

  /** An object stored after a change was stored before, or is the new version. */
  lemma StoredAfterChange(past: seq<Server>, after: Server, version: Option<CSR>, approves: bool, c: CSR)
    requires past != [] && Changes(past[|past| - 1], after, version, approves)
    requires Stored(past + [after], c)
    ensures Stored(past, c) || version == Some(c)
  {
    StoredGrows(past, after, c);
    CurrentIsStored(past, c);
  }

  lemma VersionsStayUnique(past: seq<Server>, after: Server, version: Option<CSR>, approves: bool)
    requires past != [] && Changes(past[|past| - 1], after, version, approves)
    requires VersionsAreUnique(past) && VersionsAreOld(past, past[|past| - 1].nextVersion)
    ensures VersionsAreUnique(past + [after]) && VersionsAreOld(past + [after], after.nextVersion)
  {
    forall c | Stored(past + [after], c) ensures c.resourceVersion < after.nextVersion {
      StoredAfterChange(past, after, version, approves, c);
    }
    forall c, d | Stored(past + [after], c) && Stored(past + [after], d) && c.resourceVersion == d.resourceVersion
      ensures c == d
    {
      StoredAfterChange(past, after, version, approves, c);
      StoredAfterChange(past, after, version, approves, d);
    }
  }

  lemma ServerStaysWellKept(before: Server, after: Server, version: Option<CSR>, approves: bool)
    requires WellKept(before) && UidsAreUnique(before) && Changes(before, after, version, approves)
    ensures WellKept(after) && UidsAreUnique(after)
  {
  }

  /** The request a submitting worker has decided on. */
  ghost function Decided(s: State, e: Event): CSR
    requires s.past != [] && Enabled(s, e) && e.Submit?
  {
    s.workers[e.worker].job.snapshot.csrs[s.workers[e.worker].job.target]
  }

  /** The new version that a step stores, if any. */
  ghost function NewVersion(s: State, e: Event): Option<CSR>
    requires s.past != [] && Enabled(s, e)
  {
    match e
    case Create(csr) => Some(csr)
    case SetConditions(name, conditions) =>
      Some(Now(s).csrs[name].(conditions := conditions, resourceVersion := Now(s).nextVersion))
    case Submit(_, approvedAt) => Some(StoredApproval(s, Decided(s, e), approvedAt))
    case _ => None
  }

  /** The point of the resource version: the object an approval replaces is the one the
      decision was made on. */
  lemma MatchingVersionIsCurrent(past: seq<Server>, csr: CSR)
    requires past != [] && VersionsAreUnique(past) && Stored(past, csr)
    requires WellKept(past[|past| - 1])
    requires var server := past[|past| - 1];
             csr.name in server.csrs && server.csrs[csr.name].resourceVersion == csr.resourceVersion
    ensures HoldsAt(past[|past| - 1], csr)
  {
    var current := past[|past| - 1].csrs[csr.name];
    assert HoldsAt(past[|past| - 1], current);
    CurrentIsStored(past, current);
  }

  lemma TargetIsStored(past: seq<Server>, groups: nat, job: Job)
    requires Grounded(past, groups, job)
    ensures Stored(past, job.snapshot.csrs[job.target])
  {
    var c := job.snapshot.csrs[job.target];
    assert c in job.snapshot.csrs;
    var k :| 0 <= k < job.begun + 1 && HoldsAt(past[..job.begun + 1][k], c);
    assert HoldsAt(past[k], c);
  }

  lemma SubmittedIsCurrent(s: State, e: Event)
    requires ServerInv(s.past, s.groups) && Enabled(s, e) && e.Submit?
    requires Grounded(s.past, s.groups, s.workers[e.worker].job)
    ensures HoldsAt(Now(s), Decided(s, e)) && !IsApproved(Decided(s, e))
  {
    TargetIsStored(s.past, s.groups, s.workers[e.worker].job);
    MatchingVersionIsCurrent(s.past, Decided(s, e));
  }

  lemma ApprovalContinues(csr: CSR, approvedAt: Time, version: nat)
    requires !IsApproved(csr)
    ensures Continues(csr, Approval.Approve(csr, approvedAt).(resourceVersion := version), true)
  {
    ApproveIsIdempotent(csr, approvedAt, approvedAt);
    var c := Approval.Approve(csr, approvedAt).(resourceVersion := version);
    assert c.conditions == Approval.Approve(csr, approvedAt).conditions;
  }

  lemma StepChanges(s: State, e: Event)
    requires ServerInv(s.past, s.groups) && Enabled(s, e)
    requires e.Submit? ==> Grounded(s.past, s.groups, s.workers[e.worker].job)
    ensures Changes(Now(s), NextServer(s, e), NewVersion(s, e), e.Submit?)
    ensures |NextServer(s, e).machines| == s.groups
  {
    if e.Submit? {
      SubmittedIsCurrent(s, e);
      ApprovalContinues(Decided(s, e), e.approvedAt, Now(s).nextVersion);
    }
  }

  lemma ServerInvHolds(past: seq<Server>, groups: nat, after: Server, version: Option<CSR>, approves: bool)
    requires ServerInv(past, groups) && Changes(past[|past| - 1], after, version, approves) && |after.machines| == groups
    ensures ServerInv(past + [after], groups)
  {
    VersionsStayUnique(past, after, version, approves);
    ServerStaysWellKept(past[|past| - 1], after, version, approves);
  }

  // ================================================================ the workers' part

  lemma {:induction false} MachinesAtOneMore(past: seq<Server>, at: seq<nat>, now: nat)
    requires forall g | 0 <= g < |at| :: at[g] < |past| && g < |past[at[g]].machines|
    requires now < |past| && |at| < |past[now].machines|
    ensures MachinesAt(past, at + [now]) == MachinesAt(past, at) + past[now].machines[|at|]
  {
    assert (at + [now])[..|at|] == at;
  }

  /** The job after its next read. */
  ghost function ReadOn(past: seq<Server>, groups: nat, job: Job, c: Choice): Job
    requires past != [] && Grounded(past, groups, job) && |job.at| < AllReads(groups)
  {
    var now := |past| - 1;
    job.(snapshot := AfterRead(job.snapshot, job.target, |job.at|, groups, past[now], c), at := job.at + [now])
  }

  lemma ReadKeepsList(past: seq<Server>, groups: nat, job: Job, c: Choice)
    requires past != [] && Grounded(past, groups, job) && |job.at| < AllReads(groups)
    ensures ListGrounded(past, ReadOn(past, groups, job, c))
  {
  }

  lemma ReadKeepsMachines(past: seq<Server>, groups: nat, job: Job, c: Choice)
    requires past != [] && Grounded(past, groups, job) && |job.at| < AllReads(groups)
    ensures var next := ReadOn(past, groups, job, c);
            && InOrder(next.at, |past|)
            && next.snapshot.machines == MachinesAt(past, if |next.at| <= groups then next.at else next.at[..groups])
  {
    var now, read := |past| - 1, |job.at|;
    var at' := job.at + [now];
    if read < groups {
      MachinesAtOneMore(past, job.at, now);
    } else {
      assert at'[..groups] == if read == groups then job.at else job.at[..groups];
    }
  }

  lemma ReadKeepsGrounded(past: seq<Server>, groups: nat, job: Job, c: Choice)
    requires past != [] && Grounded(past, groups, job) && |job.at| < AllReads(groups)
    requires |job.at| == LimitRead(groups) ==> !OverLimit(ReadOn(past, groups, job, c).snapshot)
    ensures Grounded(past, groups, ReadOn(past, groups, job, c))
  {
    ReadKeepsList(past, groups, job, c);
    ReadKeepsMachines(past, groups, job, c);
  }

  lemma BeginIsGrounded(past: seq<Server>, groups: nat, csrs: seq<CSR>, target: nat)
    requires past != [] && forall k | 0 <= k < |past| :: |past[k].machines| == groups
    requires forall c | c in csrs :: Stored(past, c)
    requires target < |csrs| && Target(csrs, target, csrs[target].name) && Parses(csrs[target])
    ensures Grounded(past, groups, Job(target, BlankSnapshot(csrs), |past| - 1, []))
  {
    assert past[..|past|] == past;
  }

  lemma OtherJobsGoOn(s: State, e: Event, i: nat)
    requires s.past != [] && Enabled(s, e)
    requires i < |NextWorkers(s, e)| && NextWorkers(s, e)[i].Busy?
    requires e.Begin? ==> e.worker != i
    requires e.ReadNext? ==> e.worker != i
    ensures i < |s.workers| && NextWorkers(s, e)[i] == s.workers[i]
  {
  }

  lemma BegunJobIsGrounded(s: State, e: Event)
    requires ServerInv(s.past, s.groups) && Enabled(s, e) && e.Begin?
    ensures Grounded(s.past, s.groups, NextWorkers(s, e)[e.worker].job)
  {
    BeginIsGrounded(s.past, s.groups, e.csrs, e.target);
  }

  lemma NextJobIsReadOn(s: State, e: Event, job: Job)
    requires s.past != [] && Enabled(s, e) && e.ReadNext?
    requires job == s.workers[e.worker].job && Grounded(s.past, s.groups, job)
    ensures |job.at| < AllReads(s.groups)
    ensures NextWorkers(s, e)[e.worker] == Busy(ReadOn(s.past, s.groups, job, e.choice))
    ensures |job.at| == LimitRead(s.groups) ==> !OverLimit(ReadOn(s.past, s.groups, job, e.choice).snapshot)
  {
  }

  lemma ReadJobIsGrounded(s: State, e: Event)
    requires s.past != [] && Enabled(s, e) && e.ReadNext?
    requires Grounded(s.past, s.groups, s.workers[e.worker].job)
    ensures Grounded(s.past, s.groups, NextWorkers(s, e)[e.worker].job)
  {
    var job := s.workers[e.worker].job;
    NextJobIsReadOn(s, e, job);
    ReadKeepsGrounded(s.past, s.groups, job, e.choice);
  }

  /** A job that goes on in this step was grounded before it, has just begun, or has just
      made a read. */
  lemma JobIsGrounded(s: State, e: Event, i: nat)
    requires ServerInv(s.past, s.groups) && WorkersInv(s.past, s.groups, s.workers) && Enabled(s, e)
    requires i < |NextWorkers(s, e)| && NextWorkers(s, e)[i].Busy?
    ensures Grounded(s.past, s.groups, NextWorkers(s, e)[i].job)
  {
    if e.Begin? && e.worker == i {
      BegunJobIsGrounded(s, e);
    } else if e.ReadNext? && e.worker == i {
      ReadJobIsGrounded(s, e);
    } else {
      OtherJobsGoOn(s, e, i);
    }
  }

  lemma WorkersInvHolds(s: State, e: Event)
    requires ServerInv(s.past, s.groups) && WorkersInv(s.past, s.groups, s.workers) && Enabled(s, e)
    requires |NextServer(s, e).machines| == s.groups
    ensures WorkersInv(Step(s, e).past, Step(s, e).groups, Step(s, e).workers)
  {
    var workers := NextWorkers(s, e);
    forall i | 0 <= i < |workers| && workers[i].Busy?
      ensures Grounded(s.past + [NextServer(s, e)], s.groups, workers[i].job)
    {
      JobIsGrounded(s, e, i);
      GroundedGrows(s.past, NextServer(s, e), s.groups, workers[i].job);
    }
  }

  // ================================================================ the writes' part

  lemma NewWriteIsJustified(clientDisabled: bool, groups: nat, past: seq<Server>, after: Server, job: Job, approvedAt: Time, version: nat)
    requires past != [] && Grounded(past, groups, job) && |job.at| == AllReads(groups) && |after.machines| == groups
    requires ApprovesRequest(clientDisabled, job.snapshot, job.snapshot.csrs[job.target])
    requires HoldsAt(past[|past| - 1], job.snapshot.csrs[job.target])
    requires HoldsAt(after, Approval.Approve(job.snapshot.csrs[job.target], approvedAt).(resourceVersion := version))
    ensures Justified(clientDisabled, groups, past + [after],
              Write(job, approvedAt, |past|, Approval.Approve(job.snapshot.csrs[job.target], approvedAt).(resourceVersion := version)))
  {
    GroundedGrows(past, after, groups, job);
  }

  lemma SubmittedIsJustified(s: State, e: Event)
    requires ServerInv(s.past, s.groups) && Enabled(s, e) && e.Submit?
    requires Grounded(s.past, s.groups, s.workers[e.worker].job) && |NextServer(s, e).machines| == s.groups
    ensures Justified(s.clientDisabled, s.groups, s.past + [NextServer(s, e)], NextWrites(s, e)[|s.writes|])
  {
    SubmittedIsCurrent(s, e);
    NewWriteIsJustified(s.clientDisabled, s.groups, s.past, NextServer(s, e), s.workers[e.worker].job, e.approvedAt, Now(s).nextVersion);
  }

  lemma JustifiedHolds(s: State, e: Event)
    requires Inv(s) && Enabled(s, e) && |NextServer(s, e).machines| == s.groups
    ensures AllJustified(Step(s, e).clientDisabled, Step(s, e).groups, Step(s, e).past, Step(s, e).writes)
  {
    var past', writes := s.past + [NextServer(s, e)], NextWrites(s, e);
    forall i | 0 <= i < |writes| ensures Justified(s.clientDisabled, s.groups, past', writes[i]) {
      if i < |s.writes| {
        assert writes[i] == s.writes[i];
        JustifiedGrows(s.clientDisabled, s.groups, s.past, NextServer(s, e), s.writes[i]);
      } else {
        SubmittedIsJustified(s, e);
      }
    }
  }

  /** The log grows by the new version exactly when the step approves. */
  ghost predicate Logs(writes: seq<Write>, writes': seq<Write>, version: Option<CSR>, approves: bool) {
    if approves then version.Some? && exists w: Write :: w.stored == version.value && writes' == writes + [w]
    else writes' == writes
  }

  lemma WrittenStaysWritten(writes: seq<Write>, w: Write, c: CSR)
    ensures WrittenBy(writes + [w], c) <==> WrittenBy(writes, c) || w.stored.uid == c.uid
  {
    var all := writes + [w];
    if WrittenBy(writes, c) {
      var i :| 0 <= i < |writes| && writes[i].stored.uid == c.uid;
      assert all[i].stored.uid == c.uid;
    }
    if w.stored.uid == c.uid {
      assert all[|writes|].stored.uid == c.uid;
    }
    if WrittenBy(all, c) {
      var i :| 0 <= i < |all| && all[i].stored.uid == c.uid;
      assert i < |writes| ==> writes[i].stored.uid == c.uid;
    }
  }

  /** Where this controller's approval is seen after a change, it was seen before or it is
      the one just made. */
  lemma ApprovalIsOldOrNew(before: Server, after: Server, version: Option<CSR>, approves: bool, writes: seq<Write>, n: string)
    requires Changes(before, after, version, approves) && AllApprovedAreWritten(before, writes)
    requires n in after.csrs && IsApprovedByCMA(after.csrs[n])
    ensures WrittenBy(writes, after.csrs[n]) || (approves && version == Some(after.csrs[n]))
  {
    if version.Some? && version.value.name == n && !approves {
      assert WrittenBy(writes, before.csrs[n]);
    }
  }

  /** An approval goes to a request that no earlier approval went to. */
  lemma NewApprovalIsFirst(before: Server, after: Server, version: Option<CSR>, w: Write)
    requires StaysApproved(before, w) && Changes(before, after, version, true)
    ensures version.Some? && w.stored.uid != version.value.uid
  {
  }

  lemma ApprovalsInvHolds(before: Server, after: Server, version: Option<CSR>, approves: bool, writes: seq<Write>, writes': seq<Write>)
    requires WellKept(before) && UidsAreUnique(before) && ApprovalsInv(before, writes)
    requires Changes(before, after, version, approves) && Logs(writes, writes', version, approves)
    ensures ApprovalsInv(after, writes')
  {
    ServerStaysWellKept(before, after, version, approves);
    forall i | 0 <= i < |writes| ensures StaysApproved(after, writes[i]) {
      assert StaysApproved(before, writes[i]);
    }
    if approves {
      var w: Write :| w.stored == version.value && writes' == writes + [w];
      assert StaysApproved(after, w);
      forall i | 0 <= i < |writes| ensures writes[i].stored.uid != w.stored.uid {
        NewApprovalIsFirst(before, after, version, writes[i]);
      }
    }
    forall n | n in after.csrs && IsApprovedByCMA(after.csrs[n]) ensures WrittenBy(writes', after.csrs[n]) {
      ApprovalIsOldOrNew(before, after, version, approves, writes, n);
      if approves {
        WrittenStaysWritten(writes, writes'[|writes|], after.csrs[n]);
      }
    }
  }

  // ================================================================ whole runs

  lemma StepLogs(s: State, e: Event)
    requires s.past != [] && Enabled(s, e)
    ensures Logs(s.writes, NextWrites(s, e), NewVersion(s, e), e.Submit?)
  {
    if e.Submit? {
      var w := Write(s.workers[e.worker].job, e.approvedAt, |s.past|, StoredApproval(s, Decided(s, e), e.approvedAt));
      assert NextWrites(s, e) == s.writes + [w];
    }
  }

  lemma StepKeepsServerInv(s: State, e: Event)
    requires ServerInv(s.past, s.groups) && Enabled(s, e)
    requires Changes(Now(s), NextServer(s, e), NewVersion(s, e), e.Submit?) && |NextServer(s, e).machines| == s.groups
    ensures ServerInv(Step(s, e).past, Step(s, e).groups)
  {
    ServerInvHolds(s.past, s.groups, NextServer(s, e), NewVersion(s, e), e.Submit?);
  }

  lemma StepKeepsApprovalsInv(s: State, e: Event)
    requires s.past != [] && Enabled(s, e) && WellKept(Now(s)) && UidsAreUnique(Now(s)) && ApprovalsInv(Now(s), s.writes)
    requires Changes(Now(s), NextServer(s, e), NewVersion(s, e), e.Submit?)
    ensures ApprovalsInv(Now(Step(s, e)), Step(s, e).writes)
  {
    StepLogs(s, e);
    ApprovalsInvHolds(Now(s), NextServer(s, e), NewVersion(s, e), e.Submit?, s.writes, NextWrites(s, e));
  }

  lemma InvHolds(s: State, e: Event)
    requires Inv(s) && Enabled(s, e)
    ensures Inv(Step(s, e))
  {
    StepChanges(s, e);
    StepKeepsServerInv(s, e);
    WorkersInvHolds(s, e);
    JustifiedHolds(s, e);
    StepKeepsApprovalsInv(s, e);
  }

  lemma InitialInv(s: State)
    requires Initial(s)
    ensures Inv(s)
  {
    forall c | Stored(s.past, c) ensures HoldsAt(Now(s), c) {
    }
    assert forall i | 0 <= i < |s.workers| :: s.workers[i] in s.workers;
  }

  lemma {:induction false} InvAlways(start: State, events: seq<Event>)
    requires Initial(start) && Execute(start, events).Some?
    ensures Inv(Execute(start, events).value)
  {
    if events == [] {
      InitialInv(start);
    } else {
      var last := |events| - 1;
      InvAlways(start, events[..last]);
      InvHolds(Execute(start, events[..last]).value, events[last]);
    }
  }

  /** Whole-run safety.  In every run, a request that carries this controller's approval got
      it from a write whose decision holds up: the listed requests are versions that existed
      when the list was handed over, the other values were read from the server at later
      moments, in order, all before the write; the request was then unapproved, within the limit
      and authorised; and the write replaced the very version that was judged. */
  lemma EveryApprovalIsJustified(start: State, events: seq<Event>, name: string) returns (w: Write)
    requires Initial(start) && Execute(start, events).Some?
    requires var end := Execute(start, events).value; name in Now(end).csrs && IsApprovedByCMA(Now(end).csrs[name])
    ensures var end := Execute(start, events).value;
            w in end.writes && SameRequest(w.stored, Now(end).csrs[name]) && Justified(end.clientDisabled, end.groups, end.past, w)
  {
    InvAlways(start, events);
    var end := Execute(start, events).value;
    var c := Now(end).csrs[name];
    assert WrittenBy(end.writes, c);
    var i :| 0 <= i < |end.writes| && end.writes[i].stored.uid == c.uid;
    w := end.writes[i];
    assert StaysApproved(Now(end), w);
  }

  /** With the client flow disabled, no node client request is ever approved. */
  lemma DisabledClientFlowNeverApproves(start: State, events: seq<Event>, name: string)
    requires Initial(start) && start.clientDisabled && Execute(start, events).Some?
    requires var end := Execute(start, events).value; name in Now(end).csrs && IsApprovedByCMA(Now(end).csrs[name])
    ensures var c := Now(Execute(start, events).value).csrs[name];
            Parses(c) && !NodeClientRequest(c.usages, c.request.content.value)
  {
    var w := EveryApprovalIsJustified(start, events, name);
    ConfigurationIsFixed(start, events);
  }

  lemma {:induction false} ConfigurationIsFixed(start: State, events: seq<Event>)
    requires start.past != [] && Execute(start, events).Some?
    ensures Execute(start, events).value.clientDisabled == start.clientDisabled
    ensures Execute(start, events).value.groups == start.groups
  {
    if events != [] {
      ConfigurationIsFixed(start, events[..|events| - 1]);
    }
  }

  /** At most once.  Over every run, with any number of workers and however stale their
      lists, no request object is approved twice. */
  lemma AtMostOneApproval(start: State, events: seq<Event>)
    requires Initial(start) && Execute(start, events).Some?
    ensures var writes := Execute(start, events).value.writes;
            forall i, j | 0 <= i < j < |writes| :: writes[i].stored.uid != writes[j].stored.uid
  {
    InvAlways(start, events);
  }
}
