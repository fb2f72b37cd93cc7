# Model of the node CSR approver

The cluster-machine-approver watches CertificateSigningRequests, decides which of them come
from nodes of the cluster, and approves those.  This project models the decision, the
comparisons under it, the pending-request limit, the write of the approval and the protocol
around it, and proves what they promise.  `dafny verify dfyconfig.toml` checks everything.

Main results:

- **Whole runs** (`Protocol.dfy`, `History.dfy`, `Undisturbed.dfy`, `Recount.dfy`).  The API server, its other clients and any
  number of reconcile workers interleave freely; a worker is cut at each read and at its
  write.  Every approval found on a request traces back to a decision on a list whose entries
  existed when the worker got it and on values that the server held at later moments, in
  order, before the write; the decision was within the limit and the write replaced the very
  version that was judged.  No request object is approved twice, each write is the turning
  point between the unapproved and the approved versions of its object, and an approval
  requests another reconcile only through a list older than the write.  Every write lowers
  the pending count of a complete listing by one.  Conversely a reconcile that nobody
  interleaves with approves exactly when the decision on the server's contents says so.
  `Guarantees.dfy` writes out what each write rests on, object by object and moment by moment.
- **The decision** (`Authorization.dfy`, `Decision.dfy`).  The early-returning,
  error-accumulating procedure accepts exactly what a short declarative predicate accepts,
  refuses silently for exactly the listed reasons, and reports an error otherwise; each flow
  is also characterised by the facts that decide it.  Its fallbacks relax in order, and it is
  monotone in the machine list and in the egress allowances.
- **One call** (`Reconcile.dfy`, `Limits.dfy`, `Approval.dfy`).  Which calls send an
  approval, which end with neither approval nor error, what the gauges show afterwards, how
  the count of pending requests is conserved, and that the in-place approval is idempotent.
- **Comparisons** (`SubjectNames.dfy`, `Sorting.dfy`, `IPAddress.dfy`, `AddressText.dfy`,
  `Prefixes.dfy`, `Usages.dfy`).  Sort-then-compare is multiset equality; comparing printed
  IP addresses is comparing addresses, because printing is injective up to the 4-byte and 16-byte form of IPv4; what is
  printed reads back to the address; a block is a range of numbers.
- **Gauges, retries, flags** (`Metrics.dfy`, `StatusQueue.dfy`, `GroupVersions.dfy`).

## How the source is represented

- Slices that are only read are sequences; slices that are sorted in place are arrays;
  objects that methods update (`Pointer`, `Gauges`, `StatusController`) are classes.  Maps
  used as sets are sets.
- A Go error is an `Option`; its text is not modelled.  Times are integers in nanoseconds.
  Counters are unbounded, the two gauges are reduced modulo 2^32 as the source does.
- What the outside world answers is a parameter: list and get results (which may fail), the
  clock, the certificate a TLS dial presents, certificate verification, PEM and X.509
  parsing of a request, parsing of egress addresses.  An unparsable egress IP is the empty
  slice and an unparsable egress CIDR is None; a parsed CIDR is in canonical form.
- In the protocol a worker makes all reads of the decision, also those the source skips when
  an earlier branch decides; the decision does not look at the extra values, so every run of
  the source is covered.  A listed request may be any version the server ever held up to the
  moment the list is handed over, so lists may be stale and mixed.  Jobs whose request cannot
  be parsed end with an error before anything is written and are not started.  The server
  takes an approval exactly when the resource version matches and the request carries no
  Denied condition (vendor/k8s.io/api/certificates/v1/types.go:239).  Other clients
  never remove an Approved condition (the API documents that it cannot be removed,
  vendor/k8s.io/api/certificates/v1/types.go:240-241) and do not newly use this controller's
  message; they may rewrite the text and the times of an approval.  Only the three results on
  self-triggering in `History.dfy` need more: there existing approvals keep their text, since
  a rewritten message is no longer this controller's.
- `strings.EqualFold` folds ASCII letters.  `net.IP.String` is written out in full.

## Where the code is not what one may expect

- `pendingCertFilter` dereferences a nil pointer when it is given anything but a request
  (`Approval.PendingCertFilter`); its watch only delivers requests.
- `hasExactUsages` accepts repeated usages (`Usages.RepeatedUsagePasses`); it is a
  permutation test exactly on usages without repetition
  (`Usages.PermutationIffCoveredOnce`).  Its name and its callers suggest equality.
- The serving usage check takes any third usage, although its comment says that only the
  named ones are needed: client authentication passes (`Authorization.ForeignUsagePasses`).
  No other usage is there exactly when there are two, or key encipherment is among them, or
  one is repeated (`Authorization.ThirdUsageIsFree`).
- A scrape can combine two reconcile rounds.  The alert can then fire although no round was
  gated (`Metrics.AlertCanMisfire`), and stay silent on the count of a gated round
  (`Metrics.AlertCanStaySilent`).  For counts below 2^32 alert and gate disagree exactly when
  the limit moved across the pending count between the two loads (`Metrics.AlertMeansGated`).
- Past 2^32 pending requests the gate can be shut while the alert is silent
  (`Limits.AlertCanMissGate`): with a limit below 2^32 exactly when the count is not below
  2^32 and its remainder is within the limit (`Limits.AlertAgreesWithGate`).
- Machines are matched first-come: appending a list keeps every approval, putting a list in
  front need not (`SubjectNames.MachinesInFrontCanRevoke`).  It keeps one exactly when the
  front list holds no machine that the request is about, or authorises it alone
  (`Reconcile.MachinesInFrontKeepApproval`).
- An approved request is requested again after a CA change if the list used is older than
  the write, and only then (`History.OnlyStaleListsTrigger`); for every write such a list
  exists (`History.JudgedVersionTriggers`).
- Nothing looks at a Denied condition: a denied request is decided like any other, and its
  approval is then refused by the server (`Undisturbed.UndisturbedReconcile` says exactly when
  an approval gets stored).

## Model

| member | source | states |
|---|---|---|
| `Protocol.EveryApprovalIsJustified` | pkg/controller/controller.go:118-242 | in every interleaving, a request that shows this controller's approval got it from a logged write: the listed requests existed when the list was handed over, the other values were read at later moments in order, all before the write; on them the request was unapproved, within max(machines, nodes)+100 and authorised, and the write replaced exactly the version judged |
| `Guarantees.EveryWriteInFull` | pkg/controller/controller.go:118-242 | every write of every run, written out: list, reads and write in that order; the machines of all groups concatenated, the node count and the clock read; at most 100 pending requests above the larger count; the decision to approve; what was found under the user's own node name is what the server held under it; the object replaced is the judged one, the first of its name and unapproved, and the stored one is it with this controller's condition appended |
| `Guarantees.ClientNodeWasAbsent` | pkg/controller/csr_check.go:243-260 | over any run a client certificate for node n is approved only if the server held no Node n at the moment of the lookup |
| `Protocol.DisabledClientFlowNeverApproves` | pkg/controller/csr_check.go:155-161 | with the client flow disabled no run ever approves a node client request |
| `Protocol.AtMostOneApproval` | pkg/controller/controller.go:207-242 | over any run, with stale lists and any number of workers, the logged approvals go to pairwise different request objects |
| `History.WriteIsTurningPoint` | pkg/controller/controller.go:273-318 | over any run a version of an object that was approved is approved exactly if it was stored at or after that write |
| `History.ApprovalDoesNotTriggerItself` | pkg/controller/controller.go:72-96 | the event filter drops an approved object in whatever later version at every clock, and its name is not requested from a list whose entries under it were stored at or after the write |
| `History.CurrentListDoesNotTrigger` | pkg/controller/controller.go:77-96 | in particular its name is not requested from the current listing |
| `History.OnlyStaleListsTrigger` | pkg/controller/controller.go:77-96 | from a list of any versions of the object its name is requested exactly when one of them was stored before the write |
| `History.JudgedVersionTriggers` | pkg/controller/controller.go:77-96 | for every write of every run the version it was decided on, if listed again, has its name requested at every clock |
| `Protocol.MatchingVersionIsCurrent` | pkg/controller/controller.go:311-315 | under resource-version checking the object an approval replaces is the stale listed one itself |
| `Protocol.InvHolds` | pkg/controller/controller.go:118-242 | every step of the server, its clients and the workers keeps the protocol invariant |
| `Undisturbed.UndisturbedReconcile` | pkg/controller/controller.go:118-173 | the run of one worker's begin, reads and submit, with no other step in between, is possible exactly if the listed request is the stored one, is not denied, and is approved by the decision on the server's contents; then the server changes in that object alone, one write is logged and the worker is free again |
| `Guarantees.FullSnapshotIsServer` | pkg/controller/controller.go:118-160 | what an undisturbed reconcile decides on is the server: all machine lists in order, the node count, the clock, and the Node, network and subnet under the requester's own node name |
| `Guarantees.ExistingNodeBlocksClient` | pkg/controller/csr_check.go:249-260 | while Node n exists the undisturbed reconcile of a client request for n stores nothing |
| `Undisturbed.ApprovalIsReachable` | pkg/controller/controller.go:118-173 | from a cluster of one machine and one serving request such a run stores an approval |
| `Recount.EveryWriteLowersCount` | pkg/controller/csr_check.go:499-519 | at every write of every run a complete current listing counts one pending request less, or as many at clocks that put the request out of the window |
| `Recount.UndisturbedRecount` | pkg/controller/controller.go:160-205 | after an undisturbed reconcile a complete listing counts one less than one before it at the same clock, or as many if the request is out of the window |
| `Recount.ListingCountsNames` | pkg/controller/csr_check.go:499-519 | complete listings in any order have the same pending count, that of the server's objects |
| `Authorization.AuthorizeCSR` | pkg/controller/csr_check.go:142-235 | true exactly when the declarative predicate holds, true only without error, no error and no approval exactly for the listed refusals or missing input, the disabled-flow error exactly for client requests, and the exhausted error lists the attempts made |
| `Authorization.AuthorizeNodeClientCSR` | pkg/controller/csr_check.go:237-282 | true exactly for the bootstrapper, a nonexistent node, and a first matching machine without node created within -10s and +2h; silent refusals are the listed ones |
| `Decision.ClientWindow` | pkg/controller/csr_check.go:237-282 | for the only machine of an absent node the approval is decided by the machine being free and by a creation between ten seconds before and two hours after it |
| `Decision.ClientNeedsMachine` | pkg/controller/csr_check.go:237-282 | every client approval rests on the bootstrap account, an absent node and the first machine of that name, which is free |
| `Decision.ClientErrors` | pkg/controller/csr_check.go:248-268 | the client flow reports an error exactly for a bootstrap request whose node cannot be read or has no machine |
| `Decision.BootstrapperShape` | pkg/controller/csr_check.go:459-461 | the bootstrapper is that one account with exactly its three groups |
| `Authorization.ValidateCSRContents` | pkg/controller/csr_check.go:57-125 | a node name comes back exactly for valid serving contents, and then username, common name and prefix plus node coincide; silent exactly for non-node users |
| `Decision.ServingShape` | pkg/controller/csr_check.go:57-125 | the contents demanded, in the names of groups, usages and organization |
| `Authorization.AuthorizeServingRenewal` | pkg/controller/csr_check.go:290-306 | succeeds exactly for a verified certificate of that node with the same names as multisets and the same addresses |
| `Authorization.AuthorizeServingRenewalWithEgressIPs` | pkg/controller/csr_check.go:321-360 | succeeds exactly for a verified certificate of that node with the same other names, a readable subnet with parsable blocks, and every IP listed or in a block |
| `Decision.CertificateDecision` | pkg/controller/csr_check.go:179-233 | without a machine that vouches, a serving request is approved exactly when its node presents a verified certificate with the same subject and names as often, and the same addresses, or on OpenShiftSDN addresses within it and the egress addresses |
| `Decision.MachineSuffices` | pkg/controller/csr_check.go:205-214 | valid contents that a machine vouches for are approved whatever the certificate |
| `Authorization.VerifyCertificateCommonName` | pkg/controller/csr_check.go:434-457 | no error exactly when a CA is given, verification succeeds and both common names are that of the node |
| `Authorization.GetServingCert` | pkg/controller/csr_check.go:531-567 | a certificate only with a CA, an existing node and an internal IP, and then the one presented |
| `Decision.PresentedOverTLS` | pkg/controller/csr_check.go:531-567 | the certificate in use exists exactly with a CA, a known node with an internal address and a completed dial |
| `Authorization.NodeInternalIP` | pkg/controller/csr_check.go:570-578 | the first internal IP, if there is one |
| `Authorization.FlowsAreExclusive` | pkg/controller/csr_check.go:155-173 | a node client request never has valid serving contents |
| `Authorization.ThirdUsageIsFree` | pkg/controller/csr_check.go:80-106 | valid serving contents hold only the three named usages exactly when there are two usages, or key encipherment is one, or one is repeated |
| `Authorization.ForeignUsagePasses` | pkg/controller/csr_check.go:80-106 | digital signature, server auth and client auth together pass the contents check |
| `Authorization.RequestersAreDisjoint` | pkg/controller/csr_check.go:459-461 | no request comes both from the bootstrapper and from a node user |
| `Authorization.RefusalIsNotApproval` | pkg/controller/csr_check.go:142-282 | no request is both authorised and silently refused |
| `Authorization.ApprovalBindsIdentity` | pkg/controller/csr_check.go:243-260 | on approval user, subject and looked-up node name are one identity, so the two common-name tests on the certificate agree |
| `Authorization.MoreMachinesKeepAuthorization` | pkg/controller/csr_check.go:207-282 | appending machines keeps every authorisation |
| `Authorization.JoinedMachines` | pkg/controller/csr_check.go:207-282 | two machine lists joined authorise exactly if the left one does, or if it holds no machine the request is about and the right one does, in both flows |
| `Authorization.StrictRenewalIsEgressRenewal` | pkg/controller/csr_check.go:290-360 | a strict renewal is an egress renewal exactly when the readable subnet's blocks parse |
| `Authorization.MoreEgressKeepsRenewal` | pkg/controller/csr_check.go:341-357 | adding egress IPs or parsable blocks never revokes an egress renewal |
| `Reconcile.CertificateApprover.Reconcile` | pkg/controller/controller.go:118-205 | sends an approval exactly when the snapshot allows it and then the first request of that name, upserted; after an accepted one the only error is a failed recount; ends quietly exactly for the listed reasons, and over the limit always; the gauges are stored in one round, or two after a recount, the maximum first |
| `Reconcile.CertificateApprover.ReconcileCSR` | pkg/controller/controller.go:207-242 | sends the upserted object exactly for unapproved, parsable, authorised requests; quiet exactly for approved or refused ones |
| `Reconcile.CertificateApprover.ListMachines` | pkg/controller/controller.go:133-142 | the concatenation of all group lists in order, if every list succeeds |
| `Reconcile.ListsJoin` | pkg/controller/controller.go:133-142 | the machines of a sequence of groups are those of its parts, in order |
| `Reconcile.OneList` | pkg/controller/controller.go:133-142 | the machines of one group are its list |
| `Reconcile.FurtherGroupKeepsApproval` | pkg/controller/controller.go:133-150 | reading one more API group, with machines or without, keeps an approval |
| `Reconcile.ServingRequestIsNotPassedOver` | pkg/controller/controller.go:150-172 | a present, pending serving request with valid contents below the limit is never passed over silently |
| `Reconcile.FirstOfNameDecides` | pkg/controller/controller.go:155-166 | of several listed requests of one name the first alone decides, by the limit, its approval, its PEM label and content, and the decision |
| `Reconcile.MoreMachinesKeepApproval` | pkg/controller/controller.go:133-150 | machines of further API groups never turn an approving reconcile into another |
| `Reconcile.MachinesInFrontKeepApproval` | pkg/controller/controller.go:133-150 | machines of API groups read earlier keep an approval exactly when none is one the request is about, or when they authorise it alone |
| `Reconcile.RecountPublishesOneLess` | pkg/controller/controller.go:155-205 | the recount after an approval is one less than the limit check's count, or equal out of the window |
| `Limits.RecentlyPendingNodeCSRs` | pkg/controller/csr_check.go:499-519 | the loop returns the number of positions holding a recent unapproved node request |
| `Limits.OneRequestCounts` | pkg/controller/csr_check.go:31-42 | a single request counts exactly if it is a node's, unapproved, less than an hour old and less than ten seconds ahead |
| `Limits.CountsAdd` | pkg/controller/csr_check.go:499-519 | the count of two lists together is the sum |
| `Limits.Gauges.ReconcileLimits` | pkg/controller/controller.go:176-187 | off limits exactly above the threshold; the maximum and then the pending count are stored, modulo 2^32 |
| `Limits.ApprovalLowersCount` | pkg/controller/csr_check.go:499-523 | approving an authorised pending request lowers the count by exactly one in the window and by nothing outside it |
| `Limits.GateReleases` | pkg/controller/csr_check.go:499-519 | an hour after the last creation the count is zero and the gate open |
| `Limits.YoungRequestsAreCounted` | pkg/controller/csr_check.go:499-519 | unapproved node requests of the last hour are all counted, and shut the gate exactly when they are more than 100 above both counts |
| `Limits.CountFallsWithTime` | pkg/controller/csr_check.go:499-519 | over a fixed list created by now the count never rises as time passes |
| `Limits.AlertAgreesWithGate` | manifests/0000_90_cluster-machine-approver_04_alertrules.yaml:19 | with a limit below 2^32 the alert on the gauges agrees with the gate exactly when the pending count is below 2^32 or its remainder above the limit; in general exactly when the quotients by 2^32 are equal or the remainders are ordered like them |
| `Limits.AlertCanMissGate` | pkg/controller/controller.go:178-181 | a list of 2^32 recent pending requests shuts the gate while the published gauges do not alert |
| `Limits.MaxPending` | pkg/controller/controller.go:330-332 | the threshold is 100 above the larger of the two counts |
| `Approval.Pointer.ApproveInPlace` | pkg/controller/controller.go:273-318 | the in-place loop performs the upsert, asks for an update exactly when the object changed, and fails exactly when that update is rejected |
| `Approval.UpsertAt` | pkg/controller/controller.go:285-304 | only the first Approved condition, or the end of the list, is touched; all others keep value and order |
| `Approval.ApproveIsIdempotent` | pkg/controller/controller.go:273-318 | afterwards the request is approved by this controller, with its status and reason, one approval stays one, and a second call at any time changes nothing |
| `Approval.PendingCertFilter` | pkg/controller/controller.go:72-75 | keeps exactly unapproved requests and those approved by others within (-30s, +10s); panics exactly on other objects |
| `Approval.ToCSRs` | pkg/controller/controller.go:77-96 | the names of the order-preserving filter of the list by the event filter; nothing when listing fails |
| `Approval.RequestedIffWanted` | pkg/controller/controller.go:77-96 | a name is requested exactly when some listed version under it is unapproved, or approved just now by somebody else |
| `Approval.RequestsAreInOrder` | pkg/controller/controller.go:77-96 | requests come in list order, and one object is requested exactly if it is unapproved or another's approval changed within 30 seconds back and 10 ahead |
| `Approval.OursIsNeverWanted` | pkg/controller/csr_check.go:490-497 | a request that shows this controller's approval is dropped by the event filter and not wanted at any clock |
| `Approval.ApprovalIn` | pkg/controller/csr_check.go:467-474 | an approval is found exactly when some condition is of kind Approved |
| `Approval.ApprovalIsFirst` | pkg/controller/csr_check.go:467-474 | the approval found is the first Approved condition |
| `SubjectNames.EqualStrings` | pkg/controller/csr_check.go:591-602 | true exactly for equal multisets, without touching the two slices |
| `SubjectNames.EqualURLs` | pkg/controller/csr_check.go:606-622 | true exactly for equal multisets of URL strings |
| `SubjectNames.EqualIPAddresses` | pkg/controller/csr_check.go:626-642 | true exactly when both lists hold the same addresses equally often, in any order and byte form |
| `SubjectNames.SameTextsIffSameAddresses` | pkg/controller/csr_check.go:624-642 | equal multisets of printed forms are equal multisets of addresses |
| `SubjectNames.SubsetIPAddresses` | pkg/controller/csr_check.go:647-660 | true exactly when every requested address is a listed address or in a block |
| `SubjectNames.IpInSet` | pkg/controller/csr_check.go:662-674 | true exactly when the printed form is in the set or a block contains the address |
| `SubjectNames.ContainmentIsMonotone` | pkg/controller/csr_check.go:644-674 | containment is monotone in both allowances and blind to order, repetition and byte form |
| `SubjectNames.UnparsedAddressAllowsNothing` | pkg/controller/csr_check.go:341-344 | an egress IP that does not parse lets no actual address through |
| `SubjectNames.SameAddressesAreContained` | pkg/controller/csr_check.go:644-660 | equal address lists contain each other whatever else is allowed |
| `SubjectNames.AuthorizeServingCertWithMachine` | pkg/controller/csr_check.go:362-432 | no error exactly when the first machine linked to the node owns every nonempty DNS and IP name; the error names a name it does not own, or the missing machine |
| `Decision.MachineDecision` | pkg/controller/csr_check.go:362-432 | by machines, kinds of address and texts: the first machine with that node reference carries every nonempty host name up to case and every nonempty IP as printed |
| `Text.FoldsAlike` | pkg/controller/csr_check.go:385-390 | host names that fold alike differ at most in the case of ASCII letters |
| `SubjectNames.VouchingIsMonotone` | pkg/controller/csr_check.go:372-431 | dropping, reordering or respelling names (letter case, byte form) and adding or reordering addresses keeps a success |
| `SubjectNames.JoinedVouching` | pkg/controller/csr_check.go:362-432 | two lists joined vouch exactly if the left one does, or if it links no machine to the node and the right one does |
| `SubjectNames.MachinesInFrontKeepSuccess` | pkg/machinehandler/machinehandler.go:142-150 | machines put in front keep a success exactly when none is linked to the node, or the first that is owns the names too |
| `SubjectNames.MachinesInFrontCanRevoke` | pkg/machinehandler/machinehandler.go:142-150 | a machine in front with the same node reference takes a success away |
| `Sorting.SortStrings` | pkg/controller/csr_check.go:598-599 | sorts in place, keeping the multiset |
| `Sorting.OrderedListingIsUnique` | pkg/controller/csr_check.go:598-601 | two sorted lists of one multiset are equal, so comparing sorted copies decides multiset equality |
| `IPAddress.TextIdentifiesAddress` | pkg/controller/csr_check.go:634-635 | two byte slices print alike exactly when they are one address, over all slices of any length |
| `AddressText.DottedForm` | pkg/controller/csr_check.go:411 | an IPv4 address prints as its four bytes in decimal between dots |
| `AddressText.ColonForm` | pkg/controller/csr_check.go:411 | any other 16-byte address prints so that reading back the pieces gives its groups, the first of the longest zero runs of two or more left out as "::" |
| `AddressText.DoubleColonIffAdjacentZeros` | pkg/controller/csr_check.go:411 | "::" occurs exactly when two adjacent groups are zero |
| `AddressText.DigitsReadBack` | pkg/controller/csr_check.go:411 | numbers print as shortest numerals that read back |
| `AddressText.V4Form` | pkg/controller/csr_check.go:634-635 | the 16-byte form of an IPv4 address has ten zero bytes and two of all ones in front |
| `AddressText.OddForm` | pkg/controller/csr_check.go:634-635 | the empty slice prints as nil, a slice of odd length as a question mark and its bytes in hexadecimal |
| `IPAddress.BlocksAreNested` | pkg/controller/csr_check.go:667-671 | a block shrinks as its prefix grows, from the whole family to exactly one address |
| `Prefixes.BlockContents` | pkg/controller/csr_check.go:667-671 | at every prefix length a block contains exactly the addresses of its family whose number agrees with the network's after division by two to the free bits |
| `Usages.HasExactUsages` | pkg/controller/node_client.go:13-30 | true exactly for equal length and every usage expected |
| `Usages.PermutationIffCoveredOnce` | pkg/controller/node_client.go:13-30 | against a duplicate-free list, being a permutation is passing the check without repetition |
| `Usages.RepeatedUsagePasses` | pkg/controller/node_client.go:13-41 | one usage twice passes for two expected ones |
| `Usages.IsNodeClientCert` | pkg/controller/node_client.go:43-57 | true exactly for the nodes organization alone, no names, client usages and a node common name |
| `Decision.ClientShape` | pkg/controller/node_client.go:32-57 | the shape of a node client request, in the names of organization, usages and prefix |
| `Usages.ClientNeverServes` | pkg/controller/node_client.go:32-41 | a node client request never asks for server authentication |
| `Machines.FindMatchingMachineFromInternalDNS` | pkg/machinehandler/machinehandler.go:130-139 | the first machine with that internal DNS name, or none exactly if no machine has it |
| `Machines.FindMatchingMachineFromNodeRef` | pkg/machinehandler/machinehandler.go:142-150 | the first machine linked to that node, or none exactly if no machine is |
| `Machines.FirstSurvivesAppend` | pkg/machinehandler/machinehandler.go:130-150 | a first match stays the first when machines are appended |
| `Machines.FirstOfJoined` | pkg/machinehandler/machinehandler.go:130-150 | the first match in two lists joined is that of the left one, or with no match there that of the right one |
| `Metrics.EveryScrapeIsFresh` | pkg/metrics/metrics.go:41-45 | in every interleaving a scrape pairs the pending count of a round with the maximum of that or a later round |
| `Metrics.RoundIsTwoEvents` | pkg/controller/controller.go:176-181 | the two stores of a limit check are the two events of the worker: the maximum is published while the old pending count stands, then the new count |
| `Metrics.AlertMeansGated` | pkg/metrics/metrics.go:41-45 | for every scrape with counts below 2^32, alert and gate of the pending round agree exactly unless the limit of the second load moved across the count; a false alarm is exactly a limit that shrank below the count, a miss one that grew to it |
| `Metrics.AlertCanMisfire` | pkg/controller/controller.go:176-180 | a run in which the limit shrinks between two loads and a scrape alerts though no round was gated |
| `Metrics.AlertCanStaySilent` | pkg/controller/controller.go:176-180 | a run in which the limit grows between two loads and a scrape is silent on the count of a gated round |
| `StatusQueue.StatusController.HandleErr` | status.go:152-175 | forgets on success, retries below 30 failures, forgets and drops at 30 |
| `StatusQueue.StatusController.ProcessNextItem` | status.go:135-150 | one round takes the key, handles the outcome and keeps an add that came meanwhile |
| `StatusQueue.CounterIsExact` | status.go:152-175 | over every run the counter is the failures in a row modulo 31, within 0..30, and the key rests only after a success or 31 failures |
| `StatusQueue.TriggerIsNotLost` | status.go:135-150 | after a trigger, whatever happens, the key does not rest before it is taken up once more |
| `StatusQueue.QueueDrains` | status.go:161-175 | without triggers the key is taken up a bounded number of times, at most 31 from a clear counter, and the run ends at rest |
| `StatusQueue.ThirtyOneRoundsThenDropped` | status.go:161-175 | one trigger and only failures make exactly 31 rounds and then the key is dropped |
| `GroupVersions.ParseInvertsPrint` | main.go:277-291 | a text parses to a group version exactly when it is one of its two spellings |
| `GroupVersions.ParseFailsOnTwoSlashes` | main.go:282-290 | parsing fails exactly on two or more slashes |
| `GroupVersions.ReadFlags` | main.go:93-126 | the flags are accepted exactly when they do not clash and every group parses and is supported; the list is the default, the deprecated group, or the parsed values in order |
| `GroupVersions.TwoGroupsAreAccepted` | main.go:261-275 | exactly the two groups are accepted, bare or with a version after one slash |

## Left out

- X.509 and PEM parsing, chain verification and the TLS dial: their results are parameters.
- Kubernetes clients, informers, discovery, leader election and manager wiring: only read results and the resource-version rule of writes are kept.
- `ListMachines` decoding and API discovery: a machine list arrives decoded, or the call failed.
- `LoadConfig`: only the flag that disables the client flow.
- `statusAvailable` and `syncStatus`: only whether they fail.
- `caConfigMapFilter`, `csrSANs`, `certSANs`, log lines and error texts.
- Unicode case folding beyond ASCII in host names.
- Shutdown of the status queue, and the length of its delays.
