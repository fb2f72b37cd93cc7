/** The decision procedure (pkg/controller/csr_check.go): may this request be approved?

    The first half says in declarative terms what is authorised, what is refused without
    an error and what is reported as an error.  The second half is the early-returning,
    error-accumulating code, proved to decide exactly that. */
module Authorization {
  import opened Types
  import opened Text
  import opened IPAddress
  import opened Usages
  import opened Machines
  import opened SubjectNames

  const BOOTSTRAPPER := "system:serviceaccount:" + "openshift-machine-config-operator:node-bootstrapper"
  const BOOTSTRAPPER_GROUPS: set<string> := {
    "system:serviceaccounts:openshift-machine-config-operator",
    "system:serviceaccounts",
    "system:authenticated"}

  const MAX_MACHINE_CLOCK_SKEW: Time := 10 * SECOND
  const MAX_MACHINE_DELTA: Time := 2 * HOUR
  const OPENSHIFT_SDN := "OpenShiftSDN"

  /** What the decision reads from the cluster while it runs.  `node` is the Node object
      named by the request; `dialed` is the certificate that a TLS connection to its kubelet
      presents, when the handshake succeeds against the CA; the two flags are the outcomes
      of verifying that certificate, which is done afresh for either kind of renewal. */
  datatype View = View(
    node: Read<Node>,
    dialed: Option<Certificate>,
    verifiedForRenewal: bool,
    network: Read<string>,
    verifiedForEgress: bool,
    hostSubnet: Read<HostSubnet>)

  // ================================================================ specification

  predicate FromBootstrapper(req: CSR) {
    req.username == BOOTSTRAPPER && (set g | g in req.groups) == BOOTSTRAPPER_GROUPS
  }

  predicate FromNodeUser(req: CSR) {
    NODE_USER_PREFIX <= req.username
  }

  /** The name of the node a client certificate is requested for. */
  function ClientNode(csr: CertificateRequest): string {
    TrimPrefix(csr.commonName, NODE_USER_PREFIX)
  }

  /** The name of the node that asks for a serving certificate. */
  function ServingNode(req: CSR): string {
    TrimPrefix(req.username, NODE_USER_PREFIX)
  }

  ghost predicate CreatedWith(req: CSR, m: Machine) {
    m.created - MAX_MACHINE_CLOCK_SKEW < req.created < m.created + MAX_MACHINE_DELTA
  }

  /** A node that does not exist yet, of a machine that has no node yet and was created
      about when the request was. */
  ghost predicate ClientAuthorized(machines: seq<Machine>, req: CSR, csr: CertificateRequest, view: View) {
    && FromBootstrapper(req)
    && ClientNode(csr) != ""
    && view.node.NotFound?
    && exists i :: FirstByDNS(machines, i, ClientNode(csr)) && machines[i].nodeRef.None? && CreatedWith(req, machines[i])
  }

  /** The contents that every node serving request must have. */
  ghost predicate ServingContents(req: CSR, csr: CertificateRequest) {
    && FromNodeUser(req) && ServingNode(req) != ""
    && NODE_GROUP in req.groups && AUTHENTICATED in req.groups
    && (|req.usages| == 2 || |req.usages| == 3)
    && DIGITAL_SIGNATURE in req.usages && SERVER_AUTH in req.usages
    && csr.commonName == req.username
    && NODE_GROUP in csr.organization
  }

  ghost predicate SameNode(node: string, csr: CertificateRequest, cert: Certificate, ca: bool, verified: bool) {
    ca && verified && cert.commonName == csr.commonName == NODE_USER_PREFIX + node
  }

  ghost predicate SameNonIPNames(csr: CertificateRequest, cert: Certificate) {
    && multiset(cert.dnsNames) == multiset(csr.dnsNames)
    && multiset(cert.emails) == multiset(csr.emails)
    && multiset(cert.uris) == multiset(csr.uris)
  }

  /** The request repeats the names of the node's current certificate. */
  ghost predicate Renewal(node: string, csr: CertificateRequest, cert: Certificate, ca: bool, verified: bool) {
    SameNode(node, csr, cert, ca, verified) && SameNonIPNames(csr, cert) && SameAddresses(cert.ips, csr.ips)
  }

  ghost predicate AllParsed(cidrs: seq<Option<CIDR>>) {
    forall i | 0 <= i < |cidrs| :: cidrs[i].Some?
  }

  function Blocks(cidrs: seq<Option<CIDR>>): (r: seq<CIDR>)
    requires AllParsed(cidrs)
    ensures |r| == |cidrs| && forall i | 0 <= i < |r| :: r[i] == cidrs[i].value
  {
    seq(|cidrs|, i requires 0 <= i < |cidrs| => cidrs[i].value)
  }

  /** As a renewal, but further IP addresses may come from the node's egress addresses. */
  ghost predicate EgressRenewal(node: string, csr: CertificateRequest, cert: Certificate, ca: bool, verified: bool,
                                subnet: Read<HostSubnet>) {
    && SameNode(node, csr, cert, ca, verified) && SameNonIPNames(csr, cert)
    && subnet.Found? && AllParsed(subnet.value.egressCIDRs)
    && AllAllowed(Blocks(subnet.value.egressCIDRs), cert.ips + subnet.value.egressIPs, csr.ips)
  }

  predicate HasInternalIP(node: Node) {
    exists a | a in node.addresses :: a.kind == InternalIP
  }

  /** The certificate the node presents now, if it can be had. */
  ghost function PresentedCert(ca: bool, view: View): Option<Certificate> {
    if ca && view.node.Found? && HasInternalIP(view.node.value) then view.dialed else None
  }

  /** One of three ways to vouch for the names in a serving request. */
  ghost predicate ServingAuthorized(machines: seq<Machine>, req: CSR, csr: CertificateRequest, ca: bool, view: View) {
    var node := ServingNode(req);
    var cert := PresentedCert(ca, view);
    || (cert.Some? && Renewal(node, csr, cert.value, ca, view.verifiedForRenewal))
    || MachineVouches(machines, node, csr)
    || (cert.Some? && view.network == Found(OPENSHIFT_SDN) &&
        EgressRenewal(node, csr, cert.value, ca, view.verifiedForEgress, view.hostSubnet))
  }

  /** What may be approved. */
  ghost predicate Authorized(clientDisabled: bool, machines: seq<Machine>, req: CSR, csr: CertificateRequest,
                             ca: bool, view: View) {
    if NodeClientRequest(req.usages, csr) then
      !clientDisabled && ClientAuthorized(machines, req, csr, view)
    else
      ServingContents(req, csr) && ServingAuthorized(machines, req, csr, ca, view)
  }

  /** The reasons for which a request is passed over with no error, so that nothing
      retries it. */
  datatype Refusal = NotBootstrapper | NoNodeName | NodeExists | MachineHasNode | CreatedOutsideWindow | ForeignContents

  /** The reasons of the client flow. */
  ghost predicate ClientRefusedFor(why: Refusal, machines: seq<Machine>, req: CSR, csr: CertificateRequest, view: View) {
    match why
    case NotBootstrapper => !FromBootstrapper(req)
    case NoNodeName => ClientNode(csr) == ""
    case NodeExists => view.node.Found?
    case MachineHasNode =>
      view.node.NotFound? && exists i :: FirstByDNS(machines, i, ClientNode(csr)) && machines[i].nodeRef.Some?
    case CreatedOutsideWindow =>
      view.node.NotFound? && exists i :: FirstByDNS(machines, i, ClientNode(csr)) && !CreatedWith(req, machines[i])
    case ForeignContents => false
  }

  ghost predicate ClientRefused(machines: seq<Machine>, req: CSR, csr: CertificateRequest, view: View) {
    exists why :: ClientRefusedFor(why, machines, req, csr, view)
  }

  ghost predicate RefusedFor(why: Refusal, clientDisabled: bool, machines: seq<Machine>, req: CSR,
                             csr: CertificateRequest, view: View) {
    if NodeClientRequest(req.usages, csr) then
      !clientDisabled && ClientRefusedFor(why, machines, req, csr, view)
    else
      why == ForeignContents && !ServingContents(req, csr)
  }

  ghost predicate Refused(clientDisabled: bool, machines: seq<Machine>, req: CSR, csr: CertificateRequest, view: View) {
    exists why :: RefusedFor(why, clientDisabled, machines, req, csr, view)
  }

  // ================================================================ the code

  datatype Attempt = ByRenewal | ByMachine | ByEgressRenewal

  datatype AuthError =
    | ClientFlowDisabled | NodeUnreadable | MachineMissing
    | NetworkUnreadable | Exhausted(tried: seq<Attempt>)

  datatype ContentsError = TooFewGroups | MissingGroups | TooFewUsages | MissingUsages | WrongCommonName | WrongOrganization

  method ValidateCSRContents(req: CSR, csr: CertificateRequest) returns (node: string, err: Option<ContentsError>)
    ensures node != "" && err.None? <==> ServingContents(req, csr)
    ensures node != "" ==> err.None? && req.username == csr.commonName == NODE_USER_PREFIX + node
    ensures node == "" && err.None? <==> !FromNodeUser(req) || req.username == NODE_USER_PREFIX
  {
    if !HasPrefix(req.username, NODE_USER_PREFIX) {
      return "", None;
    }
    var nodeAsking := TrimPrefix(req.username, NODE_USER_PREFIX);
    if |nodeAsking| == 0 {
      return "", None;
    }
    if |req.groups| < 2 {
      assert NODE_GROUP != AUTHENTICATED by { assert NODE_GROUP[7] != AUTHENTICATED[7]; }
      return "", Some(TooFewGroups);
    }
    var groupSet := set g | g in req.groups;
    if !(NODE_GROUP in groupSet && AUTHENTICATED in groupSet) {
      return "", Some(MissingGroups);
    }
    var usageSetLegacy := [DIGITAL_SIGNATURE, KEY_ENCIPHERMENT, SERVER_AUTH];
    var usageSet := [DIGITAL_SIGNATURE, SERVER_AUTH];
    if |req.usages| != |usageSetLegacy| && |req.usages| != |usageSet| {
      return "", Some(TooFewUsages);
    }
    var usages := set u | u in req.usages;
    assert (forall u | u in usageSet :: u in usages) <==> DIGITAL_SIGNATURE in req.usages && SERVER_AUTH in req.usages by {
      assert usageSet[0] in usageSet && usageSet[1] in usageSet;
    }
    assert (forall u | u in usageSetLegacy :: u in usages) ==> forall u | u in usageSet :: u in usages by {
      assert usageSetLegacy[0] in usageSetLegacy && usageSetLegacy[2] in usageSetLegacy;
    }
    if !(forall u | u in usageSet :: u in usages) && !(forall u | u in usageSetLegacy :: u in usages) {
      return "", Some(MissingUsages);
    }
    if csr.commonName != req.username {
      return "", Some(WrongCommonName);
    }
    var hasOrg := false;
    for i := 0 to |csr.organization|
      invariant hasOrg <==> NODE_GROUP in csr.organization[..i]
    {
      if csr.organization[i] == NODE_GROUP {
        hasOrg := true;
        break;
      }
    }
    assert csr.organization[..|csr.organization|] == csr.organization;
    if !hasOrg {
      return "", Some(WrongOrganization);
    }
    return nodeAsking, None;
  }

  datatype RenewalError =
    | NotProvided | NotVerified | BadCommonName | CommonNameMismatch
    | NamesDiffer | SubnetUnreadable | BadCIDR | UnknownAddresses

  function VerifyCertificateCommonName(node: string, csr: CertificateRequest, cert: Certificate, ca: bool, verified: bool)
    : (err: Option<RenewalError>)
    ensures err.None? <==> SameNode(node, csr, cert, ca, verified)
  {
    if !ca then Some(NotProvided)
    else if !verified then Some(NotVerified)
    else if cert.commonName != NODE_USER + ":" + node then Some(BadCommonName)
    else if cert.commonName != csr.commonName then Some(CommonNameMismatch)
    else None
  }

  method EqualNonIPNames(csr: CertificateRequest, cert: Certificate) returns (eq: bool)
    ensures eq <==> SameNonIPNames(csr, cert)
  {
    var certDNS := Slice(cert.dnsNames);
    var csrDNS := Slice(csr.dnsNames);
    eq := EqualStrings(certDNS, csrDNS);
    if eq {
      var certEmails := Slice(cert.emails);
      var csrEmails := Slice(csr.emails);
      eq := EqualStrings(certEmails, csrEmails);
    }
    if eq {
      eq := EqualURLs(cert.uris, csr.uris);
    }
  }

  method AuthorizeServingRenewal(node: string, csr: CertificateRequest, cert: Certificate, ca: bool, verified: bool)
    returns (err: Option<RenewalError>)
    ensures err.None? <==> Renewal(node, csr, cert, ca, verified)
  {
    err := VerifyCertificateCommonName(node, csr, cert, ca, verified);
    if err.Some? {
      return;
    }
    var same := EqualNonIPNames(csr, cert);
    if same {
      same := EqualIPAddresses(cert.ips, csr.ips);
    }
    if !same {
      return Some(NamesDiffer);
    }
  }

  method AuthorizeServingRenewalWithEgressIPs(node: string, csr: CertificateRequest, cert: Certificate, ca: bool,
                                              verified: bool, subnet: Read<HostSubnet>)
    returns (err: Option<RenewalError>)
    ensures err.None? <==> EgressRenewal(node, csr, cert, ca, verified, subnet)
  {
    err := VerifyCertificateCommonName(node, csr, cert, ca, verified);
    if err.Some? {
      return;
    }
    var same := EqualNonIPNames(csr, cert);
    if !same {
      return Some(NamesDiffer);
    }
    if !subnet.Found? {
      return Some(SubnetUnreadable);
    }
    var egressIPs, egressCIDRs := subnet.value.egressIPs, subnet.value.egressCIDRs;
    var allowedIPs := cert.ips;
    for i := 0 to |egressIPs|
      invariant allowedIPs == cert.ips + egressIPs[..i]
    {
      allowedIPs := allowedIPs + [egressIPs[i]];
    }
    assert egressIPs[..|egressIPs|] == egressIPs;
    var allowedCIDRs: seq<CIDR> := [];
    for i := 0 to |egressCIDRs|
      invariant AllParsed(egressCIDRs[..i])
      invariant allowedCIDRs == Blocks(egressCIDRs[..i])
    {
      if egressCIDRs[i].None? {
        return Some(BadCIDR);
      }
      allowedCIDRs := allowedCIDRs + [egressCIDRs[i].value];
    }
    assert egressCIDRs[..|egressCIDRs|] == egressCIDRs;
    var subset := SubsetIPAddresses(allowedCIDRs, allowedIPs, csr.ips);
    if !subset {
      return Some(UnknownAddresses);
    }
  }

  /** The first internal IP of the node. */
  method NodeInternalIP(node: Node) returns (host: Option<string>)
    ensures host.Some? <==> HasInternalIP(node)
    ensures host.Some? ==> exists i | 0 <= i < |node.addresses| ::
              node.addresses[i] == Address(InternalIP, host.value) && forall j | 0 <= j < i :: node.addresses[j].kind != InternalIP
  {
    for i := 0 to |node.addresses|
      invariant forall j | 0 <= j < i :: node.addresses[j].kind != InternalIP
    {
      if node.addresses[i].kind == InternalIP {
        return Some(node.addresses[i].text);
      }
    }
    return None;
  }

  method GetServingCert(ca: bool, view: View) returns (cert: Option<Certificate>)
    ensures cert == PresentedCert(ca, view)
  {
    if !ca {
      return None;
    }
    if !view.node.Found? {
      return None;
    }
    var host := NodeInternalIP(view.node.value);
    if host.None? {
      return None;
    }
    return view.dialed;
  }

  method AuthorizeNodeClientCSR(machines: seq<Machine>, req: CSR, csr: CertificateRequest, view: View)
    returns (authorized: bool, err: Option<AuthError>)
    ensures authorized <==> ClientAuthorized(machines, req, csr, view)
    ensures authorized ==> err.None?
    ensures !authorized && err.None? <==> ClientRefused(machines, req, csr, view)
    ensures err.None? || err == Some(NodeUnreadable) || err == Some(MachineMissing)
  {
    if !FromBootstrapper(req) {
      assert ClientRefusedFor(NotBootstrapper, machines, req, csr, view);
      return false, None;
    }
    var nodeName := TrimPrefix(csr.commonName, NODE_USER_PREFIX);
    if |nodeName| == 0 {
      assert ClientRefusedFor(NoNodeName, machines, req, csr, view);
      return false, None;
    }
    if view.node.Failed? {
      return false, Some(NodeUnreadable);
    } else if view.node.Found? {
      assert ClientRefusedFor(NodeExists, machines, req, csr, view);
      return false, None;
    }
    var found, index := FindMatchingMachineFromInternalDNS(machines, nodeName);
    if found.None? {
      return false, Some(MachineMissing);
    }
    forall i | FirstByDNS(machines, i, nodeName) ensures i == index {
      FirstIsUnique(machines, i, index, nodeName);
    }
    var machine := found.value;
    if machine.nodeRef.Some? {
      assert ClientRefusedFor(MachineHasNode, machines, req, csr, view);
      return false, None;
    }
    var start := machine.created - MAX_MACHINE_CLOCK_SKEW;
    var end := machine.created + MAX_MACHINE_DELTA;
    if !InTimeSpan(start, end, req.created) {
      assert ClientRefusedFor(CreatedOutsideWindow, machines, req, csr, view);
      return false, None;
    }
    return true, None;
  }

  method NeedsEgressCheck(network: Read<string>) returns (needed: bool, failed: bool)
    ensures failed <==> !network.Found?
    ensures needed <==> network == Found(OPENSHIFT_SDN)
  {
    if !network.Found? {
      return false, true;
    }
    return network.value == OPENSHIFT_SDN, false;
  }

  /** `req` or `csr` may be missing; a request is then passed over. */
  method AuthorizeCSR(clientDisabled: bool, machines: seq<Machine>, req: Option<CSR>, csr: Option<CertificateRequest>,
                      ca: bool, view: View)
    returns (authorized: bool, err: Option<AuthError>)
    ensures authorized <==> req.Some? && csr.Some? && Authorized(clientDisabled, machines, req.value, csr.value, ca, view)
    ensures authorized ==> err.None?
    ensures !authorized && err.None? <==>
            req.None? || csr.None? || Refused(clientDisabled, machines, req.value, csr.value, view)
    ensures err == Some(ClientFlowDisabled) <==>
            clientDisabled && req.Some? && csr.Some? && NodeClientRequest(req.value.usages, csr.value)
    ensures err.Some? && err.value.Exhausted? ==>
              err.value.tried == (if PresentedCert(ca, view).Some? then [ByRenewal] else [])
                + [ByMachine]
                + (if PresentedCert(ca, view).Some? && view.network == Found(OPENSHIFT_SDN) then [ByEgressRenewal] else [])
  {
    if req.None? || csr.None? {
      return false, None;
    }
    var req, csr := req.value, csr.value;
    var client := IsNodeClientCert(req, csr);
    if client {
      if clientDisabled {
        return false, Some(ClientFlowDisabled);
      }
      authorized, err := AuthorizeNodeClientCSR(machines, req, csr, view);
      assert ClientRefused(machines, req, csr, view) <==> Refused(clientDisabled, machines, req, csr, view) by {
        assert forall why :: ClientRefusedFor(why, machines, req, csr, view) <==> RefusedFor(why, clientDisabled, machines, req, csr, view);
      }
      return;
    }

    var nodeAsking, contentsError := ValidateCSRContents(req, csr);
    if nodeAsking == "" || contentsError.Some? {
      assert RefusedFor(ForeignContents, clientDisabled, machines, req, csr, view);
      return false, None;
    }
    assert nodeAsking == ServingNode(req);

    var approvalErrors: seq<Attempt> := [];
    var servingCert: Option<Certificate> := None;
    if ca {
      servingCert := GetServingCert(ca, view);
    }
    assert servingCert == PresentedCert(ca, view);
    if servingCert.Some? {
      var e := AuthorizeServingRenewal(nodeAsking, csr, servingCert.value, ca, view.verifiedForRenewal);
      if e.Some? {
        approvalErrors := approvalErrors + [ByRenewal];
      } else {
        return true, None;
      }
    }

    var machineError := AuthorizeServingCertWithMachine(machines, nodeAsking, csr);
    if machineError.Some? {
      approvalErrors := approvalErrors + [ByMachine];
    } else {
      return true, None;
    }

    var egressEnabled, unreadable := NeedsEgressCheck(view.network);
    if unreadable {
      return false, Some(NetworkUnreadable);
    }

    if servingCert.Some? && egressEnabled {
      var e := AuthorizeServingRenewalWithEgressIPs(nodeAsking, csr, servingCert.value, ca, view.verifiedForEgress, view.hostSubnet);
      if e.Some? {
        approvalErrors := approvalErrors + [ByEgressRenewal];
      } else {
        return true, None;
      }
    }
    return false, Some(Exhausted(approvalErrors));
  }

  // ================================================================ consequences

  /** Every usage is one of the three that the contents check names. */
  ghost predicate OnlyNamedUsages(usages: seq<string>) {
    forall u | u in usages :: u == DIGITAL_SIGNATURE || u == KEY_ENCIPHERMENT || u == SERVER_AUTH
  }

  /** The contents check asks for two usages and leaves a third one free.  Only named usages
      are there exactly when there is no third one, or it is the key encipherment, or it
      repeats one of the two. */
  lemma ThirdUsageIsFree(req: CSR, csr: CertificateRequest)
    requires ServingContents(req, csr)
    ensures OnlyNamedUsages(req.usages) <==>
            |req.usages| == 2 || KEY_ENCIPHERMENT in req.usages || !NoDuplicates(req.usages)
  {
    assert DIGITAL_SIGNATURE[0] == 'd' && KEY_ENCIPHERMENT[0] == 'k' && SERVER_AUTH[0] == 's';
    var i :| 0 <= i < |req.usages| && req.usages[i] == DIGITAL_SIGNATURE;
    var j :| 0 <= j < |req.usages| && req.usages[j] == SERVER_AUTH;
    if |req.usages| == 3 {
      var third := 3 - i - j;
      assert req.usages[third] in req.usages;
      forall u | u in req.usages ensures u == req.usages[i] || u == req.usages[j] || u == req.usages[third] {
        var k :| 0 <= k < 3 && req.usages[k] == u;
        assert k == i || k == j || k == third;
      }
    }
  }

  /** Such a third usage: client authentication passes the check for serving contents. */
  lemma ForeignUsagePasses() returns (req: CSR, csr: CertificateRequest)
    ensures ServingContents(req, csr)
    ensures req.usages == [DIGITAL_SIGNATURE, SERVER_AUTH, CLIENT_AUTH] && !OnlyNamedUsages(req.usages)
  {
    var user := NODE_USER_PREFIX + "a";
    req := CSR("", 0, 0, 0, user, [NODE_GROUP, AUTHENTICATED], [DIGITAL_SIGNATURE, SERVER_AUTH, CLIENT_AUTH], NoBlock, []);
    csr := CertificateRequest(user, [NODE_GROUP], [], [], [], []);
    assert TrimPrefix(user, NODE_USER_PREFIX) == "a";
    assert req.groups[0] == NODE_GROUP && req.groups[1] == AUTHENTICATED && csr.organization[0] == NODE_GROUP;
    var usages := req.usages;
    assert usages[0] == DIGITAL_SIGNATURE && usages[1] == SERVER_AUTH && usages[2] == CLIENT_AUTH;
    assert DIGITAL_SIGNATURE[0] == 'd' && KEY_ENCIPHERMENT[0] == 'k' && SERVER_AUTH[0] == 's' && CLIENT_AUTH[0] == 'c';
    assert usages[2] in usages && usages[2] == CLIENT_AUTH;
    assert CLIENT_AUTH != DIGITAL_SIGNATURE && CLIENT_AUTH != KEY_ENCIPHERMENT && CLIENT_AUTH != SERVER_AUTH;
  }

  /** The two flows cannot be confused: a node client request never has valid serving
      contents. */
  lemma FlowsAreExclusive(req: CSR, csr: CertificateRequest)
    ensures !(NodeClientRequest(req.usages, csr) && ServingContents(req, csr))
  {
    if NodeClientRequest(req.usages, csr) {
      ClientNeverServes(req.usages, csr);
    }
  }

  /** The two classes of requesters that are counted and served do not overlap. */
  lemma RequestersAreDisjoint(req: CSR)
    ensures !(FromBootstrapper(req) && FromNodeUser(req))
  {
    assert BOOTSTRAPPER[7] == "system:serviceaccount:"[7] != NODE_USER_PREFIX[7];
    if FromNodeUser(req) {
      assert req.username[7] == NODE_USER_PREFIX[7];
    }
  }

  /** On every approval the names agree.  Serving: the user, the subject and the node name
      used for every lookup are one identity, so the two common-name tests on the current
      certificate say the same.  Client: the subject is the prefix and the looked-up name. */
  lemma ApprovalBindsIdentity(clientDisabled: bool, machines: seq<Machine>, req: CSR, csr: CertificateRequest,
                              ca: bool, view: View, cert: Certificate)
    requires Authorized(clientDisabled, machines, req, csr, ca, view)
    ensures NodeClientRequest(req.usages, csr) ==>
              ClientNode(csr) != "" && csr.commonName == NODE_USER_PREFIX + ClientNode(csr) && FromBootstrapper(req)
    ensures !NodeClientRequest(req.usages, csr) ==>
              && ServingNode(req) != "" && req.username == csr.commonName == NODE_USER_PREFIX + ServingNode(req)
              && (cert.commonName == NODE_USER_PREFIX + ServingNode(req) <==> cert.commonName == csr.commonName)
  {
  }

  /** Nothing is both authorised and refused. */
  lemma RefusalIsNotApproval(clientDisabled: bool, machines: seq<Machine>, req: CSR, csr: CertificateRequest,
                             ca: bool, view: View)
    ensures !(Authorized(clientDisabled, machines, req, csr, ca, view) && Refused(clientDisabled, machines, req, csr, view))
  {
    if Authorized(clientDisabled, machines, req, csr, ca, view) && NodeClientRequest(req.usages, csr) {
      var i :| FirstByDNS(machines, i, ClientNode(csr)) && machines[i].nodeRef.None? && CreatedWith(req, machines[i]);
      forall j | FirstByDNS(machines, j, ClientNode(csr)) ensures j == i {
        FirstIsUnique(machines, i, j, ClientNode(csr));
      }
    }
  }

  /** Appending machines keeps every authorisation. */
  lemma MoreMachinesKeepAuthorization(clientDisabled: bool, machines: seq<Machine>, more: seq<Machine>, req: CSR,
                                      csr: CertificateRequest, ca: bool, view: View)
    requires Authorized(clientDisabled, machines, req, csr, ca, view)
    ensures Authorized(clientDisabled, machines + more, req, csr, ca, view)
  {
    if NodeClientRequest(req.usages, csr) {
      var i :| FirstByDNS(machines, i, ClientNode(csr)) && machines[i].nodeRef.None? && CreatedWith(req, machines[i]);
      FirstSurvivesAppend(machines, more, i, ClientNode(csr));
      assert (machines + more)[i] == machines[i];
    } else if MachineVouches(machines, ServingNode(req), csr) {
      var i :| FirstByNodeRef(machines, i, ServingNode(req)) && OwnsNames(machines[i].addresses, csr);
      FirstSurvivesAppend(machines, more, i, ServingNode(req));
      assert (machines + more)[i] == machines[i];
    }
  }

  /** No machine in the list is the one this request is about. */
  ghost predicate Strangers(machines: seq<Machine>, req: CSR, csr: CertificateRequest) {
    if NodeClientRequest(req.usages, csr) then
      forall m | m in machines :: !HasInternalDNS(m, ClientNode(csr))
    else
      forall m | m in machines :: !LinkedTo(m, ServingNode(req))
  }

  lemma JoinedClient(front: seq<Machine>, machines: seq<Machine>, req: CSR, csr: CertificateRequest, view: View)
    ensures ClientAuthorized(front + machines, req, csr, view) <==>
            ClientAuthorized(front, req, csr, view) ||
            ((forall m | m in front :: !HasInternalDNS(m, ClientNode(csr))) && ClientAuthorized(machines, req, csr, view))
  {
    var all, node := front + machines, ClientNode(csr);
    if i :| FirstByDNS(all, i, node) && all[i].nodeRef.None? && CreatedWith(req, all[i]) {
      FirstOfJoined(front, machines, i, node);
      assert all[i] == if i < |front| then front[i] else machines[i - |front|];
    }
    if i :| FirstByDNS(front, i, node) && front[i].nodeRef.None? && CreatedWith(req, front[i]) {
      FirstOfJoined(front, machines, i, node);
      assert all[i] == front[i];
    } else if i :| FirstByDNS(machines, i, node) && machines[i].nodeRef.None? && CreatedWith(req, machines[i]) {
      FirstOfJoined(front, machines, |front| + i, node);
      assert all[|front| + i] == machines[i];
    }
  }

  /** The decision on two machine lists joined: the left one decides, unless it holds no
      machine that the request is about; then the right one does. */
  lemma JoinedMachines(clientDisabled: bool, front: seq<Machine>, machines: seq<Machine>, req: CSR,
                       csr: CertificateRequest, ca: bool, view: View)
    ensures Authorized(clientDisabled, front + machines, req, csr, ca, view) <==>
            Authorized(clientDisabled, front, req, csr, ca, view) ||
            (Strangers(front, req, csr) && Authorized(clientDisabled, machines, req, csr, ca, view))
  {
    JoinedClient(front, machines, req, csr, view);
    JoinedVouching(front, machines, ServingNode(req), csr);
  }

  /** The last fallback relaxes the first: a strict renewal is an egress renewal as soon as
      the host subnet can be read and its blocks parse. */
  lemma StrictRenewalIsEgressRenewal(node: string, csr: CertificateRequest, cert: Certificate, ca: bool, verified: bool,
                                     subnet: HostSubnet)
    requires Renewal(node, csr, cert, ca, verified)
    ensures EgressRenewal(node, csr, cert, ca, verified, Found(subnet)) <==> AllParsed(subnet.egressCIDRs)
  {
    if AllParsed(subnet.egressCIDRs) {
      SameAddressesAreContained(Blocks(subnet.egressCIDRs), cert.ips, subnet.egressIPs, csr.ips);
    }
  }

  /** Adding egress IPs or parsable blocks, in any order, never revokes an egress renewal. */
  lemma MoreEgressKeepsRenewal(node: string, csr: CertificateRequest, cert: Certificate, ca: bool, verified: bool,
                               subnet: HostSubnet, larger: HostSubnet)
    requires EgressRenewal(node, csr, cert, ca, verified, Found(subnet))
    requires forall ip | ip in subnet.egressIPs :: ip in larger.egressIPs
    requires forall c | c in subnet.egressCIDRs :: c in larger.egressCIDRs
    requires AllParsed(larger.egressCIDRs)
    ensures EgressRenewal(node, csr, cert, ca, verified, Found(larger))
  {
    var blocks, blocks' := Blocks(subnet.egressCIDRs), Blocks(larger.egressCIDRs);
    forall c | c in blocks ensures c in blocks' {
      var i :| 0 <= i < |blocks| && blocks[i] == c;
      assert subnet.egressCIDRs[i] == Some(c) && Some(c) in larger.egressCIDRs;
      var j :| 0 <= j < |larger.egressCIDRs| && larger.egressCIDRs[j] == Some(c);
      assert blocks'[j] == c;
    }
    var listed, listed' := cert.ips + subnet.egressIPs, cert.ips + larger.egressIPs;
    assert forall x | x in listed :: x in listed';
    ContainmentIsMonotone(blocks, listed, csr.ips, blocks', listed', csr.ips);
  }
}
