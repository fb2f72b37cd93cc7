/** The decision on one request, taken apart: each flow by the facts that decide it, written out
    down to names, kinds and nanoseconds. */
module Decision {
  import opened Types
  import opened Text
  import opened IPAddress
  import opened Usages
  import opened Machines
  import opened SubjectNames
  import opened Authorization

  // ================================================================ the client flow

  /** What makes a node client request: the nodes organization alone, no names at all, a node's
      common name, and for usages client authentication and digital signature, or these and
      key encipherment. */
  lemma ClientShape(usages: seq<string>, csr: CertificateRequest)
    ensures NodeClientRequest(usages, csr) <==>
            && csr.organization == ["system:nodes"] && "system:node:" <= csr.commonName
            && |csr.dnsNames| + |csr.emails| + |csr.ips| == 0
            && ((|usages| == 2 && forall u | u in usages :: u == "digital signature" || u == "client auth") ||
                (|usages| == 3 && forall u | u in usages :: u == "digital signature" || u == "client auth" || u == "key encipherment"))
  {
    forall u
      ensures u in CLIENT_USAGES <==> u == DIGITAL_SIGNATURE || u == CLIENT_AUTH
      ensures u in CLIENT_USAGES_LEGACY <==> u == DIGITAL_SIGNATURE || u == CLIENT_AUTH || u == KEY_ENCIPHERMENT
    {
      assert CLIENT_USAGES[0] == DIGITAL_SIGNATURE && CLIENT_USAGES[1] == CLIENT_AUTH;
      assert CLIENT_USAGES_LEGACY[0] == KEY_ENCIPHERMENT && CLIENT_USAGES_LEGACY[1] == DIGITAL_SIGNATURE;
      assert CLIENT_USAGES_LEGACY[2] == CLIENT_AUTH;
    }
  }

  /** The bootstrap account, with its three groups and no others. */
  lemma BootstrapperShape(req: CSR)
    ensures FromBootstrapper(req) <==>
            && req.username == "system:serviceaccount:" + "openshift-machine-config-operator:node-bootstrapper"
            && "system:serviceaccounts:openshift-machine-config-operator" in req.groups
            && "system:serviceaccounts" in req.groups && "system:authenticated" in req.groups
            && forall g | g in req.groups ::
                 || g == "system:serviceaccounts:openshift-machine-config-operator"
                 || g == "system:serviceaccounts" || g == "system:authenticated"
  {
    var groups := set g | g in req.groups;
    var a, b, c := "system:serviceaccounts:openshift-machine-config-operator", "system:serviceaccounts", "system:authenticated";
    assert BOOTSTRAPPER_GROUPS == {a, b, c};
    if a in req.groups && b in req.groups && c in req.groups && forall g | g in req.groups :: g == a || g == b || g == c {
      assert groups == {a, b, c};
    }
    if groups == {a, b, c} {
      assert a in groups && b in groups && c in groups;
      assert forall g | g in req.groups :: g in groups;
    }
  }

  /** For the only machine of node `n` and a node that is not there yet: the approval depends
      on the machine being free and on the two creation times, at most ten seconds early and
      two hours late (in nanoseconds). */
  lemma ClientWindow(clientDisabled: bool, m: Machine, req: CSR, csr: CertificateRequest, ca: bool, view: View, n: string)
    requires NodeClientRequest(req.usages, csr) && csr.commonName == "system:node:" + n && n != ""
    requires FromBootstrapper(req) && view.node.NotFound? && Address(InternalDNS, n) in m.addresses
    ensures Authorized(clientDisabled, [m], req, csr, ca, view) <==>
            !clientDisabled && m.nodeRef.None? && -10_000_000_000 < req.created - m.created < 7_200_000_000_000
  {
    ClientNodeIs(csr, n);
    assert FirstByDNS([m], 0, n);
  }

  /** Nothing but the node's own machine helps: without a machine of that name, or with a Node
      object that exists or cannot be read, no client request is approved. */
  lemma ClientNeedsMachine(clientDisabled: bool, machines: seq<Machine>, req: CSR, csr: CertificateRequest, ca: bool,
                           view: View, n: string) returns (k: nat)
    requires NodeClientRequest(req.usages, csr) && csr.commonName == "system:node:" + n
    requires Authorized(clientDisabled, machines, req, csr, ca, view)
    ensures !clientDisabled && n != "" && FromBootstrapper(req) && view.node == NotFound
    ensures k < |machines| && Address(InternalDNS, n) in machines[k].addresses && machines[k].nodeRef == None
    ensures forall j | 0 <= j < k :: Address(InternalDNS, n) !in machines[j].addresses
  {
    ClientNodeIs(csr, n);
    k :| FirstByDNS(machines, k, n) && machines[k].nodeRef.None? && CreatedWith(req, machines[k]);
  }

  lemma ClientNodeIs(csr: CertificateRequest, n: string)
    requires csr.commonName == "system:node:" + n
    ensures ClientNode(csr) == n
  {
    assert HasPrefix(csr.commonName, NODE_USER_PREFIX);
    assert csr.commonName == NODE_USER_PREFIX + n == NODE_USER_PREFIX + ClientNode(csr);
    SameRest(NODE_USER_PREFIX, n, ClientNode(csr));
  }

  lemma SameRest(prefix: string, a: string, b: string)
    requires prefix + a == prefix + b
    ensures a == b
  {
    assert a == (prefix + a)[|prefix|..] == b;
  }

  /** The client flow reports an error, rather than pass the request over, exactly when a
      proper bootstrap request meets an unreadable node, or a free name without a machine. */
  lemma ClientErrors(machines: seq<Machine>, req: CSR, csr: CertificateRequest, ca: bool, view: View, n: string)
    requires NodeClientRequest(req.usages, csr) && csr.commonName == "system:node:" + n
    ensures !Authorized(false, machines, req, csr, ca, view) && !Refused(false, machines, req, csr, view) <==>
            && FromBootstrapper(req) && n != ""
            && (view.node.Failed? ||
                (view.node.NotFound? && forall m | m in machines :: Address(InternalDNS, n) !in m.addresses))
  {
    ClientNodeIs(csr, n);
    if FromBootstrapper(req) && n != "" && !view.node.Failed? {
      if view.node.Found? {
        assert RefusedFor(NodeExists, false, machines, req, csr, view);
      } else if exists m | m in machines :: HasInternalDNS(m, n) {
        var k := FirstWithDNS(machines, n);
        if machines[k].nodeRef.Some? {
          assert RefusedFor(MachineHasNode, false, machines, req, csr, view);
        } else if !CreatedWith(req, machines[k]) {
          assert RefusedFor(CreatedOutsideWindow, false, machines, req, csr, view);
        }
      }
    } else if !FromBootstrapper(req) {
      assert RefusedFor(NotBootstrapper, false, machines, req, csr, view);
    } else if n == "" {
      assert RefusedFor(NoNodeName, false, machines, req, csr, view);
    }
  }

  lemma {:induction false} FirstWithDNS(machines: seq<Machine>, n: string) returns (k: nat)
    requires exists m | m in machines :: HasInternalDNS(m, n)
    ensures FirstByDNS(machines, k, n)
  {
    k := 0;
    while !HasInternalDNS(machines[k], n)
      invariant k < |machines| && forall j | 0 <= j < k :: !HasInternalDNS(machines[j], n)
      decreases |machines| - k
    {
      k := k + 1;
    }
  }

  // ================================================================ the serving flow

  /** What makes the contents of a serving request, for the node `n` that sends it. */
  lemma ServingShape(req: CSR, csr: CertificateRequest)
    ensures ServingContents(req, csr) <==>
            && "system:node:" < req.username && csr.commonName == req.username
            && "system:nodes" in req.groups && "system:authenticated" in req.groups && "system:nodes" in csr.organization
            && "digital signature" in req.usages && "server auth" in req.usages && 2 <= |req.usages| <= 3
  {
    if "system:node:" <= req.username {
      assert NODE_USER_PREFIX + ServingNode(req) == req.username;
    }
  }

  lemma ServingNodeIs(req: CSR, n: string)
    requires req.username == "system:node:" + n
    ensures ServingNode(req) == n
  {
    assert HasPrefix(req.username, NODE_USER_PREFIX);
    assert req.username == NODE_USER_PREFIX + n == NODE_USER_PREFIX + ServingNode(req);
    SameRest(NODE_USER_PREFIX, n, ServingNode(req));
  }

  ghost predicate IsHostAddress(a: Address) {
    a.kind == Hostname || a.kind == InternalDNS || a.kind == ExternalDNS
  }

  ghost predicate IsIPAddress(a: Address) {
    a.kind == InternalIP || a.kind == ExternalIP
  }

  /** A machine vouches for a node exactly when it is the first that refers to it and every
      nonempty name is, up to case, one of its host names, every nonempty IP printed like one
      of its IP addresses. */
  lemma MachineDecision(machines: seq<Machine>, n: string, csr: CertificateRequest)
    ensures MachineVouches(machines, n, csr) <==>
            exists k :: && 0 <= k < |machines| && machines[k].nodeRef == Some(n)
                        && (forall j | 0 <= j < k :: machines[j].nodeRef != Some(n))
                        && (forall s | s in csr.dnsNames && s != "" ::
                              exists a | a in machines[k].addresses :: IsHostAddress(a) && EqualFold(s, a.text))
                        && (forall ip | ip in csr.ips && ip != [] ::
                              exists a | a in machines[k].addresses :: IsIPAddress(a) && IPAddress.Text(ip) == a.text)
  {
    if k :| FirstByNodeRef(machines, k, n) && OwnsNames(machines[k].addresses, csr) {
      OwnedNames(machines[k].addresses, csr);
    }
    if k :| && 0 <= k < |machines| && machines[k].nodeRef == Some(n)
            && (forall j | 0 <= j < k :: machines[j].nodeRef != Some(n))
            && (forall s | s in csr.dnsNames && s != "" ::
                  exists a | a in machines[k].addresses :: IsHostAddress(a) && EqualFold(s, a.text))
            && (forall ip | ip in csr.ips && ip != [] ::
                  exists a | a in machines[k].addresses :: IsIPAddress(a) && IPAddress.Text(ip) == a.text)
    {
      OwnedNames(machines[k].addresses, csr);
      assert FirstByNodeRef(machines, k, n);
    }
  }

  lemma OwnedNames(addresses: seq<Address>, csr: CertificateRequest)
    ensures OwnsNames(addresses, csr) <==>
            && (forall s | s in csr.dnsNames && s != "" :: exists a | a in addresses :: IsHostAddress(a) && EqualFold(s, a.text))
            && (forall ip | ip in csr.ips && ip != [] :: exists a | a in addresses :: IsIPAddress(a) && IPAddress.Text(ip) == a.text)
  {
    forall s ensures OwnsHost(addresses, s) <==> exists a | a in addresses :: IsHostAddress(a) && EqualFold(s, a.text) {
      if a :| a in addresses && IsHostAddress(a) && EqualFold(s, a.text) {
        assert NamesHost(a, s);
      }
    }
    forall ip ensures OwnsIP(addresses, ip) <==> exists a | a in addresses :: IsIPAddress(a) && IPAddress.Text(ip) == a.text {
      if a :| a in addresses && IsIPAddress(a) && IPAddress.Text(ip) == a.text {
        assert NamesIP(a, ip);
      }
    }
  }

  /** The request repeats the subject and all names but the addresses. */
  ghost predicate RepeatsNames(csr: CertificateRequest, cert: Certificate) {
    && cert.commonName == csr.commonName
    && (forall s :: multiset(cert.dnsNames)[s] == multiset(csr.dnsNames)[s])
    && (forall s :: multiset(cert.emails)[s] == multiset(csr.emails)[s])
    && (forall s :: multiset(cert.uris)[s] == multiset(csr.uris)[s])
  }

  /** Every requested address is one of the certificate or of the node's egress addresses, in
      either byte form, or lies in one of its egress blocks. */
  ghost predicate StaysWithin(csr: CertificateRequest, cert: Certificate, subnet: HostSubnet) {
    && None !in subnet.egressCIDRs
    && forall ip | ip in csr.ips ::
         || (exists x | x in cert.ips :: Canonical(x) == Canonical(ip))
         || (exists x | x in subnet.egressIPs :: Canonical(x) == Canonical(ip))
         || (exists block :: Some(block) in subnet.egressCIDRs && Contains(block, ip))
  }

  lemma SameCounts(a: seq<string>, b: seq<string>)
    ensures multiset(a) == multiset(b) <==> forall s :: multiset(a)[s] == multiset(b)[s]
  {
  }

  lemma RepeatsNamesIsSame(csr: CertificateRequest, cert: Certificate)
    ensures RepeatsNames(csr, cert) <==> cert.commonName == csr.commonName && SameNonIPNames(csr, cert)
  {
    SameCounts(cert.dnsNames, csr.dnsNames);
    SameCounts(cert.emails, csr.emails);
    SameCounts(cert.uris, csr.uris);
  }

  lemma StaysWithinIsAllowed(csr: CertificateRequest, cert: Certificate, subnet: HostSubnet)
    ensures StaysWithin(csr, cert, subnet) <==>
            AllParsed(subnet.egressCIDRs) && AllAllowed(Blocks(subnet.egressCIDRs), cert.ips + subnet.egressIPs, csr.ips)
  {
    var cidrs := subnet.egressCIDRs;
    assert AllParsed(cidrs) <==> None !in cidrs;
    if AllParsed(cidrs) {
      var listed, blocks := cert.ips + subnet.egressIPs, Blocks(cidrs);
      assert forall x :: x in listed <==> x in cert.ips || x in subnet.egressIPs;
      forall block ensures block in blocks <==> Some(block) in cidrs {
        if block in blocks {
          var i :| 0 <= i < |blocks| && blocks[i] == block;
          assert cidrs[i] == Some(block);
        }
        if Some(block) in cidrs {
          var i :| 0 <= i < |cidrs| && cidrs[i] == Some(block);
          assert blocks[i] == block;
        }
      }
      forall ip | ip in csr.ips
        ensures Allowed(blocks, listed, ip) <==>
                || (exists x | x in cert.ips :: Canonical(x) == Canonical(ip))
                || (exists x | x in subnet.egressIPs :: Canonical(x) == Canonical(ip))
                || (exists block :: Some(block) in cidrs && Contains(block, ip))
      {
        AllowedOnce(blocks, listed, cert.ips, subnet.egressIPs, cidrs, ip);
      }
    }
  }

  lemma AllowedOnce(blocks: seq<CIDR>, listed: seq<IP>, a: seq<IP>, b: seq<IP>, cidrs: seq<Option<CIDR>>, ip: IP)
    requires forall x :: x in listed <==> x in a || x in b
    requires forall block :: block in blocks <==> Some(block) in cidrs
    ensures Allowed(blocks, listed, ip) <==>
            || (exists x | x in a :: Canonical(x) == Canonical(ip))
            || (exists x | x in b :: Canonical(x) == Canonical(ip))
            || (exists block :: Some(block) in cidrs && Contains(block, ip))
  {
    if x :| x in listed && SameAddress(x, ip) {
      assert x in a || x in b;
    }
    if x :| x in a && Canonical(x) == Canonical(ip) {
      assert x in listed && SameAddress(x, ip);
    }
    if x :| x in b && Canonical(x) == Canonical(ip) {
      assert x in listed && SameAddress(x, ip);
    }
  }

  /** The certificate in use was fetched over TLS: there is a CA, the node is known and has an
      internal address to dial. */
  lemma PresentedOverTLS(ca: bool, view: View, cert: Certificate)
    ensures PresentedCert(ca, view) == Some(cert) <==>
            && ca && view.dialed == Some(cert) && view.node.Found?
            && exists a | a in view.node.value.addresses :: a.kind == InternalIP
  {
  }

  /** Without a machine that vouches, a serving request is approved exactly on the strength of
      the certificate that its node presents: it is verified, names the same subject, host
      names, mail addresses and URIs, and the same IP addresses, each as often; or, on
      OpenShiftSDN, IP addresses within it and the node's egress addresses. */
  lemma CertificateDecision(clientDisabled: bool, machines: seq<Machine>, req: CSR, csr: CertificateRequest, ca: bool, view: View)
    requires ServingContents(req, csr) && !MachineVouches(machines, ServingNode(req), csr)
    ensures Authorized(clientDisabled, machines, req, csr, ca, view) <==>
            && PresentedCert(ca, view).Some?
            && var cert := PresentedCert(ca, view).value;
            && RepeatsNames(csr, cert)
            && ((view.verifiedForRenewal && multiset(Mapped(Canonical, cert.ips)) == multiset(Mapped(Canonical, csr.ips))) ||
                (view.verifiedForEgress && view.network == Found("OpenShiftSDN") && view.hostSubnet.Found?
                 && StaysWithin(csr, cert, view.hostSubnet.value)))
  {
    FlowsAreExclusive(req, csr);
    assert csr.commonName == NODE_USER_PREFIX + ServingNode(req);
    if PresentedCert(ca, view).Some? {
      RepeatsNamesIsSame(csr, PresentedCert(ca, view).value);
      if view.hostSubnet.Found? {
        StaysWithinIsAllowed(csr, PresentedCert(ca, view).value, view.hostSubnet.value);
      }
    }
  }

  /** And a machine that vouches is enough, whatever the certificate. */
  lemma MachineSuffices(clientDisabled: bool, machines: seq<Machine>, req: CSR, csr: CertificateRequest, ca: bool, view: View)
    requires ServingContents(req, csr) && MachineVouches(machines, ServingNode(req), csr)
    ensures Authorized(clientDisabled, machines, req, csr, ca, view)
  {
    FlowsAreExclusive(req, csr);
  }
}
