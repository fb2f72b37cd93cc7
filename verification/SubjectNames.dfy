/** The list and set comparisons over subject alternative names (section 4.2.1.6 of
    RFC 5280) in pkg/controller/csr_check.go. */
module SubjectNames {
  import opened Types
  import opened Text
  import opened Sorting
  import opened IPAddress
  import opened Machines

  // ---------------------------------------------------------------- sort and compare

  /** Copies a list of strings into a fresh slice. */
  method Slice(s: seq<string>) returns (a: array<string>)
    ensures fresh(a) && a[..] == s
  {
    a := new string[|s|](i requires 0 <= i < |s| => s[i]);
  }

  /** Two slices sorted and compared position by position. */
  method SortAndCompare(a: array<string>, b: array<string>) returns (eq: bool)
    requires a != b
    modifies a, b
    ensures eq <==> old(multiset(a[..])) == old(multiset(b[..]))
  {
    SortStrings(a);
    SortStrings(b);
    eq := a[..] == b[..];
    if multiset(a[..]) == multiset(b[..]) {
      OrderedListingIsUnique(a[..], b[..]);
    }
  }

  /** Compares copies, so the two slices handed in keep their order. */
  method EqualStrings(a: array<string>, b: array<string>) returns (eq: bool)
    ensures eq <==> multiset(a[..]) == multiset(b[..])
  {
    var aCopy := Slice(a[..]);
    var bCopy := Slice(b[..]);
    eq := SortAndCompare(aCopy, bCopy);
  }

  /** URLs are represented by their string form. */
  method EqualURLs(a: seq<string>, b: seq<string>) returns (eq: bool)
    ensures eq <==> multiset(a) == multiset(b)
  {
    if |a| != |b| {
      assert |multiset(a)| == |a| && |multiset(b)| == |b|;
      return false;
    }
    var aStrings: seq<string>, bStrings: seq<string> := [], [];
    for i := 0 to |a|
      invariant aStrings == a[..i] && bStrings == b[..i]
    {
      aStrings := aStrings + [a[i]];
      bStrings := bStrings + [b[i]];
    }
    assert a[..|a|] == a && b[..|b|] == b;
    var aSlice := Slice(aStrings);
    var bSlice := Slice(bStrings);
    eq := SortAndCompare(aSlice, bSlice);
  }

  function Mapped<T>(f: IP -> T, ips: seq<IP>): (r: seq<T>)
    ensures |r| == |ips| && forall i | 0 <= i < |ips| :: r[i] == f(ips[i])
  {
    seq(|ips|, i requires 0 <= i < |ips| => f(ips[i]))
  }

  /** The same addresses, each as often, in any order and either byte form. */
  ghost predicate SameAddresses(a: seq<IP>, b: seq<IP>) {
    multiset(Mapped(Canonical, a)) == multiset(Mapped(Canonical, b))
  }

  function Without<T>(s: seq<T>, k: nat): (r: seq<T>)
    requires k < |s|
    ensures multiset(s) == multiset(r) + multiset{s[k]}
  {
    assert s == s[..k] + [s[k]] + s[k + 1..];
    s[..k] + s[k + 1..]
  }

  /** When `f` distinguishes at least what `g` does, agreement under `f` is agreement
      under `g`. */
  lemma {:induction false} CoarserAgreement<T, U>(f: IP -> T, g: IP -> U, a: seq<IP>, b: seq<IP>)
    requires forall x, y :: f(x) == f(y) ==> g(x) == g(y)
    requires multiset(Mapped(f, a)) == multiset(Mapped(f, b))
    ensures multiset(Mapped(g, a)) == multiset(Mapped(g, b))
    decreases |a|
  {
    assert |a| == |multiset(Mapped(f, a))| == |multiset(Mapped(f, b))| == |b|;
    if a != [] {
      var k := Partner(f, a, b);
      MappedWithout(f, a, 0);
      MappedWithout(f, b, k);
      SameRest(multiset(Mapped(f, Without(a, 0))), multiset(Mapped(f, Without(b, k))), f(a[0]));
      CoarserAgreement(f, g, Without(a, 0), Without(b, k));
      MappedWithout(g, a, 0);
      MappedWithout(g, b, k);
    }
  }

  lemma SameRest<T>(m: multiset<T>, n: multiset<T>, x: T)
    requires m + multiset{x} == n + multiset{x}
    ensures m == n
  {
    assert m == m + multiset{x} - multiset{x} == n;
  }

  lemma Partner<T>(f: IP -> T, a: seq<IP>, b: seq<IP>) returns (k: nat)
    requires a != [] && multiset(Mapped(f, a)) == multiset(Mapped(f, b))
    ensures k < |b| && f(b[k]) == f(a[0])
  {
    assert Mapped(f, a)[0] in multiset(Mapped(f, b));
    k :| 0 <= k < |b| && Mapped(f, b)[k] == f(a[0]);
  }

  lemma MappedWithout<T>(f: IP -> T, s: seq<IP>, k: nat)
    requires k < |s|
    ensures multiset(Mapped(f, s)) == multiset(Mapped(f, Without(s, k))) + multiset{f(s[k])}
  {
    assert Mapped(f, Without(s, k)) == Without(Mapped(f, s), k);
  }

  lemma SameTextsIffSameAddresses(a: seq<IP>, b: seq<IP>)
    ensures multiset(Mapped(IPAddress.Text, a)) == multiset(Mapped(IPAddress.Text, b)) <==> SameAddresses(a, b)
  {
    forall x: IP, y: IP ensures IPAddress.Text(x) == IPAddress.Text(y) <==> Canonical(x) == Canonical(y) {
      TextIdentifiesAddress(x, y);
    }
    if multiset(Mapped(IPAddress.Text, a)) == multiset(Mapped(IPAddress.Text, b)) {
      CoarserAgreement(IPAddress.Text, Canonical, a, b);
    }
    if SameAddresses(a, b) {
      CoarserAgreement(Canonical, IPAddress.Text, a, b);
    }
  }

  method PrintAll(ips: seq<IP>) returns (texts: seq<string>)
    ensures texts == Mapped(IPAddress.Text, ips)
  {
    ghost var all := Mapped(IPAddress.Text, ips);
    texts := [];
    for i := 0 to |ips|
      invariant texts == all[..i]
    {
      texts := texts + [IPAddress.Text(ips[i])];
      assert all[..i + 1] == all[..i] + [all[i]];
    }
    assert all[..|ips|] == all;
  }

  /** Compares printed forms, and thereby addresses. */
  method EqualIPAddresses(a: seq<IP>, b: seq<IP>) returns (eq: bool)
    ensures eq <==> SameAddresses(a, b)
  {
    SameTextsIffSameAddresses(a, b);
    if |a| != |b| {
      assert |multiset(Mapped(Canonical, a))| == |a| && |multiset(Mapped(Canonical, b))| == |b|;
      return false;
    }
    var aStrings := PrintAll(a);
    var bStrings := PrintAll(b);
    var aSlice := Slice(aStrings);
    var bSlice := Slice(bStrings);
    eq := SortAndCompare(aSlice, bSlice);
  }

  // ---------------------------------------------------------------- containment

  /** An address is one of the listed ones or lies in one of the blocks. */
  ghost predicate Allowed(cidrs: seq<CIDR>, listed: seq<IP>, ip: IP) {
    (exists a | a in listed :: SameAddress(a, ip)) || exists c | c in cidrs :: Contains(c, ip)
  }

  ghost predicate AllAllowed(cidrs: seq<CIDR>, listed: seq<IP>, requested: seq<IP>) {
    forall ip | ip in requested :: Allowed(cidrs, listed, ip)
  }

  method IpInSet(cidrs: seq<CIDR>, ipSet: set<string>, ip: IP) returns (found: bool)
    ensures found <==> IPAddress.Text(ip) in ipSet || exists c | c in cidrs :: Contains(c, ip)
  {
    if IPAddress.Text(ip) in ipSet {
      return true;
    }
    for i := 0 to |cidrs|
      invariant forall k | 0 <= k < i :: !Contains(cidrs[k], ip)
    {
      if Contains(cidrs[i], ip) {
        return true;
      }
    }
    return false;
  }

  method SubsetIPAddresses(cidrs: seq<CIDR>, listed: seq<IP>, requested: seq<IP>) returns (subset: bool)
    ensures subset <==> AllAllowed(cidrs, listed, requested)
  {
    var superSet: set<string> := {};
    for i := 0 to |listed|
      invariant forall t :: t in superSet <==> exists k | 0 <= k < i :: IPAddress.Text(listed[k]) == t
    {
      superSet := superSet + {IPAddress.Text(listed[i])};
    }
    for i := 0 to |requested|
      invariant forall k | 0 <= k < i :: Allowed(cidrs, listed, requested[k])
    {
      var found := IpInSet(cidrs, superSet, requested[i]);
      TextMembership(listed, requested[i]);
      assert found <==> Allowed(cidrs, listed, requested[i]);
      if !found {
        return false;
      }
    }
    return true;
  }

  lemma TextMembership(listed: seq<IP>, ip: IP)
    ensures (exists k | 0 <= k < |listed| :: IPAddress.Text(listed[k]) == IPAddress.Text(ip))
       <==> exists a | a in listed :: SameAddress(a, ip)
  {
    forall k | 0 <= k < |listed|
      ensures IPAddress.Text(listed[k]) == IPAddress.Text(ip) <==> SameAddress(listed[k], ip)
    {
      TextIdentifiesAddress(listed[k], ip);
    }
  }

  /** `b` names every address that `a` names, perhaps in the other byte form. */
  ghost predicate Names(b: seq<IP>, a: seq<IP>) {
    forall x | x in a :: exists y | y in b :: SameAddress(y, x)
  }

  /** Containment sees addresses only: it is monotone in both allowances, antitone in the
      request, and blind to order, repetition and the byte form of any address. */
  lemma ContainmentIsMonotone(cidrs: seq<CIDR>, listed: seq<IP>, requested: seq<IP>,
                              cidrs': seq<CIDR>, listed': seq<IP>, requested': seq<IP>)
    requires AllAllowed(cidrs, listed, requested)
    requires forall c | c in cidrs :: c in cidrs'
    requires Names(listed', listed) && Names(requested, requested')
    ensures AllAllowed(cidrs', listed', requested')
  {
    forall x | x in requested' ensures Allowed(cidrs', listed', x) {
      var ip :| ip in requested && SameAddress(ip, x);
      assert Allowed(cidrs, listed, ip);
      if a :| a in listed && SameAddress(a, ip) {
        var a' :| a' in listed' && SameAddress(a', a);
        assert SameAddress(a', x);
      } else {
        var c :| c in cidrs && Contains(c, ip);
        assert c in cidrs' && Contains(c, x);
      }
    }
  }

  /** An egress address that does not parse is kept as the empty slice; it lets no actual
      address through. */
  lemma UnparsedAddressAllowsNothing(cidrs: seq<CIDR>, listed: seq<IP>, ip: IP)
    requires ip != []
    ensures Allowed(cidrs, listed + [[]], ip) <==> Allowed(cidrs, listed, ip)
  {
    var all := listed + [[]];
    if a :| a in all && SameAddress(a, ip) {
      assert a in listed;
    }
    if a :| a in listed && SameAddress(a, ip) {
      assert a in all;
    }
  }

  /** Equal address lists contain each other, whatever the blocks. */
  lemma SameAddressesAreContained(cidrs: seq<CIDR>, listed: seq<IP>, more: seq<IP>, requested: seq<IP>)
    requires SameAddresses(listed, requested)
    ensures AllAllowed(cidrs, listed + more, requested)
  {
    forall ip | ip in requested ensures Allowed(cidrs, listed + more, ip) {
      var k :| 0 <= k < |requested| && requested[k] == ip;
      assert Mapped(Canonical, requested)[k] in multiset(Mapped(Canonical, listed));
      var j :| 0 <= j < |listed| && Mapped(Canonical, listed)[j] == Canonical(ip);
      assert listed[j] in listed + more && SameAddress(listed[j], ip);
    }
  }

  // ---------------------------------------------------------------- machine addresses

  predicate NamesHost(a: Address, san: string) {
    (a.kind == InternalDNS || a.kind == ExternalDNS || a.kind == Hostname) && EqualFold(san, a.text)
  }

  predicate NamesIP(a: Address, san: IP) {
    (a.kind == InternalIP || a.kind == ExternalIP) && IPAddress.Text(san) == a.text
  }

  ghost predicate OwnsHost(addresses: seq<Address>, san: string) {
    exists a | a in addresses :: NamesHost(a, san)
  }

  ghost predicate OwnsIP(addresses: seq<Address>, san: IP) {
    exists a | a in addresses :: NamesIP(a, san)
  }

  /** Every nonempty DNS name and every nonempty IP of the request is an address of the
      machine. */
  ghost predicate OwnsNames(addresses: seq<Address>, csr: CertificateRequest) {
    && (forall san | san in csr.dnsNames && san != "" :: OwnsHost(addresses, san))
    && (forall san | san in csr.ips && san != [] :: OwnsIP(addresses, san))
  }

  /** The first machine linked to the node owns every name requested. */
  ghost predicate MachineVouches(machines: seq<Machine>, node: string, csr: CertificateRequest) {
    exists i :: FirstByNodeRef(machines, i, node) && OwnsNames(machines[i].addresses, csr)
  }

  datatype MachineError = NoMachine | UnknownHost(san: string) | UnknownIP(ip: IP)

  method AuthorizeServingCertWithMachine(machines: seq<Machine>, node: string, csr: CertificateRequest)
    returns (err: Option<MachineError>)
    ensures err.None? <==> MachineVouches(machines, node, csr)
    ensures err == Some(NoMachine) <==> forall m | m in machines :: !LinkedTo(m, node)
    ensures forall san | err == Some(UnknownHost(san)) ::
              san in csr.dnsNames && san != "" && forall i | FirstByNodeRef(machines, i, node) :: !OwnsHost(machines[i].addresses, san)
    ensures forall san | err == Some(UnknownIP(san)) ::
              san in csr.ips && san != [] && forall i | FirstByNodeRef(machines, i, node) :: !OwnsIP(machines[i].addresses, san)
  {
    var target, index := FindMatchingMachineFromNodeRef(machines, node);
    if target.None? {
      return Some(NoMachine);
    }
    var addresses := target.value.addresses;
    forall i | FirstByNodeRef(machines, i, node) ensures i == index {
      FirstIsUnique(machines, i, index, node);
    }
    for i := 0 to |csr.dnsNames|
      invariant forall k | 0 <= k < i && csr.dnsNames[k] != "" :: OwnsHost(addresses, csr.dnsNames[k])
    {
      var san := csr.dnsNames[i];
      if |san| == 0 {
        continue;
      }
      var found := false;
      for j := 0 to |addresses|
        invariant found <==> exists k | 0 <= k < j :: NamesHost(addresses[k], san)
      {
        match addresses[j].kind {
          case InternalDNS | ExternalDNS | Hostname =>
            if EqualFold(san, addresses[j].text) {
              found := true;
            }
          case _ =>
        }
      }
      if !found {
        assert !OwnsHost(addresses, san);
        return Some(UnknownHost(san));
      }
    }
    for i := 0 to |csr.ips|
      invariant forall k | 0 <= k < i && csr.ips[k] != [] :: OwnsIP(addresses, csr.ips[k])
    {
      var san := csr.ips[i];
      if |san| == 0 {
        continue;
      }
      var found := false;
      for j := 0 to |addresses|
        invariant found <==> exists k | 0 <= k < j :: NamesIP(addresses[k], san)
      {
        match addresses[j].kind {
          case InternalIP | ExternalIP =>
            if IPAddress.Text(san) == addresses[j].text {
              found := true;
            }
          case _ =>
        }
      }
      if !found {
        assert !OwnsIP(addresses, san);
        return Some(UnknownIP(san));
      }
    }
    return None;
  }

  /** `names'` asks for nothing beyond `names`, up to letter case and the byte form of
      addresses. */
  ghost predicate AsksNoMore(names': CertificateRequest, names: CertificateRequest) {
    && (forall n | n in names'.dnsNames && n != "" :: exists m | m in names.dnsNames :: EqualFold(n, m))
    && (forall n | n in names'.ips && n != [] :: exists m | m in names.ips :: SameAddress(n, m))
  }

  lemma NamesAlike(a: Address, n: string, m: string, x: IP, y: IP)
    ensures EqualFold(n, m) && NamesHost(a, m) ==> NamesHost(a, n)
    ensures SameAddress(x, y) && NamesIP(a, y) ==> NamesIP(a, x)
  {
    TextIdentifiesAddress(x, y);
    if EqualFold(n, m) && NamesHost(a, m) {
      forall i | 0 <= i < |n| ensures Fold(n[i]) == Fold(a.text[i]) {
        assert Fold(n[i]) == Fold(m[i]) == Fold(a.text[i]);
      }
    }
  }

  /** Fewer, reordered or differently spelled names, and more or reordered machine addresses,
      keep a success; so permuting either list, changing the case of a name or the byte form
      of an address never changes the answer. */
  lemma VouchingIsMonotone(machines: seq<Machine>, machines': seq<Machine>, node: string,
                           csr: CertificateRequest, csr': CertificateRequest)
    requires MachineVouches(machines, node, csr)
    requires AsksNoMore(csr', csr)
    requires |machines'| == |machines|
    requires forall i | 0 <= i < |machines| ::
               machines'[i].nodeRef == machines[i].nodeRef && forall a | a in machines[i].addresses :: a in machines'[i].addresses
    ensures MachineVouches(machines', node, csr')
  {
    var i :| FirstByNodeRef(machines, i, node) && OwnsNames(machines[i].addresses, csr);
    assert forall j | 0 <= j <= i :: LinkedTo(machines'[j], node) == LinkedTo(machines[j], node);
    assert FirstByNodeRef(machines', i, node);
    forall san | san in csr'.dnsNames && san != "" ensures OwnsHost(machines'[i].addresses, san) {
      var m :| m in csr.dnsNames && EqualFold(san, m);
      assert OwnsHost(machines[i].addresses, m);
      var a :| a in machines[i].addresses && NamesHost(a, m);
      NamesAlike(a, san, m, [], []);
      assert a in machines'[i].addresses;
    }
    forall san | san in csr'.ips && san != [] ensures OwnsIP(machines'[i].addresses, san) {
      var m :| m in csr.ips && SameAddress(san, m);
      assert OwnsIP(machines[i].addresses, m);
      var a :| a in machines[i].addresses && NamesIP(a, m);
      NamesAlike(a, "", "", san, m);
      assert a in machines'[i].addresses;
    }
  }

  /** Two machine lists joined vouch exactly if the left one does, or if it knows no machine
      of the node and the right one does. */
  lemma JoinedVouching(front: seq<Machine>, machines: seq<Machine>, node: string, csr: CertificateRequest)
    ensures MachineVouches(front + machines, node, csr) <==>
            MachineVouches(front, node, csr) ||
            ((forall m | m in front :: !LinkedTo(m, node)) && MachineVouches(machines, node, csr))
  {
    var all := front + machines;
    if i :| FirstByNodeRef(all, i, node) && OwnsNames(all[i].addresses, csr) {
      FirstOfJoined(front, machines, i, node);
      assert all[i] == if i < |front| then front[i] else machines[i - |front|];
    }
    if i :| FirstByNodeRef(front, i, node) && OwnsNames(front[i].addresses, csr) {
      FirstOfJoined(front, machines, i, node);
      assert all[i] == front[i];
    } else if i :| FirstByNodeRef(machines, i, node) && OwnsNames(machines[i].addresses, csr) {
      FirstOfJoined(front, machines, |front| + i, node);
      assert all[|front| + i] == machines[i];
    }
  }

  /** Machines put in front of the list keep a success exactly when none of them is linked to
      the node, or the first that is owns the names too. */
  lemma MachinesInFrontKeepSuccess(front: seq<Machine>, machines: seq<Machine>, node: string, csr: CertificateRequest)
    requires MachineVouches(machines, node, csr)
    ensures MachineVouches(front + machines, node, csr) <==>
            (forall m | m in front :: !LinkedTo(m, node)) || MachineVouches(front, node, csr)
  {
    JoinedVouching(front, machines, node, csr);
  }

  /** So they can revoke it: a machine that carries the same node reference then answers for
      the node. */
  lemma MachinesInFrontCanRevoke()
    returns (machines: seq<Machine>, front: seq<Machine>, node: string, csr: CertificateRequest)
    ensures MachineVouches(machines, node, csr) && !MachineVouches(front + machines, node, csr)
  {
    node, csr := "node", CertificateRequest("", [], ["host"], [], [], []);
    var address := Address(Hostname, "host");
    machines := [Machine(0, Some(node), [address])];
    front := [Machine(0, Some(node), [])];
    assert address in machines[0].addresses && NamesHost(address, "host");
    assert FirstByNodeRef(machines, 0, node) && OwnsNames(machines[0].addresses, csr);
    var all := front + machines;
    assert LinkedTo(all[0], node) && forall i | FirstByNodeRef(all, i, node) :: i == 0;
    assert csr.dnsNames[0] in csr.dnsNames && !OwnsHost(all[0].addresses, csr.dnsNames[0]);
  }
}
