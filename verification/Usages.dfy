/** Recognising node client requests (pkg/controller/node_client.go). */
module Usages {
  import opened Types
  import opened Text

  const DIGITAL_SIGNATURE := "digital signature"
  const KEY_ENCIPHERMENT := "key encipherment"
  const SERVER_AUTH := "server auth"
  const CLIENT_AUTH := "client auth"

  const CLIENT_USAGES_LEGACY: seq<string> := [KEY_ENCIPHERMENT, DIGITAL_SIGNATURE, CLIENT_AUTH]
  const CLIENT_USAGES: seq<string> := [DIGITAL_SIGNATURE, CLIENT_AUTH]

  /** What the map-based comparison establishes: equal length, and every usage expected. */
  predicate Covered(usages: seq<string>, expected: seq<string>) {
    |usages| == |expected| && forall u | u in usages :: u in expected
  }

  method HasExactUsages(usages: seq<string>, expected: seq<string>) returns (exact: bool)
    ensures exact <==> Covered(usages, expected)
  {
    if |expected| != |usages| {
      return false;
    }
    var usageMap: set<string> := {};
    for i := 0 to |expected|
      invariant forall u :: u in usageMap <==> u in expected[..i]
    {
      usageMap := usageMap + {expected[i]};
    }
    assert expected[..|expected|] == expected;
    for i := 0 to |usages|
      invariant forall j | 0 <= j < i :: usages[j] in expected
    {
      if usages[i] !in usageMap {
        return false;
      }
    }
    return true;
  }

  ghost predicate NoDuplicates(s: seq<string>) {
    forall i, j | 0 <= i < j < |s| :: s[i] != s[j]
  }

  function Elements(s: seq<string>): set<string> {
    set x | x in s
  }

  lemma {:induction false} ElementsCount(s: seq<string>)
    requires NoDuplicates(s)
    ensures |Elements(s)| == |s|
    ensures forall x :: multiset(s)[x] == if x in s then 1 else 0
  {
    if s != [] {
      var last := s[|s| - 1];
      var init := s[..|s| - 1];
      ElementsCount(init);
      assert s == init + [last];
      assert Elements(s) == Elements(init) + {last};
    }
  }

  /** Pigeonhole: a subset with as many elements is the whole set. */
  lemma FullSubset(a: set<string>, b: set<string>)
    requires a <= b && |a| == |b|
    ensures a == b
  {
    assert |b - a| == |b| - |a|;
  }

  lemma CoveredOnceIsPermutation(usages: seq<string>, expected: seq<string>)
    requires NoDuplicates(expected) && NoDuplicates(usages) && Covered(usages, expected)
    ensures multiset(usages) == multiset(expected)
  {
    ElementsCount(usages);
    ElementsCount(expected);
    FullSubset(Elements(usages), Elements(expected));
    forall x ensures multiset(usages)[x] == multiset(expected)[x] {
      assert x in usages <==> x in Elements(usages);
      assert x in expected <==> x in Elements(expected);
    }
  }

  /** A value found twice has multiplicity two. */
  lemma FoundTwice(s: seq<string>, i: nat, j: nat)
    requires i < j < |s| && s[i] == s[j]
    ensures multiset(s)[s[j]] >= 2
  {
    var front, back := s[..j], s[j..];
    assert s == front + back;
    assert front[i] == s[j] && back[0] == s[j];
    assert s[j] in multiset(front) && s[j] in multiset(back);
  }

  lemma PermutationIsOnce(usages: seq<string>, expected: seq<string>)
    requires NoDuplicates(expected) && multiset(usages) == multiset(expected)
    ensures NoDuplicates(usages)
  {
    ElementsCount(expected);
    forall i, j | 0 <= i < j < |usages| ensures usages[i] != usages[j] {
      if usages[i] == usages[j] {
        FoundTwice(usages, i, j);
      }
    }
  }

  lemma PermutationIsCovered(usages: seq<string>, expected: seq<string>)
    requires multiset(usages) == multiset(expected)
    ensures Covered(usages, expected)
  {
    assert |usages| == |multiset(usages)| == |expected|;
    forall u | u in usages ensures u in expected {
      assert u in multiset(usages);
    }
  }

  /** Against a duplicate-free list, a permutation is exactly what passes and repeats
      nothing. */
  lemma PermutationIffCoveredOnce(usages: seq<string>, expected: seq<string>)
    requires NoDuplicates(expected)
    ensures multiset(usages) == multiset(expected) <==> Covered(usages, expected) && NoDuplicates(usages)
  {
    if multiset(usages) == multiset(expected) {
      PermutationIsCovered(usages, expected);
      PermutationIsOnce(usages, expected);
    } else if Covered(usages, expected) && NoDuplicates(usages) {
      CoveredOnceIsPermutation(usages, expected);
    }
  }

  /** The check does accept repeated usages: one usage twice passes for the two expected
      ones, without being a permutation of them. */
  lemma RepeatedUsagePasses()
    ensures NoDuplicates(CLIENT_USAGES)
    ensures Covered([CLIENT_AUTH, CLIENT_AUTH], CLIENT_USAGES)
    ensures multiset([CLIENT_AUTH, CLIENT_AUTH]) != multiset(CLIENT_USAGES)
  {
    assert CLIENT_AUTH == CLIENT_USAGES[1];
    assert DIGITAL_SIGNATURE[0] != CLIENT_AUTH[0];
    assert NoDuplicates(CLIENT_USAGES);
    PermutationIffCoveredOnce([CLIENT_AUTH, CLIENT_AUTH], CLIENT_USAGES);
    assert [CLIENT_AUTH, CLIENT_AUTH][0] == [CLIENT_AUTH, CLIENT_AUTH][1];
  }

  // ---------------------------------------------------------------- node client requests

  /** A request for a node client certificate. */
  predicate NodeClientRequest(usages: seq<string>, csr: CertificateRequest) {
    && csr.organization == [NODE_GROUP]
    && csr.dnsNames == [] && csr.emails == [] && csr.ips == []
    && (Covered(usages, CLIENT_USAGES_LEGACY) || Covered(usages, CLIENT_USAGES))
    && NODE_USER_PREFIX <= csr.commonName
  }

  method IsNodeClientCert(req: CSR, csr: CertificateRequest) returns (client: bool)
    ensures client <==> NodeClientRequest(req.usages, csr)
  {
    if csr.organization != [NODE_GROUP] {
      return false;
    }
    if |csr.dnsNames| > 0 || |csr.emails| > 0 || |csr.ips| > 0 {
      return false;
    }
    var legacy := HasExactUsages(req.usages, CLIENT_USAGES_LEGACY);
    var current := HasExactUsages(req.usages, CLIENT_USAGES);
    if !legacy && !current {
      return false;
    }
    if !HasPrefix(csr.commonName, NODE_USER_PREFIX) {
      return false;
    }
    return true;
  }

  /** A node client request never asks for server authentication. */
  lemma ClientNeverServes(usages: seq<string>, csr: CertificateRequest)
    requires NodeClientRequest(usages, csr)
    ensures SERVER_AUTH !in usages
  {
    assert SERVER_AUTH[0] == 's';
    assert KEY_ENCIPHERMENT[0] == 'k' && DIGITAL_SIGNATURE[0] == 'd' && CLIENT_AUTH[0] == 'c';
  }
}
