/** The entities the approver works on. */
module Types {
  import opened IPAddress

  datatype Option<+T> = None | Some(value: T)

  /** The answer of the API server to reading one object. */
  datatype Read<+T> = Found(value: T) | NotFound | Failed

  /** Points in time and durations, in nanoseconds. */
  type Time = int

  const SECOND: Time := 1_000_000_000
  const HOUR: Time := 3600 * SECOND

  /** Strictly between `start` and `end`. */
  predicate InTimeSpan(start: Time, end: Time, check: Time) {
    start < check < end
  }

  const NODE_USER := "system:node"
  const NODE_USER_PREFIX := "system:node:"
  const NODE_GROUP := "system:nodes"
  const AUTHENTICATED := "system:authenticated"

  // ---------------------------------------------------------------- requests

  const APPROVED := "Approved"
  const APPROVE_MESSAGE := "This CSR was approved by the Node CSR Approver (cluster-machine-approver)"

  datatype Condition = Condition(
    kind: string, status: string, reason: string, message: string,
    lastUpdate: Time, lastTransition: Time)

  /** What X.509 parsing of a request yields. */
  datatype CertificateRequest = CertificateRequest(
    commonName: string, organization: seq<string>,
    dnsNames: seq<string>, emails: seq<string>, ips: seq<IP>, uris: seq<string>)

  /** The first PEM block of `spec.request`; its content is absent when X.509 parsing of
      the block fails. */
  datatype Pem = NoBlock | Block(tag: string, content: Option<CertificateRequest>)

  /** A CertificateSigningRequest object. */
  datatype CSR = CSR(
    name: string, uid: nat, resourceVersion: nat, created: Time,
    username: string, groups: seq<string>, usages: seq<string>,
    request: Pem, conditions: seq<Condition>)

  /** A serving certificate that a kubelet presents. */
  datatype Certificate = Certificate(
    commonName: string,
    dnsNames: seq<string>, emails: seq<string>, ips: seq<IP>, uris: seq<string>)

  // ---------------------------------------------------------------- cluster

  datatype AddressKind = Hostname | InternalIP | ExternalIP | InternalDNS | ExternalDNS | OtherKind(name: string)

  datatype Address = Address(kind: AddressKind, text: string)

  datatype Machine = Machine(created: Time, nodeRef: Option<string>, addresses: seq<Address>)

  datatype Node = Node(addresses: seq<Address>)

  /** Egress addresses after parsing: an unparsable egress IP is the empty slice, an
      unparsable egress CIDR is None. */
  datatype HostSubnet = HostSubnet(egressIPs: seq<IP>, egressCIDRs: seq<Option<CIDR>>)
}
