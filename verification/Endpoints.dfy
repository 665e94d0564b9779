/** Where a connection goes: an address or a name, and a port. */
module Endpoints {
  import opened Bytes

  datatype Endpoint =
    | Ipv4(octets: bytes, port: nat)
    | Ipv6(octets: bytes, port: nat)
    | Domain(name: bytes, port: nat)

  /** A value an `Endpoint` can hold: sized addresses, 16-bit ports, text names. */
  predicate IsEndpoint(e: Endpoint) {
    && e.port < 0x1_0000
    && (e.Ipv4? ==> |e.octets| == 4)
    && (e.Ipv6? ==> |e.octets| == 16)
    && (e.Domain? ==> Utf8(e.name))
  }

  /** An endpoint whose name fits the one-byte length of the wire formats. */
  predicate Encodable(e: Endpoint) {
    IsEndpoint(e) && (e.Domain? ==> 1 <= |e.name| <= 255)
  }
}
