/** VLESS requests and the port-and-address form they share with Mux frames. */
module Vless {
  import opened Bytes
  import opened Endpoints

  const VERSION: byte := 0
  const CMD_TCP: byte := 1
  const CMD_UDP: byte := 2
  const CMD_MUX: byte := 3
  const ATYP_IPV4: byte := 1
  const ATYP_DOMAIN: byte := 2
  const ATYP_IPV6: byte := 3

  /** "v1.mux.cool" */
  const MUX_HOST: bytes := [118, 49, 46, 109, 117, 120, 46, 99, 111, 111, 108]

  datatype ParseError =
    | Incomplete(need: nat, have: nat)
    | BadVersion(found: byte)
    | UnsupportedCommand(command: byte)
    | UnsupportedAddressType(atyp: byte)
    | EmptyDomain
    | InvalidUtf8

  function ParsePortAddress(s: bytes): Result<(Endpoint, nat), ParseError> {
    if |s| < 3 then Err(Incomplete(3, |s|))
    else
      var port := Word(s[0], s[1]);
      if s[2] == ATYP_IPV4 then
        if |s| < 7 then Err(Incomplete(7, |s|)) else Ok((Ipv4(s[3..7], port), 7))
      else if s[2] == ATYP_DOMAIN then
        if |s| < 4 then Err(Incomplete(4, |s|))
        else if s[3] == 0 then Err(EmptyDomain)
        else
          var end: nat := s[3] as nat + 4;
          if |s| < end then Err(Incomplete(end, |s|))
          else if !Utf8(s[4..end]) then Err(InvalidUtf8)
          else Ok((Domain(s[4..end], port), end))
      else if s[2] == ATYP_IPV6 then
        if |s| < 19 then Err(Incomplete(19, |s|)) else Ok((Ipv6(s[3..19], port), 19))
      else Err(UnsupportedAddressType(s[2]))
  }

  function EncodePortAddress(e: Endpoint): bytes
    requires IsEndpoint(e)
  {
    match e
    case Ipv4(octets, port) => WordBytes(port) + [ATYP_IPV4] + octets
    case Ipv6(octets, port) => WordBytes(port) + [ATYP_IPV6] + octets
    case Domain(name, port) => WordBytes(port) + [ATYP_DOMAIN, |name| % 256] + name
  }

  /** An encoded endpoint reads back from the front of anything exactly when its name
      has between 1 and 255 bytes. */
  lemma EndpointReadsBack(e: Endpoint, t: bytes)
    requires IsEndpoint(e)
    ensures ParsePortAddress(EncodePortAddress(e) + t) == Ok((e, |EncodePortAddress(e)|)) <==> Encodable(e)
  {
    var s := EncodePortAddress(e) + t;
    match e
    case Ipv4(octets, _) => assert s[3..7] == octets;
    case Ipv6(octets, _) => assert s[3..19] == octets;
    case Domain(name, _) =>
      if |name| <= 255 {
        assert s[4..4 + |name|] == name;
      }
  }

  /** What the parser returns is encodable, and encodes to the bytes it consumed. */
  lemma EndpointIsCanonical(s: bytes)
    requires ParsePortAddress(s).Ok?
    ensures var (e, n) := ParsePortAddress(s).value;
            Encodable(e) && n <= |s| && EncodePortAddress(e) == s[..n]
  {
    var (e, n) := ParsePortAddress(s).value;
    assert s[0] == Word(s[0], s[1]) / 256 && s[1] == Word(s[0], s[1]) % 256;
  }

  /** A verdict other than "incomplete" stands, whatever arrives later. */
  lemma EndpointVerdictStands(s: bytes, t: bytes)
    requires ParsePortAddress(s).Ok? || !ParsePortAddress(s).error.Incomplete?
    ensures ParsePortAddress(s + t) == ParsePortAddress(s)
  {
    var u := s + t;
    assert u[..3] == s[..3];
    if s[2] == ATYP_IPV4 {
      assert u[3..7] == s[3..7];
    } else if s[2] == ATYP_IPV6 {
      assert u[3..19] == s[3..19];
    } else if s[2] == ATYP_DOMAIN && |s| >= 4 {
      var end: nat := s[3] as nat + 4;
      if end <= |s| {
        assert u[4..end] == s[4..end];
      }
    }
  }

  /** Every strict prefix of an encoded endpoint is incomplete. */
  lemma EndpointPrefixIncomplete(e: Endpoint, k: nat)
    requires Encodable(e) && k < |EncodePortAddress(e)|
    ensures var r := ParsePortAddress(EncodePortAddress(e)[..k]);
            r.Err? && r.error.Incomplete? && r.error.have == k < r.error.need
  {
  }

  // ---------------------------------------------------------------- requests

  datatype Request = Request(uuid: bytes, command: byte, addons: bytes, target: Endpoint)

  function ParseRequest(s: bytes): Result<(Request, nat), ParseError> {
    if |s| < 18 then Err(Incomplete(18, |s|))
    else if s[0] != VERSION then Err(BadVersion(s[0]))
    else
      var end: nat := s[17] as nat + 18;
      if |s| < end + 1 then Err(Incomplete(end + 1, |s|))
      else
        var uuid, addons, command := s[1..17], s[18..end], s[end];
        if command != CMD_TCP && command != CMD_UDP && command != CMD_MUX then Err(UnsupportedCommand(command))
        else if command == CMD_MUX then Ok((Request(uuid, command, addons, Domain(MUX_HOST, 0)), end + 1))
        else if |s| < end + 4 then Err(Incomplete(end + 4, |s|))
        else
          match ParsePortAddress(s[end + 1..])
          case Ok((target, n)) => Ok((Request(uuid, command, addons, target), end + 1 + n))
          case Err(e) => Err(e)
  }

  /** A request up to its command. */
  function RequestHead(uuid: bytes, addons: bytes, command: byte): bytes
    requires |addons| < 256
  {
    [VERSION] + uuid + [|addons|] + addons + [command]
  }

  function EncodeRequest(r: Request): bytes
    requires IsEndpoint(r.target) && |r.addons| < 256
  {
    RequestHead(r.uuid, r.addons, r.command) + if r.command == CMD_MUX then [] else EncodePortAddress(r.target)
  }

  /** A request of the right shape: sized id and addons, a known command, and the
      placeholder target for Mux. */
  predicate IsRequest(r: Request) {
    && |r.uuid| == 16 && |r.addons| < 256 && IsEndpoint(r.target)
    && (r.command == CMD_TCP || r.command == CMD_UDP || (r.command == CMD_MUX && r.target == Domain(MUX_HOST, 0)))
  }

  lemma HeadLayout(uuid: bytes, addons: bytes, command: byte, t: bytes)
    requires |uuid| == 16 && |addons| < 256
    ensures var s, end := RequestHead(uuid, addons, command) + t, 18 + |addons|;
            && |s| == end + 1 + |t| && s[0] == VERSION && s[17] == |addons| && s[end] == command
            && s[1..17] == uuid && s[18..end] == addons && s[end + 1..] == t
  {
  }

  /** After the head, a request is read from its port on. */
  lemma HeadReadsBack(uuid: bytes, addons: bytes, command: byte, t: bytes)
    requires |uuid| == 16 && |addons| < 256 && (command == CMD_TCP || command == CMD_UDP) && |t| >= 3
    ensures var end := 19 + |addons|;
            ParseRequest(RequestHead(uuid, addons, command) + t) ==
            match ParsePortAddress(t)
            case Ok((target, n)) => Ok((Request(uuid, command, addons, target), end + n))
            case Err(e) => Err(e)
  {
    HeadLayout(uuid, addons, command, t);
    hide ParsePortAddress, RequestHead;
  }

  lemma MuxReadsBack(uuid: bytes, addons: bytes, t: bytes)
    requires |uuid| == 16 && |addons| < 256
    ensures ParseRequest(RequestHead(uuid, addons, CMD_MUX) + t) ==
            Ok((Request(uuid, CMD_MUX, addons, Domain(MUX_HOST, 0)), 19 + |addons|))
  {
    HeadLayout(uuid, addons, CMD_MUX, t);
    hide RequestHead, ParsePortAddress;
  }

  lemma EndpointSize(e: Endpoint)
    requires IsEndpoint(e)
    ensures |EncodePortAddress(e)| >= 3
    ensures Encodable(e) ==> |EncodePortAddress(e)| <= 259
  {
    hide Utf8;
  }

  /** Requests read back from the front of any stream, with the length they take,
      exactly when the target's name has between 1 and 255 bytes. */
  lemma RequestReadsBack(r: Request, t: bytes)
    requires IsRequest(r)
    ensures ParseRequest(EncodeRequest(r) + t) == Ok((r, |EncodeRequest(r)|)) <==> Encodable(r.target)
  {
    hide ParsePortAddress, ParseRequest, EncodePortAddress, Utf8;
    var head := RequestHead(r.uuid, r.addons, r.command);
    if r.command == CMD_MUX {
      MuxReadsBack(r.uuid, r.addons, t);
      assert head + [] == head;
    } else {
      var a := EncodePortAddress(r.target);
      EndpointSize(r.target);
      EndpointReadsBack(r.target, t);
      HeadReadsBack(r.uuid, r.addons, r.command, a + t);
      assert head + a + t == head + (a + t);
    }
  }

  /** Each error of an endpoint, by the bytes that bring it: type 1 is IPv4, 2 a name behind its
      length, 3 IPv6. */
  lemma EndpointErrors(s: bytes)
    ensures var r := ParsePortAddress(s);
            && (forall b :: r == Err(UnsupportedAddressType(b)) <==> |s| >= 3 && s[2] == b && !(1 <= b <= 3))
            && (r == Err(EmptyDomain) <==> |s| >= 4 && s[2] == 2 && s[3] == 0)
            && (r == Err(InvalidUtf8) <==>
                  |s| >= 4 && s[2] == 2 && s[3] > 0 && |s| >= s[3] as nat + 4 && !Utf8(s[4..s[3] as nat + 4]))
            && (forall need, have :: r == Err(Incomplete(need, have)) <==>
                  && have == |s| < need
                  && need == if |s| < 3 then 3
                             else if s[2] == 1 then 7
                             else if s[2] == 3 then 19
                             else if s[2] != 2 || (|s| >= 4 && s[3] == 0) then 0
                             else if |s| < 4 then 4
                             else s[3] as nat + 4)
  {
    hide Utf8;
  }

  /** The errors of a request, by the bytes that bring them. Behind the command its endpoint's
      errors are its own, but its first four bytes must be there. */
  lemma RequestErrors(s: bytes)
    ensures var r := ParseRequest(s);
            && (forall b :: r == Err(BadVersion(b)) <==> |s| >= 18 && s[0] == b && b != 0)
            && (forall b :: r == Err(UnsupportedCommand(b)) <==>
                  |s| >= 18 && s[0] == 0 && |s| > s[17] as nat + 18 && s[s[17] as nat + 18] == b && !(1 <= b <= 3))
            && (|s| < 18 ==> r == Err(Incomplete(18, |s|)))
            && (|s| >= 18 && s[0] == 0 && |s| <= s[17] as nat + 18 ==> r == Err(Incomplete(s[17] as nat + 19, |s|)))
            && (|s| >= 18 && s[0] == 0 && |s| > s[17] as nat + 18 && 1 <= s[s[17] as nat + 18] <= 2 ==>
                  if |s| < s[17] as nat + 22 then r == Err(Incomplete(s[17] as nat + 22, |s|))
                  else forall e :: r == Err(e) <==> ParsePortAddress(s[s[17] as nat + 19..]) == Err(e))
  {
    hide Utf8;
    if |s| >= 18 && |s| >= s[17] as nat + 22 {
      EndpointErrors(s[s[17] as nat + 19..]);
    }
    hide ParsePortAddress;
  }

  /** A request byte by byte: version 0, the id, the length of the addons and the addons, the
      command, then port, address type and address. The port is big-endian. */
  lemma RequestLayout(uuid: bytes, addons: bytes, command: byte, octets: bytes, portHi: byte, portLo: byte)
    requires |uuid| == 16 && |addons| < 256 && (command == 1 || command == 2) && |octets| == 4
    ensures var target := Ipv4(octets, 256 * portHi as nat + portLo as nat);
            EncodeRequest(Request(uuid, command, addons, target)) ==
            [0] + uuid + [|addons|] + addons + [command] + [portHi, portLo, 1] + octets
  {
    WordsAreBigEndian(portHi, portLo);
    hide WordBytes;
    assert EncodePortAddress(Ipv4(octets, 256 * portHi as nat + portLo as nat)) == [portHi, portLo, 1] + octets;
    var head := RequestHead(uuid, addons, command);
    assert head + ([portHi, portLo, 1] + octets) == head + [portHi, portLo, 1] + octets;
  }

  /** A verdict on a request, unless it is "incomplete", stands when more bytes follow. */
  lemma RequestVerdictStands(s: bytes, t: bytes)
    requires ParseRequest(s).Ok? || !ParseRequest(s).error.Incomplete?
    ensures ParseRequest(s + t) == ParseRequest(s)
  {
    hide ParsePortAddress, Utf8;
    var u := s + t;
    assert u[0] == s[0] && u[17] == s[17];
    var end: nat := s[17] as nat + 18;
    if s[0] != VERSION {
      return;
    }
    assert u[end] == s[end] && u[1..17] == s[1..17] && u[18..end] == s[18..end];
    if s[end] == CMD_TCP || s[end] == CMD_UDP {
      EndpointVerdictStands(s[end + 1..], t);
      assert u[end + 1..] == s[end + 1..] + t;
    }
  }

  // The client's request builders. They all start with the same bytes.

  method BuildHead(uuid: bytes, command: byte) returns (buf: bytes)
    ensures buf == RequestHead(uuid, [], command)
  {
    buf := [VERSION];
    buf := buf + uuid;
    buf := buf + [0];
    buf := buf + [command];
  }

  method BuildMuxRequest(uuid: bytes) returns (buf: bytes)
    requires |uuid| == 16
    ensures ParseRequest(buf) == Ok((Request(uuid, CMD_MUX, [], Domain(MUX_HOST, 0)), |buf|))
  {
    buf := BuildHead(uuid, CMD_MUX);
    MuxReadsBack(uuid, [], []);
    assert buf + [] == buf;
  }

  /** A head and an encoded endpoint make a request. */
  lemma BuiltReadsBack(uuid: bytes, command: byte, target: Endpoint, buf: bytes)
    requires |uuid| == 16 && IsEndpoint(target) && (command == CMD_TCP || command == CMD_UDP)
    requires buf == RequestHead(uuid, [], command) + EncodePortAddress(target)
    ensures ParseRequest(buf) == Ok((Request(uuid, command, [], target), |buf|)) <==> Encodable(target)
  {
    hide ParseRequest, Utf8, EncodePortAddress, RequestHead;
    var r := Request(uuid, command, [], target);
    RequestReadsBack(r, []);
    assert EncodeRequest(r) + [] == EncodeRequest(r);
  }

  method BuildIpv4Request(uuid: bytes, command: byte, octets: bytes, port: nat) returns (buf: bytes)
    requires |uuid| == 16 && |octets| == 4 && port < 0x1_0000 && (command == CMD_TCP || command == CMD_UDP)
    ensures ParseRequest(buf) == Ok((Request(uuid, command, [], Ipv4(octets, port)), |buf|))
  {
    hide RequestHead, ParseRequest;
    var head := BuildHead(uuid, command);
    buf := head + WordBytes(port);
    buf := buf + [ATYP_IPV4];
    buf := buf + octets;
    assert buf == head + (WordBytes(port) + [ATYP_IPV4] + octets);
    BuiltReadsBack(uuid, command, Ipv4(octets, port), buf);
  }

  method BuildDomainRequest(uuid: bytes, command: byte, name: bytes, port: nat) returns (buf: bytes)
    requires |uuid| == 16 && port < 0x1_0000 && Utf8(name) && (command == CMD_TCP || command == CMD_UDP)
    ensures ParseRequest(buf) == Ok((Request(uuid, command, [], Domain(name, port)), |buf|)) <==> 1 <= |name| <= 255
  {
    hide RequestHead, ParseRequest, Utf8;
    var head := BuildHead(uuid, command);
    buf := head + WordBytes(port);
    buf := buf + [ATYP_DOMAIN, |name| % 256];
    buf := buf + name;
    assert buf == head + (WordBytes(port) + [ATYP_DOMAIN, |name| % 256] + name);
    BuiltReadsBack(uuid, command, Domain(name, port), buf);
  }
}
