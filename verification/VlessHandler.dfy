/** The server side of the VLESS handshake, as a reader of a byte stream. */
module VlessHandler {
  import opened Bytes
  import opened ByteStream
  import opened Endpoints
  import opened Vless
  import Addons

  /** A configured user; `None` for an id that is not a UUID. */
  datatype User = User(uuid: Option<bytes>, flow: Option<bytes>)

  function Authenticate(users: seq<User>, uuid: bytes): Option<User> {
    if users == [] then None
    else if users[0].uuid == Some(uuid) then Some(users[0])
    else Authenticate(users[1..], uuid)
  }

  /** Some user has this id. */
  predicate Configured(users: seq<User>, uuid: bytes) {
    exists i :: 0 <= i < |users| && users[i].uuid == Some(uuid)
  }

  /** `u` is the first user with this id. */
  predicate IsFirst(users: seq<User>, uuid: bytes, u: User) {
    u.uuid == Some(uuid) && exists i :: 0 <= i < |users| && users[i] == u && !Configured(users[..i], uuid)
  }

  lemma FirstIsConfigured(users: seq<User>)
    requires users != [] && users[0].uuid.Some?
    ensures Configured(users, users[0].uuid.value)
  {
  }

  lemma TailConfigures(users: seq<User>, uuid: bytes)
    requires users != [] && users[0].uuid != Some(uuid)
    ensures Configured(users, uuid) <==> Configured(users[1..], uuid)
  {
    if Configured(users, uuid) {
      var i :| 0 <= i < |users| && users[i].uuid == Some(uuid);
      assert users[1..][i - 1].uuid == Some(uuid);
    }
  }

  lemma TailIsFirst(users: seq<User>, uuid: bytes, u: User)
    requires users != [] && users[0].uuid != Some(uuid)
    ensures IsFirst(users, uuid, u) <==> IsFirst(users[1..], uuid, u)
  {
    forall i | 0 <= i < |users[1..]|
      ensures users[1..][i] == users[i + 1] && (Configured(users[1..][..i], uuid) <==> Configured(users[..i + 1], uuid))
    {
      assert users[..i + 1][1..] == users[1..][..i];
      TailConfigures(users[..i + 1], uuid);
    }
    if IsFirst(users, uuid, u) {
      var i :| 0 <= i < |users| && users[i] == u && !Configured(users[..i], uuid);
      assert i > 0;
      assert users[1..][i - 1] == u;
    }
  }

  /** The user found is the first one with the id, and none is found exactly when no user
      has it. */
  lemma {:induction false} AuthenticateIsFirst(users: seq<User>, uuid: bytes)
    ensures Authenticate(users, uuid).None? <==> !Configured(users, uuid)
    ensures forall u :: Authenticate(users, uuid) == Some(u) <==> IsFirst(users, uuid, u)
  {
    if users != [] {
      if users[0].uuid == Some(uuid) {
        assert !Configured(users[..0], uuid);
        forall u | IsFirst(users, uuid, u)
          ensures u == users[0]
        {
          var i :| 0 <= i < |users| && users[i] == u && !Configured(users[..i], uuid);
          if i > 0 {
            FirstIsConfigured(users[..i]);
            assert false;
          }
        }
      } else {
        AuthenticateIsFirst(users[1..], uuid);
        TailConfigures(users, uuid);
        hide Configured, IsFirst;
        forall u
          ensures Authenticate(users, uuid) == Some(u) <==> IsFirst(users, uuid, u)
        {
          TailIsFirst(users, uuid, u);
        }
      }
    }
  }

  datatype Handshake = Handshake(command: byte, target: Endpoint)

  datatype HandshakeError =
    | ReadFailed
    | AuthenticationFailed
    | BadRequest(request: ParseError)
    | BadAddons(addons: Addons.AddonsError)
    | UnsupportedFlow(flow: Addons.UnsupportedFlow)
    | WriteFailed

  // ---------------------------------------------------------------- how much to read

  /** Bytes an address takes after its type byte, when `s` holds enough to tell. */
  function AddressLength(s: bytes): Option<nat> {
    if |s| < 1 then None
    else if s[0] == ATYP_IPV4 then Some(4)
    else if s[0] == ATYP_IPV6 then Some(16)
    else if s[0] == ATYP_DOMAIN && |s| >= 2 then Some(s[1] as nat + 1)
    else None
  }

  /** Length of the request at the front of `s`, when it is all there, going by lengths alone. */
  function RequestLength(s: bytes): (n: Option<nat>)
    ensures n.Some? ==> n.value <= |s|
  {
    if |s| < 18 || s[0] != VERSION then None
    else
      var end: nat := s[17] as nat + 18;
      if |s| <= end then None
      else if s[end] == CMD_MUX then Some(end + 1)
      else if |s| < end + 4 then None
      else
        var a := AddressLength(s[end + 3..]);
        if a.Some? && end + 4 + a.value <= |s| then Some(end + 4 + a.value) else None
  }

  lemma AddressAgrees(s: bytes)
    requires |s| >= 3
    ensures ParsePortAddress(s).Ok? ==> AddressLength(s[2..]) == Some(ParsePortAddress(s).value.1 - 3)
    ensures AddressLength(s[2..]).Some? && 3 + AddressLength(s[2..]).value <= |s| ==>
              ParsePortAddress(s[..3 + AddressLength(s[2..]).value]) == ParsePortAddress(s)
  {
    hide Utf8;
    var a := AddressLength(s[2..]);
    if a.Some? && 3 + a.value <= |s| {
      var u := s[..3 + a.value];
      assert u[..3] == s[..3];
      if s[2] == ATYP_IPV4 {
        assert u[3..7] == s[3..7];
      } else if s[2] == ATYP_IPV6 {
        assert u[3..19] == s[3..19];
      } else if a.value > 1 {
        assert u[4..3 + a.value] == s[4..3 + a.value];
      }
    }
  }

  /** A request that parses ends where its lengths say. */
  lemma ParsedLength(s: bytes)
    requires ParseRequest(s).Ok?
    ensures RequestLength(s) == Some(ParseRequest(s).value.1)
  {
    hide Utf8;
    var end: nat := s[17] as nat + 18;
    if s[end] != CMD_MUX {
      AddressAgrees(s[end + 1..]);
      hide ParsePortAddress, AddressLength;
      assert s[end + 1..][2..] == s[end + 3..];
    }
  }

  /** Cut where its lengths say, a request means what the whole stream does. */
  lemma CutKeepsVerdict(s: bytes)
    requires RequestLength(s).Some?
    ensures ParseRequest(s[..RequestLength(s).value]) == ParseRequest(s)
  {
    hide Utf8;
    var n := RequestLength(s).value;
    var u := s[..n];
    var end: nat := s[17] as nat + 18;
    assert u[0] == s[0] && u[17] == s[17] && u[end] == s[end];
    assert u[1..17] == s[1..17] && u[18..end] == s[18..end];
    if s[end] != CMD_MUX {
      AddressAgrees(s[end + 1..]);
      hide ParsePortAddress, AddressLength;
      assert s[end + 1..][2..] == s[end + 3..];
      assert u[end + 1..] == s[end + 1..][..n - end - 1];
    }
  }

  /** Bytes of the port, type and address in front of `rest`, when they are all there. */
  function AddressBytes(rest: bytes): Option<nat> {
    if |rest| < 3 then None
    else if rest[2] == 1 then if |rest| < 7 then None else Some(7)
    else if rest[2] == 3 then if |rest| < 19 then None else Some(19)
    else if rest[2] == 2 then
      if |rest| < 4 || |rest| < rest[3] as nat + 4 then None else Some(rest[3] as nat + 4)
    else None
  }

  lemma AddressIsThere(rest: bytes)
    ensures var a, b := (if |rest| < 3 then None else AddressLength(rest[2..])), AddressBytes(rest);
            (a.Some? && 3 + a.value <= |rest| <==> b.Some?) && (b.Some? ==> b.value == 3 + a.value)
  {
  }

  /** How much is read, whatever the command: the head, and behind it the address, which for Mux
      there is not. A stream that ends before, another version and another address type are not
      read to the end. */
  lemma LengthExactly(s: bytes)
    ensures var n := RequestLength(s);
            if |s| < 18 || s[0] != 0 || |s| <= s[17] as nat + 18 then n == None
            else
              var head: nat := s[17] as nat + 19;
              var a := AddressBytes(s[head..]);
              n == if s[head - 1] == 3 then Some(head) else if a.Some? then Some(head + a.value) else None
  {
    if |s| >= 18 && |s| >= s[17] as nat + 19 {
      var head: nat := s[17] as nat + 19;
      AddressIsThere(s[head..]);
      if |s| >= head + 2 {
        assert s[head..][2..] == s[head + 2..];
      }
    }
    hide AddressLength, AddressBytes;
  }

  // ---------------------------------------------------------------- the reader

  /** Read port, address type and address behind `head`. */
  method ReadAddress(client: Stream, head: bytes) returns (r: Option<bytes>)
    modifies client`rest
    ensures var s, k := head + old(client.rest), |head|;
            var a := if |s| < k + 3 then None else AddressLength(s[k + 2..]);
            if a.Some? && k + 3 + a.value <= |s|
            then r == Some(s[..k + 3 + a.value]) && client.rest == s[k + 3 + a.value..]
            else r == None
  {
    ghost var s := head + client.rest;
    var withPort := client.Extend(head, 3);
    if withPort.None? {
      return None;
    }
    var full := withPort.value;
    var atyp := full[|head| + 2];
    assert full + client.rest == s && s[|head| + 2..][0] == atyp;
    var addrLen: nat;
    if atyp == ATYP_IPV4 {
      addrLen := 4;
    } else if atyp == ATYP_IPV6 {
      addrLen := 16;
    } else if atyp == ATYP_DOMAIN {
      var withLength := client.Extend(full, 1);
      if withLength.None? {
        return None;
      }
      full := withLength.value;
      addrLen := full[|head| + 3];
      assert full + client.rest == s && s[|head| + 2..][1] == full[|head| + 3];
    } else {
      return None;
    }
    r := client.Extend(full, addrLen);
  }

  /** Read one request off the stream, in the pieces its lengths announce. */
  method ReadRequest(client: Stream) returns (r: Option<bytes>)
    modifies client`rest
    ensures match RequestLength(old(client.rest))
            case Some(n) => r == Some(old(client.rest)[..n]) && client.rest == old(client.rest)[n..]
            case None => r == None
  {
    ghost var s := client.rest;
    var head := client.ReadExact(18);
    if head.None? || head.value[0] != VERSION {
      return None;
    }
    var full := head.value;
    var addonsLen: nat := full[17];
    assert full + client.rest == s;
    if addonsLen > 0 {
      var more := client.Extend(full, addonsLen);
      if more.None? {
        return None;
      }
      full := more.value;
    }
    assert full + client.rest == s;
    var withCommand := client.Extend(full, 1);
    if withCommand.None? {
      return None;
    }
    full := withCommand.value;
    assert full + client.rest == s;
    if full[|full| - 1] == CMD_MUX {
      return Some(full);
    }
    r := ReadAddress(client, full);
  }

  /** What a request of known framing is answered with. */
  function Verdict(full: bytes, users: seq<User>): Result<Handshake, HandshakeError>
    requires |full| >= 17
  {
    var user := Authenticate(users, full[1..17]);
    if user.None? then Err(AuthenticationFailed)
    else
      match ParseRequest(full)
      case Err(e) => Err(BadRequest(e))
      case Ok((request, _)) =>
        match Addons.ParseAddons(request.addons)
        case Err(e) => Err(BadAddons(e))
        case Ok(addons) =>
          match Addons.ValidateFlow(addons.flow, user.value.flow)
          case Err(e) => Err(UnsupportedFlow(e))
          case Ok(_) => Ok(Handshake(request.command, request.target))
  }

  /** The stream starts with a request the server will serve: its id is a configured user's,
      its addons are sound, and neither names a flow. */
  ghost predicate Welcome(s: bytes, users: seq<User>) {
    && ParseRequest(s).Ok?
    && var request := ParseRequest(s).value.0;
       var addons := Addons.ParseAddons(request.addons);
       && addons.Ok? && Addons.Blank(addons.value.flow)
       && exists u :: IsFirst(users, s[1..17], u) && Addons.Blank(u.flow)
  }

  /** The stream is all there and bytes 1 to 16 are the id of a configured user. */
  ghost predicate Known(s: bytes, users: seq<User>) {
    RequestLength(s).Some? && |s| >= 17 && Configured(users, s[1..17])
  }

  /** When a stream is refused with which error, in the order the tests are made. */
  ghost predicate Grounds(s: bytes, users: seq<User>, e: HandshakeError) {
    var p := ParseRequest(s);
    match e
    case ReadFailed => RequestLength(s).None?
    case AuthenticationFailed => RequestLength(s).Some? && !Known(s, users)
    case BadRequest(error) => Known(s, users) && p == Err(error)
    case BadAddons(error) => Known(s, users) && p.Ok? && Addons.ParseAddons(p.value.0.addons) == Err(error)
    case UnsupportedFlow(error) =>
      && Known(s, users) && p.Ok? && Addons.ParseAddons(p.value.0.addons).Ok?
      && exists u :: IsFirst(users, s[1..17], u)
                     && Addons.ValidateFlow(Addons.ParseAddons(p.value.0.addons).value.flow, u.flow) == Err(error)
    case WriteFailed => Welcome(s, users)
  }

  /** The verdict on the bytes read is the verdict on the whole stream. */
  lemma VerdictOnStream(s: bytes, users: seq<User>)
    requires RequestLength(s).Some?
    ensures var v := Verdict(s[..RequestLength(s).value], users);
            && (v.Ok? <==> Welcome(s, users))
            && (v.Ok? ==> v.value == Handshake(ParseRequest(s).value.0.command, ParseRequest(s).value.0.target))
            && (forall e: HandshakeError :: !e.WriteFailed? ==> (v == Err(e) <==> Grounds(s, users, e)))
            && v != Err(WriteFailed)
  {
    CutKeepsVerdict(s);
    var full := s[..RequestLength(s).value];
    assert full[1..17] == s[1..17];
    var p, user := ParseRequest(s), Authenticate(users, s[1..17]);
    AuthenticateIsFirst(users, s[1..17]);
    hide ParseRequest, RequestLength, Authenticate, IsFirst, Configured, Addons.ParseAddons, Addons.ValidateFlow, Addons.Blank;
    if p.Ok? && user.Some? && Addons.ParseAddons(p.value.0.addons).Ok? {
      Addons.OnlyBlankFlowsPass(Addons.ParseAddons(p.value.0.addons).value.flow, user.value.flow);
    }
    assert user.Some? ==> IsFirst(users, s[1..17], user.value);
  }

  /** The handshake. It succeeds exactly on a welcome request, unless the write of the answer
      failed; it has then read that request and not a byte more. It is silent otherwise, and
      its error gives the reason. */
  method HandshakeInner(client: Stream, users: seq<User>) returns (r: Result<Handshake, HandshakeError>)
    modifies client
    ensures r.Ok? <==> Welcome(old(client.rest), users) && client.failures == old(client.failures)
    ensures r == Err(WriteFailed) <==> client.failures > old(client.failures)
    ensures r == Err(WriteFailed) ==> Grounds(old(client.rest), users, WriteFailed)
    ensures forall e: HandshakeError :: !e.WriteFailed? ==> (r == Err(e) <==> Grounds(old(client.rest), users, e))
    ensures r.Ok? ==>
              var (request, n) := ParseRequest(old(client.rest)).value;
              && r.value == Handshake(request.command, request.target)
              && client.rest == old(client.rest)[n..]
              && client.written == old(client.written) + [VERSION, 0]
    ensures r.Err? && !r.error.WriteFailed? ==> client.written == old(client.written)
  {
    ghost var s := client.rest;
    var full := ReadRequest(client);
    if ParseRequest(s).Ok? {
      ParsedLength(s);
    }
    if full.None? {
      return Err(ReadFailed);
    }
    VerdictOnStream(s, users);
    r := Verdict(full.value, users);
    if r.Ok? {
      var ok := client.WriteAll([VERSION, 0]);
      if !ok {
        r := Err(WriteFailed);
      }
    }
  }
}
