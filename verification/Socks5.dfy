/** SOCKS5 negotiation: RFC 1928, and user name and password as in RFC 1929. */
module Socks5 {
  import opened Bytes
  import opened ByteStream
  import opened Endpoints

  const VERSION: byte := 5
  const AUTH_VERSION: byte := 1
  const NO_AUTH: byte := 0
  const USER_PASS: byte := 2
  const NO_ACCEPTABLE: byte := 0xFF
  const CMD_CONNECT: byte := 1
  const CMD_BIND: byte := 2
  const CMD_UDP_ASSOCIATE: byte := 3
  const ATYP_IPV4: byte := 1
  const ATYP_DOMAIN: byte := 3
  const ATYP_IPV6: byte := 4
  const MAX_METHODS: nat := 16
  const REP_COMMAND_NOT_SUPPORTED: byte := 7
  const REP_ADDRESS_NOT_SUPPORTED: byte := 8

  datatype ParseError =
    | Incomplete(need: nat, have: nat)
    | BadVersion(found: byte)
    | ZeroMethods
    | TooManyMethods(count: nat)
    | BadAuthVersion(found: byte)
    | EmptyUsername
    | EmptyPassword
    | NonZeroRsv(rsv: byte)
    | UnsupportedCommand(command: byte)
    | UnsupportedAddressType(atyp: byte)
    | EmptyDomain
    | InvalidUtf8

  // ---------------------------------------------------------------- parsers

  function ParseGreeting(s: bytes): (r: Result<(bytes, nat), ParseError>)
    ensures r.Ok? ==> r.value.1 <= |s|
  {
    if |s| < 2 then Err(Incomplete(2, |s|))
    else if s[0] != VERSION then Err(BadVersion(s[0]))
    else if s[1] == 0 then Err(ZeroMethods)
    else if s[1] > MAX_METHODS then Err(TooManyMethods(s[1]))
    else
      var total: nat := s[1] as nat + 2;
      if |s| < total then Err(Incomplete(total, |s|)) else Ok((s[2..total], total))
  }

  function ParseAuth(s: bytes): (r: Result<((bytes, bytes), nat), ParseError>)
    ensures r.Ok? ==> r.value.1 <= |s|
  {
    if |s| < 2 then Err(Incomplete(2, |s|))
    else if s[0] != AUTH_VERSION then Err(BadAuthVersion(s[0]))
    else if s[1] == 0 then Err(EmptyUsername)
    else
      var u: nat := s[1] as nat + 2;
      if |s| < u + 1 then Err(Incomplete(u + 1, |s|))
      else if s[u] == 0 then Err(EmptyPassword)
      else
        var total: nat := u + 1 + s[u] as nat;
        if |s| < total then Err(Incomplete(total, |s|))
        else if !Utf8(s[2..u]) || !Utf8(s[u + 1..total]) then Err(InvalidUtf8)
        else Ok(((s[2..u], s[u + 1..total]), total))
  }

  /** The target of a message whose header takes four bytes, the last one the type. */
  function ParseTarget(s: bytes): Result<(Endpoint, nat), ParseError>
    requires |s| >= 4
  {
    if s[3] == ATYP_IPV4 then
      if |s| < 10 then Err(Incomplete(10, |s|)) else Ok((Ipv4(s[4..8], Word(s[8], s[9])), 10))
    else if s[3] == ATYP_IPV6 then
      if |s| < 22 then Err(Incomplete(22, |s|)) else Ok((Ipv6(s[4..20], Word(s[20], s[21])), 22))
    else if s[3] == ATYP_DOMAIN then
      if |s| < 5 then Err(Incomplete(5, |s|))
      else if s[4] == 0 then Err(EmptyDomain)
      else
        var d: nat := s[4] as nat + 5;
        if |s| < d + 2 then Err(Incomplete(d + 2, |s|))
        else if !Utf8(s[5..d]) then Err(InvalidUtf8)
        else Ok((Domain(s[5..d], Word(s[d], s[d + 1])), d + 2))
    else Err(UnsupportedAddressType(s[3]))
  }

  datatype Request = Request(command: byte, target: Endpoint)

  function ParseRequest(s: bytes): Result<(Request, nat), ParseError> {
    if |s| < 4 then Err(Incomplete(4, |s|))
    else if s[0] != VERSION then Err(BadVersion(s[0]))
    else if s[2] != 0 then Err(NonZeroRsv(s[2]))
    else if s[1] != CMD_CONNECT && s[1] != CMD_BIND && s[1] != CMD_UDP_ASSOCIATE then Err(UnsupportedCommand(s[1]))
    else
      match ParseTarget(s)
      case Err(e) => Err(e)
      case Ok((target, n)) => Ok((Request(s[1], target), n))
  }

  // ---------------------------------------------------------------- how much to read

  function GreetingLength(s: bytes): (n: Option<nat>)
    ensures n.Some? ==> n.value <= |s|
  {
    if |s| < 2 || s[1] > MAX_METHODS || |s| < s[1] as nat + 2 then None else Some(s[1] as nat + 2)
  }

  function AuthLength(s: bytes): (n: Option<nat>)
    ensures n.Some? ==> n.value <= |s|
  {
    if |s| < 2 || s[1] == 0 || |s| < s[1] as nat + 3 then None
    else
      var u: nat := s[1] as nat + 2;
      if s[u] == 0 || |s| < u + 1 + s[u] as nat then None else Some(u + 1 + s[u] as nat)
  }

  function RequestLength(s: bytes): (n: Option<nat>)
    ensures n.Some? ==> n.value <= |s|
  {
    if |s| < 4 then None
    else if s[3] == ATYP_IPV4 then if |s| < 10 then None else Some(10)
    else if s[3] == ATYP_IPV6 then if |s| < 22 then None else Some(22)
    else if s[3] == ATYP_DOMAIN then
      if |s| < 5 || s[4] == 0 || |s| < s[4] as nat + 7 then None else Some(s[4] as nat + 7)
    else None
  }

  /** A greeting is read where its length byte says, and means there what it means on the
      whole stream. */
  lemma GreetingCut(s: bytes)
    ensures ParseGreeting(s).Ok? ==> GreetingLength(s) == Some(ParseGreeting(s).value.1)
    ensures GreetingLength(s).Some? ==> ParseGreeting(s[..GreetingLength(s).value]) == ParseGreeting(s)
  {
    if GreetingLength(s).Some? {
      var n := GreetingLength(s).value;
      assert s[..n][2..n] == s[2..n];
    }
  }

  lemma AuthCut(s: bytes)
    ensures ParseAuth(s).Ok? ==> AuthLength(s) == Some(ParseAuth(s).value.1)
    ensures AuthLength(s).Some? ==> ParseAuth(s[..AuthLength(s).value]) == ParseAuth(s)
  {
    hide Utf8;
    if AuthLength(s).Some? {
      var n, u: nat := AuthLength(s).value, s[1] as nat + 2;
      assert s[..n][2..u] == s[2..u] && s[..n][u + 1..n] == s[u + 1..n];
    }
  }

  lemma TargetCut(s: bytes, n: nat)
    requires RequestLength(s) == Some(n)
    ensures ParseTarget(s[..n]) == ParseTarget(s)
  {
    hide Utf8;
    if s[3] == ATYP_IPV4 {
      SliceOfPrefix(s, n, 4, 8);
    } else if s[3] == ATYP_IPV6 {
      SliceOfPrefix(s, n, 4, 20);
    } else {
      SliceOfPrefix(s, n, 5, n - 2);
    }
  }

  lemma RequestCut(s: bytes)
    ensures ParseRequest(s).Ok? ==> RequestLength(s) == Some(ParseRequest(s).value.1)
    ensures RequestLength(s).Some? ==> ParseRequest(s[..RequestLength(s).value]) == ParseRequest(s)
  {
    hide Utf8;
    if RequestLength(s).Some? {
      TargetCut(s, RequestLength(s).value);
    }
  }

  // ---------------------------------------------------------------- readers

  method ReadGreeting(client: Stream) returns (r: Option<bytes>)
    modifies client`rest
    ensures var p := ParseGreeting(old(client.rest));
            match p
            case Ok((methods, n)) => r == Some(methods) && client.rest == old(client.rest)[n..]
            case Err(_) => r == None
  {
    GreetingCut(client.rest);
    var header := client.ReadExact(2);
    if header.None? || header.value[1] > MAX_METHODS {
      return None;
    }
    assert header.value + client.rest == old(client.rest);
    var buf := client.Extend(header.value, header.value[1]);
    if buf.None? {
      return None;
    }
    var parsed := ParseGreeting(buf.value);
    r := if parsed.Ok? then Some(parsed.value.0) else None;
  }

  /** Bytes of one authentication message, read as its two length bytes announce. */
  method ReadAuth(client: Stream) returns (r: Option<bytes>)
    modifies client`rest
    ensures match AuthLength(old(client.rest))
            case Some(n) => r == Some(old(client.rest)[..n]) && client.rest == old(client.rest)[n..]
            case None => r == None
  {
    ghost var s := client.rest;
    var header := client.ReadExact(2);
    if header.None? || header.value[1] == 0 {
      return None;
    }
    assert header.value + client.rest == s;
    var named := client.Extend(header.value, header.value[1]);
    if named.None? {
      return None;
    }
    assert named.value + client.rest == s;
    var counted := client.Extend(named.value, 1);
    if counted.None? {
      return None;
    }
    var buf := counted.value;
    var plen: nat := buf[|buf| - 1];
    if plen == 0 {
      return None;
    }
    assert buf + client.rest == s;
    r := client.Extend(buf, plen);
  }

  datatype RequestError = RequestReadFailed | BadRequest(request: ParseError) | Refused(code: byte)

  function Reply(code: byte): bytes {
    [VERSION, code, 0, ATYP_IPV4, 0, 0, 0, 0, 0, 0]
  }

  datatype AuthMethod = NoAuth | UserPass
  datatype Credential = Credential(username: bytes, password: bytes)
  datatype Config = Config(auth: AuthMethod, users: seq<Credential>, bind: bool, udpAssociate: bool)

  predicate Enabled(config: Config, command: byte) {
    (command == CMD_BIND ==> config.bind) && (command == CMD_UDP_ASSOCIATE ==> config.udpAssociate)
  }

  /** The header names an address the server cannot take. */
  predicate BadAddress(s: bytes) {
    && |s| >= 4 && s[3] != ATYP_IPV4 && s[3] != ATYP_IPV6
    && (s[3] == ATYP_DOMAIN ==> |s| >= 5 && s[4] == 0)
  }

  /** `answer` was written, or as much of it as went out before a write failed. */
  predicate Answered(before: bytes, after: bytes, answer: bytes, failed: bool) {
    before <= after <= before + answer && (!failed ==> after == before + answer)
  }

  lemma AnsweredTwice(a: bytes, b: bytes, c: bytes, first: bytes, second: bytes, failed: bool)
    requires Answered(a, b, first, false) && Answered(b, c, second, failed)
    ensures Answered(a, c, first + second, failed)
  {
    assert a + (first + second) == b + second;
  }

  /** Bytes of one request, read as its type and length announce. A bad address is answered
      at once. */
  method ReadRequestBytes(client: Stream) returns (r: Result<bytes, RequestError>)
    modifies client
    ensures match RequestLength(old(client.rest))
            case Some(n) => r == Ok(old(client.rest)[..n]) && client.rest == old(client.rest)[n..]
            case None => r == Err(if BadAddress(old(client.rest)) then Refused(REP_ADDRESS_NOT_SUPPORTED) else RequestReadFailed)
    ensures var reply := if BadAddress(old(client.rest)) then Reply(REP_ADDRESS_NOT_SUPPORTED) else [];
            Answered(old(client.written), client.written, reply, client.failures > old(client.failures))
    ensures client.failures >= old(client.failures)
    ensures r.Ok? ==> client.failures == old(client.failures)
  {
    hide Reply;
    ghost var s := client.rest;
    var header := client.ReadExact(4);
    if header.None? {
      return Err(RequestReadFailed);
    }
    var buf, atyp := header.value, header.value[3];
    assert buf + client.rest == s;
    var full: Option<bytes>;
    if atyp == ATYP_IPV4 {
      full := client.Extend(buf, 6);
    } else if atyp == ATYP_IPV6 {
      full := client.Extend(buf, 18);
    } else if atyp == ATYP_DOMAIN {
      var counted := client.Extend(buf, 1);
      if counted.None? {
        return Err(RequestReadFailed);
      }
      buf := counted.value;
      if buf[4] == 0 {
        var _ := client.WriteAll(Reply(REP_ADDRESS_NOT_SUPPORTED));
        return Err(Refused(REP_ADDRESS_NOT_SUPPORTED));
      }
      assert buf + client.rest == s;
      full := client.Extend(buf, buf[4] as nat + 2);
    } else {
      var _ := client.WriteAll(Reply(REP_ADDRESS_NOT_SUPPORTED));
      return Err(Refused(REP_ADDRESS_NOT_SUPPORTED));
    }
    r := if full.Some? then Ok(full.value) else Err(RequestReadFailed);
  }

  lemma BadAddressIsRefused(s: bytes)
    requires BadAddress(s)
    ensures ParseRequest(s).Err? && RequestLength(s).None?
  {
  }

  /** Read one request. It succeeds exactly on an enabled request, and has then read that
      request and not a byte more; the error tells exactly why it did not. */
  method ReadRequest(client: Stream, config: Config) returns (r: Result<Request, RequestError>)
    modifies client
    ensures var p := ParseRequest(old(client.rest));
            && (r.Ok? <==> p.Ok? && Enabled(config, p.value.0.command))
            && (r.Ok? ==> r.value == p.value.0 && client.rest == old(client.rest)[p.value.1..]
                          && client.written == old(client.written))
            && (r == Err(Refused(REP_COMMAND_NOT_SUPPORTED)) <==> p.Ok? && !Enabled(config, p.value.0.command))
            && (r == Err(Refused(REP_ADDRESS_NOT_SUPPORTED)) <==> BadAddress(old(client.rest)))
            && (forall e :: r == Err(BadRequest(e)) <==> p == Err(e) && RequestLength(old(client.rest)).Some?)
            && (r == Err(RequestReadFailed) <==> RequestLength(old(client.rest)).None? && !BadAddress(old(client.rest)))
    ensures var reply := if r.Err? && r.error.Refused? then Reply(r.error.code) else [];
            Answered(old(client.written), client.written, reply, client.failures > old(client.failures))
    ensures client.failures >= old(client.failures)
    ensures r.Ok? ==> client.failures == old(client.failures)
  {
    hide ParseRequest, RequestLength, BadAddress, Enabled, Reply;
    RequestCut(client.rest);
    if BadAddress(client.rest) {
      BadAddressIsRefused(client.rest);
    }
    var full := ReadRequestBytes(client);
    if full.Err? {
      return Err(full.error);
    }
    var parsed := ParseRequest(full.value);
    if parsed.Err? {
      return Err(BadRequest(parsed.error));
    }
    var request := parsed.value.0;
    if !Enabled(config, request.command) {
      var _ := client.WriteAll(Reply(REP_COMMAND_NOT_SUPPORTED));
      return Err(Refused(REP_COMMAND_NOT_SUPPORTED));
    }
    r := Ok(request);
  }

  // ---------------------------------------------------------------- the negotiation

  function SelectMethod(methods: bytes, config: Config): byte {
    var wanted := if config.auth.NoAuth? then NO_AUTH else USER_PASS;
    if wanted in methods then wanted else NO_ACCEPTABLE
  }

  function Lookup(users: seq<Credential>, username: bytes): Option<bytes> {
    if users == [] then None
    else if users[0].username == username then Some(users[0].password)
    else Lookup(users[1..], username)
  }

  /** "__no_such_user__", compared against when the name is unknown. */
  const STAND_IN: bytes := [95, 95, 110, 111, 95, 115, 117, 99, 104, 95, 117, 115, 101, 114, 95, 95]

  predicate PasswordMatches(users: seq<Credential>, username: bytes, password: bytes) {
    var known := Lookup(users, username);
    password == if known.Some? then known.value else STAND_IN
  }

  /** Length of an authentication message with the right password. */
  function GoodAuth(s: bytes, users: seq<Credential>): (n: Option<nat>)
    ensures n.Some? ==> n.value <= |s|
  {
    match ParseAuth(s)
    case Err(_) => None
    case Ok(((username, password), n)) => if PasswordMatches(users, username, password) then Some(n) else None
  }

  /** Bytes taken by a greeting and authentication that succeed. */
  function Login(s: bytes, config: Config): (r: Option<nat>)
    ensures r.Some? ==> r.value <= |s|
  {
    match ParseGreeting(s)
    case Err(_) => None
    case Ok((methods, n)) =>
      if SelectMethod(methods, config) == NO_ACCEPTABLE then None
      else if config.auth.NoAuth? then Some(n)
      else
        match GoodAuth(s[n..], config.users)
        case None => None
        case Some(m) => Some(n + m)
  }

  // ---------------------------------------------------------------- who is let in

  predicate Listed(users: seq<Credential>, name: bytes) {
    exists i :: 0 <= i < |users| && users[i].username == name
  }

  /** `name` is listed, and its first entry has this password. */
  ghost predicate FirstListed(users: seq<Credential>, name: bytes, password: bytes) {
    exists i :: 0 <= i < |users| && users[i] == Credential(name, password) && !Listed(users[..i], name)
  }

  lemma FirstIsListed(users: seq<Credential>)
    requires users != []
    ensures Listed(users, users[0].username)
  {
  }

  lemma HeadDoesNotList(users: seq<Credential>, name: bytes)
    requires users != [] && users[0].username != name
    ensures Listed(users, name) <==> Listed(users[1..], name)
  {
    if Listed(users, name) {
      var i :| 0 <= i < |users| && users[i].username == name;
      assert users[1..][i - 1].username == name;
    }
  }

  lemma TailLists(users: seq<Credential>, name: bytes)
    requires users != [] && users[0].username != name
    ensures Listed(users, name) <==> Listed(users[1..], name)
    ensures forall password :: FirstListed(users, name, password) <==> FirstListed(users[1..], name, password)
  {
    forall i | 0 <= i < |users[1..]|
      ensures users[1..][i] == users[i + 1] && users[..i + 1][1..] == users[1..][..i]
      ensures Listed(users[1..][..i], name) <==> Listed(users[..i + 1], name)
    {
      HeadDoesNotList(users[..i + 1], name);
    }
    HeadDoesNotList(users, name);
  }

  lemma {:induction false} LookupIsFirst(users: seq<Credential>, name: bytes)
    ensures match Lookup(users, name)
            case None => !Listed(users, name)
            case Some(password) => Listed(users, name) && FirstListed(users, name, password)
    ensures forall password :: FirstListed(users, name, password) ==> Lookup(users, name) == Some(password)
  {
    if users != [] {
      LookupIsFirst(users[1..], name);
      if users[0].username == name {
        assert users[0] == Credential(name, users[0].password) && !Listed(users[..0], name);
        forall password | FirstListed(users, name, password)
          ensures password == users[0].password
        {
          var i :| 0 <= i < |users| && users[i] == Credential(name, password) && !Listed(users[..i], name);
          if i > 0 {
            FirstIsListed(users[..i]);
            assert false;
          }
        }
      } else {
        TailLists(users, name);
      }
    }
  }

  /** The credential is the first one listed under its name; or the name is not listed and the
      password is the stand-in. */
  ghost predicate Accepts(users: seq<Credential>, name: bytes, password: bytes) {
    FirstListed(users, name, password) || (!Listed(users, name) && password == STAND_IN)
  }

  /** A message is accepted exactly when its name is listed and this is the password of its
      first entry, or when the name is not listed and the password is the stand-in. */
  lemma AcceptedExactly(s: bytes, users: seq<Credential>)
    requires ParseAuth(s).Ok?
    ensures var ((name, password), _) := ParseAuth(s).value;
            GoodAuth(s, users).Some? <==> Accepts(users, name, password)
  {
    hide ParseAuth, Listed, FirstListed, STAND_IN;
    LookupIsFirst(users, ParseAuth(s).value.0.0);
  }

  /** Acceptance stands for a configured credential exactly when the name is listed or the
      password is not the stand-in. */
  lemma AcceptanceMeansCredential(s: bytes, users: seq<Credential>)
    requires ParseAuth(s).Ok?
    ensures var ((name, password), _) := ParseAuth(s).value;
            (GoodAuth(s, users).Some? ==> Credential(name, password) in users) <==>
            Listed(users, name) || password != STAND_IN
  {
    AcceptedExactly(s, users);
    hide ParseAuth, STAND_IN, Lookup, GoodAuth;
  }

  function AuthMessage(name: bytes, password: bytes): bytes
    requires 1 <= |name| <= 255 && 1 <= |password| <= 255
  {
    [AUTH_VERSION, |name|] + name + [|password|] + password
  }

  lemma AuthLayout(name: bytes, password: bytes, t: bytes)
    requires 1 <= |name| <= 255 && 1 <= |password| <= 255
    ensures var s, u, n := AuthMessage(name, password) + t, 2 + |name|, |AuthMessage(name, password)|;
            && n == u + 1 + |password| <= |s|
            && s[0] == AUTH_VERSION && s[1] == |name| && s[u] == |password|
            && s[2..u] == name && s[u + 1..n] == password
  {
  }

  lemma ParsesAs(s: bytes, u: nat, n: nat, name: bytes, password: bytes)
    requires 2 < u < n <= |s| && s[0] == AUTH_VERSION && s[1] as nat + 2 == u && s[u] > 0 && u + 1 + s[u] as nat == n
    requires s[2..u] == name && s[u + 1..n] == password
    ensures ParseAuth(s) == if Utf8(name) && Utf8(password) then Ok(((name, password), n)) else Err(InvalidUtf8)
  {
    hide Utf8;
  }

  /** An authentication message reads back from the front of any bytes exactly when both
      texts are UTF-8. */
  lemma AuthReadsBack(name: bytes, password: bytes, t: bytes)
    requires 1 <= |name| <= 255 && 1 <= |password| <= 255
    ensures var m := AuthMessage(name, password);
            ParseAuth(m + t) == Ok(((name, password), |m|)) <==> Utf8(name) && Utf8(password)
  {
    hide *;
    AuthLayout(name, password, t);
    var m := AuthMessage(name, password);
    ParsesAs(m + t, 2 + |name|, |m|, name, password);
  }

  function GreetingMessage(methods: bytes): bytes
    requires |methods| <= 255
  {
    [5, |methods|] + methods
  }

  /** A greeting reads back from the front of any bytes exactly with 1 to 16 methods. */
  lemma GreetingReadsBack(methods: bytes, t: bytes)
    requires |methods| <= 255
    ensures var g := GreetingMessage(methods);
            ParseGreeting(g + t) ==
            if methods == [] then Err(ZeroMethods)
            else if |methods| > 16 then Err(TooManyMethods(|methods|))
            else Ok((methods, |g|))
  {
    var s := GreetingMessage(methods) + t;
    assert s[0] == 5 && s[1] as nat == |methods| && s[2..2 + |methods|] == methods;
  }

  /** The server wants method 2 for a password and 0 for none, wherever the client lists it. */
  lemma MethodExactly(methods: bytes, config: Config)
    ensures SelectMethod(methods, config) != 255 <==> if config.auth.NoAuth? then 0 in methods else 2 in methods
    ensures SelectMethod(methods, config) != 255 ==> SelectMethod(methods, config) == if config.auth.NoAuth? then 0 else 2
  {
  }

  lemma DropHead(a: bytes, b: bytes)
    ensures (a + b)[|a|..] == b
  {
  }

  lemma LoginBehind(s: bytes, config: Config, methods: bytes, n: nat)
    requires ParseGreeting(s) == Ok((methods, n))
    ensures var m := GoodAuth(s[n..], config.users);
            Login(s, config) ==
            if SelectMethod(methods, config) == 255 then None
            else if config.auth.NoAuth? then Some(n)
            else if m.Some? then Some(n + m.value) else None
  {
    hide ParseGreeting, GoodAuth, SelectMethod;
  }

  lemma GreetingIsTaken(config: Config, methods: bytes, t: bytes)
    requires 1 <= |methods| <= 16
    ensures var g, m := GreetingMessage(methods), GoodAuth(t, config.users);
            Login(g + t, config) ==
            if config.auth.NoAuth? then (if 0 in methods then Some(|g|) else None)
            else if 2 in methods && m.Some? then Some(|g| + m.value) else None
  {
    hide *;
    var g := GreetingMessage(methods);
    GreetingReadsBack(methods, t);
    MethodExactly(methods, config);
    DropHead(g, t);
    LoginBehind(g + t, config, methods, |g|);
  }

  lemma GoodAuthLength(s: bytes, users: seq<Credential>)
    ensures GoodAuth(s, users).Some? ==> ParseAuth(s).Ok? && GoodAuth(s, users).value == ParseAuth(s).value.1
  {
    hide ParseAuth, PasswordMatches;
  }

  /** The whole login, for any methods, name and password that are UTF-8 and fit. */
  lemma LoginExactly(config: Config, methods: bytes, name: bytes, password: bytes, t: bytes)
    requires config.auth.UserPass? && 1 <= |methods| <= 16
    requires 1 <= |name| <= 255 && 1 <= |password| <= 255 && Utf8(name) && Utf8(password)
    ensures var g, m, users := GreetingMessage(methods), AuthMessage(name, password), config.users;
            Login(g + (m + t), config) == if 2 in methods && Accepts(users, name, password) then Some(|g| + |m|) else None
  {
    hide *;
    var m := AuthMessage(name, password);
    AuthReadsBack(name, password, t);
    AcceptedExactly(m + t, config.users);
    GreetingIsTaken(config, methods, m + t);
    GoodAuthLength(m + t, config.users);
  }

  lemma StandInFits()
    ensures |STAND_IN| == 16 && Utf8(STAND_IN)
  {
    assert |STAND_IN| == 16 && forall i :: 0 <= i < |STAND_IN| ==> STAND_IN[i] < 0x80;
    hide Utf8, STAND_IN;
    AsciiIsUtf8(STAND_IN);
  }

  lemma StandInStands(users: seq<Credential>, name: bytes)
    requires !Listed(users, name)
    ensures Accepts(users, name, STAND_IN)
  {
    hide Listed, STAND_IN;
  }

  /** Any name that is not listed gets in with the stand-in, through the whole login. */
  lemma StandInIsAccepted(config: Config, methods: bytes, name: bytes, t: bytes)
    requires config.auth.UserPass? && !Listed(config.users, name) && 1 <= |methods| <= 16 && 2 in methods
    requires 1 <= |name| <= 255 && Utf8(name)
    ensures |STAND_IN| == 16
    ensures var g, m := GreetingMessage(methods), AuthMessage(name, STAND_IN);
            Login(g + (m + t), config) == Some(|g| + |m|)
  {
    hide *;
    StandInFits();
    StandInStands(config.users, name);
    LoginExactly(config, methods, name, STAND_IN, t);
  }

  // ---------------------------------------------------------------- what is accepted

  /** The replies on the way there. */
  function LoginReplies(config: Config): bytes {
    if config.auth.NoAuth? then [VERSION, NO_AUTH] else [VERSION, USER_PASS, AUTH_VERSION, 0]
  }

  /** What the client's bytes negotiate, message by message, and how many they are. */
  function Negotiation(s: bytes, config: Config): Option<(Request, nat)> {
    match Login(s, config)
    case None => None
    case Some(n) =>
      match ParseRequest(s[n..])
      case Err(_) => None
      case Ok((request, m)) => if Enabled(config, request.command) then Some((request, n + m)) else None
  }

  /** The answer to an authentication message: version 1 and 0 or 1. */
  ghost function AuthAnswer(s: bytes, users: seq<Credential>): bytes {
    match ParseAuth(s)
    case Err(_) => []
    case Ok(((name, password), _)) => [1, if Accepts(users, name, password) then 0 else 1]
  }

  /** The answers to a greeting and what follows it: version 5 and the method taken, 255 for
      none, then the answer to the authentication. */
  ghost function LoginAnswer(s: bytes, config: Config): bytes {
    match ParseGreeting(s)
    case Err(_) => []
    case Ok((methods, n)) =>
      if config.auth.NoAuth? then [5, if 0 in methods then 0 else 255]
      else if 2 in methods then [5, 2] + AuthAnswer(s[n..], config.users)
      else [5, 255]
  }

  /** The answer to a request that is refused; a served one is answered later. */
  function RequestAnswer(s: bytes, config: Config): bytes {
    var p := ParseRequest(s);
    if BadAddress(s) then Reply(REP_ADDRESS_NOT_SUPPORTED)
    else if p.Ok? && !Enabled(config, p.value.0.command) then Reply(REP_COMMAND_NOT_SUPPORTED)
    else []
  }

  ghost function NegotiationAnswer(s: bytes, config: Config): bytes {
    LoginAnswer(s, config) + if Login(s, config).Some? then RequestAnswer(s[Login(s, config).value..], config) else []
  }

  method PerformAuth(client: Stream, config: Config) returns (ok: bool)
    modifies client
    ensures var answer := AuthAnswer(old(client.rest), config.users);
            Answered(old(client.written), client.written, answer, client.failures > old(client.failures))
    ensures client.failures >= old(client.failures)
    ensures var n := GoodAuth(old(client.rest), config.users);
            && (ok <==> n.Some? && client.failures == old(client.failures))
            && (ok ==> client.rest == old(client.rest)[n.value..]
                       && client.written == old(client.written) + [AUTH_VERSION, 0])
  {
    AuthCut(client.rest);
    ghost var s := client.rest;
    var buf := ReadAuth(client);
    if buf.None? {
      return false;
    }
    hide ParseAuth, PasswordMatches, Accepts;
    if ParseAuth(s).Ok? {
      AcceptedExactly(s, config.users);
    }
    var parsed := ParseAuth(buf.value);
    if parsed.Err? {
      return false;
    }
    var ((username, password), _) := parsed.value;
    ok := PasswordMatches(config.users, username, password);
    var written := client.WriteAll([AUTH_VERSION, if ok then 0 else 1]);
    ok := ok && written;
  }

  method LogIn(client: Stream, config: Config) returns (ok: bool)
    modifies client
    ensures var answer := LoginAnswer(old(client.rest), config);
            Answered(old(client.written), client.written, answer, client.failures > old(client.failures))
    ensures client.failures >= old(client.failures)
    ensures var v := Login(old(client.rest), config);
            && (ok <==> v.Some? && client.failures == old(client.failures))
            && (ok ==> client.rest == old(client.rest)[v.value..]
                       && client.written == old(client.written) + LoginReplies(config))
  {
    hide ParseGreeting, GoodAuth, AuthAnswer;
    var methods := ReadGreeting(client);
    if methods.None? {
      return false;
    }
    var selected := SelectMethod(methods.value, config);
    ok := client.WriteAll([VERSION, selected]);
    if !ok || selected == NO_ACCEPTABLE {
      return false;
    }
    if selected == USER_PASS {
      ghost var greeted, answer := client.written, AuthAnswer(client.rest, config.users);
      ok := PerformAuth(client, config);
      AnsweredTwice(old(client.written), greeted, client.written, [5, 2], answer, client.failures > old(client.failures));
    }
  }

  /** The whole negotiation. It succeeds exactly on the bytes `Negotiation` accepts, unless
      a write failed; it has then read those and not a byte more. Every message is answered. */
  method NegotiateInner(client: Stream, config: Config) returns (r: Option<Request>)
    modifies client
    ensures var answer := NegotiationAnswer(old(client.rest), config);
            Answered(old(client.written), client.written, answer, client.failures > old(client.failures))
    ensures var v := Negotiation(old(client.rest), config);
            && (r.Some? <==> v.Some? && client.failures == old(client.failures))
            && (r.Some? ==> r.value == v.value.0 && v.value.1 <= |old(client.rest)|
                            && client.rest == old(client.rest)[v.value.1..]
                            && client.written == old(client.written) + LoginReplies(config))
  {
    hide Login, ParseRequest, Enabled, LoginReplies, LoginAnswer, BadAddress, Reply;
    ghost var s := client.rest;
    var ok := LogIn(client, config);
    if !ok {
      return None;
    }
    RequestCut(client.rest);
    ghost var met, login, answer := client.written, LoginAnswer(s, config), RequestAnswer(client.rest, config);
    var request := ReadRequest(client, config);
    AnsweredTwice(old(client.written), met, client.written, login, answer, client.failures > old(client.failures));
    r := if request.Ok? then Some(request.value) else None;
  }

  // ---------------------------------------------------------------- datagrams

  function ParseDatagram(s: bytes): Result<(Endpoint, nat), ParseError> {
    if |s| < 4 then Err(Incomplete(4, |s|))
    else if s[0] != 0 || s[1] != 0 then Err(NonZeroRsv(s[0]))
    else if s[2] != 0 then Err(UnsupportedCommand(s[2]))
    else ParseTarget(s)
  }

  function EncodeTarget(e: Endpoint): bytes
    requires IsEndpoint(e)
  {
    match e
    case Ipv4(octets, port) => [ATYP_IPV4] + octets + WordBytes(port)
    case Ipv6(octets, port) => [ATYP_IPV6] + octets + WordBytes(port)
    case Domain(name, port) =>
      var n := Min(|name|, 255);
      [ATYP_DOMAIN, n] + name[..n] + WordBytes(port)
  }

  function EncodeDatagram(e: Endpoint, payload: bytes): bytes
    requires IsEndpoint(e)
  {
    [0, 0, 0] + EncodeTarget(e) + payload
  }

  lemma AddressLayout(h: bytes, atyp: byte, octets: bytes, p: bytes, t: bytes)
    requires |h| == 3 && |p| == 2
    ensures var s, n := h + (([atyp] + octets + p) + t), |octets|;
            |s| >= 6 + n && s[3] == atyp && s[4..4 + n] == octets && s[4 + n] == p[0] && s[5 + n] == p[1]
  {
  }

  lemma AddressReadsBack(h: bytes, e: Endpoint, t: bytes)
    requires |h| == 3 && IsEndpoint(e) && !e.Domain?
    ensures ParseTarget(h + (EncodeTarget(e) + t)) == Ok((e, 3 + |EncodeTarget(e)|))
  {
    AddressLayout(h, if e.Ipv4? then ATYP_IPV4 else ATYP_IPV6, e.octets, WordBytes(e.port), t);
  }

  lemma NameLayout(h: bytes, name: bytes, n: nat, p: bytes, t: bytes)
    requires |h| == 3 && n <= |name| && n <= 255 && |p| == 2
    ensures var s := h + (([ATYP_DOMAIN, n] + name[..n] + p) + t);
            |s| >= 7 + n && s[3] == ATYP_DOMAIN && s[4] == n && s[5..5 + n] == name[..n] && s[5 + n] == p[0] && s[6 + n] == p[1]
  {
  }

  lemma NameReadsBack(h: bytes, e: Endpoint, t: bytes)
    requires |h| == 3 && IsEndpoint(e) && e.Domain?
    ensures ParseTarget(h + (EncodeTarget(e) + t)) == Ok((e, 3 + |EncodeTarget(e)|)) <==> 1 <= |e.name| <= 255
  {
    var n := Min(|e.name|, 255);
    NameLayout(h, e.name, n, WordBytes(e.port), t);
    assert |e.name| <= 255 ==> e.name[..n] == e.name;
    hide Utf8;
  }

  /** The target behind any three bytes reads back exactly when its name fits. */
  lemma TargetReadsBack(h: bytes, e: Endpoint, t: bytes)
    requires |h| == 3 && IsEndpoint(e)
    ensures ParseTarget(h + (EncodeTarget(e) + t)) == Ok((e, 3 + |EncodeTarget(e)|)) <==> Encodable(e)
    ensures |EncodeTarget(e)| > 0
  {
    hide ParseTarget, Utf8;
    if e.Domain? {
      NameReadsBack(h, e, t);
    } else {
      AddressReadsBack(h, e, t);
    }
  }

  /** A datagram reads back, payload last, exactly when its name has 1 to 255 bytes. */
  lemma DatagramReadsBack(e: Endpoint, payload: bytes)
    requires IsEndpoint(e)
    ensures var s, n := EncodeDatagram(e, payload), 3 + |EncodeTarget(e)|;
            s[n..] == payload && (ParseDatagram(s) == Ok((e, n)) <==> Encodable(e))
  {
    hide ParseTarget, EncodeTarget, Utf8, Encodable;
    TargetReadsBack([0, 0, 0], e, payload);
    assert EncodeDatagram(e, payload) == [0, 0, 0] + (EncodeTarget(e) + payload);
  }

  /** A request as section 4 of RFC 1928 writes it: version, command, a zero, the target. */
  function EncodeRequest(command: byte, e: Endpoint): bytes
    requires IsEndpoint(e)
  {
    [5, command, 0] + EncodeTarget(e)
  }

  /** A request reads back from the front of any bytes exactly when its command is one of the
      three and its name fits; other commands are named in the error. */
  lemma RequestReadsBack(command: byte, e: Endpoint, t: bytes)
    requires IsEndpoint(e)
    ensures var s := EncodeRequest(command, e);
            && (ParseRequest(s + t) == Ok((Request(command, e), |s|)) <==> 1 <= command <= 3 && Encodable(e))
            && (!(1 <= command <= 3) ==> ParseRequest(s + t) == Err(UnsupportedCommand(command)))
  {
    hide ParseTarget, EncodeTarget, Utf8, Encodable;
    TargetReadsBack([5, command, 0], e, t);
    assert EncodeRequest(command, e) + t == [5, command, 0] + (EncodeTarget(e) + t);
  }

  /** How much of a request is read depends on its target alone. */
  lemma LengthIsTarget(h: bytes, e: Endpoint, t: bytes)
    requires |h| == 3 && IsEndpoint(e) && Encodable(e)
    ensures RequestLength(h + (EncodeTarget(e) + t)) == Some(3 + |EncodeTarget(e)|)
  {
    if e.Domain? {
      NameLayout(h, e.name, |e.name|, WordBytes(e.port), t);
    } else {
      AddressLayout(h, if e.Ipv4? then ATYP_IPV4 else ATYP_IPV6, e.octets, WordBytes(e.port), t);
    }
    hide WordBytes, Utf8;
  }

  // ---------------------------------------------------------------- whole negotiations

  /** A command is served when it is CONNECT, or BIND or UDP ASSOCIATE and that is enabled. */
  predicate Served(config: Config, command: byte) {
    command == 1 || (command == 2 && config.bind) || (command == 3 && config.udpAssociate)
  }

  lemma NegotiationBehind(s: bytes, config: Config)
    ensures Login(s, config).None? ==> Negotiation(s, config) == None
    ensures Login(s, config).Some? ==>
              var n := Login(s, config).value;
              var p := ParseRequest(s[n..]);
              Negotiation(s, config) ==
              if p.Ok? && Enabled(config, p.value.0.command) then Some((p.value.0, n + p.value.1)) else None
  {
    hide Login, ParseRequest, Enabled;
  }

  lemma ServedIsEnabled(config: Config, command: byte)
    ensures Served(config, command) <==> 1 <= command <= 3 && Enabled(config, command)
  {
  }

  lemma RequestIsTaken(config: Config, login: bytes, command: byte, e: Endpoint, t: bytes)
    requires IsEndpoint(e) && Encodable(e)
    requires var q := EncodeRequest(command, e); Login(login + (q + t), config) == Some(|login|)
    ensures var q := EncodeRequest(command, e);
            Negotiation(login + (q + t), config) ==
            if Served(config, command) then Some((Request(command, e), |login| + |q|)) else None
  {
    hide *;
    var q := EncodeRequest(command, e);
    RequestReadsBack(command, e, t);
    DropHead(login, q + t);
    NegotiationBehind(login + (q + t), config);
    ServedIsEnabled(config, command);
  }

  /** Without a password: a greeting that lists method 0 and a request are negotiated exactly
      when the command is served. */
  lemma NegotiatesFreely(config: Config, methods: bytes, command: byte, e: Endpoint, t: bytes)
    requires config.auth.NoAuth? && 1 <= |methods| <= 16 && IsEndpoint(e) && Encodable(e)
    ensures var g, q := GreetingMessage(methods), EncodeRequest(command, e);
            Negotiation(g + (q + t), config) ==
            if 0 in methods && Served(config, command) then Some((Request(command, e), |g| + |q|)) else None
  {
    hide *;
    var g, q := GreetingMessage(methods), EncodeRequest(command, e);
    GreetingIsTaken(config, methods, q + t);
    NegotiationBehind(g + (q + t), config);
    if 0 in methods {
      RequestIsTaken(config, g, command, e, t);
    }
  }

  lemma Regroup(a: bytes, b: bytes, c: bytes)
    ensures a + (b + c) == (a + b) + c
  {
  }

  /** With a password: exactly when method 2 is listed, the credential is accepted and the
      command is served. */
  lemma NegotiatesWithPassword(config: Config, methods: bytes, name: bytes, password: bytes,
                               command: byte, e: Endpoint, t: bytes)
    requires config.auth.UserPass? && 1 <= |methods| <= 16 && IsEndpoint(e) && Encodable(e)
    requires 1 <= |name| <= 255 && 1 <= |password| <= 255 && Utf8(name) && Utf8(password)
    ensures var g, m, q := GreetingMessage(methods), AuthMessage(name, password), EncodeRequest(command, e);
            Negotiation(g + (m + (q + t)), config) ==
            if 2 in methods && Accepts(config.users, name, password) && Served(config, command)
            then Some((Request(command, e), |g| + |m| + |q|)) else None
  {
    hide *;
    var g, m, q := GreetingMessage(methods), AuthMessage(name, password), EncodeRequest(command, e);
    var s := g + (m + (q + t));
    LoginExactly(config, methods, name, password, q + t);
    NegotiationBehind(s, config);
    if Login(s, config).Some? {
      Regroup(g, m, q + t);
      assert Login((g + m) + (q + t), config) == Some(|g + m|);
      RequestIsTaken(config, g + m, command, e, t);
    }
  }
}
