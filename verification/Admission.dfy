/** Which clients a relay lets through, whoever they are and however their bytes are cut into messages
    (server-stack/server/src/wire_relay.rs), and when the client can build its first chunk at all
    (wire-protocol/src/client.rs). */
module Admission {
  import opened Prelude
  import opened Framing
  import opened HostText
  import opened Tunnel
  import opened VmessRelay
  import Hex
  import ReplayCache
  import Socks5
  import Trojan
  import Vless
  import Vmess

  // ---- What becomes of every stream ----

  lemma ParserTight(env: Env, mode: Mode, params: Params, s: Situation)
    requires mode != RawTcpRelay
    ensures Tight(Tunnel.Parser(env, mode, params, s))
  {
    var p, net := Tunnel.Parser(env, mode, params, s), env.net;
    forall b: Bytes | p(b).Ready?
      ensures p(b).offset <= |b| && p(b[..p(b).offset]) == p(b)
    {
      VerdictTight(env, mode, params, s, b);
    }
  }

  lemma VerdictTight(env: Env, mode: Mode, params: Params, s: Situation, b: Bytes)
    requires mode != RawTcpRelay && ServerVerdict(env, mode, params, s, b).Ready?
    ensures var v := ServerVerdict(env, mode, params, s, b);
            v.offset <= |b| && ServerVerdict(env, mode, params, s, b[..v.offset]) == v
  {
    var net := env.net;
    var id := ConfiguredUuid(net, params);
    match mode {
      case VlessMode =>
        var q := Vless.Parser(net, if id.Ok? then Some(id.value) else None);
        Vless.ParserTight(net, if id.Ok? then Some(id.value) else None);
        assert q(b).Ready?;
      case TrojanMode =>
        var pw := if params.password.Some? then params.password.value else [];
        Trojan.ParserTight(net, env.sha224, pw);
        assert Trojan.Parser(net, env.sha224, pw)(b).Ready?;
      case VmessMode =>
        DecideTight(env.cipher, net, if id.Ok? then id.value else [], s, b);
      case Socks5Mode =>
        Socks5.ParserTight(net, Socks5Policy(params));
        assert Socks5.Parser(net, Socks5Policy(params))(b).Ready?;
    }
  }

  lemma DecideTight(c: Vmess.Cipher, net: Net, uuid: Bytes, s: Situation, b: Bytes)
    requires Decide(c, net, uuid, s, b).Ready?
    ensures var v := Decide(c, net, uuid, s, b);
            v.offset <= |b| && Decide(c, net, uuid, s, b[..v.offset]) == v
  {
    Vmess.OpenedWhole(c, net, uuid, s.now, b);
    var k := Decide(c, net, uuid, s, b).offset;
    assert Nonce(b[..k]) == Nonce(b);
  }

  /** A relay in a wire mode that starts ends with its parser's verdict on the whole stream, and writes what follows the
      handshake, unless a message it read is too large. */
  lemma RelayFate(env: Env, a: Attempt, s: Situation, chunks: seq<Bytes>)
    requires a.mode != RawTcpRelay && RelayStarts(env.net, a)
    ensures Fate(ServerVerdict(env, a.mode, a.params, s, Flatten(chunks)),
                 if a.mode == VlessMode || a.mode == Socks5Mode then Some(262144) else None, chunks,
                 Relay(env, a, s, chunks))
  {
    ParserFinal(env, a.mode, a.params, s);
    ParserTight(env, a.mode, a.params, s);
    EveryStream(Tunnel.Parser(env, a.mode, a.params, s), ChunkLimit(a.mode), chunks);
  }

  /** A relay that does not start refuses at once; it starts with a UUID that parses, with a password, or in raw mode
      with a target, to which it then connects. */
  lemma StartsIff(env: Env, a: Attempt, s: Situation, chunks: seq<Bytes>)
    ensures RelayStarts(env.net, a)
            <==> match a.mode
                 case RawTcpRelay => env.net.trim(a.host) != [] && a.port > 0
                 case TrojanMode => a.params.password.Some? && |a.params.password.value| > 0
                 case Socks5Mode => true
                 case _ => a.params.uuid.Some? && |env.net.trim(a.params.uuid.value)| > 0
                           && env.net.parseUuid(env.net.trim(a.params.uuid.value)).Some?
    ensures !RelayStarts(env.net, a) ==> Relay(env, a, s, chunks).verdict == Invalid
    ensures a.mode == RawTcpRelay && RelayStarts(env.net, a)
            ==> Relay(env, a, s, chunks).verdict == Ready(Endpoint(env.net.trim(a.host), a.port), 0)
  {
  }

  // ---- What a stream must carry to get through ----

  /** The UUID in a VLESS request is the configured one. */
  predicate VlessAuthentic(net: Net, params: Params, whole: Bytes) {
    && |whole| >= 17 && params.uuid.Some?
    && net.parseUuid(net.trim(params.uuid.value)) == Some(whole[1..17])
  }

  /** The stream starts with the hex digest of the configured password and a line break. */
  predicate TrojanAuthentic(sha224: Bytes -> Bytes, params: Params, whole: Bytes) {
    && params.password.Some? && params.password.value != []
    && Hex.Encode(sha224(params.password.value)) + [13, 10] <= whole
  }

  /** Where a VMess header ends. */
  function HeaderEnd(whole: Bytes): nat
    requires |whole| >= 14
  {
    14 + 256 * (whole[12] as nat) + whole[13] as nat
  }

  /** The header opens with the key of this UUID, its time stamp is within 120 seconds of the server clock, it asks for
      TCP, and its nonce is none of the last 50 000 accepted in the last 120 seconds. */
  predicate Opened(env: Env, id: Bytes, s: Situation, whole: Bytes) {
    && |whole| >= 14 && |whole| >= HeaderEnd(whole)
    && var plain := env.cipher.unseal(env.cipher.key(id), whole[..12], whole[14..HeaderEnd(whole)]);
    && plain.Some? && |plain.value| >= 12
    && Abs(s.now - FromBigEndian64(plain.value[..8])) <= 120 && plain.value[8] == 1
    && !ReplayCache.Remembered(s.accepted, 50_000, 120_000_000_000, whole[..12], s.at)
  }

  predicate VmessAuthentic(env: Env, params: Params, s: Situation, whole: Bytes) {
    && params.uuid.Some?
    && var id := env.net.parseUuid(env.net.trim(params.uuid.value));
    && id.Some? && Opened(env, id.value, s, whole)
  }

  /** The greeting is there. */
  predicate Greets(whole: Bytes) {
    |whole| >= 3 && whole[0] == 5 && |whole| >= 2 + whole[1] as nat
  }

  /** Behind a greeting of `off` bytes a username step is there. */
  predicate Names(whole: Bytes, off: nat) {
    && |whole| >= off + 3 && whole[off] == 1
    && var u := off + 2 + whole[off + 1] as nat;
    && u < |whole| && u + 1 + whole[u] as nat <= |whole|
  }

  /** With a username and a password configured, the stream offers the username method and carries both, in this order,
      up to white space; without, it offers the method without credentials. */
  predicate Socks5Authentic(net: Net, params: Params, whole: Bytes) {
    && Greets(whole)
    && var off := 2 + whole[1] as nat;
    && if params.username.None? || params.password.None? then 0 in whole[2..off]
       else
         && 2 in whole[2..off] && Names(whole, off)
         && var u := off + 2 + whole[off + 1] as nat;
         && Says(net, whole[off + 2..u], params.username.value)
         && Says(net, whole[u + 1..u + 1 + whole[u] as nat], params.password.value)
  }

  predicate Says(net: Net, got: Bytes, wanted: Bytes) {
    net.trim(if net.utf8(got) then got else []) == net.trim(wanted)
  }

  predicate Authentic(env: Env, a: Attempt, s: Situation, whole: Bytes) {
    match a.mode
    case RawTcpRelay => true
    case VlessMode => VlessAuthentic(env.net, a.params, whole)
    case TrojanMode => TrojanAuthentic(env.sha224, a.params, whole)
    case VmessMode => VmessAuthentic(env, a.params, s, whole)
    case Socks5Mode => Socks5Authentic(env.net, a.params, whole)
  }

  lemma VlessReady(env: Env, a: Attempt, s: Situation, whole: Bytes)
    requires a.mode == VlessMode && RelayStarts(env.net, a)
    ensures var v, q := ServerVerdict(env, a.mode, a.params, s, whole), Vless.ParseRequest(env.net, None, whole);
            && (v.Ready? <==> q.Ready? && VlessAuthentic(env.net, a.params, whole))
            && (v.Ready? ==> v == Ready(Endpoint(q.target.addr.HostString(env.net), q.target.port), q.offset))
            && (v.NeedMore? <==> q.NeedMore?)
  {
  }

  /** A first line of at least 56 bytes is there. */
  predicate LineEnds(whole: Bytes) {
    Trojan.FindCrlf(whole, 0).Some? && Trojan.FindCrlf(whole, 0).value >= 56
  }

  lemma TrojanReady(env: Env, a: Attempt, s: Situation, whole: Bytes)
    requires env.Lawful() && a.mode == TrojanMode && RelayStarts(env.net, a)
    ensures var v := ServerVerdict(env, a.mode, a.params, s, whole);
            && (v.Ready? ==> TrojanAuthentic(env.sha224, a.params, whole))
            && (LineEnds(whole) && !TrojanAuthentic(env.sha224, a.params, whole) ==> v == Invalid)
  {
    Trojan.AuthDecides(env.net, env.sha224, a.params.password.value, whole);
  }

  lemma VmessReady(env: Env, a: Attempt, s: Situation, whole: Bytes)
    requires a.mode == VmessMode && RelayStarts(env.net, a)
    ensures var v := ServerVerdict(env, a.mode, a.params, s, whole);
            && (v.Ready? ==> VmessAuthentic(env, a.params, s, whole))
            && (Complete(whole) && !VmessAuthentic(env, a.params, s, whole) ==> v == Invalid)
  {
    if Complete(whole) {
      var id := ConfiguredUuid(env.net, a.params).value;
      VmessOpened(env, id, s, whole);
    }
  }

  lemma VmessOpened(env: Env, id: Bytes, s: Situation, whole: Bytes)
    requires Complete(whole)
    ensures var v := Decide(env.cipher, env.net, id, s, whole);
            !v.NeedMore? && (v.Ready? ==> Opened(env, id, s, whole))
  {
    Vmess.OpenIgnoresTail(env.cipher, env.net, id, s.now, whole);
    Vmess.OpenedWhole(env.cipher, env.net, id, s.now, whole);
    var n := Vmess.OpenHeaderByteLen(whole).value;
    assert Nonce(whole) == whole[..12];
    var plain := env.cipher.unseal(env.cipher.key(id), whole[..12], whole[14..n]);
    if plain.Some? && |plain.value| >= 8 {
      assert plain.value[0..8] == plain.value[..8];
    }
  }

  /** The greeting is complete, and so are the credentials if the server asks for them and the greeting offers them. */
  predicate Socks5Presented(params: Params, whole: Bytes) {
    && Greets(whole)
    && var off := 2 + whole[1] as nat;
    params.username.Some? && params.password.Some? && 2 in whole[2..off] ==> Names(whole, off)
  }

  lemma Socks5Ready(env: Env, a: Attempt, s: Situation, whole: Bytes)
    requires a.mode == Socks5Mode
    ensures var v := ServerVerdict(env, a.mode, a.params, s, whole);
            && (v.Ready? ==> Socks5Authentic(env.net, a.params, whole))
            && (Socks5Presented(a.params, whole) && !Socks5Authentic(env.net, a.params, whole) ==> v == Invalid)
  {
    var pol := Socks5Policy(a.params);
    if ServerVerdict(env, a.mode, a.params, s, whole).Ready? {
      Socks5.ReadyHasStart(env.net, pol, whole);
    }
  }

  /** Whoever sends the messages, and however they are cut, a relay connects only for a stream that carries what the
      server's settings demand. */
  lemma ConnectedIsAuthentic(env: Env, a: Attempt, s: Situation, chunks: seq<Bytes>)
    requires env.Lawful() && Relay(env, a, s, chunks).verdict.Ready?
    ensures RelayStarts(env.net, a) && Authentic(env, a, s, Flatten(chunks))
  {
    if a.mode != RawTcpRelay {
      var whole := Flatten(chunks);
      RelayFate(env, a, s, chunks);
      match a.mode {
        case VlessMode => VlessReady(env, a, s, whole);
        case TrojanMode => TrojanReady(env, a, s, whole);
        case VmessMode => VmessReady(env, a, s, whole);
        case Socks5Mode => Socks5Ready(env, a, s, whole);
      }
    }
  }

  /** The credentials are all there. */
  predicate Presented(env: Env, a: Attempt, whole: Bytes) {
    match a.mode
    case RawTcpRelay => false
    case VlessMode => Vless.ParseRequest(env.net, None, whole).Ready?
    case TrojanMode => LineEnds(whole)
    case VmessMode => |whole| >= 14 && |whole| >= HeaderEnd(whole)
    case Socks5Mode => Socks5Presented(a.params, whole)
  }

  /** A stream that carries complete credentials other than the server's is refused. */
  lemma ForeignRefused(env: Env, a: Attempt, s: Situation, chunks: seq<Bytes>)
    requires env.Lawful() && Presented(env, a, Flatten(chunks)) && !Authentic(env, a, s, Flatten(chunks))
    ensures Relay(env, a, s, chunks).verdict == Invalid
  {
    if RelayStarts(env.net, a) {
      var whole := Flatten(chunks);
      RelayFate(env, a, s, chunks);
      match a.mode {
        case VlessMode => VlessReady(env, a, s, whole);
        case TrojanMode => TrojanReady(env, a, s, whole);
        case VmessMode => VmessReady(env, a, s, whole);
        case Socks5Mode => Socks5Ready(env, a, s, whole);
      }
    }
  }

  /** A SOCKS5 client that sends greeting, credentials and request at once to a server with a username and a password is
      connected exactly when its credentials are the server's, name by name, and refused otherwise. */
  lemma Socks5Credentials(env: Env, a: Attempt, s: Situation, methods: Bytes, user: Bytes, pass: Bytes, host: Bytes,
                          port: u16, rest: Bytes, chunks: seq<Bytes>)
    requires env.Lawful() && a.mode == Socks5Mode && a.params.username.Some? && a.params.password.Some?
    requires env.net.utf8(host) && Socks5.AddrBytes(env.net, host, port).Some?
    requires 0 < |methods| <= 255 && 2 in methods && |user| <= 255 && |pass| <= 255
    requires Flatten(chunks) == Socks5Stream(env.net, methods, user, pass, host, port) + rest
    requires ReadAdmitted(Some(262144), |Socks5Stream(env.net, methods, user, pass, host, port)|, chunks)
    ensures var right := Says(env.net, user, a.params.username.value) && Says(env.net, pass, a.params.password.value);
            var v := Relay(env, a, s, chunks).verdict;
            if right then v.Ready? && v.target == Endpoint(env.net.Canonical(host), port) else v == Invalid
  {
    var h := Socks5Stream(env.net, methods, user, pass, host, port);
    RelayFate(env, a, s, chunks);
    Socks5.CredentialsDecide(env.net, Socks5Policy(a.params), methods, user, pass, host, port, rest);
  }

  function Socks5Stream(net: Net, methods: Bytes, user: Bytes, pass: Bytes, host: Bytes, port: u16): Bytes
    requires |methods| <= 255 && |user| <= 255 && |pass| <= 255 && Socks5.AddrBytes(net, host, port).Some?
  {
    [5, |methods|] + methods + ([1, |user|] + user + [|pass|] + pass) + [5, 1, 0]
    + Socks5.AddrBytes(net, host, port).value
  }

  // ---- When the client can build its first chunk ----

  predicate IsIp(net: Net, host: Bytes) {
    net.parseV4(host).Some? || net.parseV6(host).Some?
  }

  /** What keeps a client from building its first chunk. */
  function Obstacle(net: Net, a: Attempt): Option<Error> {
    match a.mode
    case RawTcpRelay => None
    case VlessMode =>
      if a.params.uuid.None? then Some(ProtocolError)
      else if net.parseUuid(net.trim(a.params.uuid.value)).None? then Some(ParseError)
      else None
    case VmessMode =>
      if a.params.uuid.None? then Some(ProtocolError)
      else if net.parseUuid(net.trim(a.params.uuid.value)).None? then Some(ParseError)
      else if !IsIp(net, a.host) && |a.host| > 243 then Some(ProtocolError)
      else None
    case TrojanMode =>
      if a.params.password.None? || (!IsIp(net, a.host) && |a.host| > 255) then Some(ProtocolError) else None
    case Socks5Mode => if !IsIp(net, a.host) && |a.host| > 255 then Some(ProtocolError) else None
  }

  /** The first chunk can be built exactly when nothing in settings and host stands in the way, and fails with the error
      of what does. */
  lemma BuiltIff(env: Env, a: Attempt)
    requires env.Lawful()
    ensures var h, o := HandshakeBytes(env, a), Obstacle(env.net, a);
            if o.None? then h.Ok? else h == Err(o.value)
  {
    if a.mode == VmessMode && ConfiguredUuid(env.net, a.params).Ok? {
      var id, addr := ConfiguredUuid(env.net, a.params).value, HostToAddress(env.net, a.host);
      Vmess.BuiltIff(env.cipher, id, a.port, addr, a.sent, a.nonce);
    }
  }
}
