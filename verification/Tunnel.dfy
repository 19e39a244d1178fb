/** A tunnel end to end: the client's Open message and first data chunk (local-stack/client/src/board.rs and
    wire-protocol/src/client.rs) against the relay that reads them (server-stack/server/src/deploy_service.rs and
    wire_relay.rs). */
module Tunnel {
  import opened Prelude
  import opened Framing
  import opened HostText
  import Vless
  import Trojan
  import Vmess
  import Socks5
  import opened VmessRelay

  /** In raw mode the Open message names the target; in the other modes the first data bytes do. */
  datatype Mode = RawTcpRelay | VlessMode | TrojanMode | VmessMode | Socks5Mode

  datatype Params = Params(uuid: Option<Bytes>, password: Option<Bytes>, username: Option<Bytes>)

  datatype Error = ProtocolError | ParseError

  /** Library functions, with the laws used of them. */
  datatype Env = Env(net: Net, sha224: Bytes -> Bytes, cipher: Vmess.Cipher)
  {
    ghost predicate Lawful() {
      && net.Lawful()
      && net.parseUuid([]) == None
      && cipher.Lawful()
      && (forall t: Bytes :: |sha224(t)| == 28)
    }
  }

  /** One connection attempt: what both ends are configured with, the target, and the client's clock and nonce. */
  datatype Attempt = Attempt(mode: Mode, params: Params, host: Bytes, port: u16, sent: i64, nonce: Bytes)
  {
    predicate Typed(net: Net) {
      net.utf8(host) && |nonce| == Vmess.NONCE_LEN
    }
  }

  function HostToAddress(net: Net, host: Bytes): Vless.Address {
    if net.parseV4(host).Some? then Vless.IpV4(net.parseV4(host).value)
    else if net.parseV6(host).Some? then Vless.IpV6(net.parseV6(host).value)
    else Vless.Domain(host)
  }

  function ConfiguredUuid(net: Net, params: Params): Result<Bytes, Error> {
    if params.uuid.None? then Err(ProtocolError)
    else
      match net.parseUuid(net.trim(params.uuid.value))
      case None => Err(ParseError)
      case Some(id) => Ok(id)
  }

  function OrProtocolError(h: Option<Bytes>): Result<Bytes, Error> {
    if h.Some? then Ok(h.value) else Err(ProtocolError)
  }

  /** The handshake bytes a mode puts in front of the payload. */
  function HandshakeBytes(env: Env, a: Attempt): Result<Bytes, Error> {
    var net := env.net;
    match a.mode
    case RawTcpRelay => Ok([])
    case VlessMode =>
      var id := ConfiguredUuid(net, a.params);
      if id.Err? then id else Ok(Vless.Header(id.value, a.port, HostToAddress(net, a.host)))
    case TrojanMode =>
      if a.params.password.None? then Err(ProtocolError)
      else
        var addr := Trojan.AddressBytes(net, Trojan.Addr(a.host, a.port));
        if addr.None? then Err(ProtocolError)
        else Ok(Trojan.AuthLine(env.sha224, a.params.password.value) + addr.value)
    case VmessMode =>
      var id := ConfiguredUuid(net, a.params);
      if id.Err? then id
      else
        OrProtocolError(
          Vmess.ClientHeader(env.cipher, id.value, a.port, HostToAddress(net, a.host), a.sent, a.nonce))
    case Socks5Mode => OrProtocolError(Socks5.PipelineConnect(net, a.host, a.port))
  }

  method FirstChunk(env: Env, a: Attempt, tail: Bytes) returns (r: Result<Bytes, Error>)
    ensures var h := HandshakeBytes(env, a);
            r == if h.Ok? then Ok(h.value + tail) else h
  {
    var addr := HostToAddress(env.net, a.host);
    match a.mode {
      case RawTcpRelay =>
        assert [] + tail == tail;
        return Ok(tail);
      case VlessMode =>
        var id := ConfiguredUuid(env.net, a.params);
        if id.Err? {
          return id;
        }
        var out := Vless.BuildRequest(id.value, a.port, addr, tail);
        return Ok(out);
      case TrojanMode =>
        if a.params.password.None? {
          return Err(ProtocolError);
        }
        var out := Trojan.BuildAuthLine(env.sha224, a.params.password.value);
        var ab := Trojan.BuildAddress(env.net, Trojan.Addr(a.host, a.port));
        if ab.None? {
          return Err(ProtocolError);
        }
        out := out + ab.value;
        out := out + tail;
        return Ok(out);
      case VmessMode =>
        var id := ConfiguredUuid(env.net, a.params);
        if id.Err? {
          return id;
        }
        var h := Vmess.BuildClientHeader(env.cipher, id.value, a.port, addr, a.sent, a.nonce);
        if h.None? {
          return Err(ProtocolError);
        }
        return Ok(h.value + tail);
      case Socks5Mode =>
        var h := Socks5.BuildPipelineConnect(env.net, a.host, a.port);
        if h.None? {
          return Err(ProtocolError);
        }
        return Ok(h.value + tail);
    }
  }

  // ---- The server side ----

  /** Where the relay connects. */
  datatype Endpoint = Endpoint(host: Bytes, port: u16)

  const MAX_PROXY_CHUNK := 256 * 1024

  /** The largest message a relay takes during its handshake. */
  function ChunkLimit(mode: Mode): Option<nat> {
    if mode == VlessMode || mode == Socks5Mode then Some(MAX_PROXY_CHUNK) else None
  }

  /** Whether the relay starts at all with these parameters, or in raw mode with this target. */
  predicate RelayStarts(net: Net, a: Attempt) {
    match a.mode
    case RawTcpRelay => net.trim(a.host) != [] && a.port != 0
    case VlessMode => ConfiguredUuid(net, a.params).Ok? && net.trim(a.params.uuid.value) != []
    case VmessMode => ConfiguredUuid(net, a.params).Ok? && net.trim(a.params.uuid.value) != []
    case TrojanMode => a.params.password.Some? && a.params.password.value != []
    case Socks5Mode => true
  }

  function Socks5Policy(params: Params): Socks5.Policy {
    Socks5.Policy(params.username.Some? && params.password.Some?, params.username, params.password)
  }

  function ServerVerdict(env: Env, mode: Mode, params: Params, s: Situation, buf: Bytes): Verdict<Endpoint>
    requires mode != RawTcpRelay
  {
    var net := env.net;
    match mode
    case VlessMode => (
      var id := ConfiguredUuid(net, params);
      match Vless.ParseRequest(net, if id.Ok? then Some(id.value) else None, buf)
      case NeedMore(n) => NeedMore(n)
      case Invalid => Invalid
      case Ready(q, k) => if q.uuidOk then Ready(Endpoint(q.addr.HostString(net), q.port), k) else Invalid)
    case TrojanMode => (
      match Trojan.ServerHandshake(net, env.sha224, if params.password.Some? then params.password.value else [], buf)
      case NeedMore(n) => NeedMore(n)
      case Invalid => Invalid
      case Ready(t, k) => Ready(Endpoint(t.host, t.port), k))
    case VmessMode => (
      var id := ConfiguredUuid(net, params);
      match Decide(env.cipher, net, if id.Ok? then id.value else [], s, buf)
      case NeedMore(n) => NeedMore(n)
      case Invalid => Invalid
      case Ready(o, k) => Ready(Endpoint(o.addr.HostString(net), o.port), k))
    case Socks5Mode => (
      match Socks5.ServerParse(net, Socks5Policy(params), buf)
      case NeedMore(n) => NeedMore(n)
      case Invalid => Invalid
      case Ready(t, k) => Ready(Endpoint(t.host, t.port), k))
  }

  function Parser(env: Env, mode: Mode, params: Params, s: Situation): Bytes -> Verdict<Endpoint>
    requires mode != RawTcpRelay
  {
    b => ServerVerdict(env, mode, params, s, b)
  }

  lemma VerdictExtends(env: Env, mode: Mode, params: Params, s: Situation, b: Bytes, ext: Bytes)
    requires mode != RawTcpRelay
    ensures !ServerVerdict(env, mode, params, s, b).NeedMore?
            ==> ServerVerdict(env, mode, params, s, b + ext) == ServerVerdict(env, mode, params, s, b)
    ensures var v := ServerVerdict(env, mode, params, s, b); v.Ready? ==> v.offset <= |b|
  {
    var net := env.net;
    var id := ConfiguredUuid(net, params);
    match mode {
      case VlessMode =>
        var expected := if id.Ok? then Some(id.value) else None;
        Vless.ParserFinal(net, expected);
        assert Vless.Parser(net, expected)(b + ext) == Vless.ParseRequest(net, expected, b + ext);
        assert Vless.Parser(net, expected)(b) == Vless.ParseRequest(net, expected, b);
      case TrojanMode =>
        var pw := if params.password.Some? then params.password.value else [];
        Trojan.ParserFinal(net, env.sha224, pw);
        assert Trojan.Parser(net, env.sha224, pw)(b + ext) == Trojan.ServerHandshake(net, env.sha224, pw, b + ext);
        assert Trojan.Parser(net, env.sha224, pw)(b) == Trojan.ServerHandshake(net, env.sha224, pw, b);
      case VmessMode =>
        var uuid := if id.Ok? then id.value else [];
        DecideExtends(env.cipher, net, uuid, s, b, ext);
      case Socks5Mode =>
        var pol := Socks5Policy(params);
        Socks5.ParserFinal(net, pol);
        assert Socks5.Parser(net, pol)(b + ext) == Socks5.ServerParse(net, pol, b + ext);
        assert Socks5.Parser(net, pol)(b) == Socks5.ServerParse(net, pol, b);
    }
  }

  lemma ParserFinal(env: Env, mode: Mode, params: Params, s: Situation)
    requires mode != RawTcpRelay
    ensures Final(Parser(env, mode, params, s)) && InBounds(Parser(env, mode, params, s))
    ensures Parser(env, mode, params, s)([]).NeedMore?
  {
    var p := Parser(env, mode, params, s);
    forall b: Bytes, ext: Bytes | !p(b).NeedMore?
      ensures p(b + ext) == p(b)
    {
      VerdictExtends(env, mode, params, s, b, ext);
    }
    forall b: Bytes | p(b).Ready?
      ensures p(b).offset <= |b|
    {
      VerdictExtends(env, mode, params, s, b, []);
    }
    assert Trojan.FindCrlf([], 0) == None;
  }

  /** The bytes after which a mode's parser never decides, whatever follows. */
  predicate NeverDecided(env: Env, mode: Mode, params: Params, b: Bytes) {
    match mode
    case RawTcpRelay => false
    case VlessMode => Vless.Unreadable(b)
    case TrojanMode => Trojan.FindCrlf(b, 0).Some? && Trojan.FindCrlf(b, 0).value < 56
    case VmessMode => false
    case Socks5Mode => Socks5.UnknownType(env.net, Socks5Policy(params), b)
  }

  /** Two parsers that need more on the same buffers are stuck on the same buffers. */
  lemma StuckAlike<S(!new), T(!new)>(p: Bytes -> Verdict<S>, q: Bytes -> Verdict<T>, b: Bytes)
    requires forall c: Bytes :: p(c).NeedMore? <==> q(c).NeedMore?
    ensures Stuck(p, b) <==> Stuck(q, b)
  {
  }

  /** A relay that has read these bytes can no longer be brought to a decision exactly in these cases. */
  lemma StuckIff(env: Env, mode: Mode, params: Params, s: Situation, b: Bytes)
    requires mode != RawTcpRelay && env.net.Unicode()
    ensures Stuck(Parser(env, mode, params, s), b) <==> NeverDecided(env, mode, params, b)
  {
    var net, p := env.net, Parser(env, mode, params, s);
    var id := ConfiguredUuid(net, params);
    match mode {
      case VlessMode =>
        var expected := if id.Ok? then Some(id.value) else None;
        Vless.StuckIff(net, expected, b);
        StuckAlike(p, Vless.Parser(net, expected), b);
      case TrojanMode =>
        var pw := if params.password.Some? then params.password.value else [];
        Trojan.StuckIff(net, env.sha224, pw, b);
        StuckAlike(p, Trojan.Parser(net, env.sha224, pw), b);
      case VmessMode =>
        CanDecide(env.cipher, net, if id.Ok? then id.value else [], s, b);
        assert !p(b + Filler(0, 0x1_0010)).NeedMore?;
      case Socks5Mode =>
        Socks5.StuckIff(net, Socks5Policy(params), b);
        StuckAlike(p, Socks5.Parser(net, Socks5Policy(params)), b);
    }
  }

  // ---- The whole relay ----

  /** What the bridge behind a handshake writes upstream: every message up to the first that is too large. */
  function Bridged(chunks: seq<Bytes>): Bytes
    decreases |chunks|
  {
    if chunks == [] || |chunks[0]| > MAX_PROXY_CHUNK then [] else chunks[0] + Bridged(chunks[1..])
  }

  /** The bridge's loop over the data messages. */
  method Bridge(pending: Bytes, chunks: seq<Bytes>) returns (written: Bytes, ok: bool)
    ensures written == pending + Bridged(chunks)
    ensures ok <==> forall d :: d in chunks ==> |d| <= MAX_PROXY_CHUNK
  {
    written := pending;
    var i := 0;
    while i < |chunks|
      invariant 0 <= i <= |chunks|
      invariant written + Bridged(chunks[i..]) == pending + Bridged(chunks)
      invariant forall k :: 0 <= k < i ==> |chunks[k]| <= MAX_PROXY_CHUNK
    {
      var d := chunks[i];
      assert chunks[i..][0] == d && chunks[i..][1..] == chunks[i + 1..];
      if |d| > MAX_PROXY_CHUNK {
        assert written + [] == written && d in chunks;
        return written, false;
      }
      Associate(written, d, Bridged(chunks[i + 1..]));
      written := written + d;
      i := i + 1;
    }
    assert written + [] == written;
    ok := true;
  }

  /** The bridge loses nothing but what follows a message that is too large. */
  lemma {:induction false} BridgedPrefix(chunks: seq<Bytes>)
    ensures Bridged(chunks) <= Flatten(chunks)
    ensures (forall d :: d in chunks ==> |d| <= MAX_PROXY_CHUNK) ==> Bridged(chunks) == Flatten(chunks)
    decreases |chunks|
  {
    if chunks == [] {
    } else {
      BridgedPrefix(chunks[1..]);
    }
  }

  /** A relay from its Open message on: raw mode connects to the target named there and has every data message left
      to forward; the other modes read their handshake first. */
  function Relay(env: Env, a: Attempt, s: Situation, chunks: seq<Bytes>): Outcome<Endpoint> {
    if !RelayStarts(env.net, a) then Outcome(Invalid, [], chunks)
    else if a.mode == RawTcpRelay then Outcome(Ready(Endpoint(env.net.trim(a.host), a.port), 0), [], chunks)
    else Drive(Parser(env, a.mode, a.params, s), ChunkLimit(a.mode), [], chunks)
  }

  /** The bytes a relay writes to its target. */
  function Upstream(r: Outcome<Endpoint>): Bytes {
    if r.verdict.Ready? && r.verdict.offset <= |r.buffer| then r.buffer[r.verdict.offset..] + Bridged(r.unread) else []
  }

  method RunRelay(env: Env, a: Attempt, s: Situation, chunks: seq<Bytes>) returns (r: Outcome<Endpoint>, out: Bytes)
    ensures r == Relay(env, a, s, chunks) && out == Upstream(r)
  {
    if !RelayStarts(env.net, a) {
      return Outcome(Invalid, [], chunks), [];
    }
    if a.mode == RawTcpRelay {
      r := Outcome(Ready(Endpoint(env.net.trim(a.host), a.port), 0), [], chunks);
    } else {
      r := Handshake(Parser(env, a.mode, a.params, s), ChunkLimit(a.mode), chunks);
    }
    out := [];
    if r.verdict.Ready? && r.verdict.offset <= |r.buffer| {
      var ok;
      out, ok := Bridge(r.buffer[r.verdict.offset..], r.unread);
    }
  }

  // ---- End to end ----

  /** The target as the server sees it. */
  function Target(net: Net, a: Attempt): Endpoint {
    Endpoint(if a.mode == RawTcpRelay then net.trim(a.host) else net.Canonical(a.host), a.port)
  }

  /** When client and server settings, clocks and the replay guard let the connection through.  Both ends share
      `params`. */
  predicate Compatible(net: Net, a: Attempt, s: Situation) {
    match a.mode
    case RawTcpRelay => net.trim(a.host) != [] && a.port != 0
    case VlessMode => HostToAddress(net, a.host).Fits()
    case TrojanMode => a.params.password != Some([])
    case VmessMode => Abs(s.now - a.sent) <= 120 && !s.Remembers(a.nonce)
    case Socks5Mode => a.params.username.None? || a.params.password.None?
  }

  lemma HostRecovered(net: Net, host: Bytes)
    requires net.Lawful() && net.utf8(host)
    ensures var addr := HostToAddress(net, host); addr.Typed(net) && addr.HostString(net) == net.Canonical(host)
  {
  }

  lemma VmessVerdict(env: Env, a: Attempt, s: Situation)
    requires env.Lawful() && a.Typed(env.net) && a.mode == VmessMode && HandshakeBytes(env, a).Ok?
    ensures var h := HandshakeBytes(env, a).value;
            ServerVerdict(env, a.mode, a.params, s, h)
            == if Compatible(env.net, a, s) then Ready(Target(env.net, a), |h|) else Invalid
  {
    var id, addr := ConfiguredUuid(env.net, a.params).value, HostToAddress(env.net, a.host);
    HostRecovered(env.net, a.host);
    Vmess.HeaderRecovered(env.cipher, env.net, id, a.port, addr, a.sent, s.now, a.nonce);
    ClientComplete(env.cipher, env.net, id, a.port, addr, a.sent, a.nonce);
  }

  /** The server's answer to the handshake bytes alone. */
  lemma HandshakeVerdict(env: Env, a: Attempt, s: Situation)
    requires env.Lawful() && a.Typed(env.net) && HandshakeBytes(env, a).Ok? && a.mode != RawTcpRelay
    requires RelayStarts(env.net, a) && Compatible(env.net, a, s)
    ensures var h := HandshakeBytes(env, a).value;
            ServerVerdict(env, a.mode, a.params, s, h) == Ready(Target(env.net, a), |h|)
  {
    var net := env.net;
    var h := HandshakeBytes(env, a).value;
    assert h + [] == h;
    HostRecovered(net, a.host);
    match a.mode {
      case VlessMode =>
        var id := ConfiguredUuid(net, a.params).value;
        Vless.RequestRecovered(net, Some(id), id, a.port, HostToAddress(net, a.host), []);
      case TrojanMode =>
        Trojan.HandshakeRecovered(net, env.sha224, a.params.password.value, Trojan.Addr(a.host, a.port), []);
      case VmessMode => VmessVerdict(env, a, s);
      case Socks5Mode =>
        Socks5.ConnectRecovered(net, Socks5Policy(a.params), a.host, a.port, []);
    }
  }

  lemma CompatibleStarts(env: Env, a: Attempt, s: Situation)
    requires env.Lawful() && HandshakeBytes(env, a).Ok? && Compatible(env.net, a, s)
    ensures RelayStarts(env.net, a)
  {
  }

  /** Handing the rest of an accepted stream to the bridge. */
  lemma UpstreamIs(r: Outcome<Endpoint>, payload: Bytes)
    requires r.verdict.Ready? && r.verdict.offset <= |r.buffer| && r.Forwarded() == payload
    ensures Upstream(r) <= payload
    ensures (forall d :: d in r.unread ==> |d| <= MAX_PROXY_CHUNK) ==> Upstream(r) == payload
  {
    BridgedPrefix(r.unread);
  }

  lemma DeliveredWhenReady(env: Env, a: Attempt, s: Situation, h: Bytes, to: Endpoint, payload: Bytes,
                           chunks: seq<Bytes>)
    requires a.mode != RawTcpRelay && ServerVerdict(env, a.mode, a.params, s, h) == Ready(to, |h|)
    requires Flatten(chunks) == h + payload
    ensures var r := Drive(Parser(env, a.mode, a.params, s), ChunkLimit(a.mode), [], chunks);
            if ReadAdmitted(ChunkLimit(a.mode), |h|, chunks)
            then r.verdict == Ready(to, |h|) && |h| <= |r.buffer| && r.Forwarded() == payload
            else r.verdict == Invalid
  {
    ParserFinal(env, a.mode, a.params, s);
    Delivery(Parser(env, a.mode, a.params, s), ChunkLimit(a.mode), h, to, payload, chunks);
  }

  /** Whenever the client builds its first chunk and the two ends are compatible, the relay connects to the client's
      target and writes exactly the bytes behind the handshake (the client's first tail and everything later), however
      the stream is cut into messages, up to the first message that is too large for the bridge.  Only a message that is
      too large during the handshake ends the relay. */
  lemma EndToEnd(env: Env, a: Attempt, h: Bytes, payload: Bytes, s: Situation, chunks: seq<Bytes>)
    requires env.Lawful() && a.Typed(env.net) && HandshakeBytes(env, a) == Ok(h)
    requires Compatible(env.net, a, s)
    requires Flatten(chunks) == h + payload
    ensures var r := Relay(env, a, s, chunks);
            if ReadAdmitted(ChunkLimit(a.mode), |h|, chunks) then
              && r.verdict == Ready(Target(env.net, a), |h|)
              && Upstream(r) <= payload
              && ((forall d :: d in r.unread ==> |d| <= MAX_PROXY_CHUNK) ==> Upstream(r) == payload)
            else r.verdict == Invalid
  {
    var r := Relay(env, a, s, chunks);
    CompatibleStarts(env, a, s);
    if a.mode == RawTcpRelay {
      assert [] + Flatten(chunks) == Flatten(chunks) == payload;
    } else {
      HandshakeVerdict(env, a, s);
      DeliveredWhenReady(env, a, s, h, Target(env.net, a), payload, chunks);
    }
    if ReadAdmitted(ChunkLimit(a.mode), |h|, chunks) {
      UpstreamIs(r, payload);
    }
  }

  /** No strict prefix of the client's handshake bytes is decided, unless a SOCKS5 server asks for credentials the
      client never offers. */
  lemma NoPrefixDecided(env: Env, a: Attempt, s: Situation, n: nat)
    requires env.Lawful() && a.Typed(env.net) && HandshakeBytes(env, a).Ok? && a.mode != RawTcpRelay
    requires n < |HandshakeBytes(env, a).value|
    requires a.mode == Socks5Mode ==> !Socks5Policy(a.params).requireAuth
    ensures ServerVerdict(env, a.mode, a.params, s, HandshakeBytes(env, a).value[..n]).NeedMore?
  {
    var net, addr := env.net, HostToAddress(env.net, a.host);
    HostRecovered(net, a.host);
    match a.mode {
      case VlessMode =>
        var id := ConfiguredUuid(net, a.params).value;
        Vless.PrefixUndecided(net, Some(id), id, a.port, addr, n);
      case VmessMode =>
        var id := ConfiguredUuid(net, a.params).value;
        VmessPrefix(env, id, a, addr, s, n);
      case TrojanMode => TrojanPrefix(env, a, n);
      case Socks5Mode => Socks5Prefix(env, a, n);
    }
  }

  lemma VmessPrefix(env: Env, id: Bytes, a: Attempt, addr: Vless.Address, s: Situation, n: nat)
    requires env.cipher.Lawful() && addr.Typed(env.net) && |a.nonce| == Vmess.NONCE_LEN
    requires Vmess.ClientHeader(env.cipher, id, a.port, addr, a.sent, a.nonce).Some?
    requires n < |Vmess.ClientHeader(env.cipher, id, a.port, addr, a.sent, a.nonce).value|
    ensures var h := Vmess.ClientHeader(env.cipher, id, a.port, addr, a.sent, a.nonce).value;
            Decide(env.cipher, env.net, id, s, h[..n]).NeedMore?
  {
    var h := Vmess.ClientHeader(env.cipher, id, a.port, addr, a.sent, a.nonce).value;
    Vmess.PrefixUndecided(env.cipher, env.net, id, a.port, addr, a.sent, s.now, a.nonce, n);
    if Complete(h[..n]) {
      Vmess.OpenIgnoresTail(env.cipher, env.net, id, s.now, h[..n]);
    }
  }

  lemma TrojanPrefix(env: Env, a: Attempt, n: nat)
    requires env.Lawful() && a.Typed(env.net) && a.mode == TrojanMode && HandshakeBytes(env, a).Ok?
    requires n < |HandshakeBytes(env, a).value|
    ensures var h := HandshakeBytes(env, a).value;
            Trojan.ServerHandshake(env.net, env.sha224, a.params.password.value, h[..n]).NeedMore?
  {
    var h, pw := HandshakeBytes(env, a).value, a.params.password.value;
    var p := Trojan.Parser(env.net, env.sha224, pw);
    Trojan.HandshakeRecovered(env.net, env.sha224, pw, Trojan.Addr(a.host, a.port), []);
    assert h + [] == h;
    Trojan.ParserFinal(env.net, env.sha224, pw);
    assert p(h) == Trojan.ServerHandshake(env.net, env.sha224, pw, h);
    NoEarlyVerdict(p, h, n);
    assert p(h[..n]) == Trojan.ServerHandshake(env.net, env.sha224, pw, h[..n]);
  }

  lemma Socks5Prefix(env: Env, a: Attempt, n: nat)
    requires env.Lawful() && a.Typed(env.net) && a.mode == Socks5Mode && HandshakeBytes(env, a).Ok?
    requires n < |HandshakeBytes(env, a).value| && !Socks5Policy(a.params).requireAuth
    ensures Socks5.ServerParse(env.net, Socks5Policy(a.params), HandshakeBytes(env, a).value[..n]).NeedMore?
  {
    var h, pol := HandshakeBytes(env, a).value, Socks5Policy(a.params);
    var p := Socks5.Parser(env.net, pol);
    Socks5.ConnectRecovered(env.net, pol, a.host, a.port, []);
    assert h + [] == h;
    Socks5.ParserFinal(env.net, pol);
    assert p(h) == Socks5.ServerParse(env.net, pol, h);
    NoEarlyVerdict(p, h, n);
    assert p(h[..n]) == Socks5.ServerParse(env.net, pol, h[..n]);
  }

  lemma IncompatibleVerdict(env: Env, a: Attempt, s: Situation, rest: Bytes)
    requires env.Lawful() && a.Typed(env.net) && HandshakeBytes(env, a).Ok? && !Compatible(env.net, a, s)
    requires RelayStarts(env.net, a)
    ensures a.mode != RawTcpRelay && (a.mode == VlessMode ==> |a.host| > 255)
    ensures var v := ServerVerdict(env, a.mode, a.params, s, HandshakeBytes(env, a).value + rest);
            && (v.Ready? <==> a.mode == VlessMode && env.net.utf8(a.host[..255]))
            && (v.Ready? ==> v == Ready(Endpoint(a.host[..255], a.port), |HandshakeBytes(env, a).value|))
  {
    var net := env.net;
    var h := HandshakeBytes(env, a).value;
    var addr := HostToAddress(net, a.host);
    HostRecovered(net, a.host);
    match a.mode {
      case VlessMode =>
        var id := ConfiguredUuid(net, a.params).value;
        Vless.CutDomainVerdict(net, Some(id), id, a.port, addr, rest);
      case VmessMode =>
        VmessVerdict(env, a, s);
        VerdictExtends(env, a.mode, a.params, s, h, rest);
      case Socks5Mode =>
        Socks5.AuthServerRefuses(net, Socks5Policy(a.params), a.host, a.port, rest);
    }
  }

  /** Otherwise the relay never connects, but for a VLESS domain that was cut: it connects to the first 255 bytes of the
      name if they are valid UTF-8. */
  lemma NeverConnected(env: Env, a: Attempt, s: Situation, rest: Bytes, chunks: seq<Bytes>)
    requires env.Lawful() && a.Typed(env.net) && HandshakeBytes(env, a).Ok? && !Compatible(env.net, a, s)
    requires Flatten(chunks) == HandshakeBytes(env, a).value + rest
    ensures a.mode == VlessMode ==> |a.host| > 255
    ensures var v, h := Relay(env, a, s, chunks).verdict, HandshakeBytes(env, a).value;
            && (v.Ready? <==> RelayStarts(env.net, a) && a.mode == VlessMode && env.net.utf8(a.host[..255])
                              && ReadAdmitted(ChunkLimit(a.mode), |h|, chunks))
            && (v.Ready? ==> v.target == Endpoint(a.host[..255], a.port) != Target(env.net, a))
  {
    if a.mode == VlessMode {
      CutName(env, a, s);
    }
    if RelayStarts(env.net, a) {
      var h := HandshakeBytes(env, a).value;
      IncompatibleVerdict(env, a, s, rest);
      IncompatibleVerdict(env, a, s, []);
      assert h + [] == h;
      if a.mode == VlessMode && env.net.utf8(a.host[..255]) {
        DeliveredWhenReady(env, a, s, h, Endpoint(a.host[..255], a.port), rest, chunks);
      } else {
        NotReady(env, a, s, chunks);
      }
    }
  }

  lemma CutName(env: Env, a: Attempt, s: Situation)
    requires a.mode == VlessMode && !Compatible(env.net, a, s)
    ensures |a.host| > 255 && Target(env.net, a) == Endpoint(a.host, a.port)
    ensures Endpoint(a.host[..255], a.port) != Target(env.net, a)
  {
  }

  lemma NotReady(env: Env, a: Attempt, s: Situation, chunks: seq<Bytes>)
    requires a.mode != RawTcpRelay && !ServerVerdict(env, a.mode, a.params, s, Flatten(chunks)).Ready?
    ensures !Drive(Parser(env, a.mode, a.params, s), ChunkLimit(a.mode), [], chunks).verdict.Ready?
  {
    var p := Parser(env, a.mode, a.params, s);
    ParserFinal(env, a.mode, a.params, s);
    assert [] + Flatten(chunks) == Flatten(chunks);
    assert p(Flatten(chunks)) == ServerVerdict(env, a.mode, a.params, s, Flatten(chunks));
    if Drive(p, ChunkLimit(a.mode), [], chunks).verdict.Ready? {
      ReadyOnStream(p, ChunkLimit(a.mode), [], chunks);
    }
  }
}
