/** Pipelined SOCKS5 (wire-protocol/src/socks5.rs; sections 3 to 5 of RFC 1928, section 2 of RFC 1929). */
module Socks5 {
  import opened Prelude
  import opened Framing
  import opened HostText

  datatype Target = Target(host: Bytes, port: u16)

  /** Target and the offset just behind it. */
  function ReadAddr(net: Net, buf: Bytes, off: nat): (r: Option<(Target, nat)>)
    ensures r.Some? ==> off < r.value.1 <= |buf|
  {
    if off >= |buf| then None
    else if buf[off] == 1 then
      if |buf| < off + 7 then None
      else Some((Target(ShowV4(buf[off + 1..off + 5]), FromBigEndian16(buf[off + 5], buf[off + 6])), off + 7))
    else if buf[off] == 3 then
      if off + 1 >= |buf| then None
      else
        var n: nat := buf[off + 1];
        if |buf| < off + 2 + n + 2 then None
        else Some((Target(net.lossy(buf[off + 2..off + 2 + n]),
                          FromBigEndian16(buf[off + 2 + n], buf[off + 2 + n + 1])), off + 2 + n + 2))
    else if buf[off] == 4 then
      if |buf| < off + 19 then None
      else Some((Target(net.showV6(buf[off + 1..off + 17]), FromBigEndian16(buf[off + 17], buf[off + 18])), off + 19))
    else None
  }

  /** What the server demands of the client: the credentials, when it requires the username step. */
  datatype Policy = Policy(requireAuth: bool, user: Option<Bytes>, pass: Option<Bytes>)

  function TextOrEmpty(net: Net, b: Bytes): Bytes {
    if net.utf8(b) then b else []
  }

  predicate Matches(net: Net, wanted: Option<Bytes>, got: Bytes) {
    wanted.Some? && net.trim(wanted.value) == net.trim(TextOrEmpty(net, got))
  }

  /** The username step that starts at `off`: the offset behind it, or the verdict that ends the parse. */
  function UserStep(net: Net, pol: Policy, buf: Bytes, off: nat): (r: Result<nat, Verdict<Target>>)
    ensures r.Ok? ==> off + 3 <= r.value <= |buf|
    ensures r.Err? ==> !r.error.Ready? && (r.error.NeedMore? ==> r.error.hint > |buf|)
  {
    if |buf| < off + 3 then Err(NeedMore(off + 3))
    else if buf[off] != 1 then Err(Invalid)
    else
      var ulen: nat := buf[off + 1];
      if |buf| < off + 3 + ulen then Err(NeedMore(off + 3 + ulen))
      else
        var plen: nat := buf[off + 2 + ulen];
        if |buf| < off + 3 + ulen + plen then Err(NeedMore(off + 3 + ulen + plen))
        else if !Matches(net, pol.user, buf[off + 2..off + 2 + ulen])
                || !Matches(net, pol.pass, buf[off + 3 + ulen..off + 3 + ulen + plen]) then Err(Invalid)
        else Ok(off + 3 + ulen + plen)
  }

  function ConnectStep(net: Net, buf: Bytes, off: nat): (v: Verdict<Target>)
    ensures v.NeedMore? ==> v.hint > |buf|
    ensures v.Ready? ==> v.offset <= |buf|
  {
    if |buf| < off + 4 then NeedMore(off + 4)
    else if buf[off] != 5 then Invalid
    else if buf[off + 1] != 1 then Invalid
    else
      match ReadAddr(net, buf, off + 3)
      case None => NeedMore(|buf| + 256)
      case Some((target, end)) => Ready(target, end)
  }

  /** A request for more bytes always asks for more than the buffer holds. */
  function ServerParse(net: Net, pol: Policy, buf: Bytes): (v: Verdict<Target>)
    ensures v.NeedMore? ==> v.hint > |buf|
    ensures v.Ready? ==> v.offset <= |buf|
  {
    if |buf| < 3 then NeedMore(3)
    else if buf[0] != 5 then Invalid
    else
      var off := 2 + buf[1] as nat;
      if |buf| < off then NeedMore(off)
      else
        var methods := buf[2..off];
        if pol.requireAuth then
          if 2 !in methods then Invalid
          else
            match UserStep(net, pol, buf, off)
            case Err(v) => v
            case Ok(off') => ConnectStep(net, buf, off')
        else if 0 !in methods then Invalid
        else ConnectStep(net, buf, off)
  }

  function Parser(net: Net, pol: Policy): Bytes -> Verdict<Target> {
    b => ServerParse(net, pol, b)
  }

  const GREETING_AND_CONNECT: Bytes := [5, 1, 0, 5, 1, 0]

  function AddrBytes(net: Net, host: Bytes, port: u16): Option<Bytes> {
    if net.parseV4(host).Some? then Some([1] + net.parseV4(host).value + BigEndian16(port))
    else if net.parseV6(host).Some? then Some([4] + net.parseV6(host).value + BigEndian16(port))
    else if |host| > 255 then None
    else Some([3, |host|] + host + BigEndian16(port))
  }

  function PipelineConnect(net: Net, host: Bytes, port: u16): Option<Bytes> {
    var addr := AddrBytes(net, host, port);
    if addr.None? then None else Some(GREETING_AND_CONNECT + addr.value)
  }

  method BuildPipelineConnect(net: Net, host: Bytes, port: u16) returns (r: Option<Bytes>)
    ensures r == PipelineConnect(net, host, port)
  {
    var out: Bytes := [5, 1, 0];
    out := out + [5];
    out := out + [1];
    out := out + [0];
    assert out == GREETING_AND_CONNECT;
    ghost var addr: Bytes;
    if net.parseV4(host).Some? {
      out := out + [1];
      out := out + net.parseV4(host).value;
      addr := [1] + net.parseV4(host).value;
    } else if net.parseV6(host).Some? {
      out := out + [4];
      out := out + net.parseV6(host).value;
      addr := [4] + net.parseV6(host).value;
    } else {
      if |host| > 255 {
        return None;
      }
      out := out + [3];
      out := out + [|host|];
      out := out + host;
      addr := [3, |host|] + host;
    }
    assert out == GREETING_AND_CONNECT + addr;
    out := out + BigEndian16(port);
    assert out == GREETING_AND_CONNECT + (addr + BigEndian16(port));
    r := Some(out);
  }

  // ---- Verdicts ----

  lemma ReadAddrExtends(net: Net, b: Bytes, ext: Bytes, off: nat)
    requires ReadAddr(net, b, off).Some?
    ensures ReadAddr(net, b + ext, off) == ReadAddr(net, b, off)
  {
    if b[off] == 1 {
      SliceExtends(b, ext, off + 1, off + 5);
    } else if b[off] == 3 {
      var n: nat := b[off + 1];
      SliceExtends(b, ext, off + 2, off + 2 + n);
    } else {
      SliceExtends(b, ext, off + 1, off + 17);
    }
  }

  lemma UserStepExtends(net: Net, pol: Policy, b: Bytes, ext: Bytes, off: nat)
    requires UserStep(net, pol, b, off).Err? ==> !UserStep(net, pol, b, off).error.NeedMore?
    ensures UserStep(net, pol, b + ext, off) == UserStep(net, pol, b, off)
  {
    if b[off] == 1 {
      var ulen: nat := b[off + 1];
      var plen: nat := b[off + 2 + ulen];
      SliceExtends(b, ext, off + 2, off + 2 + ulen);
      SliceExtends(b, ext, off + 3 + ulen, off + 3 + ulen + plen);
    }
  }

  lemma ConnectStepExtends(net: Net, b: Bytes, ext: Bytes, off: nat)
    requires !ConnectStep(net, b, off).NeedMore?
    ensures ConnectStep(net, b + ext, off) == ConnectStep(net, b, off)
  {
    if b[off] == 5 && b[off + 1] == 1 {
      ReadAddrExtends(net, b, ext, off + 3);
    }
  }

  lemma ParseExtends(net: Net, pol: Policy, b: Bytes, ext: Bytes)
    requires !ServerParse(net, pol, b).NeedMore?
    ensures ServerParse(net, pol, b + ext) == ServerParse(net, pol, b)
  {
    if b[0] == 5 {
      var off := 2 + b[1] as nat;
      assert (b + ext)[2..off] == b[2..off];
      if pol.requireAuth && 2 in b[2..off] {
        UserStepExtends(net, pol, b, ext, off);
        if UserStep(net, pol, b, off).Ok? {
          ConnectStepExtends(net, b, ext, UserStep(net, pol, b, off).value);
        }
      } else if !pol.requireAuth && 0 in b[2..off] {
        ConnectStepExtends(net, b, ext, off);
      }
    }
  }

  lemma ParserFinal(net: Net, pol: Policy)
    ensures Final(Parser(net, pol)) && InBounds(Parser(net, pol))
    ensures Parser(net, pol)([]).NeedMore?
  {
    var p := Parser(net, pol);
    forall b: Bytes, ext: Bytes | !p(b).NeedMore?
      ensures p(b + ext) == p(b)
    {
      ParseExtends(net, pol, b, ext);
    }
  }

  /** Where the request starts, once the greeting and the username step are through. */
  function RequestStart(net: Net, pol: Policy, buf: Bytes): Option<nat> {
    if |buf| < 3 || buf[0] != 5 || |buf| < 2 + buf[1] as nat then None
    else
      var off := 2 + buf[1] as nat;
      if !pol.requireAuth then if 0 in buf[2..off] then Some(off) else None
      else if 2 !in buf[2..off] then None
      else
        var step := UserStep(net, pol, buf, off);
        if step.Ok? then Some(step.value) else None
  }

  /** Behind the greeting and the username step the request decides. */
  lemma ParseFromStart(net: Net, pol: Policy, c: Bytes)
    requires RequestStart(net, pol, c).Some?
    ensures ServerParse(net, pol, c) == ConnectStep(net, c, RequestStart(net, pol, c).value)
  {
  }

  lemma StartExtends(net: Net, pol: Policy, b: Bytes, ext: Bytes)
    requires RequestStart(net, pol, b).Some?
    ensures RequestStart(net, pol, b + ext) == RequestStart(net, pol, b)
  {
    var off := 2 + b[1] as nat;
    SliceExtends(b, ext, 2, off);
    if pol.requireAuth {
      UserStepExtends(net, pol, b, ext, off);
    }
  }

  lemma ConnectUnknown(net: Net, b: Bytes, ext: Bytes, off: nat)
    requires |b| >= off + 4 && b[off] == 5 && b[off + 1] == 1 && b[off + 3] !in {1, 3, 4}
    ensures ConnectStep(net, b + ext, off).NeedMore?
  {
  }

  /** A request for an unknown address type is never decided. */
  lemma UnknownTypeNeverDecided(net: Net, pol: Policy, b: Bytes, ext: Bytes)
    requires UnknownType(net, pol, b)
    ensures ServerParse(net, pol, b + ext).NeedMore?
  {
    StartExtends(net, pol, b, ext);
    ParseFromStart(net, pol, b + ext);
    ConnectUnknown(net, b, ext, RequestStart(net, pol, b).value);
  }

  lemma EnoughForRequest(net: Net, c: Bytes, off: nat)
    requires |c| >= off + 300
    requires c[off] != 5 || c[off + 1] != 1 || c[off + 3] in {1, 3, 4}
    ensures !ConnectStep(net, c, off).NeedMore?
  {
  }

  lemma EnoughForUser(net: Net, pol: Policy, c: Bytes, off: nat)
    requires |c| >= off + 600
    ensures var r := UserStep(net, pol, c, off);
            if r.Ok? then r.value <= off + 600 else r.error == Invalid
  {
  }

  /** The request asks for an unknown address type. */
  predicate UnknownType(net: Net, pol: Policy, b: Bytes) {
    var off := RequestStart(net, pol, b);
    && off.Some? && |b| >= off.value + 4
    && b[off.value] == 5 && b[off.value + 1] == 1 && b[off.value + 3] !in {1, 3, 4}
  }

  /** From where the request starts, bytes of value 4 decide it unless its type is there and unknown. */
  lemma FoursFrom(net: Net, b: Bytes, ext: Bytes, start: nat)
    requires ext == Filler(4, 2000) && |b + ext| >= start + 300
    requires |b| >= start + 4 ==> b[start] != 5 || b[start + 1] != 1 || b[start + 3] in {1, 3, 4}
    ensures !ConnectStep(net, b + ext, start).NeedMore?
  {
    EnoughForRequest(net, b + ext, start);
  }

  lemma ParseUser(net: Net, pol: Policy, c: Bytes, off: nat)
    requires pol.requireAuth && |c| >= 3 && c[0] == 5 && off == 2 + c[1] as nat && off <= |c| && 2 in c[2..off]
    ensures ServerParse(net, pol, c)
            == match UserStep(net, pol, c, off) case Err(v) => v case Ok(start) => ConnectStep(net, c, start)
  {
  }

  lemma FoursAfterUser(net: Net, pol: Policy, b: Bytes, ext: Bytes, off: nat)
    requires pol.requireAuth && !UnknownType(net, pol, b) && ext == Filler(4, 2000)
    requires |b + ext| >= off + 1200 && |b| >= 2 && b[0] == 5 && off == 2 + b[1] as nat && 2 in (b + ext)[2..off]
    ensures !ServerParse(net, pol, b + ext).NeedMore?
  {
    var c := b + ext;
    ParseUser(net, pol, c, off);
    EnoughForUser(net, pol, c, off);
    if UserStep(net, pol, c, off).Ok? {
      var start := UserStep(net, pol, c, off).value;
      if |b| >= start + 4 {
        StartWithin(net, pol, b, ext, off);
      }
      FoursFrom(net, b, ext, start);
    }
  }

  lemma StartWithin(net: Net, pol: Policy, b: Bytes, ext: Bytes, off: nat)
    requires pol.requireAuth && |b| >= 3 && b[0] == 5 && off == 2 + b[1] as nat && off <= |b| && 2 in (b + ext)[2..off]
    requires UserStep(net, pol, b + ext, off).Ok? && UserStep(net, pol, b + ext, off).value <= |b|
    ensures RequestStart(net, pol, b) == Some(UserStep(net, pol, b + ext, off).value)
  {
    SliceExtends(b, ext, 2, off);
    UserWithin(net, pol, b, ext, off);
    StartIs(net, pol, b, off);
  }

  lemma StartIs(net: Net, pol: Policy, b: Bytes, off: nat)
    requires pol.requireAuth && |b| >= 3 && b[0] == 5 && off == 2 + b[1] as nat && off <= |b| && 2 in b[2..off]
    requires UserStep(net, pol, b, off).Ok?
    ensures RequestStart(net, pol, b) == Some(UserStep(net, pol, b, off).value)
  {
  }

  lemma FoursAfterGreeting(net: Net, pol: Policy, b: Bytes, ext: Bytes, off: nat)
    requires !pol.requireAuth && !UnknownType(net, pol, b) && ext == Filler(4, 2000)
    requires |b + ext| >= off + 1200 && |b| >= 2 && b[0] == 5 && off == 2 + b[1] as nat && 0 in (b + ext)[2..off]
    ensures !ServerParse(net, pol, b + ext).NeedMore?
  {
    var c := b + ext;
    if |b| >= off + 4 {
      assert c[2..off] == b[2..off];
      assert RequestStart(net, pol, b) == Some(off);
    }
    EnoughForRequest(net, c, off);
  }

  /** Bytes of value 4 complete every other request, and the address of an IPv6 target with it. */
  lemma FoursDecide(net: Net, pol: Policy, b: Bytes)
    requires !UnknownType(net, pol, b)
    ensures !ServerParse(net, pol, b + Filler(4, 2000)).NeedMore?
  {
    var ext := Filler(4, 2000);
    var c := b + ext;
    if c[0] == 5 && |b| >= 2 {
      var off := 2 + c[1] as nat;
      if pol.requireAuth && 2 in c[2..off] {
        FoursAfterUser(net, pol, b, ext, off);
      } else if !pol.requireAuth && 0 in c[2..off] {
        FoursAfterGreeting(net, pol, b, ext, off);
      }
    }
  }

  /** A username step that ends inside the buffer was there before the extension. */
  lemma UserWithin(net: Net, pol: Policy, b: Bytes, ext: Bytes, off: nat)
    requires UserStep(net, pol, b + ext, off).Ok? && UserStep(net, pol, b + ext, off).value <= |b|
    ensures UserStep(net, pol, b, off) == UserStep(net, pol, b + ext, off)
  {
    var c := b + ext;
    var ulen: nat := c[off + 1];
    var plen: nat := c[off + 2 + ulen];
    assert c[off + 2..off + 2 + ulen] == b[off + 2..off + 2 + ulen];
    assert c[off + 3 + ulen..off + 3 + ulen + plen] == b[off + 3 + ulen..off + 3 + ulen + plen];
  }

  /** No extension of a buffer is ever decided exactly when the request asks for an unknown address type. */
  lemma StuckIff(net: Net, pol: Policy, b: Bytes)
    ensures Stuck(Parser(net, pol), b) <==> UnknownType(net, pol, b)
  {
    var p := Parser(net, pol);
    if UnknownType(net, pol, b) {
      forall ext: Bytes
        ensures p(b + ext).NeedMore?
      {
        UnknownTypeNeverDecided(net, pol, b, ext);
      }
    } else {
      FoursDecide(net, pol, b);
      assert !p(b + Filler(4, 2000)).NeedMore?;
    }
  }

  // ---- Only the bytes in front of the offset count ----

  lemma ReadAddrTight(net: Net, b: Bytes, off: nat)
    requires ReadAddr(net, b, off).Some?
    ensures var k := ReadAddr(net, b, off).value.1; ReadAddr(net, b[..k], off) == ReadAddr(net, b, off)
  {
    var k := ReadAddr(net, b, off).value.1;
    if b[off] == 1 {
      SlicePrefix(b, k, off + 1, off + 5);
    } else if b[off] == 3 {
      SlicePrefix(b, k, off + 2, off + 2 + b[off + 1] as nat);
    } else {
      SlicePrefix(b, k, off + 1, off + 17);
    }
  }

  lemma ConnectTight(net: Net, b: Bytes, off: nat)
    requires ConnectStep(net, b, off).Ready?
    ensures var k := ConnectStep(net, b, off).offset;
            off + 4 < k <= |b| && ConnectStep(net, b[..k], off) == ConnectStep(net, b, off)
  {
    ReadAddrTight(net, b, off + 3);
  }

  lemma UserTight(net: Net, pol: Policy, b: Bytes, off: nat, k: nat)
    requires UserStep(net, pol, b, off).Ok? && UserStep(net, pol, b, off).value <= k <= |b|
    ensures UserStep(net, pol, b[..k], off) == UserStep(net, pol, b, off)
  {
    var ulen: nat := b[off + 1];
    var plen: nat := b[off + 2 + ulen];
    SlicePrefix(b, k, off + 2, off + 2 + ulen);
    SlicePrefix(b, k, off + 3 + ulen, off + 3 + ulen + plen);
  }

  lemma StartTight(net: Net, pol: Policy, b: Bytes, k: nat)
    requires RequestStart(net, pol, b).Some? && RequestStart(net, pol, b).value < k <= |b|
    ensures RequestStart(net, pol, b[..k]) == RequestStart(net, pol, b)
  {
    var off := 2 + b[1] as nat;
    SlicePrefix(b, k, 2, off);
    if pol.requireAuth {
      UserTight(net, pol, b, off, k);
    }
  }

  /** A request is accepted only behind a greeting and, if the policy asks for it, a username step that are through. */
  lemma ReadyHasStart(net: Net, pol: Policy, b: Bytes)
    requires ServerParse(net, pol, b).Ready?
    ensures RequestStart(net, pol, b).Some?
    ensures ServerParse(net, pol, b) == ConnectStep(net, b, RequestStart(net, pol, b).value)
  {
  }

  lemma ParserTight(net: Net, pol: Policy)
    ensures Tight(Parser(net, pol))
  {
    var p := Parser(net, pol);
    forall b: Bytes | p(b).Ready?
      ensures p(b).offset <= |b| && p(b[..p(b).offset]) == p(b)
    {
      ReadyHasStart(net, pol, b);
      var off, k := RequestStart(net, pol, b).value, p(b).offset;
      ConnectTight(net, b, off);
      StartTight(net, pol, b, k);
      ParseFromStart(net, pol, b[..k]);
    }
  }

  // ---- Round trip ----

  /** Reading at an offset is reading the rest of the buffer. */
  lemma ReadAddrShift(net: Net, before: Bytes, b: Bytes)
    requires ReadAddr(net, b, 0).Some?
    ensures var r := ReadAddr(net, b, 0).value;
            ReadAddr(net, before + b, |before|) == Some((r.0, |before| + r.1))
  {
    var off := |before|;
    var c := before + b;
    assert c[off] == b[0];
    if b[0] == 1 {
      assert c[off + 1..off + 5] == b[1..5];
    } else if b[0] == 3 {
      var n: nat := b[1];
      assert c[off + 2..off + 2 + n] == b[2..2 + n];
    } else {
      assert c[off + 1..off + 17] == b[1..17];
    }
  }

  lemma AddrRecovered(net: Net, host: Bytes, port: u16, rest: Bytes)
    requires net.Lawful() && net.utf8(host) && AddrBytes(net, host, port).Some?
    ensures var w := AddrBytes(net, host, port).value;
            ReadAddr(net, w + rest, 0) == Some((Target(net.Canonical(host), port), |w|))
  {
    var b := AddrBytes(net, host, port).value + rest;
    if net.parseV4(host).Some? {
      assert b[1..5] == net.parseV4(host).value;
    } else if net.parseV6(host).Some? {
      assert b[1..17] == net.parseV6(host).value;
    } else {
      assert b[2..2 + |host|] == host;
    }
  }

  lemma GreetingAccepted(net: Net, pol: Policy, tail: Bytes)
    requires !pol.requireAuth && ReadAddr(net, tail, 0).Some?
    ensures var r := ReadAddr(net, tail, 0).value;
            ServerParse(net, pol, GREETING_AND_CONNECT + tail) == Ready(r.0, 6 + r.1)
  {
    ReadAddrShift(net, GREETING_AND_CONNECT, tail);
    var b := GREETING_AND_CONNECT + tail;
    assert b[2..3] == [0];
  }

  /** A server that asks for no credentials recovers the target and cuts right behind the request. */
  lemma ConnectRecovered(net: Net, pol: Policy, host: Bytes, port: u16, rest: Bytes)
    requires net.Lawful() && net.utf8(host) && PipelineConnect(net, host, port).Some?
    requires !pol.requireAuth
    ensures var h := PipelineConnect(net, host, port).value;
            ServerParse(net, pol, h + rest) == Ready(Target(net.Canonical(host), port), |h|)
  {
    var w := AddrBytes(net, host, port).value;
    AddrRecovered(net, host, port, rest);
    assert GREETING_AND_CONNECT + w + rest == GREETING_AND_CONNECT + (w + rest);
    GreetingAccepted(net, pol, w + rest);
  }

  /** The pipelined greeting offers no username method, so a server that requires it always refuses. */
  lemma AuthServerRefuses(net: Net, pol: Policy, host: Bytes, port: u16, rest: Bytes)
    requires PipelineConnect(net, host, port).Some? && pol.requireAuth
    ensures ServerParse(net, pol, PipelineConnect(net, host, port).value + rest) == Invalid
  {
    var tail := AddrBytes(net, host, port).value + rest;
    assert PipelineConnect(net, host, port).value + rest == GREETING_AND_CONNECT + tail;
    GreetingRefused(net, pol, tail);
  }

  lemma GreetingRefused(net: Net, pol: Policy, tail: Bytes)
    requires pol.requireAuth
    ensures ServerParse(net, pol, GREETING_AND_CONNECT + tail) == Invalid
  {
    var b := GREETING_AND_CONNECT + tail;
    assert b[2..3] == [0];
  }

  // ---- The username step ----

  /** A username/password request: version 1, then two length-prefixed fields. */
  function UserBytes(user: Bytes, pass: Bytes): Bytes
    requires |user| <= 255 && |pass| <= 255
  {
    [1, |user|] + user + [|pass|] + pass
  }

  lemma UserBytesAt(before: Bytes, user: Bytes, pass: Bytes, rest: Bytes)
    requires |user| <= 255 && |pass| <= 255
    ensures var b, off := before + UserBytes(user, pass) + rest, |before|;
            && |b| >= off + 3 + |user| + |pass|
            && b[off] == 1 && b[off + 1] == |user| && b[off + 2 + |user|] == |pass|
            && b[off + 2..off + 2 + |user|] == user
            && b[off + 3 + |user|..off + 3 + |user| + |pass|] == pass
  {
    var m := UserBytes(user, pass);
    assert m[2..2 + |user|] == user && m[2 + |user|] == |pass| && m[3 + |user|..] == pass;
    var b, off := before + m + rest, |before|;
    assert b[off..off + |m|] == m;
    assert b[off + 2..off + 2 + |user|] == b[off..off + |m|][2..2 + |user|];
    assert b[off + 3 + |user|..off + |m|] == b[off..off + |m|][3 + |user|..];
  }

  /** A complete username request passes exactly when both fields, trimmed, are the configured ones. */
  lemma UserStepDecides(net: Net, pol: Policy, before: Bytes, user: Bytes, pass: Bytes, rest: Bytes)
    requires |user| <= 255 && |pass| <= 255
    ensures UserStep(net, pol, before + UserBytes(user, pass) + rest, |before|)
         == if Matches(net, pol.user, user) && Matches(net, pol.pass, pass)
            then Ok(|before| + |UserBytes(user, pass)|) else Err(Invalid)
  {
    UserBytesAt(before, user, pass, rest);
  }

  lemma ConnectStepShift(net: Net, before: Bytes, tail: Bytes)
    requires ReadAddr(net, tail, 0).Some?
    ensures var r := ReadAddr(net, tail, 0).value;
            ConnectStep(net, before + [5, 1, 0] + tail, |before|) == Ready(r.0, |before| + 3 + r.1)
  {
    ReadAddrShift(net, before + [5, 1, 0], tail);
  }

  /** A client that offers the username method and sends credentials and its request at once is connected exactly
      when the credentials are right, and refused otherwise. */
  lemma CredentialsDecide(net: Net, pol: Policy, methods: Bytes, user: Bytes, pass: Bytes, host: Bytes, port: u16,
                          rest: Bytes)
    requires net.Lawful() && net.utf8(host) && AddrBytes(net, host, port).Some? && pol.requireAuth
    requires 0 < |methods| <= 255 && 2 in methods && |user| <= 255 && |pass| <= 255
    ensures var greeting, auth := [5, |methods|] + methods, UserBytes(user, pass);
            var h := greeting + auth + [5, 1, 0] + AddrBytes(net, host, port).value;
            ServerParse(net, pol, h + rest)
              == if Matches(net, pol.user, user) && Matches(net, pol.pass, pass)
                 then Ready(Target(net.Canonical(host), port), |h|) else Invalid
  {
    var greeting, auth := [5, |methods|] + methods, UserBytes(user, pass);
    var addr := AddrBytes(net, host, port).value;
    AddrRecovered(net, host, port, rest);
    CredentialsThenRequest(net, pol, methods, user, pass, addr + rest);
    Associate(greeting + auth + [5, 1, 0], addr, rest);
  }

  lemma CredentialsThenRequest(net: Net, pol: Policy, methods: Bytes, user: Bytes, pass: Bytes, tail: Bytes)
    requires pol.requireAuth && ReadAddr(net, tail, 0).Some?
    requires 0 < |methods| <= 255 && 2 in methods && |user| <= 255 && |pass| <= 255
    ensures var front, r := [5, |methods|] + methods + UserBytes(user, pass), ReadAddr(net, tail, 0).value;
            ServerParse(net, pol, front + [5, 1, 0] + tail)
              == if Matches(net, pol.user, user) && Matches(net, pol.pass, pass)
                 then Ready(r.0, |front| + 3 + r.1) else Invalid
  {
    var greeting, auth := [5, |methods|] + methods, UserBytes(user, pass);
    var b := greeting + auth + [5, 1, 0] + tail;
    ConnectStepShift(net, greeting + auth, tail);
    UserStepInside(net, pol, greeting, user, pass, [5, 1, 0], tail);
    GreetingInside(methods, auth, [5, 1, 0], tail);
    StepsCompose(net, pol, b, |greeting|, UserStep(net, pol, b, |greeting|));
  }

  lemma UserStepInside(net: Net, pol: Policy, before: Bytes, user: Bytes, pass: Bytes, c: Bytes, d: Bytes)
    requires |user| <= 255 && |pass| <= 255
    ensures UserStep(net, pol, before + UserBytes(user, pass) + c + d, |before|)
         == if Matches(net, pol.user, user) && Matches(net, pol.pass, pass)
            then Ok(|before| + |UserBytes(user, pass)|) else Err(Invalid)
  {
    UserStepDecides(net, pol, before, user, pass, c + d);
    Associate(before + UserBytes(user, pass), c, d);
  }

  lemma GreetingInside(methods: Bytes, x: Bytes, c: Bytes, d: Bytes)
    requires 0 < |methods| <= 255
    ensures var b := [5, |methods|] + methods + x + c + d;
            |b| >= 3 && b[0] == 5 && b[1] == |methods| && b[2..2 + |methods|] == methods
  {
  }

  /** Behind a greeting that offers the username method the username step decides, and then the request. */
  lemma StepsCompose(net: Net, pol: Policy, b: Bytes, off: nat, step: Result<nat, Verdict<Target>>)
    requires pol.requireAuth && 3 <= |b| && b[0] == 5 && off == 2 + b[1] as nat <= |b| && 2 in b[2..off]
    requires step == UserStep(net, pol, b, off)
    ensures ServerParse(net, pol, b) == if step.Ok? then ConnectStep(net, b, step.value) else step.error
  {
  }
}
