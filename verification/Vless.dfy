/** VLESS request framing (wire-protocol/src/vless.rs). */
module Vless {
  import opened Prelude
  import opened Framing
  import opened HostText
  import Utf8

  datatype Address = IpV4(octets: Bytes) | Domain(name: Bytes) | IpV6(octets: Bytes)
  {
    /** What the Rust types guarantee: octet arrays of the right size and valid UTF-8 in a domain. */
    predicate Typed(net: Net) {
      match this
      case IpV4(o) => |o| == 4
      case IpV6(o) => |o| == 16
      case Domain(s) => net.utf8(s)
    }

    predicate Fits() {
      Domain? ==> |name| <= 255
    }

    function HostString(net: Net): Bytes {
      match this
      case IpV4(o) => ShowV4(o)
      case Domain(s) => s
      case IpV6(o) => net.showV6(o)
    }
  }

  function ReadAddress(net: Net, buf: Bytes, atype: byte): (r: Option<(Address, nat)>)
    ensures r.Some? ==> r.value.1 <= |buf|
  {
    if atype == 1 && |buf| >= 4 then Some((IpV4(buf[..4]), 4))
    else if atype == 2 && buf != [] then
      var n: nat := buf[0];
      if |buf| < 1 + n then None
      else if !net.utf8(buf[1..1 + n]) then None
      else Some((Domain(buf[1..1 + n]), 1 + n))
    else if atype == 3 && |buf| >= 16 then Some((IpV6(buf[..16]), 16))
    else None
  }

  datatype Request = Request(uuidOk: bool, port: u16, addr: Address)

  /** The payload is what follows the verdict's offset.  A request for more bytes always asks for more
      than the buffer holds. */
  function ParseRequest(net: Net, expected: Option<Bytes>, buf: Bytes): (v: Verdict<Request>)
    ensures v.NeedMore? ==> v.hint > |buf|
    ensures v.Ready? ==> v.offset <= |buf|
  {
    if |buf| < 22 then NeedMore(22)
    else if buf[0] != 0 then Invalid
    else
      var uuid := buf[1..17];
      var afterUuid := 18 + buf[17] as nat;
      if |buf| < afterUuid + 4 then NeedMore(afterUuid + 4)
      else if buf[afterUuid] != 1 then Invalid
      else
        var port := FromBigEndian16(buf[afterUuid + 1], buf[afterUuid + 2]);
        var atype := buf[afterUuid + 3];
        var addrStart := afterUuid + 4;
        if |buf| < addrStart + 1 then NeedMore(addrStart + 1)
        else
          match ReadAddress(net, buf[addrStart..], atype)
          case None => NeedMore(|buf| + 64)
          case Some((addr, alen)) =>
            var payloadOff := addrStart + alen;
            if |buf| < payloadOff then NeedMore(payloadOff)
            else Ready(Request(expected.None? || expected.value == uuid, port, addr), payloadOff)
  }

  function Parser(net: Net, expected: Option<Bytes>): Bytes -> Verdict<Request> {
    b => ParseRequest(net, expected, b)
  }

  /** Address type byte and address; a domain is cut after 255 bytes. */
  function AddressBytes(addr: Address): Bytes {
    match addr
    case IpV4(o) => [1] + o
    case Domain(s) => var n := Min(|s|, 255); [2, n] + s[..n]
    case IpV6(o) => [3] + o
  }

  /** The same bytes, pushed one field at a time as `vless_build_request` and `vmess_client_header` do. */
  method PushAddress(out: Bytes, addr: Address) returns (r: Bytes)
    ensures r == out + AddressBytes(addr)
  {
    r := out;
    match addr {
      case IpV4(o) =>
        r := r + [1];
        r := r + o;
      case Domain(s) =>
        r := r + [2];
        var n := Min(|s|, 255);
        r := r + [n];
        r := r + s[..n];
      case IpV6(o) =>
        r := r + [3];
        r := r + o;
    }
  }

  function Header(uuid: Bytes, port: u16, addr: Address): Bytes {
    [0] + uuid + [0, 1] + BigEndian16(port) + AddressBytes(addr)
  }

  method BuildRequest(uuid: Bytes, port: u16, addr: Address, payload: Bytes) returns (out: Bytes)
    ensures out == Header(uuid, port, addr) + payload
  {
    out := [0];
    out := out + uuid;
    out := out + [0];
    out := out + [1];
    out := out + BigEndian16(port);
    out := PushAddress(out, addr);
    out := out + payload;
  }

  // ---- Verdicts ----

  /** An address once read is read again, with the same length, from every longer buffer. */
  lemma ReadAddressFinal(net: Net, buf: Bytes, ext: Bytes, atype: byte)
    requires ReadAddress(net, buf, atype).Some?
    ensures ReadAddress(net, buf + ext, atype) == ReadAddress(net, buf, atype)
  {
    if atype == 2 {
      var n: nat := buf[0];
      assert (buf + ext)[1..1 + n] == buf[1..1 + n];
    } else {
      var n := if atype == 1 then 4 else 16;
      assert (buf + ext)[..n] == buf[..n];
    }
  }

  lemma ParseExtends(net: Net, expected: Option<Bytes>, b: Bytes, ext: Bytes)
    requires !ParseRequest(net, expected, b).NeedMore?
    ensures ParseRequest(net, expected, b + ext) == ParseRequest(net, expected, b)
  {
    var c := b + ext;
    assert c[1..17] == b[1..17];
    if b[0] == 0 && b[18 + b[17] as nat] == 1 {
      var addrStart := 22 + b[17] as nat;
      assert c[addrStart..] == b[addrStart..] + ext;
      ReadAddressFinal(net, b[addrStart..], ext, b[addrStart - 1]);
    }
  }

  lemma ParserFinal(net: Net, expected: Option<Bytes>)
    ensures Final(Parser(net, expected)) && InBounds(Parser(net, expected))
    ensures Parser(net, expected)([]).NeedMore?
  {
    var p := Parser(net, expected);
    forall b: Bytes, ext: Bytes | !p(b).NeedMore?
      ensures p(b + ext) == p(b)
    {
      ParseExtends(net, expected, b, ext);
    }
  }

  lemma ReadAddressTight(net: Net, buf: Bytes, atype: byte)
    requires ReadAddress(net, buf, atype).Some?
    ensures var n := ReadAddress(net, buf, atype).value.1;
            n >= 1 && ReadAddress(net, buf[..n], atype) == ReadAddress(net, buf, atype)
  {
    if atype == 2 {
      var n: nat := buf[0];
      assert buf[..1 + n][1..1 + n] == buf[1..1 + n];
    } else {
      var n := if atype == 1 then 4 else 16;
      assert buf[..n][..n] == buf[..n];
    }
  }

  lemma ParserTight(net: Net, expected: Option<Bytes>)
    ensures Tight(Parser(net, expected))
  {
    var p := Parser(net, expected);
    forall b: Bytes | p(b).Ready?
      ensures p(b).offset <= |b| && p(b[..p(b).offset]) == p(b)
    {
      var k, at := p(b).offset, 22 + b[17] as nat;
      ReadAddressTight(net, b[at..], b[at - 1]);
      assert b[..k][1..17] == b[1..17];
      assert b[..k][at..] == b[at..][..k - at];
    }
  }

  // ---- Round trip ----

  /** Reading back written address bytes; exact when the domain fits in its length byte. */
  lemma ReadWritten(net: Net, addr: Address, rest: Bytes)
    requires addr.Typed(net) && addr.Fits()
    ensures var w := AddressBytes(addr);
            ReadAddress(net, w[1..] + rest, w[0]) == Some((addr, |w| - 1))
  {
    var w := AddressBytes(addr);
    var buf := w[1..] + rest;
    match addr {
      case IpV4(o) => assert buf[..4] == o;
      case IpV6(o) => assert buf[..16] == o;
      case Domain(s) => assert buf[1..1 + |s|] == s;
    }
  }

  /** Of a longer domain the first 255 bytes are read back if they are valid UTF-8, and nothing otherwise. */
  lemma CutRead(net: Net, addr: Address, rest: Bytes)
    requires !addr.Fits()
    ensures var w := AddressBytes(addr);
            var name := addr.name[..255];
            && |w| == 257
            && ReadAddress(net, w[1..] + rest, w[0]) == if net.utf8(name) then Some((Domain(name), 256)) else None
  {
    var w := AddressBytes(addr);
    var buf := w[1..] + rest;
    assert buf[0] == 255 && buf[1..256] == addr.name[..255];
  }

  /** Where the fields of a written request land in the buffer. */
  lemma HeaderLayout(uuid: Bytes, port: u16, addr: Address, rest: Bytes)
    requires |uuid| == 16
    ensures var b := Header(uuid, port, addr) + rest;
            var w := AddressBytes(addr);
            && |Header(uuid, port, addr)| == 21 + |w| && |w| >= 1
            && b[0] == 0 && b[1..17] == uuid && b[17] == 0 && b[18] == 1
            && FromBigEndian16(b[19], b[20]) == port
            && b[21] == w[0] && b[22..] == w[1..] + rest
  {
    var w := AddressBytes(addr);
    var h := [0] + uuid + [0, 1] + BigEndian16(port);
    assert |h| == 21 && h[1..17] == uuid;
    var b := Header(uuid, port, addr) + rest;
    assert b == h + (w + rest);
    assert b[1..17] == uuid;
    assert b[21..] == w + rest;
    assert b[22..] == b[21..][1..];
  }

  /** The server recovers the request exactly when the domain fits: a longer one is cut by the writer. */
  lemma RequestRecovered(net: Net, expected: Option<Bytes>, uuid: Bytes, port: u16, addr: Address, rest: Bytes)
    requires |uuid| == 16 && addr.Typed(net)
    ensures var h := Header(uuid, port, addr);
            ParseRequest(net, expected, h + rest)
              == Ready(Request(expected.None? || expected.value == uuid, port, addr), |h|)
            <==> addr.Fits()
  {
    HeaderLayout(uuid, port, addr, rest);
    if addr.Fits() {
      ReadWritten(net, addr, rest);
    } else {
      CutRead(net, addr, rest);
    }
  }

  /** A domain that was cut is taken for its first 255 bytes, or, if they are not valid UTF-8, never decided. */
  lemma CutDomainVerdict(net: Net, expected: Option<Bytes>, uuid: Bytes, port: u16, addr: Address, rest: Bytes)
    requires |uuid| == 16 && !addr.Fits()
    ensures var h := Header(uuid, port, addr);
            var name := addr.name[..255];
            ParseRequest(net, expected, h + rest)
            == if net.utf8(name)
               then Ready(Request(expected.None? || expected.value == uuid, port, Domain(name)), |h|)
               else NeedMore(|h + rest| + 64)
  {
    HeaderLayout(uuid, port, addr, rest);
    CutRead(net, addr, rest);
  }

  // ---- Requests that are never decided ----

  /** A name that is announced with `n` bytes and begins like this can no longer be valid UTF-8. */
  predicate NameLost(n: nat, begun: Bytes) {
    if n <= |begun| then !Utf8.Valid(begun[..n]) else !Utf8.Completable(begun, n)
  }

  /** Version 0, the TCP command, and an address type that is unknown or a domain whose name is lost. */
  predicate Unreadable(b: Bytes) {
    && |b| >= 22 && b[0] == 0
    && var at := 22 + b[17] as nat;
    && at <= |b| && b[at - 4] == 1
    && (b[at - 1] !in {1, 2, 3} || (b[at - 1] == 2 && at < |b| && NameLost(b[at], b[at + 1..])))
  }

  lemma LostStaysLost(n: nat, begun: Bytes, more: Bytes)
    requires NameLost(n, begun) && |begun + more| >= n
    ensures !Utf8.Valid((begun + more)[..n])
  {
    var all := begun + more;
    if n <= |begun| {
      assert all[..n] == begun[..n];
    } else {
      var t := all[|begun|..n];
      assert all[..n] == begun + t;
      Utf8.CompletableIff(begun, n);
    }
  }

  lemma NameSlice(b: Bytes, ext: Bytes, at: nat, n: nat)
    requires at < |b| && at + n < |b + ext|
    ensures (b + ext)[at..][0] == b[at]
    ensures (b + ext)[at..][1..1 + n] == (b[at + 1..] + ext)[..n]
  {
    assert (b + ext)[at..] == [b[at]] + (b[at + 1..] + ext);
  }

  lemma UnreadableStays(net: Net, expected: Option<Bytes>, b: Bytes, ext: Bytes)
    requires net.Unicode() && Unreadable(b)
    ensures ParseRequest(net, expected, b + ext).NeedMore?
  {
    var at := 22 + b[17] as nat;
    var c := b + ext;
    if b[at - 1] == 2 {
      var n: nat := b[at];
      if |c| > at + n {
        NameSlice(b, ext, at, n);
        LostStaysLost(n, b[at + 1..], ext);
      }
    }
  }

  /** Bytes of value 1 complete every other request: version, command, port, type and address alike. */
  lemma OnesDecide(net: Net, expected: Option<Bytes>, b: Bytes)
    requires net.Unicode() && !Unreadable(b)
    requires |b| >= 22 && b[0] == 0 ==>
               var at := 22 + b[17] as nat; at < |b| && b[at - 4] == 1 ==> b[at - 1] != 2
    ensures !ParseRequest(net, expected, b + Filler(1, 600)).NeedMore?
  {
    var c := b + Filler(1, 600);
    if c[0] == 0 {
      var at := 22 + c[17] as nat;
      if c[at - 4] == 1 {
        OnesRead(net, b, at);
      }
    }
  }

  lemma OnesRead(net: Net, b: Bytes, at: nat)
    requires net.Unicode() && 22 <= at <= 277
    requires at <= |b| ==> b[at - 1] in {1, 2, 3}
    requires at < |b| ==> b[at - 1] != 2
    ensures var c := b + Filler(1, 600); ReadAddress(net, c[at..], c[at - 1]).Some?
  {
    var c := b + Filler(1, 600);
    if c[at - 1] == 2 {
      assert c[at..][0] == 1 && c[at..][1..2] == [1];
      assert Utf8.Valid([1]) by {
        assert [1][1..] == [];
      }
    }
  }

  /** A name that is not lost can be completed. */
  lemma NameCompleted(net: Net, expected: Option<Bytes>, b: Bytes) returns (ext: Bytes)
    requires net.Unicode() && !Unreadable(b) && |b| >= 22 && b[0] == 0
    requires var at := 22 + b[17] as nat; at < |b| && b[at - 4] == 1 && b[at - 1] == 2
    ensures ParseRequest(net, expected, b + ext).Ready?
  {
    var at := 22 + b[17] as nat;
    var n: nat, begun := b[at], b[at + 1..];
    if n <= |begun| {
      ext := [];
      assert begun + [] == begun;
    } else {
      Utf8.CompletableIff(begun, n);
      ext :| |ext| == n - |begun| && Utf8.Valid(begun + ext);
      assert (begun + ext)[..n] == begun + ext;
    }
    NameSlice(b, ext, at, n);
    NameRead(net, expected, b + ext, at, n);
  }

  lemma NameRead(net: Net, expected: Option<Bytes>, c: Bytes, at: nat, n: nat)
    requires |c| >= 22 && c[0] == 0 && at == 22 + c[17] as nat && at + n < |c| && c[at - 4] == 1 && c[at - 1] == 2
    requires c[at..][0] as nat == n && net.utf8(c[at..][1..1 + n])
    ensures ParseRequest(net, expected, c).Ready?
  {
  }

  /** No extension of a buffer is ever decided exactly when the buffer is unreadable. */
  lemma StuckIff(net: Net, expected: Option<Bytes>, b: Bytes)
    requires net.Unicode()
    ensures Stuck(Parser(net, expected), b) <==> Unreadable(b)
  {
    var p := Parser(net, expected);
    if Unreadable(b) {
      forall ext: Bytes
        ensures p(b + ext).NeedMore?
      {
        UnreadableStays(net, expected, b, ext);
      }
    } else {
      var ext := Decided(net, expected, b);
      assert !p(b + ext).NeedMore?;
    }
  }

  lemma Decided(net: Net, expected: Option<Bytes>, b: Bytes) returns (ext: Bytes)
    requires net.Unicode() && !Unreadable(b)
    ensures !ParseRequest(net, expected, b + ext).NeedMore?
  {
    if |b| < 22 || b[0] != 0 {
      ext := Filler(1, 600);
      OnesDecide(net, expected, b);
    } else {
      var at := 22 + b[17] as nat;
      if at < |b| && b[at - 4] == 1 && b[at - 1] == 2 {
        ext := NameCompleted(net, expected, b);
      } else {
        ext := Filler(1, 600);
        OnesDecide(net, expected, b);
      }
    }
  }

  /** Cut short, written address bytes are not read. */
  lemma CutAddressUnread(net: Net, addr: Address, n: nat)
    requires addr.Typed(net) && 1 <= n < |AddressBytes(addr)|
    ensures ReadAddress(net, AddressBytes(addr)[1..n], AddressBytes(addr)[0]).None?
  {
  }

  /** No strict prefix of a written request is decided, also when the writer cut the domain. */
  lemma PrefixUndecided(net: Net, expected: Option<Bytes>, uuid: Bytes, port: u16, addr: Address, n: nat)
    requires |uuid| == 16 && addr.Typed(net) && n < |Header(uuid, port, addr)|
    ensures ParseRequest(net, expected, Header(uuid, port, addr)[..n]).NeedMore?
  {
    var h := Header(uuid, port, addr);
    var w := AddressBytes(addr);
    HeaderLayout(uuid, port, addr, []);
    assert h + [] == h;
    if n >= 23 {
      CutAddressUnread(net, addr, n - 21);
      assert h[..n][22..] == h[22..][..n - 22] == w[1..][..n - 22] == w[1..n - 21];
    }
  }
}
