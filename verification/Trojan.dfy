/** Trojan auth line and address (wire-protocol/src/trojan.rs).  SHA-224 is the parameter `sha224`. */
module Trojan {
  import opened Prelude
  import opened Framing
  import opened HostText
  import Hex

  const CRLF: Bytes := [13, 10]

  datatype Addr = Addr(host: Bytes, port: u16)

  function AuthLine(sha224: Bytes -> Bytes, password: Bytes): Bytes {
    Hex.Encode(sha224(password)) + CRLF
  }

  method BuildAuthLine(sha224: Bytes -> Bytes, password: Bytes) returns (out: Bytes)
    ensures out == AuthLine(sha224, password)
  {
    var d := sha224(password);
    out := [];
    for i := 0 to |d|
      invariant out == Hex.Encode(d[..i])
    {
      assert d[..i + 1][..i] == d[..i];
      out := out + [Hex.Digit(d[i] / 16)];
      out := out + [Hex.Digit(d[i] % 16)];
    }
    assert d[..|d|] == d;
    out := out + CRLF;
  }

  predicate Verify(sha224: Bytes -> Bytes, line: Bytes, password: Bytes) {
    |line| == 56 && var e := AuthLine(sha224, password); |e| >= 56 && line == e[..56]
  }

  /** `Ok(None)` is `NeedMore`, an error is `Invalid`. */
  function ParseAddress(net: Net, buf: Bytes): Verdict<Addr> {
    if |buf| < 3 then NeedMore(0)
    else if buf[0] == 1 then
      if |buf| < 7 then NeedMore(0)
      else Ready(Addr(ShowV4(buf[1..5]), FromBigEndian16(buf[5], buf[6])), 7)
    else if buf[0] == 3 then
      var n: nat := buf[1];
      if |buf| < 2 + n + 2 then NeedMore(0)
      else if !net.utf8(buf[2..2 + n]) then Invalid
      else Ready(Addr(buf[2..2 + n], FromBigEndian16(buf[2 + n], buf[2 + n + 1])), 2 + n + 2)
    else if buf[0] == 4 then
      if |buf| < 19 then NeedMore(0)
      else Ready(Addr(net.showV6(buf[1..17]), FromBigEndian16(buf[17], buf[18])), 19)
    else Invalid
  }

  function AddressBytes(net: Net, a: Addr): Option<Bytes> {
    if net.parseV4(a.host).Some? then Some([1] + net.parseV4(a.host).value + BigEndian16(a.port))
    else if net.parseV6(a.host).Some? then Some([4] + net.parseV6(a.host).value + BigEndian16(a.port))
    else if |a.host| > 255 then None
    else Some([3, |a.host|] + a.host + BigEndian16(a.port))
  }

  method BuildAddress(net: Net, a: Addr) returns (r: Option<Bytes>)
    ensures r == AddressBytes(net, a)
  {
    var ip4 := net.parseV4(a.host);
    if ip4.Some? {
      var v: Bytes := [1];
      v := v + ip4.value;
      v := v + BigEndian16(a.port);
      return Some(v);
    }
    var ip6 := net.parseV6(a.host);
    if ip6.Some? {
      var v: Bytes := [4];
      v := v + ip6.value;
      v := v + BigEndian16(a.port);
      return Some(v);
    }
    if |a.host| > 255 {
      return None;
    }
    var v: Bytes := [3, |a.host|];
    v := v + a.host;
    v := v + BigEndian16(a.port);
    r := Some(v);
  }

  predicate CrlfAt(buf: Bytes, i: nat) {
    i + 2 <= |buf| && buf[i..i + 2] == CRLF
  }

  /** Position of the first CR LF pair at or after `from`. */
  function FindCrlf(buf: Bytes, from: nat): (r: Option<nat>)
    requires from <= |buf|
    ensures r.Some? ==> from <= r.value && CrlfAt(buf, r.value)
    ensures forall i :: from <= i && CrlfAt(buf, i) ==> r.Some? && r.value <= i
    decreases |buf| - from
  {
    if from + 2 > |buf| then None
    else if CrlfAt(buf, from) then Some(from)
    else FindCrlf(buf, from + 1)
  }

  function ServerHandshake(net: Net, sha224: Bytes -> Bytes, password: Bytes, buf: Bytes): Verdict<Addr> {
    match FindCrlf(buf, 0)
    case None => NeedMore(58)
    case Some(pos) =>
      if pos < 56 then NeedMore(58)
      else if pos != 56 || !Verify(sha224, buf[..pos], password) then Invalid
      else
        var after := pos + 2;
        if |buf| <= after then NeedMore(after + 7)
        else
          match ParseAddress(net, buf[after..])
          case Ready(addr, consumed) => Ready(addr, after + consumed)
          case NeedMore(_) => NeedMore(after + 7)
          case Invalid => Invalid
  }

  function Parser(net: Net, sha224: Bytes -> Bytes, password: Bytes): Bytes -> Verdict<Addr> {
    b => ServerHandshake(net, sha224, password, b)
  }

  // ---- Verdicts ----

  lemma ParseAddressExtends(net: Net, b: Bytes, ext: Bytes)
    requires !ParseAddress(net, b).NeedMore?
    ensures ParseAddress(net, b + ext) == ParseAddress(net, b)
  {
    var c := b + ext;
    if b[0] == 1 {
      assert c[1..5] == b[1..5];
    } else if b[0] == 3 {
      var n: nat := b[1];
      assert c[2..2 + n] == b[2..2 + n];
    } else if b[0] == 4 {
      assert c[1..17] == b[1..17];
    }
  }

  /** The first line break stays the first when bytes are appended. */
  lemma {:induction false} FindCrlfExtends(b: Bytes, ext: Bytes, from: nat)
    requires from <= |b| && FindCrlf(b, from).Some?
    ensures FindCrlf(b + ext, from) == FindCrlf(b, from)
    decreases |b| - from
  {
    assert (b + ext)[from..from + 2] == b[from..from + 2];
    if !CrlfAt(b, from) {
      FindCrlfExtends(b, ext, from + 1);
    }
  }

  lemma DropAppend(b: Bytes, ext: Bytes, k: nat)
    requires k <= |b|
    ensures (b + ext)[k..] == b[k..] + ext
  {
  }

  lemma HandshakeExtends(net: Net, sha224: Bytes -> Bytes, password: Bytes, b: Bytes, ext: Bytes)
    requires !ServerHandshake(net, sha224, password, b).NeedMore?
    ensures ServerHandshake(net, sha224, password, b + ext) == ServerHandshake(net, sha224, password, b)
  {
    FindCrlfExtends(b, ext, 0);
    var pos := FindCrlf(b, 0).value;
    assert CrlfAt(b, pos);
    assert (b + ext)[..pos] == b[..pos];
    if pos == 56 && Verify(sha224, b[..pos], password) {
      DropAppend(b, ext, pos + 2);
      ParseAddressExtends(net, b[pos + 2..], ext);
    }
  }

  lemma ParserFinal(net: Net, sha224: Bytes -> Bytes, password: Bytes)
    ensures Final(Parser(net, sha224, password)) && InBounds(Parser(net, sha224, password))
    ensures Parser(net, sha224, password)([]).NeedMore?
  {
    var p := Parser(net, sha224, password);
    forall b: Bytes, ext: Bytes | !p(b).NeedMore?
      ensures p(b + ext) == p(b)
    {
      HandshakeExtends(net, sha224, password, b, ext);
    }
  }

  lemma ParseAddressTight(net: Net, buf: Bytes)
    requires ParseAddress(net, buf).Ready?
    ensures var k := ParseAddress(net, buf).offset;
            3 <= k <= |buf| && ParseAddress(net, buf[..k]) == ParseAddress(net, buf)
  {
    var k := ParseAddress(net, buf).offset;
    if buf[0] == 1 {
      assert buf[..k][1..5] == buf[1..5];
    } else if buf[0] == 3 {
      var n: nat := buf[1];
      assert buf[..k][2..2 + n] == buf[2..2 + n];
    } else {
      assert buf[..k][1..17] == buf[1..17];
    }
  }

  lemma FindCrlfPrefix(b: Bytes, k: nat)
    requires FindCrlf(b, 0).Some? && FindCrlf(b, 0).value + 2 <= k <= |b|
    ensures FindCrlf(b[..k], 0) == FindCrlf(b, 0)
  {
    assert b == b[..k] + b[k..];
    var pos := FindCrlf(b, 0).value;
    assert b[..k][pos..pos + 2] == b[pos..pos + 2];
    assert CrlfAt(b[..k], pos);
    FindCrlfExtends(b[..k], b[k..], 0);
  }

  lemma ParserTight(net: Net, sha224: Bytes -> Bytes, password: Bytes)
    ensures Tight(Parser(net, sha224, password))
  {
    var p := Parser(net, sha224, password);
    forall b: Bytes | p(b).Ready?
      ensures p(b).offset <= |b| && p(b[..p(b).offset]) == p(b)
    {
      var k := p(b).offset;
      ParseAddressTight(net, b[58..]);
      FindCrlfPrefix(b, k);
      assert b[..k][..56] == b[..56];
      assert b[..k][58..] == b[58..][..k - 58];
    }
  }

  /** A buffer whose first line ends before byte 56 never gets a verdict, whatever follows. */
  lemma ShortLineNeverDecided(net: Net, sha224: Bytes -> Bytes, password: Bytes, b: Bytes, ext: Bytes)
    requires FindCrlf(b, 0).Some? && FindCrlf(b, 0).value < 56
    ensures ServerHandshake(net, sha224, password, b + ext) == NeedMore(58)
  {
    FindCrlfExtends(b, ext, 0);
  }

  lemma EnoughForAddress(net: Net, b: Bytes)
    requires |b| >= 260
    ensures !ParseAddress(net, b).NeedMore?
  {
  }

  /** A buffer without a line break is decided by one that comes too late. */
  lemma LateLineDecides(net: Net, sha224: Bytes -> Bytes, password: Bytes, b: Bytes)
    requires FindCrlf(b, 0).None?
    ensures ServerHandshake(net, sha224, password, b + (Filler(0, 58) + CRLF)) == Invalid
  {
    var c := b + (Filler(0, 58) + CRLF);
    var n := |b| + 58;
    assert c[n..n + 2] == CRLF;
    assert CrlfAt(c, n);
    var pos := FindCrlf(c, 0).value;
    if pos < n {
      assert c[pos] == c[pos..pos + 2][0] && c[pos + 1] == c[pos..pos + 2][1];
      if pos + 1 < |b| {
        assert b[pos..pos + 2] == c[pos..pos + 2];
        assert CrlfAt(b, pos);
      }
    }
  }

  /** No extension of a buffer is ever decided exactly when its first line ends before byte 56. */
  lemma StuckIff(net: Net, sha224: Bytes -> Bytes, password: Bytes, b: Bytes)
    ensures Stuck(Parser(net, sha224, password), b) <==> FindCrlf(b, 0).Some? && FindCrlf(b, 0).value < 56
  {
    var p := Parser(net, sha224, password);
    match FindCrlf(b, 0) {
      case None =>
        LateLineDecides(net, sha224, password, b);
        assert !p(b + (Filler(0, 58) + CRLF)).NeedMore?;
      case Some(pos) =>
        if pos < 56 {
          forall ext: Bytes
            ensures p(b + ext).NeedMore?
          {
            ShortLineNeverDecided(net, sha224, password, b, ext);
          }
        } else {
          var ext := Filler(0, 300);
          FindCrlfExtends(b, ext, 0);
          assert CrlfAt(b, pos);
          assert (b + ext)[..pos] == b[..pos];
          EnoughForAddress(net, (b + ext)[pos + 2..]);
          assert !p(b + ext).NeedMore?;
        }
    }
  }

  // ---- Round trip ----

  lemma AddressRecovered(net: Net, a: Addr, rest: Bytes)
    requires net.Lawful() && net.utf8(a.host) && AddressBytes(net, a).Some?
    ensures var w := AddressBytes(net, a).value;
            ParseAddress(net, w + rest) == Ready(Addr(net.Canonical(a.host), a.port), |w|)
  {
    var w := AddressBytes(net, a).value;
    var b := w + rest;
    if net.parseV4(a.host).Some? {
      assert b[1..5] == net.parseV4(a.host).value;
    } else if net.parseV6(a.host).Some? {
      assert b[1..17] == net.parseV6(a.host).value;
    } else {
      assert b[2..2 + |a.host|] == a.host;
    }
  }

  /** The hex line holds no CR, so the line break is found right after it. */
  lemma AuthLineEnds(sha224: Bytes -> Bytes, password: Bytes, rest: Bytes)
    requires |sha224(password)| == 28
    ensures FindCrlf(AuthLine(sha224, password) + rest, 0) == Some(56)
  {
    var hex := Hex.Encode(sha224(password));
    var b := AuthLine(sha224, password) + rest;
    forall i | 0 <= i < 56
      ensures !CrlfAt(b, i)
    {
      Hex.EncodeDigits(sha224(password), i);
      assert b[i] == hex[i];
    }
    assert CrlfAt(b, 56);
  }

  lemma HandshakeRecovered(net: Net, sha224: Bytes -> Bytes, password: Bytes, a: Addr, rest: Bytes)
    requires net.Lawful() && net.utf8(a.host) && AddressBytes(net, a).Some?
    requires |sha224(password)| == 28
    ensures var h := AuthLine(sha224, password) + AddressBytes(net, a).value;
            ServerHandshake(net, sha224, password, h + rest)
              == Ready(Addr(net.Canonical(a.host), a.port), |h|)
  {
    var line, w := AuthLine(sha224, password), AddressBytes(net, a).value;
    AuthLineEnds(sha224, password, w + rest);
    LineThenAddress(line, w, rest);
    AddressRecovered(net, a, rest);
  }

  lemma LineThenAddress(line: Bytes, w: Bytes, rest: Bytes)
    requires |line| == 58
    ensures var b := line + w + rest;
            b == line + (w + rest) && b[..56] == line[..56] && b[58..] == w + rest
  {
    Associate(line, w, rest);
  }

  /** A complete first line decides the authentication: any other line than the password's is refused, and only
      buffers that start with the password's auth line are ever accepted. */
  lemma AuthDecides(net: Net, sha224: Bytes -> Bytes, password: Bytes, b: Bytes)
    requires |sha224(password)| == 28
    ensures var v := ServerHandshake(net, sha224, password, b);
            && (v.Ready? ==> AuthLine(sha224, password) <= b)
            && (FindCrlf(b, 0).Some? && FindCrlf(b, 0).value >= 56 && !(AuthLine(sha224, password) <= b)
                ==> v == Invalid)
  {
    var line := AuthLine(sha224, password);
    assert line[..56] == Hex.Encode(sha224(password));
    if FindCrlf(b, 0) == Some(56) {
      assert CrlfAt(b, 56);
      assert b[..58] == b[..56] + b[56..58];
    }
  }
}
