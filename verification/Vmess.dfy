/** VMess open header and chunk framing (wire-protocol/src/vmess.rs).  MD5 and AES-128-GCM are fields of
    `Cipher`; clock readings and nonces are parameters. */
module Vmess {
  import opened Prelude
  import opened Framing
  import opened HostText
  import Vless

  const NONCE_LEN := 12
  const HEADER_PLAIN_MAX := 256

  datatype Cipher = Cipher(
    key: Bytes -> Bytes,
    seal: (Bytes, Bytes, Bytes) -> Bytes,
    unseal: (Bytes, Bytes, Bytes) -> Option<Bytes>)
  {
    /** Decryption undoes encryption, and a sealed text carries a 16-byte tag. */
    ghost predicate Lawful() {
      forall k: Bytes, n: Bytes, p: Bytes ::
        unseal(k, n, seal(k, n, p)) == Some(p) && |seal(k, n, p)| == |p| + 16
    }
  }

  datatype Open = Open(port: u16, addr: Vless.Address, timestamp: i64)

  datatype Error = CryptoError | ProtocolError

  // ---- Open header ----

  function HeaderPlain(now: i64, port: u16, addr: Vless.Address): Bytes {
    BigEndian64(now) + [1] + BigEndian16(port) + Vless.AddressBytes(addr)
  }

  /** `nonce || u16_be(len) || ciphertext` */
  function Packet(nonce: Bytes, len: u16, ct: Bytes): Bytes {
    nonce + BigEndian16(len) + ct
  }

  function SealedHeader(c: Cipher, uuid: Bytes, nonce: Bytes, plain: Bytes): Option<Bytes> {
    if |plain| > HEADER_PLAIN_MAX then None
    else
      var ct := c.seal(c.key(uuid), nonce, plain);
      Some(Packet(nonce, |ct| % 0x1_0000, ct))
  }

  function ClientHeader(c: Cipher, uuid: Bytes, port: u16, addr: Vless.Address, now: i64, nonce: Bytes): Option<Bytes> {
    SealedHeader(c, uuid, nonce, HeaderPlain(now, port, addr))
  }

  method BuildPlain(port: u16, addr: Vless.Address, now: i64) returns (plain: Bytes)
    ensures plain == HeaderPlain(now, port, addr)
  {
    plain := [];
    plain := plain + BigEndian64(now);
    assert plain == BigEndian64(now);
    plain := plain + [1];
    plain := plain + BigEndian16(port);
    plain := Vless.PushAddress(plain, addr);
  }

  method BuildClientHeader(c: Cipher, uuid: Bytes, port: u16, addr: Vless.Address, now: i64, nonce: Bytes)
    returns (r: Option<Bytes>)
    ensures r == ClientHeader(c, uuid, port, addr, now, nonce)
  {
    var plain := BuildPlain(port, addr, now);
    if |plain| > HEADER_PLAIN_MAX {
      return None;
    }
    var ct := c.seal(c.key(uuid), nonce, plain);
    var out: Bytes := nonce;
    out := out + BigEndian16(|ct| % 0x1_0000);
    out := out + ct;
    r := Some(out);
  }

  function OpenHeaderByteLen(buf: Bytes): Option<nat> {
    if |buf| < NONCE_LEN + 2 then None
    else Some(NONCE_LEN + 2 + FromBigEndian16(buf[NONCE_LEN], buf[NONCE_LEN + 1]))
  }

  function ReadHeader(net: Net, plain: Bytes, now: i64): Result<Open, Error> {
    if |plain| < 12 then Err(ProtocolError)
    else
      var ts := FromBigEndian64(plain[0..8]);
      if Abs(now - ts) > 120 then Err(ProtocolError)
      else if plain[8] != 1 then Err(ProtocolError)
      else
        match Vless.ReadAddress(net, plain[12..], plain[11])
        case None => Err(ProtocolError)
        case Some((addr, _)) => Ok(Open(FromBigEndian16(plain[9], plain[10]), addr, ts))
  }

  /** `Ok(None)` while the header is incomplete. */
  function ServerOpenHeader(c: Cipher, net: Net, uuid: Bytes, now: i64, buf: Bytes): Result<Option<Open>, Error> {
    if |buf| < NONCE_LEN + 2 then Ok(None)
    else
      var ctLen: nat := FromBigEndian16(buf[NONCE_LEN], buf[NONCE_LEN + 1]);
      if |buf| < NONCE_LEN + 2 + ctLen then Ok(None)
      else
        match c.unseal(c.key(uuid), buf[..NONCE_LEN], buf[NONCE_LEN + 2..NONCE_LEN + 2 + ctLen])
        case None => Err(CryptoError)
        case Some(plain) =>
          match ReadHeader(net, plain, now)
          case Err(e) => Err(e)
          case Ok(open) => Ok(Some(open))
  }

  /** The relay's decision: wait for the announced length, then open exactly that many bytes. */
  function ServerVerdict(c: Cipher, net: Net, uuid: Bytes, now: i64, buf: Bytes): Verdict<Open> {
    match OpenHeaderByteLen(buf)
    case None => NeedMore(0)
    case Some(hlen) =>
      if |buf| < hlen then NeedMore(0)
      else
        match ServerOpenHeader(c, net, uuid, now, buf[..hlen])
        case Err(_) => Invalid
        case Ok(None) => NeedMore(0)
        case Ok(Some(open)) => Ready(open, hlen)
  }

  function Parser(c: Cipher, net: Net, uuid: Bytes, now: i64): Bytes -> Verdict<Open> {
    b => ServerVerdict(c, net, uuid, now, b)
  }

  /** Opening a buffer looks at the announced bytes only, so it agrees with opening just those. */
  lemma OpenIgnoresTail(c: Cipher, net: Net, uuid: Bytes, now: i64, buf: Bytes)
    requires OpenHeaderByteLen(buf).Some? && OpenHeaderByteLen(buf).value <= |buf|
    ensures ServerOpenHeader(c, net, uuid, now, buf)
         == ServerOpenHeader(c, net, uuid, now, buf[..OpenHeaderByteLen(buf).value])
    ensures ServerOpenHeader(c, net, uuid, now, buf) != Ok(None)
  {
    var hlen := OpenHeaderByteLen(buf).value;
    var b := buf[..hlen];
    assert b[..NONCE_LEN] == buf[..NONCE_LEN];
    assert b[NONCE_LEN + 2..hlen] == buf[NONCE_LEN + 2..hlen];
  }

  lemma ParserFinal(c: Cipher, net: Net, uuid: Bytes, now: i64)
    ensures Final(Parser(c, net, uuid, now)) && InBounds(Parser(c, net, uuid, now))
    ensures Parser(c, net, uuid, now)([]).NeedMore?
  {
    var p := Parser(c, net, uuid, now);
    forall b: Bytes, ext: Bytes | !p(b).NeedMore?
      ensures p(b + ext) == p(b)
    {
      var hlen := OpenHeaderByteLen(b).value;
      assert (b + ext)[..hlen] == b[..hlen];
    }
  }

  /** Opening a buffer that holds the announced bytes decides, on these bytes alone. */
  lemma OpenedWhole(c: Cipher, net: Net, uuid: Bytes, now: i64, b: Bytes)
    requires OpenHeaderByteLen(b).Some? && OpenHeaderByteLen(b).value <= |b|
    ensures var v, hlen := ServerVerdict(c, net, uuid, now, b), OpenHeaderByteLen(b).value;
            && !v.NeedMore? && (v.Ready? ==> v.offset == hlen)
            && ServerVerdict(c, net, uuid, now, b[..hlen]) == v
  {
    var hlen := OpenHeaderByteLen(b).value;
    OpenIgnoresTail(c, net, uuid, now, b);
    assert b[..hlen][..hlen] == b[..hlen];
  }

  lemma ParserTight(c: Cipher, net: Net, uuid: Bytes, now: i64)
    ensures Tight(Parser(c, net, uuid, now))
  {
    var p := Parser(c, net, uuid, now);
    forall b: Bytes | p(b).Ready?
      ensures p(b).offset <= |b| && p(b[..p(b).offset]) == p(b)
    {
      OpenedWhole(c, net, uuid, now, b);
    }
  }

  /** Every buffer can still be decided: the announced length is at most 65549 bytes. */
  lemma NeverStuck(c: Cipher, net: Net, uuid: Bytes, now: i64, b: Bytes)
    ensures !Stuck(Parser(c, net, uuid, now), b)
  {
    var ext := Filler(0, 0x1_0010);
    OpenedWhole(c, net, uuid, now, b + ext);
    assert !Parser(c, net, uuid, now)(b + ext).NeedMore?;
  }

  /** Fields of a packet, read back from a buffer that starts with it. */
  lemma PacketLayout(nonce: Bytes, len: u16, ct: Bytes, rest: Bytes)
    requires |nonce| == NONCE_LEN
    ensures var b := Packet(nonce, len, ct) + rest;
            && b[..NONCE_LEN] == nonce
            && FromBigEndian16(b[NONCE_LEN], b[NONCE_LEN + 1]) == len
            && b[NONCE_LEN + 2..NONCE_LEN + 2 + |ct|] == ct
  {
  }

  lemma PlainLayout(port: u16, addr: Vless.Address, sent: i64)
    ensures var plain := HeaderPlain(sent, port, addr);
            var w := Vless.AddressBytes(addr);
            && |w| >= 1 && |plain| == 11 + |w|
            && plain[0..8] == BigEndian64(sent) && plain[8] == 1
            && plain[9..11] == BigEndian16(port)
            && plain[11] == w[0] && plain[12..] == w[1..]
  {
    var w := Vless.AddressBytes(addr);
    var front := BigEndian64(sent) + [1] + BigEndian16(port);
    assert |front| == 11 && front[0..8] == BigEndian64(sent) && front[9..11] == BigEndian16(port);
    var plain := HeaderPlain(sent, port, addr);
    assert plain == front + w;
    assert plain[..11] == front && plain[11..] == w;
    assert plain[0..8] == plain[..11][0..8] && plain[9..11] == plain[..11][9..11];
    assert plain[12..] == plain[11..][1..];
  }

  /** The plaintext is read back while the two clocks are within 120 seconds of each other. */
  lemma PlainRecovered(net: Net, port: u16, addr: Vless.Address, sent: i64, now: i64)
    requires addr.Typed(net) && addr.Fits()
    ensures ReadHeader(net, HeaderPlain(sent, port, addr), now)
         == if Abs(now - sent) <= 120 then Ok(Open(port, addr, sent)) else Err(ProtocolError)
  {
    var w := Vless.AddressBytes(addr);
    var plain := HeaderPlain(sent, port, addr);
    PlainLayout(port, addr, sent);
    BigEndian64Inverse(sent);
    assert plain[9] == plain[9..11][0] && plain[10] == plain[9..11][1];
    Vless.ReadWritten(net, addr, []);
    assert w[1..] + [] == w[1..];
  }

  /** A built header never holds a cut domain: the size limit refuses it first. */
  lemma BuiltHeaderFits(c: Cipher, uuid: Bytes, port: u16, addr: Vless.Address, now: i64, nonce: Bytes)
    ensures ClientHeader(c, uuid, port, addr, now, nonce).Some? && addr.Domain? ==> |addr.name| <= 243
    ensures addr.Domain? && |addr.name| <= 243 ==> ClientHeader(c, uuid, port, addr, now, nonce).Some?
  {
  }

  /** A header is built for every IP address and every domain of at most 243 bytes, and for no other. */
  lemma BuiltIff(c: Cipher, uuid: Bytes, port: u16, addr: Vless.Address, now: i64, nonce: Bytes)
    requires addr.IpV4? ==> |addr.octets| == 4
    requires addr.IpV6? ==> |addr.octets| == 16
    ensures ClientHeader(c, uuid, port, addr, now, nonce).Some? <==> !addr.Domain? || |addr.name| <= 243
  {
  }

  lemma PacketOpened(c: Cipher, net: Net, uuid: Bytes, now: i64, nonce: Bytes, ct: Bytes, plain: Bytes)
    requires |nonce| == NONCE_LEN && |ct| < 0x1_0000
    requires c.unseal(c.key(uuid), nonce, ct) == Some(plain)
    ensures OpenHeaderByteLen(Packet(nonce, |ct|, ct)) == Some(|Packet(nonce, |ct|, ct)|)
    ensures var r := ReadHeader(net, plain, now);
            ServerVerdict(c, net, uuid, now, Packet(nonce, |ct|, ct))
              == if r.Ok? then Ready(r.value, |Packet(nonce, |ct|, ct)|) else Invalid
  {
    var h := Packet(nonce, |ct|, ct);
    PacketLayout(nonce, |ct|, ct, []);
    assert h + [] == h;
    assert h[..|h|] == h;
  }

  lemma SealedOpened(c: Cipher, net: Net, uuid: Bytes, now: i64, nonce: Bytes, plain: Bytes)
    requires c.Lawful() && |nonce| == NONCE_LEN && SealedHeader(c, uuid, nonce, plain).Some?
    ensures var h := SealedHeader(c, uuid, nonce, plain).value;
            var r := ReadHeader(net, plain, now);
            ServerVerdict(c, net, uuid, now, h) == if r.Ok? then Ready(r.value, |h|) else Invalid
  {
    var ct := c.seal(c.key(uuid), nonce, plain);
    assert |ct| == |plain| + 16 && |ct| % 0x1_0000 == |ct|;
    PacketOpened(c, net, uuid, now, nonce, ct, plain);
  }

  /** The server recovers what the client sent, and cuts right behind the header, exactly while the two
      clocks agree to 120 seconds. */
  lemma HeaderRecovered(c: Cipher, net: Net, uuid: Bytes, port: u16, addr: Vless.Address, sent: i64, now: i64,
                        nonce: Bytes)
    requires c.Lawful() && addr.Typed(net) && |nonce| == NONCE_LEN
    requires ClientHeader(c, uuid, port, addr, sent, nonce).Some?
    ensures var h := ClientHeader(c, uuid, port, addr, sent, nonce).value;
            ServerVerdict(c, net, uuid, now, h)
              == if Abs(now - sent) <= 120 then Ready(Open(port, addr, sent), |h|) else Invalid
  {
    assert addr.Fits() by {
      BuiltHeaderFits(c, uuid, port, addr, sent, nonce);
    }
    PlainRecovered(net, port, addr, sent, now);
    SealedOpened(c, net, uuid, now, nonce, HeaderPlain(sent, port, addr));
  }

  /** No strict prefix of a header is decided, whatever the clocks say. */
  lemma PrefixUndecided(c: Cipher, net: Net, uuid: Bytes, port: u16, addr: Vless.Address, sent: i64, now: i64,
                        nonce: Bytes, n: nat)
    requires c.Lawful() && addr.Typed(net) && |nonce| == NONCE_LEN
    requires ClientHeader(c, uuid, port, addr, sent, nonce).Some?
    requires n < |ClientHeader(c, uuid, port, addr, sent, nonce).value|
    ensures ServerVerdict(c, net, uuid, now, ClientHeader(c, uuid, port, addr, sent, nonce).value[..n]).NeedMore?
  {
    var plain := HeaderPlain(sent, port, addr);
    SealedPrefix(c, net, uuid, now, nonce, plain, n);
  }

  lemma SealedPrefix(c: Cipher, net: Net, uuid: Bytes, now: i64, nonce: Bytes, plain: Bytes, n: nat)
    requires c.Lawful() && |nonce| == NONCE_LEN && SealedHeader(c, uuid, nonce, plain).Some?
    requires n < |SealedHeader(c, uuid, nonce, plain).value|
    ensures ServerVerdict(c, net, uuid, now, SealedHeader(c, uuid, nonce, plain).value[..n]).NeedMore?
  {
    var ct := c.seal(c.key(uuid), nonce, plain);
    assert |ct| == |plain| + 16 && |ct| % 0x1_0000 == |ct|;
    var h := Packet(nonce, |ct|, ct);
    PacketLayout(nonce, |ct|, ct, []);
    assert h + [] == h;
    if n >= NONCE_LEN + 2 {
      assert OpenHeaderByteLen(h[..n]) == OpenHeaderByteLen(h);
    }
  }

  // ---- Chunks ----

  function EncodeChunk(c: Cipher, uuid: Bytes, nonce: Bytes, plain: Bytes): Option<Bytes> {
    if |plain| > 0xffff then None
    else Some(Packet(nonce, |plain|, c.seal(c.key(uuid), nonce, plain)))
  }

  method BuildChunk(c: Cipher, uuid: Bytes, nonce: Bytes, plain: Bytes) returns (r: Option<Bytes>)
    ensures r == EncodeChunk(c, uuid, nonce, plain)
  {
    if |plain| > 0xffff {
      return None;
    }
    var ct := c.seal(c.key(uuid), nonce, plain);
    var out: Bytes := nonce;
    out := out + BigEndian16(|plain|);
    out := out + ct;
    r := Some(out);
  }

  /** The payload and the number of bytes it took; `Ok(None)` while the chunk is incomplete. */
  function DecodeChunk(c: Cipher, uuid: Bytes, buf: Bytes): (r: Result<Option<(Bytes, nat)>, Error>)
    ensures r.Ok? && r.value.Some? ==> 30 <= r.value.value.1 <= |buf|
  {
    if |buf| < NONCE_LEN + 2 then Ok(None)
    else
      var plainLen: nat := FromBigEndian16(buf[NONCE_LEN], buf[NONCE_LEN + 1]);
      var total := NONCE_LEN + 2 + plainLen + 16;
      if |buf| < total then Ok(None)
      else
        match c.unseal(c.key(uuid), buf[..NONCE_LEN], buf[NONCE_LEN + 2..total])
        case None => Err(CryptoError)
        case Some(plain) =>
          if |plain| != plainLen then Err(ProtocolError) else Ok(Some((plain, total)))
  }

  lemma ChunkRecovered(c: Cipher, uuid: Bytes, nonce: Bytes, plain: Bytes, rest: Bytes)
    requires c.Lawful() && |nonce| == NONCE_LEN && |plain| <= 0xffff
    ensures var e := EncodeChunk(c, uuid, nonce, plain).value;
            |e| == |plain| + 30 && DecodeChunk(c, uuid, e + rest) == Ok(Some((plain, |e|)))
  {
    PacketLayout(nonce, |plain|, c.seal(c.key(uuid), nonce, plain), rest);
  }

  /** No cut inside a chunk is decoded. */
  lemma ChunkCut(c: Cipher, uuid: Bytes, nonce: Bytes, plain: Bytes, n: nat)
    requires c.Lawful() && |nonce| == NONCE_LEN && |plain| <= 0xffff
    requires n < |EncodeChunk(c, uuid, nonce, plain).value|
    ensures DecodeChunk(c, uuid, EncodeChunk(c, uuid, nonce, plain).value[..n]) == Ok(None)
  {
    var e := EncodeChunk(c, uuid, nonce, plain).value;
    PacketLayout(nonce, |plain|, c.seal(c.key(uuid), nonce, plain), []);
    assert e + [] == e;
  }

  /** One payload with the nonce drawn for it. */
  datatype Item = Item(nonce: Bytes, plain: Bytes)

  {
    predicate Sendable() {
      |nonce| == NONCE_LEN && |plain| <= 0xffff
    }
  }

  predicate AllSendable(items: seq<Item>) {
    forall i :: 0 <= i < |items| ==> items[i].Sendable()
  }

  function EncodeAll(c: Cipher, uuid: Bytes, items: seq<Item>): Bytes
    requires AllSendable(items)
  {
    if items == [] then []
    else EncodeChunk(c, uuid, items[0].nonce, items[0].plain).value + EncodeAll(c, uuid, items[1..])
  }

  function Plains(items: seq<Item>): seq<Bytes> {
    seq(|items|, i requires 0 <= i < |items| => items[i].plain)
  }

  /** Repeated decoding: the payloads recovered and the bytes left over, or an error. */
  function DecodeAll(c: Cipher, uuid: Bytes, buf: Bytes): Result<(seq<Bytes>, Bytes), Error>
    decreases |buf|
  {
    match DecodeChunk(c, uuid, buf)
    case Err(e) => Err(e)
    case Ok(None) => Ok(([], buf))
    case Ok(Some((plain, total))) =>
      match DecodeAll(c, uuid, buf[total..])
      case Err(e) => Err(e)
      case Ok((more, left)) => Ok(([plain] + more, left))
  }

  lemma DecodeAllStep(c: Cipher, uuid: Bytes, item: Item, rest: Bytes)
    requires c.Lawful() && item.Sendable() && DecodeAll(c, uuid, rest).Ok?
    ensures var r := DecodeAll(c, uuid, rest).value;
            DecodeAll(c, uuid, EncodeChunk(c, uuid, item.nonce, item.plain).value + rest)
              == Ok(([item.plain] + r.0, r.1))
  {
    var e := EncodeChunk(c, uuid, item.nonce, item.plain).value;
    ChunkRecovered(c, uuid, item.nonce, item.plain, rest);
    assert (e + rest)[|e|..] == rest;
  }

  lemma NothingDecoded(c: Cipher, uuid: Bytes, next: Item, n: nat)
    requires c.Lawful() && next.Sendable() && n < |EncodeChunk(c, uuid, next.nonce, next.plain).value|
    ensures var part := EncodeChunk(c, uuid, next.nonce, next.plain).value[..n];
            DecodeAll(c, uuid, part) == Ok(([], part))
  {
    ChunkCut(c, uuid, next.nonce, next.plain, n);
  }

  /** The encoded stream, cut anywhere inside a later chunk (or not at all), decodes to exactly the payloads
      whose chunks are complete and leaves the rest of the bytes. */
  lemma {:induction false} StreamRecovered(c: Cipher, uuid: Bytes, items: seq<Item>, next: Item, n: nat)
    requires c.Lawful() && AllSendable(items) && next.Sendable()
    requires n < |EncodeChunk(c, uuid, next.nonce, next.plain).value|
    ensures var part := EncodeChunk(c, uuid, next.nonce, next.plain).value[..n];
            DecodeAll(c, uuid, EncodeAll(c, uuid, items) + part) == Ok((Plains(items), part))
  {
    var part := EncodeChunk(c, uuid, next.nonce, next.plain).value[..n];
    if items == [] {
      assert EncodeAll(c, uuid, items) + part == part;
      NothingDecoded(c, uuid, next, n);
      assert Plains(items) == [];
    } else {
      var e, later := EncodeChunk(c, uuid, items[0].nonce, items[0].plain).value, EncodeAll(c, uuid, items[1..]);
      Associate(e, later, part);
      StreamRecovered(c, uuid, items[1..], next, n);
      DecodeAllStep(c, uuid, items[0], later + part);
      assert Plains(items) == [items[0].plain] + Plains(items[1..]);
    }
  }
}
