/** QUIC data-plane stream-init frames (wire-protocol/src/quic_dataplane.rs). */
module Quic {
  import opened Prelude
  import opened Framing

  const MAGIC: Bytes := [80, 81, 68, 80]

  datatype Frame = Frame(command: byte, ticket: Bytes, addrType: byte, addr: Bytes, port: u16)

  datatype Error = TooShort | BadMagic | UnsupportedVersion(version: byte) | TicketTooLong | InvalidAddress

  function FrameBytes(f: Frame): Bytes
    requires |f.ticket| <= 0xffff && |f.addr| <= 255
  {
    MAGIC + [1] + BigEndian16(|f.ticket|) + f.ticket + [f.command, f.addrType, |f.addr|] + f.addr + BigEndian16(f.port)
  }

  /** The address length is taken modulo 256 and compared back, as the `as u8` cast does. */
  method Encode(f: Frame) returns (r: Result<Bytes, Error>)
    ensures |f.ticket| > 0xffff ==> r == Err(TicketTooLong)
    ensures |f.ticket| <= 0xffff && |f.addr| > 255 ==> r == Err(InvalidAddress)
    ensures |f.ticket| <= 0xffff && |f.addr| <= 255 ==> r == Ok(FrameBytes(f))
  {
    if |f.ticket| > 0xffff {
      return Err(TicketTooLong);
    }
    var out: Bytes := MAGIC;
    out := out + [1];
    out := out + BigEndian16(|f.ticket|);
    out := out + f.ticket;
    ghost var head := out;
    out := out + [f.command];
    out := out + [f.addrType];
    var al: byte := |f.addr| % 256;
    if al != |f.addr| {
      return Err(InvalidAddress);
    }
    out := out + [al];
    assert out == head + [f.command, f.addrType, |f.addr|];
    out := out + f.addr;
    out := out + BigEndian16(f.port);
    r := Ok(out);
  }

  function WireLen(buf: Bytes): Option<nat> {
    if |buf| < 7 then None
    else if buf[0..4] != MAGIC then None
    else
      var base := 7 + FromBigEndian16(buf[5], buf[6]) as nat;
      if |buf| < base + 3 then None
      else Some(base + 3 + buf[base + 2] as nat + 2)
  }

  function Decode(buf: Bytes): Result<Frame, Error> {
    if |buf| < 7 then Err(TooShort)
    else if buf[0..4] != MAGIC then Err(BadMagic)
    else if buf[4] != 1 then Err(UnsupportedVersion(buf[4]))
    else
      var i := 7;
      var tl: nat := FromBigEndian16(buf[5], buf[6]);
      if |buf| < i + tl + 5 then Err(TooShort)
      else
        var ticket := buf[i..i + tl];
        var i := i + tl;
        var addrLen: nat := buf[i + 2];
        if |buf| < i + 3 + addrLen + 2 then Err(TooShort)
        else
          var addr := buf[i + 3..i + 3 + addrLen];
          var j := i + 3 + addrLen;
          Ok(Frame(buf[i], ticket, buf[i + 1], addr, FromBigEndian16(buf[j], buf[j + 1])))
  }

  /** `decode` as an incremental parser: only `TooShort` may change when bytes arrive. */
  function Verdict(buf: Bytes): Framing.Verdict<Frame> {
    match Decode(buf)
    case Ok(f) => Ready(f, if WireLen(buf).Some? then WireLen(buf).value else 0)
    case Err(TooShort) => NeedMore(0)
    case Err(_) => Invalid
  }

  function Parser(): Bytes -> Framing.Verdict<Frame> {
    b => Verdict(b)
  }

  lemma DecodeExtends(b: Bytes, ext: Bytes)
    requires Decode(b) != Err(TooShort)
    ensures Decode(b + ext) == Decode(b)
    ensures Decode(b).Ok? ==> WireLen(b + ext) == WireLen(b)
  {
    var c := b + ext;
    assert c[0..4] == b[0..4];
    if Decode(b).Ok? {
      var i := 7 + FromBigEndian16(b[5], b[6]) as nat;
      var addrLen: nat := b[i + 2];
      assert c[7..i] == b[7..i];
      assert c[i + 3..i + 3 + addrLen] == b[i + 3..i + 3 + addrLen];
    }
  }

  lemma ParserFinal()
    ensures Final(Parser()) && InBounds(Parser())
    ensures Parser()([]).NeedMore?
  {
    forall b: Bytes, ext: Bytes | !Parser()(b).NeedMore?
      ensures Parser()(b + ext) == Parser()(b)
    {
      DecodeExtends(b, ext);
    }
    forall b: Bytes | Parser()(b).Ready?
      ensures Parser()(b).offset <= |b|
    {
      DecodeIffComplete(b);
    }
  }

  /** Every buffer can still be decided. */
  lemma NeverStuck(b: Bytes)
    ensures !Stuck(Parser(), b)
  {
    var buf := b + Filler(0, 0x1_0200);
    assert !Parser()(buf).NeedMore?;
  }

  /** Decoding succeeds exactly on a buffer that holds the announced length and the known version. */
  lemma DecodeIffComplete(b: Bytes)
    ensures Decode(b).Ok? <==> WireLen(b).Some? && WireLen(b).value <= |b| && b[4] == 1
  {
  }

  /** Where the fields of a written frame land in the buffer. */
  lemma FrameLayout(f: Frame, rest: Bytes)
    requires |f.ticket| <= 0xffff && |f.addr| <= 255
    ensures var b := FrameBytes(f) + rest;
            var i := 7 + |f.ticket|;
            && |FrameBytes(f)| == i + 3 + |f.addr| + 2
            && b[..7] == [80, 81, 68, 80, 1] + BigEndian16(|f.ticket|)
            && b[7..i] == f.ticket
            && b[i..i + 3] == [f.command, f.addrType, |f.addr|]
            && b[i + 3..i + 3 + |f.addr|] == f.addr
            && b[i + 3 + |f.addr|..i + 5 + |f.addr|] == BigEndian16(f.port)
  {
    var head := MAGIC + [1] + BigEndian16(|f.ticket|);
    var mid := [f.command, f.addrType, |f.addr|];
    var front := head + f.ticket + mid + f.addr;
    var b := FrameBytes(f) + rest;
    var i := 7 + |f.ticket|;
    assert front[..i] == head + f.ticket && front[i..i + 3] == mid && front[i + 3..] == f.addr;
    assert b == front + BigEndian16(f.port) + rest;
    assert b[..i] == head + f.ticket;
    assert b[..7] == b[..i][..7] && b[7..i] == b[..i][7..];
    assert b[i..i + 3] == front[i..i + 3] && b[i + 3..i + 3 + |f.addr|] == front[i + 3..];
  }

  /** Decoding undoes encoding, whatever follows the frame. */
  lemma DecodeEncode(f: Frame, rest: Bytes)
    requires |f.ticket| <= 0xffff && |f.addr| <= 255
    ensures Decode(FrameBytes(f) + rest) == Ok(f)
    ensures WireLen(FrameBytes(f) + rest) == Some(|FrameBytes(f)|)
  {
    FrameLayout(f, rest);
    var b := FrameBytes(f) + rest;
    var i := 7 + |f.ticket|;
    var j := i + 3 + |f.addr|;
    assert b[0..4] == b[..7][..4] == MAGIC;
    assert b[4] == b[..7][4] == 1 && b[5] == b[..7][5] && b[6] == b[..7][6];
    assert FromBigEndian16(b[5], b[6]) == |f.ticket|;
    assert b[i] == b[i..i + 3][0] && b[i + 1] == b[i..i + 3][1] && b[i + 2] == b[i..i + 3][2];
    assert b[j] == b[j..j + 2][0] && b[j + 1] == b[j..j + 2][1];
    assert FromBigEndian16(b[j], b[j + 1]) == f.port;
  }

  /** No strict prefix of a frame is decided. */
  lemma PrefixTooShort(f: Frame, n: nat)
    requires |f.ticket| <= 0xffff && |f.addr| <= 255 && n < |FrameBytes(f)|
    ensures Decode(FrameBytes(f)[..n]) == Err(TooShort)
  {
    DecodeEncode(f, []);
    assert FrameBytes(f) + [] == FrameBytes(f);
    ParserFinal();
    assert Parser()(FrameBytes(f)) == Ready(f, |FrameBytes(f)|);
    NoEarlyVerdict(Parser(), FrameBytes(f), n);
    assert Parser()(FrameBytes(f)[..n]) == Verdict(FrameBytes(f)[..n]);
  }

  /** Encoding undoes decoding: the frame's bytes are the announced prefix of the buffer. */
  lemma EncodeDecode(b: Bytes)
    requires Decode(b).Ok?
    ensures WireLen(b).Some? && WireLen(b).value <= |b|
    ensures var f := Decode(b).value;
            && |f.ticket| <= 0xffff && |f.addr| <= 255
            && FrameBytes(f) == b[..WireLen(b).value]
  {
    var f := Decode(b).value;
    var tl := |f.ticket|;
    var i := 7 + tl;
    var j := i + 3 + |f.addr|;
    assert b[..7] == MAGIC + [1] + BigEndian16(tl) by {
      assert b[..7] == b[0..4] + [b[4], b[5], b[6]];
    }
    assert b[i..i + 3] == [f.command, f.addrType, |f.addr|];
    assert b[j..j + 2] == BigEndian16(f.port);
    assert b[..j + 2] == b[..7] + b[7..i] + b[i..i + 3] + b[i + 3..j] + b[j..j + 2];
  }
}
