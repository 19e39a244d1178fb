/** The canonical HMAC input and its verification (challenge-response-auth/shared/src/crypto.rs).  The MAC itself is
    the parameter `mac`. */
module HmacMessage {
  import opened Prelude
  import Ascii
  import Hex

  const NONCE_LEN := 16
  const MAX_SESSION_ID := 128

  /** "HCR1-v1" and a zero byte. */
  const DOMAIN: Bytes := [72, 67, 82, 49, 45, 118, 49, 0]

  datatype Error = NonceTooLong | SessionIdTooLong | SignatureNotHex | SignatureLength

  function Message(nonce: Bytes, ts: i64, sid: Bytes): Bytes
    requires |nonce| <= NONCE_LEN && |sid| <= MAX_SESSION_ID
  {
    DOMAIN + LittleEndian16(|nonce|) + nonce + BigEndian64(ts) + LittleEndian16(|sid|) + sid
  }

  method CanonicalMessage(nonce: Bytes, ts: i64, sid: Bytes) returns (r: Result<Bytes, Error>)
    ensures |nonce| > 16 ==> r == Err(NonceTooLong)
    ensures |nonce| <= 16 && |sid| > 128 ==> r == Err(SessionIdTooLong)
    ensures |nonce| <= 16 && |sid| <= 128 ==> r == Ok(Message(nonce, ts, sid))
  {
    if |nonce| > NONCE_LEN {
      return Err(NonceTooLong);
    }
    if |sid| > MAX_SESSION_ID {
      return Err(SessionIdTooLong);
    }
    var out: Bytes := DOMAIN;
    out := out + LittleEndian16(|nonce|);
    out := out + nonce;
    out := out + BigEndian64(ts);
    out := out + LittleEndian16(|sid|);
    out := out + sid;
    r := Ok(out);
  }

  // ---- The fields can be read back ----

  datatype Fields = Fields(nonce: Bytes, ts: i64, sid: Bytes)

  /** A length-prefixed field and what follows it. */
  function TakeField(b: Bytes): Option<(Bytes, Bytes)> {
    if |b| < 2 then None
    else
      var n: nat := b[0] + 256 * b[1] as nat;
      if |b| < 2 + n then None else Some((b[2..2 + n], b[2 + n..]))
  }

  function ReadMessage(m: Bytes): Option<Fields> {
    if |m| < 8 || m[..8] != DOMAIN then None
    else
      match TakeField(m[8..])
      case None => None
      case Some((nonce, rest)) =>
        if |rest| < 8 then None
        else
          match TakeField(rest[8..])
          case None => None
          case Some((sid, end)) =>
            if end != [] then None else Some(Fields(nonce, FromBigEndian64(rest[..8]), sid))
  }

  lemma TakeWritten(f: Bytes, rest: Bytes)
    requires |f| < 0x1_0000
    ensures TakeField(LittleEndian16(|f|) + f + rest) == Some((f, rest))
  {
    var b := LittleEndian16(|f|) + f + rest;
    assert b[0] + 256 * b[1] as nat == |f|;
    assert b[2..2 + |f|] == f;
    assert b[2 + |f|..] == rest;
  }

  /** The message in three pieces: domain, nonce field, and time stamp with session field. */
  lemma MessageLayout(nonce: Bytes, ts: i64, sid: Bytes, rest: Bytes)
    requires |nonce| <= NONCE_LEN && |sid| <= MAX_SESSION_ID
    requires rest == BigEndian64(ts) + (LittleEndian16(|sid|) + sid + [])
    ensures var m := Message(nonce, ts, sid);
            m[..8] == [72, 67, 82, 49, 45, 118, 49, 0] && m[8..] == LittleEndian16(|nonce|) + nonce + rest
    ensures rest[..8] == BigEndian64(ts) && rest[8..] == LittleEndian16(|sid|) + sid + []
  {
    var m := Message(nonce, ts, sid);
    assert m == DOMAIN + (LittleEndian16(|nonce|) + nonce + rest);
  }

  /** The decoder inverts the encoding. */
  lemma ReadWritten(nonce: Bytes, ts: i64, sid: Bytes)
    requires |nonce| <= NONCE_LEN && |sid| <= MAX_SESSION_ID
    ensures ReadMessage(Message(nonce, ts, sid)) == Some(Fields(nonce, ts, sid))
  {
    var rest := BigEndian64(ts) + (LittleEndian16(|sid|) + sid + []);
    MessageLayout(nonce, ts, sid, rest);
    TakeWritten(nonce, rest);
    TakeWritten(sid, []);
    BigEndian64Inverse(ts);
  }

  /** So two triples give the same message only if they are equal. */
  lemma MessageInjective(a: Fields, b: Fields)
    requires |a.nonce| <= NONCE_LEN && |a.sid| <= MAX_SESSION_ID
    requires |b.nonce| <= NONCE_LEN && |b.sid| <= MAX_SESSION_ID
    ensures Message(a.nonce, a.ts, a.sid) == Message(b.nonce, b.ts, b.sid) <==> a == b
  {
    ReadWritten(a.nonce, a.ts, a.sid);
    ReadWritten(b.nonce, b.ts, b.sid);
  }

  // ---- Verification ----

  /** Whether a hex signature is the MAC of the canonical message, or why that cannot be decided. */
  function VerifyHex(mac: (Bytes, Bytes) -> Bytes, secret: Bytes, nonce: Bytes, ts: i64, sid: Bytes, signature: Bytes)
    : Result<bool, Error>
  {
    match Hex.Decode(signature)
    case None => Err(SignatureNotHex)
    case Some(tag) =>
      if |tag| != 32 then Err(SignatureLength)
      else if |nonce| > NONCE_LEN then Err(NonceTooLong)
      else if |sid| > MAX_SESSION_ID then Err(SessionIdTooLong)
      else Ok(tag == mac(secret, Message(nonce, ts, sid)))
  }

  /** A signed message verifies, also when the hex text is padded with white space and trimmed. */
  lemma SignedVerifies(mac: (Bytes, Bytes) -> Bytes, secret: Bytes, nonce: Bytes, ts: i64, sid: Bytes,
                       before: Bytes, after: Bytes)
    requires |nonce| <= NONCE_LEN && |sid| <= MAX_SESSION_ID
    requires |mac(secret, Message(nonce, ts, sid))| == 32
    requires Ascii.Blank(before) && Ascii.Blank(after)
    ensures var signature := before + Hex.Encode(mac(secret, Message(nonce, ts, sid))) + after;
            VerifyHex(mac, secret, nonce, ts, sid, Ascii.Trim(signature)) == Ok(true)
  {
    var tag := mac(secret, Message(nonce, ts, sid));
    Hex.EncodeTrimmed(tag);
    Ascii.TrimPadded(before, Hex.Encode(tag), after);
    Hex.DecodeEncode(tag);
  }
}
