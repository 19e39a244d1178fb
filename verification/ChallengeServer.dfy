/** The challenge-response server (challenge-response-auth/server/src/state.rs and main.rs), request by request.
    Clock readings are parameters: each request carries the handler's reading and the store's own reading. */
module ChallengeServer {
  import opened Prelude
  import HmacMessage
  import Hex

  datatype Pending = Pending(nonce: Bytes, challengeMs: i64, createdMs: i64)

  type Sessions = map<Bytes, Pending>

  function SatSub(a: i64, b: i64): i64 {
    Min(Max(a - b, I64_MIN), I64_MAX)
  }

  function SatMul(a: i64, k: int): i64 {
    Min(Max(a * k, I64_MIN), I64_MAX)
  }

  /** How old a row may grow before it is pruned. */
  function MaxAge(ttl: i64): i64 {
    Max(SatMul(ttl, 3), ttl)
  }

  /** The rows that survive pruning at `now`. */
  function Retain(m: Sessions, now: i64, maxAge: i64): Sessions {
    map id | id in m && SatSub(now, m[id].createdMs) <= maxAge :: m[id]
  }

  /** Pruning; nothing happens when the clock cannot be read. */
  function Pruned(m: Sessions, now: Option<i64>, ttl: i64): Sessions {
    if now.None? then m else Retain(m, now.value, MaxAge(ttl))
  }

  class ChallengeStore {
    var inner: Sessions
    const ttl: i64

    constructor (ttl: i64)
      ensures inner == map[] && this.ttl == ttl
    {
      inner := map[];
      this.ttl := ttl;
    }

    method Prune(now: Option<i64>)
      modifies this
      ensures inner == Pruned(old(inner), now, ttl)
    {
      if now.None? {
        return;
      }
      var maxAge := Max(SatMul(ttl, 3), ttl);
      inner := map id | id in inner && SatSub(now.value, inner[id].createdMs) <= maxAge :: inner[id];
    }

    /** After an issue that could read the clock, every other row is at most `MaxAge` old. */
    method RecordChallenge(id: Bytes, pending: Pending, now: Option<i64>)
      modifies this
      ensures inner == Pruned(old(inner), now, ttl)[id := pending]
      ensures now.Some? ==> forall k :: k in inner && k != id ==> SatSub(now.value, inner[k].createdMs) <= MaxAge(ttl)
    {
      Prune(now);
      inner := inner[id := pending];
    }

    method GetPending(id: Bytes, now: Option<i64>) returns (r: Option<Pending>)
      modifies this
      ensures inner == Pruned(old(inner), now, ttl)
      ensures r == if id in inner then Some(inner[id]) else None
    {
      Prune(now);
      r := if id in inner then Some(inner[id]) else None;
    }

    method Remove(id: Bytes) returns (r: Option<Pending>)
      modifies this
      ensures inner == old(inner) - {id}
      ensures r == if id in old(inner) then Some(old(inner)[id]) else None
    {
      r := if id in inner then Some(inner[id]) else None;
      inner := inner - {id};
    }
  }

  // ---- One attempt ----

  /** Secret, limits and library functions of a server. */
  datatype Config = Config(
    secret: Bytes, ttl: i64, skew: i64,
    mac: (Bytes, Bytes) -> Bytes,
    parseId: Bytes -> Option<Bytes>,
    showId: Bytes -> Bytes,
    trim: Bytes -> Bytes,
    base64: Bytes -> Option<Bytes>)

  datatype Attempt = Attempt(sessionId: Bytes, nonce: Bytes, timestamp: i64, signature: Bytes)

  function DecodeNonce(cfg: Config, text: Bytes): Option<Bytes> {
    var d := cfg.base64(cfg.trim(text));
    if d.Some? && |d.value| == HmacMessage.NONCE_LEN then d else None
  }

  predicate Echoes(p: Pending, nonce: Bytes, timestamp: i64) {
    nonce == p.nonce && timestamp == p.challengeMs
  }

  /** What a request is answered with: a success or the reason of a refusal. */
  datatype Answer =
    | Issued
    | NotUuid
    | Unknown
    | Expired
    | Skewed
    | BadNonce
    | Mismatch
    | BadSignature(error: HmacMessage.Error)
    | WrongSignature
    | Accepted
  {
    /** The answers that come with the removal of the session. */
    predicate Removes() {
      Expired? || Accepted?
    }
  }

  /** The handler's checks on a session it found, in their order. */
  function Judge(cfg: Config, a: Attempt, id: Bytes, now: i64, p: Pending): Answer {
    if SatSub(now, p.createdMs) > cfg.ttl then Expired
    else if Abs(now - a.timestamp) > cfg.skew then Skewed
    else
      var nonce := DecodeNonce(cfg, a.nonce);
      if nonce.None? then BadNonce
      else if !Echoes(p, nonce.value, a.timestamp) then Mismatch
      else
        match HmacMessage.VerifyHex(cfg.mac, cfg.secret, nonce.value, a.timestamp, cfg.showId(id),
                                    cfg.trim(a.signature))
        case Err(e) => BadSignature(e)
        case Ok(good) => if good then Accepted else WrongSignature
  }

  /** The proof a client must present for a session: the echoed nonce and time stamp, and the MAC over them. */
  predicate Proves(cfg: Config, a: Attempt, id: Bytes, p: Pending)
    requires |p.nonce| == HmacMessage.NONCE_LEN
  {
    && DecodeNonce(cfg, a.nonce) == Some(p.nonce)
    && a.timestamp == p.challengeMs
    && |cfg.showId(id)| <= HmacMessage.MAX_SESSION_ID
    && Hex.Decode(cfg.trim(a.signature))
       == Some(cfg.mac(cfg.secret, HmacMessage.Message(p.nonce, p.challengeMs, cfg.showId(id))))
  }

  /** An attempt on an issued session succeeds exactly when it proves the session and the session's age is at most
      both the TTL and the clock skew. */
  lemma AcceptanceWindow(cfg: Config, a: Attempt, id: Bytes, now: i64, p: Pending)
    requires |p.nonce| == HmacMessage.NONCE_LEN && p.createdMs == p.challengeMs && 0 <= p.createdMs <= now
    requires forall s: Bytes, m: Bytes :: |cfg.mac(s, m)| == 32
    ensures Judge(cfg, a, id, now, p) == Accepted
            <==> Proves(cfg, a, id, p) && now - p.createdMs <= cfg.ttl && now - p.createdMs <= cfg.skew
  {
  }

  /** The checks an attempt passes before its signature is looked at. */
  predicate InTime(cfg: Config, now: i64, p: Pending) {
    now - p.createdMs <= cfg.ttl || cfg.ttl == 9223372036854775807
  }

  predicate OnClock(cfg: Config, a: Attempt, now: i64) {
    now as int - a.timestamp as int <= cfg.skew && a.timestamp as int - now as int <= cfg.skew
  }

  /** Which answer an attempt gets: the first check it fails, in this order. */
  lemma RefusalReason(cfg: Config, a: Attempt, id: Bytes, now: i64, p: Pending)
    ensures var r, raw := Judge(cfg, a, id, now, p), cfg.base64(cfg.trim(a.nonce));
            var sig, sid := Hex.Decode(cfg.trim(a.signature)), cfg.showId(id);
            r == if !InTime(cfg, now, p) then Expired
                 else if !OnClock(cfg, a, now) then Skewed
                 else if raw.None? || |raw.value| != 16 then BadNonce
                 else if raw.value != p.nonce || a.timestamp != p.challengeMs then Mismatch
                 else if sig.None? then BadSignature(HmacMessage.SignatureNotHex)
                 else if |sig.value| != 32 then BadSignature(HmacMessage.SignatureLength)
                 else if |sid| > 128 then BadSignature(HmacMessage.SessionIdTooLong)
                 else if sig.value != cfg.mac(cfg.secret, HmacMessage.Message(p.nonce, p.challengeMs, sid))
                      then WrongSignature
                 else Accepted
  {
  }

  // ---- Requests ----

  datatype Request =
    | NewChallenge(id: Bytes, nonce: Bytes, now: i64, storeNow: Option<i64>)
    | Authenticate(attempt: Attempt, now: i64, storeNow: Option<i64>)

  /** The sessions after a request and its answer, for a store that prunes or one that does not. */
  function Serve(cfg: Config, pruning: bool, m: Sessions, r: Request): (Sessions, Answer) {
    var m1 := if pruning then Pruned(m, r.storeNow, cfg.ttl) else m;
    match r
    case NewChallenge(id, nonce, now, _) => (m1[id := Pending(nonce, now, now)], Issued)
    case Authenticate(a, now, _) =>
      match cfg.parseId(cfg.trim(a.sessionId))
      case None => (m, NotUuid)
      case Some(id) =>
        if id !in m1 then (m1, Unknown)
        else
          var answer := Judge(cfg, a, id, now, m1[id]);
          (if answer.Removes() then m1 - {id} else m1, answer)
  }

  method PostChallenge(cfg: Config, store: ChallengeStore, id: Bytes, nonce: Bytes, now: i64, storeNow: Option<i64>)
    requires store.ttl == cfg.ttl
    modifies store
    ensures store.inner == Serve(cfg, true, old(store.inner), NewChallenge(id, nonce, now, storeNow)).0
  {
    store.RecordChallenge(id, Pending(nonce, now, now), storeNow);
  }

  method PostAuthenticate(cfg: Config, store: ChallengeStore, a: Attempt, now: i64, storeNow: Option<i64>)
    returns (r: Answer)
    requires store.ttl == cfg.ttl
    modifies store
    ensures (store.inner, r) == Serve(cfg, true, old(store.inner), Authenticate(a, now, storeNow))
  {
    var sid := cfg.parseId(cfg.trim(a.sessionId));
    if sid.None? {
      return NotUuid;
    }
    var id := sid.value;
    var found := store.GetPending(id, storeNow);
    if found.None? {
      return Unknown;
    }
    var pending := found.value;
    if SatSub(now, pending.createdMs) > cfg.ttl {
      var _ := store.Remove(id);
      return Expired;
    }
    if Abs(now - a.timestamp) > cfg.skew {
      return Skewed;
    }
    var nonce := DecodeNonce(cfg, a.nonce);
    if nonce.None? {
      return BadNonce;
    }
    if !Echoes(pending, nonce.value, a.timestamp) {
      return Mismatch;
    }
    var good := HmacMessage.VerifyHex(cfg.mac, cfg.secret, nonce.value, a.timestamp, cfg.showId(id),
                                      cfg.trim(a.signature));
    if good.Err? {
      return BadSignature(good.error);
    }
    if !good.value {
      return WrongSignature;
    }
    var _ := store.Remove(id);
    r := Accepted;
  }

  /** Sessions as issued: a full nonce, one time stamp, and none from the future. */
  ghost predicate WellIssued(m: Sessions, now: i64) {
    forall id :: id in m ==>
      |m[id].nonce| == HmacMessage.NONCE_LEN && m[id].createdMs == m[id].challengeMs && 0 <= m[id].createdMs <= now
  }

  lemma ServeKeepsWellIssued(cfg: Config, pruning: bool, m: Sessions, r: Request)
    requires WellIssued(m, r.now) && 0 <= r.now
    requires r.NewChallenge? ==> |r.nonce| == HmacMessage.NONCE_LEN
    ensures WellIssued(Serve(cfg, pruning, m, r).0, r.now)
  {
  }

  /** Whether an attempt succeeds, in terms of the sessions on record when it looks its own up. */
  lemma AttemptAcceptedIff(cfg: Config, pruning: bool, m: Sessions, a: Attempt, now: i64, storeNow: Option<i64>)
    requires WellIssued(m, now) && forall s: Bytes, t: Bytes :: |cfg.mac(s, t)| == 32
    ensures var m1 := if pruning then Pruned(m, storeNow, cfg.ttl) else m;
            var id := cfg.parseId(cfg.trim(a.sessionId));
            Serve(cfg, pruning, m, Authenticate(a, now, storeNow)).1 == Accepted
            <==> id.Some? && id.value in m1 && Proves(cfg, a, id.value, m1[id.value])
                 && now - m1[id.value].createdMs <= Min(cfg.ttl, cfg.skew)
  {
    var m1 := if pruning then Pruned(m, storeNow, cfg.ttl) else m;
    var id := cfg.parseId(cfg.trim(a.sessionId));
    if id.Some? && id.value in m1 {
      AcceptanceWindow(cfg, a, id.value, now, m1[id.value]);
    }
  }

  /** An attempt leaves a session that pruning spared on record exactly when it is refused before the session has
      expired, and touches no other. */
  lemma SessionAfterAttempt(cfg: Config, pruning: bool, m: Sessions, a: Attempt, id: Bytes, now: i64,
                            storeNow: Option<i64>)
    requires cfg.parseId(cfg.trim(a.sessionId)) == Some(id)
    ensures var m1 := if pruning then Pruned(m, storeNow, cfg.ttl) else m;
            var r := Serve(cfg, pruning, m, Authenticate(a, now, storeNow));
            && r.0 - {id} == m1 - {id}
            && (id in r.0 <==> id in m1 && r.1 != Accepted && SatSub(now, m1[id].createdMs) <= cfg.ttl)
            && (id in r.0 ==> r.0 == m1)
  {
  }

  // ---- Pruning is invisible ----

  function ServeAll(cfg: Config, pruning: bool, m: Sessions, rs: seq<Request>): (Sessions, seq<Answer>)
    decreases |rs|
  {
    if rs == [] then (m, [])
    else
      var first := Serve(cfg, pruning, m, rs[0]);
      var rest := ServeAll(cfg, pruning, first.0, rs[1..]);
      (rest.0, [first.1] + rest.1)
  }

  /** The answers are the same, but for an expired session that has been pruned and is unknown instead. */
  predicate Alike(small: Answer, big: Answer) {
    small == big || (small == Unknown && big == Expired)
  }

  predicate AllAlike(small: seq<Answer>, big: seq<Answer>) {
    |small| == |big| && forall i :: 0 <= i < |small| ==> Alike(small[i], big[i])
  }

  /** Clock readings never go back, and the store reads the clock at most `slack` after the handler. */
  predicate Timely(rs: seq<Request>, last: i64, slack: int) {
    rs == [] ||
    var r := rs[0];
    && 0 <= last <= r.now
    && (r.storeNow.Some? ==> r.now <= r.storeNow.value && r.storeNow.value - r.now <= slack)
    && Timely(rs[1..], if r.storeNow.Some? then r.storeNow.value else r.now, slack)
  }

  /** The pruned store holds a part of the unpruned one, and whatever it lacks has expired. */
  ghost predicate Lags(small: Sessions, big: Sessions, ttl: i64, now: i64) {
    && (forall id :: id in small ==> id in big && small[id] == big[id])
    && (forall id :: id in big ==> 0 <= big[id].createdMs)
    && (forall id :: id in big && id !in small ==> now - big[id].createdMs > ttl)
  }

  lemma MaxAgeNotBelowTtl(ttl: i64)
    ensures MaxAge(ttl) >= ttl
    ensures 0 <= ttl ==> MaxAge(ttl) == Min(3 * ttl, I64_MAX)
    ensures ttl < 0 ==> MaxAge(ttl) == ttl
  {
  }

  /** Pruning between the handler's reading and its lookup drops only rows that have expired for this handler. */
  lemma PruneLags(small: Sessions, big: Sessions, ttl: i64, last: i64, now: i64, store: Option<i64>)
    requires Lags(small, big, ttl, last) && 0 <= last <= now
    requires store.Some? ==> now <= store.value && store.value - now <= MaxAge(ttl) - ttl
    ensures Lags(Pruned(small, store, ttl), big, ttl, now)
  {
  }

  lemma ServeAgrees(cfg: Config, small: Sessions, big: Sessions, last: i64, r: Request)
    requires Lags(small, big, cfg.ttl, last) && 0 <= last <= r.now
    requires r.storeNow.Some? ==> r.now <= r.storeNow.value && r.storeNow.value - r.now <= MaxAge(cfg.ttl) - cfg.ttl
    ensures var a, b := Serve(cfg, true, small, r), Serve(cfg, false, big, r);
            Alike(a.1, b.1) && Lags(a.0, b.0, cfg.ttl, r.now)
  {
    PruneLags(small, big, cfg.ttl, last, r.now, r.storeNow);
  }

  /** A store that prunes answers as a store that never forgets, over every sequence of requests whose clock runs
      forward and never jumps further than `MaxAge - ttl` inside one request; so both accept the same attempts. */
  lemma {:induction false} PruningInvisible(cfg: Config, small: Sessions, big: Sessions, last: i64, rs: seq<Request>)
    requires Lags(small, big, cfg.ttl, last)
    requires Timely(rs, last, MaxAge(cfg.ttl) - cfg.ttl)
    ensures AllAlike(ServeAll(cfg, true, small, rs).1, ServeAll(cfg, false, big, rs).1)
    decreases |rs|
  {
    if rs == [] {
    } else {
      var r := rs[0];
      ServeAgrees(cfg, small, big, last, r);
      var a, b := Serve(cfg, true, small, r), Serve(cfg, false, big, r);
      PruningInvisible(cfg, a.0, b.0, if r.storeNow.Some? then r.storeNow.value else r.now, rs[1..]);
    }
  }

  /** The limit on the jump is exact: with a longer jump some session that has not expired for the handler is pruned
      before its lookup; with a shorter one none is. */
  lemma JumpLimitExact(ttl: i64, now: i64, store: i64)
    requires 0 <= ttl <= now <= store
    ensures store - now <= MaxAge(ttl) - ttl
            <==> forall p: Pending :: 0 <= p.createdMs <= now && SatSub(now, p.createdMs) <= ttl
                                      ==> SatSub(store, p.createdMs) <= MaxAge(ttl)
  {
    if store - now > MaxAge(ttl) - ttl {
      var p := Pending([], now - ttl, now - ttl);
      assert SatSub(now, p.createdMs) == ttl && SatSub(store, p.createdMs) > MaxAge(ttl);
    }
  }

  /** And it shows: whenever the jump is longer, an issue and an attempt right at the end of the session's life get
      different answers from the two stores, also when the attempt proves the session. */
  lemma LongJumpVisible(cfg: Config, a: Attempt, id: Bytes, nonce: Bytes, now: i64, store: i64)
    requires 0 <= cfg.ttl <= now <= store && store - now > MaxAge(cfg.ttl) - cfg.ttl
    requires cfg.parseId(cfg.trim(a.sessionId)) == Some(id) && |nonce| == HmacMessage.NONCE_LEN
    requires forall s: Bytes, m: Bytes :: |cfg.mac(s, m)| == 32
    ensures var issued := now - cfg.ttl;
            var rs := [NewChallenge(id, nonce, issued, None), Authenticate(a, now, Some(store))];
            var small, big := ServeAll(cfg, true, map[], rs).1, ServeAll(cfg, false, map[], rs).1;
            && Timely(rs, issued, store - now)
            && small == [Issued, Unknown] && !AllAlike(small, big)
            && (Proves(cfg, a, id, Pending(nonce, issued, issued)) && cfg.ttl <= cfg.skew ==> big == [Issued, Accepted])
  {
    var issued := now - cfg.ttl;
    var p := Pending(nonce, issued, issued);
    var first, second := NewChallenge(id, nonce, issued, None), Authenticate(a, now, Some(store));
    var m := map[id := p];
    TwoRequests(cfg, true, map[], first, second);
    TwoRequests(cfg, false, map[], first, second);
    assert map[][id := p] == m;
    JumpAnswers(cfg, a, id, p, now, store);
    AcceptanceWindow(cfg, a, id, now, p);
    assert [first, second][1..] == [second];
    assert !Alike([Issued, Unknown][1], [Issued, Judge(cfg, a, id, now, p)][1]);
  }

  lemma JumpAnswers(cfg: Config, a: Attempt, id: Bytes, p: Pending, now: i64, store: i64)
    requires cfg.parseId(cfg.trim(a.sessionId)) == Some(id)
    requires now - p.createdMs == cfg.ttl && 0 <= p.createdMs && 0 <= cfg.ttl
    requires store - now > MaxAge(cfg.ttl) - cfg.ttl
    ensures Serve(cfg, true, map[id := p], Authenticate(a, now, Some(store))).1 == Unknown
    ensures var r := Serve(cfg, false, map[id := p], Authenticate(a, now, Some(store))).1;
            r == Judge(cfg, a, id, now, p) && r != Expired && r != Unknown
  {
    assert SatSub(store, p.createdMs) > MaxAge(cfg.ttl);
  }

  lemma TwoRequests(cfg: Config, pruning: bool, m: Sessions, first: Request, second: Request)
    ensures var one := Serve(cfg, pruning, m, first);
            ServeAll(cfg, pruning, m, [first, second]).1 == [one.1, Serve(cfg, pruning, one.0, second).1]
  {
    var one := Serve(cfg, pruning, m, first);
    var two := Serve(cfg, pruning, one.0, second);
    assert [first, second][1..] == [second] && [second][1..] == [];
    assert ServeAll(cfg, pruning, two.0, []).1 == [];
    assert ServeAll(cfg, pruning, one.0, [second]).1 == [two.1] + [];
  }
}
