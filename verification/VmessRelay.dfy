/** The VMess relay with its replay guard (server-stack/server/src/wire_relay.rs, `run_vmess_relay`): every complete
    header is shown to the guard before it is opened. */
module VmessRelay {
  import opened Prelude
  import opened Framing
  import opened HostText
  import opened ReplayCache
  import Vless
  import Vmess

  const GUARD_ENTRIES: nat := 50_000
  const GUARD_TTL: int := 120 * NANOS_PER_SECOND

  /** What a decision depends on: the wall clock in seconds, and the guard's history and own clock in nanoseconds. */
  datatype Situation = Situation(now: i64, accepted: seq<Accept>, at: int)
  {
    predicate Remembers(nonce: Bytes) {
      Remembered(accepted, GUARD_ENTRIES, GUARD_TTL, nonce, at)
    }
  }

  /** The announced length is there. */
  predicate Complete(buf: Bytes) {
    var n := Vmess.OpenHeaderByteLen(buf);
    n.Some? && n.value <= |buf|
  }

  function Nonce(buf: Bytes): Bytes {
    buf[..Min(Vmess.NONCE_LEN, |buf|)]
  }

  function Decide(c: Vmess.Cipher, net: Net, uuid: Bytes, s: Situation, buf: Bytes): Verdict<Vmess.Open> {
    if Complete(buf) && s.Remembers(Nonce(buf)) then Invalid
    else Vmess.ServerVerdict(c, net, uuid, s.now, buf)
  }

  /** One buffer of a relay against the shared guard. */
  method Admit(cache: VmessReplayCache, c: Vmess.Cipher, net: Net, uuid: Bytes, buf: Bytes, now: i64, at: int)
    returns (v: Verdict<Vmess.Open>)
    requires cache.Valid() && cache.clock <= at && cache.Cap() == GUARD_ENTRIES && cache.ttl == GUARD_TTL
    modifies cache
    ensures cache.Valid()
    ensures v == Decide(c, net, uuid, Situation(now, old(cache.accepted), at), buf)
    ensures cache.accepted
            == if Complete(buf) && !Situation(now, old(cache.accepted), at).Remembers(Nonce(buf))
               then old(cache.accepted) + [Accept(Nonce(buf), at)] else old(cache.accepted)
  {
    var hlen := Vmess.OpenHeaderByteLen(buf);
    if hlen.None? {
      return NeedMore(0);
    }
    if |buf| < hlen.value {
      return NeedMore(0);
    }
    var isNew := cache.CheckAndInsert(Nonce(buf), at);
    if !isNew {
      return Invalid;
    }
    v := Vmess.ServerVerdict(c, net, uuid, now, buf);
  }

  lemma DecideExtends(c: Vmess.Cipher, net: Net, uuid: Bytes, s: Situation, b: Bytes, ext: Bytes)
    ensures var v := Decide(c, net, uuid, s, b);
            && (!v.NeedMore? ==> Decide(c, net, uuid, s, b + ext) == v)
            && (v.Ready? ==> v.offset <= |b|)
  {
    var p := Vmess.Parser(c, net, uuid, s.now);
    Vmess.ParserFinal(c, net, uuid, s.now);
    assert p(b + ext) == Vmess.ServerVerdict(c, net, uuid, s.now, b + ext);
    assert p(b) == Vmess.ServerVerdict(c, net, uuid, s.now, b);
    if Complete(b) {
      assert Nonce(b + ext) == Nonce(b);
      assert Complete(b + ext);
    }
  }

  /** Every buffer can still be decided. */
  lemma CanDecide(c: Vmess.Cipher, net: Net, uuid: Bytes, s: Situation, b: Bytes)
    ensures !Decide(c, net, uuid, s, b + Filler(0, 0x1_0010)).NeedMore?
  {
    Vmess.OpenIgnoresTail(c, net, uuid, s.now, b + Filler(0, 0x1_0010));
  }

  // ---- Every header that reaches the guard ----

  /** A complete header read by some relay. */
  datatype Arrival = Arrival(header: Bytes, now: i64, at: int)

  function Recorded(accepted: seq<Accept>, nonce: Bytes, at: int): seq<Accept> {
    if Remembered(accepted, GUARD_ENTRIES, GUARD_TTL, nonce, at) then accepted else accepted + [Accept(nonce, at)]
  }

  /** The guard's history after the first `i` arrivals. */
  function History(arrivals: seq<Arrival>, i: nat): seq<Accept>
    requires i <= |arrivals|
  {
    if i == 0 then []
    else Recorded(History(arrivals, i - 1), Nonce(arrivals[i - 1].header), arrivals[i - 1].at)
  }

  function Before(arrivals: seq<Arrival>, i: nat): Situation
    requires i < |arrivals|
  {
    Situation(arrivals[i].now, History(arrivals, i), arrivals[i].at)
  }

  function Answer(c: Vmess.Cipher, net: Net, uuid: Bytes, arrivals: seq<Arrival>, i: nat): Verdict<Vmess.Open>
    requires i < |arrivals|
  {
    Decide(c, net, uuid, Before(arrivals, i), arrivals[i].header)
  }

  /** The guard let arrival `i` through and recorded it, whether or not its header then opened. */
  predicate Passed(arrivals: seq<Arrival>, i: nat)
    requires i < |arrivals|
  {
    !Before(arrivals, i).Remembers(Nonce(arrivals[i].header))
  }

  /** Which arrivals passed. */
  function Flags(arrivals: seq<Arrival>): (r: seq<bool>)
    ensures |r| == |arrivals|
  {
    seq(|arrivals|, i requires 0 <= i < |arrivals| => Passed(arrivals, i))
  }

  /** The acceptances that a list of flags stands for. */
  function Log(arrivals: seq<Arrival>, flags: seq<bool>, i: nat): seq<Accept>
    requires i <= |arrivals| == |flags|
  {
    if i == 0 then []
    else if flags[i - 1] then Log(arrivals, flags, i - 1) + [AcceptOf(arrivals, i - 1)]
    else Log(arrivals, flags, i - 1)
  }

  function AcceptOf(arrivals: seq<Arrival>, i: nat): Accept
    requires i < |arrivals|
  {
    Accept(Nonce(arrivals[i].header), arrivals[i].at)
  }

  lemma {:induction false} HistoryIsLog(arrivals: seq<Arrival>, i: nat)
    requires i <= |arrivals|
    ensures History(arrivals, i) == Log(arrivals, Flags(arrivals), i)
  {
    if i == 0 {
    } else {
      HistoryIsLog(arrivals, i - 1);
      assert Flags(arrivals)[i - 1] == Passed(arrivals, i - 1);
    }
  }

  /** No arrival strictly between `i` and `j` with this nonce passed. */
  predicate Quiet(arrivals: seq<Arrival>, flags: seq<bool>, i: nat, j: nat, nonce: Bytes)
    requires i < j <= |arrivals| == |flags|
  {
    j == i + 1
    || (Quiet(arrivals, flags, i, j - 1, nonce) && (Nonce(arrivals[j - 1].header) == nonce ==> !flags[j - 1]))
  }

  /** What came behind an acceptance `x`, none of it with its nonce. */
  ghost predicate Behind(all: seq<Accept>, base: seq<Accept>, x: Accept, rest: seq<Accept>) {
    all == base + [x] + rest && !HasNonce(rest, x.nonce)
  }

  lemma NothingBehind(base: seq<Accept>, x: Accept)
    ensures Behind(base + [x], base, x, [])
  {
    assert base + [x] + [] == base + [x];
  }

  /** The acceptances since an arrival that passed, when its nonce did not pass again. */
  lemma {:induction false} LogSince(arrivals: seq<Arrival>, flags: seq<bool>, i: nat, j: nat)
    returns (rest: seq<Accept>)
    requires i < j <= |arrivals| == |flags| && flags[i] && Quiet(arrivals, flags, i, j, Nonce(arrivals[i].header))
    ensures Behind(Log(arrivals, flags, j), Log(arrivals, flags, i), AcceptOf(arrivals, i), rest)
  {
    var base, x := Log(arrivals, flags, i), AcceptOf(arrivals, i);
    if j == i + 1 {
      rest := [];
      NothingBehind(base, x);
    } else {
      rest := LogSince(arrivals, flags, i, j - 1);
      if flags[j - 1] {
        rest := Extended(base, x, rest, AcceptOf(arrivals, j - 1));
      }
    }
  }

  lemma Extended(base: seq<Accept>, x: Accept, rest: seq<Accept>, y: Accept) returns (longer: seq<Accept>)
    requires !HasNonce(rest, x.nonce) && y.nonce != x.nonce
    ensures base + [x] + rest + [y] == base + [x] + longer && !HasNonce(longer, x.nonce)
  {
    longer := rest + [y];
    Associate(base + [x], rest, [y]);
    NotInSnoc(rest, y, x.nonce);
  }

  lemma {:induction false} NotInSnoc(a: seq<Accept>, x: Accept, nonce: Bytes)
    requires !HasNonce(a, nonce) && x.nonce != nonce
    ensures !HasNonce(a + [x], nonce)
  {
    HasNonceIff(a, nonce);
    HasNonceIff(a + [x], nonce);
  }

  /** After a header has passed the guard, one with the same nonce is accepted exactly when it opens at its time, and
      the guard's TTL is over or at least `GUARD_ENTRIES` other arrivals have passed since. */
  lemma AcceptedAgainIff(c: Vmess.Cipher, net: Net, uuid: Bytes, arrivals: seq<Arrival>, flags: seq<bool>, i: nat,
                         j: nat)
    requires i < j < |arrivals| && Nonce(arrivals[i].header) == Nonce(arrivals[j].header)
    requires Complete(arrivals[j].header) && arrivals[i].at <= arrivals[j].at
    requires flags == Flags(arrivals) && flags[i] && Quiet(arrivals, flags, i, j, Nonce(arrivals[i].header))
    ensures var passed := |History(arrivals, j)| - |History(arrivals, i)| - 1;
            var opens := Vmess.ServerVerdict(c, net, uuid, arrivals[j].now, arrivals[j].header).Ready?;
            Answer(c, net, uuid, arrivals, j).Ready?
            <==> opens && (arrivals[j].at - arrivals[i].at > GUARD_TTL || passed >= GUARD_ENTRIES)
  {
    HistoryIsLog(arrivals, i);
    HistoryIsLog(arrivals, j);
    var rest := LogSince(arrivals, flags, i, j);
    RememberedSince(History(arrivals, i), AcceptOf(arrivals, i), rest, GUARD_ENTRIES, GUARD_TTL, arrivals[j].at);
  }

  predicate SameNonces(a: seq<Arrival>, b: seq<Arrival>, i: nat)
    requires i <= |a| && i <= |b|
  {
    i == 0
    || (SameNonces(a, b, i - 1) && Nonce(a[i - 1].header) == Nonce(b[i - 1].header) && a[i - 1].at == b[i - 1].at)
  }

  /** What the arrivals carry behind their nonces makes no difference to the guard. */
  lemma {:induction false} GuardSeesNoncesOnly(a: seq<Arrival>, b: seq<Arrival>, i: nat)
    requires i <= |a| && i <= |b| && SameNonces(a, b, i)
    ensures History(a, i) == History(b, i)
  {
    if i == 0 {
    } else {
      GuardSeesNoncesOnly(a, b, i - 1);
      var before, nonce, at := History(a, i - 1), Nonce(a[i - 1].header), a[i - 1].at;
      assert History(a, i) == Recorded(before, nonce, at);
      assert History(b, i) == Recorded(before, nonce, at);
    }
  }

  // ---- One client header, twice ----

  /** A header sent twice over an otherwise idle server whose two clocks run in step is accepted both times. */
  predicate Twice(c: Vmess.Cipher, net: Net, uuid: Bytes, h: Bytes, first: i64, later: i64) {
    var run := [Arrival(h, first, first * NANOS_PER_SECOND), Arrival(h, later, later * NANOS_PER_SECOND)];
    Answer(c, net, uuid, run, 0).Ready? && Answer(c, net, uuid, run, 1).Ready?
  }

  lemma ClientComplete(c: Vmess.Cipher, net: Net, uuid: Bytes, port: u16, addr: Vless.Address, sent: i64, nonce: Bytes)
    requires c.Lawful() && addr.Typed(net) && |nonce| == Vmess.NONCE_LEN
    requires Vmess.ClientHeader(c, uuid, port, addr, sent, nonce).Some?
    ensures var h := Vmess.ClientHeader(c, uuid, port, addr, sent, nonce).value;
            Complete(h) && Nonce(h) == nonce
  {
    Vmess.HeaderRecovered(c, net, uuid, port, addr, sent, sent, nonce);
  }

  /** Whether both are accepted is a matter of the times alone. */
  lemma TwiceIff(c: Vmess.Cipher, net: Net, uuid: Bytes, port: u16, addr: Vless.Address, sent: i64, nonce: Bytes,
                 first: i64, later: i64)
    requires c.Lawful() && addr.Typed(net) && |nonce| == Vmess.NONCE_LEN && first <= later
    requires Vmess.ClientHeader(c, uuid, port, addr, sent, nonce).Some?
    ensures var h := Vmess.ClientHeader(c, uuid, port, addr, sent, nonce).value;
            Twice(c, net, uuid, h, first, later)
            <==> Abs(first - sent) <= 120 && Abs(later - sent) <= 120 && later - first > 120
  {
    var h := Vmess.ClientHeader(c, uuid, port, addr, sent, nonce).value;
    var run := [Arrival(h, first, first * NANOS_PER_SECOND), Arrival(h, later, later * NANOS_PER_SECOND)];
    ClientComplete(c, net, uuid, port, addr, sent, nonce);
    Vmess.HeaderRecovered(c, net, uuid, port, addr, sent, first, nonce);
    Vmess.HeaderRecovered(c, net, uuid, port, addr, sent, later, nonce);
    assert Passed(run, 0) && Flags(run)[0] == Passed(run, 0);
    AcceptedAgainIff(c, net, uuid, run, Flags(run), 0, 1);
  }

  /** So an accepted header can be accepted once more, by the passing of time alone, exactly when it first arrived
      before its own time stamp. */
  lemma TwiceExactlyWhenEarly(c: Vmess.Cipher, net: Net, uuid: Bytes, port: u16, addr: Vless.Address, sent: i64,
                              nonce: Bytes, first: i64)
    requires c.Lawful() && addr.Typed(net) && |nonce| == Vmess.NONCE_LEN && sent <= I64_MAX - 120
    requires Vmess.ClientHeader(c, uuid, port, addr, sent, nonce).Some? && Abs(first - sent) <= 120
    ensures var h := Vmess.ClientHeader(c, uuid, port, addr, sent, nonce).value;
            (exists later: i64 :: first <= later && Twice(c, net, uuid, h, first, later)) <==> first < sent
  {
    var h := Vmess.ClientHeader(c, uuid, port, addr, sent, nonce).value;
    if first < sent {
      var later: i64 := sent + 120;
      TwiceIff(c, net, uuid, port, addr, sent, nonce, first, later);
    } else {
      forall later: i64 | first <= later
        ensures !Twice(c, net, uuid, h, first, later)
      {
        TwiceIff(c, net, uuid, port, addr, sent, nonce, first, later);
      }
    }
  }
}
