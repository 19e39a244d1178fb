/** The VMess replay guard (wire-protocol/src/vmess.rs, `VmessReplayCache`): a queue and an index over it must
    agree with a simple function of everything accepted so far.  Clock readings are nanosecond parameters. */
module ReplayCache {
  import opened Prelude

  const NANOS_PER_SECOND := 1_000_000_000

  datatype Accept = Accept(nonce: Bytes, at: int)

  // ---- What the cache means ----

  /** The last `n` acceptances. */
  function LastN(a: seq<Accept>, n: nat): seq<Accept> {
    if |a| <= n then a else a[|a| - n..]
  }

  /** Those not older than `ttl`, in order. */
  function Live(a: seq<Accept>, ttl: int, now: int): seq<Accept> {
    if a == [] then []
    else if now - a[0].at > ttl then Live(a[1..], ttl, now)
    else [a[0]] + Live(a[1..], ttl, now)
  }

  function Window(a: seq<Accept>, cap: nat, ttl: int, now: int): seq<Accept> {
    Live(LastN(a, cap), ttl, now)
  }

  predicate HasNonce(a: seq<Accept>, nonce: Bytes) {
    a != [] && (a[0].nonce == nonce || HasNonce(a[1..], nonce))
  }

  /** Whether a nonce is among the last `cap` acceptances that are not older than `ttl`. */
  predicate Remembered(a: seq<Accept>, cap: nat, ttl: int, nonce: Bytes, now: int) {
    HasNonce(Window(a, cap, ttl, now), nonce)
  }

  /** Acceptance times never go back, and none lies after `now`. */
  predicate Chronological(a: seq<Accept>, now: int) {
    a != [] ==>
      a[0].at <= now && (|a| > 1 ==> a[0].at <= a[1].at) && Chronological(a[1..], now)
  }

  predicate Distinct(a: seq<Accept>) {
    a != [] ==> !HasNonce(a[1..], a[0].nonce) && Distinct(a[1..])
  }

  /** The index of a queue: each nonce with its acceptance time. */
  function IndexOf(q: seq<Accept>): map<Bytes, int> {
    if q == [] then map[] else IndexOf(q[1..])[q[0].nonce := q[0].at]
  }

  // ---- Chronological lists ----

  lemma {:induction false} ChronologicalLater(a: seq<Accept>, now: int, later: int)
    requires Chronological(a, now) && now <= later
    ensures Chronological(a, later)
  {
    if a == [] {
    } else {
      ChronologicalLater(a[1..], now, later);
    }
  }

  lemma {:induction false} ChronologicalSuffix(a: seq<Accept>, now: int, k: nat)
    requires Chronological(a, now) && k <= |a|
    ensures Chronological(a[k..], now)
  {
    if k == 0 {
    } else {
      ChronologicalSuffix(a[1..], now, k - 1);
      assert a[1..][k - 1..] == a[k..];
    }
  }

  lemma {:induction false} ChronologicalSnoc(a: seq<Accept>, x: Accept)
    requires Chronological(a, x.at)
    ensures Chronological(a + [x], x.at)
  {
    if a == [] {
    } else {
      assert (a + [x])[1..] == a[1..] + [x];
      ChronologicalSnoc(a[1..], x);
    }
  }

  // ---- Live entries ----

  lemma {:induction false} LiveSnoc(a: seq<Accept>, ttl: int, x: Accept)
    requires ttl >= 0
    ensures Live(a + [x], ttl, x.at) == Live(a, ttl, x.at) + [x]
  {
    if a == [] {
      assert (a + [x])[1..] == [];
    } else {
      assert (a + [x])[1..] == a[1..] + [x];
      LiveSnoc(a[1..], ttl, x);
    }
  }

  /** Once the front of a chronological list is live, all of it is. */
  lemma {:induction false} LiveFront(a: seq<Accept>, ttl: int, now: int)
    requires Chronological(a, now)
    requires a != [] ==> now - a[0].at <= ttl
    ensures Live(a, ttl, now) == a
  {
    if a == [] {
    } else {
      LiveFront(a[1..], ttl, now);
    }
  }

  lemma {:induction false} LiveLater(a: seq<Accept>, ttl: int, earlier: int, now: int)
    requires earlier <= now
    ensures Live(Live(a, ttl, earlier), ttl, now) == Live(a, ttl, now)
  {
    if a == [] {
    } else {
      LiveLater(a[1..], ttl, earlier, now);
      if earlier - a[0].at <= ttl {
        assert Live(a, ttl, earlier)[1..] == Live(a[1..], ttl, earlier);
      }
    }
  }

  lemma {:induction false} LiveShorter(a: seq<Accept>, ttl: int, now: int)
    ensures |Live(a, ttl, now)| <= |a|
  {
    if a == [] {
    } else {
      LiveShorter(a[1..], ttl, now);
    }
  }

  /** One expired entry in front shifts the suffix by one. */
  lemma LiveSuffixStep(a: seq<Accept>, ttl: int, now: int, j: nat)
    requires a != [] && now - a[0].at > ttl && j < |a|
    requires Live(a[1..], ttl, now) == a[1..][j..]
    ensures Live(a, ttl, now) == a[j + 1..]
  {
    assert a[1..][j..] == a[j + 1..];
  }

  /** The live entries of a chronological list are a suffix of it. */
  lemma {:induction false} LiveSuffix(a: seq<Accept>, ttl: int, now: int) returns (k: nat)
    requires Chronological(a, now)
    ensures k <= |a| && Live(a, ttl, now) == a[k..]
  {
    if a == [] {
      k := 0;
    } else if now - a[0].at <= ttl {
      LiveFront(a, ttl, now);
      k := 0;
    } else {
      k := LiveSuffix(a[1..], ttl, now);
      LiveSuffixStep(a, ttl, now, k);
      k := k + 1;
    }
  }

  lemma WindowChronological(a: seq<Accept>, cap: nat, ttl: int, now: int, later: int)
    requires Chronological(a, now) && now <= later
    ensures Chronological(Window(a, cap, ttl, now), later)
  {
    var l := LastN(a, cap);
    ChronologicalSuffix(a, now, |a| - |l|);
    var k := LiveSuffix(l, ttl, now);
    ChronologicalSuffix(l, now, k);
    ChronologicalLater(l[k..], now, later);
  }

  lemma {:induction false} LiveHasNonce(a: seq<Accept>, ttl: int, now: int, i: nat)
    requires i < |a| && now - a[i].at <= ttl
    ensures HasNonce(Live(a, ttl, now), a[i].nonce)
  {
    if i == 0 {
    } else {
      LiveHasNonce(a[1..], ttl, now, i - 1);
      if now - a[0].at <= ttl {
        assert Live(a, ttl, now)[1..] == Live(a[1..], ttl, now);
      }
    }
  }

  /** Dropping the first of `l` drops it from the live entries if all of `l` is live, and nothing otherwise. */
  lemma LiveTail(l: seq<Accept>, ttl: int, now: int)
    requires l != [] && Chronological(l, now)
    ensures var w := Live(l, ttl, now);
            |w| <= |l| && Live(l[1..], ttl, now) == if |w| == |l| then w[1..] else w
  {
    LiveShorter(l[1..], ttl, now);
    if now - l[0].at <= ttl {
      LiveFront(l, ttl, now);
      LiveFront(l[1..], ttl, now);
    }
  }

  /** The window after one more acceptance: the front is evicted exactly when the live entries fill the cap. */
  lemma WindowGrows(a: seq<Accept>, cap: nat, ttl: int, x: Accept)
    requires cap >= 1 && ttl >= 0 && Chronological(a, x.at)
    ensures var w := Window(a, cap, ttl, x.at);
            Window(a + [x], cap, ttl, x.at) == (if |w| >= cap then w[1..] else w) + [x]
  {
    var l := LastN(a, cap);
    LiveShorter(l, ttl, x.at);
    if |a| < cap {
      assert LastN(a + [x], cap) == l + [x];
      LiveSnoc(l, ttl, x);
    } else {
      assert LastN(a + [x], cap) == l[1..] + [x];
      LiveSnoc(l[1..], ttl, x);
      ChronologicalSuffix(a, x.at, |a| - cap);
      LiveTail(l, ttl, x.at);
    }
  }

  // ---- The index over the queue ----

  lemma {:induction false} IndexKeys(q: seq<Accept>, nonce: Bytes)
    ensures nonce in IndexOf(q) <==> HasNonce(q, nonce)
  {
    if q == [] {
    } else {
      IndexKeys(q[1..], nonce);
    }
  }

  lemma {:induction false} IndexSize(q: seq<Accept>)
    requires Distinct(q)
    ensures |IndexOf(q)| == |q|
  {
    if q == [] {
    } else {
      IndexSize(q[1..]);
      IndexKeys(q[1..], q[0].nonce);
    }
  }

  lemma IndexPop(q: seq<Accept>)
    requires q != [] && Distinct(q)
    ensures IndexOf(q) - {q[0].nonce} == IndexOf(q[1..])
  {
    IndexKeys(q[1..], q[0].nonce);
  }

  lemma {:induction false} IndexSnoc(q: seq<Accept>, x: Accept)
    requires Distinct(q) && !HasNonce(q, x.nonce)
    ensures Distinct(q + [x]) && IndexOf(q + [x]) == IndexOf(q)[x.nonce := x.at]
  {
    if q == [] {
      assert (q + [x])[1..] == [];
    } else {
      assert (q + [x])[1..] == q[1..] + [x];
      IndexSnoc(q[1..], x);
      IndexKeys(q[1..] + [x], q[0].nonce);
      IndexKeys(q[1..], q[0].nonce);
    }
  }

  // ---- The cache ----

  /** The queue is the window over the history, and the index holds exactly the queue's pairs. */
  ghost predicate Consistent(accepted: seq<Accept>, cap: nat, ttl: int, clock: int, q: seq<Accept>,
                             seen: map<Bytes, int>) {
    && cap >= 1 && ttl >= 0
    && Chronological(accepted, clock)
    && q == Window(accepted, cap, ttl, clock)
    && Distinct(q)
    && seen == IndexOf(q)
  }

  lemma InsertKeeps(accepted: seq<Accept>, cap: nat, ttl: int, q: seq<Accept>, x: Accept)
    requires Consistent(accepted, cap, ttl, x.at, q, IndexOf(q)) && !HasNonce(q, x.nonce)
    ensures var q' := if |q| >= cap then q[1..] else q;
            Consistent(accepted + [x], cap, ttl, x.at, q' + [x], IndexOf(q')[x.nonce := x.at])
  {
    WindowGrows(accepted, cap, ttl, x);
    ChronologicalSnoc(accepted, x);
    IndexSnoc(if |q| >= cap then q[1..] else q, x);
  }

  class VmessReplayCache {
    const ttl: int
    const maxEntries: nat
    var q: seq<Accept>
    var seen: map<Bytes, int>
    /** Everything accepted so far, and the latest clock reading. */
    ghost var accepted: seq<Accept>
    ghost var clock: int

    ghost function Cap(): nat {
      if maxEntries == 0 then 1 else maxEntries
    }

    ghost predicate Valid()
      reads this
    {
      Consistent(accepted, Cap(), ttl, clock, q, seen)
    }

    constructor (ttlSecs: nat, maxEntries: nat, ghost start: int)
      ensures Valid() && accepted == [] && clock == start
      ensures ttl == Max(ttlSecs, 30) * NANOS_PER_SECOND && this.maxEntries == maxEntries
    {
      ttl := Max(ttlSecs, 30) * NANOS_PER_SECOND;
      this.maxEntries := maxEntries;
      q := [];
      seen := map[];
      accepted := [];
      clock := start;
    }

    /** Drop entries older than the TTL from the front of the queue. */
    method Expire(now: int)
      requires Valid() && clock <= now
      modifies this`q, this`seen, this`clock
      ensures Valid() && clock == now
    {
      WindowChronological(accepted, Cap(), ttl, clock, now);
      ChronologicalLater(accepted, clock, now);
      LiveLater(LastN(accepted, Cap()), ttl, clock, now);
      ghost var live := Window(accepted, Cap(), ttl, now);
      while |q| > 0
        invariant Chronological(q, now) && Live(q, ttl, now) == live
        invariant Distinct(q) && seen == IndexOf(q)
        decreases |q|
      {
        if now - q[0].at > ttl {
          IndexPop(q);
          seen := seen - {q[0].nonce};
          q := q[1..];
        } else {
          break;
        }
      }
      LiveFront(q, ttl, now);
      clock := now;
    }

    /** A nonce is refused exactly when it is among the last `Cap()` acceptances that are not older than
        the TTL; an accepted nonce joins the history. */
    method CheckAndInsert(nonce: Bytes, now: int) returns (isNew: bool)
      requires Valid() && clock <= now
      modifies this
      ensures Valid() && clock == now
      ensures isNew <==> !Remembered(old(accepted), Cap(), ttl, nonce, now)
      ensures accepted == if isNew then old(accepted) + [Accept(nonce, now)] else old(accepted)
    {
      Expire(now);
      IndexKeys(q, nonce);
      if nonce in seen {
        return false;
      }
      IndexSize(q);
      InsertKeeps(accepted, Cap(), ttl, q, Accept(nonce, now));
      if |seen| >= maxEntries {
        if |q| > 0 {
          IndexPop(q);
          seen := seen - {q[0].nonce};
          q := q[1..];
        }
      }
      seen := seen[nonce := now];
      q := q + [Accept(nonce, now)];
      accepted := accepted + [Accept(nonce, now)];
      return true;
    }
  }

  // ---- Whole runs ----

  datatype Call = Call(nonce: Bytes, now: int)

  ghost predicate ClockRuns(calls: seq<Call>, start: int) {
    && (calls != [] ==> start <= calls[0].now)
    && (forall i :: 0 < i < |calls| ==> calls[i - 1].now <= calls[i].now)
  }

  /** Everything accepted by a run of calls. */
  function Accepted(cap: nat, ttl: int, calls: seq<Call>): seq<Accept> {
    if calls == [] then []
    else
      var before := Accepted(cap, ttl, calls[..|calls| - 1]);
      var c := calls[|calls| - 1];
      if Remembered(before, cap, ttl, c.nonce, c.now) then before else before + [Accept(c.nonce, c.now)]
  }

  /** The answer to every call, as the history before it decides. */
  function Answers(cap: nat, ttl: int, calls: seq<Call>): seq<bool> {
    if calls == [] then []
    else
      var c := calls[|calls| - 1];
      var before := calls[..|calls| - 1];
      Answers(cap, ttl, before) + [!Remembered(Accepted(cap, ttl, before), cap, ttl, c.nonce, c.now)]
  }

  /** A new cache answers every call of every run with a non-decreasing clock as the history says. */
  method Serve(cache: VmessReplayCache, calls: seq<Call>) returns (answers: seq<bool>)
    requires cache.Valid() && cache.accepted == [] && ClockRuns(calls, cache.clock)
    modifies cache
    ensures answers == Answers(cache.Cap(), cache.ttl, calls)
    ensures cache.Valid() && cache.accepted == Accepted(cache.Cap(), cache.ttl, calls)
  {
    answers := [];
    for i := 0 to |calls|
      invariant cache.Valid()
      invariant i < |calls| ==> cache.clock <= calls[i].now
      invariant cache.accepted == Accepted(cache.Cap(), cache.ttl, calls[..i])
      invariant answers == Answers(cache.Cap(), cache.ttl, calls[..i])
    {
      assert calls[..i + 1][..i] == calls[..i];
      var ok := cache.CheckAndInsert(calls[i].nonce, calls[i].now);
      answers := answers + [ok];
    }
    assert calls[..|calls|] == calls;
  }

  /** A nonce is accepted a second time only after the TTL has passed or at least `cap` other acceptances
      came in between. */
  lemma {:induction false} NoEarlyReplay(cap: nat, ttl: int, calls: seq<Call>, i: nat, j: nat)
    requires cap >= 1
    requires var a := Accepted(cap, ttl, calls); i < j < |a| && a[i].nonce == a[j].nonce
    ensures var a := Accepted(cap, ttl, calls); a[j].at - a[i].at > ttl || j - i - 1 >= cap
  {
    var before := Accepted(cap, ttl, calls[..|calls| - 1]);
    if j < |before| {
      NoEarlyReplay(cap, ttl, calls[..|calls| - 1], i, j);
    } else {
      var x := calls[|calls| - 1];
      var l := LastN(before, cap);
      var k := i - (|before| - |l|);
      if k >= 0 && x.now - before[i].at <= ttl {
        assert before[i] == l[k];
        LiveHasNonce(l, ttl, x.now, k);
      }
    }
  }

  // ---- Remembered, by position ----

  lemma {:induction false} HasNonceIff(a: seq<Accept>, nonce: Bytes)
    ensures HasNonce(a, nonce) <==> exists i :: 0 <= i < |a| && a[i].nonce == nonce
  {
    if a == [] {
    } else {
      HasNonceIff(a[1..], nonce);
      if i :| 0 <= i < |a| && a[i].nonce == nonce && i > 0 {
        assert a[1..][i - 1].nonce == nonce;
      }
    }
  }

  lemma {:induction false} LiveNonceIndex(a: seq<Accept>, ttl: int, now: int, nonce: Bytes) returns (i: nat)
    requires HasNonce(Live(a, ttl, now), nonce)
    ensures i < |a| && a[i].nonce == nonce && now - a[i].at <= ttl
  {
    if now - a[0].at <= ttl && a[0].nonce == nonce {
      i := 0;
    } else {
      if now - a[0].at <= ttl {
        assert Live(a, ttl, now)[1..] == Live(a[1..], ttl, now);
      }
      i := LiveNonceIndex(a[1..], ttl, now, nonce);
      i := i + 1;
    }
  }

  /** Acceptance `i` is one of the nonce, among the last `cap`, and not older than `ttl`. */
  predicate Stands(a: seq<Accept>, i: int, cap: nat, ttl: int, nonce: Bytes, now: int) {
    0 <= i < |a| && |a| - cap <= i && a[i].nonce == nonce && now - a[i].at <= ttl
  }

  lemma LastNAt(a: seq<Accept>, cap: nat, i: nat)
    requires i < |LastN(a, cap)|
    ensures LastN(a, cap)[i] == a[|a| - |LastN(a, cap)| + i]
  {
  }

  lemma StandsRemembered(a: seq<Accept>, i: nat, cap: nat, ttl: int, nonce: Bytes, now: int)
    requires Stands(a, i, cap, ttl, nonce, now)
    ensures Remembered(a, cap, ttl, nonce, now)
  {
    var l := LastN(a, cap);
    var k := i - (|a| - |l|);
    LastNAt(a, cap, k);
    LiveHasNonce(l, ttl, now, k);
  }

  /** A nonce is remembered exactly when some acceptance of it stands. */
  lemma RememberedIff(a: seq<Accept>, cap: nat, ttl: int, nonce: Bytes, now: int)
    ensures Remembered(a, cap, ttl, nonce, now) <==> exists i :: Stands(a, i, cap, ttl, nonce, now)
  {
    if Remembered(a, cap, ttl, nonce, now) {
      var l := LastN(a, cap);
      var k := LiveNonceIndex(l, ttl, now, nonce);
      LastNAt(a, cap, k);
      assert Stands(a, |a| - |l| + k, cap, ttl, nonce, now);
    }
    if i :| Stands(a, i, cap, ttl, nonce, now) {
      StandsRemembered(a, i, cap, ttl, nonce, now);
    }
  }

  lemma OnlyLatest(a: seq<Accept>, x: Accept, rest: seq<Accept>, cap: nat, ttl: int, now: int, i: nat)
    requires !Remembered(a, cap, ttl, x.nonce, x.at) && x.at <= now && !HasNonce(rest, x.nonce)
    requires Stands(a + [x] + rest, i, cap, ttl, x.nonce, now)
    ensures i == |a|
  {
    var all := a + [x] + rest;
    if i < |a| {
      assert all[i] == a[i];
      assert Stands(a, i, cap, ttl, x.nonce, x.at);
      RememberedIff(a, cap, ttl, x.nonce, x.at);
    } else if i > |a| {
      assert all[i] == rest[i - |a| - 1];
      HasNonceIff(rest, x.nonce);
    }
  }

  /** After an acceptance of a nonce that was not remembered, it is remembered exactly while it is not older than `ttl`
      and fewer than `cap` acceptances of other nonces have followed. */
  lemma RememberedSince(a: seq<Accept>, x: Accept, rest: seq<Accept>, cap: nat, ttl: int, now: int)
    requires !Remembered(a, cap, ttl, x.nonce, x.at) && x.at <= now && !HasNonce(rest, x.nonce)
    ensures Remembered(a + [x] + rest, cap, ttl, x.nonce, now) <==> |rest| < cap && now - x.at <= ttl
  {
    var all := a + [x] + rest;
    RememberedIff(all, cap, ttl, x.nonce, now);
    assert all[|a|] == x;
    assert Stands(all, |a|, cap, ttl, x.nonce, now) <==> |rest| < cap && now - x.at <= ttl;
    if i :| Stands(all, i, cap, ttl, x.nonce, now) {
      OnlyLatest(a, x, rest, cap, ttl, now, i);
    }
  }
}
