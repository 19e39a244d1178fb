/** Which attempts a challenge server accepts over a whole sequence of requests, read off the requests themselves
    (challenge-response-auth/server/src/main.rs and state.rs). */
module ChallengeHistory {
  import opened Prelude
  import opened ChallengeServer
  import HmacMessage

  predicate Issues(r: Request, id: Bytes) {
    r.NewChallenge? && r.id == id
  }

  predicate Attempts(cfg: Config, r: Request, id: Bytes) {
    r.Authenticate? && cfg.parseId(cfg.trim(r.attempt.sessionId)) == Some(id)
  }

  predicate FullNonces(rs: seq<Request>) {
    forall i :: 0 <= i < |rs| && rs[i].NewChallenge? ==> |rs[i].nonce| == HmacMessage.NONCE_LEN
  }

  /** Request `k` issued the session, and until request `i` it was neither issued again nor redeemed. */
  predicate Standing(cfg: Config, rs: seq<Request>, answers: seq<Answer>, k: nat, i: nat, id: Bytes)
    requires k < i <= |rs| == |answers|
  {
    if i == k + 1 then Issues(rs[k], id)
    else
      && Standing(cfg, rs, answers, k, i - 1, id)
      && !Issues(rs[i - 1], id)
      && !(Attempts(cfg, rs[i - 1], id) && answers[i - 1] == Accepted)
  }

  /** Attempt `i` proves the session that request `k` issued, which still stands, within TTL and skew. */
  predicate Redeems(cfg: Config, rs: seq<Request>, answers: seq<Answer>, k: nat, i: nat, id: Bytes)
    requires i < |rs| == |answers| && FullNonces(rs)
  {
    && k < i && Attempts(cfg, rs[i], id) && Standing(cfg, rs, answers, k, i, id) && rs[k].NewChallenge?
    && Proves(cfg, rs[i].attempt, id, Pending(rs[k].nonce, rs[k].now, rs[k].now))
    && rs[i].now - rs[k].now <= Min(cfg.ttl, cfg.skew)
  }

  // ---- The store along a run ----

  /** The sessions after the first `i` requests. */
  function Stored(cfg: Config, pruning: bool, m: Sessions, rs: seq<Request>, i: nat): Sessions
    requires i <= |rs|
  {
    if i == 0 then m else Serve(cfg, pruning, Stored(cfg, pruning, m, rs, i - 1), rs[i - 1]).0
  }

  lemma {:induction false} StoredShift(cfg: Config, pruning: bool, m: Sessions, rs: seq<Request>, i: nat)
    requires 0 < i <= |rs|
    ensures Stored(cfg, pruning, m, rs, i)
            == Stored(cfg, pruning, Serve(cfg, pruning, m, rs[0]).0, rs[1..], i - 1)
  {
    if i == 1 {
      assert Stored(cfg, pruning, m, rs, 0) == m;
    } else {
      StoredShift(cfg, pruning, m, rs, i - 1);
      assert rs[1..][i - 2] == rs[i - 1];
    }
  }

  lemma {:induction false} AnswersAre(cfg: Config, pruning: bool, m: Sessions, rs: seq<Request>, i: nat)
    requires i < |rs|
    ensures |ServeAll(cfg, pruning, m, rs).1| == |rs|
    ensures ServeAll(cfg, pruning, m, rs).1[i] == Serve(cfg, pruning, Stored(cfg, pruning, m, rs, i), rs[i]).1
    decreases |rs|
  {
    var first := Serve(cfg, pruning, m, rs[0]);
    if |rs| == 1 {
      assert rs[1..] == [];
    } else {
      AnswersAre(cfg, pruning, first.0, rs[1..], if i == 0 then 0 else i - 1);
    }
    if i > 0 {
      StoredShift(cfg, pruning, m, rs, i);
    }
  }

  lemma {:induction false} AnswerCount(cfg: Config, pruning: bool, m: Sessions, rs: seq<Request>)
    ensures |ServeAll(cfg, pruning, m, rs).1| == |rs|
    decreases |rs|
  {
    if rs == [] {
    } else {
      AnswerCount(cfg, pruning, Serve(cfg, pruning, m, rs[0]).0, rs[1..]);
    }
  }

  lemma {:induction false} Ordered(rs: seq<Request>, last: i64, slack: int, i: nat)
    requires Timely(rs, last, slack) && i < |rs|
    ensures 0 <= last <= rs[i].now && (i > 0 ==> rs[i - 1].now <= rs[i].now)
    decreases |rs|
  {
    if i == 0 {
    } else {
      var r := rs[0];
      var next := if r.storeNow.Some? then r.storeNow.value else r.now;
      Ordered(rs[1..], next, slack, i - 1);
      if i > 1 {
        assert rs[1..][i - 2] == rs[i - 1];
      }
    }
  }

  lemma {:induction false} OrderedFrom(rs: seq<Request>, last: i64, slack: int, k: nat, i: nat)
    requires Timely(rs, last, slack) && k <= i < |rs|
    ensures 0 <= rs[k].now <= rs[i].now
    decreases i
  {
    Ordered(rs, last, slack, i);
    if k < i {
      OrderedFrom(rs, last, slack, k, i - 1);
    }
  }

  // ---- What a store that never forgets holds ----

  function Row(r: Request): Pending
    requires r.NewChallenge?
  {
    Pending(r.nonce, r.now, r.now)
  }

  /** Every session on record was issued, and stands since. */
  lemma {:induction false} OnRecordStands(cfg: Config, rs: seq<Request>, answers: seq<Answer>, i: nat, id: Bytes)
    returns (k: nat)
    requires i <= |rs| && answers == ServeAll(cfg, false, map[], rs).1 && |answers| == |rs|
    requires id in Stored(cfg, false, map[], rs, i)
    ensures k < i && Standing(cfg, rs, answers, k, i, id) && rs[k].NewChallenge?
    ensures Stored(cfg, false, map[], rs, i)[id] == Row(rs[k])
  {
    var r := rs[i - 1];
    AnswersAre(cfg, false, map[], rs, i - 1);
    if Issues(r, id) {
      k := i - 1;
    } else {
      k := OnRecordStands(cfg, rs, answers, i - 1, id);
    }
  }

  /** A session that stands is on record as issued, or has been found expired. */
  lemma {:induction false} StandingOnRecord(cfg: Config, rs: seq<Request>, answers: seq<Answer>, last: i64, slack: int,
                                            k: nat, i: nat, id: Bytes)
    requires k < i <= |rs| && answers == ServeAll(cfg, false, map[], rs).1 && |answers| == |rs|
    requires Timely(rs, last, slack) && Standing(cfg, rs, answers, k, i, id)
    ensures rs[k].NewChallenge?
    ensures var m := Stored(cfg, false, map[], rs, i);
            if id in m then m[id] == Row(rs[k]) else rs[i - 1].now - rs[k].now > cfg.ttl
  {
    if i == k + 1 {
    } else {
      StandingOnRecord(cfg, rs, answers, last, slack, k, i - 1, id);
      AnswersAre(cfg, false, map[], rs, i - 1);
      Ordered(rs, last, slack, i - 1);
      OrderedFrom(rs, last, slack, k, i - 1);
      StepKeepsRow(cfg, Stored(cfg, false, map[], rs, i - 1), rs[i - 1], id, rs[k]);
    }
  }

  /** One request on a store that holds the session. */
  lemma StepKeepsRow(cfg: Config, m: Sessions, r: Request, id: Bytes, issue: Request)
    requires issue.NewChallenge? && 0 <= issue.now <= r.now && !Issues(r, id)
    requires id in m ==> m[id] == Row(issue)
    ensures var after := Serve(cfg, false, m, r);
            && (id in after.0 ==> id in m && after.0[id] == Row(issue))
            && (id in m && id !in after.0 ==>
                  Attempts(cfg, r, id) && (after.1 == Accepted || r.now - issue.now > cfg.ttl))
  {
  }

  // ---- Whole runs ----

  /** With a store that never forgets, an attempt is accepted exactly when it redeems a session that stands. */
  lemma AcceptedOnRecord(cfg: Config, rs: seq<Request>, answers: seq<Answer>, last: i64, slack: int, i: nat)
    requires answers == ServeAll(cfg, false, map[], rs).1 && |answers| == |rs|
    requires Timely(rs, last, slack) && FullNonces(rs) && i < |rs| && rs[i].Authenticate?
    requires forall s: Bytes, t: Bytes :: |cfg.mac(s, t)| == 32
    ensures answers[i] == Accepted <==> exists k: nat, id: Bytes :: Redeems(cfg, rs, answers, k, i, id)
  {
    var m := Stored(cfg, false, map[], rs, i);
    var a, now := rs[i].attempt, rs[i].now;
    AnswersAre(cfg, false, map[], rs, i);
    if answers[i] == Accepted {
      var id := cfg.parseId(cfg.trim(a.sessionId)).value;
      var k := OnRecordStands(cfg, rs, answers, i, id);
      OrderedFrom(rs, last, slack, k, i);
      AcceptanceWindow(cfg, a, id, now, m[id]);
      assert Redeems(cfg, rs, answers, k, i, id);
    }
    if k: nat, id: Bytes :| Redeems(cfg, rs, answers, k, i, id) {
      StandingOnRecord(cfg, rs, answers, last, slack, k, i, id);
      Ordered(rs, last, slack, i);
      OrderedFrom(rs, last, slack, k, i);
      if id in m {
        AcceptanceWindow(cfg, a, id, now, m[id]);
      }
    }
  }

  predicate SameAccepted(a: seq<Answer>, b: seq<Answer>) {
    |a| == |b| && forall i :: 0 <= i < |a| ==> (a[i] == Accepted <==> b[i] == Accepted)
  }

  lemma {:induction false} StandingAlike(cfg: Config, rs: seq<Request>, a: seq<Answer>, b: seq<Answer>, k: nat, i: nat,
                                         id: Bytes)
    requires k < i <= |rs| == |a| && SameAccepted(a, b)
    ensures Standing(cfg, rs, a, k, i, id) == Standing(cfg, rs, b, k, i, id)
  {
    if i == k + 1 {
    } else {
      StandingAlike(cfg, rs, a, b, k, i - 1, id);
    }
  }

  lemma RedeemsAlike(cfg: Config, rs: seq<Request>, a: seq<Answer>, b: seq<Answer>, i: nat)
    requires i < |rs| == |a| && SameAccepted(a, b) && FullNonces(rs)
    ensures (exists k: nat, id: Bytes :: Redeems(cfg, rs, a, k, i, id))
            <==> (exists k: nat, id: Bytes :: Redeems(cfg, rs, b, k, i, id))
  {
    if k: nat, id: Bytes :| Redeems(cfg, rs, a, k, i, id) {
      StandingAlike(cfg, rs, a, b, k, i, id);
      assert Redeems(cfg, rs, b, k, i, id);
    }
    if k: nat, id: Bytes :| Redeems(cfg, rs, b, k, i, id) {
      StandingAlike(cfg, rs, a, b, k, i, id);
      assert Redeems(cfg, rs, a, k, i, id);
    }
  }

  /** Over every timely sequence of requests to a new server, whether or not its store prunes, an attempt is accepted
      exactly when it proves a session that was issued before, has not been issued again or redeemed since, and is at
      most TTL and skew old. */
  lemma AcceptedIff(cfg: Config, pruning: bool, rs: seq<Request>, last: i64, slack: int, i: nat)
    requires Timely(rs, last, slack) && (pruning ==> slack == MaxAge(cfg.ttl) - cfg.ttl)
    requires FullNonces(rs) && i < |rs| && rs[i].Authenticate?
    requires forall s: Bytes, t: Bytes :: |cfg.mac(s, t)| == 32
    ensures var answers := ServeAll(cfg, pruning, map[], rs).1;
            && |answers| == |rs|
            && (answers[i] == Accepted <==> exists k: nat, id: Bytes :: Redeems(cfg, rs, answers, k, i, id))
  {
    AnswerCount(cfg, pruning, map[], rs);
    AnswerCount(cfg, false, map[], rs);
    var plain := ServeAll(cfg, false, map[], rs).1;
    AcceptedOnRecord(cfg, rs, plain, last, slack, i);
    if pruning {
      AnswersAlike(cfg, rs, last, slack, i);
      AcceptedAlike(cfg, rs, ServeAll(cfg, true, map[], rs).1, plain, i);
    }
  }

  lemma AnswersAlike(cfg: Config, rs: seq<Request>, last: i64, slack: int, i: nat)
    requires Timely(rs, last, slack) && slack == MaxAge(cfg.ttl) - cfg.ttl && i < |rs|
    ensures AllAlike(ServeAll(cfg, true, map[], rs).1, ServeAll(cfg, false, map[], rs).1)
  {
    Ordered(rs, last, slack, i);
    PruningInvisible(cfg, map[], map[], last, rs);
  }

  /** Answers that are alike but for unknown and expired sessions accept for the same reasons. */
  lemma AcceptedAlike(cfg: Config, rs: seq<Request>, small: seq<Answer>, big: seq<Answer>, i: nat)
    requires |small| == |big| == |rs| && i < |rs| && FullNonces(rs) && AllAlike(small, big)
    requires big[i] == Accepted <==> exists k: nat, id: Bytes :: Redeems(cfg, rs, big, k, i, id)
    ensures small[i] == Accepted <==> exists k: nat, id: Bytes :: Redeems(cfg, rs, small, k, i, id)
  {
    SameFromAlike(small, big);
    RedeemsAlike(cfg, rs, small, big, i);
  }

  lemma SameFromAlike(small: seq<Answer>, big: seq<Answer>)
    requires AllAlike(small, big)
    ensures SameAccepted(small, big)
  {
    forall i | 0 <= i < |small|
      ensures small[i] == Accepted <==> big[i] == Accepted
    {
      assert Alike(small[i], big[i]);
    }
  }

  lemma {:induction false} NoSuccessWhileStanding(cfg: Config, rs: seq<Request>, answers: seq<Answer>, k: nat, i: nat,
                                                  id: Bytes, j: nat)
    requires k < j < i <= |rs| == |answers| && Standing(cfg, rs, answers, k, i, id)
    ensures !(Attempts(cfg, rs[j], id) && answers[j] == Accepted)
  {
    if j < i - 1 {
      NoSuccessWhileStanding(cfg, rs, answers, k, i - 1, id, j);
    }
  }

  lemma {:induction false} StandingIssued(cfg: Config, rs: seq<Request>, answers: seq<Answer>, k: nat, i: nat,
                                          id: Bytes)
    requires k < i <= |rs| == |answers| && Standing(cfg, rs, answers, k, i, id)
    ensures Issues(rs[k], id)
  {
    if i > k + 1 {
      StandingIssued(cfg, rs, answers, k, i - 1, id);
    }
  }

  /** Each issue is good for one success: between two accepted attempts on an id the id was issued again. */
  lemma OneSuccessEach(cfg: Config, pruning: bool, rs: seq<Request>, last: i64, slack: int, i: nat, j: nat, id: Bytes)
    returns (k: nat)
    requires Timely(rs, last, slack) && (pruning ==> slack == MaxAge(cfg.ttl) - cfg.ttl)
    requires FullNonces(rs) && i < j < |rs| && Attempts(cfg, rs[i], id) && Attempts(cfg, rs[j], id)
    requires forall s: Bytes, t: Bytes :: |cfg.mac(s, t)| == 32
    requires var answers := ServeAll(cfg, pruning, map[], rs).1;
             |answers| == |rs| && answers[i] == Accepted && answers[j] == Accepted
    ensures i < k < j && Issues(rs[k], id)
  {
    var answers := ServeAll(cfg, pruning, map[], rs).1;
    AcceptedIff(cfg, pruning, rs, last, slack, j);
    var at: nat, id': Bytes :| Redeems(cfg, rs, answers, at, j, id');
    StandingIssued(cfg, rs, answers, at, j, id);
    if at < i {
      NoSuccessWhileStanding(cfg, rs, answers, at, j, id, i);
    }
    k := at;
  }
}
