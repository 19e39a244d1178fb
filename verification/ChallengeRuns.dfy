/** The challenge-response server with overlapping requests: every store access is one step, and the steps of all
    handlers interleave freely (challenge-response-auth/server/src/main.rs and state.rs). */
module ChallengeRuns {
  import opened Prelude
  import opened ChallengeServer

  /** A handler between its lookup and its verdict: the session it asked for and the row it was given. */
  datatype Flight = Flight(attempt: Attempt, id: Bytes, now: i64, found: Pending)

  datatype State = State(
    sessions: Sessions,
    flights: map<nat, Flight>,
    /** Every id issued so far. */
    issued: set<Bytes>,
    /** Every id a handler has removed so far. */
    removed: set<Bytes>)

  const INIT := State(map[], map[], {}, {})

  datatype Step =
    | Prune(at: i64)
    | Issue(id: Bytes, pending: Pending)
    | Lookup(handler: nat, attempt: Attempt, id: Bytes, now: i64)
    | Finish(handler: nat)

  /** New sessions get new ids; a handler looks up once and then finishes. */
  predicate Enabled(st: State, s: Step) {
    match s
    case Prune(_) => true
    case Issue(id, _) => id !in st.issued
    case Lookup(h, _, _, _) => h !in st.flights
    case Finish(h) => h in st.flights
  }

  function Verdict(cfg: Config, st: State, h: nat): Answer
    requires h in st.flights
  {
    var f := st.flights[h];
    Judge(cfg, f.attempt, f.id, f.now, f.found)
  }

  function Next(cfg: Config, st: State, s: Step): State
    requires Enabled(st, s)
  {
    match s
    case Prune(at) => st.(sessions := Retain(st.sessions, at, MaxAge(cfg.ttl)))
    case Issue(id, p) => st.(sessions := st.sessions[id := p], issued := st.issued + {id})
    case Lookup(h, a, id, now) =>
      if id in st.sessions then st.(flights := st.flights[h := Flight(a, id, now, st.sessions[id])]) else st
    case Finish(h) =>
      var id := st.flights[h].id;
      var landed := st.(flights := st.flights - {h});
      if !Verdict(cfg, st, h).Removes() then landed
      else landed.(sessions := st.sessions - {id}, removed := st.removed + {id})
  }

  /** The state a run leads to; none if some step was not possible. */
  function Exec(cfg: Config, steps: seq<Step>): Option<State> {
    if steps == [] then Some(INIT)
    else
      var before := Exec(cfg, steps[..|steps| - 1]);
      if before.None? || !Enabled(before.value, steps[|steps| - 1]) then None
      else Some(Next(cfg, before.value, steps[|steps| - 1]))
  }

  predicate Run(cfg: Config, steps: seq<Step>) {
    Exec(cfg, steps).Some?
  }

  function After(cfg: Config, steps: seq<Step>): State
    requires Run(cfg, steps)
  {
    Exec(cfg, steps).value
  }

  // ---- What every step keeps ----

  ghost predicate Inv(st: State) {
    && st.sessions.Keys <= st.issued
    && st.removed <= st.issued
    && st.removed !! st.sessions.Keys
    && (forall h :: h in st.flights ==> st.flights[h].id in st.issued)
  }

  lemma StepKeepsInv(cfg: Config, st: State, s: Step)
    requires Inv(st) && Enabled(st, s)
    ensures Inv(Next(cfg, st, s))
    ensures st.removed <= Next(cfg, st, s).removed
  {
  }

  lemma {:induction false} RunKeepsInv(cfg: Config, steps: seq<Step>)
    requires Run(cfg, steps)
    ensures Inv(After(cfg, steps))
  {
    if steps == [] {
    } else {
      RunKeepsInv(cfg, steps[..|steps| - 1]);
      StepKeepsInv(cfg, After(cfg, steps[..|steps| - 1]), steps[|steps| - 1]);
    }
  }

  lemma {:induction false} PrefixRuns(cfg: Config, steps: seq<Step>, i: nat)
    requires Run(cfg, steps) && i <= |steps|
    ensures Run(cfg, steps[..i])
    ensures After(cfg, steps[..i]).removed <= After(cfg, steps).removed
  {
    if i == |steps| {
      assert steps[..i] == steps;
    } else {
      var front := steps[..|steps| - 1];
      PrefixRuns(cfg, front, i);
      assert front[..i] == steps[..i];
      RunKeepsInv(cfg, front);
      StepKeepsInv(cfg, After(cfg, front), steps[|steps| - 1]);
    }
  }

  // ---- Redeemed sessions stay dead ----

  /** Step `i` of the run removes session `id`: a success, or an attempt that found it expired. */
  predicate Removes(cfg: Config, steps: seq<Step>, i: nat, id: Bytes)
    requires i < |steps| && Run(cfg, steps[..i])
  {
    var st := After(cfg, steps[..i]);
    steps[i].Finish? && steps[i].handler in st.flights
    && st.flights[steps[i].handler].id == id && Verdict(cfg, st, steps[i].handler).Removes()
  }

  lemma RemovedAfter(cfg: Config, steps: seq<Step>, i: nat, id: Bytes)
    requires Run(cfg, steps) && i < |steps| && Run(cfg, steps[..i]) && Removes(cfg, steps, i, id)
    ensures id in After(cfg, steps).removed
  {
    PrefixRuns(cfg, steps, i + 1);
    assert steps[..i + 1][..i] == steps[..i];
  }

  /** In every interleaving, once a session has been removed no later lookup finds it. */
  lemma RemovedStaysDead(cfg: Config, steps: seq<Step>, i: nat, j: nat, id: Bytes)
    requires Run(cfg, steps) && i < j < |steps|
    requires Run(cfg, steps[..i]) && Removes(cfg, steps, i, id)
    ensures Run(cfg, steps[..j]) && id !in After(cfg, steps[..j]).sessions
  {
    PrefixRuns(cfg, steps, j);
    assert steps[..j][..i] == steps[..i];
    RemovedAfter(cfg, steps[..j], i, id);
    RunKeepsInv(cfg, steps[..j]);
  }

  // ---- Where a flight comes from ----

  /** Step `k` looked up the row that handler `h` holds, and `h` has not finished since. */
  predicate Starts(cfg: Config, steps: seq<Step>, k: nat, h: nat, f: Flight)
    requires k < |steps| && Run(cfg, steps[..k])
  {
    && steps[k] == Lookup(h, f.attempt, f.id, f.now)
    && f.id in After(cfg, steps[..k]).sessions && After(cfg, steps[..k]).sessions[f.id] == f.found
    && forall m :: k < m < |steps| ==> steps[m] != Finish(h)
  }

  lemma {:induction false} FlightHasLookup(cfg: Config, steps: seq<Step>, h: nat) returns (k: nat)
    requires Run(cfg, steps) && h in After(cfg, steps).flights
    ensures k < |steps| && Run(cfg, steps[..k])
    ensures Starts(cfg, steps, k, h, After(cfg, steps).flights[h])
  {
    var n := |steps| - 1;
    var front := steps[..n];
    var before := After(cfg, front);
    if steps[n].Lookup? && steps[n].handler == h && steps[n].id in before.sessions {
      k := n;
    } else {
      k := FlightHasLookup(cfg, front, h);
      assert front[..k] == steps[..k];
    }
  }

  /** The lookup whose flight lands at a second removal came before the first one. */
  lemma LookupBefore(cfg: Config, steps: seq<Step>, i: nat, j: nat, id: Bytes) returns (k: nat)
    requires Run(cfg, steps) && i < j < |steps|
    requires Run(cfg, steps[..i]) && Removes(cfg, steps, i, id)
    requires Run(cfg, steps[..j]) && Removes(cfg, steps, j, id)
    ensures k < i && Run(cfg, steps[..j][..k])
    ensures Starts(cfg, steps[..j], k, steps[j].handler, After(cfg, steps[..j]).flights[steps[j].handler])
  {
    k := FlightHasLookup(cfg, steps[..j], steps[j].handler);
    assert steps[..j][..k] == steps[..k];
    if k > i {
      RemovedStaysDead(cfg, steps, i, k, id);
    }
  }

  /** Two steps both remove one session only if they belong to different, overlapping handlers: the lookup whose flight
      lands second came before the first removal. */
  lemma DoubleRedeemOverlaps(cfg: Config, steps: seq<Step>, i: nat, j: nat, id: Bytes) returns (k: nat)
    requires Run(cfg, steps) && i < j < |steps|
    requires Run(cfg, steps[..i]) && Removes(cfg, steps, i, id)
    requires Run(cfg, steps[..j]) && Removes(cfg, steps, j, id)
    ensures k < i && steps[k].Lookup? && steps[k].handler == steps[j].handler && steps[k].id == id
    ensures forall m :: k < m < j ==> steps[m] != Finish(steps[j].handler)
    ensures steps[i].handler != steps[j].handler
  {
    k := LookupBefore(cfg, steps, i, j, id);
    var front := steps[..j];
    forall m | k < m < j
      ensures steps[m] != Finish(steps[j].handler)
    {
      assert front[m] == steps[m];
    }
  }

  /** A flight lasts until its handler finishes. */
  lemma {:induction false} FlightLasts(cfg: Config, steps: seq<Step>, k: nat, h: nat, f: Flight)
    requires Run(cfg, steps) && k < |steps| && Run(cfg, steps[..k]) && Starts(cfg, steps, k, h, f)
    ensures h in After(cfg, steps).flights && After(cfg, steps).flights[h] == f
  {
    var n := |steps| - 1;
    var front := steps[..n];
    if k < n {
      assert front[..k] == steps[..k];
      assert Starts(cfg, front, k, h, f);
      FlightLasts(cfg, front, k, h, f);
      assert steps[n] != Finish(h);
    }
  }

  /** Step `k` started a flight that lands at step `j` with this answer. */
  predicate InFlight(cfg: Config, steps: seq<Step>, k: nat, j: nat, f: Flight, answer: Answer)
    requires j < |steps|
  {
    && k < j && Run(cfg, steps[..j][..k]) && steps[j].Finish?
    && Starts(cfg, steps[..j], k, steps[j].handler, f)
    && Judge(cfg, f.attempt, f.id, f.now, f.found) == answer
  }

  /** A flight for the session that began before step `i` lands at step `j`. */
  ghost predicate Overlaps(cfg: Config, steps: seq<Step>, i: nat, j: nat, id: Bytes, answer: Answer)
    requires i < j < |steps|
  {
    exists k: nat, f: Flight :: k < i && InFlight(cfg, steps, k, j, f, answer) && f.id == id
  }

  /** Over every run, after a step has removed a session a later one is answered on it once more, with success or with
      another removal, exactly when it ends a flight that began before that step.  The two belong to different
      handlers. */
  lemma AnsweredTwiceIff(cfg: Config, steps: seq<Step>, i: nat, j: nat, id: Bytes, answer: Answer)
    requires Run(cfg, steps) && i < j < |steps| && answer.Removes()
    requires Run(cfg, steps[..i]) && Removes(cfg, steps, i, id)
    ensures Run(cfg, steps[..j])
    ensures Removes(cfg, steps, j, id) && Verdict(cfg, After(cfg, steps[..j]), steps[j].handler) == answer
            <==> Overlaps(cfg, steps, i, j, id, answer)
    ensures Overlaps(cfg, steps, i, j, id, answer) ==> steps[i].handler != steps[j].handler
  {
    PrefixRuns(cfg, steps, j);
    var front := steps[..j];
    if Overlaps(cfg, steps, i, j, id, answer) {
      var k: nat, f: Flight :| k < i && InFlight(cfg, steps, k, j, f, answer) && f.id == id;
      FlightLasts(cfg, front, k, steps[j].handler, f);
    }
    if Removes(cfg, steps, j, id) {
      var k := LookupBefore(cfg, steps, i, j, id);
      var f := After(cfg, front).flights[steps[j].handler];
      if Judge(cfg, f.attempt, f.id, f.now, f.found) == answer {
        assert InFlight(cfg, steps, k, j, f, answer);
      }
      var _ := DoubleRedeemOverlaps(cfg, steps, i, j, id);
    }
  }

  lemma OneMore(cfg: Config, steps: seq<Step>, st: State, s: Step)
    requires Exec(cfg, steps) == Some(st) && Enabled(st, s)
    ensures Exec(cfg, steps + [s]) == Some(Next(cfg, st, s))
    ensures (steps + [s])[..|steps|] == steps
  {
  }

  /** And overlapping handlers can both succeed: two lookups of one session, then two verdicts on it. */
  lemma OverlapRedeemsTwice(cfg: Config, a: Attempt, id: Bytes, now: i64, p: Pending) returns (steps: seq<Step>)
    requires Judge(cfg, a, id, now, p) == Accepted
    ensures |steps| == 5 && Run(cfg, steps)
    ensures Run(cfg, steps[..3]) && Removes(cfg, steps, 3, id) && Run(cfg, steps[..4]) && Removes(cfg, steps, 4, id)
    ensures Verdict(cfg, After(cfg, steps[..3]), steps[3].handler) == Accepted
    ensures Verdict(cfg, After(cfg, steps[..4]), steps[4].handler) == Accepted
  {
    var three, st := TwoLookups(cfg, a, id, now, p);
    OneMore(cfg, three, st, Finish(0));
    var four := three + [Finish(0)];
    OneMore(cfg, four, Next(cfg, st, Finish(0)), Finish(1));
    steps := four + [Finish(1)];
    assert steps[..3] == three && steps[..4] == four;
  }

  lemma TwoLookups(cfg: Config, a: Attempt, id: Bytes, now: i64, p: Pending) returns (steps: seq<Step>, st: State)
    ensures |steps| == 3 && Exec(cfg, steps) == Some(st)
    ensures var f := Flight(a, id, now, p); st == State(map[id := p], map[0 := f, 1 := f], {id}, {})
  {
    OneMore(cfg, [], INIT, Issue(id, p));
    var one := [] + [Issue(id, p)];
    var st1 := State(map[id := p], map[], {id}, {});
    assert Next(cfg, INIT, Issue(id, p)) == st1;
    OneMore(cfg, one, st1, Lookup(0, a, id, now));
    var two := one + [Lookup(0, a, id, now)];
    var st2 := Next(cfg, st1, Lookup(0, a, id, now));
    OneMore(cfg, two, st2, Lookup(1, a, id, now));
    steps := two + [Lookup(1, a, id, now)];
    st := Next(cfg, st2, Lookup(1, a, id, now));
  }
}
