/** One entry of the server's task queue (server-stack/stack-tun-api/src/task_queue.rs): leases, claims, status updates
    and completion parts, from any number of workers.  Clock readings are parameters. */
module TaskQueue {
  import opened Prelude
  import Worker

  /** The source's phases, and `Blocked`: a prune took the lock of `tasks` twice and the queue answers no more. */
  datatype Phase = Queued | Claimed | Running | Completed | Failed | Expired | Blocked

  datatype Entry = Entry(
    phase: Phase, claimant: Option<Bytes>, leaseUntil: Option<int>, queuedAt: int,
    status: Option<nat>, headers: seq<Worker.Header>, body: Bytes, error: Option<Bytes>)
  {
    predicate Active() {
      phase == Claimed || phase == Running
    }
  }

  datatype Config = Config(ttl: int, lease: int, trim: Bytes -> Bytes)

  /** The text "queued_ttl_expired". */
  const QUEUED_TTL_EXPIRED: Bytes :=
    [113, 117, 101, 117, 101, 100, 95, 116, 116, 108, 95, 101, 120, 112, 105, 114, 101, 100]

  /** What stands at the head of the queue: this entry, another one that has outlived its TTL, or neither. */
  datatype Head = This | Outlived | Other

  /** The clock and the head of the queue when it is pruned. */
  datatype Tick = Tick(now: int, head: Head)

  datatype Event =
    | Prune(tick: Tick)
    | Claim(worker: Bytes, now: int)
    | Status(worker: Bytes, tick: Tick, check: int)
    | Complete(worker: Bytes, part: Worker.Part, tick: Tick)

  // ---- What each event does to an entry ----

  /** A claim whose lease ran out goes back to the queue; what it delivered stays. */
  function Recycled(e: Entry, now: int): Entry {
    if e.Active() && e.leaseUntil.Some? && now > e.leaseUntil.value
    then e.(phase := Queued, claimant := None, leaseUntil := None) else e
  }

  /** Discarding an outlived entry at the head never returns. */
  function Pruned(cfg: Config, e: Entry, tick: Tick): Entry {
    var e' := Recycled(e, tick.now);
    if tick.head == Outlived || (tick.head == This && e'.phase == Queued && tick.now - e'.queuedAt > cfg.ttl)
    then e'.(phase := Blocked) else e'
  }

  function AfterClaim(cfg: Config, e: Entry, worker: Bytes, now: int): (Entry, bool) {
    if e.phase != Queued then (e, false)
    else if now - e.queuedAt > cfg.ttl then (e.(phase := Expired, error := Some(QUEUED_TTL_EXPIRED)), false)
    else (e.(phase := Claimed, claimant := Some(worker), leaseUntil := Some(now + cfg.lease)), true)
  }

  function AfterStatus(e: Entry, worker: Bytes, check: int): (Entry, bool) {
    if e.claimant != Some(worker) || !e.Active() then (e, false)
    else if e.leaseUntil.Some? && check > e.leaseUntil.value then (e, false)
    else (e.(phase := Running), true)
  }

  /** A part from the claimant. */
  function AfterPart(trim: Bytes -> Bytes, e: Entry, p: Worker.Part): (Entry, bool) {
    if p.finished && trim(p.error) != [] then
      (e.(phase := Failed, error := Some(trim(p.error)), body := e.body + p.chunk), true)
    else
      var e' := e.(status := if p.status != 0 then Some(p.status) else e.status,
                   headers := if p.headers != [] then p.headers else e.headers,
                   body := e.body + p.chunk);
      if !p.finished then (e', true)
      else if e'.status.None? && e'.body == [] then (e', false)
      else (e'.(status := Some(if e'.status.Some? then e'.status.value else 200), phase := Completed), true)
  }

  /** The entry after an event, and whether the caller is answered with success; a blocked queue does not answer. */
  function Handle(cfg: Config, e: Entry, ev: Event): (Entry, bool) {
    match ev
    case Prune(tick) => (Pruned(cfg, e, tick), true)
    case Claim(worker, now) => AfterClaim(cfg, e, worker, now)
    case Status(worker, tick, check) => AfterStatus(Pruned(cfg, e, tick), worker, check)
    case Complete(worker, part, tick) =>
      var e' := Pruned(cfg, e, tick);
      if e'.phase == Blocked || e'.claimant != Some(worker) then (e', false) else AfterPart(cfg.trim, e', part)
  }

  class TaskEntry {
    var phase: Phase
    var claimant: Option<Bytes>
    var leaseUntil: Option<int>
    var status: Option<nat>
    var headers: seq<Worker.Header>
    var body: Bytes
    var error: Option<Bytes>
    const queuedAt: int

    function Value(): Entry
      reads this
    {
      Entry(phase, claimant, leaseUntil, queuedAt, status, headers, body, error)
    }

    constructor (now: int)
      ensures Value() == Entry(Queued, None, None, now, None, [], [], None)
    {
      phase, claimant, leaseUntil, status, headers, body, error := Queued, None, None, None, [], [], None;
      queuedAt := now;
    }

    method PruneAll(cfg: Config, tick: Tick)
      modifies this
      ensures Value() == Pruned(cfg, old(Value()), tick)
    {
      if phase == Claimed || phase == Running {
        if leaseUntil.Some? {
          if tick.now > leaseUntil.value {
            phase := Queued;
            claimant := None;
            leaseUntil := None;
          }
        }
      }
      if tick.head == Outlived {
        phase := Blocked;
      } else if tick.head == This && phase == Queued && tick.now - queuedAt > cfg.ttl {
        phase := Blocked;
      }
    }

    method AttemptClaim(cfg: Config, worker: Bytes, now: int) returns (taken: bool)
      modifies this
      ensures (Value(), taken) == Handle(cfg, old(Value()), Claim(worker, now))
    {
      if phase != Queued {
        return false;
      }
      if now - queuedAt > cfg.ttl {
        phase := Expired;
        error := Some(QUEUED_TTL_EXPIRED);
        return false;
      }
      phase := Claimed;
      claimant := Some(worker);
      leaseUntil := Some(now + cfg.lease);
      taken := true;
    }

    method ApplyStatus(cfg: Config, worker: Bytes, tick: Tick, check: int) returns (ok: bool)
      modifies this
      ensures (Value(), ok) == Handle(cfg, old(Value()), Status(worker, tick, check))
    {
      PruneAll(cfg, tick);
      if Some(worker) != claimant {
        return false;
      }
      if !(phase == Claimed || phase == Running) {
        return false;
      }
      if leaseUntil.Some? && check > leaseUntil.value {
        return false;
      }
      phase := Running;
      ok := true;
    }

    method ApplyComplete(cfg: Config, worker: Bytes, part: Worker.Part, tick: Tick) returns (ok: bool)
      modifies this
      ensures (Value(), ok) == Handle(cfg, old(Value()), Complete(worker, part, tick))
    {
      PruneAll(cfg, tick);
      if phase == Blocked {
        return false;
      }
      var text := cfg.trim(part.error);
      if Some(worker) != claimant {
        return false;
      }
      if part.finished && text != [] {
        phase := Failed;
        error := Some(text);
        body := body + part.chunk;
        return true;
      }
      if part.status != 0 {
        status := Some(part.status);
      }
      if part.headers != [] {
        headers := part.headers;
      }
      body := body + part.chunk;
      if part.finished {
        if status.None? && body == [] {
          return false;
        }
        status := Some(if status.Some? then status.value else 200);
        phase := Completed;
      }
      ok := true;
    }
  }

  // ---- Every run of events ----

  function Run(cfg: Config, e: Entry, evs: seq<Event>): Entry {
    if evs == [] then e else Handle(cfg, Run(cfg, e, evs[..|evs| - 1]), evs[|evs| - 1]).0
  }

  /** The bytes an event adds to the stored body: those of a part from the worker that holds the claim at that time. */
  function Appended(cfg: Config, e: Entry, ev: Event): Bytes {
    if ev.Complete? && Pruned(cfg, e, ev.tick).phase != Blocked && Pruned(cfg, e, ev.tick).claimant == Some(ev.worker)
    then ev.part.chunk else []
  }

  /** Everything delivered in a run, by whichever worker. */
  function Delivered(cfg: Config, e: Entry, evs: seq<Event>): Bytes {
    if evs == [] then []
    else
      var front := evs[..|evs| - 1];
      Delivered(cfg, e, front) + Appended(cfg, Run(cfg, e, front), evs[|evs| - 1])
  }

  lemma HandleAppends(cfg: Config, e: Entry, ev: Event)
    ensures Handle(cfg, e, ev).0.body == e.body + Appended(cfg, e, ev)
  {
    if Appended(cfg, e, ev) == [] {
      assert e.body + [] == e.body;
    }
  }

  /** No claim, requeue or refusal ever takes delivered bytes back. */
  lemma {:induction false} BodyConserved(cfg: Config, e: Entry, evs: seq<Event>)
    ensures Run(cfg, e, evs).body == e.body + Delivered(cfg, e, evs)
  {
    if evs == [] {
      assert e.body + [] == e.body;
    } else {
      var front := evs[..|evs| - 1];
      var mid := Run(cfg, e, front);
      BodyConserved(cfg, e, front);
      HandleAppends(cfg, mid, evs[|evs| - 1]);
      Associate(e.body, Delivered(cfg, e, front), Appended(cfg, mid, evs[|evs| - 1]));
    }
  }

  lemma {:induction false} RunConcat(cfg: Config, e: Entry, a: seq<Event>, b: seq<Event>)
    ensures Run(cfg, e, a + b) == Run(cfg, Run(cfg, e, a), b)
    decreases |b|
  {
    if b == [] {
      assert a + b == a;
    } else {
      assert (a + b)[..|a + b| - 1] == a + b[..|b| - 1];
      RunConcat(cfg, e, a, b[..|b| - 1]);
    }
  }

  // ---- Who holds an entry ----

  lemma {:induction false} QueuedAtKept(cfg: Config, e: Entry, evs: seq<Event>)
    ensures Run(cfg, e, evs).queuedAt == e.queuedAt
  {
    if evs == [] {
    } else {
      QueuedAtKept(cfg, e, evs[..|evs| - 1]);
    }
  }

  /** What pruning does: an entry whose lease is over goes back to the queue and loses its holder; the queue blocks when
      its head is outlived, this entry or another; nothing else changes. */
  lemma PruneIs(cfg: Config, e: Entry, tick: Tick)
    ensures var e' := Pruned(cfg, e, tick);
            var over := (e.phase == Claimed || e.phase == Running) && e.leaseUntil.Some?
                        && tick.now > e.leaseUntil.value;
            && (e'.phase == Blocked
                <==> || e.phase == Blocked || tick.head == Outlived
                     || (tick.head == This && (over || e.phase == Queued) && tick.now > e.queuedAt + cfg.ttl))
            && (e'.phase != Blocked ==> e'.phase == if over then Queued else e.phase)
            && e' == (if over then e.(claimant := None, leaseUntil := None) else e).(phase := e'.phase)
  {
  }

  /** In every run, a claim is taken exactly when the entry is queued and not older than the TTL; then it belongs to
      that worker until its lease ends.  An entry too old expires instead, and one that is not queued stays as it is. */
  lemma ClaimTakenIff(cfg: Config, e: Entry, evs: seq<Event>, worker: Bytes, now: int)
    ensures var before := Run(cfg, e, evs);
            var r := Handle(cfg, before, Claim(worker, now));
            && (r.1 <==> before.phase == Queued && now <= e.queuedAt + cfg.ttl)
            && (r.1 ==> Held(r.0, worker, now + cfg.lease) && r.0.phase == Claimed)
            && (!r.1 && before.phase == Queued ==> r.0 == before.(phase := Expired, error := Some(QUEUED_TTL_EXPIRED)))
            && (before.phase != Queued ==> r.0 == before)
            && r.0.body == before.body && r.0.status == before.status && r.0.headers == before.headers
  {
    QueuedAtKept(cfg, e, evs);
  }

  /** In every run, a status update or a part from a worker that does not hold the entry is refused and only prunes. */
  lemma OthersOnlyPrune(cfg: Config, e: Entry, evs: seq<Event>, ev: Event)
    requires (ev.Status? || ev.Complete?) && Pruned(cfg, Run(cfg, e, evs), ev.tick).claimant != Some(ev.worker)
    ensures Handle(cfg, Run(cfg, e, evs), ev) == (Pruned(cfg, Run(cfg, e, evs), ev.tick), false)
  {
  }

  /** A status update is granted exactly to the worker that holds the entry, while its lease lasts. */
  lemma StatusGrantedIff(cfg: Config, e: Entry, evs: seq<Event>, worker: Bytes, tick: Tick, check: int)
    ensures var before := Pruned(cfg, Run(cfg, e, evs), tick);
            var r := Handle(cfg, Run(cfg, e, evs), Status(worker, tick, check));
            && (r.1 <==> before.claimant == Some(worker) && (before.phase == Claimed || before.phase == Running)
                         && (before.leaseUntil.Some? ==> check <= before.leaseUntil.value))
            && r.0 == if r.1 then before.(phase := Running) else before
  {
  }

  /** The claim at position `k` of a run was taken, by this worker and with this lease. */
  predicate TookAt(cfg: Config, e: Entry, evs: seq<Event>, k: nat, worker: Bytes, until: int) {
    && k < |evs| && evs[k].Claim? && evs[k].worker == worker && evs[k].now + cfg.lease == until
    && Handle(cfg, Run(cfg, e, evs[..k]), evs[k]).1
  }

  predicate TookNone(cfg: Config, e: Entry, evs: seq<Event>, from: nat)
    requires from <= |evs|
    decreases |evs| - from
  {
    from == |evs|
    || (!(evs[from].Claim? && Handle(cfg, Run(cfg, e, evs[..from]), evs[from]).1) && TookNone(cfg, e, evs, from + 1))
  }

  lemma {:induction false} TookNoneSnoc(cfg: Config, e: Entry, front: seq<Event>, last: Event, from: nat)
    requires from <= |front| && TookNone(cfg, e, front, from)
    requires !(last.Claim? && Handle(cfg, Run(cfg, e, front), last).1)
    ensures TookNone(cfg, e, front + [last], from)
    decreases |front| - from
  {
    var all := front + [last];
    assert all[..from] == front[..from];
    if from == |front| {
      assert all[..from] == front;
    } else {
      TookNoneSnoc(cfg, e, front, last, from + 1);
    }
  }

  /** Only a claim that is taken makes a holder or changes a lease. */
  lemma HolderStays(cfg: Config, e: Entry, ev: Event)
    requires Handle(cfg, e, ev).0.Active() && !(ev.Claim? && Handle(cfg, e, ev).1)
    ensures var e' := Handle(cfg, e, ev).0; e.Active() && e.claimant == e'.claimant && e.leaseUntil == e'.leaseUntil
  {
  }

  lemma TookBefore(cfg: Config, e: Entry, front: seq<Event>, last: Event, k: nat, worker: Bytes, until: int)
    requires TookAt(cfg, e, front, k, worker, until)
    ensures TookAt(cfg, e, front + [last], k, worker, until)
  {
    assert (front + [last])[..k] == front[..k];
  }

  /** In every run of a new entry, whoever holds it holds it by the last claim that was taken, with that claim's
      lease. */
  lemma {:induction false} HolderClaimedLast(cfg: Config, queuedAt: int, evs: seq<Event>) returns (k: nat)
    requires Run(cfg, New(queuedAt), evs).Active()
    ensures var e := Run(cfg, New(queuedAt), evs);
            && e.claimant.Some? && e.leaseUntil.Some?
            && TookAt(cfg, New(queuedAt), evs, k, e.claimant.value, e.leaseUntil.value)
            && TookNone(cfg, New(queuedAt), evs, k + 1)
  {
    if evs == [] {
      assert false;
    } else {
      var n := |evs| - 1;
      var front, last := evs[..n], evs[n];
      if last.Claim? && Handle(cfg, Run(cfg, New(queuedAt), front), last).1 {
        k := n;
      } else {
        HolderStays(cfg, Run(cfg, New(queuedAt), front), last);
        k := HolderClaimedLast(cfg, queuedAt, front);
        var held := Run(cfg, New(queuedAt), front);
        TookBefore(cfg, New(queuedAt), front, last, k, held.claimant.value, held.leaseUntil.value);
        TookNoneSnoc(cfg, New(queuedAt), front, last, k + 1);
        assert evs == front + [last];
      }
    }
  }

  // ---- One worker's messages while it holds the claim ----

  function EventOf(worker: Bytes, m: Worker.ClientMsg, tick: Tick): Event {
    match m
    case ClaimPull(_) => Prune(tick)
    case StatusUpdate(_) => Status(worker, tick, tick.now)
    case CompletePart(p) => Complete(worker, p, tick)
  }

  /** The messages as they reach the queue, each with its clock reading. */
  function Sent(worker: Bytes, ms: seq<Worker.ClientMsg>, ticks: seq<Tick>): seq<Event>
    requires |ms| == |ticks|
  {
    if ms == [] then []
    else
      var n := |ms| - 1;
      Sent(worker, ms[..n], ticks[..n]) + [EventOf(worker, ms[n], ticks[n])]
  }

  predicate Held(e: Entry, worker: Bytes, until: int) {
    e.claimant == Some(worker) && e.Active() && e.leaseUntil == Some(until)
  }

  /** All in time, and with no outlived entry at the head of the queue. */
  predicate Within(ticks: seq<Tick>, until: int) {
    ticks == []
    || (Within(ticks[..|ticks| - 1], until) && ticks[|ticks| - 1].now <= until && ticks[|ticks| - 1].head != Outlived)
  }

  /** Messages that neither claim nor finish. */
  predicate AllOpen(ms: seq<Worker.ClientMsg>) {
    ms == [] ||
    var m := ms[|ms| - 1];
    AllOpen(ms[..|ms| - 1]) && !m.ClaimPull? && !Worker.Finishes(m)
  }

  lemma AllOpenSnoc(ms: seq<Worker.ClientMsg>, m: Worker.ClientMsg)
    ensures AllOpen(ms + [m]) <==> AllOpen(ms) && !m.ClaimPull? && !Worker.Finishes(m)
  {
    assert (ms + [m])[..|ms|] == ms;
  }

  /** What a message of the worker that holds the claim does. */
  function AfterMsg(trim: Bytes -> Bytes, e: Entry, m: Worker.ClientMsg): Entry {
    match m
    case ClaimPull(_) => e
    case StatusUpdate(_) => e.(phase := Running)
    case CompletePart(p) => AfterPart(trim, e, p).0
  }

  function ApplyAll(trim: Bytes -> Bytes, e: Entry, ms: seq<Worker.ClientMsg>): Entry {
    if ms == [] then e else AfterMsg(trim, ApplyAll(trim, e, ms[..|ms| - 1]), ms[|ms| - 1])
  }

  lemma HeldStep(cfg: Config, e: Entry, worker: Bytes, until: int, m: Worker.ClientMsg, tick: Tick)
    requires Held(e, worker, until) && tick.now <= until && tick.head != Outlived
    ensures Handle(cfg, e, EventOf(worker, m, tick)).0 == AfterMsg(cfg.trim, e, m)
    ensures !Worker.Finishes(m) ==> Held(AfterMsg(cfg.trim, e, m), worker, until)
  {
    assert Pruned(cfg, e, tick) == e;
  }

  lemma {:induction false} HeldRun(cfg: Config, e: Entry, worker: Bytes, until: int, ms: seq<Worker.ClientMsg>,
                                   ticks: seq<Tick>)
    requires Held(e, worker, until) && |ms| == |ticks| && Within(ticks, until) && AllOpen(ms)
    ensures Run(cfg, e, Sent(worker, ms, ticks)) == ApplyAll(cfg.trim, e, ms)
    ensures Held(ApplyAll(cfg.trim, e, ms), worker, until)
  {
    if ms == [] {
    } else {
      var n := |ms| - 1;
      HeldRun(cfg, e, worker, until, ms[..n], ticks[..n]);
      SentSnoc(cfg, e, worker, ms, ticks);
      HeldStep(cfg, ApplyAll(cfg.trim, e, ms[..n]), worker, until, ms[n], ticks[n]);
    }
  }

  lemma SentSnoc(cfg: Config, e: Entry, worker: Bytes, ms: seq<Worker.ClientMsg>, ticks: seq<Tick>)
    requires |ms| == |ticks| && ms != []
    ensures var n := |ms| - 1;
            var before := Run(cfg, e, Sent(worker, ms[..n], ticks[..n]));
            Run(cfg, e, Sent(worker, ms, ticks)) == Handle(cfg, before, EventOf(worker, ms[n], ticks[n])).0
  {
    var n := |ms| - 1;
    var front := Sent(worker, ms[..n], ticks[..n]);
    assert (front + [EventOf(worker, ms[n], ticks[n])])[..|front|] == front;
  }

  lemma {:induction false} OpenUntilLast(ms: seq<Worker.ClientMsg>, rid: Bytes, n: nat)
    requires Worker.OneTask(ms, rid) && n < |ms|
    ensures AllOpen(ms[..n])
  {
    if n == 0 {
    } else {
      OpenUntilLast(ms, rid, n - 1);
      assert ms[..n][..n - 1] == ms[..n - 1];
      assert Worker.Carries(ms[n - 1], rid) && !Worker.Finishes(ms[n - 1]);
    }
  }

  /** A whole task under one claim changes the entry as its parts do, one after the other. */
  lemma TaskApplied(cfg: Config, e: Entry, worker: Bytes, until: int, rid: Bytes, reply: Worker.Reply, ticks: seq<Tick>)
    requires Held(e, worker, until) && Within(ticks, until)
    requires |ticks| == |Worker.TaskMessages(rid, reply)|
    ensures var ms := Worker.TaskMessages(rid, reply);
            Run(cfg, e, Sent(worker, ms, ticks)) == ApplyAll(cfg.trim, e, ms)
  {
    var ms := Worker.TaskMessages(rid, reply);
    var n := |ms| - 1;
    Worker.TaskShape(rid, reply);
    OpenUntilLast(ms, rid, n);
    HeldRun(cfg, e, worker, until, ms[..n], ticks[..n]);
    SentSnoc(cfg, e, worker, ms, ticks);
    HeldStep(cfg, ApplyAll(cfg.trim, e, ms[..n]), worker, until, ms[n], ticks[n]);
  }

  // ---- What the parts of a reply add up to ----

  lemma {:induction false} ApplyConcat(trim: Bytes -> Bytes, e: Entry, a: seq<Worker.ClientMsg>,
                                       b: seq<Worker.ClientMsg>)
    ensures ApplyAll(trim, e, a + b) == ApplyAll(trim, ApplyAll(trim, e, a), b)
    decreases |b|
  {
    if b == [] {
      assert a + b == a;
    } else {
      assert (a + b)[..|a + b| - 1] == a + b[..|b| - 1];
      ApplyConcat(trim, e, a, b[..|b| - 1]);
    }
  }

  lemma {:induction false} OpenPartsApplied(trim: Bytes -> Bytes, e: Entry, rid: Bytes, status: nat, chunks: seq<Bytes>)
    requires status != 0 && e.status == Some(status)
    ensures ApplyAll(trim, e, Worker.OpenParts(rid, status, chunks)) == e.(body := e.body + Flatten(chunks))
  {
    if chunks == [] {
      assert e.body + [] == e.body;
    } else {
      var front, last := chunks[..|chunks| - 1], chunks[|chunks| - 1];
      OpenPartsApplied(trim, e, rid, status, front);
      var ms := Worker.OpenParts(rid, status, chunks);
      assert ms[..|ms| - 1] == Worker.OpenParts(rid, status, front);
      assert chunks == front + [last];
      FlattenSnoc(front, last);
      Associate(e.body, Flatten(front), last);
    }
  }

  lemma ApplyOne(trim: Bytes -> Bytes, e: Entry, m: Worker.ClientMsg)
    ensures ApplyAll(trim, e, [m]) == AfterMsg(trim, e, m)
  {
    assert [m][..0] == [];
  }

  lemma OpeningApplied(trim: Bytes -> Bytes, e: Entry, rid: Bytes, status: nat, headers: seq<Worker.Header>)
    requires status != 0
    ensures ApplyAll(trim, e, [Worker.StatusUpdate(rid), Worker.Opening(rid, status, headers)])
         == e.(phase := Running, status := Some(status), headers := if headers != [] then headers else e.headers)
  {
    var a, b := Worker.StatusUpdate(rid), Worker.Opening(rid, status, headers);
    ApplyOne(trim, e, a);
    ApplyOne(trim, e.(phase := Running), b);
    ApplyConcat(trim, e, [a], [b]);
    assert [a] + [b] == [a, b];
    assert e.body + [] == e.body;
  }

  lemma ClosingApplied(trim: Bytes -> Bytes, e: Entry, rid: Bytes, status: nat, front: seq<Bytes>, last: Bytes)
    requires status != 0 && trim([]) == [] && e.status == Some(status)
    ensures ApplyAll(trim, e, [Worker.Closing(rid, status, front, last)])
         == e.(phase := Completed, body := e.body + last)
  {
    ApplyOne(trim, e, Worker.Closing(rid, status, front, last));
  }

  lemma ReplyApplied(trim: Bytes -> Bytes, e: Entry, rid: Bytes, status: nat, headers: seq<Worker.Header>,
                     front: seq<Bytes>, last: Bytes)
    requires status != 0 && trim([]) == []
    ensures ApplyAll(trim, e, [Worker.StatusUpdate(rid)] + Worker.ReplyParts(rid, status, headers, front, last))
         == e.(phase := Completed, status := Some(status),
               headers := if headers != [] then headers else e.headers, body := e.body + (Flatten(front) + last))
  {
    var head := [Worker.StatusUpdate(rid), Worker.Opening(rid, status, headers)];
    var mid, end := Worker.OpenParts(rid, status, front), Worker.Closing(rid, status, front, last);
    var e0 := e.(phase := Running, status := Some(status), headers := if headers != [] then headers else e.headers);
    var e1 := e0.(body := e0.body + Flatten(front));
    OpeningApplied(trim, e, rid, status, headers);
    OpenPartsApplied(trim, e0, rid, status, front);
    ClosingApplied(trim, e1, rid, status, front, last);
    ApplyConcat(trim, e, head, mid);
    ApplyConcat(trim, e, head + mid, [end]);
    Worker.Regrouped(Worker.StatusUpdate(rid), Worker.Opening(rid, status, headers), mid, end);
    Associate(e.body, Flatten(front), last);
  }

  /** A successful task, delivered within its lease, completes the entry with the reply's status and headers and with
      the reply's body behind the bytes the entry already held. */
  lemma SuccessStored(cfg: Config, e: Entry, worker: Bytes, until: int, rid: Bytes, status: nat,
                      headers: seq<Worker.Header>, body: Bytes, ticks: seq<Tick>)
    requires Held(e, worker, until) && Within(ticks, until) && status != 0 && cfg.trim([]) == []
    requires |ticks| == |Worker.TaskMessages(rid, Worker.Success(status, headers, body))|
    ensures Run(cfg, e, Sent(worker, Worker.TaskMessages(rid, Worker.Success(status, headers, body)), ticks))
         == e.(phase := Completed, status := Some(status),
               headers := if headers != [] then headers else e.headers, body := e.body + body)
  {
    TaskApplied(cfg, e, worker, until, rid, Worker.Success(status, headers, body), ticks);
    Worker.FrontAndLast(body);
    ReplyApplied(cfg.trim, e, rid, status, headers, Worker.Front(body), Worker.Last(body));
  }

  /** A failed request is stored as failed exactly when its error text is more than white space; otherwise it becomes a
      completed reply with status 502. */
  lemma FailureStored(cfg: Config, e: Entry, worker: Bytes, until: int, rid: Bytes, error: Bytes, ticks: seq<Tick>)
    requires Held(e, worker, until) && Within(ticks, until) && |ticks| == 2
    ensures Run(cfg, e, Sent(worker, Worker.TaskMessages(rid, Worker.Failure(error)), ticks))
         == if cfg.trim(error) != [] then e.(phase := Failed, error := Some(cfg.trim(error)))
            else e.(phase := Completed, status := Some(502))
  {
    TaskApplied(cfg, e, worker, until, rid, Worker.Failure(error), ticks);
    var a, b := Worker.StatusUpdate(rid), Worker.CompletePart(Worker.Part(rid, 502, [], [], true, error));
    ApplyOne(cfg.trim, e, a);
    ApplyOne(cfg.trim, e.(phase := Running), b);
    ApplyConcat(cfg.trim, e, [a], [b]);
    assert e.body + [] == e.body;
  }

  // ---- A task that is claimed again ----

  function New(queuedAt: int): Entry {
    Entry(Queued, None, None, queuedAt, None, [], [], None)
  }

  lemma ClaimThenRun(cfg: Config, e: Entry, evs: seq<Event>, claim: Event, rest: seq<Event>)
    ensures Run(cfg, e, evs + [claim] + rest) == Run(cfg, Handle(cfg, Run(cfg, e, evs), claim).0, rest)
  {
    RunConcat(cfg, e, evs + [claim], rest);
    assert (evs + [claim])[..|evs|] == evs;
  }

  lemma PrefixEmpty(a: Bytes, b: Bytes)
    ensures a + b == b <==> a == []
  {
    if a + b == b {
      assert |a| == 0;
    }
  }

  /** After every history of interrupted claims that leaves the entry queued, a claim that is worked off within its
      lease stores everything delivered before it, followed by its reply, and keeps the earlier headers if it has none
      itself.  So the stored body is the reply's body exactly when nothing was delivered before. */
  lemma ClaimedAgain(cfg: Config, queuedAt: int, evs: seq<Event>, worker: Bytes, now: int, rid: Bytes, status: nat,
                     headers: seq<Worker.Header>, body: Bytes, ticks: seq<Tick>)
    requires Run(cfg, New(queuedAt), evs).phase == Queued
    requires now - Run(cfg, New(queuedAt), evs).queuedAt <= cfg.ttl && Within(ticks, now + cfg.lease)
    requires status != 0 && cfg.trim([]) == []
    requires |ticks| == |Worker.TaskMessages(rid, Worker.Success(status, headers, body))|
    ensures var e := New(queuedAt);
            var ms := Worker.TaskMessages(rid, Worker.Success(status, headers, body));
            var stored := Run(cfg, e, evs + [Claim(worker, now)] + Sent(worker, ms, ticks));
            && stored.phase == Completed && stored.status == Some(status)
            && stored.headers == (if headers != [] then headers else Run(cfg, e, evs).headers)
            && stored.body == Delivered(cfg, e, evs) + body
            && (stored.body == body <==> Delivered(cfg, e, evs) == [])
  {
    var e := New(queuedAt);
    var ms := Worker.TaskMessages(rid, Worker.Success(status, headers, body));
    var claimed := AfterClaim(cfg, Run(cfg, e, evs), worker, now).0;
    SuccessStored(cfg, claimed, worker, now + cfg.lease, rid, status, headers, body, ticks);
    BehindHistory(cfg, e, evs, Claim(worker, now), Sent(worker, ms, ticks), body);
  }

  lemma BehindHistory(cfg: Config, e: Entry, evs: seq<Event>, claim: Event, sent: seq<Event>, body: Bytes)
    requires e.body == []
    requires var before := Run(cfg, e, evs); Run(cfg, Handle(cfg, before, claim).0, sent).body == before.body + body
    ensures Run(cfg, e, evs + [claim] + sent) == Run(cfg, Handle(cfg, Run(cfg, e, evs), claim).0, sent)
    ensures var stored := Run(cfg, e, evs + [claim] + sent).body;
            stored == Delivered(cfg, e, evs) + body && (stored == body <==> Delivered(cfg, e, evs) == [])
  {
    ClaimThenRun(cfg, e, evs, claim, sent);
    BodyConserved(cfg, e, evs);
    assert [] + Delivered(cfg, e, evs) == Delivered(cfg, e, evs);
    PrefixEmpty(Delivered(cfg, e, evs), body);
  }

  /** Such a history: a worker opens its reply, sends a piece of it and is not heard of until its lease has run out. */
  lemma InterruptedClaim(cfg: Config, queuedAt: int, worker: Bytes, rid: Bytes, status: nat,
                         headers: seq<Worker.Header>, c: Bytes)
    returns (evs: seq<Event>)
    requires status != 0 && 0 <= cfg.lease < cfg.ttl
    ensures Run(cfg, New(queuedAt), evs).phase == Queued && Run(cfg, New(queuedAt), evs).queuedAt == queuedAt
    ensures Delivered(cfg, New(queuedAt), evs) == c && Run(cfg, New(queuedAt), evs).headers == headers
  {
    var e, until := New(queuedAt), queuedAt + cfg.lease;
    var late := Prune(Tick(until + 1, Other));
    var claimed := AfterClaim(cfg, e, worker, queuedAt).0;
    var sent, held := OpenedOnly(cfg, claimed, worker, until, rid, status, headers, c, queuedAt);
    var claim := [] + [Claim(worker, queuedAt)];
    ClaimThenRun(cfg, e, [], Claim(worker, queuedAt), sent);
    evs := claim + sent + [late];
    RunConcat(cfg, e, claim + sent, [late]);
    assert [late][..0] == [];
    BodyConserved(cfg, e, evs);
    assert [] + Delivered(cfg, e, evs) == Delivered(cfg, e, evs);
  }

  /** Status update, opening part and one piece, sent by the worker that holds the claim. */
  lemma OpenedOnly(cfg: Config, e: Entry, worker: Bytes, until: int, rid: Bytes, status: nat,
                   headers: seq<Worker.Header>, c: Bytes, now: int)
    returns (sent: seq<Event>, held: Entry)
    requires Held(e, worker, until) && now <= until && status != 0
    ensures Run(cfg, e, sent) == held && Held(held, worker, until)
    ensures held.body == e.body + c && held.queuedAt == e.queuedAt
    ensures held.headers == if headers != [] then headers else e.headers
  {
    var head := [Worker.StatusUpdate(rid), Worker.Opening(rid, status, headers)];
    var part := Worker.CompletePart(Worker.Part(rid, status, [], c, false, []));
    var ms := head + [part];
    var ticks := ThreeTicks(Tick(now, Other), until);
    OpenHead(head[0], head[1], part);
    HeldRun(cfg, e, worker, until, ms, ticks);
    sent := Sent(worker, ms, ticks);
    held := ApplyAll(cfg.trim, e, ms);
    OpeningApplied(cfg.trim, e, rid, status, headers);
    ApplySnoc(cfg.trim, e, head, part);
  }

  lemma ApplySnoc(trim: Bytes -> Bytes, e: Entry, ms: seq<Worker.ClientMsg>, m: Worker.ClientMsg)
    ensures ApplyAll(trim, e, ms + [m]) == AfterMsg(trim, ApplyAll(trim, e, ms), m)
  {
    assert (ms + [m])[..|ms|] == ms;
  }

  lemma OpenHead(a: Worker.ClientMsg, b: Worker.ClientMsg, c: Worker.ClientMsg)
    requires !a.ClaimPull? && !b.ClaimPull? && !c.ClaimPull?
    requires !Worker.Finishes(a) && !Worker.Finishes(b) && !Worker.Finishes(c)
    ensures AllOpen([a, b] + [c])
  {
    AllOpenSnoc([], a);
    assert [] + [a] == [a];
    AllOpenSnoc([a], b);
    assert [a] + [b] == [a, b];
    AllOpenSnoc([a, b], c);
  }

  lemma ThreeTicks(tick: Tick, until: int) returns (ticks: seq<Tick>)
    requires tick.now <= until && tick.head != Outlived
    ensures |ticks| == 3 && Within(ticks, until)
  {
    var one := [tick];
    assert one[..0] == [] && Within(one, until);
    var two := one + [tick];
    assert two[..1] == one && Within(two, until);
    ticks := two + [tick];
    assert ticks[..2] == two;
  }

  /** So a second worker's reply can end up behind a piece of the first worker's, and under its headers. */
  lemma EarlierBytesKept(cfg: Config, queuedAt: int, first: Bytes, second: Bytes, rid: Bytes, status: nat,
                         headers: seq<Worker.Header>, c: Bytes, later: seq<Worker.Header>, body: Bytes,
                         ticks: seq<Tick>)
    returns (evs: seq<Event>)
    requires status != 0 && 0 <= cfg.lease < cfg.ttl && cfg.trim([]) == []
    requires |ticks| == |Worker.TaskMessages(rid, Worker.Success(status, later, body))|
    requires Within(ticks, queuedAt + cfg.ttl + cfg.lease)
    ensures Run(cfg, New(queuedAt), evs).headers == if later != [] then later else headers
    ensures var stored := Run(cfg, New(queuedAt), evs);
            stored.phase == Completed && stored.status == Some(status) && stored.body == c + body
  {
    var before := InterruptedClaim(cfg, queuedAt, first, rid, status, headers, c);
    var now := queuedAt + cfg.ttl;
    ClaimedAgain(cfg, queuedAt, before, second, now, rid, status, later, body, ticks);
    evs := before + [Claim(second, now)]
           + Sent(second, Worker.TaskMessages(rid, Worker.Success(status, later, body)), ticks);
  }

  // ---- Entries that are done ----

  predicate Done(e: Entry) {
    e.phase == Completed || e.phase == Failed || e.phase == Expired
  }

  /** A part that tells the entry nothing new. */
  predicate Repeats(trim: Bytes -> Bytes, e: Entry, p: Worker.Part) {
    && p.chunk == []
    && if p.finished && trim(p.error) != [] then e.phase == Failed && e.error == Some(trim(p.error))
       else
         && (p.status == 0 || e.status == Some(p.status))
         && (p.headers == [] || p.headers == e.headers)
         && (p.finished && (e.status.Some? || e.body != []) ==> e.phase == Completed && e.status.Some?)
  }

  /** An event that does not block the queue and is no news from the entry's own claimant. */
  predicate Harmless(cfg: Config, e: Entry, ev: Event) {
    && (!ev.Claim? ==> ev.tick.head != Outlived)
    && (ev.Complete? && e.claimant == Some(ev.worker) ==> Repeats(cfg.trim, e, ev.part))
  }

  lemma PartRepeats(trim: Bytes -> Bytes, e: Entry, p: Worker.Part)
    ensures AfterPart(trim, e, p).0 == e <==> Repeats(trim, e, p)
  {
    if e.body + p.chunk == e.body {
      assert |p.chunk| == 0;
    }
    assert e.body + [] == e.body;
  }

  /** An entry that is done still changes with every part of its claimant that tells it something: nothing looks at the
      phase. */
  lemma DoneUnchangedIff(cfg: Config, e: Entry, ev: Event)
    requires Done(e)
    ensures Handle(cfg, e, ev).0 == e <==> Harmless(cfg, e, ev)
  {
    if ev.Complete? {
      PartRepeats(cfg.trim, e, ev.part);
    }
  }

  predicate AllHarmless(cfg: Config, e: Entry, evs: seq<Event>) {
    evs == [] || (AllHarmless(cfg, e, evs[..|evs| - 1]) && Harmless(cfg, e, evs[|evs| - 1]))
  }

  /** The entry is the same after every event of a run. */
  predicate Unchanged(cfg: Config, e: Entry, evs: seq<Event>) {
    evs == [] || (Unchanged(cfg, e, evs[..|evs| - 1]) && Run(cfg, e, evs) == e)
  }

  lemma {:induction false} DoneStaysIff(cfg: Config, e: Entry, evs: seq<Event>)
    requires Done(e)
    ensures Unchanged(cfg, e, evs) <==> AllHarmless(cfg, e, evs)
  {
    if evs == [] {
    } else {
      var front := evs[..|evs| - 1];
      DoneStaysIff(cfg, e, front);
      if Unchanged(cfg, e, front) {
        UnchangedRun(cfg, e, front);
      }
      DoneUnchangedIff(cfg, e, evs[|evs| - 1]);
    }
  }

  lemma UnchangedRun(cfg: Config, e: Entry, evs: seq<Event>)
    requires Unchanged(cfg, e, evs)
    ensures Run(cfg, e, evs) == e
  {
  }

  /** So a completed request can still turn into a failed one. */
  lemma CompletedCanFail(cfg: Config, e: Entry, worker: Bytes, rid: Bytes, text: Bytes, tick: Tick)
    requires e.phase == Completed && e.claimant == Some(worker) && cfg.trim(text) != [] && tick.head != Outlived
    ensures Handle(cfg, e, Complete(worker, Worker.Part(rid, 0, [], [], true, text), tick))
            == (e.(phase := Failed, error := Some(cfg.trim(text))), true)
  {
    assert e.body + [] == e.body;
  }

  /** Once a prune has met an outlived entry at the head, nothing reaches the queue any more. */
  lemma {:induction false} BlockedForever(cfg: Config, e: Entry, evs: seq<Event>)
    requires e.phase == Blocked
    ensures Run(cfg, e, evs) == e
  {
    if evs == [] {
    } else {
      BlockedForever(cfg, e, evs[..|evs| - 1]);
    }
  }
}
