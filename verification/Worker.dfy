/** The task-queue worker's conversation (local-stack/client/src/tunnel.rs).  The inbound stream is the sequence of
    messages the server sends before it closes; `upstream(p)` is what the local service answers to the request in
    message `p`; `room` is how many sends succeed before the outbound channel is closed. */
module Worker {
  import opened Prelude

  const COMPLETE_CHUNK := 48 * 1024

  datatype Header = Header(key: Bytes, value: Bytes)

  datatype Part = Part(rid: Bytes, status: nat, headers: seq<Header>, chunk: Bytes, finished: bool, error: Bytes)

  datatype ClientMsg = ClaimPull(waitMs: nat) | StatusUpdate(id: Bytes) | CompletePart(part: Part)

  /** An assignment carries the request id of its envelope, if it has an envelope. */
  datatype ServerMsg = ReadyMsg | AckMsg | ErrorMsg | EmptyMsg | Assigned(rid: Option<Bytes>)

  datatype Reply = Success(status: nat, headers: seq<Header>, body: Bytes) | Failure(error: Bytes)

  // ---- What one task sends ----

  /** Body parts while more are to come; only the first repeats the status. */
  function OpenParts(rid: Bytes, status: nat, chunks: seq<Bytes>): (ms: seq<ClientMsg>)
    ensures |ms| == |chunks|
  {
    seq(|chunks|, i requires 0 <= i < |chunks| =>
      CompletePart(Part(rid, if i == 0 then status else 0, [], chunks[i], false, [])))
  }

  /** The pieces of a body before the last one, and the last one; an empty body is one empty piece. */
  function Front(body: Bytes): seq<Bytes> {
    var chunks := Split(body, COMPLETE_CHUNK);
    if chunks == [] then [] else chunks[..|chunks| - 1]
  }

  function Last(body: Bytes): Bytes {
    var chunks := Split(body, COMPLETE_CHUNK);
    if chunks == [] then [] else chunks[|chunks| - 1]
  }

  function Opening(rid: Bytes, status: nat, headers: seq<Header>): ClientMsg {
    CompletePart(Part(rid, status, headers, [], false, []))
  }

  function Closing(rid: Bytes, status: nat, front: seq<Bytes>, last: Bytes): ClientMsg {
    CompletePart(Part(rid, if front == [] then status else 0, [], last, true, []))
  }

  function ReplyParts(rid: Bytes, status: nat, headers: seq<Header>, front: seq<Bytes>, last: Bytes): seq<ClientMsg> {
    [Opening(rid, status, headers)] + OpenParts(rid, status, front) + [Closing(rid, status, front, last)]
  }

  function ResponseParts(rid: Bytes, reply: Reply): seq<ClientMsg> {
    match reply
    case Success(status, headers, body) => ReplyParts(rid, status, headers, Front(body), Last(body))
    case Failure(e) => [CompletePart(Part(rid, 502, [], [], true, e))]
  }

  function TaskMessages(rid: Bytes, reply: Reply): seq<ClientMsg> {
    [StatusUpdate(rid)] + ResponseParts(rid, reply)
  }

  // ---- Waiting for acknowledgements ----

  /** The position behind the next Ack; every other message on the way is dropped. */
  function AfterAck(inbound: seq<ServerMsg>, pos: nat): (r: nat)
    requires pos <= |inbound|
    ensures pos <= r <= |inbound|
    decreases |inbound| - pos
  {
    if pos == |inbound| then pos
    else if inbound[pos] == AckMsg then pos + 1
    else AfterAck(inbound, pos + 1)
  }

  function AfterAcks(inbound: seq<ServerMsg>, pos: nat, n: nat): (r: nat)
    requires pos <= |inbound|
    ensures pos <= r <= |inbound|
  {
    if n == 0 then pos else AfterAck(inbound, AfterAcks(inbound, pos, n - 1))
  }

  method DiscardUntilAck(inbound: seq<ServerMsg>, pos: nat) returns (r: nat)
    requires pos <= |inbound|
    ensures r == AfterAck(inbound, pos)
  {
    r := pos;
    while r < |inbound|
      invariant pos <= r <= |inbound|
      invariant AfterAck(inbound, r) == AfterAck(inbound, pos)
    {
      var m := inbound[r];
      r := r + 1;
      if m == AckMsg {
        return;
      }
    }
  }

  lemma Regrouped<T>(a: T, b: T, mid: seq<T>, c: T)
    ensures [a] + ([b] + mid + [c]) == [a, b] + mid + [c]
  {
  }

  lemma OpenPartsSnoc(rid: Bytes, status: nat, chunks: seq<Bytes>, c: Bytes)
    ensures OpenParts(rid, status, chunks + [c])
         == OpenParts(rid, status, chunks)
            + [CompletePart(Part(rid, if chunks == [] then status else 0, [], c, false, []))]
  {
  }

  /** The first `n` messages, as far as there are so many. */
  function Take(ms: seq<ClientMsg>, n: nat): seq<ClientMsg> {
    if |ms| <= n then ms else ms[..n]
  }

  /** Send one part and wait for its Ack; nothing more happens when the channel is closed. */
  method SendPart(inbound: seq<ServerMsg>, pos: nat, sent: seq<ClientMsg>, part: Part, room: nat)
    returns (r: nat, out: seq<ClientMsg>, ok: bool)
    requires pos <= |inbound|
    ensures ok <==> |sent| < room
    ensures out == if ok then sent + [CompletePart(part)] else sent
    ensures r == if ok then AfterAck(inbound, pos) else pos
  {
    ok := |sent| < room;
    if !ok {
      return pos, sent, false;
    }
    out := sent + [CompletePart(part)];
    r := DiscardUntilAck(inbound, pos);
  }

  /** The part that carries piece `i` of `n`. */
  function PieceAt(rid: Bytes, status: nat, chunks: seq<Bytes>, i: nat): Part
    requires i < |chunks|
  {
    Part(rid, if i == 0 then status else 0, [], chunks[i], i + 1 == |chunks|, [])
  }

  /** What has been sent once `i` pieces are out. */
  function Pumped(rid: Bytes, status: nat, headers: seq<Header>, chunks: seq<Bytes>, i: nat): seq<ClientMsg>
    requires i <= |chunks| && chunks != []
  {
    if i == |chunks| then ReplyParts(rid, status, headers, chunks[..i - 1], chunks[i - 1])
    else [Opening(rid, status, headers)] + OpenParts(rid, status, chunks[..i])
  }

  lemma PumpedStep(rid: Bytes, status: nat, headers: seq<Header>, chunks: seq<Bytes>, i: nat)
    requires i < |chunks|
    ensures Pumped(rid, status, headers, chunks, i) + [CompletePart(PieceAt(rid, status, chunks, i))]
         == Pumped(rid, status, headers, chunks, i + 1)
  {
    if i + 1 < |chunks| {
      assert chunks[..i + 1] == chunks[..i] + [chunks[i]];
      OpenPartsSnoc(rid, status, chunks[..i], chunks[i]);
    }
  }

  lemma NoPieces(rid: Bytes, status: nat, headers: seq<Header>)
    ensures ReplyParts(rid, status, headers, Front([]), Last([]))
         == [Opening(rid, status, headers), CompletePart(Part(rid, status, [], [], true, []))]
  {
  }

  lemma PumpedGrows(rid: Bytes, status: nat, headers: seq<Header>, chunks: seq<Bytes>, i: nat)
    requires i <= |chunks| && chunks != []
    ensures Pumped(rid, status, headers, chunks, i) <= Pumped(rid, status, headers, chunks, |chunks|)
    ensures |Pumped(rid, status, headers, chunks, i)| == 1 + i
    decreases |chunks| - i
  {
    if i < |chunks| {
      PumpedStep(rid, status, headers, chunks, i);
      PumpedGrows(rid, status, headers, chunks, i + 1);
    }
  }

  lemma PumpedWhole(rid: Bytes, status: nat, headers: seq<Header>, body: Bytes)
    requires body != []
    ensures var chunks := Split(body, COMPLETE_CHUNK);
            && chunks != []
            && Pumped(rid, status, headers, chunks, |chunks|)
               == ReplyParts(rid, status, headers, Front(body), Last(body))
  {
  }

  method PumpCompletes(inbound: seq<ServerMsg>, pos: nat, rid: Bytes, status: nat, headers: seq<Header>, body: Bytes,
                       room: nat)
    returns (r: nat, out: seq<ClientMsg>)
    requires pos <= |inbound|
    ensures pos <= r <= |inbound|
    ensures out == Take(ReplyParts(rid, status, headers, Front(body), Last(body)), room)
    ensures |out| == |ReplyParts(rid, status, headers, Front(body), Last(body))| ==> r == AfterAcks(inbound, pos, |out|)
  {
    var ok;
    r, out, ok := SendPart(inbound, pos, [], Part(rid, status, headers, [], false, []), room);
    if !ok {
      return;
    }
    assert r == AfterAcks(inbound, pos, 1) by {
      assert AfterAcks(inbound, pos, 0) == pos;
    }
    if body == [] {
      NoPieces(rid, status, headers);
      r, out, ok := SendPart(inbound, r, out, Part(rid, status, [], [], true, []), room);
      return;
    }
    PumpedWhole(rid, status, headers, body);
    r, out := PumpChunks(inbound, pos, r, out, rid, status, headers, Split(body, COMPLETE_CHUNK), room);
  }

  /** One part per piece, each sent only after the Ack of the one before. */
  method PumpChunks(inbound: seq<ServerMsg>, pos: nat, from: nat, sent: seq<ClientMsg>, rid: Bytes, status: nat,
                    headers: seq<Header>, chunks: seq<Bytes>, room: nat)
    returns (r: nat, out: seq<ClientMsg>)
    requires pos <= |inbound| && chunks != [] && room > 0
    requires from == AfterAcks(inbound, pos, 1) && sent == [Opening(rid, status, headers)]
    ensures pos <= r <= |inbound|
    ensures out == Take(Pumped(rid, status, headers, chunks, |chunks|), room)
    ensures |out| == |Pumped(rid, status, headers, chunks, |chunks|)| ==> r == AfterAcks(inbound, pos, |out|)
  {
    r, out := from, sent;
    var n := |chunks|;
    var i := 0;
    while i < n
      invariant 0 <= i <= n
      invariant out == Pumped(rid, status, headers, chunks, i) && |out| <= room
      invariant pos <= r <= |inbound| && r == AfterAcks(inbound, pos, |out|)
    {
      var finished := i + 1 == n;
      PumpedStep(rid, status, headers, chunks, i);
      PumpedGrows(rid, status, headers, chunks, i);
      var ok;
      var part := Part(rid, if i == 0 then status else 0, [], chunks[i], finished, []);
      r, out, ok := SendPart(inbound, r, out, part, room);
      if !ok {
        PumpedGrows(rid, status, headers, chunks, n);
        return;
      }
      i := i + 1;
    }
  }

  // ---- The claim loop ----

  function WaitMs(pullWaitMs: nat): nat {
    Min(Max(pullWaitMs, 500), 120_000)
  }

  /** Whether the claim loop works on this message. */
  predicate Claimed(m: ServerMsg) {
    m.Assigned? && m.rid.Some? && m.rid.value != []
  }

  /** What the claim loop sends for the message at `pos`, and where it reads on. */
  function Work(inbound: seq<ServerMsg>, upstream: nat -> Reply, pos: nat): seq<ClientMsg>
    requires pos < |inbound|
  {
    if Claimed(inbound[pos]) then TaskMessages(inbound[pos].rid.value, upstream(pos)) else []
  }

  /** What is sent for each message of the inbound stream. */
  function WorkAt(inbound: seq<ServerMsg>, upstream: nat -> Reply): nat -> seq<ClientMsg> {
    (p: nat) => if p < |inbound| then Work(inbound, upstream, p) else []
  }

  function Next(inbound: seq<ServerMsg>, work: nat -> seq<ClientMsg>, pos: nat): (r: nat)
    requires pos < |inbound|
    ensures pos < r <= |inbound|
  {
    AfterAcks(inbound, pos + 1, |work(pos)|)
  }

  /** Everything sent from position `pos` of the inbound stream until the server closes it. */
  function Trace(inbound: seq<ServerMsg>, work: nat -> seq<ClientMsg>, wait: nat, pos: nat): (out: seq<ClientMsg>)
    requires pos <= |inbound|
    ensures out != [] && out[0].ClaimPull?
    decreases |inbound| - pos
  {
    if pos == |inbound| then [ClaimPull(wait)]
    else [ClaimPull(wait)] + (work(pos) + Trace(inbound, work, wait, Next(inbound, work, pos)))
  }

  /** Work on one assignment: the status update, and the reply's parts or its error. */
  method HandleTask(inbound: seq<ServerMsg>, pos: nat, rid: Bytes, reply: Reply, room: nat)
    returns (r: nat, work: seq<ClientMsg>)
    requires pos <= |inbound|
    ensures pos <= r <= |inbound|
    ensures work == Take(TaskMessages(rid, reply), room)
    ensures |work| == |TaskMessages(rid, reply)| ==> r == AfterAcks(inbound, pos, |work|)
  {
    var first := if room > 0 then [StatusUpdate(rid)] else [];
    r := DiscardUntilAck(inbound, pos);
    var parts;
    r, parts := Respond(inbound, r, rid, reply, if room > 0 then room - 1 else 0);
    work := first + parts;
    FirstTaken(inbound, pos, StatusUpdate(rid), ResponseParts(rid, reply), room, parts, r);
  }

  /** One message and its Ack in front of a response. */
  lemma FirstTaken(inbound: seq<ServerMsg>, pos: nat, m: ClientMsg, rest: seq<ClientMsg>, room: nat,
                   taken: seq<ClientMsg>, r: nat)
    requires pos <= |inbound| && taken == Take(rest, if room > 0 then room - 1 else 0)
    requires |taken| == |rest| ==> r == AfterAcks(inbound, AfterAck(inbound, pos), |taken|)
    ensures var all := (if room > 0 then [m] else []) + taken;
            all == Take([m] + rest, room) && (|all| == 1 + |rest| ==> r == AfterAcks(inbound, pos, |all|))
  {
    TakeFirst(m, rest, room);
    assert AfterAcks(inbound, pos, 1) == AfterAck(inbound, AfterAcks(inbound, pos, 0));
    AcksAdd(inbound, pos, 1, |taken|);
  }

  /** The reply's parts, or the one part that carries the error. */
  method Respond(inbound: seq<ServerMsg>, pos: nat, rid: Bytes, reply: Reply, room: nat)
    returns (r: nat, parts: seq<ClientMsg>)
    requires pos <= |inbound|
    ensures pos <= r <= |inbound|
    ensures parts == Take(ResponseParts(rid, reply), room)
    ensures |parts| == |ResponseParts(rid, reply)| ==> r == AfterAcks(inbound, pos, |parts|)
  {
    match reply {
      case Success(status, headers, body) =>
        r, parts := PumpCompletes(inbound, pos, rid, status, headers, body, room);
      case Failure(e) =>
        var ok;
        r, parts, ok := SendPart(inbound, pos, [], Part(rid, 502, [], [], true, e), room);
        assert AfterAcks(inbound, pos, 1) == AfterAck(inbound, AfterAcks(inbound, pos, 0));
    }
  }

  lemma TakeFirst(m: ClientMsg, rest: seq<ClientMsg>, room: nat)
    ensures Take([m] + rest, room) == if room > 0 then [m] + Take(rest, room - 1) else []
    ensures |Take([m] + rest, room)| == 1 + |rest| ==> room > 0 && |Take(rest, room - 1)| == |rest|
  {
  }

  lemma TakeBoth(a: seq<ClientMsg>, b: seq<ClientMsg>, room: nat)
    ensures Take(a + b, room) == Take(a, room) + Take(b, room - |Take(a, room)|)
  {
    if |a| <= room {
      assert Take(a, room) == a;
    } else {
      assert (a + b)[..room] == a[..room];
      assert Take(b, 0) == [];
    }
  }

  lemma {:induction false} AcksAdd(inbound: seq<ServerMsg>, pos: nat, a: nat, b: nat)
    requires pos <= |inbound|
    ensures AfterAcks(inbound, AfterAcks(inbound, pos, a), b) == AfterAcks(inbound, pos, a + b)
  {
    if b == 0 {
    } else {
      AcksAdd(inbound, pos, a, b - 1);
    }
  }

  /** Everything that still goes out from position `pos` with `room` sends left. */
  function Outgoing(inbound: seq<ServerMsg>, work: nat -> seq<ClientMsg>, wait: nat, pos: nat, room: nat)
    : seq<ClientMsg>
    requires pos <= |inbound|
    decreases |inbound| - pos
  {
    if room == 0 then []
    else if pos == |inbound| then [ClaimPull(wait)]
    else
      var sent := Take(work(pos), room - 1);
      [ClaimPull(wait)] + (sent + Outgoing(inbound, work, wait, Next(inbound, work, pos), room - 1 - |sent|))
  }

  /** It is the beginning of what goes out over an open channel. */
  lemma {:induction false} OutgoingIsPrefix(inbound: seq<ServerMsg>, work: nat -> seq<ClientMsg>, wait: nat, pos: nat,
                                            room: nat)
    requires pos <= |inbound|
    ensures Outgoing(inbound, work, wait, pos, room) == Take(Trace(inbound, work, wait, pos), room)
    decreases |inbound| - pos
  {
    if pos < |inbound| && room > 0 {
      var next := Next(inbound, work, pos);
      var left: nat := room - 1 - |Take(work(pos), room - 1)|;
      OutgoingIsPrefix(inbound, work, wait, next, left);
      TakeTurn(ClaimPull(wait), work(pos), Trace(inbound, work, wait, next), room);
    }
  }

  lemma TakeTurn(claim: ClientMsg, work: seq<ClientMsg>, rest: seq<ClientMsg>, room: nat)
    requires room > 0
    ensures var w := Take(work, room - 1);
            Take([claim] + (work + rest), room) == [claim] + (w + Take(rest, room - 1 - |w|))
  {
    TakeFirst(claim, work + rest, room);
    TakeBoth(work, rest, room - 1);
  }

  lemma Regroup<T>(all: seq<T>, done: seq<T>, claim: T, work: seq<T>, rest: seq<T>)
    requires all == done + ([claim] + (work + rest))
    ensures all == done + [claim] + work + rest
  {
  }

  /** A turn leaves what is still to go out; once the room is used up, the position does not matter. */
  lemma TurnSent(inbound: seq<ServerMsg>, work: nat -> seq<ClientMsg>, wait: nat, pos: nat, room: nat,
                 all: seq<ClientMsg>, done: seq<ClientMsg>, next: nat, sent: seq<ClientMsg>, left: nat)
    requires pos < |inbound| && room > 0 && all == done + Outgoing(inbound, work, wait, pos, room)
    requires next <= |inbound| && sent == Take(work(pos), room - 1) && left == room - 1 - |sent|
    requires |sent| < room - 1 || |sent| == |work(pos)| ==> next == Next(inbound, work, pos)
    ensures all == done + [ClaimPull(wait)] + sent + Outgoing(inbound, work, wait, next, left)
  {
    Regroup(all, done, ClaimPull(wait), sent, Outgoing(inbound, work, wait, Next(inbound, work, pos), left));
  }

  ghost predicate Works(inbound: seq<ServerMsg>, upstream: nat -> Reply, work: nat -> seq<ClientMsg>) {
    forall p: nat {:trigger Work(inbound, upstream, p)} :: p < |inbound| ==> work(p) == Work(inbound, upstream, p)
  }

  /** One turn of the claim loop behind a claim that went out. */
  method Turn(inbound: seq<ServerMsg>, upstream: nat -> Reply, ghost work: nat -> seq<ClientMsg>, pos: nat, room: nat)
    returns (next: nat, sent: seq<ClientMsg>)
    requires pos < |inbound| && Works(inbound, upstream, work)
    ensures pos < next <= |inbound|
    ensures sent == Take(work(pos), room)
    ensures |sent| < room || |sent| == |work(pos)| ==> next == Next(inbound, work, pos)
  {
    assert work(pos) == Work(inbound, upstream, pos);
    var m := inbound[pos];
    if Claimed(m) {
      next, sent := HandleTask(inbound, pos + 1, m.rid.value, upstream(pos), room);
    } else {
      next, sent := pos + 1, [];
    }
  }

  method ClaimLoop(inbound: seq<ServerMsg>, upstream: nat -> Reply, ghost work: nat -> seq<ClientMsg>, wait: nat,
                   room: nat)
    returns (out: seq<ClientMsg>)
    requires Works(inbound, upstream, work)
    ensures out == Take(Trace(inbound, work, wait, 0), room)
  {
    out := [];
    var pos: nat, left: nat := 0, room;
    ghost var all := Outgoing(inbound, work, wait, 0, room);
    OutgoingIsPrefix(inbound, work, wait, 0, room);
    while true
      invariant pos <= |inbound|
      invariant all == out + Outgoing(inbound, work, wait, pos, left)
      decreases |inbound| - pos
    {
      if left == 0 {
        return;
      }
      ghost var done := out;
      out := out + [ClaimPull(wait)];
      if pos == |inbound| {
        return;
      }
      var next, sent := Turn(inbound, upstream, work, pos, left - 1);
      TurnSent(inbound, work, wait, pos, left, all, done, next, sent, left - 1 - |sent|);
      out := out + sent;
      pos, left := next, left - 1 - |sent|;
    }
  }

  method Run(inbound: seq<ServerMsg>, upstream: nat -> Reply, pullWaitMs: nat, room: nat) returns (out: seq<ClientMsg>)
    ensures out == Take(Trace(inbound, WorkAt(inbound, upstream), WaitMs(pullWaitMs), 0), room)
  {
    out := ClaimLoop(inbound, upstream, WorkAt(inbound, upstream), WaitMs(pullWaitMs), room);
  }

  // ---- What every run sends ----

  /** The messages up to the next claim. */
  function UntilClaim(msgs: seq<ClientMsg>): seq<ClientMsg> {
    if msgs == [] || msgs[0].ClaimPull? then [] else [msgs[0]] + UntilClaim(msgs[1..])
  }

  predicate NoClaim(msgs: seq<ClientMsg>) {
    forall i :: 0 <= i < |msgs| ==> !msgs[i].ClaimPull?
  }

  lemma {:induction false} UntilClaimStops(work: seq<ClientMsg>, rest: seq<ClientMsg>)
    requires NoClaim(work) && rest != [] && rest[0].ClaimPull?
    ensures UntilClaim(work + rest) == work
  {
    if work == [] {
      assert work + rest == rest;
    } else {
      assert (work + rest)[1..] == work[1..] + rest;
      UntilClaimStops(work[1..], rest);
    }
  }

  lemma WorkNoClaim(inbound: seq<ServerMsg>, upstream: nat -> Reply, pos: nat)
    ensures NoClaim(WorkAt(inbound, upstream)(pos))
  {
  }

  ghost predicate IsTask(inbound: seq<ServerMsg>, upstream: nat -> Reply, p: nat, turn: seq<ClientMsg>) {
    p < |inbound| && Claimed(inbound[p]) && turn == TaskMessages(inbound[p].rid.value, upstream(p))
  }

  lemma Within<T>(x: T, work: seq<T>, rest: seq<T>, i: nat)
    requires 0 < i < 1 + |work| + |rest|
    ensures var all := [x] + (work + rest);
            if i - 1 < |work| then all[i] == work[i - 1]
            else all[i] == rest[i - 1 - |work|] && all[i + 1..] == rest[i - |work|..]
  {
  }

  lemma TraceTurn(inbound: seq<ServerMsg>, work: nat -> seq<ClientMsg>, wait: nat, pos: nat)
    requires pos < |inbound| && NoClaim(work(pos))
    ensures var rest := Trace(inbound, work, wait, pos);
            rest[0] == ClaimPull(wait) && UntilClaim(rest[1..]) == work(pos)
  {
    var next := Trace(inbound, work, wait, Next(inbound, work, pos));
    assert Trace(inbound, work, wait, pos)[1..] == work(pos) + next;
    UntilClaimStops(work(pos), next);
  }

  lemma {:induction false} TurnIsOneAnswer(inbound: seq<ServerMsg>, work: nat -> seq<ClientMsg>, wait: nat, pos: nat,
                                           i: nat) returns (p: nat)
    requires pos <= |inbound| && forall q: nat :: NoClaim(work(q))
    requires var all := Trace(inbound, work, wait, pos); i < |all| && all[i].ClaimPull?
    ensures var turn := UntilClaim(Trace(inbound, work, wait, pos)[i + 1..]);
            turn == [] || (p < |inbound| && turn == work(p))
    decreases |inbound| - pos
  {
    p := pos;
    if pos < |inbound| {
      if i == 0 {
        TraceTurn(inbound, work, wait, pos);
      } else {
        var next := Next(inbound, work, pos);
        Within(ClaimPull(wait), work(pos), Trace(inbound, work, wait, next), i);
        assert forall j :: 0 <= j < |work(pos)| ==> !work(pos)[j].ClaimPull?;
        p := TurnIsOneAnswer(inbound, work, wait, next, i - 1 - |work(pos)|);
      }
    }
  }

  /** Between two claims of any run stands nothing, or exactly the messages of one assigned request. */
  lemma TurnIsOneTask(inbound: seq<ServerMsg>, upstream: nat -> Reply, wait: nat, i: nat)
    requires var all := Trace(inbound, WorkAt(inbound, upstream), wait, 0); i < |all| && all[i].ClaimPull?
    ensures var turn := UntilClaim(Trace(inbound, WorkAt(inbound, upstream), wait, 0)[i + 1..]);
            turn == [] || exists p: nat :: IsTask(inbound, upstream, p, turn)
  {
    var work := WorkAt(inbound, upstream);
    forall q: nat
      ensures NoClaim(work(q))
    {
      WorkNoClaim(inbound, upstream, q);
    }
    var p := TurnIsOneAnswer(inbound, work, wait, 0, i);
    var turn := UntilClaim(Trace(inbound, work, wait, 0)[i + 1..]);
    assert turn != [] ==> IsTask(inbound, upstream, p, turn);
  }

  // ---- Which message a claim reads ----

  /** Skipping goes right behind the first Ack at or after `pos`, and to the end when there is none. */
  lemma {:induction false} AfterAckIs(inbound: seq<ServerMsg>, pos: nat)
    requires pos <= |inbound|
    ensures var r := AfterAck(inbound, pos);
            if exists i :: pos <= i < |inbound| && inbound[i] == AckMsg
            then pos < r && inbound[r - 1] == AckMsg && forall i :: pos <= i < r - 1 ==> inbound[i] != AckMsg
            else r == |inbound|
    decreases |inbound| - pos
  {
    if pos < |inbound| && inbound[pos] != AckMsg {
      AfterAckIs(inbound, pos + 1);
    }
  }

  function Acks(ms: seq<ServerMsg>): nat {
    if ms == [] then 0 else Acks(ms[..|ms| - 1]) + if ms[|ms| - 1] == AckMsg then 1 else 0
  }

  lemma {:induction false} AcksOf(a: seq<ServerMsg>, b: seq<ServerMsg>)
    ensures Acks(a + b) == Acks(a) + Acks(b)
    ensures (forall i :: 0 <= i < |b| ==> b[i] != AckMsg) ==> Acks(b) == 0
    decreases |b|
  {
    if b == [] {
      assert a + b == a;
    } else {
      assert (a + b)[..|a + b| - 1] == a + b[..|b| - 1];
      AcksOf(a, b[..|b| - 1]);
    }
  }

  lemma OneMoreAck(inbound: seq<ServerMsg>, pos: nat, mid: nat)
    requires pos <= mid <= |inbound|
    ensures var r := AfterAck(inbound, mid);
            if Acks(inbound[pos..r]) == Acks(inbound[pos..mid]) then r == |inbound|
            else Acks(inbound[pos..r]) == Acks(inbound[pos..mid]) + 1 && inbound[r - 1] == AckMsg
  {
    var r := AfterAck(inbound, mid);
    assert inbound[pos..r] == inbound[pos..mid] + inbound[mid..r];
    AcksOf(inbound[pos..mid], inbound[mid..r]);
    AckOrEnd(inbound, mid);
  }

  lemma AckOrEnd(inbound: seq<ServerMsg>, pos: nat)
    requires pos <= |inbound|
    ensures var r := AfterAck(inbound, pos);
            if Acks(inbound[pos..r]) == 0 then r == |inbound|
            else Acks(inbound[pos..r]) == 1 && inbound[r - 1] == AckMsg
  {
    AfterAckIs(inbound, pos);
    var r := AfterAck(inbound, pos);
    if exists i :: pos <= i < |inbound| && inbound[i] == AckMsg {
      var skipped := inbound[pos..r - 1];
      AcksOf([], skipped);
      assert inbound[pos..r][..r - 1 - pos] == skipped;
    } else {
      AcksOf([], inbound[pos..r]);
    }
  }

  /** Waiting for `n` Acks ends right behind the last of them, or at the end when there are fewer. */
  lemma {:induction false} AfterAcksIs(inbound: seq<ServerMsg>, pos: nat, n: nat)
    requires pos <= |inbound|
    ensures var r := AfterAcks(inbound, pos, n);
            var seen := Acks(inbound[pos..r]);
            if seen == n then r == pos || inbound[r - 1] == AckMsg else seen < n && r == |inbound|
    ensures n == 0 ==> AfterAcks(inbound, pos, n) == pos
  {
    if n == 0 {
      assert inbound[pos..pos] == [];
    } else {
      AfterAcksIs(inbound, pos, n - 1);
      OneMoreAck(inbound, pos, AfterAcks(inbound, pos, n - 1));
    }
  }

  /** What each message asks for: an assignment with a non-empty id is worked on, anything else is skipped. */
  ghost predicate Answers(inbound: seq<ServerMsg>, upstream: nat -> Reply, answer: nat -> seq<ClientMsg>) {
    forall p: nat :: p < |inbound| ==>
      answer(p) == match inbound[p]
                   case Assigned(Some(rid)) => if rid == [] then [] else TaskMessages(rid, upstream(p))
                   case _ => []
  }

  /** The position of the message that claim `k` reads: the first claim reads the first message, and the next one reads
      behind the Acks of the messages sent in between. */
  function ReadBy(inbound: seq<ServerMsg>, answer: nat -> seq<ClientMsg>, k: nat): (r: nat)
    ensures Min(k, |inbound|) <= r <= |inbound|
  {
    if k == 0 then 0
    else
      var p := ReadBy(inbound, answer, k - 1);
      if p == |inbound| then p else AfterAcks(inbound, p + 1, |answer(p)|)
  }

  /** The first `k` claims, each with its answer. */
  function Answered(inbound: seq<ServerMsg>, answer: nat -> seq<ClientMsg>, wait: nat, k: nat): seq<ClientMsg> {
    if k == 0 then []
    else
      var p := ReadBy(inbound, answer, k - 1);
      Answered(inbound, answer, wait, k - 1) + if p == |inbound| then [] else [ClaimPull(wait)] + answer(p)
  }

  lemma Joined<T>(all: seq<T>, done: seq<T>, rest: seq<T>, claim: seq<T>, answer: seq<T>, next: seq<T>)
    requires all == done + rest && rest == claim + (answer + next)
    ensures all == done + (claim + answer) + next
  {
  }

  lemma {:induction false} TraceByClaims(inbound: seq<ServerMsg>, answer: nat -> seq<ClientMsg>, wait: nat, k: nat)
    ensures Trace(inbound, answer, wait, 0)
         == Answered(inbound, answer, wait, k) + Trace(inbound, answer, wait, ReadBy(inbound, answer, k))
  {
    if k == 0 {
    } else {
      TraceByClaims(inbound, answer, wait, k - 1);
      var p, done := ReadBy(inbound, answer, k - 1), Answered(inbound, answer, wait, k - 1);
      if p == |inbound| {
        assert done + [] == done;
      } else {
        Joined(Trace(inbound, answer, wait, 0), done, Trace(inbound, answer, wait, p), [ClaimPull(wait)], answer(p),
               Trace(inbound, answer, wait, ReadBy(inbound, answer, k)));
      }
    }
  }

  /** Only the answers matter to what is sent. */
  lemma {:induction false} SameTrace(inbound: seq<ServerMsg>, a: nat -> seq<ClientMsg>, b: nat -> seq<ClientMsg>,
                                     wait: nat, pos: nat)
    requires pos <= |inbound| && forall p: nat :: p < |inbound| ==> a(p) == b(p)
    ensures Trace(inbound, a, wait, pos) == Trace(inbound, b, wait, pos)
    decreases |inbound| - pos
  {
    if pos < |inbound| {
      SameTrace(inbound, a, b, wait, Next(inbound, a, pos));
    }
  }

  lemma WorkAnswers(inbound: seq<ServerMsg>, upstream: nat -> Reply)
    ensures Answers(inbound, upstream, WorkAt(inbound, upstream))
  {
  }

  /** The whole conversation: every claim is answered by exactly what the message it reads asks for, and a last claim
      finds the stream closed. */
  lemma Conversation(inbound: seq<ServerMsg>, upstream: nat -> Reply, answer: nat -> seq<ClientMsg>, wait: nat)
    requires Answers(inbound, upstream, answer)
    ensures Trace(inbound, WorkAt(inbound, upstream), wait, 0)
         == Answered(inbound, answer, wait, |inbound|) + [ClaimPull(wait)]
  {
    WorkAnswers(inbound, upstream);
    SameTrace(inbound, WorkAt(inbound, upstream), answer, wait, 0);
    TraceByClaims(inbound, answer, wait, |inbound|);
  }

  /** Behind the claim that reads message `p`, and before the next claim, stands exactly the answer to message `p`. */
  lemma TurnAnswers(inbound: seq<ServerMsg>, upstream: nat -> Reply, answer: nat -> seq<ClientMsg>, wait: nat, k: nat)
    requires Answers(inbound, upstream, answer) && ReadBy(inbound, answer, k) < |inbound|
    ensures var p, at := ReadBy(inbound, answer, k), |Answered(inbound, answer, wait, k)|;
            var out := Trace(inbound, WorkAt(inbound, upstream), wait, 0);
            at < |out| && out[at] == ClaimPull(wait) && UntilClaim(out[at + 1..]) == answer(p)
  {
    var p, done := ReadBy(inbound, answer, k), Answered(inbound, answer, wait, k);
    WorkAnswers(inbound, upstream);
    SameTrace(inbound, WorkAt(inbound, upstream), answer, wait, 0);
    TraceByClaims(inbound, answer, wait, k);
    WorkNoClaim(inbound, upstream, p);
    assert answer(p) == WorkAt(inbound, upstream)(p);
    TraceTurn(inbound, answer, wait, p);
    Behind(done, Trace(inbound, answer, wait, p));
  }

  lemma Behind<T>(done: seq<T>, rest: seq<T>)
    requires rest != []
    ensures (done + rest)[|done|] == rest[0] && (done + rest)[|done| + 1..] == rest[1..]
  {
  }

  /** The wait asked for, kept within half a second and two minutes. */
  lemma WaitWithin(pullWaitMs: nat)
    ensures 500 <= WaitMs(pullWaitMs) <= 120_000
    ensures WaitMs(pullWaitMs) < pullWaitMs ==> WaitMs(pullWaitMs) == 120_000
    ensures WaitMs(pullWaitMs) > pullWaitMs ==> WaitMs(pullWaitMs) == 500
  {
  }

  // ---- The shape of one task ----

  predicate Carries(m: ClientMsg, rid: Bytes) {
    match m
    case ClaimPull(_) => false
    case StatusUpdate(r) => r == rid
    case CompletePart(p) => p.rid == rid && |p.chunk| <= 49152
  }

  predicate Finishes(m: ClientMsg) {
    m.CompletePart? && m.part.finished
  }

  function BodyOf(msgs: seq<ClientMsg>): Bytes {
    if msgs == [] then []
    else BodyOf(msgs[..|msgs| - 1]) + if msgs[|msgs| - 1].CompletePart? then msgs[|msgs| - 1].part.chunk else []
  }

  lemma {:induction false} OpenPartsShape(rid: Bytes, status: nat, chunks: seq<Bytes>)
    requires forall c :: c in chunks ==> |c| <= COMPLETE_CHUNK
    ensures var ms := OpenParts(rid, status, chunks);
            && |ms| == |chunks|
            && (forall m :: m in ms ==> Carries(m, rid) && !Finishes(m))
            && BodyOf(ms) == Flatten(chunks)
  {
    if chunks == [] {
    } else {
      var front := chunks[..|chunks| - 1];
      OpenPartsShape(rid, status, front);
      OpenPartsSnoc(rid, status, front, chunks[|chunks| - 1]);
      assert chunks == front + [chunks[|chunks| - 1]];
      FlattenSnoc(front, chunks[|chunks| - 1]);
      var ms := OpenParts(rid, status, chunks);
      assert ms[..|ms| - 1] == OpenParts(rid, status, front);
    }
  }

  lemma {:induction false} SplitCount(body: Bytes)
    ensures |Split(body, COMPLETE_CHUNK)| == (|body| + COMPLETE_CHUNK - 1) / COMPLETE_CHUNK
  {
    if body == [] {
    } else {
      SplitCount(body[Min(COMPLETE_CHUNK, |body|)..]);
    }
  }

  lemma {:induction false} BodyOfConcat(a: seq<ClientMsg>, b: seq<ClientMsg>)
    ensures BodyOf(a + b) == BodyOf(a) + BodyOf(b)
    decreases |b|
  {
    if b == [] {
      assert a + b == a;
    } else {
      var front := b[..|b| - 1];
      assert (a + b)[..|a + b| - 1] == a + front;
      BodyOfConcat(a, front);
    }
  }

  lemma FrontAndLast(body: Bytes)
    ensures Flatten(Front(body)) + Last(body) == body
    ensures forall c :: c in Front(body) ==> |c| <= COMPLETE_CHUNK
    ensures |Last(body)| <= COMPLETE_CHUNK
  {
    SplitWhole(body, COMPLETE_CHUNK);
    LastOff(Split(body, COMPLETE_CHUNK));
  }

  lemma LastOff(chunks: seq<Bytes>)
    ensures chunks != [] ==> Flatten(chunks[..|chunks| - 1]) + chunks[|chunks| - 1] == Flatten(chunks)
  {
    if chunks != [] {
      var front, last := chunks[..|chunks| - 1], chunks[|chunks| - 1];
      FlattenSnoc(front, last);
      assert front + [last] == chunks;
    }
  }

  lemma FrontCount(body: Bytes)
    ensures |Front(body)| + 1 == Max(1, (|body| + COMPLETE_CHUNK - 1) / COMPLETE_CHUNK)
  {
    SplitCount(body);
  }

  /** All messages carry the id, and exactly the last one finishes. */
  ghost predicate OneTask(ms: seq<ClientMsg>, rid: Bytes) {
    forall i :: 0 <= i < |ms| ==> Carries(ms[i], rid) && (Finishes(ms[i]) <==> i == |ms| - 1)
  }

  lemma ClosedBy(ms: seq<ClientMsg>, last: ClientMsg, rid: Bytes)
    requires forall m :: m in ms ==> Carries(m, rid) && !Finishes(m)
    requires Carries(last, rid) && Finishes(last)
    ensures OneTask(ms + [last], rid)
    ensures BodyOf(ms + [last]) == BodyOf(ms) + last.part.chunk
  {
    assert (ms + [last])[..|ms|] == ms;
  }

  lemma HeadShape(rid: Bytes, status: nat, headers: seq<Header>)
    ensures var head := [StatusUpdate(rid), Opening(rid, status, headers)];
            BodyOf(head) == [] && forall m :: m in head ==> Carries(m, rid) && !Finishes(m)
  {
    var head := [StatusUpdate(rid), Opening(rid, status, headers)];
    assert head[..1] == [StatusUpdate(rid)];
    assert head[..1][..0] == [];
    assert BodyOf(head[..1]) == [];
  }

  lemma ReplyShape(rid: Bytes, status: nat, headers: seq<Header>, front: seq<Bytes>, last: Bytes)
    requires forall c :: c in front ==> |c| <= COMPLETE_CHUNK
    requires |last| <= COMPLETE_CHUNK
    ensures var ms := [StatusUpdate(rid)] + ReplyParts(rid, status, headers, front, last);
            && OneTask(ms, rid)
            && BodyOf(ms) == Flatten(front) + last
            && |ms| == 3 + |front|
  {
    var head, mid := [StatusUpdate(rid), Opening(rid, status, headers)], OpenParts(rid, status, front);
    OpenPartsShape(rid, status, front);
    HeadShape(rid, status, headers);
    JoinedShape(head, mid, Closing(rid, status, front, last), rid);
    Regrouped(StatusUpdate(rid), Opening(rid, status, headers), mid, Closing(rid, status, front, last));
    assert [] + Flatten(front) == Flatten(front);
  }

  lemma JoinedShape(head: seq<ClientMsg>, mid: seq<ClientMsg>, last: ClientMsg, rid: Bytes)
    requires forall m :: m in head ==> Carries(m, rid) && !Finishes(m)
    requires forall m :: m in mid ==> Carries(m, rid) && !Finishes(m)
    requires Carries(last, rid) && Finishes(last)
    ensures OneTask(head + mid + [last], rid)
    ensures BodyOf(head + mid + [last]) == BodyOf(head) + BodyOf(mid) + last.part.chunk
  {
    BodyOfConcat(head, mid);
    ClosedBy(head + mid, last, rid);
  }

  /** The status and headers of message `i` of a successful task, whose parts begin at 1. */
  predicate Heads(m: ClientMsg, i: nat, reply: Reply)
    requires reply.Success?
  {
    && m.CompletePart? && m.part.error == []
    && m.part.status == (if i <= 2 then reply.status else 0)
    && m.part.headers == (if i == 1 then reply.headers else [])
  }

  /** Status and headers: the first part carries both and no data, the second the status again, the others neither. */
  lemma ReplyAt(rid: Bytes, status: nat, headers: seq<Header>, front: seq<Bytes>, last: Bytes, i: nat)
    requires i < |ReplyParts(rid, status, headers, front, last)|
    ensures var m := ReplyParts(rid, status, headers, front, last)[i];
            && m.CompletePart? && m.part.error == []
            && m.part.status == (if i <= 1 then status else 0)
            && m.part.headers == (if i == 0 then headers else [])
            && (i == 0 ==> m.part.chunk == [])
  {
  }

  lemma TaskHeads(rid: Bytes, reply: Reply)
    requires reply.Success?
    ensures var ms := TaskMessages(rid, reply); forall i :: 1 <= i < |ms| ==> Heads(ms[i], i, reply)
  {
    var ms := TaskMessages(rid, reply);
    forall i | 1 <= i < |ms|
      ensures Heads(ms[i], i, reply)
    {
      ReplyAt(rid, reply.status, reply.headers, Front(reply.body), Last(reply.body), i - 1);
    }
  }

  /** Every message of a task carries the request's id, only the last one finishes it, no part is over 48 KiB, and
      the parts carry the whole body: a successful reply takes one part, then one per 48 KiB begun (at least one).  A
      failure is a single part with status 502. */
  lemma TaskShape(rid: Bytes, reply: Reply)
    ensures var ms := TaskMessages(rid, reply);
            && OneTask(ms, rid)
            && ms[0] == StatusUpdate(rid)
            && (reply.Failure? ==> ms[1..] == [CompletePart(Part(rid, 502, [], [], true, reply.error))])
            && (reply.Success? ==>
                  && BodyOf(ms) == reply.body
                  && |ms| - 1 == 1 + Max(1, (|reply.body| + 49151) / 49152)
                  && forall i :: 1 <= i < |ms| ==> Heads(ms[i], i, reply))
  {
    match reply {
      case Failure(_) =>
      case Success(status, headers, body) =>
        FrontAndLast(body);
        FrontCount(body);
        ReplyShape(rid, status, headers, Front(body), Last(body));
        TaskHeads(rid, reply);
    }
  }
}
