/** Incremental handshakes: a parser over a growing buffer, and the relay loop that feeds it.

    A parser answers for the bytes received so far.  What a relay needs of it is that a verdict, once
    reached, is repeated on every longer buffer (`Final`) and that the payload offset lies inside the
    buffer (`InBounds`).  Everything below follows from these two facts for every parser alike. */
module Framing {
  import opened Prelude

  datatype Verdict<+T> = NeedMore(hint: nat) | Ready(target: T, offset: nat) | Invalid

  ghost predicate Final<T(!new)>(p: Bytes -> Verdict<T>) {
    forall b: Bytes, ext: Bytes :: !p(b).NeedMore? ==> p(b + ext) == p(b)
  }

  ghost predicate InBounds<T(!new)>(p: Bytes -> Verdict<T>) {
    forall b: Bytes :: p(b).Ready? ==> p(b).offset <= |b|
  }

  /** A ready verdict depends only on the bytes in front of its offset. */
  ghost predicate Tight<T(!new)>(p: Bytes -> Verdict<T>) {
    forall b: Bytes :: p(b).Ready? ==> p(b).offset <= |b| && p(b[..p(b).offset]) == p(b)
  }

  /** No extension of the buffer is ever decided. */
  ghost predicate Stuck<T(!new)>(p: Bytes -> Verdict<T>, b: Bytes) {
    forall ext: Bytes :: p(b + ext).NeedMore?
  }

  /** How a relay's handshake phase ended: the verdict, the buffer it was reached on, and the data
      messages not yet read. */
  datatype Outcome<+T> = Outcome(verdict: Verdict<T>, buffer: Bytes, unread: seq<Bytes>)
  {
    /** The bytes the relay forwards to the target: what follows the header in the buffer, then every
        later data message. */
    function Forwarded(): Bytes {
      (if verdict.Ready? && verdict.offset <= |buffer| then buffer[verdict.offset..] else []) + Flatten(unread)
    }
  }

  predicate Admitted(limit: Option<nat>, d: Bytes) {
    limit.None? || |d| <= limit.value
  }

  /** The relay loop as a function of the data messages still to come. */
  function Drive<T>(p: Bytes -> Verdict<T>, limit: Option<nat>, buf: Bytes, chunks: seq<Bytes>): Outcome<T>
    decreases |chunks|
  {
    if chunks == [] then Outcome(NeedMore(0), buf, [])
    else if !Admitted(limit, chunks[0]) then Outcome(Invalid, buf, chunks[1..])
    else
      var buf' := buf + chunks[0];
      if p(buf').NeedMore? then Drive(p, limit, buf', chunks[1..])
      else Outcome(p(buf'), buf', chunks[1..])
  }

  /** The relay's read loop: append each data message to the buffer and ask the parser again. */
  method Handshake<T>(p: Bytes -> Verdict<T>, limit: Option<nat>, chunks: seq<Bytes>) returns (r: Outcome<T>)
    ensures r == Drive(p, limit, [], chunks)
  {
    var buf: Bytes := [];
    var i := 0;
    while i < |chunks|
      invariant 0 <= i <= |chunks|
      invariant Drive(p, limit, buf, chunks[i..]) == Drive(p, limit, [], chunks)
    {
      var d := chunks[i];
      assert chunks[i..][0] == d && chunks[i..][1..] == chunks[i + 1..];
      if !Admitted(limit, d) {
        return Outcome(Invalid, buf, chunks[i + 1..]);
      }
      buf := buf + d;
      var v := p(buf);
      match v {
        case NeedMore(_) =>
        case Ready(_, _) => return Outcome(v, buf, chunks[i + 1..]);
        case Invalid => return Outcome(v, buf, chunks[i + 1..]);
      }
      i := i + 1;
    }
    r := Outcome(NeedMore(0), buf, []);
  }

  /** However a stream is cut into messages, the relay reaches the verdict the parser gives on the
      whole stream, and loses no byte on the way. */
  lemma {:induction false} CutIndependence<T(!new)>(p: Bytes -> Verdict<T>, limit: Option<nat>, buf: Bytes,
                                                    chunks: seq<Bytes>)
    requires Final(p)
    requires p(buf).NeedMore?
    requires forall d :: d in chunks ==> Admitted(limit, d)
    ensures var r := Drive(p, limit, buf, chunks);
            var whole := buf + Flatten(chunks);
            && r.buffer + Flatten(r.unread) == whole
            && (r.verdict.NeedMore? <==> p(whole).NeedMore?)
            && (!r.verdict.NeedMore? ==> r.verdict == p(whole))
            && (r.verdict.NeedMore? ==> r.unread == [])
    decreases |chunks|
  {
    var whole := buf + Flatten(chunks);
    if chunks == [] {
      assert whole == buf;
    } else {
      var buf' := buf + chunks[0];
      assert whole == buf' + Flatten(chunks[1..]);
      if p(buf').NeedMore? {
        CutIndependence(p, limit, buf', chunks[1..]);
      }
    }
  }

  lemma {:induction false} DrivenInBounds<T(!new)>(p: Bytes -> Verdict<T>, limit: Option<nat>, buf: Bytes,
                                                   chunks: seq<Bytes>)
    requires InBounds(p)
    ensures var r := Drive(p, limit, buf, chunks);
            r.verdict.Ready? ==> r.verdict.offset <= |r.buffer|
    decreases |chunks|
  {
    if chunks != [] && Admitted(limit, chunks[0]) && p(buf + chunks[0]).NeedMore? {
      DrivenInBounds(p, limit, buf + chunks[0], chunks[1..]);
    }
  }

  /** The relay's outcome as a function of the whole stream: the parser's verdict on it, and the bytes behind
      the verdict's offset. */
  lemma StreamOutcome<T(!new)>(p: Bytes -> Verdict<T>, limit: Option<nat>, chunks: seq<Bytes>, whole: Bytes)
    requires Final(p) && InBounds(p) && p([]).NeedMore?
    requires forall d :: d in chunks ==> Admitted(limit, d)
    requires Flatten(chunks) == whole
    ensures var r := Drive(p, limit, [], chunks);
            && (r.verdict.NeedMore? <==> p(whole).NeedMore?)
            && (!r.verdict.NeedMore? ==> r.verdict == p(whole))
            && (r.verdict.Ready? ==> r.verdict.offset <= |whole| && r.Forwarded() == whole[r.verdict.offset..])
  {
    var r := Drive(p, limit, [], chunks);
    CutIndependence(p, limit, [], chunks);
    assert [] + Flatten(chunks) == whole;
    if r.verdict.Ready? {
      DrivenInBounds(p, limit, [], chunks);
      SuffixOfSplit(r.buffer, Flatten(r.unread), r.verdict.offset);
    }
  }

  lemma SuffixOfSplit(a: Bytes, b: Bytes, k: nat)
    requires k <= |a|
    ensures a[k..] + b == (a + b)[k..]
  {
  }

  /** Two cuts of one stream end in the same verdict and forward the same bytes. */
  lemma SameStreamSameOutcome<T(!new)>(p: Bytes -> Verdict<T>, limit: Option<nat>, chunks: seq<Bytes>,
                                       other: seq<Bytes>)
    requires Final(p) && InBounds(p) && p([]).NeedMore?
    requires forall d :: d in chunks ==> Admitted(limit, d)
    requires forall d :: d in other ==> Admitted(limit, d)
    requires Flatten(chunks) == Flatten(other)
    ensures var r, s := Drive(p, limit, [], chunks), Drive(p, limit, [], other);
            && (r.verdict.NeedMore? <==> s.verdict.NeedMore?)
            && (!r.verdict.NeedMore? ==> r.verdict == s.verdict)
            && (r.verdict.Ready? ==> r.Forwarded() == s.Forwarded())
  {
    StreamOutcome(p, limit, chunks, Flatten(chunks));
    StreamOutcome(p, limit, other, Flatten(chunks));
  }

  /** No strict prefix of a completely accepted header gets a verdict. */
  lemma NoEarlyVerdict<T(!new)>(p: Bytes -> Verdict<T>, header: Bytes, n: nat)
    requires Final(p) && InBounds(p)
    requires p(header).Ready? && p(header).offset == |header|
    requires n < |header|
    ensures p(header[..n]).NeedMore?
  {
    assert header == header[..n] + header[n..];
  }

  /** The messages read until `need` bytes have come are of an admitted size. */
  predicate ReadAdmitted(limit: Option<nat>, need: int, chunks: seq<Bytes>)
    decreases |chunks|
  {
    need <= 0 || chunks == []
    || ((limit.Some? ==> |chunks[0]| <= limit.value) && ReadAdmitted(limit, need - |chunks[0]|, chunks[1..]))
  }

  lemma DeliveredNow<T(!new)>(p: Bytes -> Verdict<T>, header: Bytes, target: T, payload: Bytes, buf: Bytes,
                              unread: seq<Bytes>)
    requires Final(p) && p(header) == Ready(target, |header|)
    requires buf + Flatten(unread) == header + payload && |header| <= |buf|
    ensures p(buf) == Ready(target, |header|)
    ensures Outcome(p(buf), buf, unread).Forwarded() == payload
  {
    var rest := buf[|header|..];
    assert header == (header + payload)[..|header|] == (buf + Flatten(unread))[..|header|] == buf[..|header|];
    assert buf == header + rest;
    assert payload == (header + payload)[|header|..] == rest + Flatten(unread) by {
      SuffixOfSplit(buf, Flatten(unread), |header|);
    }
  }

  /** A parser that accepts `header` completely gives that verdict and delivers exactly the bytes sent after it, however
      the stream is cut, if the messages it reads are admitted, and refuses the stream otherwise. */
  lemma {:induction false} DeliveryFrom<T(!new)>(p: Bytes -> Verdict<T>, limit: Option<nat>, header: Bytes, target: T,
                                                 payload: Bytes, buf: Bytes, chunks: seq<Bytes>)
    requires Final(p) && InBounds(p) && p(header) == Ready(target, |header|)
    requires |buf| < |header| && buf + Flatten(chunks) == header + payload
    ensures var r := Drive(p, limit, buf, chunks);
            if ReadAdmitted(limit, |header| - |buf|, chunks)
            then r.verdict == Ready(target, |header|) && |header| <= |r.buffer| && r.Forwarded() == payload
            else r.verdict == Invalid
    decreases |chunks|
  {
    if chunks == [] {
      assert false;
    } else if Admitted(limit, chunks[0]) {
      var buf' := buf + chunks[0];
      Associate(buf, chunks[0], Flatten(chunks[1..]));
      if |buf'| < |header| {
        assert buf' == header[..|buf'|] by {
          assert buf' == (buf' + Flatten(chunks[1..]))[..|buf'|] == (header + payload)[..|buf'|];
        }
        NoEarlyVerdict(p, header, |buf'|);
        assert |header| - |buf'| == |header| - |buf| - |chunks[0]|;
        DeliveryFrom(p, limit, header, target, payload, buf', chunks[1..]);
      } else {
        DeliveredNow(p, header, target, payload, buf', chunks[1..]);
        assert ReadAdmitted(limit, |header| - |buf| - |chunks[0]|, chunks[1..]);
        assert Drive(p, limit, buf, chunks) == Outcome(p(buf'), buf', chunks[1..]);
      }
    }
  }

  lemma Delivery<T(!new)>(p: Bytes -> Verdict<T>, limit: Option<nat>, header: Bytes, target: T, payload: Bytes,
                          chunks: seq<Bytes>)
    requires Final(p) && InBounds(p) && p([]).NeedMore?
    requires p(header) == Ready(target, |header|)
    requires Flatten(chunks) == header + payload
    ensures var r := Drive(p, limit, [], chunks);
            if ReadAdmitted(limit, |header|, chunks)
            then r.verdict == Ready(target, |header|) && |header| <= |r.buffer| && r.Forwarded() == payload
            else r.verdict == Invalid
  {
    assert [] + Flatten(chunks) == Flatten(chunks);
    DeliveryFrom(p, limit, header, target, payload, [], chunks);
  }

  /** Whatever the sizes of the messages, a relay gets ready only with the verdict on the whole stream. */
  lemma {:induction false} ReadyOnStream<T(!new)>(p: Bytes -> Verdict<T>, limit: Option<nat>, buf: Bytes,
                                                  chunks: seq<Bytes>)
    requires Final(p) && Drive(p, limit, buf, chunks).verdict.Ready?
    ensures p(buf + Flatten(chunks)) == Drive(p, limit, buf, chunks).verdict
    decreases |chunks|
  {
    var buf' := buf + chunks[0];
    Associate(buf, chunks[0], Flatten(chunks[1..]));
    if p(buf').NeedMore? {
      ReadyOnStream(p, limit, buf', chunks[1..]);
    }
  }

  predicate AllAdmitted(limit: Option<nat>, chunks: seq<Bytes>) {
    limit.Some? ==> forall i :: 0 <= i < |chunks| ==> |chunks[i]| <= limit.value
  }

  lemma {:induction false} RefusedStream<T(!new)>(p: Bytes -> Verdict<T>, limit: Option<nat>, buf: Bytes,
                                                  chunks: seq<Bytes>)
    requires Final(p) && p(buf).NeedMore? && p(buf + Flatten(chunks)) == Invalid
    ensures Drive(p, limit, buf, chunks).verdict == Invalid
    decreases |chunks|
  {
    assert chunks == [] ==> buf + Flatten(chunks) == buf;
    if chunks != [] {
      var buf' := buf + chunks[0];
      Associate(buf, chunks[0], Flatten(chunks[1..]));
      if p(buf').NeedMore? {
        RefusedStream(p, limit, buf', chunks[1..]);
      }
    }
  }

  lemma {:induction false} OpenStream<T(!new)>(p: Bytes -> Verdict<T>, limit: Option<nat>, buf: Bytes,
                                               chunks: seq<Bytes>)
    requires Final(p) && p(buf + Flatten(chunks)).NeedMore?
    ensures var v := Drive(p, limit, buf, chunks).verdict;
            if AllAdmitted(limit, chunks) then v.NeedMore? else v == Invalid
    decreases |chunks|
  {
    if chunks == [] {
    } else {
      var buf' := buf + chunks[0];
      Associate(buf, chunks[0], Flatten(chunks[1..]));
      OpenStream(p, limit, buf', chunks[1..]);
      AdmittedSplit(limit, chunks);
    }
  }

  lemma AdmittedSplit(limit: Option<nat>, chunks: seq<Bytes>)
    requires chunks != []
    ensures AllAdmitted(limit, chunks) <==> Admitted(limit, chunks[0]) && AllAdmitted(limit, chunks[1..])
  {
    var rest := chunks[1..];
    if Admitted(limit, chunks[0]) && AllAdmitted(limit, rest) {
      forall i | 0 <= i < |chunks|
        ensures Admitted(limit, chunks[i])
      {
        if i > 0 {
          assert Admitted(limit, rest[i - 1]);
        }
      }
    }
    if AllAdmitted(limit, chunks) {
      forall i | 0 <= i < |rest|
        ensures Admitted(limit, rest[i])
      {
        assert Admitted(limit, chunks[i + 1]);
      }
    }
  }

  /** What becomes of a stream with this verdict on the whole of it: that verdict, and the bytes behind its offset,
      unless a message that was read is too large. */
  ghost predicate Fate<T>(v: Verdict<T>, limit: Option<nat>, chunks: seq<Bytes>, r: Outcome<T>) {
    var whole := Flatten(chunks);
    if v.Ready? then
      if ReadAdmitted(limit, v.offset, chunks)
      then r.verdict == v && v.offset <= |r.buffer| && v.offset <= |whole| && r.Forwarded() == whole[v.offset..]
      else r.verdict == Invalid
    else if v.Invalid? then r.verdict == Invalid
    else if AllAdmitted(limit, chunks) then r.verdict.NeedMore?
    else r.verdict == Invalid
  }

  /** What becomes of every stream, whoever sent it. */
  lemma EveryStream<T(!new)>(p: Bytes -> Verdict<T>, limit: Option<nat>, chunks: seq<Bytes>)
    requires Final(p) && InBounds(p) && Tight(p) && p([]).NeedMore?
    ensures Fate(p(Flatten(chunks)), limit, chunks, Drive(p, limit, [], chunks))
  {
    var whole := Flatten(chunks);
    assert [] + whole == whole;
    match p(whole) {
      case Ready(t, k) =>
        assert whole == whole[..k] + whole[k..];
        Delivery(p, limit, whole[..k], t, whole[k..], chunks);
      case Invalid => RefusedStream(p, limit, [], chunks);
      case NeedMore(_) => OpenStream(p, limit, [], chunks);
    }
  }
}
