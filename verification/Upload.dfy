/** Artifact upload: the three producers of a chunk stream (local-stack/client/src/ops.rs and upload.rs) and the
    server that receives it (server-stack/server/src/deploy_service.rs).  SHA-256 is the parameter `sha`; what
    the reader returns and when the cancel flag is seen set is a sequence of events. */
module Upload {
  import opened Prelude
  import Ascii
  import Hex

  datatype Chunk = Chunk(data: Bytes, version: Bytes, isLast: bool, sha256Hex: Bytes, projectId: Bytes,
                         manifest: Bytes, kind: Bytes)

  datatype Meta = Meta(version: Bytes, project: Bytes, manifest: Bytes, kind: Bytes)

  // ---- What a chunk stream looks like ----

  function MakeChunk(m: Meta, hex: Bytes, data: Bytes, first: bool, last: bool): Chunk {
    Chunk(data,
          if first then m.version else [],
          last,
          if last then hex else [],
          if first then m.project else [],
          if last then m.manifest else [],
          if last then m.kind else [])
  }

  /** A stream that has not ended: version and project on the first chunk, no digest anywhere. */
  function Unfinished(m: Meta, parts: seq<Bytes>): (out: seq<Chunk>)
    ensures |out| == |parts|
  {
    if parts == [] then []
    else Unfinished(m, parts[..|parts| - 1]) + [MakeChunk(m, [], parts[|parts| - 1], |parts| == 1, false)]
  }

  /** The same with a last chunk that carries digest, manifest and kind. */
  function Ended(m: Meta, hex: Bytes, parts: seq<Bytes>, last: Bytes): seq<Chunk> {
    Unfinished(m, parts) + [MakeChunk(m, hex, last, parts == [], true)]
  }

  /** A complete stream; an empty body still sends one empty chunk. */
  function Complete(m: Meta, hex: Bytes, parts: seq<Bytes>): seq<Chunk> {
    if parts == [] then Ended(m, hex, [], []) else Ended(m, hex, parts[..|parts| - 1], parts[|parts| - 1])
  }

  function DigestHex(sha: Bytes -> Bytes, body: Bytes): Bytes {
    Hex.Encode(sha(body))
  }

  lemma UnfinishedSnoc(m: Meta, parts: seq<Bytes>, data: Bytes)
    ensures Unfinished(m, parts + [data]) == Unfinished(m, parts) + [MakeChunk(m, [], data, parts == [], false)]
  {
    assert (parts + [data])[..|parts|] == parts;
  }

  lemma CompleteSnoc(m: Meta, hex: Bytes, parts: seq<Bytes>, data: Bytes)
    ensures Complete(m, hex, parts + [data]) == Ended(m, hex, parts, data)
  {
    assert (parts + [data])[..|parts|] == parts;
  }

  lemma {:induction false} UnfinishedAt(m: Meta, parts: seq<Bytes>, i: nat)
    requires i < |parts|
    ensures Unfinished(m, parts)[i] == MakeChunk(m, [], parts[i], i == 0, false)
    ensures Unfinished(m, parts)[..i] == Unfinished(m, parts[..i])
  {
    if i < |parts| - 1 {
      var front := parts[..|parts| - 1];
      UnfinishedAt(m, front, i);
      assert front[..i] == parts[..i];
    }
  }

  /** Which chunk of a complete stream carries what. */
  lemma CompleteAt(m: Meta, hex: Bytes, parts: seq<Bytes>, i: nat)
    requires i < |Complete(m, hex, parts)|
    ensures var c, last := Complete(m, hex, parts)[i], i == |Complete(m, hex, parts)| - 1;
            && (parts != [] ==> |Complete(m, hex, parts)| == |parts| && c.data == parts[i])
            && (parts == [] ==> c.data == [])
            && c.version == (if i == 0 then m.version else [])
            && c.projectId == (if i == 0 then m.project else [])
            && c.isLast == last
            && c.sha256Hex == (if last then hex else [])
            && c.manifest == (if last then m.manifest else [])
            && c.kind == (if last then m.kind else [])
  {
    if i < |parts| - 1 {
      UnfinishedAt(m, parts[..|parts| - 1], i);
    }
  }

  // ---- Producer 1: a body in memory ----

  method BuildChunks(body: Bytes, m: Meta, hex: Bytes, chunkSize: nat) returns (out: seq<Chunk>)
    requires chunkSize > 0
    ensures out == Complete(m, hex, Split(body, chunkSize))
  {
    if body == [] {
      return [Chunk([], m.version, true, hex, m.project, m.manifest, m.kind)];
    }
    out := [];
    var offset := 0;
    var first := true;
    ghost var done: seq<Bytes> := [];
    ghost var left := Split(body, chunkSize);
    ghost var all := left;
    assert body[0..] == body;
    while offset < |body|
      invariant 0 <= offset <= |body|
      invariant first <==> done == []
      invariant all == done + left && left == Split(body[offset..], chunkSize)
      invariant out == if offset < |body| then Unfinished(m, done) else Complete(m, hex, done)
    {
      var end := Min(offset + chunkSize, |body|);
      var data := body[offset..end];
      var isLast := end >= |body|;
      out := out + [Chunk(data,
                          if first then m.version else [],
                          isLast,
                          if isLast then hex else [],
                          if first then m.project else [],
                          if isLast then m.manifest else [],
                          if isLast then m.kind else [])];
      SplitStep(body, offset, end, chunkSize);
      UnfinishedSnoc(m, done, data);
      CompleteSnoc(m, hex, done, data);
      MoveOver(done, data, Split(body[end..], chunkSize));
      done := done + [data];
      left := Split(body[end..], chunkSize);
      first := false;
      offset := end;
    }
    assert body[offset..] == [];
    assert done + left == done;
  }

  // ---- Producers 2 and 3: a reader ----

  /** One turn of a producer's loop: the cancel flag is seen set, the read fails, or it returns some bytes
      (none at end of file). */
  datatype Event = Cancelled | Failed | Got(data: Bytes)

  predicate More(e: Event) {
    e.Got? && e.data != []
  }

  /** The reads that returned data before the first cancel, error or end of file. */
  function Delivered(events: seq<Event>): (parts: seq<Bytes>)
    ensures forall p :: p in parts ==> p != []
    ensures |parts| <= |events|
  {
    if events == [] || !More(events[0]) then []
    else [events[0].data] + Delivered(events[1..])
  }

  /** The event that ended the reading, if any. */
  function Ending(events: seq<Event>): Option<Event> {
    if |Delivered(events)| < |events| then Some(events[|Delivered(events)|]) else None
  }

  lemma {:induction false} DeliveredPrefix(events: seq<Event>, i: nat)
    requires i < |events| && |Delivered(events)| >= i
    ensures More(events[i]) <==> |Delivered(events)| > i
    ensures More(events[i]) ==> Delivered(events)[i] == events[i].data
  {
    if i == 0 {
    } else {
      DeliveredPrefix(events[1..], i - 1);
    }
  }

  predicate ReachedAt(parts: seq<Bytes>, k: nat, expected: nat) {
    k <= |parts| && |Flatten(parts[..k])| == expected
  }

  /** How many of the parts, from `k` on, it takes to reach exactly the declared length. */
  function Reach(parts: seq<Bytes>, k: nat, expected: nat): (r: Option<nat>)
    requires k <= |parts|
    ensures r.Some? ==> k <= r.value && ReachedAt(parts, r.value, expected)
    ensures forall i :: k <= i && ReachedAt(parts, i, expected) ==> r.Some? && r.value <= i
    decreases |parts| - k
  {
    if ReachedAt(parts, k, expected) then Some(k)
    else if k == |parts| then None
    else Reach(parts, k + 1, expected)
  }

  /** What a known-length stream has sent: it is complete exactly when some prefix of the reads has the declared
      length, and then it holds that prefix and its digest; otherwise it holds every read and no digest. */
  function KnownStream(sha: Bytes -> Bytes, m: Meta, expected: nat, parts: seq<Bytes>): seq<Chunk> {
    var k := Reach(parts, 0, expected);
    if k.Some? then Complete(m, DigestHex(sha, Flatten(parts[..k.value])), parts[..k.value])
    else Unfinished(m, parts)
  }

  /** What an unknown-length stream has sent: complete exactly when the reading ended at end of file; otherwise
      the last read is held back. */
  function UnknownStream(sha: Bytes -> Bytes, m: Meta, events: seq<Event>): seq<Chunk> {
    var parts := Delivered(events);
    if Ending(events) == Some(Got([])) then Complete(m, DigestHex(sha, Flatten(parts)), parts)
    else Unfinished(m, if parts == [] then [] else parts[..|parts| - 1])
  }

  lemma PrefixTwice(parts: seq<Bytes>, i: nat)
    requires i < |parts|
    ensures parts[..i + 1] == parts[..i] + [parts[i]]
  {
  }

  method StreamKnown(sha: Bytes -> Bytes, m: Meta, expected: nat, events: seq<Event>) returns (out: seq<Chunk>)
    ensures out == KnownStream(sha, m, expected, Delivered(events))
  {
    ghost var parts := Delivered(events);
    assert parts[..0] == [];
    if expected == 0 {
      return [Chunk([], m.version, true, Hex.Encode(sha([])), m.project, m.manifest, m.kind)];
    }
    var hashed: Bytes := [];
    var readTotal := 0;
    var first := true;
    out := [];
    var i := 0;
    ghost var got: seq<Bytes> := [];
    while i < |events|
      invariant 0 <= i <= |events| && i <= |parts| && got == parts[..i]
      invariant hashed == Flatten(got) && readTotal == |hashed| && readTotal != expected
      invariant first <==> got == []
      invariant out == Unfinished(m, got)
      invariant Reach(parts, i, expected) == Reach(parts, 0, expected)
    {
      DeliveredPrefix(events, i);
      match events[i] {
        case Cancelled => break;
        case Failed => break;
        case Got(data) =>
          if data == [] {
            break;
          }
          PrefixTwice(parts, i);
          FlattenSnoc(got, data);
          UnfinishedSnoc(m, got, data);
          hashed := hashed + data;
          readTotal := readTotal + |data|;
          var isLast := readTotal == expected;
          var hex := if isLast then Hex.Encode(sha(hashed)) else [];
          CompleteSnoc(m, hex, got, data);
          out := out + [Chunk(data,
                              if first then m.version else [],
                              isLast,
                              hex,
                              if first then m.project else [],
                              if isLast then m.manifest else [],
                              if isLast then m.kind else [])];
          first := false;
          got := got + [data];
          if isLast {
            assert Reach(parts, i + 1, expected) == Some(i + 1);
            return;
          }
      }
      i := i + 1;
    }
    assert got == parts;
    assert Reach(parts, |parts|, expected) == None;
  }

  /** The stream when the last part is held back until the next read has returned. */
  lemma UnknownHolding(sha: Bytes -> Bytes, m: Meta, events: seq<Event>, sent: seq<Bytes>, held: Bytes)
    requires Delivered(events) == sent + [held]
    ensures UnknownStream(sha, m, events)
            == if Ending(events) == Some(Got([]))
               then Unfinished(m, sent)
                    + [MakeChunk(m, DigestHex(sha, Flatten(sent + [held])), held, sent == [], true)]
               else Unfinished(m, sent)
  {
    assert (sent + [held])[..|sent|] == sent;
  }

  lemma UnknownEmpty(sha: Bytes -> Bytes, m: Meta, events: seq<Event>)
    requires Delivered(events) == []
    ensures UnknownStream(sha, m, events)
            == if Ending(events) == Some(Got([])) then [MakeChunk(m, DigestHex(sha, []), [], true, true)] else []
  {
  }

  method StreamUnknown(sha: Bytes -> Bytes, m: Meta, events: seq<Event>) returns (out: seq<Chunk>)
    ensures out == UnknownStream(sha, m, events)
  {
    ghost var parts := Delivered(events);
    var hashed: Bytes := [];
    var first := true;
    var prev: Option<Bytes> := None;
    out := [];
    var i := 0;
    ghost var sent: seq<Bytes> := [];
    ghost var got: seq<Bytes> := [];
    while i < |events|
      invariant 0 <= i <= |events| && i <= |parts| && got == parts[..i]
      invariant hashed == Flatten(got)
      invariant first <==> sent == []
      invariant prev.None? ==> got == [] && sent == []
      invariant prev.Some? ==> got == sent + [prev.value]
      invariant out == Unfinished(m, sent)
    {
      DeliveredPrefix(events, i);
      if events[i].Cancelled? || events[i].Failed? || events[i].data == [] {
        break;
      }
      var data := events[i].data;
      PrefixTwice(parts, i);
      FlattenSnoc(got, data);
      hashed := hashed + data;
      if prev.Some? {
        UnfinishedSnoc(m, sent, prev.value);
        out := out + [Chunk(prev.value,
                            if first then m.version else [],
                            false, [],
                            if first then m.project else [],
                            [], [])];
        first := false;
        sent := got;
      }
      prev := Some(data);
      got := got + [data];
      i := i + 1;
    }
    assert got == parts;
    if prev.Some? {
      UnknownHolding(sha, m, events, sent, prev.value);
    } else {
      UnknownEmpty(sha, m, events);
    }
    if i == |events| || events[i] != Got([]) {
      // no end of file: the flag was set, the read failed, or the next read has not returned yet
      return;
    }
    var hex := Hex.Encode(sha(hashed));
    if prev.Some? {
      out := out + [Chunk(prev.value,
                          if first then m.version else [],
                          true, hex,
                          if first then m.project else [],
                          m.manifest, m.kind)];
    } else {
      out := out + [Chunk([], m.version, true, hex, m.project, m.manifest, m.kind)];
    }
  }

  // ---- The receiver ----

  /** What the receiving server checks against: whether the request's metadata is authenticated, as far as the server
      asks for that, the version and project it names, the size limit and the validators. */
  datatype Server = Server(authenticated: bool, metaVersion: Option<Bytes>, metaProject: Option<Bytes>, maxBytes: nat,
                           validVersion: Bytes -> bool, validProject: Bytes -> bool, normalize: Bytes -> Bytes)

  datatype Received = Received(version: Option<Bytes>, project: Bytes, written: Bytes, sha256Hex: Option<Bytes>,
                               manifest: Option<Bytes>)

  datatype Artifact = Artifact(version: Bytes, project: Bytes, body: Bytes, manifest: Option<Bytes>)

  datatype Refusal =
    | Unauthenticated | NoVersion | VersionMismatch | BadVersion | BadProject | ProjectMismatch | TooLarge
    | DigestMissing | NotFinished | DigestNotHex | DigestLength | DigestMismatch

  const START := Received(None, [], [], None, None)

  /** The checks on the chunk that opens the stream. */
  function OpenStream(s: Server, c: Chunk): Option<Refusal> {
    if c.version == [] then Some(NoVersion)
    else if s.metaVersion.Some? && c.version != s.metaVersion.value then Some(VersionMismatch)
    else if !s.validVersion(c.version) then Some(BadVersion)
    else if !s.validProject(c.projectId) then Some(BadProject)
    else
      var key := s.normalize(c.projectId);
      if s.metaProject.Some? then if s.normalize(s.metaProject.value) != key then Some(ProjectMismatch) else None
      else if key != Ascii.DEFAULT then Some(ProjectMismatch)
      else None
  }

  function Store(s: Server, st: Received, c: Chunk): Result<Received, Refusal> {
    if |st.written| + |c.data| > s.maxBytes then Err(TooLarge)
    else
      var st' := st.(written := st.written + c.data);
      if !c.isLast then Ok(st')
      else if c.sha256Hex == [] then Err(DigestMissing)
      else Ok(st'.(sha256Hex := Some(c.sha256Hex),
                   manifest := if c.manifest != [] then Some(c.manifest) else st.manifest))
  }

  function Step(s: Server, st: Received, c: Chunk): Result<Received, Refusal> {
    if st.version.None? then
      var bad := OpenStream(s, c);
      if bad.Some? then Err(bad.value)
      else Store(s, st.(version := Some(c.version), project := s.normalize(c.projectId)), c)
    else if c.version != [] && c.version != st.version.value then Err(VersionMismatch)
    else Store(s, st, c)
  }

  function Absorb(s: Server, chunks: seq<Chunk>): Result<Received, Refusal> {
    if chunks == [] then Ok(START)
    else
      var before := Absorb(s, chunks[..|chunks| - 1]);
      if before.Err? then before else Step(s, before.value, chunks[|chunks| - 1])
  }

  function Finish(sha: Bytes -> Bytes, st: Received): Result<Artifact, Refusal> {
    if st.version.None? then Err(NoVersion)
    else if st.sha256Hex.None? then Err(NotFinished)
    else
      var want := Hex.Decode(Ascii.Trim(st.sha256Hex.value));
      if want.None? then Err(DigestNotHex)
      else if |want.value| != 32 then Err(DigestLength)
      else if sha(st.written) != want.value then Err(DigestMismatch)
      else Ok(Artifact(st.version.value, st.project, st.written, st.manifest))
  }

  function Receive(sha: Bytes -> Bytes, s: Server, chunks: seq<Chunk>): Result<Artifact, Refusal> {
    if !s.authenticated then Err(Unauthenticated)
    else
      var st := Absorb(s, chunks);
      if st.Err? then Err(st.error) else Finish(sha, st.value)
  }

  lemma {:induction false} RefusalStays(s: Server, chunks: seq<Chunk>, i: nat)
    requires i <= |chunks| && Absorb(s, chunks[..i]).Err?
    ensures Absorb(s, chunks) == Absorb(s, chunks[..i])
  {
    if i == |chunks| {
      assert chunks[..i] == chunks;
    } else {
      var front := chunks[..|chunks| - 1];
      assert front[..i] == chunks[..i];
      RefusalStays(s, front, i);
    }
  }

  /** The server's receive loop. */
  method ReceiveUpload(sha: Bytes -> Bytes, s: Server, chunks: seq<Chunk>) returns (r: Result<Artifact, Refusal>)
    ensures r == Receive(sha, s, chunks)
  {
    if !s.authenticated {
      return Err(Unauthenticated);
    }
    var st := START;
    var i := 0;
    assert chunks[..0] == [];
    while i < |chunks|
      invariant 0 <= i <= |chunks|
      invariant Absorb(s, chunks[..i]) == Ok(st)
    {
      assert chunks[..i + 1][..i] == chunks[..i];
      var next := Step(s, st, chunks[i]);
      if next.Err? {
        RefusalStays(s, chunks, i + 1);
        return Err(next.error);
      }
      st := next.value;
      i := i + 1;
    }
    assert chunks[..i] == chunks;
    r := Finish(sha, st);
  }

  // ---- What an accepted stream was ----

  /** All data of a stream, and the digest of its last chunk that is marked as last. */
  function DataOf(chunks: seq<Chunk>): Bytes {
    if chunks == [] then [] else DataOf(chunks[..|chunks| - 1]) + chunks[|chunks| - 1].data
  }

  function DigestOf(chunks: seq<Chunk>): Option<Bytes> {
    if chunks == [] then None
    else if chunks[|chunks| - 1].isLast then Some(chunks[|chunks| - 1].sha256Hex)
    else DigestOf(chunks[..|chunks| - 1])
  }

  /** What the server demands of the version and the project a stream opens with: both valid, the version the one the
      request names, if it names one, and the project the one it names, or "default", up to normalisation. */
  predicate LabelsFit(s: Server, version: Bytes, project: Bytes) {
    && version != [] && s.validVersion(version)
    && (s.metaVersion.Some? ==> version == s.metaVersion.value)
    && s.validProject(project)
    && (if s.metaProject.Some? then s.normalize(project) == s.normalize(s.metaProject.value)
        else s.normalize(project) == [100, 101, 102, 97, 117, 108, 116])
  }

  lemma OpenStreamIff(s: Server, c: Chunk)
    ensures OpenStream(s, c).None? <==> LabelsFit(s, c.version, c.projectId)
    ensures OpenStream(s, c) == Some(NoVersion) <==> c.version == []
    ensures OpenStream(s, c) == Some(VersionMismatch)
            <==> c.version != [] && s.metaVersion.Some? && c.version != s.metaVersion.value
  {
  }

  /** Every later chunk carries no version or that of the first. */
  predicate OneVersion(chunks: seq<Chunk>) {
    |chunks| <= 1 ||
    var last := chunks[|chunks| - 1];
    OneVersion(chunks[..|chunks| - 1]) && (last.version == [] || last.version == chunks[0].version)
  }

  /** Every chunk marked as last carries a digest. */
  predicate Marked(chunks: seq<Chunk>) {
    chunks == [] ||
    var last := chunks[|chunks| - 1];
    Marked(chunks[..|chunks| - 1]) && (last.isLast ==> last.sha256Hex != [])
  }

  /** The last manifest that came with a chunk marked as last. */
  function ManifestOf(chunks: seq<Chunk>): Option<Bytes> {
    if chunks == [] then None
    else
      var last := chunks[|chunks| - 1];
      if last.isLast && last.manifest != [] then Some(last.manifest) else ManifestOf(chunks[..|chunks| - 1])
  }

  predicate Absorbable(s: Server, chunks: seq<Chunk>) {
    chunks == []
    || (LabelsFit(s, chunks[0].version, chunks[0].projectId) && OneVersion(chunks) && Marked(chunks)
        && |DataOf(chunks)| <= s.maxBytes)
  }

  lemma {:induction false} AbsorbIff(s: Server, chunks: seq<Chunk>)
    ensures Absorb(s, chunks).Ok? <==> Absorbable(s, chunks)
    ensures Absorb(s, chunks).Ok? ==>
              Absorb(s, chunks).value
              == if chunks == [] then START
                 else Received(Some(chunks[0].version), s.normalize(chunks[0].projectId), DataOf(chunks),
                               DigestOf(chunks), ManifestOf(chunks))
  {
    if chunks == [] {
    } else {
      var front, last := chunks[..|chunks| - 1], chunks[|chunks| - 1];
      AbsorbIff(s, front);
      assert DataOf(chunks) == DataOf(front) + last.data;
      if front == [] {
        OpenStreamIff(s, last);
        assert chunks[0] == last;
        assert DataOf(chunks) == last.data;
        assert Marked(chunks) <==> (last.isLast ==> last.sha256Hex != []);
      } else {
        assert front[0] == chunks[0];
      }
    }
  }

  /** Whatever a client sends, the server accepts it exactly when the request is authenticated, the labels fit, no later
      chunk contradicts the version, the data are within the limit, a chunk is marked as last, every such chunk carries
      a digest and the last of these is that of the data.  It then stores exactly the data, under the first chunk's
      version and normalised project, with the last manifest. */
  lemma AcceptedIff(sha: Bytes -> Bytes, s: Server, chunks: seq<Chunk>)
    ensures var r, data, digest := Receive(sha, s, chunks), DataOf(chunks), DigestOf(chunks);
            && (r.Ok? <==> s.authenticated && chunks != [] && Absorbable(s, chunks) && digest.Some?
                           && |sha(data)| == 32 && Hex.Decode(Ascii.Trim(digest.value)) == Some(sha(data)))
            && (r.Ok? ==> r.value == Artifact(chunks[0].version, s.normalize(chunks[0].projectId), data,
                                              ManifestOf(chunks)))
  {
    AbsorbIff(s, chunks);
  }

  /** Whatever a client sends, an accepted upload is exactly the data sent, within the size limit, under labels that fit
      the request, and its digest is the one the stream announced. */
  lemma ReceivedIsSent(sha: Bytes -> Bytes, s: Server, chunks: seq<Chunk>)
    requires Receive(sha, s, chunks).Ok?
    ensures var a := Receive(sha, s, chunks).value;
            && s.authenticated && chunks != [] && OneVersion(chunks)
            && a.body == DataOf(chunks) && |a.body| <= s.maxBytes
            && a.version == chunks[0].version && a.project == s.normalize(chunks[0].projectId)
            && LabelsFit(s, chunks[0].version, chunks[0].projectId)
            && DigestOf(chunks).Some? && Hex.Decode(Ascii.Trim(DigestOf(chunks).value)) == Some(sha(a.body))
  {
    AcceptedIff(sha, s, chunks);
  }

  // ---- Producers against the receiver ----

  /** What the server demands of the upload's labels, and of the request. */
  predicate Opens(s: Server, m: Meta) {
    LabelsFit(s, m.version, m.project)
  }

  predicate Welcome(s: Server, m: Meta) {
    s.authenticated && Opens(s, m)
  }

  /** The server's state after some parts of a stream that goes on. */
  function Holding(s: Server, m: Meta, parts: seq<Bytes>): Received {
    if parts == [] then START
    else Received(Some(m.version), s.normalize(m.project), Flatten(parts), None, None)
  }

  /** One more part on top of what is held. */
  lemma HoldMore(s: Server, m: Meta, front: seq<Bytes>, last: Bytes)
    requires front != [] ==> Opens(s, m) && |Flatten(front)| <= s.maxBytes
    ensures var r := Step(s, Holding(s, m, front), MakeChunk(m, [], last, front == [], false));
            if Opens(s, m) && |Flatten(front) + last| <= s.maxBytes
            then r == Ok(Received(Some(m.version), s.normalize(m.project), Flatten(front) + last, None, None))
            else r.Err?
  {
    OpenStreamIff(s, MakeChunk(m, [], last, front == [], false));
  }

  lemma AbsorbSnoc(s: Server, m: Meta, parts: seq<Bytes>)
    requires parts != []
    ensures var front := parts[..|parts| - 1];
            var before := Absorb(s, Unfinished(m, front));
            Absorb(s, Unfinished(m, parts))
            == if before.Err? then before
               else Step(s, before.value, MakeChunk(m, [], parts[|parts| - 1], front == [], false))
  {
    var all := Unfinished(m, parts);
    assert all[..|all| - 1] == Unfinished(m, parts[..|parts| - 1]);
  }

  lemma {:induction false} AbsorbUnfinished(s: Server, m: Meta, parts: seq<Bytes>)
    ensures var r := Absorb(s, Unfinished(m, parts));
            if parts == [] || (Opens(s, m) && |Flatten(parts)| <= s.maxBytes)
            then r == Ok(Holding(s, m, parts)) else r.Err?
  {
    if parts == [] {
    } else {
      var front, last := parts[..|parts| - 1], parts[|parts| - 1];
      AbsorbUnfinished(s, m, front);
      AbsorbSnoc(s, m, parts);
      assert parts == front + [last];
      FlattenSnoc(front, last);
      if front == [] || (Opens(s, m) && |Flatten(front)| <= s.maxBytes) {
        HoldMore(s, m, front, last);
      }
    }
  }

  lemma AbsorbEnded(s: Server, m: Meta, hex: Bytes, parts: seq<Bytes>, last: Bytes)
    requires hex != []
    ensures var r := Absorb(s, Ended(m, hex, parts, last));
            if Opens(s, m) && |Flatten(parts) + last| <= s.maxBytes
            then r == Ok(Received(Some(m.version), s.normalize(m.project), Flatten(parts) + last, Some(hex),
                                  if m.manifest != [] then Some(m.manifest) else None))
            else r.Err?
  {
    AbsorbUnfinished(s, m, parts);
    var all := Ended(m, hex, parts, last);
    assert all[..|all| - 1] == Unfinished(m, parts);
  }

  /** The server accepts a complete stream exactly when it welcomes the labels and the body fits; and then it
      holds the body, however it was cut. */
  lemma CompleteReceived(sha: Bytes -> Bytes, s: Server, m: Meta, parts: seq<Bytes>)
    requires |sha(Flatten(parts))| == 32
    ensures var body := Flatten(parts);
            var r := Receive(sha, s, Complete(m, DigestHex(sha, body), parts));
            if Welcome(s, m) && |body| <= s.maxBytes
            then r == Ok(Artifact(m.version, s.normalize(m.project), body,
                                  if m.manifest != [] then Some(m.manifest) else None))
            else r.Err?
  {
    var body := Flatten(parts);
    var hex := DigestHex(sha, body);
    if parts == [] {
      AbsorbEnded(s, m, hex, [], []);
    } else {
      var front, last := parts[..|parts| - 1], parts[|parts| - 1];
      assert parts == front + [last];
      FlattenSnoc(front, last);
      AbsorbEnded(s, m, hex, front, last);
    }
    Hex.TrimEncode(sha(body));
    Hex.DecodeEncode(sha(body));
  }

  /** No server accepts a stream that stopped early. */
  lemma UnfinishedRefused(sha: Bytes -> Bytes, s: Server, m: Meta, parts: seq<Bytes>)
    ensures Receive(sha, s, Unfinished(m, parts)).Err?
  {
    AbsorbUnfinished(s, m, parts);
  }

  /** A complete stream that the cancel flag cut short is one that stopped early, so it is refused. */
  lemma CancelledRefused(sha: Bytes -> Bytes, s: Server, m: Meta, hex: Bytes, parts: seq<Bytes>, k: nat)
    requires k < |Complete(m, hex, parts)|
    ensures Receive(sha, s, Complete(m, hex, parts)[..k]).Err?
  {
    var front := if parts == [] then [] else parts[..|parts| - 1];
    var all := Complete(m, hex, parts);
    assert all[..k] == Unfinished(m, front)[..k];
    if k < |front| {
      UnfinishedAt(m, front, k);
    } else {
      assert front[..k] == front;
    }
    UnfinishedRefused(sha, s, m, front[..k]);
  }

  lemma FlattenPrefix(parts: seq<Bytes>, k: nat)
    requires k <= |parts|
    ensures Flatten(parts[..k]) <= Flatten(parts)
    ensures k < |parts| && (forall p :: p in parts ==> p != []) ==> |Flatten(parts[..k])| < |Flatten(parts)|
  {
    assert parts == parts[..k] + parts[k..];
    FlattenAppend(parts[..k], parts[k..]);
    if k < |parts| {
      assert parts[k] in parts;
    }
  }

  /** Known length: whatever the reader, the flag and the declared length do, an upload is accepted exactly when
      some prefix of the reads has the declared length, and then it is that prefix. */
  lemma KnownReceived(sha: Bytes -> Bytes, s: Server, m: Meta, expected: nat, parts: seq<Bytes>)
    requires forall b: Bytes :: |sha(b)| == 32
    ensures var r := Receive(sha, s, KnownStream(sha, m, expected, parts));
            && (r.Ok? <==> (exists k: nat :: ReachedAt(parts, k, expected)) && Welcome(s, m) && expected <= s.maxBytes)
            && (r.Ok? ==> |r.value.body| == expected && r.value.body <= Flatten(parts))
  {
    var k := Reach(parts, 0, expected);
    if k.Some? {
      CompleteReceived(sha, s, m, parts[..k.value]);
      FlattenPrefix(parts, k.value);
    } else {
      UnfinishedRefused(sha, s, m, parts);
    }
  }

  /** Unknown length: only end of file completes a stream, and then all of the body arrived. */
  lemma UnknownReceived(sha: Bytes -> Bytes, s: Server, m: Meta, events: seq<Event>)
    requires forall b: Bytes :: |sha(b)| == 32
    ensures var body := Flatten(Delivered(events));
            var r := Receive(sha, s, UnknownStream(sha, m, events));
            && (r.Ok? <==> Ending(events) == Some(Got([])) && Welcome(s, m) && |body| <= s.maxBytes)
            && (r.Ok? ==> r.value.body == body)
  {
    var parts := Delivered(events);
    if Ending(events) == Some(Got([])) {
      CompleteReceived(sha, s, m, parts);
    } else {
      UnfinishedRefused(sha, s, m, if parts == [] then [] else parts[..|parts| - 1]);
    }
  }

  /** Reads that deliver a body of the declared length complete the known-length stream, and nothing shorter. */
  lemma KnownWhole(sha: Bytes -> Bytes, m: Meta, events: seq<Event>)
    ensures var parts := Delivered(events);
            KnownStream(sha, m, |Flatten(parts)|, parts) == Complete(m, DigestHex(sha, Flatten(parts)), parts)
  {
    var parts := Delivered(events);
    assert parts[..|parts|] == parts;
    assert ReachedAt(parts, |parts|, |Flatten(parts)|);
    FlattenPrefix(parts, Reach(parts, 0, |Flatten(parts)|).value);
  }

  /** The three producers mean the same to every server: for one body, any chunk size and any fragmentation of
      the reads up to end of file, all three streams are answered alike. */
  lemma ProducersAgree(sha: Bytes -> Bytes, s: Server, m: Meta, size: nat, events: seq<Event>, body: Bytes)
    requires forall b: Bytes :: |sha(b)| == 32
    requires size > 0 && body == Flatten(Delivered(events)) && Ending(events) == Some(Got([]))
    ensures var a := Receive(sha, s, Complete(m, DigestHex(sha, body), Split(body, size)));
            var b := Receive(sha, s, KnownStream(sha, m, |body|, Delivered(events)));
            var c := Receive(sha, s, UnknownStream(sha, m, events));
            a.Ok? == b.Ok? == c.Ok? && (a.Ok? ==> a == b == c && a.value.body == body)
  {
    SplitWhole(body, size);
    CompleteReceived(sha, s, m, Split(body, size));
    CompleteReceived(sha, s, m, Delivered(events));
    KnownWhole(sha, m, events);
  }
}
