# PirateServer in Dafny

A model of the parts of PirateServer that pair a writer with a reader, or a stateful shortcut with the simple thing it
must agree with, and proofs that they agree. `dafny verify dfyconfig.toml` checks the whole project.

- **Wire framing** (`Framing`, `Vless`, `Trojan`, `Socks5`, `Vmess`, `Quic`, `Tunnel`, `Admission`). The client's first chunk for each
  mode, the server's parsers over a growing buffer, and the relay around them, from the Open message to the bytes written
  upstream. `Framing` proves once, for every parser whose verdicts are final, that the outcome does not depend on how the
  stream was cut; each protocol module then proves finality and its round trip, and `Tunnel` puts both ends together, raw
  mode included. `Admission` takes any client at all: what its stream must carry before the relay connects.
- **VMess replay guard** (`ReplayCache`, `VmessRelay`). A queue and an index with expiry and eviction, refining a function
  of the history of acceptances; and the relay that consults it before it opens a header.
- **Challenge-response server** (`HmacMessage`, `ChallengeServer`, `ChallengeHistory`, `ChallengeRuns`). The canonical HMAC
  input, the store and handlers request by request, whole sequences of requests, and all interleavings of their store
  accesses.
- **Artifact upload** (`Upload`). Three producers of a chunk stream and the server that receives it.
- **Task queue** (`Worker`, `TaskQueue`). The worker's conversation, and the queue entry that claims, lease expiry, status
  updates and completion parts from any number of workers build up.
- **Rules, routing, settings** (`Bypass`, `Glob`, `HostRules`, `Routing`). Rule lines compiled to a set, suffixes, networks
  and regular-expression text; routing decisions; the settings migration.
- **Bookmarks** (`Bookmarks`). The bookmark table with its SQL constraints.
- `Prelude`, `Ascii`, `Hex`, `Utf8` and `HostText` hold the shared vocabulary.

Text is a sequence of bytes. Library functions (SHA-224, SHA-256, MD5, AES-GCM, HMAC, UTF-8 validity, IP, CIDR, UUID and
base64 text, regular expressions) are function-valued parameters, and each lemma names the laws it uses: decryption undoes encryption, a digest
has its length, no IP text holds a star, and the like. Clock readings, random values, read results and database failures
are parameters.

## Findings

- A VLESS domain over 255 bytes is cut by the writer. The server connects to the first 255 bytes of the name if they are
  valid UTF-8 and never decides otherwise (`Vless.CutDomainVerdict`; `Vless.RequestRecovered` gives the exact condition for
  a full recovery). VMess has the same cut in its code, but its size limit refuses such a header first
  (`Vmess.BuiltHeaderFits`).
- Some input is never decided, whatever follows; `Tunnel.StuckIff` says exactly which, mode by mode. A Trojan buffer is stuck
  when its first line ends before byte 56 (`Trojan.StuckIff`). A VLESS request is stuck when its address type is unknown, or
  its domain can no longer be completed to valid UTF-8 (`Vless.StuckIff`). A SOCKS5 request is stuck when its address type
  is unknown (`Socks5.StuckIff`). A VMess buffer never is (`Vmess.NeverStuck`).
- A VMess header stays valid 120 seconds either side of its time stamp, and the replay guard remembers its nonce for 120
  seconds after the first acceptance. So one header can be accepted twice by the passing of time alone exactly when it
  first arrived before its own time stamp (`VmessRelay.TwiceExactlyWhenEarly`). In general it takes the TTL or 50 000 other
  nonces in between (`VmessRelay.AcceptedAgainIff`), and nonces of headers that do not open count too
  (`VmessRelay.GuardSeesNoncesOnly`).
- Two overlapping authentications can both redeem one session (`ChallengeRuns.OverlapRedeemsTwice`).
  `ChallengeRuns.AnsweredTwiceIff` says exactly when, over every interleaving. Requests that do not overlap cannot
  (`ChallengeHistory.OneSuccessEach`).
- The prune step of a lookup can hide a session that has not expired if the clock jumps far between two readings inside
  one request; `ChallengeServer.JumpLimitExact` gives the exact limit, and `ChallengeServer.LongJumpVisible` a run of two
  requests in which a valid attempt is then refused.
- A task claimed again after its lease ran out in mid-reply keeps the earlier worker's bytes in front of the new body:
  `TaskQueue.ClaimedAgain` says what is stored after every history of interrupted claims, and `TaskQueue.EarlierBytesKept`
  gives a history that mixes two replies. The earlier headers survive a reply without headers.
- A completed task still takes parts from its claimant and can turn into a failed one (`TaskQueue.CompletedCanFail`);
  `TaskQueue.DoneStaysIff` says exactly when an entry that is done stays as it is.
- Discarding an outlived task at the head of the queue never returns: the `if let` of
  server-stack/stack-tun-api/src/task_queue.rs:467 still holds the lock of `tasks` when line 477 takes it again. The
  model calls the queue blocked from then on (`TaskQueue.BlockedForever`).
- A glob that holds `^` or `$` always compiles to a regex with another language (`Glob.GlobMeaningKept`).
- `normalize_url` is not idempotent ("x /" becomes "x ", which becomes "x"), so an upsert, a pairing and a URL migration can
  each give one normalised URL two rows: `Bookmarks.UncleanUrlDuplicates` and `Bookmarks.MissedConflict`, with the exact
  condition for every operation in `Bookmarks.StepKeepsValidIff`. For the same reason a migration's identity test can look
  for the wrong URL and succeed although another identity holds the one it writes; `Bookmarks.MigrationConflict` says
  exactly when.
- A bookmark table that cannot be read is taken for an empty one and then saved, so an operation that touches one row wipes
  all others when the read fails and the save works (`Bookmarks.FailedLoadClears`, `Bookmarks.FailedReloadClears`);
  `Bookmarks.BystandersSurvive` says exactly when they survive.
- The settings migration can change decisions for boards other than the one it inspects; `Routing.MigrationOnOtherBoards`
  says exactly when.

Where comments and code disagree the model follows the code: the bookmark migration drops every row that uses the new URL,
also one with the same key (local-stack/desktop-client/src/bookmarks.rs:260-261 says otherwise), and no routing step looks
at `.ru` hosts (local-stack/client/src/routing_rules.rs:25 lists one).

## Model

| member | source | states |
|---|---|---|
| `Framing.Handshake` | server-stack/server/src/wire_relay.rs:134-184 | the relay's read loop computes `Drive`: the verdict, the buffer it was reached on and the messages not yet read |
| `Framing.CutIndependence` | server-stack/server/src/wire_relay.rs:134-184 | for a parser with final verdicts the loop ends, however the stream is cut, in the parser's verdict on the whole stream, and no byte is lost |
| `Framing.SameStreamSameOutcome` | server-stack/server/src/wire_relay.rs:320-415 | two cuts of one stream give the same verdict and forward the same bytes |
| `Framing.Delivery` | server-stack/server/src/wire_relay.rs:349-431 | bytes sent behind a completely accepted header are forwarded exactly, if the messages read for the header are of an admitted size; otherwise the stream is refused |
| `Framing.ReadyOnStream` | server-stack/server/src/wire_relay.rs:134-184 | whatever the sizes of the messages, a relay gets ready only with the verdict on the whole stream |
| `Framing.EveryStream` | server-stack/server/src/wire_relay.rs:134-184 | for a parser with final verdicts that does not look behind the header, what becomes of every stream: ready, refused or still waiting as the verdict on the whole stream says, or refused for the size of a message it had to read |
| `Framing.NoEarlyVerdict` | server-stack/server/src/wire_relay.rs:349-351 | no strict prefix of a completely accepted header is decided |
| `Vless.ReadAddress` | wire-protocol/src/vless.rs:43-65 | an address is read only from bytes that are there |
| `Vless.ParseRequest` | wire-protocol/src/vless.rs:68-108 | "need more" always asks for more than the buffer holds; a payload offset lies inside it |
| `Vless.PushAddress` | wire-protocol/src/vless.rs:118-133 | appends the address in its wire form, a domain cut after 255 bytes |
| `Vless.BuildRequest` | wire-protocol/src/vless.rs:111-136 | the written request is header and payload |
| `HostText.ShowV4Reads` | wire-protocol/src/vless.rs:18 | a printed IPv4 address splits at its dots into its four octets |
| `HostText.DecimalReads` | wire-protocol/src/vless.rs:18 | an octet is printed in decimal digits for its value, without a leading zero |
| `Vless.ParserFinal` | wire-protocol/src/vless.rs:68-108 | a ready or invalid verdict is repeated, with target and offset, on every longer buffer |
| `Vless.RequestRecovered` | wire-protocol/src/vless.rs:111-136 | the server recovers port, address and payload offset if and only if the domain fits in its length byte |
| `Vless.CutDomainVerdict` | wire-protocol/src/vless.rs:50-57 | of a longer domain the first 255 bytes are taken if they are valid UTF-8; otherwise the request is never decided |
| `Vless.StuckIff` | wire-protocol/src/vless.rs:43-108 | no extension of a buffer is ever decided if and only if it asks for an unknown address type, or for a domain whose announced name can no longer be valid UTF-8 |
| `Utf8.CompletableIff` | wire-protocol/src/vless.rs:55 | the beginning of a name has a valid completion of the announced length if and only if it is not broken and enough bytes are missing |
| `Utf8.ValidIff` | wire-protocol/src/vless.rs:55 | a text is valid UTF-8 if and only if it is the encoding of some Unicode scalar values |
| `Vless.PrefixUndecided` | wire-protocol/src/vless.rs:68-99 | every strict prefix of a written request needs more, also when the domain was cut |
| `Trojan.BuildAuthLine` | wire-protocol/src/trojan.rs:8-19 | the loop writes the lower-case hex digest and the line break |
| `Trojan.BuildAddress` | wire-protocol/src/trojan.rs:81-105 | IPv4, IPv6 or domain form; `Admission.BuiltIff` says when it fails |
| `Trojan.FindCrlf` | wire-protocol/src/trojan.rs:119-121 | the first line break, or proof that there is none |
| `Trojan.ParserFinal` | wire-protocol/src/trojan.rs:117-141 | verdicts are final and offsets inside the buffer |
| `Trojan.AddressRecovered` | wire-protocol/src/trojan.rs:36-79 | a written address is read back with its port and its length, whatever follows |
| `Trojan.HandshakeRecovered` | wire-protocol/src/trojan.rs:117-141 | auth line and address are recovered, and the payload offset is right behind them |
| `Trojan.AuthDecides` | wire-protocol/src/trojan.rs:119-128 | only buffers that start with the password's auth line are accepted; any other complete first line is refused |
| `Trojan.ShortLineNeverDecided` | wire-protocol/src/trojan.rs:122-124 | a first line shorter than 56 bytes is answered with the same hint for ever |
| `Trojan.StuckIff` | wire-protocol/src/trojan.rs:117-141 | no extension of a buffer is ever decided if and only if its first line is shorter than 56 bytes |
| `Socks5.ReadAddr` | wire-protocol/src/socks5.rs:19-59 | the end offset lies behind the start and inside the buffer |
| `Socks5.UserStep` | wire-protocol/src/socks5.rs:79-102 | the username step ends inside the buffer, is refused, or asks for more than the buffer holds |
| `Socks5.ServerParse` | wire-protocol/src/socks5.rs:62-123 | "need more" always asks for more than the buffer holds; the consumed offset lies inside it |
| `Socks5.BuildPipelineConnect` | wire-protocol/src/socks5.rs:126-149 | greeting, CONNECT and address; fails exactly on a domain over 255 bytes |
| `Socks5.ParserFinal` | wire-protocol/src/socks5.rs:62-123 | verdicts are final, with and without the username step |
| `Socks5.UnknownTypeNeverDecided` | wire-protocol/src/socks5.rs:19-59 | an unknown address type asks for more for ever, with and without the username step |
| `Socks5.StuckIff` | wire-protocol/src/socks5.rs:62-123 | no extension of a buffer is ever decided if and only if it asks for an unknown address type |
| `Socks5.ConnectRecovered` | wire-protocol/src/socks5.rs:103-123 | a server that asks for no credentials recovers host, port and offset |
| `Socks5.AuthServerRefuses` | wire-protocol/src/socks5.rs:79-82 | a server that asks for credentials refuses the pipelined greeting, whatever follows |
| `Socks5.CredentialsDecide` | wire-protocol/src/socks5.rs:79-123 | a client that sends greeting, credentials and request at once is connected if and only if the credentials are right, and is refused otherwise |
| `Vmess.BuildClientHeader` | wire-protocol/src/vmess.rs:22-61 | the written header is nonce, ciphertext length and ciphertext of the plain header |
| `Vmess.BuiltHeaderFits` | wire-protocol/src/vmess.rs:47-49 | a header is built exactly for domains of at most 243 bytes, so none is ever cut |
| `Vmess.OpenIgnoresTail` | wire-protocol/src/vmess.rs:79-116 | opening a buffer depends on the announced bytes only |
| `Vmess.ParserFinal` | wire-protocol/src/vmess.rs:70-116 | for a fixed clock verdicts are final |
| `Vmess.NeverStuck` | wire-protocol/src/vmess.rs:70-86 | every buffer has an extension that is decided |
| `Vmess.HeaderRecovered` | wire-protocol/src/vmess.rs:79-116 | port, address and time stamp are recovered if the clocks agree to 120 seconds; the header is refused otherwise |
| `Vmess.PrefixUndecided` | wire-protocol/src/vmess.rs:80-86 | every strict prefix of a header needs more |
| `Vmess.BuildChunk` | wire-protocol/src/vmess.rs:119-137 | a chunk is nonce, plaintext length and ciphertext; fails over 65535 bytes |
| `Vmess.DecodeChunk` | wire-protocol/src/vmess.rs:139-162 | the consumed total is at least 30 and inside the buffer |
| `Vmess.ChunkCut` | wire-protocol/src/vmess.rs:140-152 | no cut inside a chunk is decoded |
| `Vmess.StreamRecovered` | wire-protocol/src/vmess.rs:119-162 | a chunk stream cut anywhere decodes to exactly the complete payloads and leaves the rest |
| `Quic.Encode` | wire-protocol/src/quic_dataplane.rs:43-63 | the frame's bytes, or the error of the field that is too long |
| `Quic.ParserFinal` | wire-protocol/src/quic_dataplane.rs:82-119 | only "too short" can change when bytes arrive |
| `Quic.NeverStuck` | wire-protocol/src/quic_dataplane.rs:82-119 | every buffer has an extension that is not too short |
| `Quic.DecodeIffComplete` | wire-protocol/src/quic_dataplane.rs:66-108 | decoding succeeds if and only if the announced length is there and the version is 1 |
| `Quic.DecodeEncode` | wire-protocol/src/quic_dataplane.rs:43-119 | decoding undoes encoding with any trailing bytes |
| `Quic.EncodeDecode` | wire-protocol/src/quic_dataplane.rs:43-119 | re-encoding a decoded frame gives back the announced prefix |
| `Quic.PrefixTooShort` | wire-protocol/src/quic_dataplane.rs:82-108 | every strict prefix of a frame is too short |
| `Tunnel.FirstChunk` | wire-protocol/src/client.rs:23-91 | the first chunk is the mode's handshake bytes and the tail, or the error; `Admission.BuiltIff` says when which |
| `Tunnel.ParserFinal` | server-stack/server/src/wire_relay.rs:173-202 | each wire mode's decision on its buffer is final, the replay test included |
| `Tunnel.StuckIff` | server-stack/server/src/wire_relay.rs:173-202 | for each wire mode, the exact condition under which no further byte brings the relay to a decision |
| `Tunnel.Bridge` | server-stack/server/src/wire_relay.rs:943-1075 | the bridge writes what the handshake left over and every message up to the first that is too large |
| `Tunnel.RunRelay` | server-stack/server/src/deploy_service.rs:2543-2581 | a relay from its Open message on: raw mode takes the target from it, the others read their handshake; the bytes written upstream |
| `Tunnel.EndToEnd` | wire-protocol/src/client.rs:23-91 | whenever the chunk is built and settings, clocks and replay guard let it through, the relay connects to the client's host and port and writes exactly the tail and everything later, under every cut, up to a message too large for the bridge; only a message too large during the handshake ends it; raw mode included |
| `Tunnel.NeverConnected` | server-stack/server/src/wire_relay.rs:173-213 | otherwise the relay never connects, but for a VLESS domain that was cut: then to its first 255 bytes, if they are valid UTF-8 and the messages read are admitted |
| `Tunnel.NoPrefixDecided` | wire-protocol/src/client.rs:31-90 | no strict prefix of the client's handshake is decided |
| `Admission.BuiltIff` | wire-protocol/src/client.rs:23-91 | the first chunk is built if and only if the mode finds what it needs (a UUID that parses, a password) and the host is an IP literal or short enough (243 bytes for VMess, 255 for Trojan and SOCKS5), and which error comes otherwise |
| `Admission.RelayFate` | server-stack/server/src/wire_relay.rs:134-202 | whoever sends the messages, a relay ends as the verdict on the whole stream says, or refuses a message that is too large |
| `Admission.StartsIff` | server-stack/server/src/deploy_service.rs:2543-2581 | a relay starts if and only if its settings name a UUID that parses, a password or, in raw mode, a target, and refuses at once otherwise |
| `Admission.ConnectedIsAuthentic` | server-stack/server/src/wire_relay.rs:173-213 | whoever sends the messages and however they are cut, a relay connects only if the stream carries what its settings demand: the configured UUID, the auth line of the configured password, a header that opens under the configured key, or the configured username and password in that order |
| `Admission.ForeignRefused` | server-stack/server/src/wire_relay.rs:173-202 | a stream with complete credentials other than these is refused |
| `Admission.Socks5Credentials` | wire-protocol/src/socks5.rs:79-123 | at relay level, a client that sends greeting, credentials and request at once is connected to its host and port if and only if username and password are the configured ones, and is refused otherwise |
| `ReplayCache.VmessReplayCache.constructor` | wire-protocol/src/vmess.rs:173-180 | starts empty, with a TTL of at least 30 seconds |
| `ReplayCache.VmessReplayCache.Expire` | wire-protocol/src/vmess.rs:184-191 | the expiry loop brings queue and index to the window at the new clock reading |
| `ReplayCache.VmessReplayCache.CheckAndInsert` | wire-protocol/src/vmess.rs:182-204 | refuses a nonce exactly when it is among the last `max(max_entries, 1)` acceptances not older than the TTL; queue and index keep holding exactly those |
| `ReplayCache.WindowGrows` | wire-protocol/src/vmess.rs:196-202 | evicting the front when full is taking the last acceptances |
| `ReplayCache.Serve` | wire-protocol/src/vmess.rs:182-208 | over every run with a non-decreasing clock the cache answers as the history of acceptances does |
| `ReplayCache.NoEarlyReplay` | wire-protocol/src/vmess.rs:164 | a nonce is accepted again only after the TTL or at least that many other acceptances |
| `ReplayCache.RememberedIff` | wire-protocol/src/vmess.rs:182-204 | the window, by position: a nonce is remembered if and only if one of the last acceptances, not older than the TTL, is of it |
| `ReplayCache.RememberedSince` | wire-protocol/src/vmess.rs:182-204 | after its acceptance a nonce is remembered if and only if the TTL has not passed and fewer than the cap of other acceptances followed |
| `VmessRelay.Admit` | server-stack/server/src/wire_relay.rs:500-541 | a complete header is shown to the guard before it is opened; the guard records it also when it does not open |
| `VmessRelay.DecideExtends` | server-stack/server/src/wire_relay.rs:500-541 | with the guard's test in front, verdicts stay final and offsets inside the buffer |
| `VmessRelay.AcceptedAgainIff` | server-stack/server/src/wire_relay.rs:506-541 | over every sequence of headers, after one has passed another with its nonce is accepted if and only if it opens, and the TTL is over or 50 000 others have passed since |
| `VmessRelay.GuardSeesNoncesOnly` | server-stack/server/src/wire_relay.rs:507-516 | the guard's history depends on nonces and times only |
| `VmessRelay.TwiceIff` | wire-protocol/src/vmess.rs:97-101 | a client's header is accepted at two times if and only if both are within 120 seconds of its time stamp and more than 120 seconds apart |
| `VmessRelay.TwiceExactlyWhenEarly` | wire-protocol/src/vmess.rs:97-101 | such a second time exists if and only if the header first arrived before its time stamp |
| `HmacMessage.CanonicalMessage` | challenge-response-auth/shared/src/crypto.rs:30-56 | the canonical message, or the error of the field that is too long |
| `HmacMessage.ReadWritten` | challenge-response-auth/shared/src/crypto.rs:27-29 | a decoder inverts the encoding |
| `HmacMessage.MessageInjective` | challenge-response-auth/shared/src/crypto.rs:27-29 | two triples give one message if and only if they are equal |
| `HmacMessage.SignedVerifies` | challenge-response-auth/shared/src/crypto.rs:90-108 | the hex of the tag of the canonical message verifies, also padded with white space |
| `Hex.DecodeIff` | challenge-response-auth/shared/src/crypto.rs:97 | exactly the texts of an even number of hex digits, of either case, are decoded |
| `Hex.EncodeDecoded` | challenge-response-auth/shared/src/crypto.rs:97 | encoding what was decoded gives the text back in lower case |
| `ChallengeServer.ChallengeStore.Prune` | challenge-response-auth/server/src/state.rs:37-46 | keeps exactly the rows not older than the saturated maximal age |
| `ChallengeServer.ChallengeStore.RecordChallenge` | challenge-response-auth/server/src/state.rs:48-51 | prunes, then adds the row; every other row is then at most the maximal age old |
| `ChallengeServer.ChallengeStore.GetPending` | challenge-response-auth/server/src/state.rs:53-56 | prunes, then returns the row on record |
| `ChallengeServer.ChallengeStore.Remove` | challenge-response-auth/server/src/state.rs:58-60 | takes exactly that row out and returns it |
| `ChallengeServer.PostChallenge` | challenge-response-auth/server/src/main.rs:57-80 | issues a session stamped with the handler's clock |
| `ChallengeServer.PostAuthenticate` | challenge-response-auth/server/src/main.rs:82-146 | the store and the answer after an attempt, each refusal with its reason |
| `ChallengeServer.AcceptanceWindow` | challenge-response-auth/server/src/main.rs:98-139 | a found session is redeemed if and only if nonce, time stamp and tag are right and its age is at most TTL and skew |
| `ChallengeServer.RefusalReason` | challenge-response-auth/server/src/main.rs:98-139 | which answer an attempt gets: the first check it fails, each check spelled out |
| `ChallengeServer.AttemptAcceptedIff` | challenge-response-auth/server/src/main.rs:82-146 | an attempt succeeds if and only if its session is on record and the above holds |
| `ChallengeHistory.AcceptedIff` | challenge-response-auth/server/src/main.rs:57-146 | over every timely sequence of requests to a new server, pruning or not, an attempt is accepted if and only if it proves a session issued before, not issued again or redeemed since, and at most TTL and skew old |
| `ChallengeHistory.OneSuccessEach` | challenge-response-auth/server/src/main.rs:141 | between two accepted attempts on an id the id was issued again |
| `ChallengeServer.ServeKeepsWellIssued` | challenge-response-auth/server/src/main.rs:57-73 | every request keeps all sessions as issued |
| `ChallengeServer.SessionAfterAttempt` | challenge-response-auth/server/src/main.rs:94-142 | a session that pruning spared survives an attempt if and only if the attempt failed and the session had not expired; no other session changes |
| `ChallengeServer.MaxAgeNotBelowTtl` | challenge-response-auth/server/src/state.rs:41 | the maximal age is never below the TTL, saturated or negative |
| `ChallengeServer.PruningInvisible` | challenge-response-auth/server/src/state.rs:37-56 | over every sequence of requests a pruning store answers as a store that never forgets, but for "unknown" instead of "expired" |
| `ChallengeServer.JumpLimitExact` | challenge-response-auth/server/src/state.rs:38-45 | the clock jump that allows this is exactly maximal age minus TTL |
| `ChallengeServer.LongJumpVisible` | challenge-response-auth/server/src/state.rs:38-45 | for every longer jump, an issue and an attempt that the two stores answer differently, also when the attempt is valid |
| `ChallengeRuns.RunKeepsInv` | challenge-response-auth/server/src/state.rs:37-60 | in every interleaving removed ids are never on record |
| `ChallengeRuns.RemovedStaysDead` | challenge-response-auth/server/src/main.rs:94-142 | in every interleaving no lookup after a removal finds the session |
| `ChallengeRuns.DoubleRedeemOverlaps` | challenge-response-auth/server/src/main.rs:94-142 | two steps remove one session only if they belong to different handlers, and the lookup whose flight lands second came before the first removal |
| `ChallengeRuns.AnsweredTwiceIff` | challenge-response-auth/server/src/main.rs:94-142 | in every interleaving, after a removal a later step accepts or removes the session once more if and only if it ends a flight that began before the removal |
| `ChallengeRuns.OverlapRedeemsTwice` | challenge-response-auth/server/src/main.rs:94-142 | overlapping handlers can both be accepted for one session |
| `Upload.BuildChunks` | local-stack/client/src/ops.rs:283-346 | the in-memory producer sends the complete stream of its pieces |
| `Upload.StreamKnown` | local-stack/client/src/upload.rs:258-318 | the known-length producer completes exactly when some prefix of the reads has the declared length, with the digest of that prefix |
| `Upload.StreamUnknown` | local-stack/client/src/upload.rs:320-377 | the unknown-length producer completes exactly at end of file and otherwise holds the last read back |
| `Upload.CompleteAt` | local-stack/client/src/ops.rs:313-341 | version and project are on the first chunk only; digest, manifest, kind and the last mark on the last only |
| `Upload.ReceiveUpload` | server-stack/server/src/deploy_service.rs:1187-1345 | the authentication test and the server's loop with its early refusals compute `Receive` |
| `Upload.OpenStreamIff` | server-stack/server/src/deploy_service.rs:1218-1250 | a stream is opened if and only if version and project are valid, the version is the one in the metadata if there is one, and the project is the one in the metadata, or "default", up to normalisation |
| `Upload.AcceptedIff` | server-stack/server/src/deploy_service.rs:1187-1345 | for any chunks: accepted if and only if authenticated, the labels fit, no later chunk contradicts the version, the data fit, a chunk is marked as last, every such chunk has a digest and the last is that of the data; and what is stored then |
| `Upload.ReceivedIsSent` | server-stack/server/src/deploy_service.rs:1215-1343 | whatever a client sends, an accepted upload is exactly the data sent, within the limit, with the announced digest, under a version and a project that fit the request, and no later chunk contradicts the version |
| `Upload.CompleteReceived` | server-stack/server/src/deploy_service.rs:1191-1345 | a complete stream is accepted if and only if the request is authenticated, version and project are valid and those of the metadata, and the body fits, and then the body is stored, however it was cut |
| `Upload.UnfinishedRefused` | server-stack/server/src/deploy_service.rs:1326-1329 | no server accepts a stream that stopped early |
| `Upload.CancelledRefused` | local-stack/client/src/upload.rs:151-159 | a complete stream cut short by the cancel flag is refused |
| `Upload.KnownReceived` | local-stack/client/src/upload.rs:278-318 | whatever reader and flag do, an accepted upload has exactly the declared length and is what was read |
| `Upload.UnknownReceived` | local-stack/client/src/upload.rs:321-377 | an accepted upload of unknown length is the whole body up to end of file |
| `Upload.ProducersAgree` | local-stack/client/src/upload.rs:258-378 | for one body, every chunk size and every fragmentation, the three producers get the same answer from every server |
| `Worker.DiscardUntilAck` | local-stack/client/src/tunnel.rs:298-314 | reads up to and including the next Ack |
| `Worker.AfterAckIs` | local-stack/client/src/tunnel.rs:298-314 | the skip ends right behind the first Ack, or at the end when there is none |
| `Worker.AfterAcksIs` | local-stack/client/src/tunnel.rs:298-314 | waiting for several Acks ends right behind the last of them, or at the end when there are fewer |
| `Worker.PumpCompletes` | local-stack/client/src/tunnel.rs:231-296 | sends the reply's parts, each after the Ack of the one before, as far as the channel takes them |
| `Worker.Run` | local-stack/client/src/tunnel.rs:480-546 | the claim loop sends `Trace`, or its beginning when the channel closes after so many sends |
| `Worker.TurnIsOneTask` | local-stack/client/src/tunnel.rs:480-546 | between two claims stands nothing, or exactly the messages of one assigned request with an id |
| `Worker.Conversation` | local-stack/client/src/tunnel.rs:480-546 | the whole conversation: each claim, the answer to exactly the message it reads, and a last claim; an assignment with a non-empty id is worked on, every other message skipped, and the next claim reads behind the Acks of the answer |
| `Worker.TurnAnswers` | local-stack/client/src/tunnel.rs:495-540 | what stands between a claim and the next is the full answer to the message that claim reads, and nothing else |
| `Worker.WaitWithin` | local-stack/client/src/tunnel.rs:481 | the wait asked for is the configured one, kept within 500 and 120 000 milliseconds |
| `Worker.TaskShape` | local-stack/client/src/tunnel.rs:231-296 | all messages of a task carry its id, exactly the last finishes it, parts are at most 48 KiB, they carry the body, a reply takes `1 + max(1, ceil(len / 49152))` parts with status and headers in their places, and a failure one part with status 502 |
| `TaskQueue.TaskEntry.PruneAll` | server-stack/stack-tun-api/src/task_queue.rs:437-514 | an expired claim goes back to the queue with what it delivered; an outlived task at the head blocks the queue |
| `TaskQueue.PruneIs` | server-stack/stack-tun-api/src/task_queue.rs:437-514 | exactly when a lease is taken back and when the queue blocks, and that nothing else changes |
| `TaskQueue.TaskEntry.AttemptClaim` | server-stack/stack-tun-api/src/task_queue.rs:536-563 | a queued task is claimed with a lease, or expires; nothing else changes |
| `TaskQueue.TaskEntry.ApplyStatus` | server-stack/stack-tun-api/src/task_queue.rs:202-238 | a status update counts only from the worker that holds the claim |
| `TaskQueue.TaskEntry.ApplyComplete` | server-stack/stack-tun-api/src/task_queue.rs:241-307 | a part counts only from the claimant; its effect on the entry, and the refusals |
| `TaskQueue.ClaimTakenIff` | server-stack/stack-tun-api/src/task_queue.rs:536-563 | in every run, a claim is taken if and only if the entry is queued and not older than the TTL, and what it leaves |
| `TaskQueue.StatusGrantedIff` | server-stack/stack-tun-api/src/task_queue.rs:202-238 | in every run, a status update is granted if and only if it comes from the worker that holds the entry, within its lease |
| `TaskQueue.OthersOnlyPrune` | server-stack/stack-tun-api/src/task_queue.rs:202-307 | in every run, a status update or a part from any other worker is refused and changes nothing that pruning does not |
| `TaskQueue.HolderClaimedLast` | server-stack/stack-tun-api/src/task_queue.rs:437-563 | in every run, whoever holds the entry holds it by the last claim that was taken, with the lease of that claim |
| `TaskQueue.BodyConserved` | server-stack/stack-tun-api/src/task_queue.rs:241-307 | over every run of events the stored body is everything the claimants of the time delivered, in order |
| `TaskQueue.SuccessStored` | server-stack/stack-tun-api/src/task_queue.rs:241-307 | a reply delivered within its lease completes the entry with the reply's status and headers and appends its body |
| `TaskQueue.ClaimedAgain` | server-stack/stack-tun-api/src/task_queue.rs:482-563 | after every history of interrupted claims the stored body is what they delivered followed by the reply, so it is the reply's if and only if they delivered nothing; a reply without headers keeps the earlier ones |
| `TaskQueue.InterruptedClaim` | server-stack/stack-tun-api/src/task_queue.rs:482-503 | a history that leaves an entry queued again with a piece of a reply |
| `TaskQueue.EarlierBytesKept` | server-stack/stack-tun-api/src/task_queue.rs:482-563 | a run in which a second worker's reply is stored behind a piece of the first worker's, and under its headers |
| `TaskQueue.DoneUnchangedIff` | server-stack/stack-tun-api/src/task_queue.rs:241-307 | an event leaves an entry that is done as it is if and only if it is no news from the claimant and does not block the queue |
| `TaskQueue.DoneStaysIff` | server-stack/stack-tun-api/src/task_queue.rs:241-307 | the same over every run of events |
| `TaskQueue.CompletedCanFail` | server-stack/stack-tun-api/src/task_queue.rs:254-271 | a completed entry turns failed on an error part from its claimant |
| `TaskQueue.BlockedForever` | server-stack/stack-tun-api/src/task_queue.rs:467-478 | once the discarding of an outlived task has begun, no event changes the entry |
| `TaskQueue.FailureStored` | server-stack/stack-tun-api/src/task_queue.rs:252-305 | a failed request is stored as failed if and only if its error is more than white space |
| `Bypass.FromRules` | local-stack/client/src/bypass.rs:16-55 | compiles to `Build`, and fails exactly on a malformed CIDR or a wildcard without a domain |
| `Bypass.BuildMeans` | local-stack/client/src/bypass.rs:57-79 | the compiled matcher matches a host if and only if some single rule does |
| `Glob.ToRegexText` | local-stack/client/src/default_rules.rs:104-115 | the loop writes the regex text of the trimmed pattern |
| `Glob.ReadCompiled` | local-stack/client/src/default_rules.rs:104-117 | the text parses to one item per pattern character between anchors |
| `Glob.RegexDenotesGlob` | local-stack/client/src/default_rules.rs:104-117 | the regex matches a text if and only if the text can be cut into one fitting piece per pattern character |
| `Glob.GlobMeaningKept` | local-stack/client/src/default_rules.rs:107-114 | within the fragment the meaning on ASCII text is kept if and only if the pattern holds no anchor character |
| `HostRules.Compile` | local-stack/client/src/default_rules.rs:47-70 | the loop sorts the lines into simple rules and regexes and compiles them; fails on the first regex or rule that does not compile |
| `HostRules.SimpleLine` | local-stack/client/src/default_rules.rs:84-102 | the rules a simple line expands to match what the line means, and compile when it is acceptable |
| `HostRules.CompileMeans` | local-stack/client/src/default_rules.rs:30-70 | compilation succeeds if and only if every line is acceptable; the set then matches a host if and only if some single line does, told by where the line has stars and dots, an ordinary glob line and an ASCII host by the glob's language |
| `HostRules.KindOfLine` | local-stack/client/src/default_rules.rs:79-102 | a line is a glob if and only if it has a star behind its first character, and is expanded if and only if it is a star directly before a name with a dot in it |
| `HostRules.GlobLine` | local-stack/client/src/default_rules.rs:47-82 | a line with a star behind its first character and without regex syntax matches an ASCII host if and only if the host is in the language of the glob |
| `HostRules.WildcardLine` | local-stack/client/src/default_rules.rs:84-102 | `*.name` matches exactly the domain and everything below it |
| `HostRules.StarredLine` | local-stack/client/src/default_rules.rs:95-100 | `*name`, for a dotted name that is no address, matches exactly the domain and everything below it |
| `HostRules.StarlessLine` | local-stack/client/src/default_rules.rs:84-102 | a line without a star compiles and matches as the one rule it is |
| `Routing.MergedByLines` | local-stack/client/src/routing_rules.rs:42-80 | the merged decision, or its failure, read off the rule lines themselves |
| `Routing.MergedDegenerates` | local-stack/client/src/routing_rules.rs:42-132 | merged mode is board mode without bundles, and bundles mode without a board list |
| `Routing.MergedEqualsBundles` | local-stack/client/src/routing_rules.rs:42-116 | on a host the two modes agree if and only if the board's list cannot change the outcome |
| `Routing.DecisionByLines` | local-stack/client/src/routing_rules.rs:28-132 | the decision, or its failure, for every source text, read off the rule lines: "board" leaves the bundles out, "bundles" the board list, any other text neither |
| `Routing.DecisionWithoutBundles` | local-stack/client/src/routing_rules.rs:28-132 | the same when no rule files are loaded |
| `Routing.SettingsFile.MigrateTrafficRules` | local-stack/client/src/settings.rs:197-243 | the settings after the migration |
| `Routing.MigratesIff` | local-stack/client/src/settings.rs:197-243 | the settings change if and only if the source is blank, some rule path is not, and the default board is absent or has no bypass list |
| `Routing.MigrationIdempotent` | local-stack/client/src/settings.rs:197-243 | migrating twice is migrating once |
| `Routing.MigrationEffect` | local-stack/client/src/settings.rs:225-242 | a migration selects the bundles, enables the inspected board and changes nothing else |
| `Routing.MigrationKeepsDecisions` | local-stack/client/src/settings.rs:197-243 | every host gets the same decision for the inspected board before and after |
| `Routing.MigrationOnOtherBoards` | local-stack/client/src/settings.rs:230-242 | for any other board the decision stays if and only if that board's list cannot change it |
| `Bookmarks.BookmarkStore.Save` | local-stack/desktop-client/src/bookmarks.rs:103-125 | replaces the table, or leaves it when the database or the schema refuses |
| `Bookmarks.BookmarkStore.UpsertBookmark` | local-stack/desktop-client/src/bookmarks.rs:132-157 | the table and the returned id after an upsert |
| `Bookmarks.BookmarkStore.SetBookmarkPairing` | local-stack/desktop-client/src/bookmarks.rs:159-180 | the table after a pairing |
| `Bookmarks.BookmarkStore.RemoveBookmark` | local-stack/desktop-client/src/bookmarks.rs:203-208 | the table after a removal |
| `Bookmarks.BookmarkStore.SetBookmarkLabel` | local-stack/desktop-client/src/bookmarks.rs:244-258 | the table after relabelling |
| `Bookmarks.Taken` | local-stack/desktop-client/src/bookmarks.rs:290-303 | the migration's loop finds a row of another identity for the new URL if there is one |
| `Bookmarks.BookmarkStore.MigrateBookmarkUrl` | local-stack/desktop-client/src/bookmarks.rs:262-328 | the table after a URL migration |
| `Bookmarks.StepWrites` | local-stack/desktop-client/src/bookmarks.rs:132-328 | whatever the database does, a failed operation changes nothing, and a successful one leaves the rows it read and does not concern, in order, and the row it writes |
| `Bookmarks.BystandersSurvive` | local-stack/desktop-client/src/bookmarks.rs:71-125 | the stored rows an operation does not concern survive it if and only if the table was read, or there were none |
| `Bookmarks.FailedLoadClears` | local-stack/desktop-client/src/bookmarks.rs:71-125 | when the read fails and the save works, a removal empties the table and an upsert leaves its own row only |
| `Bookmarks.FailedReloadClears` | local-stack/desktop-client/src/bookmarks.rs:244-258 | when the second read of a relabelling fails, one new row is all that is left |
| `Bookmarks.SucceedsIff` | local-stack/desktop-client/src/bookmarks.rs:103-328 | when exactly each operation succeeds |
| `Bookmarks.StepKeepsValidIff` | local-stack/desktop-client/src/bookmarks.rs:132-328 | each operation keeps a unique table unique if and only if it fails, relabels, or writes no new URL whose own normal form is taken by a row it does not replace |
| `Bookmarks.RunValidIff` | local-stack/desktop-client/src/bookmarks.rs:132-328 | over every run, whatever the database does, the table is unique all the way if and only if every operation is safe in the table it finds |
| `Bookmarks.RunKeepsValid` | local-stack/desktop-client/src/bookmarks.rs:132-328 | so over every run with clean URLs no two rows share a normalised URL, an id or a stored URL |
| `Bookmarks.UpsertWrites` | local-stack/desktop-client/src/bookmarks.rs:132-157 | an upsert relabels the first row for the URL or adds an unpaired one, and writes back the other rows it read |
| `Bookmarks.UpsertReturns` | local-stack/desktop-client/src/bookmarks.rs:132-157 | the id returned is that of the row relabelled or added, and of no other row of the table afterwards |
| `Bookmarks.UniqueIff` | local-stack/desktop-client/src/bookmarks.rs:132-180 | a table is unique if and only if no two positions have the same normalised URL |
| `Bookmarks.StorableIff` | local-stack/desktop-client/src/desktop_store.rs:67-73 | the schema takes a table if and only if no two positions share an id or a stored URL |
| `Bookmarks.ClashIff` | local-stack/desktop-client/src/bookmarks.rs:290-303 | the migration's identity test: some row for the URL is paired under a key that is given and differs |
| `Bookmarks.NormIs` | local-stack/desktop-client/src/bookmarks.rs:31-33 | the normal form is the trimmed URL without the slashes at its end |
| `Bookmarks.PairingWrites` | local-stack/desktop-client/src/bookmarks.rs:159-180 | a pairing puts the key on the first row for the URL or adds a paired one, and writes back the other rows it read |
| `Bookmarks.LabelWrites` | local-stack/desktop-client/src/bookmarks.rs:244-258 | relabelling by id relabels the first row for that row's URL, in a unique table the row itself |
| `Bookmarks.CleanIff` | local-stack/desktop-client/src/bookmarks.rs:31-33 | a URL is clean if and only if its normal form does not end in white space |
| `Bookmarks.UncleanUrlDuplicates` | local-stack/desktop-client/src/bookmarks.rs:31-33 | a table and a URL for which an upsert and a pairing do not keep it unique |
| `Bookmarks.MigrationConflict` | local-stack/desktop-client/src/bookmarks.rs:290-303 | after a migration no other identity holds the new URL; one that holds the normal form of the row written is missed if and only if that differs from the new and the old URL |
| `Bookmarks.MissedConflict` | local-stack/desktop-client/src/bookmarks.rs:290-303 | a table and a migration for which it is missed |
| `Bookmarks.MigrationMoves` | local-stack/desktop-client/src/bookmarks.rs:262-328 | a migration leaves one row for the new URL, keeping id and label of the old one, and writes back the rows for neither URL that it read; afterwards the new URL has a row if and only if it is clean, and a different old one then has none |
| `Bookmarks.MigrationInPlaceFails` | local-stack/desktop-client/src/bookmarks.rs:305-311 | migrating a bookmark to its own URL always fails |

## Left out

- Tunnel.FirstChunk: leaves out the Shadowsocks arm; what its packet cipher leaves in the buffer behind a plaintext is decided by a crate that is not part of this model. Shadowsocks framing is left out with it.
- Subscription URIs and JSON parameters: they would add easy members.
- Messages other than data during a relay's handshake (a second Open, Fin, a closed stream): each ends the relay.
- The clock and the guard's history during one VMess handshake: the model takes the readings at the moment the header is complete.
- Upstream connections, the QUIC data plane behind a ticket, the server's host allowlist, traffic limits and the direction from the target back to the client: I/O and accounting around the modelled decisions.
- Cryptographic strength, randomness and constant-time comparison: digests, ciphers and MACs are uninterpreted, ids and nonces are parameters.
- Overflow of `now - body.timestamp` in the authentication handler: time is a mathematical integer there; the saturating operations of the store are modelled.
- A handler clock that cannot be read in the challenge server: it ends the request before the store is touched. The store's own failed reading is modelled.
- Unicode white space and letters: `trim` and lower-casing are modelled on ASCII. What a regex does on other text is up to the library.
- Glob.ReadCompiled: speaks of patterns without `+`, `(`, `)`, `|`, `[`, `{` and backslash, because the model spells out the regex library on literals, `\.`, `.`, a star and the anchors only. Rule compilation and routing cover every pattern, the others as whatever the library makes of them.
- Glob.RegexDenotesGlob: the same patterns, without anchor characters.
- Glob.GlobMeaningKept: the same patterns, anchor characters included.
- Reading rule files and their JSON keys, file watching and reload: the rule lines are parameters.
- `build_server_stack_chunks`: the same loop as `Upload.BuildChunks` with fewer labels.
- Which metadata authenticates an upload, and staging files, unpacking and release layout after it has been accepted: the outcome of the first is a parameter, the rest is I/O.
- Claim order, the capacity of the queue and its statistics: one entry of it is modelled, with every event that can reach it; what stands at the head of the queue is a parameter.
- Bookmarks.RunKeepsValid: speaks of clean URLs; `Bookmarks.RunValidIff` is the statement for all URLs that it follows from.
- The one-time copy of the current pairing into the bookmark table and `set_bookmark_host_agent`: they would add easy members.
- Rows that the database returns damaged, which `load_bookmarks_raw` drops: a load is modelled as the whole table or nothing.
