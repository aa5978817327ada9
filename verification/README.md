# Cloud P2P agent: a verified model

A download in this network goes from a tracker's peer list, through trust handshakes, a split of
the file into one range per peer, framed range transfers, reassembly and storage, to a final hash.
This project models that pipeline together with the trust engine, the tracker's registry and the
two stream converters beside it (the file server's range reads and the Drive upload), and proves
what they promise.

| file | models |
|---|---|
| `Bytes`, `Decimal`, `Utf8`, `Json` | byte strings and streams, number rendering, UTF-8, flat JSON objects |
| `Serializer`, `WireProtocol` | the wire messages, their codec, and what the protocol needs of it |
| `Storage`, `ContentRange`, `FileServer`, `DriveUpload` | local storage, byte ranges, the HTTP file server and its adapter, the Drive upload |
| `Trust`, `TrustGraph`, `SigningBytes`, `TrustRuns` | the trust engine, chains as a graph search, the signed texts, runs of many engines |
| `Registry`, `RegistryHistory`, `RegistryOrder` | the tracker's registry, its event history, the order of its answers |
| `P2PServer`, `FetchChunk` | the seeding side and the client side of one range |
| `Ranges`, `Assembly`, `Schedule`, `Downloader` | split, reassembly, concurrent tasks, the download |
| `DownloadSafety`, `EndToEnd` | the theorems about the whole download: from arbitrary peers, and from peers that run the program |

How outside things appear:

- SHA-256 is any function from bytes to text; nothing is assumed about it. An incremental hasher is the bytes fed to it.
- Signatures are ideal: a signature verifies exactly when a log records that this key made it over these bytes.
- The pipeline is proved for every faithful codec (`WireProtocol.Faithful`); `WireProtocol.JsonIsFaithful` shows that the
  program's JSON codec is one, and `EndToEnd.SwarmDownload` states the end-to-end result over it.
- Time is an integer passed in and rendered in decimal. Request ids, nonces, peers' answers, short reads and the completion
  order of concurrent tasks are parameters (`Downloader.Environment`), so every statement holds for all of them.

Where the code and its description differ, the model follows the code:

- The repository's own README promises a final hash before the file is written to storage; the code writes first, hashes the first `file_size`
  stored bytes, and deletes the file if they are wrong. Bytes after `file_size` are not hashed (`DownloadSafety.SurplusIsStored`).
  How many there are is the amount by which payloads outgrow their headers (`DownloadSafety.StoredLength`); when every
  payload is as long as its header's range, the stored file is `file_size` bytes long and has the hash
  (`DownloadSafety.ConsistentHeadersFillFile`).
- A file of length zero cannot be downloaded (`DownloadSafety.EmptyFileFails`).
- A response header with a negative chunk size parses, so a payload has the announced length exactly when that is not negative
  (`FetchChunk.ParsedLength`, `FetchChunk.NegativeSizeExample`).
- A handshake accepted through a vouch chain does not open the transfer gate; one accepted with an empty chain does
  (`P2PServer.ChainHandshakeExample`, `TrustRuns.HandshakeOpensGate`).
- Handshakes are meant to be answered only for senders that an issued chain of vouches leads to, and the code does not ensure it.
  A sender id is a claim that nothing authenticates, an agent accepts its own id, and a nonce is signed as it was sent. So a nonce
  that spells a vouch's text is answered with that vouch (`TrustRuns.UnissuedEdgeAccepted`), and any stranger can be
  answered although nobody vouched for it; `TrustRuns.StrangerIsAnswered` says exactly when. `TrustRuns.EdgeVerifiesIff` says
  exactly when a vouch verifies. That every accepted edge was issued (`TrustRuns.AcceptedEdgesWereIssued`) holds when the nonces
  answered and the subjects revoked hold no bar, as base64 texts do not (`TrustRuns.Base64SigningIsBarFree`).
- A vouch and a revocation can be signed over the same bytes, exactly when the revocation's subject is a vouch's subject, a bar
  and its issue time (`SigningBytes.VouchRevokeCollision`); no agent id has that form.
- The server's description (`agent/p2p_server.py:39-44`) says that transfers re-verify a full chain and that a revoked peer is rejected
  on its next request. The transfer gate reads the anchors alone, and stays open to an anchor through every revocation
  (`TrustRuns.HandshakeOpensGate`).
- Pruning on reads drops a record for good, even one that an earlier `now` would keep, so an answer is the history's exactly
  when no dropped record is live (`RegistryHistory.AnswersHistoryIff`); that holds whenever no read is later than `now`
  (`RegistryHistory.AnswerIsHistory`), and fails otherwise (`RegistryOrder.BackwardClockExample`). It can also change the order
  of an answer (`RegistryOrder.PruningReorders`), exactly when it changes the order in which two live agents arrived
  (`RegistryOrder.SameListIff`).
- Local storage truncates a range that ends after the file where the HTTP backend refuses it; they agree exactly on the cases
  `FileServer.BackendsAgree` lists, and the server's clamp never asks for another (`P2PServer.BackendIndependent`).

## Model

| member | source | states |
|---|---|---|
| EndToEnd.RunningDownload | agent/downloader.py:276-375 | when the peers paired with a range run the program, in any state, the download succeeds iff each serves the whole of its range and the pieces together have the hash; then exactly the pieces are stored, a shortfall writes nothing, a wrong hash leaves the key absent |
| EndToEnd.HonestDownload | agent/downloader.py:276-375 | once some candidates passed the handshake, it is enough that those paired with a range run the program, trust the downloader and hold a non-empty file: for every completion order the download returns verified, counts every byte, names the peers used, and storage gains exactly the file |
| EndToEnd.WillingDownload | agent/downloader.py:276-375 | the same when every candidate tried runs the program, trusts the downloader and holds the file; the peers used are then the first candidates |
| EndToEnd.SwarmDownload | agent/downloader.py:276-396 | the same for the program's JSON frames and storage backends, with no hypothesis left on the network, from a swarm whose members may be unreachable, refuse the downloader or lack the file, as long as those paired with a range hold it |
| EndToEnd.HandshakesKeepOpenPeers | agent/downloader.py:377-396 | among candidates that are unreachable or run the program, exactly the reachable ones whose gate is open to the downloader are tried, in order |
| DownloadSafety.DownloadIsSafe | agent/downloader.py:310-375 | for peers that answer anything: success means the first file_size stored bytes (all, if no more were stored) have the hash; a hash failure leaves the key absent; an earlier failure leaves storage unchanged; no other key changes |
| DownloadSafety.EarlyFailures | agent/downloader.py:283-342 | which error a download fails with before anything is written: no candidates, no trusted peers, no chunk, the first gap with both its positions, or the wrong end; storage is then unchanged |
| DownloadSafety.FetchedIsCarried | agent/downloader.py:186-228 | the chunks of a download are exactly those that the paired peers' 200 answers parse to with a payload of the announced checksum |
| DownloadSafety.NothingCarried | agent/downloader.py:214-324 | if no answer is intact the download fails with all fetches failed, and files are unchanged |
| DownloadSafety.StoredLength | agent/downloader.py:329-358 | after a success, for peers that answer anything, the stored bytes exceed file_size by exactly what the payloads hold beyond their headers, and have the hash themselves unless that is positive |
| DownloadSafety.ConsistentHeadersFillFile | agent/downloader.py:329-358 | if every fetched payload is as long as its header's range, a download that succeeds stores exactly file_size bytes and all of them have the hash |
| DownloadSafety.SurplusIsStored | agent/downloader.py:276-375 | from one peer whose payload is longer than its header's range, the download succeeds, and the surplus, whatever it is, is counted and stored with the file |
| Downloader.Downloader.Download | agent/downloader.py:276-375 | result and stored files are those of `Outcome`, a function of the per-task outcomes in which the completion order does not occur; an anchor is new iff a tried candidate answered in that name with a recorded signature of our nonce |
| Downloader.PeersTriedAnswered | agent/downloader.py:104-138 | the peers tried are, in order, exactly the candidates among the first max_peers whose reply carries a recorded signature of our nonce by the sender it names |
| TrustGraph.TrustIsReachability | agent/trust.py:137-234 | some chain from a pool is accepted iff the subject is within max_depth hops of an anchor along usable vouches |
| Trust.TrustEngine.VerifyChain | agent/trust.py:137-234 | the walk's answer is the verdict on the chain, and positive iff the chain is accepted |
| Trust.VerdictMeans | agent/trust.py:164-234 | each of the ten reasons is given exactly when it is the first to apply: for an edge, all earlier edges pass, and it is unsigned, or signed but expired, or also unexpired but revoked, or usable but not ending where the next begins |
| TrustRuns.EdgeVerifiesIff | agent/p2p_server.py:98-99 | after any run, a vouch verifies iff it did before, or a step of its issuer issued it, signed its text as the nonce of a handshake it accepted, or signed it as the revocation of its subject, a bar and its issue time |
| TrustRuns.RevokeVerifiesIff | agent/trust.py:111-123 | after any run, a revocation verifies iff it did before, or a step of its issuer issued it, signed its text as the nonce of a handshake it accepted, or signed it as a vouch whose subject and issue time it names |
| TrustRuns.RevocationsHaveOrigin | agent/trust.py:93-123 | an agent holds a revocation after a run iff it did before, issued it, or applied one that verified at that step |
| TrustRuns.AnchorsWereAnswered | agent/downloader.py:91-137 | whatever else was signed, an anchor gained in a run from an empty log answered a handshake over the agent's own nonce earlier in the run, with the signature that the agent then verified |
| RegistryHistory.EntriesExact | tracker/registry.py:52-94 | whatever the clock does, the entries of a file are the announcements that stand and that no read has dropped |
| RegistryHistory.AnswersHistoryIff | tracker/registry.py:77-94 | whatever the clock does, an answer is the history's iff no read dropped a record that is live now |
| RegistryHistory.SameAnswersIff | tracker/registry.py:77-94 | two runs with the same announcements answer with the same records iff their reads dropped the same live agents |
| RegistryOrder.AnswerIsOrdered | tracker/registry.py:52-94 | an answer is the one list of the live, standing, undropped records in the order in which their agents arrived |
| RegistryOrder.SameListIff | tracker/registry.py:52-94 | two runs with the same announcements answer with equal lists iff they dropped the same live agents and every two agents whose records are held and live arrived in the same order |
| Serializer.DecodeEncoded | agent/serializer.py:50-83 | every message decodes to itself from its encoding, through the type tag |
| WireProtocol.JsonIsFaithful | agent/serializer.py:50-97 | the JSON codec reads back every message it writes, on one line, and reads nothing from nothing |
| Serializer.DecodeIff | agent/serializer.py:56-83 | bytes decode to a message iff they are UTF-8 for a JSON object that holds it under the protocol's field names, in any order |
| Serializer.EncodedForm | agent/messages.py:66-111 | what is sent is such an object, with no further members |
| DriveUpload.StreamChunksToDrive | agent/drive_adapter.py:240-300 | whatever pieces the content came in, the requests sent are those of its 256 KiB blocks with their lengths and Content-Range texts, and the result is what Drive's answers to them make it |
| DriveUpload.UploadSucceedsIff | agent/drive_adapter.py:285-300 | an upload succeeds iff the content is not empty, every block is answered 200, 201 or 308, every 200 or 201 with a JSON object, and the last of these names a non-empty id; the result is the length and that id |
| DriveUpload.UploadFailsAt | agent/drive_adapter.py:277-294 | at the first block not answered so, the upload stops with the error that answer calls for, a refusal naming the block's offset |
| EndToEnd.RunningPeerFetch | agent/p2p_server.py:117-164 | a fetch from a peer running the program declares the requested start and at most the requested end, and the requested end, with the peer's own bytes, iff the peer would serve the whole range |
| EndToEnd.SwarmIsHonest | agent/p2p_server.py:80-164 | servers running the program make up an environment that meets the hypotheses of the end-to-end theorem |
| DownloadSafety.EmptyFileFails | agent/downloader.py:53-54 | a download of size zero always fails and changes nothing |
| Downloader.Downloader.HandshakePeer | agent/downloader.py:104-138 | a handshake succeeds iff the reply carries a recorded signature of this nonce by the sender it names, and then makes exactly that sender an anchor |
| Downloader.Downloader.HandshakeAll | agent/downloader.py:377-396 | the trusted list keeps the candidates' order and the anchors gain exactly the successful senders, for every completion order |
| Downloader.Downloader.FetchAll | agent/downloader.py:302-308 | each result is the fetch of its own range from its own peer, in the order of the ranges, for every completion order |
| Schedule.ScheduleIndependent | agent/downloader.py:302-308 | slots and the shared anchor set after all tasks complete are the same for every completion order |
| Assembly.AllOrNothing | agent/downloader.py:310-342 | with honest headers over a split, the sort and coverage check accept iff every range was fetched to its end |
| Assembly.CoverageFaultMeans | agent/downloader.py:329-342 | the check reports nothing iff the declared ranges cover the file, an incomplete end iff they cover up to another one, and otherwise the first gap, with what was expected and what came |
| Assembly.SortIsStable | agent/downloader.py:329 | the sort orders by start and keeps the order of equal starts |
| Assembly.StableSortUnique | agent/downloader.py:329 | a stable sort by start has only one possible result, so sorting by insertion stands for any |
| Ranges.SplitRanges | agent/downloader.py:41-62 | the loop computes the split, which for a non-empty file partitions it |
| Ranges.SplitCount | agent/downloader.py:55-61 | the count is the largest number of peers whose equal share reaches the minimum, else one; no range is below the minimum when there are several; no range lacks a peer |
| Ranges.DefaultSplit | agent/downloader.py:38-62 | with the 256 KiB minimum: no range is shorter when there are several, and no larger number of peers would do |
| FetchChunk.HonestFetch | agent/downloader.py:141-228 | through request codec, gate, clamp, read, frame writer and parser, a fetch from an honest peer succeeds iff the peer serves the request, and yields the file's own bytes |
| FetchChunk.FetchExact | agent/downloader.py:160-228 | a fetch succeeds iff the answer is a 200 whose frames parse and whose payload has the announced checksum, and then yields the header's range and that payload; each error has its exact cause |
| FetchChunk.ServedFrames | agent/p2p_server.py:117-229 | a served request gets, as its receiver parses it, ack, header and completion with the request's id, the clamped range, the checksum of the payload, and lengths that all are the number of bytes sent, and as payload the file's own bytes |
| FetchChunk.FrameRoundTrip | agent/downloader.py:189-209 | parsing a response recovers ack, header, payload and completion for every payload, line feeds included |
| FetchChunk.ParsedLength | agent/downloader.py:202-208 | a parsed payload has the announced length iff that is not negative |
| FetchChunk.NegativeSizeExample | agent/downloader.py:202-208 | a response announcing −1 bytes parses, with an empty payload |
| P2PServer.P2PServer.HandleTransfer | agent/p2p_server.py:117-164 | the handler answers every raw request as `Transfer` says, whatever the short reads; `FetchChunk.ServedFrames`, `P2PServer.RefusalNamesReason` and `P2PServer.UndecodableIsBadRequest` say what that is |
| P2PServer.P2PServer.HandleHandshake | agent/p2p_server.py:80-111 | a body that does not decode is answered 400 and a sender without an accepted chain 403, neither making a signature; every other nonce is signed as it was sent |
| P2PServer.HandshakeExact | agent/p2p_server.py:88-98 | a handshake is accepted iff trust is off, the sender is an anchor, or its chain is not empty nor too long, runs from an anchor to the sender, and every edge is signed by its issuer, unexpired and unrevoked |
| P2PServer.GateIsEmptyChainHandshake | agent/p2p_server.py:89-137 | the transfer gate is open to exactly the senders whose handshake with an empty chain is accepted |
| P2PServer.RefusalNamesReason | agent/p2p_server.py:132-153 | which rejection a request gets, by id, reason and detail: for an untrusted sender, then an unknown file, then an empty range; only a range that starts before the file breaks the response off |
| P2PServer.UndecodableIsBadRequest | agent/p2p_server.py:117-122 | a body that is no transfer request is answered 400 with a bad_request error that names no request |
| P2PServer.BackendIndependent | agent/p2p_server.py:146-158 | the answer depends on the files held and not on the reliable backend holding them |
| Json.ParsePrinted | agent/serializer.py:50-66 | every flat object reads back as printed, whatever characters its strings hold |
| Json.SpaceChangesNothing | agent/serializer.py:64 | white space before an object, a member or a value changes nothing |
| Json.Refusals | agent/serializer.py:64 | raw control characters, leading zeros and unknown escapes are refused |
| Json.LastMemberCounts | agent/serializer.py:64 | of members with the same name the last one counts |
| Json.EscapedText | agent/serializer.py:53 | the escapes of section 7 of RFC 8259 |
| Json.PlainText | agent/serializer.py:53 | printable characters other than the quote and the backslash stand for themselves |
| Decimal.PrintedDigits | agent/drive_adapter.py:274-276 | integers print in positional notation with a leading minus sign if negative |
| Utf8.EncodeDecoded | agent/serializer.py:64 | decoding is strict: what decodes is the encoding of the result |
| Utf8.EncodedForms | agent/serializer.py:53 | the one- to four-byte forms of RFC 3629 |
| Storage.ReadPieces | agent/storage.py:114-143 | for every pattern of short reads the pieces are non-empty, at most 64 KiB, spell out the requested segment, and a range inside the file ends with nothing remaining |
| Storage.LocalStorage.ReadRange | agent/storage.py:106-143 | reads yield the segment, or fail iff the file is missing or the start is negative |
| Storage.LocalStorage.WriteStream | agent/storage.py:145-164 | a stream that ends stores its concatenation and returns its length; one that raises leaves the key absent; a cancelled one leaves what was written |
| Storage.WriteThenRead | agent/storage.py:106-164 | writing any chunking and reading a range back is slicing the content |
| FileServer.GetFile | fileserver/main.py:48-103 | the handler answers 404, 416, 206 with exactly the requested bytes, or the whole file, as `Serve` says |
| FileServer.ServesWhole | fileserver/main.py:48-103 | without a Range value a file is answered whole, and a missing one is not found |
| FileServer.ServesRange | fileserver/main.py:57-84 | a range of two naturals is answered 206 with its bytes, length and Content-Range iff it lies in the file, else 416 |
| FileServer.ServesOpenRange | fileserver/main.py:57-84 | an open range reaches to the end of the file, and is answered iff it starts inside it |
| FileServer.RefusesOthers | fileserver/main.py:57-68 | suffix ranges and texts without a minus sign are refused |
| FileServer.IntegerTexts | fileserver/main.py:62-63 | which texts Python reads as integers: surrounding space and one sign |
| FileServer.GroupedDigits | fileserver/main.py:62-63 | and single underscores between digits |
| FileServer.HeaderRoundTrip | fileserver/main.py:59-63 | a printed Range value of two naturals parses to them; a negative bound makes it unparsable |
| FileServer.BackendsAgree | agent/http_storage_adapter.py:65-88 | the remote read succeeds iff 0 ≤ start ≤ end < size, with the same bytes as local storage; the lemma lists exactly when both answer alike |
| ContentRange.ReadPrinted | fileserver/main.py:75 | a printed Content-Range reads back as the range it was |
| DriveUpload.Reblock | agent/drive_adapter.py:252-261 | the buffering loops cut the stream into the blocks of its concatenation |
| DriveUpload.BlocksBlock | agent/drive_adapter.py:250-261 | the blocks reproduce the content, all of 256 KiB except a last one of 1 to 256 KiB |
| DriveUpload.RangesTile | agent/drive_adapter.py:266-293 | the Content-Range texts read back as extents that tile the content, only the last naming the total |
| Trust.TrustEngine.WalkEdges | agent/trust.py:187-221 | the loop finds the first edge that fails a check, and the first check it fails |
| Trust.VerdictUnique | agent/trust.py:137-234 | answer, reason and depth are determined by the inputs |
| Trust.TrustEngine.IssueVouch | agent/trust.py:78-91 | the issued vouch carries a signature that verifies over its own fields |
| Trust.TrustEngine.ApplyRevoke | agent/trust.py:111-123 | a revocation is applied iff its issuer signed it, and otherwise nothing changes |
| TrustGraph.AcceptanceMonotone | agent/trust.py:164-234 | acceptance grows with anchors, depth and signatures, and shrinks with revocations and time |
| TrustGraph.PrefixIsPath | agent/trust.py:187-234 | prefixes of a trust path are trust paths to their own last subject, accepted when short enough |
| TrustGraph.JoinedIsPath | agent/trust.py:171-234 | a path to an agent followed by a path that starts from that agent is a path, accepted iff the joint length is within max_depth or the subject is an anchor |
| SigningBytes.VouchBytesEqualIff | agent/trust.py:19-25 | two vouches are signed over the same bytes iff issuer, bar and subject spell the same text and the times are equal |
| SigningBytes.VouchRevokeCollision | agent/trust.py:19-33 | exactly when a vouch and a revocation share their bytes; never for a bar-free subject |
| SigningBytes.VouchRevokeCollisionExample | agent/trust.py:19-33 | a vouch and a revocation with the same bytes |
| SigningBytes.NonceCollision | agent/p2p_server.py:98-99 | a nonce is signed over the bytes of a vouch or a revocation iff it is their text |
| SigningBytes.NonceIsNeither | agent/downloader.py:91 | a nonce without a bar is signed over bytes of neither kind |
| TrustRuns.RunsGrow | agent/trust.py:93-126 | along every run anchors, revocations and signatures only grow |
| TrustRuns.Perform | agent/trust.py:78-123 | each step of a run, carried out by the engine, the server or the downloader, leaves the log and the agent's knowledge that the run says |
| TrustRuns.OwnIdsStayAnchors | agent/trust.py:71-74 | every agent keeps its own id as an anchor along every run |
| TrustRuns.AnchorsHaveOrigin | agent/downloader.py:127-137 | an agent is an anchor after a run iff it was one before, or a handshake with it was completed by a step whose nonce signature verified |
| TrustRuns.RevokedForever | agent/trust.py:203-208 | once an agent holds a revocation, a chain using the edge is accepted at any later point only for an anchor |
| TrustRuns.AcceptedEdgesWereSigned | agent/trust.py:130-135 | in a run from an empty log, a step of its issuer that took effect signed every edge of an accepted chain, in one of those three ways |
| TrustRuns.AcceptedEdgesWereIssued | agent/trust.py:130-135 | if the nonces answered and the subjects revoked hold no bar, every such edge was issued with exactly those fields |
| TrustRuns.Base64SigningIsBarFree | agent/identity.py:19-50 | nonces and subjects in base64 meet that hypothesis |
| TrustRuns.UnissuedEdgeAccepted | agent/p2p_server.py:89-101 | in any world whose agents have their own ids as anchors, a request in the agent's name passes its check, and the answer to a nonce that reads as a vouch makes a chain that is accepted for any subject, unless depth or a revocation forbids, though nobody issued it |
| TrustRuns.StrangerIsAnswered | agent/p2p_server.py:80-111 | the same of two requests to the handler: the second, in the name of any stranger, is answered iff trust is off, the stranger is an anchor, or a one-edge chain is short enough and its edge not revoked |
| TrustRuns.IssuedVouchAccepted | agent/trust.py:78-91 | an issued vouch is accepted until it expires wherever its issuer is an anchor and the edge is not revoked |
| TrustRuns.RevocationsWereIssued | agent/trust.py:111-123 | if the nonces answered, the subjects revoked and the edge's subject hold no bar, every revocation an agent gains in a run was issued by the edge's issuer, at that step or an earlier one |
| TrustRuns.HandshakeOpensGate | agent/p2p_server.py:126-137 | a handshake accepted with an empty chain opens the transfer gate for good |
| Registry.Registry.Register | tracker/registry.py:52-62 | registration upserts the stamped record, keeping the place of an existing one |
| Registry.Registry.Unregister | tracker/registry.py:64-69 | unregistering removes the agent's record and an emptied file |
| Registry.Registry.UnregisterAll | tracker/registry.py:71-75 | the agent leaves every file, and emptied files go |
| Registry.Registry.GetPeers | tracker/registry.py:77-94 | a read returns the live records in order and leaves only them; zero or no `now` means the current time |
| RegistryHistory.PerformAll | tracker/registry.py:45-94 | a registry that carries out a whole run of calls and is then read answers as the run says |
| RegistryHistory.AnswerIsHistory | tracker/registry.py:52-94 | a read no earlier than those before it answers exactly the agents whose last announcement stands and is at most ttl old, each once |
| RegistryHistory.RunRefines | tracker/registry.py:52-94 | when no read is later than now, stored records are ones the history stands by, and missing ones have expired |
| RegistryHistory.ReadsUnobservable | tracker/registry.py:77-94 | runs with the same announcements and no read later than now answer alike, whatever reads they contain |
| RegistryHistory.ReachableWellFormed | tracker/registry.py:47-69 | no reachable store has a file without peers or an agent twice for a file |
| RegistryOrder.OrderUnobservable | tracker/registry.py:77-94 | if every agent renews before a read drops its record, reads do not even change the order |
| RegistryOrder.KeptAliveRenewsInTime | tracker/registry.py:42-50 | with a forward clock, an agent that renews each record of the file while it is live renews in time |
| RegistryOrder.PruningReorders | tracker/registry.py:58-69 | two runs with the same announcements whose answers differ in order |
| RegistryOrder.BackwardClockExample | tracker/registry.py:85-94 | a read from the future drops a record that is live at an earlier time, and the later answer is not the history's |

## Left out

- HandleHandshake: takes the request as decoded or not, because its nested JSON, a list of vouches, is not modelled; a refusal is
  its status alone.
- General JSON: nested values, floats and booleans are refused by the model's reader, integers sent as strings or floats are not
  coerced, and a request without a request id is refused instead of receiving a fresh one. Messages arriving in that form are
  covered by the theorems about arbitrary peers, which do not depend on how a chunk was parsed.
- Handshake, vouch and revocation messages on the wire: their content is modelled, their JSON form is not.
- The text of error details taken from library exceptions.
- Ed25519, SHA-256, key files, HTTP clients and routing, timeouts, retries, configuration, the command line.
- Failures of the downloader's own storage backend and of writing to disk; a failed peer call is a failed task outcome.
- Hashes that are not plain file names: storage joins a key to its root as a path, so `./x` and `x` name one file, and what is said of
  other keys is said of plain names.
- Concurrent writes to one storage key while a download runs.
- Reads through Drive and the Drive manifest; only the upload's block and range logic is modelled.
- Non-ASCII digits and white space in a Range header.
- Times as floating-point numbers.
- The registry's size queries and the tracker's HTTP layer.
