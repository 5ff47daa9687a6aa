# A verified model of the file-sharing node

The program shares files between peers. A seeder cuts a file into chunks and announces it to a
tracker; a downloader asks the tracker who has the file, requests chunks from many peers at once and
writes them out of order into one output file. This project models the four parts whose correctness
is not visible in any single function, and proves what they promise:

* **The download** (`server.go`, `piece_manager.go`, `store.go`). `DownloadControl` is the main loop,
  its semaphore, wait group and worker goroutines as a step system; `DownloadSystem` adds what a worker
  does inside `downloadChunk`, the shared list of response handlers, a network that delays, drops,
  duplicates and reorders, an honest seeder, peers that come and go, and the output file.
  `DownloadSafety` proves what every interleaving keeps, `DownloadAttempts` whom a worker asks before it
  gives up, and `DownloadLiveness` that a download ends. `DownloadWitness`, on `DownloadRuns`,
  constructs runs: one that meets its assumptions, and those behind the findings below.
  `PieceManager`, `Assembly`, `Store`, `Seeder` and `DownloadClient` hold the code that changes state in
  place, proved against the functions those step systems use.
* **The tracker** (`p2p/tracker.go`). `TrackerServer` is the tracker's three maps and its nested
  deleting loops; each method is proved equal to a function of `TrackerSpec`; `TrackerRefinement` shows
  that those functions implement a relation between files and peers; `TrackerHistory` says from the
  history of events alone what the tracker answers.
* **Framing** (`p2p/tcp_transport.go`, `p2p/encoding.go`, the sender in `store.go`): two writers, one
  decoder, and a receive loop over a stream cut into arbitrary reads.
* **Encryption of streams** (`crypto.go`): the counter-mode copies under arbitrary read sizes.

The main results are `DownloadSafety.NilMeansRightFile`, `DownloadLiveness.DownloadReturns`,
`DownloadAttempts.ContactsExact`, `DownloadControl.ResultExact`, `TrackerHistory.RunRefines`,
`TrackerHistory.ListedByHistory`, `TrackerHistory.DescribedByHistory`, `Framing.TruncatedAnywhere`,
`Framing.HandleConn` and `CtrCopy.EncryptThenDecrypt`.

## Where the code does something else than one might expect

Each of these is a proved statement, not an omission.

* A verified piece can become missing again: a duplicate worker that fails after the first one has
  succeeded makes `DownloadFile` return an error although the output file is the source byte for byte.
  `DownloadWitness.LateDuplicateSpoilsResult` is a run of the whole system that does so, for every
  non-empty file: the second worker's peer merely stays silent. The exact result is
  `DownloadControl.ResultExact`: nil if and only if for every piece the worker that finished last
  succeeded; the file itself is right as soon as every piece has succeeded once
  (`DownloadSafety.EveryPieceOnceIsEnough`).
* Only the peers connected when the piece manager is filled count. A piece without one is never
  requested, so a download that starts without peers never returns nil, whoever connects later and
  whatever fails (`DownloadControl.NilNeedsPeers`).
* A handler's `done` channel is closed only after the chunk has been written, and a call tests it before
  it puts the response into the channel. So a handler can accept a second response, while its worker
  writes the first (`DownloadWitness.SecondResponseAccepted`) or even after its worker has closed it
  (`DownloadWitness.SecondResponseAfterClose`). `DownloadSafety.SecondAcceptedExactly` says exactly when.
  No such response is ever read, and after the close only calls already under way can still put one in
  (`DownloadSafety.ClosedForGood`, `DownloadSafety.HandlerCounts`).
* `copyDecrypt` takes the counter block from a single `Read`. The round trip holds if and only if that
  read delivers all sixteen bytes (`CtrCopy.RoundTripExactly`).
* `Decode` formats its causes into new errors, so `handleConn`'s comparison with `io.EOF` and its
  timeout retry can never match: the first decode error of any kind ends the loop, with the retry count
  still zero (`Framing.HandleConn`). Only the test for a closed connection, which looks at the
  text, can.
* `RemovePeer` of the piece manager puts back every requested piece, not only those asked of that peer
  (`PieceManager.PieceManager.RemovePeer`).
* The tracker never serves metadata with a peer count of zero, so the check for that in `DownloadFile`
  (`server.go:703-705`) cannot fire (`TrackerServer.TrackerServer.HandleGetMetadata`).
* The seeder's segmented sender checks no length. What it writes is read back if and only if the payload
  is at most 17 MiB; above that it is refused, or, once the length has wrapped at 32 bits to at most
  17 MiB, taken for a shorter message (`Framing.SegmentedReadBackExactly`).
* `ChunkAndStore` and `generateFileHashes` call `Read` once for each chunk, and a read may stop short. The
  pieces are the file's chunks if and only if no read did (`Chunking.ChunksExactly`); otherwise
  `ChunkAndStore` still stores the whole file, in other pieces, and, unless the
  hash collides, some announced hash is not that of the chunk served (`Store.ShareFile`).

## Model

| member | source | states |
|---|---|---|
| DownloadSafety.NilMeansRightFile | server.go:827-908 | in every reachable state of the whole system in which `DownloadFile` has returned nil, the output file equals the source byte for byte |
| DownloadSafety.EveryPieceOnceIsEnough | server.go:880-908 | once every piece has been downloaded successfully at some time the output file is the source, whatever later workers did and whatever is returned |
| DownloadSafety.NeverWrong | server.go:315-345 | at every moment of every run no written byte is wrong, the file is no longer than the source, and every piece marked verified is whole in the file |
| DownloadSafety.CorrelationSafe | server.go:209-283 | the data a worker is writing is the source's chunk for its own piece, received through a handler that this worker registered, however late or often other responses arrive |
| DownloadSafety.LateResponseIgnored | server.go:214-249 | whatever a call changes in a handler of this download: if the handler is open its worker is listening on it and a response names that worker's file and piece; if it has been closed meanwhile, nobody listens on it |
| DownloadSafety.HandlerCounts | server.go:245-276 | a handler gives its worker at most one response and accepts at most one more than it gives |
| DownloadSafety.ClosedForGood | server.go:216-299 | over any run: a closed handler stays closed and is never read again, no new call gets past its test, and what still changes it is a call that passed the test before the close |
| DownloadSafety.SecondAcceptedExactly | server.go:214-299 | a step makes a handler accept a second response if and only if it finishes a call under way with a matching response after the first was taken; then the worker is still writing, or the handler is closed and nobody listens on it |
| DownloadSafety.InvKept | server.go:173-313 | every step of the main loop, a worker, a handler call, the network, the seeder or the peer list keeps the system invariant: honest traffic, matched handlers, faithful file, reported chunks present |
| DownloadSafety.WritingIsOneCall | server.go:315-345 | a worker's consecutive write steps are one call of `writeAndVerifyChunk`: up to three attempts, only the last clean, the same file, success exactly when the last attempt is clean, failure only after three |
| DownloadSafety.BroadcastIsDeliveries | server.go:378-384 | calling every registered handler with a message, uninterrupted, is a run of the system's two steps for each open handler |
| DownloadControl.InvKept | server.go:827-901 | every step of the main goroutine and of the workers' deferred calls keeps the control invariant |
| DownloadControl.NoLostPiece | server.go:847-901 | in every reachable state a requested piece has a running worker or is queued in the batch, the semaphore count equals the workers holding a token and is at most ten, and with the wait group drained nothing is left requested |
| DownloadControl.AbortedExactly | server.go:833-841 | over any run `DownloadFile` returns early if and only if it read an empty peer list and could not reconnect; after reconnecting it goes on |
| DownloadControl.LeavesLoopOnlyWhen | server.go:827-860 | in every run the loop is left only when everything is verified, or when for every worker that is still listed as active another worker on its piece has removed that piece from the active downloads |
| DownloadControl.BatchSize | server.go:843-847 | with n peers connected the next batch has 20 n pieces or all there are to hand out, whatever workers do in between |
| DownloadControl.WithoutPeers | server.go:827-908 | a download none of whose pieces has a peer launches nothing and returns an error after exactly five steps of the main goroutine, however many peers are connected by then |
| DownloadControl.ResultExact | server.go:900-908 | a finished download is nil if and only if for every piece the worker that finished last with it succeeded |
| DownloadControl.VerifiedLostExactly | server.go:880-895 | a verified piece stops being verified in exactly one way: a worker on the same piece finishes with a failure |
| DownloadControl.NilNeedsPeers | server.go:728-740 | a nil result means that every piece had a peer at the start, whoever connects later and whatever fails |
| DownloadControl.FailureFreeResult | server.go:728-740 | when no worker fails, a finished download is nil if and only if every piece had a peer at the start |
| DownloadControl.WorkerNeverBlocks | server.go:871-896 | no deferred call of a worker ever blocks: the token and the wait-group count it gives back are there |
| DownloadControl.StepDecreases | server.go:827-898 | with any table: every launch and every step of a worker decreases one lexicographic rank (failures left, unverified pieces, surplus workers, deferred calls, free slots), and every other step of the main goroutine leaves it alone |
| DownloadControl.MainDecreases | server.go:827-860 | every other step of the main goroutine brings it nearer to its next launch or to the end, unless it polls an empty peer list or waits for active downloads |
| DownloadLiveness.Project | server.go:862-897 | every run of the whole system is a run of the control part, so the control results hold for it |
| DownloadLiveness.ResultOfDownload | server.go:900-908 | for runs of the whole system: nil exactly when every piece's last finisher succeeded, only if every piece started with a peer, and, without failures, if every piece did |
| DownloadLiveness.AgainAfterwards | server.go:209-300 | a finished download leaves no handler open and no wrong message behind, so downloading the file again starts from a legal initial state |
| DownloadLiveness.StartIsInitial | server.go:728-757 | the state `DownloadFile` sets up is an initial state, and every piece has a peer exactly if some peer is connected or the file is empty |
| DownloadLiveness.ClientCanStep | server.go:827-901 | never stuck: until the download returns, some action of the client itself is possible in every state satisfying the invariant |
| DownloadLiveness.WorkerCanStep | server.go:173-313 | the same for each worker that has not departed |
| DownloadLiveness.ClientActionDecreases | server.go:178-312 | the same for the whole system, including every action inside `downloadChunk` |
| DownloadLiveness.BecomesQuiet | server.go:827-898 | in every fair endless run with bounded failures and peers and finitely many empty peer lists, each followed by reconnecting, the client acts only finitely often |
| DownloadLiveness.DownloadReturns | server.go:683-909 | every such run returns from the final check, whether or not its pieces have peers; nil means the file is the source, and with no failing worker the result is nil exactly if every piece had a peer at the start |
| DownloadAttempts.ContactsExact | server.go:178-301 | over any run, until a worker succeeds the peers it has asked followed by those still to be asked are exactly the peers of its attempts in their shuffled order: no timeout, error, failed send or failed write leaves anybody out |
| DownloadAttempts.AwaitsLastContact | server.go:209-300 | the peer whose answer a worker waits for is the one it asked last |
| DownloadAttempts.FailsOnlyAfterAll | server.go:175-312 | a worker that failed has begun exactly three attempts and has asked everybody these started with, in order |
| DownloadAttempts.EveryPeerAsked | server.go:178-209 | in each of its attempts a worker that failed has asked every peer that was connected when the attempt began |
| DownloadAttempts.BadPayloadDropsPeer | server.go:228-294 | a response payload of the wrong type makes the waiting worker close its handler, drop that peer and no other, and go on with the next |
| DownloadAttempts.OversizedNotWritten | server.go:318-321 | oversized data changes nothing in the file, and the worker closes its handler and goes on with the next peer |
| DownloadAttempts.AbortsWithoutPeers | server.go:828-841 | a run of the whole system returns early only after reading the peer list when it was empty |
| DownloadWitness.LivenessApplies | server.go:683-909 | the assumptions of `DownloadReturns` can be met: for every non-empty file there is a fair run without failure, and it returns nil with the right file |
| DownloadWitness.LateDuplicateSpoilsResult | server.go:862-908 | for every non-empty file there is a run of the whole system, with a fixed peer and a network that loses and repeats nothing, that returns an error although the output file is the source: a duplicate worker of the last piece gets no answer after the first one has succeeded |
| DownloadWitness.SecondResponseAccepted | server.go:209-283 | for every non-empty file such a run reaches a state in which a handler has accepted two responses, the answers to two requests, while its worker is writing |
| DownloadWitness.SecondResponseAfterClose | server.go:216-283 | the same after the worker has succeeded and closed the handler |
| DownloadRuns.ReturnedIsIdle | server.go:900-908 | once the download has returned no goroutine of it is left that could act |
| DownloadClient.InitializePieces | server.go:728-740 | the set-up loop gives every piece exactly the connected peers, all missing, whatever order the peers come in |
| DownloadClient.ResponseHandler.constructor | server.go:209-217 | a registered handler is open, with both channels empty |
| DownloadClient.ResponseHandler.PassesTest | server.go:217-221 | the test of `done` is the system's condition for entering a call |
| DownloadClient.ResponseHandler.Put | server.go:223-248 | the rest of the closure changes the handler exactly as the system's delivery step does, closed meanwhile or not |
| DownloadClient.ResponseHandler.Call | server.go:216-249 | the two together, uninterrupted |
| DownloadClient.RouteResponse | server.go:378-384 | the routing loop, uninterrupted, calls every handler once |
| PieceTable.StartTableIs | server.go:728-740 | at the start every piece is missing and has exactly the connected peers |
| PieceTable.PeersByHistory | piece_manager.go:34-138 | over any sequence of manager operations the pieces, their indices and hashes stay the same, a piece's peers are those whose latest relevant operation was an offer, and its priority is 1000 minus its peer count once it was offered or any peer removed |
| PieceTable.StatusByHistory | piece_manager.go:70-138 | over any sequence of operations a piece has the status last given to it by marking or handing out, missing if there was none, except that a requested piece is missing again after any peer was removed |
| PieceTable.HigherPriorityIsRarer | piece_manager.go:64-64 | among pieces with a peer, higher priority if and only if strictly fewer peers |
| PieceTable.RarestFirst | piece_manager.go:107-115 | after any sequence of operations, of two pieces that can be handed out the one with the higher priority has at most as many peers |
| PieceTable.BatchKinds | piece_manager.go:90-120 | every piece of a batch has a peer; all are missing, or there are no missing ones to be had and all are requested; a batch shorter than asked for is everything there is |
| PieceTable.EmptyPoolMeansDone | piece_manager.go:90-105 | with a peer on every piece, nothing to hand out if and only if everything is verified |
| PieceTable.BatchExists | piece_manager.go:86-128 | in every state some answer is possible |
| PieceManager.PieceManager.constructor | piece_manager.go:34-51 | a fresh manager has the given number of missing pieces with their hashes and no peers |
| PieceManager.PieceManager.UpdatePeerPieces | piece_manager.go:54-67 | the peer joins exactly the known pieces among the indices, repeats allowed, and their priorities follow |
| PieceManager.PieceManager.RemovePeer | piece_manager.go:70-81 | the peer leaves every piece, every requested piece goes back to missing, priorities are recomputed |
| PieceManager.PieceInfo.RemovePeer | piece_manager.go:74-80 | the same for one record |
| PieceManager.PieceManager.GetNextPieces | piece_manager.go:86-128 | whatever the comparator does, a batch of distinct pieces with peers of the size asked for or all there are, copied with their old status; exactly those become requested; if every draw fell to the priorities the batch is sorted by them and leaves no higher one behind |
| PieceManager.CutKeepsBatch | piece_manager.go:117-120 | cutting any ordering of all candidates to n leaves a legal batch |
| PieceManager.SortSlice | piece_manager.go:109-115 | the sort leaves the same pieces, none twice, and by descending priority if the comparator looks at nothing else |
| PieceManager.PieceManager.MarkPieceStatus | piece_manager.go:131-138 | only the named piece's status changes; an unknown index changes nothing |
| PieceManager.PieceManager.IsComplete | piece_manager.go:141-151 | true if and only if every piece is verified |
| Assembly.PrefixWriteFaithful | server.go:325-325 | writing the first n bytes of a chunk at its offset covers exactly those positions more and leaves no wrong byte |
| Assembly.AssembledExactly | server.go:315-345 | after any sequence of prefix writes, in any order and with repeats, exactly the touched positions are written, each with the source's byte, and the file never outgrows the source |
| Assembly.AssemblyComplete | server.go:315-345 | once every chunk has had one full write the file equals the source, whatever else was written |
| Assembly.WholeFile | store.go:169-189 | a file without wrong bytes that holds every chunk whole is the source |
| Assembly.ChunkWriteSafe | server.go:323-342 | retried writes of a chunk never spoil or lose anything, and one clean attempt makes the chunk whole |
| Assembly.Output.WriteAndVerifyChunk | server.go:315-345 | the writes it makes stop at the first clean one, failure comes only after three, the file is their result, oversized data is not written, and each error says what the last write came to |
| Chunking.AcceptedIffCounted | store.go:169-173 | `ReadChunk` accepts an index if and only if it is below ceil(size / chunk size) |
| Chunking.ChunkOfPosition | store.go:169-178 | position p of the file lies in chunk p / chunk size |
| Chunking.ChunksAt | store.go:207-224 | the i-th chunk read in sequence is the chunk that `ReadChunk(i)` returns |
| Chunking.ConcatPrefix | store.go:207-224 | the first n chunks joined are the first n * chunk size bytes, or the whole file |
| Chunking.ChunksConcatenate | store.go:207-224 | the chunks joined are the file |
| Chunking.ChunksExactly | store.go:207-224 | pieces read in sequence are the file's chunks if and only if no read was cut short |
| Chunking.WholeFileExactly | store.go:207-224 | pieces that make up the file are at least as many as its chunks, and are its chunks if and only if no read was cut short |
| Store.ReadChunk | store.go:156-190 | on a working disk a counted index gives exactly its chunk and any other is refused; every other error comes with a fault of the disk |
| Store.ChunkAndStore | store.go:194-240 | succeeds exactly if the disk did not fail; then the stored pieces make up the file and are counted, and are its chunks if and only if no read was cut short; otherwise they are a beginning of it |
| Store.GenerateFileHashes | piece_verification.go:25-61 | succeeds exactly if the disk did not fail; then as many hashes as chunks, each of exactly the piece read for it although the buffer is reused, the total hash and size; the pieces are the chunks if and only if no read was cut short |
| Store.ShareFile | server.go:525-540 | succeeds exactly if the disk did not fail; count, size, total hash and chunk size are then right; the chunk hashes are those of the chunks if no read was cut short, and, for a hash without collisions, only then |
| Store.ChunkersAgree | piece_verification.go:37-58 | announced count, stored chunks and served indices coincide; each stored chunk is the served one and matches its announced hash; together they are the file |
| Seeder.HandleChunkRequest | store.go:73-154 | a successful reply is one frame holding exactly the chunk of the download model's seeder step; each refusal happens exactly under its condition and writes nothing: not shared, five or more handlers, not counted, three failing reads of the disk, a failing connection |
| Seeder.ReplyArrives | store.go:119-150 | a reply of up to 17 MiB decodes at the other end to the encoded chunk, whatever follows on the stream |
| TrackerServer.TrackerServer.constructor | p2p/tracker.go:42-49 | a new tracker is empty |
| TrackerServer.TrackerServer.HandleAnnounce | p2p/tracker.go:89-123 | the exact new state; metadata is replaced only for a new file or a new total hash |
| TrackerServer.TrackerServer.HandleHeartbeat | p2p/tracker.go:157-202 | the two loops, in any map order, give the exact new state |
| TrackerServer.TrackerServer.HandleRemove | p2p/tracker.go:297-314 | the exact new state, recounting even a peer that was not listed |
| TrackerServer.TrackerServer.RemovePeer | p2p/tracker.go:518-541 | the peer leaves every list and is forgotten, in any map order |
| TrackerServer.TrackerServer.UpdatePeerActivity | p2p/tracker.go:398-402 | only the peer's last-seen time changes |
| TrackerServer.TrackerServer.CleanupStalePeers | p2p/tracker.go:492-515 | deleting while iterating, in any order, removes exactly the stale peers at once |
| TrackerServer.TrackerServer.CleanupInactivePeers | p2p/tracker.go:345-395 | collecting, removing and deleting empty lists round by round gives the single-step expiry |
| TrackerServer.TrackerServer.HandleGetPeers | p2p/tracker.go:453-489 | expires, then answers without repeats exactly the peers still listed; refuses an empty file ID |
| TrackerServer.TrackerServer.HandleGetMetadata | p2p/tracker.go:208-228 | the exact answer, whose peer count is the number of sharers and never zero |
| TrackerServer.PurgeRound | p2p/tracker.go:365-383 | one round of a removal loop over one file is one step of removing the peer from all files |
| TrackerServer.ForgetOneMore | p2p/tracker.go:495-513 | expiring one more peer after some others is expiring them together |
| TrackerServer.ExpelOneMore | p2p/tracker.go:360-394 | the same when empty lists are deleted in every round |
| TrackerSpec.AnnounceInv | p2p/tracker.go:93-123 | an announcement keeps the index invariant |
| TrackerSpec.HeartbeatInv | p2p/tracker.go:160-202 | a heartbeat keeps it, though it may create lists without metadata |
| TrackerSpec.RemoveInv | p2p/tracker.go:300-314 | a removal keeps it |
| TrackerSpec.ForgetInv | p2p/tracker.go:518-541 | forgetting peers keeps it: nobody forgotten stays listed |
| TrackerRefinement.AnnounceSimulates | p2p/tracker.go:93-123 | an announcement adds one pair, the metadata and the time to the abstract tracker |
| TrackerRefinement.HeartbeatExact | p2p/tracker.go:160-202 | after a heartbeat the peer is listed for exactly the files named, every other peer is where it was, and exactly the old files that still have a sharer keep their metadata, with the right count |
| TrackerRefinement.HeartbeatSimulates | p2p/tracker.go:160-202 | a heartbeat replaces the peer's pairs and drops metadata of files left without sharers |
| TrackerRefinement.RemoveSimulates | p2p/tracker.go:300-314 | a removal takes out one pair |
| TrackerRefinement.RemovePeerSimulates | p2p/tracker.go:518-541 | removing a peer takes out its pairs and its time |
| TrackerRefinement.ExpireSimulates | p2p/tracker.go:345-395 | both expiry routines take out exactly the peers last seen more than 120 seconds ago |
| TrackerRefinement.ExpiriesAgree | p2p/tracker.go:492-515 | the two expiry routines agree on metadata, last-seen times and every non-empty list |
| TrackerRefinement.PurgeTwice | p2p/tracker.go:495-514 | removing peers in two goes, in either order, is removing them at once: map order does not matter |
| TrackerRefinement.ExpireStaleTwice | p2p/tracker.go:492-515 | expiring at t1 and then at t2 >= t1 is expiring at t2 |
| TrackerRefinement.ExpireInactiveTwice | p2p/tracker.go:345-395 | the same for the other routine, up to empty lists |
| TrackerRefinement.PurgeLists | p2p/tracker.go:495-514 | a removal of peers deletes a list exactly together with the file's metadata |
| TrackerRefinement.RemoveLists | p2p/tracker.go:300-314 | so does a removal of one peer from one file |
| TrackerRefinement.HeartbeatLists | p2p/tracker.go:160-202 | a heartbeat creates exactly the lists it names |
| TrackerRefinement.InactiveLists | p2p/tracker.go:359-391 | the clean-up changes nothing while nobody is inactive, and otherwise leaves no empty list |
| TrackerRefinement.FreshExactly | p2p/tracker.go:461-483 | asking for peers gives exactly those listed before whose last activity is at most 120 seconds old |
| TrackerHistory.RunInv | p2p/tracker.go:35-40 | in every reachable state a file with metadata has a non-empty list of exactly NumPeers peers, and every listed peer has a last-seen time |
| TrackerHistory.SeenIsLastActive | p2p/tracker.go:120-120 | a last-seen time is the time of the peer's last announcement, heartbeat or activity |
| TrackerHistory.ListedByHistory | p2p/tracker.go:93-123 | a peer is listed for a file if and only if the latest event about the two was an addition |
| TrackerHistory.AnswerByHistory | p2p/tracker.go:453-489 | what a request for peers answers, as a condition on the history |
| TrackerHistory.DescribedByHistory | p2p/tracker.go:93-109 | a file has metadata if and only if some announcement of it was followed by sharers at every later moment |
| TrackerHistory.HashIsLatest | p2p/tracker.go:94-109 | the metadata served carries the total hash of the latest announcement |
| TrackerHistory.ServedByHistory | p2p/tracker.go:93-109 | the metadata served, all of it, is that of one announcement with its time: the earliest since which the file was always shared and only announced with the same total hash |
| TrackerHistory.StepRefines | p2p/tracker.go:63-541 | every event, from any state satisfying the invariant, is the abstract tracker's event |
| TrackerHistory.RunRefines | p2p/tracker.go:63-541 | every run of the tracker is a run of the abstract tracker |
| Framing.BigEndianIs | p2p/tcp_transport.go:59-59 | the most significant byte of the length goes first |
| Framing.BigEndianRoundTrip | p2p/encoding.go:30-30 | reading a four-byte length back gives the length |
| Framing.DecodeSentThen | p2p/encoding.go:24-51 | whatever follows them, sent messages decode first, in order, without the empty ones |
| Framing.SendAll | p2p/tcp_transport.go:45-71 | sending messages one after the other writes exactly the stream that the round trip decodes; it stops only at a failing connection or an oversized message, before which exactly the earlier ones have been written |
| Framing.RoundTrip | p2p/tcp_transport.go:45-71 | decoding what was sent gives exactly the non-empty messages and then end of file |
| Framing.TruncatedFrame | p2p/encoding.go:44-48 | a frame cut short gives the complete messages and then the error that tells where the cut is |
| Framing.TruncatedAnywhere | p2p/encoding.go:24-51 | however the stream is cut, exactly the completely received messages decode |
| Framing.WritersAgree | store.go:126-150 | for 1 byte to 17 MiB the seeder's sender and `Send` produce the same frame, and it decodes |
| Framing.SegmentedReadBackExactly | p2p/encoding.go:30-48 | for every payload: what the segmented sender writes is read back if and only if it is at most 17 MiB, and above that what the decoder makes of it, also when the length wraps |
| Framing.Connection.Send | p2p/tcp_transport.go:45-71 | one frame in one write, nothing for an empty message, refusal above 17 MiB, any other error only if the connection failed, and then a prefix of the frame |
| Framing.Connection.SendSegmented | store.go:126-150 | a write of four bytes and then one for each segment write exactly the frame; an error only if the connection failed, and then a prefix of it |
| Framing.SegmentsAddUp | store.go:132-138 | the segments add up to the data without gap or overlap, all but the last are of 1 MiB and none is empty |
| Framing.Receiver.ReadFull | p2p/encoding.go:27-29 | however the reads are cut, success and content depend on the data alone, unless a read timed out or found the connection closed |
| Framing.Decode | p2p/encoding.go:24-51 | one decode is the decoding function on the remaining data, unless a read failed; errors are always reformatted |
| Framing.HandleConn | p2p/tcp_transport.go:326-360 | without a failing read everything the stream holds is decoded; what is forwarded is that in order, less exactly as many messages as the full channel refused; the loop ends at the first decode error with no retry counted |
| Framing.NothingDropped | p2p/tcp_transport.go:354-359 | if as many messages are forwarded as decoded, they are the same |
| CtrCopy.EncryptedAt | crypto.go:83-94 | the ciphertext is the counter block followed by every plaintext byte combined with the key-stream byte of its position |
| CtrCopy.DecryptedAt | crypto.go:67-73 | every byte after the counter block is combined with the key-stream byte of its position, under the counter block padded with zeros |
| CtrCopy.MaskTwice | crypto_test.go:9-35 | masking twice from the same position restores the data |
| CtrCopy.MaskGrows | crypto.go:38-47 | masking a piece from its own position continues the mask of the whole, wherever the split is |
| CtrCopy.RoundTripExactly | crypto.go:59-74 | decryption undoes encryption if and only if the counter block's single read delivers sixteen bytes |
| CtrCopy.CopyStream | crypto.go:33-56 | succeeds exactly if no read or write failed; for every splitting of the reads, success writes the whole masked rest and returns block size plus its length; failure has written a prefix of it |
| CtrCopy.CopyEncrypt | crypto.go:77-95 | fails only for a bad key size or a failing read or write; otherwise it has written the counter block and then, byte by byte, the plaintext under the key stream; the result is 16 plus the length |
| CtrCopy.CopyDecrypt | crypto.go:59-74 | decrypts under whatever counter block the single read gave; without a bad key or a failing read or write the only error is that this read delivered the end of the data |
| CtrCopy.EncryptThenDecrypt | crypto_test.go:9-35 | for any two ways of splitting the reads, two successful copies restore the plaintext, with both results its length plus 16, if and only if the counter block came whole |

## Left out

What the model assumes:

- Seeders are honest: they answer with `ReadChunk` of the file. `verifyChunk` and `verifyDownloadedFile` are never called on the download path, so nothing in the code checks this.
- SHA-1, AES and gob are parameters: a hash and a message encoding about which nothing is assumed, and a key stream indexed by position. Where a frame must decode, the encoding's length is assumed to be 1 byte to 17 MiB.
- Real time is absent from the download: a timeout is a step that may happen at any moment, sleeps are nothing. The tracker gets the current time, in seconds, with every call.
- DownloadLiveness.DownloadReturns: assumes a bound on failing workers and on connected peers, a main loop that finds its peer list empty only finitely often and then reconnects, and a scheduler that runs the main goroutine and every worker again. Reconnecting for ever is possible in the code.
- Failures of the disk, of a connection, of reads and of writes may happen at any time; each is counted where it happens, so that a contract can say that nothing else makes a call fail.
- The download's seeder step may leave a request unanswered for any reason; the limit of five handlers (`store.go:86-92`) is such a reason and is modelled exactly only in `Seeder.HandleChunkRequest`.

What is modelled more coarsely than the code does it:

- `DownloadFile` and `downloadChunk` are step systems on values, because their goroutines interleave; each access under a lock or to a channel is one step, and a handler call is two, its test and what follows. Adding to the wait group, taking a token, entering the piece as active and starting the goroutine are one step, as are registering a handler and sending the request.
- The network may hand a message to a single handler, any number of calls may be under way, and peers may leave the list at any time. Calling all handlers in order, one call at a time, and removing a peer only after an error, as the code does, are special cases (`DownloadSafety.BroadcastIsDeliveries`).
- After an error the peer may or may not leave the list: `server.go:291` deletes by the raw address while the map is keyed by the normalized one, so a peer on the IPv6 loopback address stays. Which it is, is left open.
- DownloadClient.ResponseHandler.Call: closing the handler in the middle of a call is not part of this method; `PassesTest` and `Put` separately, and the step system, allow for it.
- `GetNextPieces` writes statuses under a read lock; the call is one step here. One writer at a time per connection is assumed.
- The comparator of the batch order is partly random; its draws are a parameter, and rarest-first is claimed only when all of them fall to the priorities. In the download model the order of a batch is arbitrary.
- The peer sets inside the records and lists are values, not maps shared by reference.
- Integers are unbounded, apart from the 32-bit length of a frame. Negative chunk indices, which the code does not check, are absent.
- TrackerServer.TrackerServer.HandleGetPeers: the source copies the peer set after unlocking (`p2p/tracker.go:466-483`), so a concurrent call may change that set meanwhile; the answer is proved for a call that is not overtaken.
- Store.ReadChunk: the file does not change while it is shared, so its end is never reached early. The same holds for `ChunkAndStore` and `generateFileHashes`.
- Seeder.HandleChunkRequest: encoding a response does not fail.
- CtrCopy.Source.Read: a reader that returns zero bytes without an error is not modelled; `io.Reader` discourages it.
- Framing.Connection.Send: write deadlines are not modelled; a write may fail at any time.

What is not modelled:

- Sockets, UDP hole punching, UPnP, address filtering, HTTP and JSON, the command line and logging.
- The deferred deletion of a zero-size output file, which also deletes the correct output of an empty file; `completedPieces` and the progress estimate; `errorChan`, which nothing reads; `PieceInfo.Size`, which nothing sets.
- `HandleListFiles`, `StopSeedingFile`, announcement back-off, metadata files on disk and path transforms: easy, or for display.
- Two downloads of the same file running at once in one process.
