# A verified model of the file-sharing coordinator, its client data plane and its framing

The repository is a file-sharing system: a coordinator that keeps users' files in a table and spreads uploads
over storage nodes, storage nodes that hold the bytes, and a client that moves files to and from the nodes in
chunks. This project models, in Dafny, the four parts whose correctness depends on whole runs, and proves what
they keep.

| part | files | form |
|---|---|---|
| control-plane framing and the socket read loop | `Bytes`, `FrameCodec`, `SocketServer` | functions for the static codec; classes `FrameBuffer`, `SocketConnection` with their loops |
| data-plane framing | `DataPlaneFraming` | functions, `Socket` with short reads, loops of `_recv_exact` and `_length_prefixed` |
| resumable download and upload | `Chunks`, `Download*`, `UploadSpec`, `UploadProofs`, `UploadProgress`, `UploadEnds`, `UploadClient` | one function per call over an adversarial schedule; the client's loops as methods proved equal to it |
| storage-node registry and load balancer | `RegistrySpec`, `RegistryProofs`, `RegistryEffects`, `LoadBalance`, `StorageNodeRegistry` | a value model and its runs; classes `StorageNode` and `NodeRegistry` with shared node objects |
| upload lifecycle over the files table | `Lifecycle*`, `UploadSlots`, `ManifestCache`, `Coordinator` | a state machine of atomic handlers; the services as classes proved to take its steps |
| share-token accounting | `ShareTokens`, `ShareDownloads` | a protocol of interleaved statements; the handler as a method proved to take its steps |

How the parts fit: every method of a class states its whole new state as one step of the state machine beside it
(`View()` of the registry, `Snapshot` of database and registry, `Books()` of the token table). The invariants and
run theorems are about those steps, so they hold of what the methods do.

## Reading guide

* **Framing** (`SocketServer`). What a connection handles depends on the bytes and not on how they are cut. The drain
  loop catches ValueError only: a frame that raises anything else, such as the JSON scalar `5`, closes the connection,
  and the frames behind it are dropped (`ScalarFrameCloses`). A list of messages leaves the connection open, all of them
  handled, if and only if none of them does that (`MessagesSurviveFragmentation`).
* **Download** (`DownloadProofs`). The world may lose a connection anywhere, stop a write half way, kill the
  process, or answer anything. However the loop ends, the running hash covers `.part` except for the bytes of a last
  write cut short (`AttemptsCover`), and the target is replaced only by bytes of the expected digest
  (`TargetOnlyVerified`). With nodes that serve chunk i from offset i * chunkSize, `.part` stays
  a prefix of the content over any number of runs, for any files under one save path (`EveryRunIsCorrect`), and at
  most the missing chunks plus the failed attempts are requested. The sidecar must be written or trustworthy: the
  condition is exact (`UntrustedSidecarMisleads`). A file of size 0 cannot be downloaded with the plan of one chunk
  that the coordinator makes for it (`EmptyFileNeedsEmptyPlan`, an if-and-only-if).
* **Upload** (`UploadProofs`, `UploadProgress`). Under every schedule, with lost requests, lost answers and sessions
  that forget chunks, success means the node stores exactly the source file, and FINALIZE is never answered
  INCOMPLETE. Progress is conserved exactly when no index is sent twice.
* **Registry** (`RegistryProofs`, `LoadBalance`). One invariant over every run: both indexes agree, and a node's
  load counter is at most its live reservations. The agreement needs a connection to keep its node id, and exactly
  that (`RenameBreaksAgreement`).
* **Lifecycle** (`LifecycleRuns`, `LifecycleResults`, `LifecycleExamples`). Some properties hold in every run; three
  need something of the environment. Those three are claimed of a run only while each of its steps keeps the guard,
  and concrete runs show what happens without each guard.
  * One live row of a room and hash: the guard on completions is exact step by step (`CompletionKeepsUniqueExactly`),
    and runs that complete only UPLOADING rows meet it (`OneLiveRowWhenCompletingUploads`).
  * Manifest agreement: claimed node by node, from a node's full manifest until a delta of its own removes a READY
    row's hash; the guard is exact step by step (`DeltaKeepsAgreement`).
  * A node's load is at most its UPLOADING rows: the guard is that no reserved row is deleted, which is exact for the
    invariant behind it, that every slot stands on an UPLOADING row (`DeletionStrandsExactly`). It is sufficient but
    not necessary for the bound on the counter; the exact condition of a deletion for that bound is
    `DeletionKeepsBoundExactly`. Runs in which users delete no UPLOADING row meet the guard
    (`LoadIsBackedWhenNoUploadIsDeleted`).

  "DELETED is terminal" does not hold: `handle_upload_complete` sets READY without looking at the old status. A
  deleted row stays DELETED all through a run if and only if the run has no acceptable completion of it
  (`DeletedIsTerminalExactly`), acceptable being a condition on the state before the call.
* **Share tokens** (`ShareTokens`). For any interleaving of any number of requests, a token's count is delivered plans
  plus requests under way plus failed refunds. The handler's "unknown reason" is reachable: by a refund or the creation
  of the token between the two statements, or because the update uses the database's clock and the explanation the
  coordinator's, and the token expires between them. There is no other way (`UnknownReasonNeedsAChange`).

* **Effects** (`RegistryEffects`, `LifecycleEffects`, `DownloadResume`, `UploadEnds`, `ShareDownloads`). Beside the
  invariants, what each operation does and answers is stated of the data before and after it: every status change of
  every row under every event, every slot freed, every answer of INIT_UPLOAD and of a share download, which node is
  picked and why, what is resumed, retried and final.

## Assumptions

* Handlers of the coordinator are atomic steps, and each SQL statement is atomic. In `ShareTokens` every statement
  is its own step and requests interleave freely.
* Times, random samples, new ids, permissions, digests and the node's answers are inputs; theorems hold for all of
  them, within what random.sample and fresh ids guarantee (`Offered`, `Ordinary`).
* The storage node is the environment. Its session and store are modelled only as far as the client's claims need
  (`UploadSpec.Node`, `DownloadProofs.Honest`); the store is keyed by a hash without collisions.
* Encryption is the identity, the digest is an arbitrary function.

## Model

| member | source | states |
|---|---|---|
| Bytes.UnpackPack | coordinator-server/protocol/frame_codec.py:46-70 | every length below 2^32 survives the four big-endian header bytes |
| Bytes.NetworkByteOrder | coordinator-server/protocol/frame_codec.py:46-70 | the most significant byte of a length comes first |
| FrameCodec.DecodeEncoded | coordinator-server/protocol/frame_codec.py:24-112 | a frame followed by any bytes decodes to its message and exactly its length |
| FrameCodec.DrainAppend | coordinator-server/protocol/frame_codec.py:127-156 | draining two pieces one after the other is draining their concatenation, also when the decoder raises |
| FrameCodec.DrainEncoded | coordinator-server/protocol/frame_codec.py:24-156 | draining the encoding of a list of messages within the limit and an incomplete tail yields exactly that list and that tail |
| FrameCodec.DrainLosesNothing | coordinator-server/protocol/frame_codec.py:77-156 | re-encoding what was extracted and appending what stayed gives the bytes received |
| FrameCodec.ClientAgrees | coordinator-node/network/backend_client_sdk.py:53-118 | on any bytes the client's uncapped decoder never raises, starts with the server's frames, and equals the server's result exactly when the server did not raise |
| FrameCodec.ServerReadsClient | coordinator-node/network/backend_client_sdk.py:60-65 | the server encodes, and reads back from the client, exactly the messages up to 10 MiB, and raises otherwise |
| SocketServer.FragmentationIndependence | coordinator-server/protocol/socket_server.py:351-390 | for every way of cutting the bytes into reads, what a connection handled, whether it is open and what it keeps while open are a function of the bytes received, whatever the frames raise |
| SocketServer.MessagesSurviveFragmentation | coordinator-server/protocol/socket_server.py:351-390 | under any fragmentation the messages before the first one that raises something other than ValueError are handled, in order; the connection stays open, with all handled and only the incomplete frame left, if and only if none does |
| SocketServer.HandledInOrder | coordinator-server/protocol/socket_server.py:372-390 | what is handled is the frame at its place, dispatched or answered as an invalid message |
| SocketServer.ProcessKeepsLaterFrames | coordinator-server/protocol/socket_server.py:372-390 | after a frame that escapes the loop exactly the later frames are left to drain |
| SocketServer.ScalarFrameCloses | coordinator-server/protocol/message.py:78-79 | the frame of the JSON scalar 5 closes the connection and every message after it is dropped |
| SocketServer.OversizedMessageCloses | coordinator-server/protocol/frame_codec.py:69-72 | a message above the cap closes the connection at the latest; what came before it is handled up to the first message that escapes the loop, nothing after it |
| SocketServer.FrameBuffer.ExtractFrame | coordinator-server/protocol/frame_codec.py:136-156 | takes one frame off the buffer, or leaves the buffer as it is |
| SocketServer.SocketConnection.ProcessBuffer | coordinator-server/protocol/socket_server.py:372-390 | the loop ends; it handles complete frames in order and leaves the rest, and raises at an oversized header or at a frame that raises anything but ValueError, which is gone from the buffer |
| SocketServer.SocketConnection.HandleClientData | coordinator-server/protocol/socket_server.py:333-370 | the read loop takes the connection to the state after all reads, closing on end of stream or on any exception of the drain loop |
| DataPlaneFraming.FrameLayout | coordinator-node/network/storage_node_data_plane.py:131-139 | the bytes of a frame are header length, header, data length and data; it can be sent exactly when both lengths fit four bytes |
| DataPlaneFraming.ParseSent | coordinator-node/network/storage_node_data_plane.py:131-148 | a sent frame followed by any bytes is parsed back, leaving those bytes |
| DataPlaneFraming.TruncatedFrameIsLost | coordinator-node/network/storage_node_data_plane.py:120-148 | a frame cut anywhere before its end is never parsed as a frame |
| DataPlaneFraming.FramesRoundTrip | coordinator-node/network/storage_node_data_plane.py:131-148 | any sequence of sent frames is received exactly, in order, leaving what follows |
| DataPlaneFraming.RecvExact | coordinator-node/network/storage_node_data_plane.py:120-128 | whatever the short reads, the loop returns exactly the next bytes of the stream or reports its end |
| DataPlaneFraming.RecvFrame | coordinator-node/network/storage_node_data_plane.py:142-148 | under any short reads the frame received is the one the stream parses to |
| DataPlaneFraming.BuildLengthPrefixed | coordinator-node/network/storage_node_data_plane.py:172-178 | the loop builds the encoding, and fails exactly when a part is 2^32 bytes or longer |
| DataPlaneFraming.LengthPrefixedInjective | coordinator-node/network/storage_node_data_plane.py:172-178 | two lists encode equally if and only if they have the same parts, None counting as empty |
| Chunks.JoinAll | coordinator-node/network/storage_node_data_plane.py:350-355 | the chunks of a file, in order, concatenate to the file |
| DownloadProofs.AttemptsCover | coordinator-node/network/storage_node_data_plane.py:587-718 | whatever the node sends and however the loop ends, the hasher holds .part but for the bytes of a last write cut short, the byte count is what was hashed, and when done it is all of .part |
| DownloadProofs.TargetOnlyVerified | coordinator-node/network/storage_node_data_plane.py:747-763 | target changes only on success, to bytes of the reported size with the expected digest; a mismatch removes .part and sidecar and leaves target alone |
| DownloadProofs.HonestRun | coordinator-node/network/storage_node_data_plane.py:554-763 | with an honest node: no mismatch, success leaves the content, .part is a prefix, requests are at most the chunks missing from the .part it resumes plus failed attempts |
| DownloadProofs.EveryRunIsCorrect | coordinator-node/network/storage_node_data_plane.py:556-756 | for the i-th of any sequence of runs for any files under one save path: no mismatch, success leaves the content and reports its size, .part is a prefix, and the same bound on requests |
| DownloadProofs.UntrustedSidecarMisleads | coordinator-node/network/storage_node_data_plane.py:568-579 | when the sidecar is not written, the condition on a leftover sidecar is exact: otherwise one process death leaves a .part its sidecar misdescribes |
| DownloadProofs.DyingOpening | coordinator-node/network/storage_node_data_plane.py:690-696 | such a session exists for every file: all chunks served, the process gone while the last one is written |
| DownloadProofs.HealthyConnectionFinishes | coordinator-node/network/storage_node_data_plane.py:719-745 | after any transient failures one healthy connection within the attempt limit finishes the download |
| DownloadProofs.EmptyFileNeedsEmptyPlan | coordinator-server/upload/upload_service.py:232 | an empty file downloads if and only if its plan has no chunks; the coordinator plans one |
| DownloadResume.FittingPartIsResumed | coordinator-node/network/storage_node_data_plane.py:556-608 | a .part whose sidecar names this file and chunk size is resumed: at most its missing chunks plus failed attempts are requested, and an unfinished run leaves at least its whole chunks |
| DownloadResume.StalePartIsDiscarded | coordinator-node/network/storage_node_data_plane.py:556-576 | a .part whose sidecar is missing or names another file or chunk size counts for nothing |
| DownloadResume.UnfinishedRunIsResumable | coordinator-node/network/storage_node_data_plane.py:577-585 | an unfinished run that could write its sidecar leaves one that names this file and chunk size |
| DownloadResume.RunsTogetherResume | coordinator-node/network/storage_node_data_plane.py:556-745 | however often the program is started again, all runs of a plan up to success together request at most the chunks missing at the start plus one for each failed attempt |
| DownloadResume.OversizedPartIsReset | coordinator-node/network/storage_node_data_plane.py:640-659 | a .part longer than the reported size, or with more chunks than reported when no size is known, is started again from nothing |
| DownloadResume.FittingPartIsContinued | coordinator-node/network/storage_node_data_plane.py:587-669 | any other .part is kept to its last whole chunk, hashed, and continued from that chunk with the node's totals |
| DownloadResume.FirstGapDecides | coordinator-node/network/storage_node_data_plane.py:669-716 | the first chunk that does not arrive ends the attempt: a lost connection or a short write is retried, a wrong answer or hash is final |
| DownloadResume.AttemptsAreCounted | coordinator-node/network/storage_node_data_plane.py:719-745 | connections that fail are retried up to max(1, max_attempts) times; a rejected session or unknown host ends the call at once; no chunk is requested |
| DownloadClient.Downloader.RealignAndRehash | coordinator-node/network/storage_node_data_plane.py:587-608 | truncates .part in place to a chunk boundary and feeds the hasher exactly what is kept |
| DownloadClient.Downloader.FetchChunks | coordinator-node/network/storage_node_data_plane.py:669-716 | the chunk loop appends verified chunks to file and hasher, and stops as the reply or the write fails |
| DownloadClient.Downloader.TryOnce | coordinator-node/network/storage_node_data_plane.py:587-718 | one attempt: realign, adopt the node's totals, reset an oversized .part, fetch |
| DownloadClient.Downloader.RetryUntilDone | coordinator-node/network/storage_node_data_plane.py:719-745 | the retry loop makes at most the configured attempts and stops at a fatal answer |
| DownloadClient.Downloader.DownloadFile | coordinator-node/network/storage_node_data_plane.py:528-763 | the whole call equals the run the theorems speak of, files, outcome and request count |
| UploadProofs.CompleteSessionIsTheFile | coordinator-node/network/storage_node_data_plane.py:346-359 | a session holding the file's chunk at every index assembles to the source file |
| UploadProofs.AttemptIsSound | coordinator-node/network/storage_node_data_plane.py:379-496 | one attempt keeps the session's chunks true, stores only the file, and wastes at most one frame |
| UploadProofs.UploadStoresTheFile | coordinator-node/network/storage_node_data_plane.py:331-525 | under every schedule success means the node stores exactly the file, and FINALIZE is never refused as incomplete or mismatched |
| UploadProofs.UploadRetransmissionBound | coordinator-node/network/storage_node_data_plane.py:421-429 | while the node forgets nothing, UPLOAD_CHUNK frames are at most the chunks missing plus the failed attempts |
| UploadProofs.HealthyConnectionCompletes | coordinator-node/network/storage_node_data_plane.py:498-525 | after any losses one healthy connection within the limit completes the upload |
| UploadEnds.HealthyUploadStoresTheFile | coordinator-node/network/storage_node_data_plane.py:331-525 | with a planned chunk size that is the node's, one healthy connection within max(1, max_attempts) stores exactly the source file, after any losses |
| UploadEnds.UploadRunIsSound | coordinator-node/network/storage_node_data_plane.py:346-355 | a negative planned chunk size is the only error without an attempt, a missing one is 524288, and success means the node stores the file |
| UploadEnds.UploadAttemptsAreCounted | coordinator-node/network/storage_node_data_plane.py:498-525 | connections lost before a session are retried up to the limit; an unknown host, a refused handshake or session, or another chunk size ends the call at once with its reason; no chunk is sent |
| UploadEnds.StoredContentIsNotSent | coordinator-node/network/storage_node_data_plane.py:390-408 | a node that stores the content already ends the upload as deduplicated, with nothing sent |
| UploadEnds.FirstLossDecides | coordinator-node/network/storage_node_data_plane.py:449-485 | the first chunk that is not acknowledged ends the attempt, retried when lost and final when refused; the session has gained exactly the chunks before it, and it too if only its answer was lost |
| UploadEnds.NewUploadFillsInOrder | coordinator-node/network/storage_node_data_plane.py:421-470 | a new upload sends the chunks in the order of the file |
| UploadEnds.FinalizeEnds | coordinator-node/network/storage_node_data_plane.py:487-496 | FINALIZE of a complete session is retried when lost, final when refused, and completes when answered |
| UploadProgress.BytesConservedIffDistinct | coordinator-node/network/storage_node_data_plane.py:437-485 | bytes held plus lengths sent equal the file size if and only if no index repeats, and never fall short |
| UploadProgress.ClampIsIdle | coordinator-node/network/storage_node_data_plane.py:472-485 | for distinct indexes the min clamp never changes the byte count |
| UploadProgress.ProgressEndsFull | coordinator-node/network/storage_node_data_plane.py:437-485 | the counters stay within the file and end at its size and its number of chunks when every chunk was acknowledged |
| UploadProgress.CompletedProgressIsFull | coordinator-node/network/storage_node_data_plane.py:437-496 | against the node, a completed attempt reports the whole file |
| UploadClient.SumHeld | coordinator-node/network/storage_node_data_plane.py:441-447 | the loop sums the real lengths of the chunks already held |
| UploadClient.SendChunks | coordinator-node/network/storage_node_data_plane.py:449-485 | the sending loop takes the steps of the schedule until one stops it |
| UploadClient.UploadFile | coordinator-node/network/storage_node_data_plane.py:331-525 | the whole call equals the run the theorems speak of, for every planned chunk size |
| RegistryProofs.AuthenticateKeeps | coordinator-server/storage_node/registry.py:104-139 | authentication on a connection that keeps its id keeps the invariant |
| RegistryProofs.RenameBreaksAgreement | coordinator-server/storage_node/registry.py:104-139 | authentication keeps the indexes in agreement if and only if the connection keeps its id |
| RegistryProofs.LateDisconnectIsHarmless | coordinator-server/storage_node/registry.py:124-146 | after a takeover, closing the replaced connection changes nothing |
| RegistryProofs.DropOneMore | coordinator-server/storage_node/registry.py:309-319 | releasing reservations one by one, in any order, is releasing them together |
| RegistryProofs.ReserveKeeps | coordinator-server/storage_node/registry.py:240-255 | reserving replaces an earlier reservation of the id, adds one slot to the node alone, and lets no deficit grow |
| RegistryProofs.SelectReservations | coordinator-server/storage_node/registry.py:218-257 | after a selection exactly the expired reservations are gone and the new one is on the picked node |
| RegistryProofs.StepKeeps | coordinator-server/storage_node/registry.py:98-391 | every operation keeps: indexes agree, entries are of their own connection, load at most live reservations |
| RegistryProofs.RunsFromEmpty | coordinator-server/storage_node/registry.py:98-319 | so in every run from the empty registry |
| RegistryProofs.DeficitNeverGrows | coordinator-server/storage_node/registry.py:104-319 | the gap between reservations and load is set only by a takeover of the id, never grows otherwise, and is zero once the reservations drain |
| RegistryEffects.PickedMayTake | coordinator-server/storage_node/registry.py:220-231 | a node is picked exactly when one is authenticated, heard of within the timeout, has an address and enough room, and then such a one |
| RegistryEffects.PickIsTheBetter | coordinator-server/storage_node/registry.py:233-307 | of the two nodes drawn the pick has the lower load once expired slots are gone, then the more free bytes, an unreported capacity counting as unlimited, then the smaller id |
| RegistryEffects.BeforeIsLess | coordinator-server/storage_node/registry.py:296-307 | ids are compared lexicographically |
| RegistryEffects.ReservationsAfterSelect | coordinator-server/storage_node/registry.py:218-255 | a selection drops exactly the reservations whose time has come, and adds its own until now plus the lifetime |
| RegistryEffects.ReleaseUndoesSelect | coordinator-server/storage_node/registry.py:240-280 | releasing a slot just reserved under a new id leaves the registry as the reap left it |
| RegistryEffects.AuthenticatedNode | coordinator-server/storage_node/registry.py:104-139 | after authentication the id leads to the connection's entry with the given address, heard of now, without a manifest |
| RegistryEffects.AuthenticationTouchesOneNode | coordinator-server/storage_node/registry.py:104-139 | no other id is affected |
| RegistryEffects.HeartbeatRenews | coordinator-server/storage_node/registry.py:148-164 | a heartbeat makes its node healthy until the timeout from now, and keeps a capacity it does not report |
| RegistryEffects.CapacityIsRecorded | coordinator-server/storage_node/registry.py:166-180 | a capacity that is not negative is recorded for its node, and nothing else changes |
| RegistryEffects.DisconnectForgets | coordinator-server/storage_node/registry.py:141-146 | closing forgets exactly the connection and the id it was authenticated under |
| RegistryEffects.HasFileExactly | coordinator-server/storage_node/registry.py:393-410 | a node has a file when it is healthy and its manifest, if received, lists the hash |
| RegistryEffects.NormalizeDropsSpaceAndCase | coordinator-server/storage_node/registry.py:13-17 | white space around a hash is dropped and its letters lowered, and nothing else |
| LoadBalance.BumpKeepsBalance | coordinator-server/storage_node/registry.py:233-238 | giving a slot to the lighter of two nodes keeps every node within one slot of another, whatever the loads |
| LoadBalance.SelectionBumps | coordinator-server/storage_node/registry.py:228-257 | a reserving selection adds one slot to a node no heavier than the other one drawn, and to no other |
| LoadBalance.SelectionStaysSteady | coordinator-server/storage_node/registry.py:228-257 | selections with new ids can follow each other without end over the same eligible nodes |
| LoadBalance.NoNodeLeadsByMoreThanOne | coordinator-server/storage_node/registry.py:228-257 | from zero load, after n selections and whatever pairs were drawn, no node leads all others by two and none holds more than (n + 1) / 2 |
| StorageNodeRegistry.NodeRegistry.AddConnection | coordinator-server/storage_node/registry.py:98-102 | adds a fresh node object for the connection |
| StorageNodeRegistry.NodeRegistry.Authenticate | coordinator-server/storage_node/registry.py:104-139 | takes the authentication step on the shared objects of both indexes |
| StorageNodeRegistry.NodeRegistry.RemoveConnection | coordinator-server/storage_node/registry.py:141-146 | removes the connection, and the id only if it still leads to the same object |
| StorageNodeRegistry.NodeRegistry.Heartbeat | coordinator-server/storage_node/registry.py:148-164 | refreshes one node's ping time, and its free bytes only when reported |
| StorageNodeRegistry.NodeRegistry.UpdateCapacity | coordinator-server/storage_node/registry.py:166-180 | sets the free bytes of one node, ignoring negative reports |
| StorageNodeRegistry.NodeRegistry.ReapExpired | coordinator-server/storage_node/registry.py:309-319 | the loop drops exactly the expired reservations, in whatever order, each taking one slot from its node |
| StorageNodeRegistry.NodeRegistry.SelectForUpload | coordinator-server/storage_node/registry.py:202-257 | reaps, picks the better of two drawn nodes and reserves there; None when no node is eligible |
| StorageNodeRegistry.NodeRegistry.ReleaseReservation | coordinator-server/storage_node/registry.py:259-280 | frees the slot if it is reserved and says so; otherwise changes nothing |
| StorageNodeRegistry.NodeRegistry.SetManifest | coordinator-server/storage_node/registry.py:343-359 | replaces the node's cached hashes by the normalized list |
| StorageNodeRegistry.NodeRegistry.ApplyManifestDelta | coordinator-server/storage_node/registry.py:361-381 | adds, then removes; a hash in both lists ends removed |
| StorageNodeRegistry.NodeRegistry.MarkFileAdded | coordinator-server/storage_node/registry.py:383-391 | adds one normalized hash to the node's cache |
| StorageNodeRegistry.NodeRegistry.NodeHasFile | coordinator-server/storage_node/registry.py:393-410 | true for a healthy node without a manifest, otherwise membership |
| ManifestCache.NormalizeTwice | coordinator-server/storage_node/registry.py:13-17 | stripping and lower-casing a hash twice is doing it once |
| ManifestCache.ReconcileEstablishes | coordinator-server/storage_node/storage_node_server.py:345-359 | a full manifest with reconciliation puts every READY row of the node into the cache, whatever was cached before |
| ManifestCache.DeltaKeepsAgreement | coordinator-server/storage_node/storage_node_server.py:637-716 | a manifest delta keeps a set of nodes in agreement if and only if its node is outside the set or it removes no READY row's hash |
| ManifestCache.CompletionKeepsAgreement | coordinator-server/storage_node/storage_node_server.py:536-548 | the implicit manifest add keeps agreement when a row becomes READY |
| ManifestCache.AddedFile | coordinator-server/storage_node/registry.py:383-391 | the implicit add adds one hash to what is known of one node |
| ManifestCache.NotOnNodeExactly | coordinator-server/download/download_service.py:55-71 | a READY row's download is refused as not on its node if and only if the node can be reached and the row is not in its received manifest, or has a blank hash |
| ManifestCache.ServedExactly | coordinator-server/download/download_service.py:55-71 | when a row is served and from which address, and when its node is unavailable, in terms of the registry's entries |
| ManifestCache.ShareableIsServed | coordinator-server/upload/upload_service.py:94-129 | a row can be shared by a new upload exactly when a download of it would be served from an address, and from that one |
| ManifestCache.ReadyRowsAreServed | coordinator-server/download/download_service.py:55-71 | under agreement a READY row's download gets an address or an unavailable node, never "not on node" |
| UploadSlots.DeletedSlotsInProgress | coordinator-server/file/file_service.py:282-286 | a user's deletion keeps every slot on an UPLOADING row if and only if the deleted row's slot is not reserved |
| UploadSlots.CleanedSlots | coordinator-server/cleanup/cleanup_service.py:78-109 | cleanup frees the slot of every row it deletes |
| UploadSlots.LoadAtMostUploading | coordinator-server/upload/upload_service.py:297-329 | with slots on UPLOADING rows only, a node's load is at most its UPLOADING rows |
| LifecycleTable.VersionsAreExact | coordinator-server/upload/upload_service.py:379-406 | numbered rows have the versions 1 to n of their room and name, each once |
| LifecycleTable.ReadyKeepsUnique | coordinator-server/upload/upload_service.py:553-557 | making a row READY keeps one live row per room and hash if and only if no other live row is in its way |
| LifecycleTable.OriginatedShared | coordinator-server/upload/upload_service.py:235-256 | a deduplicated row inherits the origin of the READY row it shares, whose completion is on record |
| LifecycleRuns.StepKeepsTable | coordinator-server/upload/upload_service.py:154-762 | every event keeps ids distinct, versions gapless, origins and, under its guard, uniqueness |
| LifecycleRuns.StepKeepsSlots | coordinator-server/upload/upload_service.py:139-152 | every event keeps each reservation on an unfinished row of its node, and on an UPLOADING row under the guard |
| LifecycleRuns.StepKeepsCache | coordinator-server/storage_node/storage_node_server.py:201-716 | every event but a removing delta of the node itself keeps that node's cache in agreement with its READY rows |
| LifecycleRuns.StepKeepsRegistry | coordinator-server/storage_node/storage_node_server.py:156-716 | every event keeps the registry's invariant |
| LifecycleRuns.AcceptedExactly | coordinator-server/storage_node/storage_node_server.py:500-548 | a completion is accepted if and only if the connection is authenticated, the fields are there, and the row exists, is not another node's and has the reported hash |
| LifecycleRuns.FullManifestRestores | coordinator-server/storage_node/storage_node_server.py:345-359 | authentication with a full manifest adds its node to those whose cache agrees, whatever was unlisted before |
| LifecycleRuns.EveryRunIsSound | coordinator-server/upload/upload_service.py:154-762 | all of these hold after every run from the empty coordinator |
| LifecycleResults.ReservationsHaveUnfinishedRows | coordinator-server/upload/upload_service.py:297-329 | in every run a live reservation is keyed by a row on the same node that is UPLOADING or DELETED |
| LifecycleResults.LoadIsBackedByUploads | coordinator-server/upload/upload_service.py:475-478 | while users delete no row whose slot is reserved, a node's active uploads are at most its UPLOADING rows |
| LifecycleResults.DeletionStrandsExactly | coordinator-server/file/file_service.py:282-286 | a deletion keeps every slot on an UPLOADING row if and only if it is of no reserved row; rows that are not UPLOADING are none |
| LifecycleResults.DeletionKeepsBoundExactly | coordinator-server/file/file_service.py:282-286 | where a node's load is at most its UPLOADING rows, a deletion keeps it so if and only if it does not delete an UPLOADING row of a node at its bound |
| LifecycleResults.LoadIsBackedWhenNoUploadIsDeleted | coordinator-server/file/file_service.py:282-286 | in runs in which users delete no UPLOADING row, active uploads are at most the node's UPLOADING rows |
| LifecycleResults.OneLiveRowPerRoomAndHash | coordinator-server/upload/dedup_checker.py:113-137 | while completions do not intrude, no run has two live rows of one room and hash |
| LifecycleResults.UploadingRowsDoNotIntrude | coordinator-server/upload/upload_service.py:210-218 | completions delivered only for UPLOADING rows never intrude |
| LifecycleResults.CompletionKeepsUniqueExactly | coordinator-server/upload/upload_service.py:553-557 | a completion keeps one live row per room and hash if and only if it is not acceptable, or no other live row of the room has the hash |
| LifecycleResults.OneLiveRowWhenCompletingUploads | coordinator-server/upload/dedup_checker.py:113-137 | in runs that complete only UPLOADING rows, no room has two live rows of one hash |
| LifecycleResults.DeletedStaysExactly | coordinator-server/upload/upload_service.py:553-557 | a completion leaves a DELETED row as it is if and only if it is not acceptable; otherwise the row becomes READY |
| LifecycleResults.StepKeepsDeletedExactly | coordinator-server/upload/upload_service.py:154-762 | of all events only an acceptable completion of the row itself ends DELETED |
| LifecycleResults.DeletedIsTerminalExactly | coordinator-server/upload/upload_service.py:553-557 | a deleted row stays DELETED all through a run if and only if no event of the run is an acceptable completion of it |
| LifecycleResults.VersionsAfterAnyRun | coordinator-server/upload/upload_service.py:228-256 | after any run the versions of a room and name are exactly 1 to n, rising with insertion |
| LifecycleResults.ProvenanceAfterAnyRun | coordinator-server/upload/upload_service.py:222-256 | every row has an origin row with the canonical name, the same hash and node, completed with that hash if the row is READY or shared |
| LifecycleResults.SharingFollowsCompletion | coordinator-server/upload/upload_service.py:262-279 | in the history of successful uploads each sharing comes after the completion of its origin with the same hash |
| LifecycleResults.CompletionsAreRecorded | coordinator-server/upload/upload_service.py:512-590 | a completion enters the history if and only if its row became READY with the reported hash; any other report only deletes |
| LifecycleResults.DownloadsFindReadyFiles | coordinator-server/download/download_service.py:55-71 | while a node's own deltas unlist no READY row, no run lets a download of a READY row on it be refused as not on its node |
| LifecycleResults.ManifestRestoresDownloads | coordinator-server/storage_node/storage_node_server.py:345-359 | after any run, from a node's next full manifest until a delta of its own unlists a READY row, its READY rows are never refused as not on it |
| LifecycleResults.OldestServableRowIsShared | coordinator-server/upload/upload_service.py:111-129 | the row shared is the oldest READY row of the hash whose node can serve it |
| LifecycleEffects.EveryStatusChange | coordinator-server/upload/upload_service.py:154-762 | for every event and every row, which status it has afterwards, as a condition on the state before; nothing else of a row ever changes |
| LifecycleEffects.AuthStatus | coordinator-server/storage_node/reconciliation_service.py:35-67 | a manifest marks MISSING exactly the node's READY rows with a hash that it does not list |
| LifecycleEffects.EveryFreedSlot | coordinator-server/upload/upload_service.py:139-152 | reports free the slot of their row whatever they find, cleanup those of the rows it deletes, and no other slot changes |
| LifecycleEffects.ReportsNeedAuthentication | coordinator-server/storage_node/storage_node_server.py:482-716 | reports count only from an authenticated connection, as its node's; others change nothing |
| LifecycleEffects.CompletionRefused | coordinator-server/storage_node/storage_node_server.py:500-548 | a completion that lacks a field, or has no row, and only such, is answered so |
| LifecycleEffects.CompletionAnswers | coordinator-server/upload/upload_service.py:478-557 | otherwise the answer is the first of node mismatch, hash mismatch and acceptance that holds |
| LifecycleEffects.CompletionLists | coordinator-server/storage_node/storage_node_server.py:544-548 | an accepted completion lists the hash on the reporter and on no other node |
| LifecycleEffects.FailureAnswers | coordinator-server/upload/upload_service.py:614-705 | a failure report is accepted exactly from a node the row may be reported by |
| LifecycleEffects.DeltaAnswers | coordinator-server/storage_node/storage_node_server.py:637-716 | a delta is accepted when both fields can be read as lists, and adds, then removes, on its own node |
| LifecycleEffects.AuthenticationNeedsTheSecret | coordinator-server/storage_node/storage_node_server.py:201-290 | which answer each secret and data port gets |
| LifecycleEffects.NodeAfterAuth | coordinator-server/storage_node/storage_node_server.py:290-359 | what the registry knows of a node after it authenticated: address, time, capacity, manifest |
| LifecycleEffects.PingRenews | coordinator-server/storage_node/storage_node_server.py:369-419 | a ping renews its own node only, and does nothing from an unknown connection |
| LifecycleEffects.InitRejects | coordinator-server/upload/upload_service.py:195-218 | permission, then fields, then a live duplicate in the room: each rejection exactly under its condition, changing nothing |
| LifecycleEffects.SharedExactly | coordinator-server/upload/dedup_checker.py:75-111 | a row is shared exactly when one of the first twenty READY rows of the hash can be served |
| LifecycleEffects.InitShares | coordinator-server/upload/upload_service.py:220-295 | the request becomes a READY row with the stored name and node of the oldest such row, answered with its node and address |
| LifecycleEffects.InitStarts | coordinator-server/upload/upload_service.py:297-372 | otherwise an UPLOADING row on the node picked, its slot reserved there for the lifetime, and the node's id and address in the answer |
| LifecycleEffects.InitLeavesNothing | coordinator-server/upload/upload_service.py:297-331 | with no node for the upload, or a failed insert, no row and no slot of it remain |
| LifecycleExamples.DeletionLeavesALoad | coordinator-server/file/file_service.py:282-286 | the concrete run: an upload deleted under way leaves load 1 and no UPLOADING row |
| LifecycleExamples.LateCompletionCollides | coordinator-server/upload/upload_service.py:553-557 | the concrete run: the late completion of a deleted upload makes two live rows of one room and hash |
| LifecycleExamples.TheStateIsReached | coordinator-server/upload/upload_service.py:154-762 | a run from the empty coordinator reaches the state before it |
| LifecycleExamples.DeltaHidesAReadyFile | coordinator-server/storage_node/storage_node_server.py:637-716 | the concrete run: a delta removes the hash of a READY row, and its download, served before, is refused as not on its node |
| LifecycleExamples.TheUnlistedStateIsReached | coordinator-server/upload/upload_service.py:154-762 | a run from the empty coordinator reaches that state |
| Coordinator.UploadService.PickReusableDedup | coordinator-server/upload/upload_service.py:94-129 | the loop returns the first candidate that can be served, by its node or, without a node, by a legacy address that is not empty |
| Coordinator.UploadService.CalculateNextVersion | coordinator-server/upload/upload_service.py:379-406 | one more than the highest version of the room and name |
| Coordinator.UploadService.HandleInitUpload | coordinator-server/upload/upload_service.py:154-377 | takes the INIT_UPLOAD step and gives its result, including rejections, no node, and a failed insert that frees its slot |
| Coordinator.UploadService.HandleUploadComplete | coordinator-server/upload/upload_service.py:408-612 | frees the slot first; unknown file, node mismatch, hash mismatch or READY |
| Coordinator.UploadService.HandleUploadFailed | coordinator-server/upload/upload_service.py:614-762 | frees the slot; deletes the row unless another node reports |
| Coordinator.ReconciliationService.ReconcileNode | coordinator-server/storage_node/reconciliation_service.py:22-80 | the two loops mark exactly the node's READY rows missing from the manifest, and return their ids |
| Coordinator.CleanupService.CleanupOrphanedUploads | coordinator-server/cleanup/cleanup_service.py:68-121 | deletes the old UPLOADING rows, then frees their slots one by one, and returns how many rows it deleted |
| Coordinator.FileService.DeleteFile | coordinator-server/file/file_service.py:235-334 | sets an existing row DELETED for a permitted user, whatever its status |
| Coordinator.StorageNodeServer.HandleStorageAuth | coordinator-server/storage_node/storage_node_server.py:201-367 | refuses a missing secret, a wrong one and an unreadable data port, in that order, changing nothing; otherwise authenticates, takes the capacity and the manifest, and reconciles |
| Coordinator.StorageNodeServer.HandlePing | coordinator-server/storage_node/storage_node_server.py:369-419 | a heartbeat of an authenticated connection; nothing for others |
| Coordinator.StorageNodeServer.HandleUploadComplete | coordinator-server/storage_node/storage_node_server.py:482-563 | checks the reporter and the payload, completes, and adds the hash on success only |
| Coordinator.StorageNodeServer.HandleUploadFailed | coordinator-server/storage_node/storage_node_server.py:565-635 | checks the reporter and the payload, then fails the row |
| Coordinator.StorageNodeServer.HandleManifestDelta | coordinator-server/storage_node/storage_node_server.py:637-716 | refuses unknown reporters and fields that are not lists; otherwise applies the delta to the reporter's cache only |
| ShareTokens.RefundIsNeverBlocked | coordinator-server/download/download_service.py:81-99 | the guard of a refund passes for every pending request |
| ShareTokens.StepKeeps | coordinator-server/download/download_service.py:375-529 | every statement keeps each count equal to the slots held, within the token's limit |
| ShareTokens.ConsumesExactly | coordinator-server/download/download_service.py:377-391 | the conditional update takes one slot exactly from an existing, unexpired token of this file with slots left; otherwise no token changes |
| ShareTokens.EverySlotIsAccountedFor | coordinator-server/download/download_service.py:350-529 | in any interleaving, count is delivered plus pending plus failed refunds, and delivered is at most max_downloads |
| ShareTokens.CreatedLimitHolds | coordinator-server/download/download_service.py:300-322 | from its creation on a token keeps its file, limit and expiry, and delivers at most that many plans |
| ShareTokens.SettledStays | coordinator-server/download/download_service.py:430-529 | a request that delivered, refunded or was refused never moves again, so a slot is refunded at most once |
| ShareTokens.CountFallsByRefunds | coordinator-server/download/download_service.py:81-99 | a count falls only by one refund ending a pending request, and rises only by one consumption |
| ShareTokens.ExplanationIsExact | coordinator-server/download/download_service.py:394-424 | expired and exhausted are reported exactly when they hold at the query, in that order; invalid for a missing token, another file, or the unknown reason, a token that can be consumed by then |
| ShareTokens.UnknownReasonNeedsAChange | coordinator-server/download/download_service.py:377-424 | after a failed update the unknown reason needs a refund or the creation of the token in between, or an expiry between the coordinator's clock and the database's; with one clock the last is impossible |
| ShareTokens.UnknownAtOnceExactly | coordinator-server/download/download_service.py:377-424 | with nothing in between, the unknown reason is met if and only if the token expires between the two clocks and is otherwise in order |
| ShareTokens.CreationReachesUnknown | coordinator-server/download/download_service.py:377-424 | a token created between the two statements leads to the unknown reason |
| ShareDownloads.ServeKeepsAccounts | coordinator-server/download/download_service.py:350-529 | a whole request settles, keeps the books, and answers a plan if and only if the slot is delivered |
| ShareDownloads.AnswersExactly | coordinator-server/download/download_service.py:377-529 | who is refused and with which code, and who is answered by the state of the file: a plan needs a token of this file, not used up and unexpired |
| ShareDownloads.PlansExactly | coordinator-server/download/download_service.py:430-520 | a request with a slot gets a plan exactly for a READY file that is served, with the address it is served from |
| ShareDownloads.RefusalsExactly | coordinator-server/download/download_service.py:430-466 | which reason each other request with a slot gets |
| ShareDownloads.FailedRequestsAreFree | coordinator-server/download/download_service.py:430-529 | unless the refund fails, a request leaves the tokens as they were if and only if it gets no plan |
| ShareDownloads.ReadySharesAreOnTheirNode | coordinator-server/download/download_service.py:447-457 | with an agreeing manifest cache a slot is never spent to find a READY file missing on its node |
| ShareDownloads.DownloadService.CreateShareToken | coordinator-server/download/download_service.py:251-348 | adds a token with count 0 for an existing file and a permitted user |
| ShareDownloads.DownloadService.RefundShareDownload | coordinator-server/download/download_service.py:81-99 | takes the refund step, or the failed refund |
| ShareDownloads.DownloadService.HandleInitDownloadShare | coordinator-server/download/download_service.py:350-529 | takes the steps of a whole request and gives its answer |

## Left out

- The user interface, dialogs, workers, settings and fonts: presentation only.
- Real sockets, TLS, threads, selectors, Redis, PostgreSQL, migrations, configuration and logging: the tables and maps they hold are modelled, the plumbing is not.
- SHA-256, HMAC, AES-GCM, key exchange and bcrypt: library calls; the digest is an arbitrary function and encryption the identity.
- The Java storage node: used as the environment of the client only; its chunk store, antivirus and control connection are not part of this model.
- JSON headers of data-plane frames: carried as bytes, so malformed JSON is not modelled.
- Message parsing on the control plane: what becomes of a frame is an arbitrary function of the frame and its place, with the three outcomes the loop distinguishes.
- Columns of a file row that only travel with it (size, MIME type, uploader, chunk count and size), and the tickets of a plan.
- Permission rules, sessions, rooms and members: a permission is an input of the step it guards.
- Database errors other than a failed insert, a failed ticket and, for share tokens, each failing statement; a statement that commits but whose answer is lost is not modelled.
- The registry without nodes configured (legacy single address): only rows without a node use the legacy address.
- The counters mark_upload_started and mark_upload_finished of older registries, and listing methods.
- The health-check loop of the node server: it only logs and audits.
- `DOWNLOAD_COMPLETE` signals, progress callbacks, retry sleeps, host overrides and address formatting.
- `file_service.calculate_next_version`, which counts only READY and UPLOADING rows and is not what INIT_UPLOAD uses.
- Failure entries of the audit log, and notifications: only a history of successful uploads is kept.
- LifecycleResults.SharingFollowsCompletion: the history holds stored names and hashes for the proofs; the audit log has an entry in each place but not those fields.
- LifecycleResults.CompletionsAreRecorded: the same; the audit log's SUCCESS entry does not hold the hash.
- LifecycleResults.LoadIsBackedByUploads: the guard is sufficient for the bound, not necessary; what one deletion does to the bound is exact in LifecycleResults.DeletionKeepsBoundExactly.
- A share token's row id and its token string are one name, as both are unique.
- ManifestCache.NormalizeTwice: lower-casing and white space are those of ASCII; other alphabets do not occur in hexadecimal hashes.
- UploadProofs.HealthyConnectionCompletes: assumes that the plan's chunk size is the node's, which the client checks and otherwise refuses.
- DownloadProofs.HonestRun: assumes that the node serves chunks of the plan's chunk size; download_file does not compare them.
- LoadBalance.NoNodeLeadsByMoreThanOne: speaks of selections only; releases, expiry and changes of the eligible set may unbalance the loads.
- Coordinator.CleanupService.CleanupOrphanedUploads: the cutoff, 35 minutes before now, is an input.
