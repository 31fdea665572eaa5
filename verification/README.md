# NanoTorrent, modelled and proved in Dafny

NanoTorrent spreads one file over a network of sensor nodes: the file is cut into at most 32 pieces, each node
tells others which pieces it has in a 32-bit set, asks them for the pieces it misses, and checks every finished
piece against a SHA-1 hash from the torrent descriptor. A tracker tells nodes of each other.

This project models the peer engine, both implementations of SHA-1, torrent creation, the wire formats and the
tracker, and proves what they are for. Check it with `dafny verify dfyconfig.toml`.

## How it is built

- **Common, Arithmetic**: small helpers. **Words, Bitset, Popcount**: fixed-width words as bounded numbers, 32-bit
  sets read as sets of indices, and the branch-free population count.
- **Sha1, Sha1Avr, Sha1Ref, Sha1Agreement**: RFC 3174 (padding of section 4, digest of section 6.1) as functions;
  the AVR code (16-word circular schedule, round table, block buffering) and the reference code (80-word schedule,
  one byte at a time) as classes over arrays, both proved to compute that digest for every message and every way of
  handing it over; the reference code refuses messages of 2^64 bits or more.
  **Sha1Standard** ties the functions both share to the standard: rotations and length as arithmetic, and its
  example digest.
- **Torrent, Storage, PieceStore, TorrentCreate**: where pieces lie, the file, the store of one node, and creation.
- **Retry**: bounded retries with exponential back-off.
- **PeerSpec**: what a node does to every datagram, wake-up and address learnt, as functions on a value. There the
  pending pieces and the piece counts are not stored: they are *defined* from the list of connections.
- **PieceSelect, PeerView, Peer**: the same node as the program keeps it: two pools of blocks, a list, a pending
  bitset, an array of 8-bit counts, a bitset of complete pieces and a file. `Peer.Peer.Valid` says that the listed
  connections are exactly the allocated blocks, that no two have one address, and that both caches agree with their
  definitions. Every handler keeps it and is proved to change the abstract node (`View`) exactly as PeerSpec says.
  `PeerRun.Handle` states it for any handler, also as the step from an empty log that Network takes.
- **PeerChoice, PeerReplies, PeerEvents, PeerWakeUp**: what each event does, stated independently as
  conditions on the connection list, the file and the messages sent: which piece is asked for and when, which data is
  stored and what follows it, who is accepted or dropped and what is answered, what a wake-up does and sends.
- **PeerIntegrity, PeerRequests, PeerRetry**: what holds whatever data arrives, for any piece size: complete pieces
  verify and stay; requests are for valid missing pieces, two for one piece only in the end-game; outstanding requests
  are being retried. **PeerLog**: a step does not depend on what was sent before. **PeerRun** carries these results to
  the program's own state, from the first start of a node through any sequence of datagrams, wake-ups and tracker
  replies.
- **PeerKnowledge, Network**: what holds when all nodes run this code over a network that loses, repeats and reorders
  datagrams, for any proper torrent, any digest and any stored files: what nodes know and say of each other is true,
  requests reach holders, pieces only grow. **PeerSafety, NetworkData**: the stored and sent data is right, and
  accepted replies advance, for genuine torrents. **NetworkProgress**: a download can always go on.
  **Limits**: where these properties end.
- **PackBasic, PackTorrent, PackPeer, Wire**: the byte formats. **Tracker**: the swarms and the replies.

A handler runs to its end before the next one starts, as in Contiki's cooperative scheduling, so one handler is one
step. Conditions used by the theorems:

- `Info.Proper`: pieces are not empty, they are as many as the file needs, and at most 31. Creation yields this
  (`TorrentCreate.CreatedIsProperIff`). Descriptors that are only unpacked may have 32 pieces or none that fit.
- `PeerSafety.Genuine`, for the theorems of PeerSafety, NetworkData and NetworkProgress only: the descriptor describes
  a nonempty source file whose pieces are at most 256 bytes, the reach of the 8-bit offset of the storage calls.
  Beyond it a download goes wrong at the first request past offset 255, exactly as `Limits.RightDataExtendsIff` and
  `Limits.SentDataExtendsIff` say; `Limits.WideDownloadFails` is such a download.
- `NetworkData.HonestStart`, for NetworkData and NetworkProgress: a stored piece that verifies at the start is the
  right one, that is, the files at the start hold no digest collision. Nothing else is asked of the digest, which is
  a function parameter.
- The end-game threshold, 0.8f in the program, is taken as `5 * complete >= 4 * pieces`.

## Findings

- `StoredWhereAskedIff`: data is stored where it was asked for exactly below offset 256 of its piece, because the
  storage calls narrow the offset to eight bits (peer/piece.c:117, peer/piece.c:147) while requests carry sixteen.
  `RightDataExtendsIff`: so right data extends a download exactly below that offset. `SentDataExtendsIff`: what an
  honest node sends, whose read is narrowed too, extends it exactly below that offset or if the read reaches the end
  of the piece. `WideDownloadFails`: with a piece of 257 bytes an honest reply makes the node find it corrupted.
- `ChoiceIsCandidateIff`, `StrayBitAsksForZero`: piece selection tests all 32 bits of a `have` field but chooses
  among valid pieces only (peer/piece-select.c:52, peer/piece-select.c:71), so bits at or above the number of pieces
  can make it ask for piece 0.
- `StopsOnceIff`: the retry limit 255 makes the 8-bit counter wrap, and the stop callback can then run twice; with
  any smaller limit it runs at most once.
- `CreatedIsProperIff`: creation with piece size 0 succeeds with one empty piece, and a file of 64 KiB or more is
  created with a truncated size field.
- `NextSoundIff`, `StrayBitAsksForOwned`: through the same stray bits a node can ask for a piece it has; the lemma says
  exactly when the next request keeps all requests sound.
- `OpeningReplyGoesOnIff`, `LeftOpenStallsIff`: a data reply that opens a request goes on to send for the rest or to
  verify the piece exactly if it carries data and the file is not empty. Otherwise the request stays open, and no
  expiry of its timer ever acts on it exactly if the connection had used up its retries before (as after a request
  that was given up, `SpentConnectionStalls`); on a new connection the next expiry gives it up
  (`NewConnectionRecovers`). Nodes never send such a reply.

## Model

| member | source | states |
|---|---|---|
| Bitset.Add | peer/bitset.h:20-21 | setting bit i adds exactly i to the set |
| Bitset.Clear | peer/bitset.h:26-27 | clearing bit i removes exactly i |
| Bitset.All | peer/piece.c:79-81 | the all-pieces mask is the set of all indices below the number of pieces |
| Popcount.Count | peer/bitset.c:11-19 | the shift-and-mask sum is the number of elements of the set, for every 32-bit word |
| Sha1.PadOne | peer/crypto/ref/sha1.c:380-413 | a message that leaves room for the length is padded with one last block |
| Sha1.PadTwo | peer/crypto/ref/sha1.c:380-413 | a message that leaves no room is padded with two blocks |
| Sha1.HashAppend | peer/crypto/ref/sha1.c:120-141 | folding in blocks one after another is the hash of their concatenation |
| Sha1Standard.Rotl1Is | peer/crypto/ref/sha1.c:45-46 | rotating by 1 doubles the number modulo 2^32 and adds the bit that fell off, for every word |
| Sha1Standard.Rotl5Is | peer/crypto/ref/sha1.c:45-46 | rotating by 5 as arithmetic |
| Sha1Standard.Rotl30Is | peer/crypto/ref/sha1.c:45-46 | rotating by 30 as arithmetic |
| Sha1Standard.AbcDigest | peer/crypto/ref/sha1.c:272-321 | the digest of "abc" is A9993E36 4706816A BA3E2571 7850C26C 9CD0D89D, through all 80 schedule words and rounds |
| Sha1Standard.LengthIsNumber | peer/crypto/ref/sha1.c:380-413 | the eight length bytes, most significant first, are the length modulo 2^64 |
| Sha1Avr.Context.Reset | peer/crypto/avr/crypto-impl.c:11-14 | starts an empty message in the initial state of the standard |
| Sha1Avr.Context.Add | peer/crypto/avr/crypto-impl.c:16-45 | appends the bytes to the message: the state covers the whole blocks, the buffer holds the rest, wherever the cut and however long the message |
| Sha1Avr.Context.AddBlocks | peer/crypto/avr/crypto-impl.c:33-38 | full blocks of the input go straight into the state, and less than a block is left |
| Sha1Avr.Context.Result | peer/crypto/avr/crypto-impl.c:47-52 | the result is the standard's digest of everything added |
| Sha1Avr.Context.LastBlock | peer/crypto/avr/sha1.c:186-216 | whole blocks of the rest are folded in; mark, zeros and 64-bit length, in one block or two, complete the hash of the padded message |
| Sha1Avr.Context.NextBlock | peer/crypto/avr/sha1.c:106-182 | the circular 16-word block function compresses like the standard's 80-word one, for every state and block |
| Sha1Avr.RunRounds | peer/crypto/avr/sha1.c:142-175 | the 80 rounds driven by the fi and fib counters are the standard's rounds |
| Sha1Avr.UpdateSchedule | peer/crypto/avr/sha1.c:143-153 | after the update slot t mod 16 holds schedule word t |
| Sha1Avr.CircularNext | peer/crypto/avr/sha1.c:148-149 | the circular buffer still holds the last 16 schedule words after one more is written |
| Sha1Avr.LoadWords | peer/crypto/avr/sha1.c:118-120 | byte-swapped little-endian loads give the big-endian words of the block |
| Sha1Avr.Context.ToHash | peer/crypto/avr/sha1.c:220-232 | byte-swapped little-endian stores give the big-endian bytes of the state |
| Sha1Ref.Context.Reset | peer/crypto/ref/sha1.c:80-98 | starts an empty, uncorrupted message in the initial state of the standard |
| Sha1Ref.Context.Input | peer/crypto/ref/sha1.c:120-141 | appends the bytes and is corrupted exactly when the message reaches 2^64 bits; refuses them with a state error once the digest has been taken, or with the earlier error |
| Sha1Ref.Context.InputByte | peer/crypto/ref/sha1.c:129-138 | one byte is buffered and counted, and a full block is folded in |
| Sha1Ref.Context.AddLength | peer/crypto/ref/sha1.c:53-58 | the two 32-bit halves count bits, and the context is corrupted exactly when both overflow |
| Sha1Ref.Context.Result | peer/crypto/ref/sha1.c:212-229 | the result is the standard's digest of the message, also when asked again, or the error of a corrupted context |
| Sha1Ref.Context.PadMessage | peer/crypto/ref/sha1.c:380-413 | padding completes the hash of the padded message in either case |
| Sha1Ref.Context.StoreLength | peer/crypto/ref/sha1.c:403-410 | the two halves are stored as the standard's 64-bit length |
| Sha1Ref.Context.ReadHash | peer/crypto/ref/sha1.c:224-226 | byte i of the digest is byte i mod 4 of word i div 4 |
| Sha1Ref.Context.ProcessMessageBlock | peer/crypto/ref/sha1.c:250-323 | the block function compresses as the standard says |
| Sha1Ref.BuildSchedule | peer/crypto/ref/sha1.c:265-273 | the array holds all 80 schedule words |
| Sha1Ref.FourLoops | peer/crypto/ref/sha1.c:281-315 | the four loops are the 80 rounds of the standard |
| Sha1Agreement.AvrDigest | peer/crypto/avr/crypto-impl.c:16-52 | over every way of cutting any message the AVR digest is the standard's, the length field counting modulo 2^64 |
| Sha1Agreement.RefDigest | peer/crypto/ref/sha1.c:120-141 | over every way of cutting a message below 2^64 bits the reference digest is the standard's |
| Sha1Agreement.Agree | peer/crypto/avr/sha1.c:106-182 | both implementations agree on every message below 2^64 bits and any two ways of cutting it |
| Torrent.OffsetExact | peer/piece.c:29-35 | no 16-bit piece offset of a proper torrent wraps |
| Torrent.Abut | peer/piece.c:29-56 | each piece ends where the next begins and the last one ends the file; no piece of a nonempty file is empty |
| Torrent.SizesAddUp | peer/piece.c:37-56 | the sizes of the first n pieces sum to offset n, and of all pieces to the file size |
| Torrent.Ordered | peer/piece.c:29-56 | earlier pieces end before later ones begin |
| Torrent.Tile | peer/piece.c:29-56 | every byte of the file lies in exactly one piece |
| PieceStore.DigestFile | peer/piece.c:176-202 | over any short reads exactly the next bytes of the file, at most the size asked for, are digested |
| PieceStore.Store.constructor | peer/piece.c:58-69 | a node starts with exactly the pieces that verify |
| PieceStore.Store.IsSeed | peer/piece.c:87-90 | true exactly if all pieces are complete |
| PieceStore.Store.SetComplete | peer/piece.c:100-110 | adds or removes exactly this piece; an invalid index changes nothing |
| PieceStore.Store.CountComplete | peer/piece.c:112-114 | the true number of complete pieces |
| PieceStore.Store.Read | peer/piece.c:116-144 | returns bytes of the piece from the narrowed offset, none beyond its end, or an error for an invalid index or offset |
| PieceStore.Store.Write | peer/piece.c:146-174 | replaces the bytes of the piece from the narrowed offset, cut off at its end, and no others |
| PieceStore.WriteStaysInside | peer/piece.c:146-174 | a write changes no byte of any other piece, whatever its offset and data |
| PieceStore.WriteLandsInside | peer/piece.c:166-168 | the written piece holds the data from the narrowed offset on and is unchanged elsewhere |
| PieceStore.Store.Verify | peer/piece.c:204-230 | true exactly if the index is valid and the stored bytes of the piece have the expected digest |
| PieceStore.Store.VerifyAll | peer/piece.c:232-241 | the set of exactly those pieces that verify |
| TorrentCreate.Create | peer/torrent.c:24-69 | succeeds exactly if the file has at most 31 full pieces (or the piece size is 0), with max(1, ceil) pieces, each hash that of its chunk |
| TorrentCreate.CreatedIsProperIff | peer/torrent.c:24-69 | the created descriptor describes the file exactly if the piece size is positive and the length fits 16 bits |
| TorrentCreate.ChunkIsPiece | peer/torrent.c:38-56 | creation cuts the file exactly where piece offset and size say |
| TorrentCreate.CreatedIsSeed | peer/torrent.c:38-69 | all pieces of the file a torrent was created from verify |
| TorrentCreate.CreateAndOpen | peer/piece.c:58-90 | for nonempty pieces and files below 64 KiB, a node that creates a torrent and opens the same file starts as a seed exactly if creation succeeds |
| Retry.Timer.StepNext | peer/retry.c:22-36 | one step retries with the doubled wait, or stops, or does nothing |
| Retry.Timer.Restart | peer/retry.c:38-47 | a start resets the counters and tries at once |
| Retry.Timer.Tick | peer/retry.c:54-63 | a check acts only if the timer has expired and retries or the stop are left |
| Retry.RunBounds | peer/retry.c:22-63 | from any point of an episode: how many retries are left, their total wait, and the stop only after all of them |
| Retry.StopIsLast | peer/retry.c:30-35 | no retry follows a stop |
| Retry.EpisodeBounds | peer/retry.c:22-63 | between two starts at most max_retries retries and one stop, the stop after all retries, and waits that sum to timeout * (2^n - 1) after n of them |
| Retry.RunCounts | peer/retry.c:22-63 | from counters n of m, e expiries make exactly min(e, m - n) retries, and the stop exactly if there is one more |
| Retry.EpisodeCounts | peer/retry.c:22-63 | between two starts: the first try at once, one for each expiry up to the limit, then one stop |
| Retry.StopsOnceIff | peer/retry.c:30-35 | the stop callback runs at most once between two starts exactly if the limit is below 255 |
| Retry.WrapStopsTwice | peer/retry.c:30-35 | with limit 255 the counter wraps and the stop callback runs again |
| PieceSelect.Selector.UpdateHave | peer/piece-select.c:24-41 | counts change by one exactly where the two sets differ, wrapping at eight bits |
| PieceSelect.Selector.Rarest | peer/piece-select.c:67-80 | the first least-counted piece of the set; 0 if no valid piece of the set is counted below 255 |
| PeerView.RarityBound | peer/config.h:81-91 | no piece is counted more often than there are connections |
| PeerView.ListBound | peer/peer.c:154-172 | the list never holds more connections than both pools have blocks |
| PeerView.LeastIsRarest | peer/piece-select.c:67-80 | since counts stay below 255, the least count is the true rarity and the first such piece is found |
| PeerView.PoolFull | peer/peer.c:162-167 | a pool is exhausted exactly if as many listed connections come from it as it has blocks |
| PeerView.PendingStop | peer/peer.c:291-307 | after a stop the other requests decide whether the piece is still pending |
| PeerView.PendingReleased | peer/peer.c:309-317 | after a stop-all exactly this piece is no longer pending |
| PeerView.HaveAgrees | peer/peer.c:234-241 | adding pieces to a connection keeps the counts true, with no 8-bit wrap |
| PeerView.LeaveAgrees | peer/peer.c:142-152 | removing a connection keeps the counts true, with no 8-bit wrap |
| Peer.Peer.constructor | peer/peer.c:70-84 | a node starts valid, without connections, requests or counts |
| Peer.Peer.FindPeer | peer/peer.c:100-109 | the listed connection with this address, if any |
| Peer.Peer.FindFirstRequest | peer/peer.c:247-256 | whether some listed connection requests the piece |
| Peer.Peer.FindRequestConn | peer/peer.c:258-273 | a pending piece always has a requesting connection, so the search never fails: the exact address first, else the first match |
| Peer.Peer.StartRequest | peer/peer.c:275-284 | marks piece and connection, restarts the retries and sends the first data request |
| Peer.Peer.StopRequest | peer/peer.c:286-307 | clears the request, and the pending bit exactly if nobody else requests the piece |
| Peer.Peer.StopAllRequests | peer/peer.c:309-317 | no connection requests the piece any more and all other requests stay |
| Peer.Peer.InterestingPieces | peer/piece-select.c:50-65 | the missing pieces of the remote nobody is asked for; if there are none, any missing ones once the end-game threshold is reached |
| Peer.Peer.SelectNext | peer/piece-select.c:48-81 | fails exactly if there is no candidate, and else returns the lowest-index candidate of least true rarity |
| PeerSpec.Rarest | peer/piece-select.c:67-80 | the choice has least rarity among the valid candidates, strictly less than all earlier ones |
| PeerSpec.RarestUnique | peer/piece-select.c:67-80 | that choice is unique |
| PeerSpec.RarestExists | peer/piece-select.c:67-80 | and exists whenever there is a valid candidate |
| Peer.Peer.RequestNextPiece | peer/peer.c:319-338 | an idle connection of an incomplete node is asked for the chosen piece from offset 0 |
| Peer.Peer.Allocate | peer/peer.c:162-167 | finds a free block of the pool exactly if the pool is not used up |
| Peer.Peer.Connect | peer/peer.c:154-182 | returns the one connection to an address, made from a free block if there is none; caches and pools stay in agreement |
| Peer.Peer.AddConn | peer/peer.c:119-140 | a new connection has no pieces and no request, and stands first in the list |
| Peer.Peer.ForceDisconnectConn | peer/peer.c:184-190 | the connection leaves list, counts, pending bits and its pool, and nothing leaks |
| Peer.Peer.Unlist | peer/peer.c:142-147 | leaving the list takes the connection's pieces out of the counts |
| Peer.Peer.StopDetached | peer/peer.c:147-149 | its request is stopped although it is no longer listed |
| Peer.Peer.Disconnect | peer/peer.c:192-197 | the connection is dropped and a CLOSE goes to the remote |
| Peer.Peer.ForceDisconnectPeer | peer/peer.c:199-207 | the connection with this address is dropped, if there is one |
| Peer.Peer.RecordHave | peer/peer.c:234-241 | the remote's pieces are merged and the counts follow |
| Peer.Peer.FindReceiver | peer/peer.c:353-394 | data goes to the request it continues, or opens a request for a piece nobody requests, or is dropped |
| Peer.Peer.ReceivedData | peer/peer.c:396-431 | asks for what follows the data, or verifies the finished piece |
| Peer.Peer.FinishPiece | peer/peer.c:405-430 | a piece that verifies is completed and all its requests stop; else it is reported corrupted |
| Peer.Peer.OnDataReply | peer/peer.c:593-625 | invalid index, no receiver, failed write, or data taken in, as specified |
| Peer.Peer.OnDataRequest | peer/peer.c:530-591 | replies only with bytes of a completed piece, to the link's all-nodes address for a link-local sender |
| Peer.Peer.OnMessage | peer/peer.c:627-689 | every datagram changes the node as specified and keeps pools, list and caches in agreement |
| Peer.Peer.Answer | peer/peer.c:676-688 | the answer by message kind |
| Peer.Peer.CheckRetry | peer/peer.c:433-453 | a retry sends the request again; the stop gives it up and asks for another piece |
| Peer.Peer.CheckConn | peer/peer.c:702-723 | one connection's share of a wake-up: dropped when silent, else retried, then the heartbeat |
| Peer.Peer.OnWakeUp | peer/peer.c:702-735 | every connection is visited once although some leave the list on the way, then the local heartbeat goes out |
| Peer.Peer.OnJoin | peer/peer.c:174-177 | an address learnt from the tracker is connected to, from the outgoing pool |
| PeerSpec.FindRequest | peer/peer.c:258-273 | the search finds a connection exactly if the piece is pending |
| PeerSpec.DataReceiver | peer/peer.c:353-394 | a receiver requests the piece, which is not complete |
| PeerChoice.RarityIsHolders | peer/piece-select.c:29-40 | the count of a piece is the number of connections whose remotes have it |
| PeerChoice.AsksIff | peer/piece-select.c:48-65 | an idle connection is asked for a piece exactly if its remote has a missing piece that nobody is asked for, or any missing piece once 5 complete pieces make up for 4 of all |
| PeerChoice.AsksForRarest | peer/piece-select.c:67-80 | which piece: unrequested before requested, then the fewest holders, then the lowest index; the request starts at offset 0 with fresh retries, is sent, and nothing else changes |
| PeerReplies.OneDecides | peer/peer.c:258-273 | about data of a requested piece exactly one connection decides: the sender's own if it requests the piece, else the first that does |
| PeerReplies.StoredIff | peer/peer.c:353-369 | data of a requested missing piece is stored exactly if it covers the offset the deciding connection waits for, whoever sent it; else nothing changes |
| PeerReplies.OverheardIff | peer/peer.c:360-369 | with a single requester that one decides, also about data from other senders |
| PeerReplies.NotWanted | peer/peer.c:356-359 | data of a complete piece or of an invalid index changes nothing |
| PeerReplies.StoredFollows | peer/peer.c:396-431 | what follows stored data: the request goes on behind it with fresh retries; or the piece ends there, and becomes complete and released by all if its bytes have the right digest, else it is reported and only this connection gives it up |
| PeerReplies.OpenedIff | peer/peer.c:371-391 | data of a missing piece nobody is asked for is stored exactly if it starts the piece and its sender is idle, or is new and fewer than five connections are outgoing |
| PeerReplies.OpenedFollows | peer/peer.c:371-391 | it opens a request on the sender's connection, made if needed, and goes on as data of a requested piece |
| PeerEvents.JoinIff | peer/peer.c:154-177 | an address becomes a new outgoing connection exactly if it is not listed and fewer than five are outgoing |
| PeerEvents.ForeignIgnored | peer/peer.c:636-642 | a datagram about another torrent changes nothing |
| PeerEvents.CloseDrops | peer/peer.c:648-651 | CLOSE takes exactly the connection to its sender out of the list |
| PeerEvents.AcceptedIff | peer/peer.c:652-688 | a sender is accepted exactly if it is listed or fewer than five connections are incoming; its pieces are recorded and the message answered, else a CLOSE goes back unless the message was for everybody |
| PeerEvents.AnswersIff | peer/peer.c:530-591 | a data request is answered exactly if the piece is complete and the narrowed offset lies in it, with the file's bytes from there, to all nodes on the link if the requester is link-local |
| PeerEvents.OverheardIsStored | peer/peer.c:593-689 | the same as OverheardIff for a whole datagram, accepted or not |
| PeerWakeUp.WakeUpIs | peer/peer.c:702-735 | everything a wake-up does: the silent connections go, every other one has the outcome its retry timer asks for, and exactly these messages are sent, in order |
| PeerWakeUp.SilentAreDropped | peer/peer.c:707-711 | no connection to a silent remote is left, and it is sent a CLOSE |
| PeerWakeUp.RequestsAreChecked | peer/peer.c:712-716 | a request whose timer has expired is sent again with one more retry counted, or given up after the last; one whose timer has not expired is left as it is |
| PeerWakeUp.GivenUpAsksIff | peer/peer.c:444-453 | a connection that gives up its request is asked for another piece exactly if there is one it may be asked for now |
| PeerWakeUp.KeptWhileRetried | peer/retry.c:22-29 | over several wake-ups an unanswered request is kept as long as retries are left |
| PeerWakeUp.GivenUpInTime | peer/retry.c:22-36 | and is gone or replaced after exactly m - n + 1 expiries from counters n of m |
| PeerWakeUp.ThreeExpiriesEnd | peer/config.h:111 | three expiries without an answer end every request that is being retried |
| PeerIntegrity.HandleDataReplyKeeps | peer/peer.c:593-625 | whatever data arrives, complete pieces verify, stay complete and keep their bytes |
| PeerIntegrity.StepKeeps | peer/peer.c:627-689 | the same for every event |
| PeerIntegrity.RunKeeps | peer/peer.c:353-431 | over every run of arbitrary events complete pieces verify, none is lost and none is overwritten |
| PeerIntegrity.StartsSound | peer/piece.c:58-69 | a node that starts with the pieces that verify starts sound |
| PeerRequests.NextTidy | peer/peer.c:319-338 | for any valid claims the next request is for a missing piece the remote has claimed, and shares its piece with another only in the end-game |
| PeerRequests.CompleteTidy | peer/peer.c:412-416 | completing a piece leaves no request for it and no new clash |
| PeerRequests.ReplyTidy | peer/peer.c:593-625 | arbitrary data for any piece keeps all requests sound |
| PeerRequests.MessageTidy | peer/peer.c:627-689 | a datagram keeps requests sound and claimed, also one that opens a request before its claim is merged |
| PeerRequests.StepTidy | peer/peer.c:627-735 | the same for every event |
| PeerRequests.RequestsStaySound | peer/peer.c:319-431 | in every run in which only valid pieces are claimed, with arbitrary data, senders and piece sizes, requests are for valid missing pieces and two are for one piece only in the end-game; if replies carry data of claimed pieces, every requested piece has been claimed |
| PeerRequests.NextSoundIff | peer/piece-select.c:48-81 | with invalid claims the next request keeps requests sound exactly if a candidate is valid, or piece 0 is missing and unrequested or the end-game is reached |
| PeerRequests.StrayBitAsksForOwned | peer/piece-select.c:48-81 | a node that has piece 0 asks for it when bit 31 is all its remote claims |
| PeerRetry.ReplyRetrying | peer/peer.c:593-625 | data, whatever it is, leaves every outstanding request sent and with a retry or the stop still to come |
| PeerRetry.StepRetrying | peer/peer.c:627-735 | the same for every event that carries data if it is a data reply |
| PeerRetry.RequestsAreRetried | peer/peer.c:275-307 | in every run in which data replies carry data of a nonempty file, every outstanding request has its retry counter between 1 and the limit 3: it has been sent, and a retry or the stop is still to come |
| PeerRetry.TicksSend | peer/peer.c:433-453 | until the stop, the node keeps an unanswered request and sends it once for every retry of its timer |
| PeerRetry.EpisodeSends | peer/peer.c:280-284 | an unanswered request is sent exactly as often as its retry episode retries, at least once and at most 3 times |
| PeerRetry.OpeningReplyGoesOnIff | peer/peer.c:371-431 | a reply that opens a request sends for the rest or verifies the piece exactly if it carries data and the file is not empty; else it leaves the request open and sends nothing |
| PeerRetry.InertIff | peer/retry.c:54-63 | every check of a connection's retry timer leaves the node as it is exactly if the retries are used up |
| PeerRetry.LeftOpenStallsIff | peer/peer.c:371-390 | the request such a reply leaves open is never acted on by its timer exactly if the connection had used up its retries |
| PeerRetry.NewConnectionRecovers | peer/peer.c:444-453 | on a new connection the next expiry gives that request up |
| PeerRetry.SpentConnectionStalls | peer/retry.c:54-57 | after a request that was given up, an empty reply opens one that no expiry acts on |
| PeerLog.StepLog | peer/peer.c:627-735 | a step appends the same to any log and otherwise does not depend on it |
| PeerRun.Handle | peer/peer.c:627-735 | every handler is one step of the specified node, also from an empty log, and spoils no complete piece |
| PeerRun.Run | peer/peer.c:353-431 | from first start through any inputs: complete pieces verify, and pieces that verified at the start are complete and unchanged; requests are sound, claimed and being retried under the same conditions on the inputs as above |
| PeerKnowledge.NextKnows | peer/peer.c:319-338 | a new request is sent to a node that has the piece |
| PeerKnowledge.HaveKnows | peer/peer.c:234-241 | merging a true header keeps what is known true and all requests sound |
| PeerKnowledge.SendReplyKnows | peer/peer.c:530-591 | a reply carries at least one byte of a piece its header claims |
| PeerKnowledge.MessageKnows | peer/peer.c:627-689 | a true datagram, whatever data it carries, keeps all that is known and said true |
| PeerKnowledge.StepKnows | peer/peer.c:627-735 | the same for every event |
| PeerKnowledge.GrowKnows | peer/piece.c:100-110 | what a node knows stays true when others get more pieces |
| PeerSafety.RequestNextInv | peer/peer.c:319-338 | a new request starts inside its piece, whichever piece is chosen |
| PeerSafety.WriteInv | peer/piece.c:146-174 | honest data moves the right prefix of a request forward and spoils no other request for the piece |
| PeerSafety.CompleteInv | peer/peer.c:412-416 | a piece whose bytes are all right may be marked complete: every other request keeps its right prefix, and every complete piece stays right |
| PeerSpec.OwnGrows | peer/piece-select.c:43-46 | the end-game threshold is stable once reached |
| PeerSafety.AcceptedReplyAdvances | peer/peer.c:361-369 | an accepted honest reply completes the piece exactly when it ends it, and otherwise moves the request strictly forward |
| PeerSafety.LastReplyCompletes | peer/peer.c:405-430 | an accepted honest reply that ends a piece completes it with the source's bytes, and nobody requests it any more |
| PeerSafety.AcceptedMessageAdvances | peer/peer.c:627-689 | the same progress over the whole handler, wherever the request is in the list afterwards |
| PeerSafety.HandleMessageInv | peer/peer.c:627-689 | a datagram with right data keeps all stored data, requested prefixes and sent data right |
| PeerSafety.RetryProcessInv | peer/peer.c:433-453 | a retry asks for the rest after a right prefix; a retry or its stop keeps all data right |
| PeerSafety.StepInv | peer/peer.c:627-735 | every step keeps stored, requested and sent data right when the data received is right |
| Network.NextInv | peer/peer.c:627-735 | a step of any node keeps the invariant of the whole system, and no node loses a piece |
| Network.RunInv | peer/peer.c:627-735 | the invariant holds in every state of every run of every proper torrent |
| Network.KnowledgeIsTrue | peer/peer.c:234-241 | in every state of every run, what a connection records or a datagram in flight claims of a node is no more than that node has now |
| Network.RequestsReachHolders | peer/peer.c:515-528 | every data request in flight is addressed to a node that holds the piece |
| Network.RequestsAreSound | peer/peer.c:319-431 | every outstanding request of every node is for a valid missing piece its remote has claimed and holds now, and two requests of a node are for one piece only in the end-game |
| Network.RequestsAreRetriedEverywhere | peer/peer.c:275-307 | for a nonempty file every outstanding request of every node is being retried, since every data reply in flight carries data |
| Network.UnansweredRequestsEnd | peer/peer.c:706-717 | in every run on a nonempty file, a request of any node that stays unanswered while its timer expires three times ends: its connection is idle or asked anew |
| Network.PiecesOnlyGrow | peer/piece.c:100-110 | pieces are never lost, and the end-game threshold once reached stays reached |
| Network.PiecesVerify | peer/piece.c:204-230 | every complete piece of every node verifies in every state |
| NetworkData.NextDataInv | peer/peer.c:627-735 | a step of any node keeps stored and sent data right |
| NetworkData.NothingIsCorrupted | peer/peer.c:408-430 | verification never fails, and all complete pieces are the source's |
| NetworkData.PrefixesAreRight | peer/peer.c:396-431 | the bytes before an outstanding request's offset are the source's, and the offset is inside the piece |
| NetworkData.RepliesAdvance | peer/peer.c:353-431 | whenever a data reply in flight in a run reaches a node that takes it, the piece is complete afterwards or the request that took it has moved strictly forward |
| NetworkProgress.ServesRequest | peer/peer.c:553-591 | a node answers a request for a piece it has and goes on accepting the requester |
| NetworkProgress.TakesReply | peer/peer.c:593-625 | the requester takes the reply: the piece is complete, or the rest has been requested from the same node |
| NetworkProgress.AsksNext | peer/peer.c:676-680 | an idle connection is asked for a missing piece once its remote claims one that nobody requests |
| NetworkProgress.Download | peer/peer.c:353-431 | a request in flight to a holder can be answered, reply after reply, until its piece is complete |
| NetworkProgress.SomeContinuationCompletes | peer/peer.c:319-431 | from every state of an honest run in which an idle connection leads to a node with a missing piece nobody requests, some continuation of the run completes a missing piece |
| Limits.StoredWhereAskedIff | peer/piece.c:146-174 | written data is found at its offset for every file and data exactly if the offset is below 256 |
| Limits.RightDataExtendsIff | peer/piece.c:146-174 | for every node that takes the right data, its right prefix grows to the end of the data exactly if the data starts below offset 256 |
| Limits.SentDataExtendsIff | peer/piece.c:116-174 | the same for what an honest node sends: exactly below offset 256, or if the narrowed read reaches the end of the piece |
| Limits.WideDownloadFails | peer/peer.c:396-430 | with a piece of 257 bytes of which only the last is missing, an honest reply ends in a corrupted piece |
| Limits.ChoiceIsCandidateIff | peer/piece-select.c:48-81 | the choice is a valid candidate exactly if some candidate is valid, and else piece 0, which is none |
| Limits.StrayBitAsksForZero | peer/piece-select.c:48-81 | a header with bit 31 only makes a new node ask for piece 0, which the sender never claimed |
| PackBasic.PackUint16 | peer/pack/pack-basic.c:22-27 | two bytes, most significant first, and no other byte of the buffer |
| PackBasic.UnpackUint16 | peer/pack/pack-basic.c:29-33 | the number whose bytes are there |
| PackBasic.PackUint32 | peer/pack/pack-basic.c:35-42 | four bytes, most significant first, and no other byte of the buffer |
| PackBasic.UnpackUint32 | peer/pack/pack-basic.c:44-49 | the number whose bytes are there |
| PackBasic.Uint32Unique | peer/pack/pack-basic.c:35-49 | different numbers have different bytes |
| PackTorrent.DescLength | peer/pack/pack-torrent.c:40-46 | a packed descriptor takes 23 bytes and 20 for each piece |
| PackTorrent.DescLayout | peer/pack/pack-torrent.c:11-46 | which bytes are tracker address, port, file size, piece size, number of pieces and each hash |
| PackTorrent.PackDesc | peer/pack/pack-torrent.c:11-46 | the bytes of the descriptor are written at the position and nothing else changes |
| PackTorrent.UnpackInfo | peer/pack/pack-torrent.c:25-38 | reads the info there; it is what the buffer holds exactly if the piece count is at most 32, else the count is cut to 32 |
| PackTorrent.UnpackDesc | peer/pack/pack-torrent.c:48-54 | reads address, port, sizes and at most 32 hashes there; it is what the buffer holds exactly if the piece count is at most 32 |
| PackTorrent.DescUnique | peer/pack/pack-torrent.c:11-54 | bytes determine the descriptor, whatever follows them |
| PackTorrent.PackThenUnpack | peer/pack/pack-torrent.c:11-54 | unpacking a packed descriptor gives it back with the same end, anywhere in any buffer |
| PackPeer.PackHeader | peer/pack/pack-peer.c:11-17 | 25 bytes are written and nothing else changes |
| PackPeer.PackData | peer/pack/pack-peer.c:51-57 | 28 bytes are written and nothing else changes |
| PackPeer.DataLayout | peer/pack/pack-peer.c:11-57 | which bytes are kind, info hash, piece set, piece index and start |
| PackPeer.UnpackData | peer/pack/pack-peer.c:59-65 | reads the data header that is there |
| PackPeer.DataUnique | peer/pack/pack-peer.c:51-65 | bytes determine the data header |
| PackPeer.PackThenUnpack | peer/pack/pack-peer.c:11-65 | unpacking a packed data header, or its message header alone, gives it back with the matching end |
| Wire.ParseSerialized | peer/peer.c:627-689 | every message is read back from the bytes of the datagram it is sent in |
| Wire.SerializeParsed | peer/peer.h:57-119 | every datagram without trailing bytes is what its message is sent in |
| Wire.KindCodes | peer/peer.h:57-74 | CLOSE, HAVE, data request and data reply are 0, 1, 2 and 3 |
| Wire.MessageLayout | peer/peer.h:76-119 | which bytes of a datagram are info hash, piece set, index, start and data |
| Tracker.TrackedPeer.UpdateState | tracker/src/nanotracker/Tracker.java:190-209 | the state after an announce event |
| Tracker.TrackedTorrent.Purge | tracker/src/nanotracker/Tracker.java:116-128 | exactly the peers last heard of before the limit go |
| Tracker.CollectPeers | tracker/src/nanotracker/Tracker.java:150-188 | the first eligible candidates, as many as wanted or as there are |
| Tracker.EligibleCount | tracker/src/nanotracker/Tracker.java:178-188 | in a list of distinct peers of which none is stopped, all but the requester are eligible, each once |
| Tracker.ReplyIsGood | tracker/src/nanotracker/Tracker.java:130-176 | for every shuffle the reply lists distinct tracked peers without the requester, exactly min(numWant, swarm size - 1) of them |
| Tracker.TrackerService.HandleAnnounce | tracker/src/nanotracker/Tracker.java:51-99 | the sender's entry is updated or dropped, all other swarms and entries stay, and the reply is good, or empty for a peer that stops |
| Tracker.TrackerService.PurgePeers | tracker/src/nanotracker/Tracker.java:110-128 | every swarm keeps exactly the peers heard of recently enough |
| Tracker.SwarmsAreHistory | tracker/src/nanotracker/Tracker.java:51-128 | after any sequence of announces and purges a swarm holds exactly the peers their own announces account for |
| Tracker.Serve | tracker/src/nanotracker/Tracker.java:51-128 | a tracker that serves any sequence of announces and purges ends with the swarms of that sequence, and every announce has been answered with distinct peers of its swarm at that moment |
| Tracker.NeverStopped | tracker/src/nanotracker/Tracker.java:73-85 | in every run no tracked peer is stopped |

## Left out

- Sha1Ref.Context.Input: asks that no byte of the same call follow the one that brings the message to 2^64 bits, because the program would go on writing behind its block.
- Sha1Avr.Context.LastBlock: lengths that are not whole bytes are not modelled.
- TorrentCreate.CreateAndOpen: asks for nonempty pieces and a file below 64 KiB, where the created descriptor describes the file (`TorrentCreate.CreatedIsProperIff`); opening with another descriptor is not modelled.
- Peer.Peer.FinishPiece: the faster heartbeat and the events posted on completion are not modelled.
- Retry.EpisodeBounds: waits are unbounded numbers; the width of `clock_time_t` and of `1 << num_retries` is not modelled.
- Retry.Timer.StepNext: a callback is the last thing a step does, so the method returns which callback to run instead of calling it; a stop callback that starts the timer again is a call after the step.
- Network.NextInv: nodes join no run midway and do not restart; `pending_pieces` is zeroed only once in the program, so a second initialisation is outside the model.
- Contiki's event timers: which timers have expired at a wake-up is an arbitrary set; when they expire is not modelled.
- Peer.Peer.OnWakeUp: heartbeat timing, the halving of the heartbeat delay, events to other processes and the seeding notification are not modelled.
- Peer.Peer.OnMessage: a datagram is taken as parsed; the C code parses whatever lies in its buffer even if the datagram is shorter than a header (`Wire.Parsed` asks for the header). Heartbeat timers of connections are part of the arbitrary expiry.
- Peer.Peer.OnDataRequest: the room for data in a datagram is a parameter; how many bytes a short read returns is left open.
- Storage.File.Write: the file is an array of fixed size, reads may be short, writes are complete; errors of the file system are not modelled.
- TorrentCreate.Create: the info hash of the descriptor and file system errors are not modelled; when creation fails the descriptor returned has no hashes.
- Bitset.All: with 32 pieces the mask `(1 << 32) - 1` is undefined in C; proper torrents have at most 31.
- Peer.Peer.constructor: the information hash is a parameter.
- Addresses are a node number and whether the address is link-local; node identity by interface identifier only (a build option) and other builds without local multicast are not modelled.
- PackTorrent.UnpackInfo: asks that the buffer be long enough for the hashes it announces, as the C code silently assumes.
- Tracker.TrackerService.HandleAnnounce: hashes and peer addresses are abstract keys, times are numbers, the shuffle is an arbitrary order; logging, sockets and interleaving of Java threads are left out.
- SHA-1 of messages that are not whole bytes, the one-shot AVR function, big-endian builds and the assembly version.
- The swarm and main processes (peer/swarm.c, peer/nanotorrent.c): four states whose behaviour depends on event timers that are not part of this model.
- The tools for creating and reading torrents, the demo, the tracker's command line and server, the Wireshark dissector.
