# Protocol logic of an I2P router

Kovri is an I2P router. This project models six pieces of its protocol logic in Dafny and states what they promise as
contracts and lemmas. `dafny verify dfyconfig.toml` checks the whole project.

Code that updates objects and buffers in the source is imperative here as well: a class with the source's fields, or a
method over an array, proved equal to a function on values. The protocol properties are then lemmas about those
functions. What each operation amounts to is also said outright, without the function that computes it, by predicates
such as `StreamSteps.Resends`, `SsuData.Processed`, `Ntcp.Taken`, `GarlicTags.Wrapped`, `TunnelCrypto.Layered` and
`TunnelBuild.Answered`, which stand in the methods' contracts.

- **Reliable stream** (`Streaming`, `StreamObject`, `StreamInvariants`, `StreamSteps`, `StreamRuns`, `StreamProgress`,
  `StreamLimits`, `StreamLosses`, `StreamWitnesses`). One end of a stream is a record of the fields of `Stream`, plus a
  history no decision depends on. `StreamObject.Stream` updates the fields step by step. `StreamRuns` joins two ends by
  a network that may drop, repeat and reorder packets, which are routed by their stream ids. Times are parameters of the
  events.
- **Layered tunnels** (`Cbc`, `TunnelCrypto`, `TunnelBuild`). AES is any pair of functions that undo each other under
  every key; chaining (NIST SP 800-38A, section 6.2) is defined and proved. Buffers are arrays of 16-byte blocks.
- **SSU** (`I2NP` in `I2NPMessage.dfy`, `SsuData`, `SsuRuns`, `SsuProgress`, `SsuLimits`, `SsuAcks`). Message headers
  rewritten in place in byte arrays, fragmentation into packets, reassembly from packets in any order with clean-up at
  any time, and acknowledgement bitfields.
- **NTCP** (`Ntcp`, `NtcpBuffers`, `NtcpSend`, `NtcpRuns`, `NtcpRepeats`, `NtcpFlood`). Frames in one running CBC
  stream, decoded block by block from arbitrary chunks; message objects with buffers in which their frames are made and
  encrypted; and the send queue, which holds objects.
- **Garlic messages** (`GarlicTags`, `GarlicRuns`, `GarlicCodec`, `GarlicReceive`, `GarlicBuffers`). One-time session
  tags of many routing sessions and one destination on a common clock, and the printer and parser of the AES block and
  its cloves.
- **Floodfill selection** (`NetDb`). Bounded selection by XOR distance against sorting everything.

Eleven branches depart from the evident intent. They are modelled as they are. For each of them a theorem says exactly
when it matters, and another gives an input or a run that shows it:

| branch | exactly when | shown by |
|---|---|---|
| a repeated SYN is processed again (`src/api/Streaming.cpp:147`) | `StreamLimits.SynExactlyOnce` for one packet, `StreamLosses.InOrderExactly` for whole runs | `StreamWitnesses.RepeatedSynDuplicates`: the answering SYN comes twice, and the opener's reader gets a byte twice |
| follow-on and closing packets before the peer's SYN claim to acknowledge everything (`src/api/Streaming.cpp:375-378`, `src/api/Streaming.cpp:567-569`) | `StreamLimits.BlindExactly`, `StreamLimits.ClosesTrue` for the packets, `StreamLosses.NothingLostExactly` for what they do to runs | `StreamWitnesses.BlindAckLosesSyn`: an opener that gives up makes the acceptor forget its undelivered SYN |
| a cut NACK list acknowledges the first missing number (`src/api/Streaming.cpp:486-490`) | `StreamInvariants.QuickAckExact`: if and only if 256 or more numbers are missing | `StreamLimits.CutAckIsUntrue` |
| only seven bits of a fragment's number are sent (`src/core/transport/SSUData.cpp:360-365`, `src/core/transport/SSUData.cpp:185`) | `SsuLimits.SurvivesExactly`, `SsuLimits.CompletesExactly`: if and only if a message has more than 128 fragments | `SsuLimits.OneTooMany`, `SsuLimits.LongMessageMistaken`: the last of 129 fragments is handed on as the message |
| clean-up goes by when a fragment was last saved ahead of missing ones, which is 0 at first (`src/core/transport/SSUData.cpp:518-519`, `src/core/transport/SSUData.h:114`) | `SsuProgress.ForgottenExactly`: an unfinished message survives if and only if that was within 30 seconds | `SsuProgress.FirstForgotten`: a first fragment is forgotten in the second it arrives |
| the bitfield decoder's counter stands still over empty bytes (`src/core/transport/SSUData.cpp:151-163`) | `SsuAcks.AckUnderstood`: if and only if the fragment number is above 6 | `SsuAcks.AckDecodes`: fragment 7 is decoded as 0 |
| a grown message keeps the old nominal size (`src/core/I2NPProtocol.h:245`) | `I2NP.Attach`: every later fragment moves the message again | `I2NP.Attach`: no byte is lost |
| a write error leaves the NTCP send queue behind (`src/core/transport/NTCPSession.cpp:775-780`) | `NtcpRuns.ErrorOrdered`: order is lost if and only if the queue is not empty; `NtcpRuns.ErrorOvertakes` | `NtcpRuns.ErrorAfterConnected` |
| a message is encrypted in its own buffer, so one posted again is sent as ciphertext (`src/core/transport/NTCPSession.cpp:722-769`) | `NtcpRepeats.RightExactly`, `NtcpRuns.RunRightExactly`: the wire is right for every cipher and content if and only if no object is written twice; `NtcpRuns.SecondDelivery` | `NtcpFlood.PostedTwice`, `NtcpFlood.FloodedThrice`: three posts, as in `src/core/NetworkDatabase.cpp:521-526`, of which one is delivered |
| the result of cleaning up a session's tags (`src/core/Garlic.cpp:137`) is not what is announced (`src/core/Garlic.h:127`) | `GarlicTags.LeftExactly`: it says whether something is left if and only if a usable tag is left | `GarlicTags.OnlyUnconfirmedLeft` |
| a floodfill listed twice erases another from the selection (`src/core/NetworkDatabase.cpp:946-949`) | `NetDb.OfferExactly`, `NetDb.BoundedExactly` | `NetDb.OfferedAgainErasesLast`, `NetDb.RepeatedFloodfill` |

Further exact conditions: an NTCP session whose writes do not fail has written or still queues everything posted if and
only if no termination met a non-empty queue (`NtcpRuns.RunOrdered`), 241 seconds of transit are the largest for which a
tag is always known (`GarlicRuns.TransitBoundIsExact`), a router opposite to the key is never the closest floodfill
(`NetDb.NetDb.GetClosestFloodfill`), and expiration survives SSU to the second if and only if it fits into 32 bits
(`I2NP.SsuRoundTrip`).

## Model

| member | source | states |
|---|---|---|
| `StreamObject.Stream.SendBuffer` | src/api/Streaming.cpp:356-454 | segmenting into the free window, remembering and sending the packets, and closing behind the last byte, as one change of state |
| `StreamObject.Stream.CreateSegment` | src/api/Streaming.cpp:365-432 | one pass of the segmentation loop: an initial packet for a new stream, a follow-on packet otherwise |
| `StreamObject.Stream.ProcessAck` | src/api/Streaming.cpp:273-326 | acknowledged packets leave the sent set, window, RTT and RTO follow, sending and closing resume |
| `StreamObject.Stream.EraseAcknowledged` | src/api/Streaming.cpp:279-317 | the erasing loop removes exactly the acknowledged, not nacked packets in order |
| `StreamObject.Stream.SendQuickAck` | src/api/Streaming.cpp:456-517 | the plain acknowledgement with its NACK list, cut when it would exceed 255 entries |
| `StreamObject.Stream.HandleNextPacket` | src/api/Streaming.cpp:131-208 | a packet of any kind, as `StreamSteps.Handles` says outright: first its acknowledgement, then next in sequence, duplicate, or early |
| `StreamObject.Stream.ReceivePacket` | src/api/Streaming.cpp:138-207 | the receiving half, with the saved packets that have become due |
| `StreamObject.Stream.ProcessPacket` | src/api/Streaming.cpp:215-271 | payload queued, last received number set, close, reset and bad signature handled |
| `StreamObject.Stream.ConcatenatePackets` | src/api/Streaming.cpp:592-608 | reading takes the queued bytes in order, splitting a packet if need be |
| `StreamObject.Stream.HandleResendTimer` | src/api/Streaming.cpp:687-740 | exactly the due packets are sent again, in order and with the new time, and if and only if there are any an attempt is counted and window and RTO back off; after six attempts the stream resets |
| `StreamObject.Stream.HandleAckSendTimer` | src/api/Streaming.cpp:742-756 | a scheduled acknowledgement is sent while the stream is open, and the stream is reset if no SYN came, as `StreamSteps.AckTimes` says outright |
| `StreamObject.Stream.Close` | src/api/Streaming.cpp:519-549 | the status machine of closing, with its recursion |
| `StreamObject.Stream.SendClose` | src/api/Streaming.cpp:551-590 | the closing packet takes a number and is posted |
| `StreamObject.Stream.SendPacket` | src/api/Streaming.cpp:610-630 | the first posted packet is sent, and remembered only while the stream is open |
| `StreamObject.Stream.Write` | src/api/Streaming.cpp:328-341 | bytes given to Send join the send buffer and clear its end mark |
| `StreamInvariants.SendBufferOk` | src/api/Streaming.cpp:356-454 | segmentation loses, repeats and reorders no byte; sent packets stay within the window and below the next number |
| `StreamInvariants.ProcessAckOk` | src/api/Streaming.cpp:273-326 | the sender's invariant survives any acknowledgement, and only numbers it claims leave the books |
| `StreamInvariants.QuickAckExact` | src/api/Streaming.cpp:456-517 | an acknowledgement decodes to exactly the received numbers if and only if at most 255 are missing, which is when its NACK list is not cut |
| `StreamInvariants.SendQuickAckOk` | src/api/Streaming.cpp:456-517 | sending it changes no receiving state, and a cut is recorded exactly when 256 or more numbers are missing |
| `StreamInvariants.ResendOk` | src/api/Streaming.cpp:687-740 | resending keeps every sent packet's number and payload and the window bounds |
| `StreamInvariants.WriteOk` | src/api/Streaming.cpp:328-341 | bytes written join those submitted, behind what is still to be sent |
| `StreamInvariants.ConcatenateOk` | src/api/Streaming.cpp:592-608 | a read takes the queued bytes in order, loses none, and stops only for lack of room or of bytes |
| `StreamSteps.SendExactly` | src/api/Streaming.cpp:356-454 | SendBuffer fills the free part of the window with packets numbered on, cut from the buffer without a gap, each full unless it empties the buffer; only the first of a new stream is a SYN; they are sent and remembered, and a closing packet follows the last byte of a closing stream |
| `StreamSteps.PostedExactly` | src/api/Streaming.cpp:610-630 | the first posted packet goes out, and an open stream remembers it |
| `StreamSteps.EraseExactly` | src/api/Streaming.cpp:279-317 | exactly the packets acknowledged and not nacked are forgotten, the others keep their order, and each acknowledged one moves RTT, RTO and window as an average and by at most one |
| `StreamSteps.AckExactly` | src/api/Streaming.cpp:273-326 | if and only if anything was acknowledged the attempts start afresh and sending goes on; a closing stream with nothing left closes |
| `StreamSteps.CloseExactly` | src/api/Streaming.cpp:519-590 | a stream closes with a closing packet as soon as everything was sent and acknowledged, waits before that, closes at once when reset, and is left alone when new |
| `StreamSteps.ProcessTakes` | src/api/Streaming.cpp:215-271 | a processed packet is queued, numbered and, if it ends the stream, answered by closing packets and a reset; otherwise nothing else changes |
| `StreamSteps.QuickAckActs` | src/api/Streaming.cpp:456-517 | exactly one plain packet goes out, exact up to the highest received number if and only if fewer than 256 numbers are missing |
| `StreamSteps.ReceiveExactly` | src/api/Streaming.cpp:138-207 | a due packet is processed with all saved ones that follow it without a gap and acknowledged later, a repeated one is acknowledged at once, an early one is saved |
| `StreamSteps.HandleExactly` | src/api/Streaming.cpp:131-208 | the peer's stream id is taken from the first packet only, and the acknowledgement comes before the packet |
| `StreamSteps.ResendExactly` | src/api/Streaming.cpp:687-740 | the packets whose time is up, and no others, go out again in order and carry the new time; window and RTO back off by the number of the attempt |
| `StreamSteps.AckTimerExactly` | src/api/Streaming.cpp:742-756 | what is scheduled is sent while the stream is open; without anything received the stream resets instead |
| `StreamSteps.ReceivedExactly` | src/api/Streaming.cpp:131-208 | a packet makes exactly its own number received in addition, at once or by being saved |
| `StreamRuns.EventOk` | src/api/Streaming.cpp:131-756 | every event of an end keeps its sending and receiving invariants and loses no number it has not been told was received |
| `StreamRuns.WindowBounds` | src/api/Streaming.cpp:303-313 | in every reachable state the window is 1 to 128 and at most 128 packets, with distinct numbers below the next one, wait for acknowledgement |
| `StreamRuns.PrefixDelivery` | src/api/Streaming.cpp:131-271 | for any drops, repeats and reordering, as long as no end is handed a second SYN, either reader has a prefix of what the other end wrote, and numbers were processed in order, each once |
| `StreamRuns.NothingLost` | src/api/Streaming.cpp:273-326 | every number ever assigned was received by the peer, is still kept for resending, or belongs to a closing packet, unless the peer sent a follow-on or closing packet before it had a SYN, or a cut list |
| `StreamRuns.NackListFits` | src/api/Streaming.cpp:486-490 | until the peer closes, an end that never acknowledged blindly never cuts its NACK list |
| `StreamProgress.ReceivedIsHanded` | src/api/Streaming.cpp:131-208 | in a run without a stale SYN an end has received exactly the numbers it was handed |
| `StreamProgress.HandedIsReadable` | src/api/Streaming.cpp:131-271 | once every number below n was handed over, in any order and however often, the reader can read the first n payloads; once all were and the buffer is empty, everything the peer wrote |
| `StreamLimits.SynExactlyOnce` | src/api/Streaming.cpp:147-149 | a SYN keeps the processed numbers in order, each once, if and only if nothing was processed before |
| `StreamLimits.BlindExactly` | src/api/Streaming.cpp:375-378 | everything SendBuffer sends or posts acknowledges only received numbers, if and only if it builds no follow-on packet before the peer's SYN was processed |
| `StreamLimits.ClosesTrue` | src/api/Streaming.cpp:551-590 | the closing packet acknowledges only received numbers if and only if the peer's SYN was processed |
| `StreamLimits.BlindAckErasesAll` | src/api/Streaming.cpp:279-317 | such an acknowledgement makes its receiver forget every packet it kept |
| `StreamLimits.CutAckIsUntrue` | src/api/Streaming.cpp:486-490 | a state, packet 300 saved behind number 0, whose acknowledgement is cut and claims the missing number 1 |
| `StreamLosses.InOrderExactly` | src/api/Streaming.cpp:131-208 | in every state of a run both ends have processed numbers in order, each once, if and only if no end is handed a SYN after it has processed something |
| `StreamLosses.HandleForgets` | src/api/Streaming.cpp:273-326 | a kept number that a packet acknowledges is gone for good, even if sending resumes in the same step |
| `StreamLosses.NothingLostExactly` | src/api/Streaming.cpp:273-326 | in every state of a run without a second SYN no number is lost, if and only if no end is handed an acknowledgement of a kept number its peer does not have |
| `StreamWitnesses.RepeatedSynDuplicates` | src/api/Streaming.cpp:147-161 | a concrete run of eleven moves, every packet routed as the destination does, in which the answering SYN and packet 1 are delivered twice and the opener's reader has a byte twice |
| `StreamWitnesses.BlindAckLosesSyn` | src/api/Streaming.cpp:689-697 | a concrete run of twelve moves, none of them a repeated SYN, in which an unanswered opener gives up and its closing packet, routed by the stream it comes from, makes the acceptor's first number be kept nowhere though it was never received |
| `Cbc.DecryptEncrypt` | src/core/crypto/AES.cpp:219-224 | CBC decryption inverts encryption for any number of blocks |
| `Cbc.EncryptDecrypt` | src/core/crypto/AES.cpp:149-153 | CBC encryption inverts decryption for any number of blocks |
| `Cbc.EncryptSplit` | src/core/crypto/AES.cpp:149-153 | any split into consecutive calls gives the same ciphertext, chaining by the last block |
| `Cbc.DecryptSplit` | src/core/crypto/AES.cpp:219-224 | any split into consecutive calls gives the same plaintext, chaining by the same block |
| `Cbc.EncryptAt` | src/core/crypto/AES.cpp:149-153 | every block is the encryption of the plain one combined with the ciphertext block before it |
| `Cbc.DecryptAt` | src/core/crypto/AES.cpp:219-224 | every block is the decryption of the cipher one combined with the ciphertext block before it |
| `Cbc.CBCEncryption.Encrypt` | src/core/crypto/AES.cpp:125-155 | the block loop, in place or between ranges that do not meet, and the last block it leaves |
| `Cbc.CBCDecryption.Decrypt` | src/core/crypto/AES.cpp:194-226 | the block loop, in place or not, and the chaining value it leaves, which is that of the encrypting side |
| `TunnelCrypto.LayersCancel` | src/core/tunnel/TunnelCrypto.cpp:73-76 | one layer with its double pass over the IV and its inverse cancel in both orders |
| `TunnelCrypto.LayerEncryptBlocks` | src/core/tunnel/TunnelCrypto.cpp:73-76 | every block of an encrypted layer, with the double pass over the IV |
| `TunnelCrypto.LayerDecryptBlocks` | src/core/tunnel/TunnelCrypto.cpp:110-113 | every block of a decrypted layer, with the double pass over the IV |
| `TunnelCrypto.Encrypt` | src/core/tunnel/TunnelCrypto.cpp:73-76 | a hop's layer, in place or from another buffer, block by block: the IV twice through the cipher, and its first form starting the chain of the 63 data blocks |
| `TunnelCrypto.Decrypt` | src/core/tunnel/TunnelCrypto.cpp:110-113 | the creator's inverse of a layer, in place or from another buffer, block by block |
| `TunnelCrypto.OutboundOnion` | src/core/tunnel/TransitTunnel.cpp:57-75 | for any hop list, the hops' encryptions undo the creator's work on an outbound message |
| `TunnelCrypto.InboundOnion` | src/core/tunnel/Tunnel.cpp:177-188 | for any hop list, the creator undoes the hops' encryptions of an inbound message |
| `TunnelCrypto.TransitPasses` | src/core/tunnel/TransitTunnel.cpp:57-75 | a message passes the hops in tunnel order, each adding its layer block by block |
| `TunnelCrypto.PeelPasses` | src/core/tunnel/Tunnel.cpp:177-188 | the creator takes the layers off from the last hop to the first |
| `TunnelCrypto.EncryptTunnelMsg` | src/core/tunnel/Tunnel.cpp:177-188 | the loop takes off every layer, last hop first, working in place after the first pass, each time block by block as in Decrypt |
| `TunnelBuild.LayOut` | src/core/tunnel/Tunnel.cpp:82-98 | real and fake records land at their shuffled places, and each hop knows its own |
| `TunnelBuild.DecryptRealRecords` | src/core/tunnel/Tunnel.cpp:99-114 | the nested loops pre-decrypt, in the buffer, exactly the records of later hops |
| `TunnelBuild.Build` | src/core/tunnel/Tunnel.cpp:61-114 | the message is the pre-decryption of the created records for any shuffle and hop count |
| `TunnelBuild.HandleBuildRequestRecords` | src/core/I2NPProtocol.cpp:312-362 | a router without a record leaves the message alone; otherwise its first record becomes a reply with return code and digest, and then all records are encrypted under what that record opened to |
| `TunnelBuild.HopAnswers` | src/core/I2NPProtocol.cpp:312-362 | the same for any records and any ident, record by record; what is not code or digest stays in the reply |
| `TunnelBuild.HopPeels` | src/core/I2NPProtocol.cpp:350-357 | one hop finds its record as the creator wrote it and takes one layer off every later one |
| `TunnelBuild.RequestReachesHop` | src/core/tunnel/Tunnel.cpp:99-114 | for any hop count and shuffle, when hop k is reached its record is what the creator wrote before pre-decryption |
| `TunnelBuild.Tunnel.HandleTunnelBuildResponse` | src/core/tunnel/Tunnel.cpp:128-175 | the nested loops unwrap the replies in the buffer, and the tunnel is established exactly if every return code is 0 |
| `TunnelBuild.UnwrapBeyond` | src/core/tunnel/Tunnel.cpp:138-148 | records beyond the count the message claims are left alone |
| `TunnelBuild.ReplyRecovered` | src/core/tunnel/Tunnel.cpp:128-175 | after the whole trip the creator recovers every hop's reply, and the codes are all 0 if and only if all hops accepted |
| `I2NP.I2NPMessage.ToSSU` | src/core/I2NPProtocol.h:268-281 | the short header written over the end of the full one, with the payload behind it |
| `I2NP.I2NPMessage.FromSSU` | src/core/I2NPProtocol.h:255-265 | the full header rebuilt over the short one describes the transmitted message |
| `I2NP.I2NPMessage.Assign` | src/core/I2NPProtocol.h:241-247 | assignment copies the content and takes over the nominal size |
| `I2NP.Attach` | src/core/transport/SSUData.cpp:45-57 | a fragment is appended, moving to a large buffer if the nominal size is exceeded; the old nominal size is kept and no byte is lost |
| `I2NP.SsuRoundTrip` | src/core/I2NPProtocol.h:255-281 | type, id and payload survive; the expiration is rounded to seconds if and only if these fit into 32 bits |
| `I2NP.HeaderRoundTrip` | src/core/I2NPProtocol.h:50-55 | type, id, expiration, size and payload are read back from the header written for them |
| `SsuData.SplitMessage` | src/core/transport/SSUData.cpp:322-388 | the fragment loop of Send makes one packet for every fragment of the split message, with the low 24 bits of its info |
| `SsuData.SplitOk` | src/core/transport/SSUData.cpp:322-388 | fragments are numbered consecutively, only the last is marked, all others are full, none is empty or too long, and together they are the message |
| `SsuData.InfoOnWire` | src/core/transport/SSUData.cpp:360-366 | of the 24 bits sent, the receiver reads flag and size unchanged and the number modulo 128 |
| `SsuData.PacketOnWire` | src/core/transport/SSUData.cpp:171-190 | a packet is parsed to the fragment sent, but for the high bits of its number, whatever padding follows |
| `SsuData.PacketRoundTrip` | src/core/transport/SSUData.cpp:171-292 | a packet is parsed back to the fragment sent if and only if the number is below 128 |
| `SsuData.ManyOnWire` | src/core/transport/SSUData.cpp:171-190 | all fragments of a packet are taken out of it in order |
| `SsuData.OversizedEnds` | src/core/transport/SSUData.cpp:184-189 | those before an oversized one are, and nothing from there on |
| `SsuData.TakeExactly` | src/core/transport/SSUData.cpp:199-251 | what any fragment, genuine or not, does to a message being rebuilt |
| `SsuData.DispatchExactly` | src/core/transport/SSUData.cpp:260-283 | which complete messages are handed on and which ids are remembered, in both states of the session |
| `SsuData.FragmentExactly` | src/core/transport/SSUData.cpp:199-289 | any fragment is acknowledged, up to number 64, and changes only its own message; the one that completes it makes it leave the table and be handed on if it is due |
| `SsuData.SSUData.ProcessFragments` | src/core/transport/SSUData.cpp:171-292 | all fragments of a packet of any bytes, one after the other, up to an oversized one, on the maps of incomplete and received messages |
| `SsuData.SSUData.ProcessFragment` | src/core/transport/SSUData.cpp:199-289 | one fragment of any kind, as `SsuData.Processed` says outright: attached with all saved ones that follow it, ignored, or saved, and acknowledged; a complete message is handed on if and only if its id is not remembered, or, before the session is established, if it is a database store |
| `SsuData.SSUData.HandleIncompleteMessagesCleanupTimer` | src/core/transport/SSUData.cpp:512-530 | exactly the messages whose insertion time is more than 30 seconds ago are dropped |
| `SsuData.SSUData.HandleDecayTimer` | src/core/transport/SSUData.cpp:493-497 | the received ids are forgotten |
| `SsuRuns.TrySavedOk` | src/core/transport/SSUData.cpp:204-226 | the loop over saved fragments completes the message or stops with all saved ones strictly above the next |
| `SsuRuns.TakeOk` | src/core/transport/SSUData.cpp:204-251 | one genuine fragment keeps an unfinished message a prefix of what was sent, or completes it |
| `SsuRuns.ReassemblySafe` | src/core/transport/SSUData.cpp:171-292 | after any packets, clean-ups and decays, unfinished messages of at most 128 fragments are prefixes with later fragments in reserve, and finished ones equal what was sent |
| `SsuRuns.Completes` | src/core/transport/SSUData.cpp:204-252 | once the packets of all, at most 128, fragments arrived without a clean-up in between, in any order, the message has been completed |
| `SsuRuns.HandedOnce` | src/core/transport/SSUData.cpp:260-270 | in the established state an id is handed on at most once between clearings |
| `SsuProgress.CompletedIsHanded` | src/core/transport/SSUData.cpp:260-267 | in the established state every message completed in a run is handed on, whatever came before it, unless its id was remembered |
| `SsuProgress.ArrivedIsHanded` | src/core/transport/SSUData.cpp:199-267 | once the packets of all, at most 128, fragments arrived, in any order and without a clean-up, the message has been handed on as it was sent |
| `SsuProgress.AcksExactly` | src/core/transport/SSUData.cpp:252-259 | in every run exactly the completed messages are acknowledged as a whole, in order |
| `SsuProgress.EstablishedExactly` | src/core/transport/SSUData.cpp:268-283 | a new session is established if and only if a DeliveryStatus was completed, and until then exactly the database stores are handed on |
| `SsuProgress.ForgottenExactly` | src/core/transport/SSUData.cpp:512-530 | in every run an unfinished message survives a clean-up if and only if one of its fragments was saved ahead of missing ones within 30 seconds |
| `SsuProgress.FirstForgotten` | src/core/transport/SSUData.cpp:518-519 | the first fragment of a longer message does not survive a clean-up in the same second |
| `SsuRuns.EndToEnd` | src/core/transport/SSUData.cpp:252-259 | a message of at most 128 fragments that is handed on has type, id and payload of the one sent, and its expiration in whole seconds, through ToSSU, packets of a size of its own, any run, and FromSSU |
| `SsuLimits.SurvivesExactly` | src/core/transport/SSUData.cpp:360-365 | a message is never handed on as anything else, in any run of the receiver, if and only if it has at most 128 fragments |
| `SsuLimits.CompletesExactly` | src/core/transport/SSUData.cpp:185 | without loss and in order, it is completed if and only if it has at most 128 fragments |
| `SsuLimits.OneTooMany` | src/core/transport/SSUData.cpp:199-252 | of any message of 129 fragments, the packet of the last one alone makes a new receiver hand on just that fragment |
| `SsuLimits.LongMessageMistaken` | src/core/transport/SSUData.cpp:86-105 | such a message: 2300 bytes for a router that announces an MTU of 92 |
| `SsuAcks.ProcessBitfield` | src/core/transport/SSUData.cpp:145-166 | the do-while loop drops exactly the held fragments that some bit of the bitfield stands for |
| `SsuAcks.DecodesExactly` | src/core/transport/SSUData.cpp:145-166 | bit j of a byte of the bitfield stands for the j-th fragment after seven for every earlier byte with some bit set |
| `SsuAcks.AckDecodes` | src/core/transport/SSUData.cpp:407-433 | the bitfield written for fragment n is decoded as fragment n modulo 7 |
| `SsuAcks.AckUnderstood` | src/core/transport/SSUData.cpp:151-163 | an acknowledgement is understood correctly if and only if the number is below 7 |
| `Ntcp.FrameSize` | src/core/transport/NTCPSession.cpp:740-748 | padding makes a frame whole blocks with less than a block to spare |
| `Ntcp.TakenExactly` | src/core/transport/NTCPSession.cpp:663-705 | any decrypted block is skipped as time, ends the session as oversized, joins the message at hand, or completes it, which delivers it if and only if the checksum is right |
| `Ntcp.ShapedFrame` | src/core/transport/NTCPSession.cpp:663-705 | a frame of any bytes delivers its message if and only if its last four bytes are the checksum of the others |
| `Ntcp.GarbledDropped` | src/core/transport/NTCPSession.cpp:693-702 | in a stream of frames, garbled ones cost no other frame its delivery |
| `Ntcp.InsideFrame` | src/core/transport/NTCPSession.cpp:663-705 | before the last block of a frame nothing is delivered: the end is not seen early |
| `Ntcp.WholeFrame` | src/core/transport/NTCPSession.cpp:663-705 | a frame ends with its last block, delivers its message, and a header is expected again |
| `Ntcp.StreamDelivers` | src/core/transport/NTCPSession.cpp:663-705 | after n blocks of any sequence of frames, exactly the messages of complete frames are delivered |
| `Ntcp.SendAllIsOneStream` | src/core/transport/NTCPSession.cpp:749 | frames encrypted one call at a time form one CBC stream |
| `Ntcp.FeedSplit` | src/core/transport/NTCPSession.cpp:618-655 | where reads cut the bytes makes no difference |
| `Ntcp.FramingRoundTrip` | src/core/transport/NTCPSession.cpp:607-751 | for messages of 1 to 16384 bytes and time frames, any part of the stream in any chunks delivers exactly the complete messages in order, and the whole stream all of them |
| `Ntcp.NTCPSession.DecryptNextBlock` | src/core/transport/NTCPSession.cpp:663-705 | one block, whatever it decrypts to: time frame, oversized message, part of a message; a complete message is delivered if and only if its checksum is right, and then a header is expected |
| `Ntcp.NTCPSession.ProcessBuffer` | src/core/transport/NTCPSession.cpp:622-632 | all complete blocks are used and the rest moves to the front |
| `Ntcp.NTCPSession.HandleReceived` | src/core/transport/NTCPSession.cpp:607-661 | a read with up to five reloads, each as far as there is room and until one leaves less than a block, ends where feeding the same bytes at once ends, or in failure if they contain a bad size |
| `NtcpSend.NTCPSender.CreateMsgBuffer` | src/core/transport/NTCPSession.cpp:722-751 | the message's own buffer then holds its encrypted frame, in the running chain, and is otherwise unchanged |
| `NtcpSend.NTCPSender.CreateTimeBuffer` | src/core/transport/NTCPSession.cpp:733-751 | the frame of the time, with what the session's buffer held as its padding, encrypted there |
| `NtcpSend.NTCPSender.Send` | src/core/transport/NTCPSession.cpp:754-769 | all buffers are prepared one after the other, and then one write refers to them, twice to the same one if an object comes twice |
| `NtcpSend.NTCPSender.Connected` | src/core/transport/NTCPSession.cpp:130-140 | the time goes out first, the router info is queued behind it |
| `NtcpSend.NTCPSender.PostI2NPMessages` | src/core/transport/NTCPSession.cpp:806-816 | message objects are written, queued behind a write, or dropped after termination, and exactly a write changes buffers |
| `NtcpSend.NTCPSender.HandleSent` | src/core/transport/NTCPSession.cpp:771-791 | a finished write starts one with the whole queue, a failed one leaves the queue and all buffers |
| `NtcpSend.NTCPSender.Terminate` | src/core/transport/NTCPSession.cpp:116-128 | the first termination clears the queue |
| `NtcpBuffers.DistinctWrite` | src/core/transport/NTCPSession.cpp:754-769 | a write of different objects sends the frames of what their buffers hold, in one chain |
| `NtcpBuffers.SentAsFramed` | src/core/transport/NTCPSession.cpp:722-769 | over any number of writes, each of different objects, what is sent is one chain of frames of what the buffers held when these were made |
| `NtcpBuffers.DistinctRight` | src/core/transport/NTCPSession.cpp:722-769 | if no object is written twice, these are the frames of the messages as they were at first |
| `NtcpRepeats.WrongAcross` | src/core/transport/NTCPSession.cpp:749 | an object written in two writes spoils the stream, shown for messages of any lengths |
| `NtcpRepeats.WrongWithin` | src/core/transport/NTCPSession.cpp:754-769 | so does an object that one write refers to twice |
| `NtcpRepeats.RightExactly` | src/core/transport/NTCPSession.cpp:722-769 | whatever the messages' lengths, the wire carries their frames for every cipher, checksum, chaining value and content if and only if no object is written twice |
| `NtcpRuns.RunOrdered` | src/core/transport/NTCPSession.cpp:707-816 | unless a write fails with messages queued, at most one write is outstanding and written and queued objects are the first of the posted ones in order; they are all of them if and only if no termination met a non-empty queue |
| `NtcpRuns.FinishedOrdered` | src/core/transport/NTCPSession.cpp:771-791 | after a successful write nothing waits any more: all that did is in one further write |
| `NtcpRuns.IdleAllWritten` | src/core/transport/NTCPSession.cpp:707-816 | in such a run, whenever no write is under way before termination, all that was posted has been written |
| `NtcpRuns.TerminatedForGood` | src/core/transport/NTCPSession.cpp:116-128 | a terminated session never writes or accepts anything again |
| `NtcpRuns.TerminatedOrdered` | src/core/transport/NTCPSession.cpp:116-128 | one termination keeps everything accounted for if and only if nothing was queued |
| `NtcpRuns.ErrorOrdered` | src/core/transport/NTCPSession.cpp:775-780 | a write error keeps this if and only if nothing was queued |
| `NtcpRuns.ErrorAfterConnected` | src/core/transport/NTCPSession.cpp:130-140 | such an error right after Connected leaves the router info behind, with no write under way |
| `NtcpRuns.ErrorOvertakes` | src/core/transport/NTCPSession.cpp:806-816 | after such an error the next messages overtake the queue, unless the two commute |
| `NtcpRuns.ReceivedAsFramed` | src/core/transport/NTCPSession.cpp:607-816 | as long as no write refers to an object twice, any part of the ciphertext in any chunks delivers what the buffers held when their frames were made |
| `NtcpRuns.SentIsReceived` | src/core/transport/NTCPSession.cpp:607-816 | sender and receiver together deliver the posted messages in order, for any part of the ciphertext in any chunks, unless a write fails with messages queued or an object is posted twice |
| `NtcpRuns.RunRightExactly` | src/core/transport/NTCPSession.cpp:707-816 | in any such run the wire is right for every cipher, checksum, chaining value and content if and only if no object was written twice |
| `NtcpRuns.SecondDelivery` | src/core/transport/NTCPSession.cpp:722-751 | an object written again on its own is delivered as the ciphertext of its first frame, which is right if and only if that equals the message |
| `NtcpRuns.FloodSends` | src/core/transport/NTCPSession.cpp:754-791 | for any cipher, three posts of one object, two of them during the first write, send its first frame and then twice the third encryption |
| `NtcpFlood.FloodWrites` | src/core/NetworkDatabase.cpp:521-526 | three posts in a row make the session write the object on its own and then twice at once |
| `NtcpFlood.PostedTwice` | src/core/transport/NTCPSession.cpp:722-751 | with a concrete cipher, a one-byte message 7 posted twice arrives as 7 and as 8 |
| `NtcpFlood.FloodedThrice` | src/core/NetworkDatabase.cpp:521-526 | with it, the message posted three times in a row is delivered once, and the receiver then waits for bytes that are not sent |
| `GarlicTags.GarlicRoutingSession.FindTag` | src/core/Garlic.cpp:146-162 | the first tag not expired, if there is one: those before it, all expired, are thrown away, and all behind it are left |
| `GarlicTags.PickTagOk` | src/core/Garlic.cpp:151-161 | of any list, the first usable tag is found, with only unusable ones before it and all others left behind it |
| `GarlicTags.WrapExactly` | src/core/Garlic.cpp:140-229 | of any session: which tag is used, when new ones come along, when a DeliveryStatus does, and what is waited for |
| `GarlicTags.CleanupExactly` | src/core/Garlic.cpp:117-138 | of any session exactly the usable tags are left, in their order, and exactly the unexpired entries |
| `GarlicTags.AddTagsExactly` | src/core/Garlic.cpp:455-457 | any list of tags, also with repetitions, enters a table with its key, leaving the age of those there |
| `GarlicTags.HandleExactly` | src/core/Garlic.cpp:381-441 | for any table and message, which tags are there afterwards, with which key and age |
| `GarlicTags.GarlicRoutingSession.WrapSingleMessage` | src/core/Garlic.cpp:140-229 | the first usable tag is used, new tags come along if and only if at most two thirds are left, a DeliveryStatus for them or a new LeaseSet if there is a tunnel, and only tags wait for it; nothing is made if and only if there is neither a destination nor a usable tag |
| `GarlicTags.GarlicRoutingSession.TagsConfirmed` | src/core/Garlic.cpp:103-115 | the confirmed tags join the list in order and with their age, unless they are too old, and their entry goes |
| `GarlicTags.GarlicRoutingSession.CleanupExpiredTags` | src/core/Garlic.cpp:117-138 | exactly the expired tags and entries go, the others keep their order, and the result is that a tag is left or no entry is |
| `GarlicTags.LeftExactly` | src/core/Garlic.cpp:137 | this result says whether anything is left if and only if a usable tag is left |
| `GarlicTags.OnlyUnconfirmedLeft` | src/core/Garlic.cpp:137 | a session waiting for its first tags to be confirmed is reported empty, and an empty session is not |
| `GarlicTags.GarlicDestination.StoreTags` | src/core/Garlic.cpp:455-457 | exactly the new tags join the table, with the new key; those already there keep their age |
| `GarlicTags.GarlicDestination.HandleGarlicMessage` | src/core/Garlic.cpp:381-441 | a tag is used up, new tags are stored if the message is understood, and exactly the expired ones go when a clean-up is due |
| `GarlicRuns.WrapAgrees` | src/core/Garlic.cpp:140-229 | wrapping keeps sender and receiver in agreement |
| `GarlicRuns.ArriveAgrees` | src/core/Garlic.cpp:381-458 | any arrival, also a repeated or late one, keeps the agreement |
| `GarlicRuns.ConfirmAgrees` | src/core/Garlic.cpp:103-115 | confirmation keeps the agreement |
| `GarlicRuns.CleanupAgrees` | src/core/Garlic.cpp:117-138 | clean-up keeps the agreement |
| `GarlicRuns.FirstArrivalUnderstood` | src/core/Garlic.cpp:392-405 | in every run with fresh tags, a first arrival within 241 seconds finds its tag bound to the key of its session |
| `GarlicRuns.NeverWrongKey` | src/core/Garlic.cpp:392-405 | in every run no arrival, however late or repeated, is decrypted with a key the message was not encrypted with |
| `GarlicRuns.TagsUsedOnce` | src/core/Garlic.cpp:151-161 | no tag is ever sent twice, by any session |
| `GarlicRuns.TransitBoundIsExact` | src/core/Garlic.h:69-70 | first arrivals are always understood if and only if transit takes at most 241 seconds |
| `GarlicCodec.CloveRead` | src/core/Garlic.cpp:489-543 | a printed clove gives its instructions and message and the next clove is found, if and only if the message's size field is right |
| `GarlicCodec.PayloadRead` | src/core/Garlic.cpp:481-544 | a printed payload gives what is to be done for every clove, in order |
| `GarlicCodec.BlockRoundTrip` | src/core/Garlic.cpp:443-544 | whatever follows it, a printed block gives exactly its tags and its cloves' messages with their delivery instructions |
| `GarlicCodec.EncryptedRoundTrip` | src/core/Garlic.cpp:198-229 | the same through encryption by the session and decryption by the destination |
| `GarlicReceive.AnyCloveRead` | src/core/Garlic.cpp:489-538 | a clove of any delivery type, encrypted or not, is read and the next one is found behind it; those for routers, and for tunnels without one to send through, are skipped |
| `GarlicReceive.AnyPayloadRead` | src/core/Garlic.cpp:481-544 | a payload of any such cloves does what they say, in their order |
| `GarlicReceive.LongCloveEnds` | src/core/Garlic.cpp:539-543 | a clove that ends beyond the payload is the last one worked off |
| `GarlicReceive.AcceptedExactly` | src/core/Garlic.cpp:462-478 | a payload is accepted if and only if it fits and has the right hash; a new session key is skipped |
| `GarlicReceive.TagsExactly` | src/core/Garlic.cpp:447-461 | tags are stored if and only if there is room for as many as the block says |
| `GarlicBuffers.PayloadDoes` | src/core/Garlic.cpp:231-287 | what the destination does with a payload: the DeliveryStatus to our tunnel, if there is something to confirm, a LeaseSet that is due, and the message |
| `GarlicBuffers.CloveWriter.CreateGarlicClove` | src/core/Garlic.cpp:289-314 | the clove's bytes at their place in the buffer, and nothing else changed |
| `GarlicBuffers.CloveWriter.CreateDeliveryStatusClove` | src/core/Garlic.cpp:316-359 | a tunnel clove with the wrapped status message, or nothing without an inbound tunnel |
| `GarlicBuffers.CloveWriter.CreateGarlicPayload` | src/core/Garlic.cpp:231-287 | status, LeaseSet and message cloves in this order, each if due, counted in the first byte, and the new LeaseSet status |
| `GarlicBuffers.CloveWriter.CreateAESBlock` | src/core/Garlic.cpp:198-229 | tags, then size and hash filled in afterwards, then the payload, padded to whole blocks |
| `GarlicBuffers.HandleClove` | src/core/Garlic.cpp:489-538 | one turn of the clove loop on arbitrary bytes |
| `GarlicBuffers.HandleGarlicPayload` | src/core/Garlic.cpp:481-544 | the loop does for arbitrary bytes what the recursive reading says, with the early end |
| `GarlicBuffers.HandleAESBlock` | src/core/Garlic.cpp:443-479 | tags are stored before the payload is judged; a wrong size or hash stops there |
| `GarlicBuffers.CarryBlock` | src/core/Garlic.cpp:198-229 | the block CreateAESBlock leaves in the buffer, encrypted and decrypted, makes HandleAESBlock store exactly the new tags and do exactly that; a LeaseSet is due if it is new or was sent more than four seconds ago without confirmation |
| `NetDb.MetricInjective` | src/core/Identity.cpp:643-653 | with a fixed key different idents have different metrics |
| `Bytes.XorBit` | src/core/Identity.cpp:643-653 | a bit of the exclusive or is set if and only if exactly one of the two is |
| `Bytes.MostSignificantFirst` | src/core/util/I2PEndian.h:101-106 | the first byte of a number is the most significant one |
| `NetDb.CloserTotal` | src/core/Identity.h:327-329 | comparing metrics as bytes orders idents totally |
| `NetDb.OfferExactly` | src/core/NetworkDatabase.cpp:944-949 | one more ident keeps the bounded set the front of the complete one if and only if it is not in a full set elsewhere than in its last place |
| `NetDb.OfferOldAt` | src/core/NetworkDatabase.cpp:946-949 | offered again to a full set, an ident before the last place erases the last one, and any other changes nothing |
| `NetDb.BoundedExactly` | src/core/NetworkDatabase.cpp:941-951 | the bounded set is right after every step if and only if that never happens |
| `NetDb.DistinctRefines` | src/core/NetworkDatabase.cpp:941-951 | for different idents, the bounded set is the sorted list cut after num |
| `NetDb.RepeatedErasesLast` | src/core/NetworkDatabase.cpp:946-949 | for any two routers, offering the closer one again to a set of two leaves it alone in the set, though sorting gives both |
| `NetDb.OfferedAgainErasesLast` | src/core/NetworkDatabase.cpp:946-949 | the same for two concrete idents |
| `NetDb.RepeatedFloodfill` | src/core/NetworkDatabase.cpp:927-967 | GetClosestFloodfills on a list that holds one of two routers twice returns only that one |
| `NetDb.SelectedExactly` | src/core/NetworkDatabase.cpp:927-967 | sorting, taking num and dropping gives, closest first, exactly the reachable routers not excluded with fewer than num reachable routers closer, excluded ones counting |
| `NetDb.NetDb.GetClosestFloodfills` | src/core/NetworkDatabase.cpp:927-967 | bounded selection, then dropping excluded ones; for different idents the result is, closest first, exactly the reachable routers not excluded with fewer than num reachable routers closer |
| `NetDb.NetDb.GetClosestFloodfill` | src/core/NetworkDatabase.cpp:907-925 | the closest candidate; none exactly if every candidate is opposite to the key |

## Left out

- Sockets, asio timers, threads and mutexes: every handler is one atomic step, and timers fire at any time.
- Handshakes, key exchange, lease and tunnel selection, tunnel pools, profiles, proxies and configuration: not part of
  this model.
- ElGamal, SHA-256, Adler-32, signatures, random numbers and the AESNI code: functions of which nothing is used, or
  parameters.
- Streaming packets are records, not bytes; options appear only as the flag that a signature does not verify. Of a
  destination's streams two are modelled, so a SYN that opens a further stream is lost to them. SendPackets always has a
  lease and an outbound tunnel, as a dropped packet covers the rest.
- StreamObject.Stream.ProcessAck: sequence numbers, times and RTT products are unbounded; wrap-around of 32-bit numbers
  and of `m_RTT * seqn` is not modelled, and RTO is rounded down after multiplying by 3/2.
- StreamObject.Stream.HandleNextPacket: what it amounts to is stated for states that meet StreamInvariants.SenderOk and
  ReceiverOk, as every reachable one does (StreamRuns.RunBase), and likewise for SSU states in which saved fragments are
  ordered, as a std::set keeps them (SsuData.Ordered).
- StreamRuns.PrefixDelivery: carries the hypothesis that no end is handed a SYN after it processed a packet, because the
  property is false without it (StreamWitnesses.RepeatedSynDuplicates); StreamLosses.InOrderExactly has the exact
  condition.
- StreamRuns.NothingLost: carries the hypotheses that the peer never acknowledged before it had a SYN or with a cut
  list, because the property is false without them (StreamWitnesses.BlindAckLosesSyn); StreamLosses.NothingLostExactly
  has the exact condition.
- TunnelBuild.Build: a tunnel has at least one hop, as the configuration always gives it.
- TunnelBuild.RequestReachesHop: assumes that the 16-byte prefix picks the intended record, as the prefix of a random or
  decrypted record could be anything. Records and hop keys are sequences; creating the transit tunnel and ElGamal
  decryption of a record are the parameters of Router.
- TunnelCrypto.Encrypt: makes its CBC object anew instead of keeping one per hop, which changes nothing as every call
  sets the IV; tunnel ids and headers of tunnel data messages are left out.
- SsuData.SSUData.ProcessFragments: keeps incomplete messages as values in a map instead of objects behind pointers; the
  in-place growth of a message's buffer is modelled apart, in I2NP.Attach, and a message is taken to fit into 32768
  bytes. Where the source would read beyond a packet, reading stops.
- SsuRuns.EndToEnd: carries the hypothesis that a message has at most 128 fragments, because the property is false
  without it (SsuLimits.SurvivesExactly); packets have at most 1456 bytes, messages at most 32768, and expirations in
  seconds fit into 32 bits.
- SsuData.SplitMessage: packet sizes of 46 or less, for which the loop does not end, are excluded. Padding, resending
  and the choice of the packet size are left out.
- SsuAcks.ProcessBitfield: one bitfield of a packet that holds its last byte; explicit acknowledgements, which erase a
  sent message, are left out.
- Ntcp.NTCPSession.HandleReceived: the first read fits into the receive buffer; the counters and the termination timer
  are left out.
- NtcpRuns.SentIsReceived: carries the hypothesis that no message object is posted twice, because the property is false
  without it (NtcpFlood.FloodedThrice); NtcpRuns.RunRightExactly has the exact condition. One session is modelled: an
  object posted to several sessions is overwritten by each of them.
- NtcpSend.NTCPSender.CreateMsgBuffer: requires two bytes before the message and room for padding and checksum behind
  it, as the source takes for granted.
- GarlicTags.GarlicDestination.HandleGarlicMessage: the first 32 bytes of an ElGamal block are taken to be no known tag,
  and a block decrypted with a wrong key, which no run contains (GarlicRuns.NeverWrongKey), to store no tag; length
  errors of a message are left out.
- GarlicRuns.FirstArrivalUnderstood: assumes fresh tags and message ids, which the source draws at random, and a common
  clock in whole seconds.
- GarlicBuffers.CloveWriter.CreateAESBlock: encryption is a separate step, joined to it in GarlicBuffers.CarryBlock; the
  wrapped DeliveryStatus message is given, and handing its one-time key to the owner is left out.
- GarlicBuffers.HandleGarlicPayload: where the source would read beyond its buffer, reading stops; what is done with a
  handled message is left out.
- NetDb.NetDb.GetClosestFloodfills: requires at least one to be asked for, since the source looks at the last element of
  an empty set otherwise. The routing key of a destination, a hash of ident and date, is a parameter.
