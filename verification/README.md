# go-mold: a verified model of the MoldUDP64 receiver and its transmit ring

go-mold receives a MoldUDP64 session: numbered messages arrive in UDP packets that may be lost,
repeated or reordered, and a reader gets them once and in order. On the sending side it pushes
frames through a memory-mapped ring shared with the kernel. This project models both and proves
what they promise over whole runs.

| file | models |
|---|---|
| `Wire.dfy`, `Codec.dfy` | bytes, the packet header and message blocks of `moldUDP.go` |
| `MsgCache.dfy` | the paged sparse cache of `msgCache.go`, as a class over arrays, against a map |
| `Protocol.dfy`, `Intake.dfy` | the transitions of `client.go` as functions on the client's state, and what it takes in, byte for byte |
| `Runs.dfy` | runs: any interleaving of datagrams, handled packets, ticks and reader turns, with logs |
| `Client.dfy` | the `Client` class; each method is proved to perform the transition of its name |
| `Delivery.dfy`, `Stopping.dfy`, `Requests.dfy` | what every run delivers, when it stops, what it requests |
| `EndToEnd.dfy` | from a sender's messages through a bad channel to the reader |
| `TxRing.dfy` | the transmit ring of `zsocket.go` as atomic steps of one producer, any number of flushers and the kernel |
| `RingSafety.dfy`, `RingTheorems.dfy`, `RingProgress.dfy` | the invariant of that protocol, its consequences, and why every fair run comes to an end |
| `ZSock.dfy`, `ZSockIf.dfy` | `ZSocket`, with the kernel's send loop, and `zsockIf` as classes on one thread; every access to a counter, flag or status word is a step of the protocol |
| `Bpf.dfy`, `Frames.dfy` | the packet filter of `rsocket.go` and the frame headers of `socket.go` |

## Assumptions

- Each call of `doMsgBuf`, each timer tick and each turn of the loop in `Read` is one atomic step. The
  source locks only the hand-over of `ready` (client.go:239-245 and 281-285).
- Events may go on after the client has stopped. The source lets at most one more handled packet or tick
  through, while its ring-buffer path goes on queueing datagrams (client.go:406-422); the statements cover
  that and more.
- Sequence numbers do not wrap 64 bits. The model computes with unbounded numbers; `Delivery.NoWrap`
  shows that the client never gets past the highest number its packets end at.
- Time is a parameter of the steps, in nanoseconds, with 0 for the zero time of a fresh client.
- `Poll` and `Sendto` succeed, and `Sendto` returns when the frames its caller requested are completed;
  the kernel may complete any requested frame at any time before that, and may refuse any for its format.
  There is one producer. In `ZSocket` the kernel refuses by a fixed test, works in ring order from its own
  place, and is driven by the status words alone.
- Reading the status of a frame and clearing its flag, in the last loop of `FlushFrames`, is one step: a
  completed frame's status changes only once its slot is used again.
- Page and offset of a sequence number are its quotient and remainder by 2^20 (shift and mask in the source).

## Where the code does less than one expects

Each of these is proved for all inputs, with the exact condition.

- A session name comes back from the wire unchanged only if it is empty, or has 2 to 10 bytes and no
  trailing blank (`Codec.HeaderRoundTrip`). Nothing is seen of a name of one byte, so a client that has
  heard one such session goes on to admit any other (`EndToEnd.SecondSession`, `EndToEnd.TrimmedIsEmpty`).
- The comment at client.go:183 expects a packet that is short of its count to be rejected. It is accepted,
  padded with empty messages (`EndToEnd.CountMismatch`); the check below the comment never fires on a
  queued packet (`EndToEnd.CountCheckNeverFires`).
- `storeCache` tests the slot it has just filled, so it answers 0 and an out-of-order packet never asks
  for the gap before it (`Clients.Client.StoreCache`, `Requests.OutOfOrderOnlyCaches`). The request after
  it is dead code, and so is the update of `seqMax` at client.go:230-232
  (`Stopping.DataLeavesSeqMax`). The update in the end-of-session branch changes nothing that the request
  after it would not (`Stopping.SeqMaxExactly`).
- The number that `Read` reports with a batch is that of its first message only if the frontier had not
  moved since the last read when the last in-order packet came (`Stopping.ReportedPosition`). Two packets
  between two reads are enough to get it wrong (`EndToEnd.ReportedPositionOff`).
- `Marshal` cuts a length to 16 bits (`Codec.MarshalRoundTrip`); the frame builder cuts ports and lengths
  (`Frames.BuiltFrameAccepted`, `Frames.LengthsAgree`).
- `Send` and `MSend` ignore the error list of `FlushFrames`. Over any calls, as many frames go out as the
  answers report packets if and only if the kernel accepts the frame of each (`ZSockIfs.ZSockIf.Drive`);
  `ZSockIfs.SendOfRefused` is a call that is answered as sent with nothing on the wire.

## Model

| member | source | states |
|---|---|---|
| `Wire.BigEndianRoundTrip` | encode.go:7 | decoding the big-endian bytes of a number gives it back if it fits the width |
| `Wire.BigEndianAt` | encode.go:7 | at every width, byte i of the encoding is the digit to base 256 at that place from the left |
| `Wire.EightBytes` | encode.go:7 | eight bytes decode to their sum with weights 256^7 down to 1 |
| `Wire.FromBigEndianRoundTrip` | encode.go:7 | every byte string is the encoding of the number it decodes to |
| `Codec.HeadBytesExact` | moldUDP.go:43-56 | all twenty bytes of a header: session cut or padded with 0x20, then the two numbers, high byte first |
| `Codec.DecodedExact` | moldUDP.go:58-74 | what is read from twenty bytes: where the session ends, and both numbers as sums over the bytes |
| `Codec.EncodeHead` | moldUDP.go:43-56 | too short a buffer is refused untouched; otherwise exactly the first 20 bytes are replaced by the header's |
| `Codec.DecodeHead` | moldUDP.go:58-74 | too short a buffer is refused; otherwise the scan from byte 9 down finds the session's end |
| `Codec.HeaderRoundTrip` | moldUDP.go:43-74 | decode after encode restores both numbers always, and the session if and only if it survives |
| `Codec.DecodedSurvives` | moldUDP.go:58-74 | whatever the decoder yields as a session survives another trip |
| `Codec.HeaderReencode` | moldUDP.go:43-74 | encode after decode restores the 20 bytes if and only if byte 0 is not the only non-blank of the session |
| `Codec.Unmarshal` | moldUDP.go:76-111 | the scanning loop answers what the recursive parse of the buffer answers |
| `Codec.UnmarshalExact` | moldUDP.go:76-111 | a zero count looks at nothing; for others success if and only if the buffer is a concatenation of at most cnt blocks; the answer is those and empty messages; the split is unique |
| `Codec.ParseSound` | moldUDP.go:76-111 | a successful parse yields the blocks the buffer is made of |
| `Codec.ParseComplete` | moldUDP.go:76-111 | every concatenation of at most cnt blocks parses, with padding |
| `Codec.BlockExact` | moldUDP.go:120-125 | a block is sixteen bits of the length, high byte first, and the data |
| `Codec.BlocksInjective` | moldUDP.go:113-129 | two lists of messages with the same bytes are the same list |
| `Codec.Marshal` | moldUDP.go:113-129 | the blocks of a prefix are written in place, the rest of the buffer is untouched, and one more message would not fit |
| `Codec.MarshalLongest` | moldUDP.go:113-129 | a prefix fits if and only if it is no longer than the one written |
| `Codec.MarshalRoundTrip` | moldUDP.go:76-129 | unmarshalling restores the messages if and only if all lengths are below 65536 |
| `MsgCaching.RunFrom` | msgCache.go:54-96 | the values of the contiguous run from a number on, up to the first number that is absent |
| `MsgCaching.RunFromUnique` | msgCache.go:54-96 | that description has one solution |
| `MsgCaching.MsgCache.constructor` | msgCache.go:17-20 | sixteen pages that stand for the empty map |
| `MsgCaching.MsgCache.Grow` | msgCache.go:27-33 | pages are appended until the wanted one exists; the map stays as it is |
| `MsgCaching.MsgCache.Upset` | msgCache.go:24-40 | the map changes at one key; the answer is whether the key was there; no key lies beyond the last page used |
| `MsgCaching.MsgCache.IsNil` | msgCache.go:42-52 | true if and only if the map lacks the key |
| `MsgCaching.MsgCache.GetCount` | msgCache.go:63-76 | the first pass counts the run exactly, across pages and up to the end of the last |
| `MsgCaching.MsgCache.CopyRun` | msgCache.go:81-95 | the second pass copies the run that the first one counted, staying within the pages |
| `MsgCaching.MsgCache.Merge` | msgCache.go:54-96 | nil if and only if the number is absent; otherwise exactly the run from it |
| `Clients.Client.constructor` | client.go:315-351 | a new client begins at the asked number, or at 1 for 0 |
| `Clients.Client.StoreCache` | client.go:89-107 | all messages are cached at their numbers; the answer is 0 whenever there were any |
| `Clients.Client.GotBuff` | client.go:113-146 | what is refused, which session is adopted and what is queued |
| `Clients.Client.EndSession` | client.go:159-180 | the end-of-session branch is the transition of its name |
| `Clients.Client.Batch` | client.go:214-225 | the new messages of an in-order packet followed by the cached run they reach |
| `Clients.Client.Advance` | client.go:226-245 | the frontier moves past the batch, and the reader gets it |
| `Clients.Client.DoMsgBuf` | client.go:148-247 | the new state, request and error are those of the classified packet; the request after `storeCache` is unreachable |
| `Clients.Client.NewReq` | client.go:249-274 | the new state and the encoded request are those of the transition |
| `Clients.Client.Tick` | client.go:362-369 | a tick asks for what is missing below the highest announced number |
| `Clients.Client.ReadOnce` | client.go:280-296 | one turn of the reader takes all that is ready and may stop the client |
| `Clients.Perform` | client.go:357-403 | performing an event on the object is one step of the run |
| `Clients.Drive` | client.go:357-403 | driving an object through any events gives the state, messages and request bytes of the run |
| `Intake.RefusedExactly` | client.go:113-146 | each of the four refusals, and admission, if and only if a condition on the bytes: shorter than 20, a count from 1024 to 65534, another session, a count from 1 to 1023 with nothing behind the header |
| `Intake.QueuedExactly` | client.go:113-146 | the exact new state of every answer: the session, and the queue entry with both numbers and the payload of data packets only |
| `Intake.SaysExactly` | client.go:148-187 | from the bytes to the packet: count 0 is a heartbeat and 65535 an end of session whatever follows, any other is data if and only if its payload unmarshals |
| `Protocol.Classify` | client.go:148-187 | a packet is taken for data only with as many messages as its count |
| `Delivery.StepKeepsInv` | client.go:148-297 | every event keeps: the stream is what packets carried, the cache holds what is accepted beyond the frontier and never the frontier |
| `Delivery.InOrderExactly` | client.go:214-245 | in every reachable state an in-order packet appends its own copy of each new message and then the cached run behind them, whatever earlier packets said of those numbers |
| `Delivery.DeliveredInOrder` | client.go:182-247 | in every run, read and ready messages are exactly one per number up to the frontier, each carried by an accepted packet under that number |
| `Delivery.DeliveredAsSent` | client.go:182-247 | if the packets agree with one stream, what is delivered is that stream from the first number to the frontier |
| `Delivery.FrontierIsNext` | client.go:188-228 | `seqNo` is the least number from the start that no accepted packet covers, and is never cached |
| `Delivery.OrderIndependence` | client.go:182-228 | runs that accepted the same packets, in any order and number, have the same frontier and deliver the same |
| `Delivery.NoWrap` | client.go:188-228 | the frontier stays within the numbers of the accepted packets |
| `Stopping.StepKeepsInv` | client.go:159-297 | every event keeps the facts about `bDone`, `seqEnd`, `seqMax`, `lastSeq` and `ready` that stopping rests on |
| `Stopping.SafeStop` | client.go:171-178 | a stopped client has handed over every message below the end of session, once and in order |
| `Stopping.StopLeavesNothing` | client.go:279-297 | at the step that stops the client nothing in order is left unread |
| `Stopping.StopHandshake` | client.go:279-297 | once done, the reader's next turn returns everything left and ends the run |
| `Stopping.StoppedForGood` | client.go:148-297 | a stopped client stays stopped and hands over nothing more, whatever else happens |
| `Stopping.TurnExactly` | client.go:279-297 | a turn answers a batch if and only if the client runs and an in-order packet was handled since the last turn; the batch, its number and the new state are exact, and on a stopped client nothing changes |
| `Stopping.DoneExactly` | client.go:159-238 | `bDone` if and only if at some moment an end of session was handled and all numbers below all announced ones were covered |
| `Stopping.CompleteIsCaughtUp` | client.go:159-238 | that moment is when the session has ended and the frontier is at `seqMax` |
| `Stopping.ControlEffect` | client.go:159-212 | how one packet moves `endSession`, `seqEnd` and `seqMax` |
| `Stopping.DataLeavesSeqMax` | client.go:229-232 | in reachable states a data packet never changes `seqMax` |
| `Stopping.SeqMaxExactly` | client.go:159-256 | in reachable states `seqMax` moves if and only if a control packet announces a number beyond it and the frontier, and then to that number |
| `Stopping.BoundedStop` | client.go:226-238 | after the end of session, as many advancing steps as numbers are missing finish the client unless `seqMax` is raised |
| `Stopping.Monotone` | client.go:159-256 | `seqNo` and `seqMax` never decrease, and `seqEnd` is fixed once set |
| `Stopping.ReportedPosition` | client.go:226-292 | over every run, the number reported with the next batch is at least that of its first message, and equal if and only if the frontier just before the last in-order packet was still that of the last read |
| `Requests.SessionSurvives` | client.go:126-131 | the adopted session always survives encoding |
| `Requests.SessionIsKept` | client.go:126-131 | a non-empty session is kept for good |
| `Requests.OutOfOrderOnlyCaches` | client.go:193-198 | an out-of-order packet puts its messages into the cache, over any it had, and changes nothing else |
| `Requests.RequestsExact` | client.go:249-274 | every request decodes to the session, the frontier and a count from 1 to 65400 that stays below `seqMax` and is cut only by the window |
| `Requests.RequestWhenDue` | client.go:249-260 | a request is made if and only if numbers are missing and the last request is an interval old |
| `Requests.RateBound` | client.go:253-260 | at most T / interval + 1 requests in any window of length T, on both paths together, whatever the clock does |
| `Requests.Recovery` | client.go:249-274 | from any reachable state one answered round per 65400 missing numbers closes the gap |
| `EndToEnd.StepArrivals` | client.go:143-144 | queued datagrams are handled once each in the order of arrival |
| `EndToEnd.CountCheckNeverFires` | client.go:184-187 | in any run, with any bytes, no queued packet fails the count check |
| `EndToEnd.CountMismatch` | client.go:150-187 | a payload is accepted if and only if it has at most its count of blocks, and verbatim if and only if exactly |
| `EndToEnd.ForeignIgnored` | client.go:126-131 | once a session is adopted, a run and the same run without the datagrams of other sessions end alike |
| `EndToEnd.SecondSession` | client.go:126-131 | in any state without a session, after a packet of any kind the next is refused for its session if and only if something is seen of the first name and something else of the second |
| `EndToEnd.TrimmedIsEmpty` | moldUDP.go:63-70 | nothing is seen of a name if and only if it is blank after its first byte |
| `EndToEnd.BuildPacket` | moldUDP.go:43-129 | `EncodeHead` and `Marshal` make the packet of the next messages that fit |
| `EndToEnd.ArrivesAsMeant` | client.go:113-187 | data, heartbeats and ends of session built by the codec are classified as what they are |
| `EndToEnd.DeliversPrefix` | client.go:113-247 | with loss, repetition, reordering, noise, garbled packets and other sessions once this one was heard, the delivered messages are a prefix of the sender's, byte for byte |
| `EndToEnd.DeliversAll` | client.go:113-297 | over the same channel, if every number and the end of session arrive, the client is done and stops having handed over the whole stream |
| `EndToEnd.ReportedPositionOff` | client.go:226-292 | a run of two datagrams, both handled before the next read: messages 1 and 2 come back with number 2 |
| `RingSafety.StepKeepsInv` | zsocket.go:517-627 | every atomic step of producer, flushers and kernel keeps the invariant of the ring |
| `RingSafety.Capacity` | zsocket.go:597-600 | never more frames wait than there are slots |
| `RingSafety.SlotIsMod` | zsocket.go:558 | the slot of a frame is its number modulo the number of frames |
| `RingTheorems.ClaimedExactlyOnce` | zsocket.go:543-559 | claims are consecutive in write order, every claimed frame is in exactly one, and a flusher at work holds its own claim's first slot and loops over its own claim's slots |
| `RingTheorems.NothingForgotten` | zsocket.go:530-553 | while frames wait, the slot of the first is published, about to be, or in the hands of one flusher |
| `RingTheorems.LiveSlotsDistinct` | zsocket.go:597-627 | frames not yet released sit in different slots with their bytes intact |
| `RingTheorems.NoEarlyReuse` | zsocket.go:623-626 | the producer gets a slot only after all its earlier frames were completed, sent or refused, and released |
| `RingTheorems.ProducerWaitsForFlusher` | zsocket.go:597-625 | the producer waits only for a frame in the claim of a flusher at work |
| `RingTheorems.ProducerWaitsExactly` | zsocket.go:605-625 | the producer's first wait lasts exactly while the frame a ring before is requested, its second exactly while that frame is not released |
| `RingTheorems.SendWaitsForKernel` | zsocket.go:556-567 | a flusher in its send call waits only for frames the kernel still wants |
| `RingTheorems.FullMeansAllWaiting` | zsocket.go:598-600 | the ring reports full if and only if every slot holds a frame that no flush has claimed |
| `RingTheorems.PayloadIsFixed` | zsocket.go:525-530 | at every point of a run, frame k carries the payload of the k-th copy that took effect |
| `RingTheorems.CompletedAtMostOnceAsWritten` | zsocket.go:543-582 | no frame is completed twice, each completion is of the bytes written, and a frame the kernel is through with went out or was refused, not both |
| `RingTheorems.FlushAccountsForClaim` | zsocket.go:569-582 | in every interleaving, a flush returns an account of its own claim: successes and errors add up to it, and the errors are exactly the slots of the refused frames where refusals are reported |
| `RingTheorems.ResultIsFinal` | zsocket.go:582 | what a flush has returned is never revised |
| `RingTheorems.QuietMeansAllDone` | zsocket.go:517-627 | when all are through, every written frame was completed exactly once, went out if and only if that completion was a success, is accounted for by one flush, and all slots are free |
| `RingTheorems.WantedSlotIsFree` | zsocket.go:605-625 | with no flusher at work the producer's two waits are over |
| `RingProgress.StepLowers` | zsocket.go:517-627 | once no new write begins, every step that changes the ring lowers a measure, failed swaps and kernel steps included |
| `RingProgress.SomeoneCanMove` | zsocket.go:517-627 | while anyone is not through, some step that begins no write changes the ring: there is no deadlock |
| `RingProgress.CanAlwaysFinish` | zsocket.go:517-627 | from every reachable state, with a slot and a flusher, some continuation ends with everyone through |
| `RingProgress.MovesAreBounded` | zsocket.go:517-627 | no interleaving without a new write has more moves than the measure at its start |
| `RingProgress.FairRunsEnd` | zsocket.go:517-627 | every fair interleaving without a new write ends for good with everyone through and all that was written sent or refused |
| `ZSockets.ZSocket.constructor` | zsocket.go:346-358 | a new ring is empty, with nothing published |
| `ZSockets.ZSocket.ClaimIndex` | zsocket.go:601-603 | the compare-and-swap loop moves `txIndex` on by one slot |
| `ZSockets.ZSocket.GetFreeTx` | zsocket.go:597-627 | nothing if and only if all slots wait; otherwise the next slot with its flag taken |
| `ZSockets.ZSocket.AwaitKernel` | zsocket.go:605-622 | the loop that waits for the kernel ends with the slot not wanted, on one thread at its first test |
| `ZSockets.ZSocket.AwaitFlag` | zsocket.go:623-625 | the loop that waits for the flag ends with it taken, on one thread at its first try |
| `ZSockets.ZSocket.CopyToBuffer` | zsocket.go:517-535 | the frame is queued behind those that wait; nothing changes if the ring is disabled or full |
| `ZSockets.ZSocket.TakeIndex` | zsocket.go:544-552 | the loop takes the published index and leaves -1, or finds none |
| `ZSockets.ZSocket.MarkAll` | zsocket.go:556-559 | the loop requests the frames of the claim, round the ring |
| `ZSockets.AskedForExactly` | zsocket.go:556-567 | from then on the status words ask for exactly the claimed frames that the kernel has not completed |
| `ZSockets.HeadIsWanted` | zsocket.go:556-567 | the kernel's place asks to be sent if and only if such a frame is left, also when a claim fills the ring |
| `ZSockets.ZSocket.Sendto` | zsocket.go:565 | sending while the status word at its place asks for it, the kernel completes exactly the claimed frames, and what it accepts goes out in order |
| `ZSockets.ZSocket.ReleaseAll` | zsocket.go:569-582 | the loop gives back the slots of the claim; successes and errors account for all of it |
| `ZSockets.ZSocket.FlushFrames` | zsocket.go:539-583 | refused if the ring is disabled; otherwise all that waits is given to the kernel in the order of writing, what it accepts goes out, the errors are the slots of the rest, and nothing waits any more |
| `ZSockets.PassedAll` | zsocket.go:565-578 | all of some frames go out, or as many as there are, if and only if the kernel accepts each |
| `ZSockIfs.ZSockIf.CopyFx` | zsockif.go:126-144 | headers and as much of the packet as fits are laid over the frame; the length is cut to 16 bits |
| `ZSockIfs.ZSockIf.EmittedIsFrame` | zsockif.go:126-144 | every packet goes out as its frame, cut to sixteen bits of the frame's length and to a ring frame |
| `ZSockIfs.ZSockIf.EmittedChecksum` | zsockif.go:134 | the checksum in a frame is that of its IPv4 header with zeroes in the checksum's place |
| `ZSockIfs.ZSockIf.EmittedCarries` | zsockif.go:126-144 | a packet that fits is carried with the writer's addresses, port and lengths |
| `ZSockIfs.ZSockIf.EmittedIsAccepted` | zsockif.go:126-144 | such a frame is accepted by the receiver's filter for the port and holds the packet after its headers |
| `ZSockIfs.ZSockIf.Push` | zsockif.go:158-163 | a packet is queued as its frame unless the ring is disabled or full |
| `ZSockIfs.ZSockIf.PushAll` | zsockif.go:157-163 | packets are queued in order until the ring is full |
| `ZSockIfs.ZSockIf.MSend` | zsockif.go:153-172 | exactly as many packets as there is room for are handed to the kernel, in order, after those that waited; what it accepts goes out, and that is all of it if and only if it accepts each |
| `ZSockIfs.ZSockIf.Send` | zsockif.go:111-124 | refused for a reader or without room, with no effect; otherwise the packet is handed to the kernel after those that waited; what it accepts goes out, and that is all of it if and only if it accepts each |
| `ZSockIfs.OpenSend` | zsockif.go:83-109 | a new writer is not a reader, has the addresses and the port it was given, its ring is enabled and empty, and refusals are reported |
| `ZSockIfs.SendFirst` | zsockif.go:83-144 | from opening to the wire: the first packet goes out, if the kernel accepts it, in one frame with the group's addresses as destination, the writer's as source, its port and the packet |
| `ZSockIfs.ZSockIf.Perform` | zsockif.go:111-172 | with nothing waiting, a call answers exactly what it takes, and leaves nothing waiting |
| `ZSockIfs.ZSockIf.Drive` | zsockif.go:111-172 | over any list of calls nothing waits in between, every answer is exact, what the kernel accepts of all packets taken goes out in order, and as many go out as are reported if and only if it accepts each |
| `ZSockIfs.ZSockIf.ReportedIsOutIff` | zsockif.go:111-172 | the calls report exactly the packets they take, and all of these are on the wire if and only if the kernel accepts each |
| `ZSockIfs.SendOfRefused` | zsockif.go:111-124 | on a new writer whose kernel refuses the frame, `Send` answers with the packet's length and nothing is on the wire |
| `Bpf.SetBpf` | rsocket.go:103-109 | afterwards the table is the filter for the port, whatever port it was set to |
| `Bpf.FilterCodes` | rsocket.go:41-58 | the table in numbers, instruction by instruction |
| `Bpf.AndMask` | rsocket.go:52-53 | masking with low-order ones is a remainder by a power of two |
| `Bpf.FilterExact` | rsocket.go:41-58 | the sixteen instructions accept exactly IPv6 UDP and unfragmented or first-fragment IPv4 UDP to the port |
| `Frames.BuildIp` | socket.go:107-119 | exactly the twenty header bytes are written |
| `Frames.BuildUdp` | socket.go:125-131 | exactly the eight header bytes are written |
| `Frames.BuildRawUdp` | socket.go:90-100 | exactly bytes 12 to 41 are written, with the given checksum in place |
| `Frames.FrameFields` | socket.go:80-131 | all 42 bytes before the packet: both kinds of addresses, type, version and length, time to live, protocol, fragment field, lengths, both checksums and the ports |
| `Frames.BuiltFrameAccepted` | rsocket.go:41-58 | a frame is accepted if and only if the filter's port is the frame's cut to 16 bits, with any checksum |
| `Frames.LengthsAgree` | socket.go:107-131 | the length fields agree with the frame if and only if they fit |

## Left out

- Interleavings inside `doMsgBuf` or inside a turn of `Read`: their fields are not synchronised, so each is one step.
- The spin loop of `Read` around its turns, and the limit of 5000 on the packet queue, which only delays.
- Counters and log lines (`nRecvs`, `nMerges`, `nMissed`, `lastN`, `LastRecv` and the like): they steer nothing.
- `request`: which server a request goes to and its connection; the model ends with the request's bytes.
- Several producers on the ring, and failures of `Poll` and `Sendto`: the source does not undo its claims then.
- ZSockets.ZSocket.FlushFrames: does not model an error of `Sendto`, after which the source leaves its claim unreleased. In `TxRing` that is a flusher that stops in its send call, which every theorem about reachable states covers; fair runs exclude it.
- ZSockIfs.ZSockIf.Send: has no error answer of a failing flush, for the same reason.
- ZSockIfs.ZSockIf.MSend: has no error answer of a failing flush, for the same reason.
- ZSockets.ZSocket.CopyToBuffer: holds a frame as a value in its slot instead of bytes in mapped memory, which belongs to the kernel.
- ZSockIfs.ZSockIf.CopyFx: takes the IPv4 checksum from a function it is given, because its package is not part of this model.
- ZSockIfs.ZSockIf.EmittedIsFrame: does not say what the kernel does with a length beyond the frame, because the source sets it without a check.
- The receive side of `ZSocket`, statistics, and the choice of ring sizes: driven by memory the kernel fills.
- Sockets, multicast membership and the other transports (mcast.go, sockif.go, winsock.go): foreign calls.
- The memory that cache pages take, and the command line client.
