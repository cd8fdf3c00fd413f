# Chiaki streaming protocol: verified model

This project models the parts of Chiaki's `lib/src` that carry a Remote Play session and proves what they are for. Every component is modelled in the form its source has: a class over arrays where the source updates a struct and its buffers in place, each method proved against a specification function, and theorems about that function over all runs.

- **Reliable data channel** (`SeqNum`, `ReorderWindow`, `ReorderQueue`, `SendBuffer`, `TakionMessage`, `PacketMac`, `DataChannel`, `TakionEnd`, `Takion`, `Connection`, `ConnectionChannel`, `ConnectionRuns`). The sender numbers packets and keeps them in a send buffer; a network loses, duplicates and reorders datagrams in both directions; the receiver reorders them in a power-of-two ring and returns cumulative acknowledgements. `DataChannel` is the step system of one direction on numbered messages. `Takion` is the object whose handlers work on the bytes of sealed packets; `TakionEnd` has one function for each handler, and every method is proved equal to its function. `Connection` lets two such ends run those functions over a network of sealed packets, whatever happens to their keys; `ConnectionChannel` shows that every step is, in each direction, some steps of the data channel or none; `ConnectionRuns` carries the channel's theorems over to the callbacks of the two ends.
- **Key stream, its cache, and key positions** (`Counter`, `KeyStream`, `KeyReuse`, `Xor`, `GkCrypt`, `Gmac`, `KeyState`). The generator thread is cut into its atomic pieces: waking up (skip ahead or slide), each 16-byte block written without the mutex, and publishing the chunk. Any interleaving with readers is a sequence of these calls.
- **Video** (`Frame`, `FrameProcessor`, `VideoSteps`, `VideoWire`, `VideoDelivery`, `VideoReports`, `VideoReceiver`). Unit slots, erasure lists, error correction and compaction in one buffer; then the receiver's frame state machine over whole streams, with unbounded frame positions first and the 16-bit indices of the wire shown to do the same.
- **Control connection** (`CtrlStream`, `Ctrl`). Length-prefixed encrypted messages cut out of an arbitrarily chunked byte stream.
- **Feedback** (`FeedbackHistory`, `Feedback`, `FeedbackSender`, `FeedbackPacket`). The redundant event history, the sender that fills it, and its packets on the wire up to what a console shows.
- **MTU search** (`Senkusha`) and **base64** (`Base64Text`, `Base64`).
- `Bytes` and `Arith` hold byte order, in-place moves and division facts.

Cryptographic primitives, the erasure decoder and the control cipher are function parameters. The network, the sockets, the clock, and the answers of callbacks are parameters of the steps they influence. Positions (sequence numbers, frame indices, key positions, events) are unbounded in the specifications; the wire carries them modulo their width, and each theorem about the wire says how far apart live positions may be.

Where the code does not do what one would expect of it, the model keeps the code and states when it does:

- `counter_add` adds its 64-bit value to the first byte in 64 bits; it is addition modulo 2^128 exactly if that sum does not overflow (`Counter.CounterAddExact`). `gen_key_stream` counts blocks in an `int`; its counters are the true ones exactly below 2^35 bytes (`KeyStream.CounterExactBelow2To35`), and it repeats every 2^36 bytes: positions that agree modulo 2^36 share their key stream byte, so packets that far apart are encrypted with the same key stream (`KeyReuse.SourcesAgreeExactly`, `KeyReuse.LongRunReuses`), and nearer ones never are (`KeyReuse.ShortRunsNeverReuse`). Counting on past `INT_MAX` is signed overflow, which C leaves undefined; the model wraps around as two's complement does.
- The key stream cache adds positions in 64 bits. A cache that ends at 2^64 looks as if it ended at 0: the generator then skips ahead forever instead of waiting, exactly if the ring where it is heading would end beyond 2^64 (`GkCrypt.GeneratorRestsExactly`, `GkCrypt.RoomAfterSkipping`, `GkCrypt.GeneratorSpinsAtTheEnd`). A request that reaches 2^64 looks as if it ended early on, and if that is before the end of the cache the reader is given other bytes of the ring (`GkCrypt.CachedExactly`, `KeyReuse.CopiedRightExactly`, `KeyReuse.LastBytesMisread`). Requests that end at least a block below 2^64 are always answered right, and only those (`GkCrypt.AnsweredRightExactly`). The overflow check of the local key position does not prevent this: the last packet before it can be encrypted with key stream that was used a ring earlier (`KeyReuse.LastBlockReuses`).
- `request_pos` rebuilds a position exactly if `KeyState.Recoverable` holds; that is a little more than "less than 2^31 away".
- A Takion message is read back exactly if its size plus 4 fits 16 bits and the tags agree (`TakionMessage.MessageRoundTrip`). Before that, the receive buffer of 1500 bytes cuts longer packets off, and what is left is rejected (`TakionEnd.DataReads`). Sending does not check the size: a longer data message takes a number, is ignored by the peer every time it is sent, and nothing behind it is ever delivered (`ConnectionRuns.OversizeBlocks`).
- A data message uses up its number even if the socket refuses it, and whether the send buffer took it is ignored (`Takion.Takion.SendMessageData`); the channel theorems speak of messages whose push succeeded.
- A gap in the video stream is reported exactly if its first frame is less than 2^15 behind the new one (`VideoWire.GapReportedExactly`). The exemption for frame 1 never matters. A frame without source units is never emitted and never counted as decoded.
- A control message whose declared size plus 8 wraps around 32 bits is not recognised as too big; the model stops there with the status `SizeWraps`. A message of which nothing could be sent still uses up the encryption counter if it has a payload (`CtrlStream.LossDesynchronisesExactly`). A `send` that takes only a part of the bytes counts as success: the message arrives exactly if all were taken, and the bytes missing from a payload are made up from the next message (`CtrlStream.WholeArrivesExactly`, `CtrlStream.CutPayloadSwallows`).
- The inbound MTU test probes nothing if the bounds are at most 1 apart; the outbound test finds its upper bound only if it starts there (`Senkusha.SearchSound`, `Senkusha.SearchFindsLimit`). The inbound test does not compare its bounds; with the lower one above the upper one it searches on past 2^32 and wraps around (`Senkusha.RunMtuInTest`).
- A touch event has twelve bits for each coordinate and seven for the identifier, but the sender takes sixteen and eight; the rest runs into the neighbouring bits, and an event is read back exactly if it fits (`FeedbackHistory.DecodeEncode`).
- A slot of the touchpad that changes its touch directly only reports the old one as lifted; the console does not see the new one until it moves (`FeedbackHistory.TouchesShownExactly`, `FeedbackHistory.ReplacedTouchHidden`).
- The check before sending the feedback history also fires for mask bits that are not buttons, and for a lifted touch that gets another negative identifier, and then nothing is sent (`FeedbackHistory.NothingToSendExactly`).

Checking the project: `dafny verify dfyconfig.toml` (Dafny 4.11).

## Model

| member | source | states |
|---|---|---|
| SeqNum.SerialOrder | lib/include/chiaki/seqnum.h:21-37 | comparing wire numbers compares the unbounded positions whenever they are less than half the space apart, across any number of wraps |
| SeqNum.ForwardDistance | lib/include/chiaki/seqnum.h:21-37 | for all pairs: lt and gt are decided by the forward distance modulo the space, and exactly half the space apart neither holds |
| SeqNum.UnwrapUnique | lib/include/chiaki/seqnum.h:21-37 | a wire number determines its position uniquely within half the space of a base |
| ReorderWindow.PushConserves | lib/src/reorderqueue.c:63-127 | a push under either strategy keeps the window within the ring, and what was held plus the new element is, as a multiset, what is held plus what was handed to the callback |
| ReorderWindow.PushExactly | lib/src/reorderqueue.c:63-127 | which elements a push admits, where the window is afterwards and what it holds, and that exactly what the window leaves behind is dropped, lowest first, under either strategy |
| ReorderWindow.PullConserves | lib/src/reorderqueue.c:129-146 | a pull takes the first held element if and only if it is the expected one, and otherwise changes nothing |
| ReorderWindow.RunBalanced | lib/src/reorderqueue.c:63-146 | over all runs: the count never exceeds the ring, pulls come out in strictly increasing order, every pushed element is exactly one of pulled, dropped, held |
| ReorderWindow.FinishAccountsForAll | lib/src/reorderqueue.c:48-61 | finishing hands exactly what is still held to the callback, so nothing pushed leaks |
| ReorderQueue.SlotsDistinct | lib/src/reorderqueue.c:7-15 | different positions of one window use different slots of the power-of-two ring |
| ReorderQueue.SlotOfSerial | lib/src/reorderqueue.c:14-15 | masking the wire number selects the slot of the unbounded position, because the ring size divides the number space |
| ReorderQueue.CallsExactly | lib/src/reorderqueue.c:99-125 | a registered callback is called once for each dropped element, in order, with its wire number, and otherwise nothing is |
| ReorderQueue.ReorderQueue.constructor | lib/src/reorderqueue.c:17-46 | an empty window at the starting number, dropping at the end |
| ReorderQueue.ReorderQueue.Push | lib/src/reorderqueue.c:63-127 | the ring with wrapping numbers refines the window: new contents and callback calls are those of the window's push at the position the number is taken for |
| ReorderQueue.ReorderQueue.Evict | lib/src/reorderqueue.c:92-107 | the drop-begin loop evicts exactly the elements before the new beginning, in order |
| ReorderQueue.ReorderQueue.Pull | lib/src/reorderqueue.c:129-146 | refines the window's pull and returns the wire number of its position |
| ReorderQueue.ReorderQueue.Peek | lib/src/reorderqueue.c:148-161 | finds the element at an index exactly if one is held there |
| ReorderQueue.ReorderQueue.Fini | lib/src/reorderqueue.c:48-61 | calls the callback with exactly the held elements, lowest first |
| SendBuffer.KeptIsSelection | lib/src/takionsendbuffer.c:132-186 | what an acknowledgement leaves is an order-preserving selection of exactly the packets it does not cover |
| SendBuffer.KeptDistinct | lib/src/takionsendbuffer.c:87-186 | buffered numbers stay pairwise distinct |
| SendBuffer.CoveredNumbers | lib/src/takionsendbuffer.c:146-149 | the reported numbers are exactly the covered ones, and with the kept packets they account for the whole buffer |
| SendBuffer.AckIdempotent | lib/src/takionsendbuffer.c:132-186 | an acknowledgement that covers nothing changes nothing |
| SendBuffer.SendBuffer.Push | lib/src/takionsendbuffer.c:87-130 | overflow exactly when full, invalid exactly when the number is already buffered, otherwise appended |
| SendBuffer.SendBuffer.Ack | lib/src/takionsendbuffer.c:132-194 | the multi-gap in-place shift leaves exactly the kept packets in order and outputs exactly the covered numbers in order |
| SendBuffer.SendBuffer.Resend | lib/src/takionsendbuffer.c:237-256 | exactly the overdue packets are sent again, in order, with their time and tries updated |
| SendBuffer.DueExactly | lib/src/takionsendbuffer.c:247-247 | a packet is overdue if and only if more than 200 ms have passed since its last transmission, as an unsigned 64-bit difference, so also after the clock was set back |
| SendBuffer.OverdueIsSelection | lib/src/takionsendbuffer.c:237-256 | what is sent again is a selection, in slot order, of exactly the overdue packets |
| SendBuffer.ResentAt | lib/src/takionsendbuffer.c:237-256 | over any run of passes, a packet that stays unacknowledged goes out again at each first pass more than 200 ms after its last transmission and at no other, and its counter is the number of these |
| TakionMessage.MessageRoundTrip | lib/src/takion.c:1051-1096 | a written message is parsed back field by field if and only if it is addressed to this peer and its size field does not wrap |
| TakionMessage.HeaderLayout | lib/src/takion.c:1051-1059 | a message header byte by byte, in network byte order |
| TakionMessage.DataRoundTrip | lib/src/takion.c:421-467 | a data chunk's number, channel and body come out as they went in |
| TakionMessage.DataLayout | lib/src/takion.c:439-452 | a data chunk byte by byte |
| TakionMessage.CalledBackExactly | lib/src/takion.c:945-965 | entries of types 0, 7, 9 and 11 reach the callback, with what follows their nine bytes, and no others |
| TakionMessage.AckRoundTrip | lib/src/takion.c:469-488 | an acknowledgement's number is read back |
| TakionMessage.AckLayout | lib/src/takion.c:481-485 | an acknowledgement chunk byte by byte |
| TakionMessage.ReadAckExactly | lib/src/takion.c:1006-1023 | an acknowledgement is accepted if and only if it has twelve bytes and no gaps, and its number is read from the first four |
| PacketMac.SignedIsAuthentic | lib/src/takion.c:366-402 | a signed packet is accepted at a position if and only if the bytes its tag covers have the same tag there |
| PacketMac.HasMacExactly | lib/src/takion.c:67-98 | which packets have a tag and a key position at all, by type and size |
| PacketMac.BlankBytes | lib/src/takion.c:383-393 | the tag is computed over every byte of the packet but itself, and but the key position of control and congestion packets, with zeros in their place |
| PacketMac.CoveredExactly | lib/src/takion.c:383-393 | two packets give the tag the same bytes if and only if they agree in size and outside the tag and, for control and congestion packets, the key position |
| PacketMac.SignedBytes | lib/src/takion.c:366-402 | signing writes the tag at byte 5, 7 or 10 by type and changes no other byte |
| PacketMac.SpansDisjoint | lib/src/takion.c:314-337 | over any run of sends, no two feedback packets use the same key position, and none passes the last position |
| KeyReuse.CountersAgreeExactly | lib/src/gkcrypt.c:214-276 | two blocks of the key stream have the same counter if and only if their numbers agree modulo 2^32 |
| KeyReuse.SourcesAgreeExactly | lib/src/gkcrypt.c:214-276 | two key stream bytes come from the same counter block and offset if and only if their positions agree modulo 2^36 |
| KeyReuse.StreamRepeats | lib/src/gkcrypt.c:214-276 | the key stream repeats every 2^36 bytes, for every cipher |
| KeyReuse.ReuseExactly | lib/src/takion.c:314-337 | a run of sends that end a block below 2^64 reuses key stream if and only if two of the positions it encrypts with agree modulo 2^36 |
| KeyReuse.ShortRunsNeverReuse | lib/src/takion.c:512-542 | no key stream byte encrypts twice over any run that moves the local key position by at most 2^36 and leaves it at least a block below 2^64 |
| KeyReuse.LongRunReuses | lib/src/takion.c:512-542 | a longer run can reuse it: a concrete run whose two packets are encrypted with the same sixteen bytes |
| KeyReuse.TellsApart | lib/src/gkcrypt.c:214-276 | positions that do not agree modulo 2^36 have different key stream bytes under some cipher |
| KeyReuse.OwnStreamExactly | lib/src/takion.c:512-542 | every packet of a run is encrypted with the key stream of its own positions, whatever the caches hold, if and only if every packet ends at least a block below 2^64 |
| KeyReuse.LastBlockReuses | lib/src/gkcrypt.c:283-325 | a packet that ends in the last block is encrypted with the key stream that encrypted a packet one ring earlier |
| KeyReuse.CopiedRightExactly | lib/src/gkcrypt.c:310-325 | what a misread request is given is the key stream, for every cipher, if and only if each byte of the ring it is given is populated and its position agrees modulo 2^36 with the requested one |
| KeyReuse.LastBytesMisread | lib/src/gkcrypt.c:294-325 | a request for the last sixteen bytes before 2^64 goes to a fresh cache that does not hold it, and gets wrong bytes |
| DataChannel.FiledAtOwnPosition | lib/src/takion.c:979-1004 | a datagram within half the number space is filed under its own position, across 2^32 wraps |
| DataChannel.DrainExact | lib/src/takion.c:928-977 | pulling until nothing comes returns exactly the consecutive run at the window's beginning |
| DataChannel.AnyOrderDelivered | lib/src/takion.c:928-1004 | whatever order the next n messages arrive in within the window's reach, however often, and whatever else within reach comes in between: receiving them one by one, draining after each, delivers all n, in order, each as it first arrived |
| DataChannel.AckFreesExactlyOlder | lib/src/takion.c:1006-1042 | a cumulative acknowledgement of a message, however stale, frees exactly the messages up to it |
| DataChannel.AckReportsPulled | lib/src/takion.c:1031-1041 | every number an acknowledgement reports is that of a message the receiver has pulled |
| DataChannel.StepKeepsInv | lib/src/takion.c:421-488 | every step of sender, network and receiver keeps the channel invariant |
| DataChannel.RunInv | lib/src/takion.c:928-1042 | the invariant holds in every state of every run |
| DataChannel.DeliveredIsPrefix | lib/src/takion.c:928-1004 | in every run over a lossy, duplicating, reordering network the entries pulled are exactly a prefix of the sender's messages, in order, each once, with the sent content |
| DataChannel.NoAcknowledgedLoss | lib/src/takionsendbuffer.c:87-192 | in every state of every run a message whose push succeeded is still buffered unaltered or has been pulled, even under stale and reordered acknowledgements |
| DataChannel.PulledGrows | lib/src/takion.c:928-977 | nothing delivered is ever taken back or reordered later |
| Takion.Takion.constructor | lib/src/takion.c:583-661 | after the handshake the first number sent is the local tag, the first number expected the peer's tag, and everything else is empty |
| Takion.Takion.AdvanceKeyPos | lib/src/takion.c:314-337 | reserves key positions without overflow, or fails and changes nothing |
| Takion.Takion.SendMessageData | lib/src/takion.c:421-467 | the datagram sent, the number and key positions used up, and the buffer after it, in all failure cases |
| Takion.Takion.PullAll | lib/src/takion.c:928-972 | the pull loop delivers exactly the drained items to the callback and remembers the last number |
| Takion.Takion.FlushDataQueue | lib/src/takion.c:928-977 | the pulled items go to the callback, and what `TakionEnd.PulledIsAcknowledged` says goes to the socket: one acknowledgement of the last of them, none if nothing was pulled |
| Takion.Takion.HandleData | lib/src/takion.c:979-1004 | the window receives as the data channel does, the callback gets what was pulled, and one acknowledgement of the last item goes out |
| Takion.Takion.HandleAck | lib/src/takion.c:1006-1042 | exactly the covered packets leave the buffer, with one event for each freed number |
| Takion.Takion.SendAck | lib/src/takion.c:469-488 | the acknowledgement datagram that is sent, if any |
| Takion.Takion.HandlePacketMac | lib/src/takion.c:801-836 | the position is rebuilt from the wire and remembered only if the packet is authentic there; `TakionEnd.AlteredIsDropped` says what that excludes |
| Takion.Takion.ParseMessage | lib/src/takion.c:1061-1096 | the key position is committed even if the message is then rejected; the result is that of the parsing function |
| Takion.Takion.HandlePacket | lib/src/takion.c:864-926 | the whole path of a received packet is the one function the connection theorems are about, with the acknowledgement it causes |
| Takion.Takion.ReceiveDatagram | lib/src/takion.c:740-757 | a datagram is handled as its first 1500 bytes |
| Takion.Takion.ResendOverdue | lib/src/takionsendbuffer.c:237-256 | exactly the overdue packets go to the socket again, in order |
| Takion.Takion.SendFeedbackPacket | lib/src/takion.c:512-542 | the packet sealed in its buffer and the key positions it uses up, or nothing at all when they run out; the key stream is that of its positions unless its blocks reach 2^64 and are misread |
| TakionEnd.SealedParses | lib/src/takion.c:1051-1096 | a sealed control packet with any payload is parsed, by any tag, as the message it was made of, as a tag mismatch, or as a size mismatch exactly if the size field wraps |
| TakionEnd.SealedLayout | lib/src/takion.c:366-402 | a sealed control packet byte by byte, its tag that of all its other bytes but the key position, or zero without a crypt |
| TakionEnd.ChunksOnWire | lib/src/takion.c:421-488 | a data packet and an acknowledgement byte by byte |
| TakionEnd.NumberSends | lib/src/takion.c:421-457 | sending fails if and only if the key positions do not reach for the body; otherwise it takes the next number and one key position for each byte of the body, and the packet is signed at the first of them, names it, and says the message to the peer |
| TakionEnd.PulledIsAcknowledged | lib/src/takion.c:975-976 | an acknowledgement goes out if and only if something was pulled and 0x1d key positions are left; the peer reads the number of the last item in it, and it is signed at the first of those positions |
| TakionEnd.SignedAccepted | lib/src/takion.c:801-836 | a signed control packet is accepted if and only if the bytes its tag covers have the same tag at the position rebuilt for it, which is its own wherever that can be rebuilt |
| TakionEnd.SignedIsAccepted | lib/src/takion.c:801-836 | the same for every packet type, whatever it contains besides the position it names |
| TakionEnd.AlteredIsDropped | lib/src/takion.c:822-831 | a packet that was changed in size or in any byte the tag covers is accepted if and only if two different inputs collide under the peer's tag function; otherwise nothing at all changes |
| TakionEnd.DataReads | lib/src/takion.c:740-757 | a sealed data packet says number, channel and body as sent if it fits the receive buffer; a longer one says nothing, but for sizes whose 16-bit size field wraps to that of the piece |
| TakionEnd.SentDataArrives | lib/src/takion.c:421-467 | a data packet signed for an end, at a position it can rebuild, is received with its number, channel and body if it fits the receive buffer, and a longer datagram is ignored |
| TakionEnd.SentAckArrives | lib/src/takion.c:469-488 | a signed acknowledgement is handled as that number |
| TakionEnd.HandleDoes | lib/src/takion.c:864-1042 | handling a packet receives, acknowledges or ignores according to what it says to this end: what is pulled is acknowledged as `PulledIsAcknowledged` says, and everything else but keys and positions is left alone |
| TakionEnd.HandleCommits | lib/src/takion.c:801-836 | which key position is remembered after a packet: that rebuilt from its place in an accepted packet, with or without a crypt for control messages, and none otherwise |
| TakionEnd.HandleMapped | lib/src/takion.c:864-1042 | handling does not depend on what the send buffer holds, so the ends of a connection do what the handlers do on bytes |
| Connection.StepKeepsInv | lib/src/takion.c:421-488 | over every step, each end's packets and buffer carry its own messages under their numbers, and every packet in the network says to its addressee what it was sealed to say or nothing |
| Connection.TakesNumber | lib/src/takion.c:421-457 | numbering in a connection is the first half of sending on bytes, with the number of the next message |
| Connection.KeepsAndResends | lib/src/takionsendbuffer.c:87-256 | keeping and resending in a connection are the handlers on bytes, and exactly the overdue packets go out again |
| Connection.Delivers | lib/src/takion.c:864-1042 | delivering a packet in a connection is handling its bytes, and exactly the acknowledgement it causes goes out |
| Connection.PulledIsAcknowledged | lib/src/takion.c:928-977 | a delivery that pulls something puts into the network a packet in which the peer reads the number of the last message pulled, if the socket takes it and 0x1d key positions are left; in every other case nothing goes out |
| ConnectionChannel.StepRefines | lib/src/takion.c:421-1042 | every step of two ends over sealed packets is, seen from either side, some steps of the data channel or none |
| ConnectionRuns.RunRefines | lib/src/takion.c:421-1042 | every run of two ends over sealed packets is, seen from either side, a run of the data channel |
| ConnectionRuns.CallbacksArePrefix | lib/src/takion.c:928-1004 | in every run the data callbacks of one end got exactly the bodies of a prefix of the other end's messages, in order and each once, whatever happens to keys, positions and packets |
| ConnectionRuns.BufferedOrTold | lib/src/takionsendbuffer.c:87-192 | a message whose push succeeded is still buffered byte for byte as it was sealed, or the peer's callback has got it |
| ConnectionRuns.AcknowledgedWasTold | lib/src/takion.c:1031-1041 | every number reported to a callback as acknowledged is that of a message the peer's callback has got |
| ConnectionRuns.OversizeBlocks | lib/src/takion.c:740-757 | a message whose packet exceeds the receive buffer of 1500 bytes is never delivered, nor is anything behind it |
| Counter.AddIsModular | lib/src/gkcrypt.c:166-179 | byte-wise addition with carry is addition modulo 256^n on little-endian numbers |
| Counter.CounterAddExact | lib/src/gkcrypt.c:166-179 | counter_add is addition modulo 2^128 if and only if the first byte plus the value stays below 2^64 |
| Counter.CounterAdd | lib/src/gkcrypt.c:166-179 | the do/while loop computes that block and writes nothing else |
| KeyStream.CounterExactBelow2To35 | lib/src/gkcrypt.c:214-276 | the block counter is the true one if and only if its position is below 2^35 bytes |
| KeyStream.CounterMode | lib/src/gkcrypt.c:214-276 | below position 2^35 each key stream byte is that of counter mode: byte p mod 16 of the encrypted sum of the initialisation vector and p / 16 |
| KeyStream.StreamConcat | lib/src/gkcrypt.c:214-276 | adjacent stretches of key stream concatenate |
| KeyStream.GenKeyStream | lib/src/gkcrypt.c:214-276 | direct generation yields a slice of one infinite key stream, for any length and aligned position |
| Xor.XorExactly | lib/src/utils.h:96-105 | a byte is the combination of two others if and only if its bits are those in which they differ |
| GkCrypt.RingSlides | lib/src/gkcrypt.c:520-536 | sliding the ring's beginning keeps every readable byte the true key stream byte |
| GkCrypt.RingUntouched | lib/src/gkcrypt.c:477-496 | a chunk written without the mutex never touches a readable byte |
| GkCrypt.RingRead | lib/src/gkcrypt.c:310-325 | reading across the ring's wrap-around yields the true key stream |
| GkCrypt.RemainingShrinks | lib/src/gkcrypt.c:498-544 | while the last requested position stays and the ring has room below 2^64 where the generator is heading, every chunk brings it closer to waiting |
| GkCrypt.GeneratorRests | lib/src/gkcrypt.c:462-544 | it then waits again after at most one chunk more than the ring holds |
| GkCrypt.GeneratorRestsExactly | lib/src/gkcrypt.c:462-544 | in every state a cache can be in, in 64-bit arithmetic: the generator comes to rest if and only if it already waits or there is that room |
| GkCrypt.RoomAfterSkipping | lib/src/gkcrypt.c:520-529 | after skipping ahead there is room if and only if the ring behind the chunk of the last requested position ends below 2^64, or exactly there with more than one chunk or a position in the first half |
| GkCrypt.RoomEarly | lib/src/gkcrypt.c:462-544 | there is always room while the last requested position is at least a ring below 2^64 |
| GkCrypt.GeneratorSpinsAtTheEnd | lib/src/gkcrypt.c:462-544 | one request that ends 16 bytes below 2^64 makes the generator of a fresh default ring write the last chunk over and over |
| GkCrypt.ReachedNext | lib/src/gkcrypt.c:498-544 | the cache never runs past 2^64 and begins no later than the last requested position, but for half a chunk |
| GkCrypt.ChunkExactly | lib/src/gkcrypt.c:462-537 | below 2^64: when the generator wakes up, and that the next chunk extends the cache by 0x1000 bytes, a full one forgetting its first 0x1000, unless the last requested position lies beyond its end; then the chunk of that position is all that is cached |
| GkCrypt.CachedExactly | lib/src/gkcrypt.c:294-295 | a request goes to the cache if and only if the cache holds it, or it reaches 2^64 and its wrapped end lies before the end of the cache |
| GkCrypt.AnsweredRightExactly | lib/src/gkcrypt.c:333-347 | a request for the blocks of some bytes is never misread, whatever the cache holds, if and only if the bytes end at least a block below 2^64 |
| GkCrypt.MisreadIsEarlier | lib/src/gkcrypt.c:310-325 | a misread request one ring beyond a full cache gets the key stream one ring earlier |
| GkCrypt.CryptExactly | lib/src/gkcrypt.c:333-353 | encrypting flips exactly the bits where the key stream from the position on has a one |
| GkCrypt.CryptTwice | lib/src/gkcrypt.c:333-353 | decrypting at a position undoes encrypting there, aligned or not |
| GkCrypt.CryptSplits | lib/src/gkcrypt.c:333-353 | where a buffer is split makes no difference |
| GkCrypt.GkCrypt.GetKeyStream | lib/src/gkcrypt.c:283-331 | in any phase of the generator a reader gets exactly what direct generation would give, or the part of the ring it is sent to if the request is misread |
| GkCrypt.GkCrypt.BeginChunk | lib/src/gkcrypt.c:507-537 | skipping ahead or sliding, decided in 64-bit arithmetic, keeps the cache true and its bookkeeping as specified |
| GkCrypt.GkCrypt.WriteCounter | lib/src/gkcrypt.c:477-496 | a counter block written without the mutex keeps the cache true |
| GkCrypt.GkCrypt.WriteCipher | lib/src/gkcrypt.c:477-496 | encrypting a block in place without the mutex keeps the cache true |
| GkCrypt.GkCrypt.EndChunk | lib/src/gkcrypt.c:490-495 | the published chunk is true key stream |
| GkCrypt.GkCrypt.Decrypt | lib/src/gkcrypt.c:333-353 | bit by bit, byte i is combined by exclusive or with key stream byte keyPos + i at any unaligned position, unless the blocks reach 2^64 and are misread; then with the bytes the reader was given |
| Gmac.MacCountersExact | lib/src/gkcrypt.c:181-212 | the counters used for authentication never overflow the first addition |
| Gmac.KeyIndexExactly | lib/src/gkcrypt.c:362-362 | positions 45000 n + 1 to 45000 (n + 1) belong to key generation n, and position 0 to the first |
| Gmac.TagExactly | lib/src/gkcrypt.c:181-212 | the nonce of a tag is the initialisation vector plus position / 16, its key the base key or, in generation n, derived from it and the initialisation vector plus 44910 n |
| Gmac.GmacState.Gmac | lib/src/gkcrypt.c:355-460 | the tag depends only on position and bytes, never on the order of requests, although the current key is replaced along the way |
| KeyState.RecoveredExactly | lib/src/gkcrypt.c:551-563 | a 64-bit position is rebuilt from its low half if and only if it is recoverable from the last one |
| KeyState.RunRecovered | lib/src/gkcrypt.c:551-568 | a whole run of positions, each less than 2^31 from the one before, is rebuilt exactly, across wraps in both directions |
| KeyState.CommittedIsStable | lib/src/gkcrypt.c:551-568 | a position just committed is rebuilt as itself |
| KeyState.KeyState.Request | lib/src/gkcrypt.c:551-563 | the request computes the rebuilt position and commits it only when asked |
| Frame.MissingExact | lib/src/frameprocessor.c:211-227 | the erasure list is ascending, holds exactly the empty slots, and is as long as the counters say |
| Frame.PutCounts | lib/src/frameprocessor.c:148-189 | a stored unit raises exactly the counter of its kind by one |
| Frame.ErasuresFit | lib/src/frameprocessor.c:205-206 | the missing units fit the correction units if and only if at least as many units arrived as the frame has source units |
| Frame.AllocExactly | lib/src/frameprocessor.c:65-146 | for which packets a frame can be allocated, with which error it fails otherwise, and its layout |
| Frame.PutExactly | lib/src/frameprocessor.c:148-189 | a unit is stored if and only if it has a free slot and is neither empty nor larger than the unit size, and no other slot changes |
| Frame.AnyUnitAllocates | lib/src/frameprocessor.c:65-127 | whichever unit of a frame arrives first, the same layout is allocated |
| Frame.ArrivedExact | lib/src/frameprocessor.c:148-189 | after any arrivals in any order and with repetitions, the slots hold exactly the units that arrived |
| Frame.FecPreservesFrame | lib/src/frameprocessor.c:198-310 | if at least as many different units arrive as the frame has source units, the flushed frame is byte for byte the concatenation of the pieces the sender cut, and the result says whether decoding was needed |
| Frame.UndecodedFrame | lib/src/frameprocessor.c:265-310 | if decoding fails, the flushed frame is the concatenation of the pieces that arrived, in the sender's order |
| Frame.AssembleExactly | lib/src/frameprocessor.c:284-303 | assembling units concatenates what they hold behind their two-byte prefixes; units too short for one hold nothing |
| FrameProcessor.FrameProcessor.ReportPacketStats | lib/src/frameprocessor.c:191-196 | received plus lost is expected, and lost is the number of missing units |
| FrameProcessor.FrameProcessor.AllocFrame | lib/src/frameprocessor.c:65-146 | error cases and layout as specified, slots empty and buffer zeroed, whatever was there before |
| FrameProcessor.FrameProcessor.PutUnit | lib/src/frameprocessor.c:148-189 | the unit lands in its slot and nowhere else, or the error leaves everything as it was |
| FrameProcessor.FrameProcessor.FillErasures | lib/src/frameprocessor.c:211-227 | the loop writes exactly the erasure list and never past its end |
| FrameProcessor.FrameProcessor.ReadRows | lib/src/frameprocessor.c:229-232 | the decoder sees every unit padded with zeros to the unit size |
| FrameProcessor.FrameProcessor.RestoreSizes | lib/src/frameprocessor.c:244-258 | each source unit's size is restored from its padding, or kept if the padding makes no sense |
| FrameProcessor.FrameProcessor.Compact | lib/src/frameprocessor.c:284-303 | sliding the units down inside the buffer never overwrites one not yet read, and yields the assembled units, which `Frame.AssembleExactly` says are the concatenation of what they hold |
| FrameProcessor.FrameProcessor.Fec | lib/src/frameprocessor.c:198-263 | decoding in place leaves exactly the restored units and sizes in the buffer, or nothing changed |
| FrameProcessor.FrameProcessor.Flush | lib/src/frameprocessor.c:265-310 | result, bytes and what is left behind are those of the specification, with the statistics counted |
| VideoSteps.UnbrokenMeans | lib/src/videoreceiver.c:83-114 | a log accepted by the record automaton emits every begun frame before any other begins, emits nothing else, and in strictly increasing order |
| VideoSteps.StepAccounted | lib/src/videoreceiver.c:53-154 | one packet keeps the record of frames |
| VideoSteps.StepCovered | lib/src/videoreceiver.c:93-101 | one packet keeps every earlier index decoded or reported |
| VideoSteps.StepSound | lib/src/videoreceiver.c:93-99 | one packet reports no index that was or will be decoded |
| VideoSteps.RunAccounted | lib/src/videoreceiver.c:53-154 | all three hold over any stream |
| VideoWire.StepOnWire | lib/src/videoreceiver.c:53-154 | one packet handled with 16-bit indices has the same effect as with unbounded ones |
| VideoWire.RunOnWire | lib/src/videoreceiver.c:53-154 | so does a whole stream, however often the indices wrap |
| VideoWire.EveryFrameAccounted | lib/src/videoreceiver.c:53-154 | every frame with source units is emitted exactly once before the next begins, in increasing order, and every index from 1 that is before the current frame or not after the last decoded one was decoded or lies in a report, but never both |
| VideoWire.GapReportedExactly | lib/src/videoreceiver.c:93-99 | a gap is reported if and only if its first frame is less than half the index range behind |
| VideoDelivery.EnoughUnitsDeliver | lib/src/videoreceiver.c:53-154 | whatever came before, once enough different units of a frame arrived in any order, the concatenation of the pieces the sender cut has been emitted; until then the frame is being built of exactly the units that arrived |
| VideoDelivery.UnfinishedIsEmitted | lib/src/videoreceiver.c:82-88 | a frame that cannot be decoded when the next one begins is emitted as failed, with the pieces that arrived in the sender's order |
| VideoReports.HeaderExactly | lib/src/videoreceiver.c:62-80 | a packet that is not ignored is handled under its profile, whose header comes first if and only if the profile is another one than before |
| VideoReports.HeadersFollow | lib/src/videoreceiver.c:53-114 | over any stream the callback was last told the current profile, and was never told the same one twice in a row nor an unknown one |
| VideoReports.StartReports | lib/src/videoreceiver.c:82-103 | starting a frame first reports the one before: what was stored of it and all its other units as lost |
| VideoReports.StatsConserve | lib/src/videoreceiver.c:53-114 | over any stream, the units reported as received and those stored since the last report are exactly the units that were stored |
| VideoReceiver.VideoReceiver.constructor | lib/src/videoreceiver.c:10-24 | the initial state of the specification |
| VideoReceiver.VideoReceiver.FlushFrame | lib/src/videoreceiver.c:118-154 | new state and events are those of the specification |
| VideoReceiver.VideoReceiver.StartFrame | lib/src/videoreceiver.c:82-103 | the old frame flushed, the gap reported, the new frame allocated, in this order |
| VideoReceiver.VideoReceiver.AddUnit | lib/src/videoreceiver.c:105-114 | the unit stored and the frame flushed as soon as it can be |
| VideoReceiver.VideoReceiver.AvPacket | lib/src/videoreceiver.c:53-114 | state and events after a packet are those of the step the stream theorems are about |
| CtrlStream.ParseSplits | lib/src/ctrl.c:293-315 | parsing goes on exactly where it stopped: parsing two pieces is parsing their concatenation |
| CtrlStream.ChunkingIrrelevant | lib/src/ctrl.c:290-380 | for every split of the stream, messages, counters and the error are those of the whole stream, and there is always room to receive while no error occurred |
| CtrlStream.MessageArrivesExactly | lib/src/ctrl.c:389-452 | one message arrives as it was sent if and only if it fits the receive buffer; otherwise the connection overflows |
| CtrlStream.StreamArrives | lib/src/ctrl.c:389-452 | any sequence of messages arrives as sent, for every split, message i under the first counter plus the number of earlier messages with a payload |
| CtrlStream.SentInTurn | lib/src/ctrl.c:389-440 | the bytes of message i are its header and its payload as encrypted under the first counter plus the number of earlier messages with a payload, modulo 2^64 |
| CtrlStream.SentCounter | lib/src/ctrl.c:404-404 | sending any messages moves the counter on by the number of those with a payload, even if some of them fail |
| CtrlStream.ReceivedInTurn | lib/src/ctrl.c:442-452 | whatever is received, message i is decrypted under the first counter plus the number of earlier messages with a payload |
| CtrlStream.LossDesynchronisesExactly | lib/src/ctrl.c:396-430 | after a message of which nothing was sent, both ends use the same counter if and only if it had no payload |
| CtrlStream.WholeArrivesExactly | lib/src/ctrl.c:419-437 | a message sent without an error arrives if and only if the socket took all of its bytes |
| CtrlStream.CutPayloadSwallows | lib/src/ctrl.c:427-437 | the bytes missing from a payload are taken from whatever follows: the mixture is dispatched and parsing goes on in the middle of the next message |
| Ctrl.Ctrl.constructor | lib/src/ctrl.c:1003-1006 | bytes that came with the response header are the beginning of the stream |
| Ctrl.Ctrl.MessageReceived | lib/src/ctrl.c:442-452 | the payload is decrypted in place under the current counter, which advances by one for a payload and not otherwise, even if decryption fails |
| Ctrl.Ctrl.TakeMessage | lib/src/ctrl.c:308-314 | one message is taken out and the rest moved to the front unchanged |
| Ctrl.Ctrl.TakeMessages | lib/src/ctrl.c:292-315 | the loop in the 512-byte buffer refines the reference parse |
| Ctrl.Ctrl.ReceiveChunk | lib/src/ctrl.c:368-379 | one recv and the loop after it are one step of the chunked run, and leave room |
| Ctrl.Ctrl.MessageSend | lib/src/ctrl.c:389-440 | the counter advances by one for a payload and not otherwise; the header and the payload as encrypted under it go on the wire, as far as the socket takes them, in all failure cases |
| FeedbackHistory.DecodeEncode | lib/src/feedback.c:87-165 | whatever follows it, an event is read back as it was written if and only if it is no touch beyond twelve bits of coordinates or seven of identifier |
| FeedbackHistory.TouchLayout | lib/src/feedback.c:156-165 | the bytes of a touch event for all arguments, bit by bit where coordinates run into each other |
| FeedbackHistory.PacketRoundTrip | lib/src/feedback.c:183-199 | a formatted history is read back as the events it was formatted from |
| FeedbackHistory.NewestNext | lib/src/feedback.c:201-208 | recording an event puts it first and drops the oldest of sixteen |
| FeedbackHistory.PacketFits | lib/src/feedbacksender.c:147-156 | a history packet always fits its buffer |
| FeedbackHistory.CatchesUpExactly | lib/src/feedbacksender.c:147-161 | a packet brings a console up to date if and only if fewer than sixteen events before it are unknown to the console |
| FeedbackHistory.SixteenLost | lib/src/feedbacksender.c:8-8 | otherwise the packet does not depend on the event that is missing |
| FeedbackHistory.WholeLogRebuilt | lib/src/feedbacksender.c:147-212 | a console missing at most fifteen consecutive packets rebuilds the whole log, across wraps of the packet number, with late and repeated packets harmless |
| FeedbackHistory.NothingToSendExactly | lib/src/feedbacksender.c:130-145 | the equality check holds if and only if there is no event, the unused mask bits agree, and so do the identifiers of the touches |
| FeedbackHistory.ReplayDiff | lib/src/feedbacksender.c:163-212 | replaying the events of a change turns the old buttons and triggers into the new ones |
| FeedbackHistory.ReplayHistory | lib/src/feedbacksender.c:244-284 | over any run, replaying the log gives the sender's buttons, L2 and R2 |
| FeedbackHistory.TouchesShownExactly | lib/src/feedbacksender.c:214-235 | replaying the events of a change turns the old touches into the new ones, with their coordinates, if and only if no touch took the slot of another; every lift is of a touch that is shown, and where it is shown |
| FeedbackHistory.ReplacedTouchHidden | lib/src/feedbacksender.c:216-235 | a touch that did is not reported until it moves: a concrete change after which the console shows none |
| FeedbackHistory.TouchesOfHistory | lib/src/feedbacksender.c:214-284 | over any run in which none does, replaying the log gives the sender's touches |
| FeedbackHistory.ConsoleShowsController | lib/src/feedbacksender.c:147-284 | end to end: with touches on the pad, at most fifteen packets in a row missing and the last one received, the console shows the controller's buttons and triggers, and its touches if none took the slot of another |
| Feedback.HistoryEvent.SetButton | lib/src/feedback.c:87-154 | the bytes filled in for every button, and the error for everything else |
| Feedback.HistoryEvent.SetTouchpad | lib/src/feedback.c:156-165 | the bytes filled in for any identifier and coordinates, with what runs over into neighbouring bits |
| Feedback.HistoryBuffer.Push | lib/src/feedback.c:201-208 | the ring pushed at the front is a list that forgets its oldest event when full |
| Feedback.HistoryBuffer.Format | lib/src/feedback.c:183-199 | newest first, and too small if and only if it does not fit |
| FeedbackSender.ConcatIsFormat | lib/src/feedback.c:183-199 | the ring's bytes are the encoding of its events |
| FeedbackSender.FeedbackSender.SetControllerState | lib/src/feedbacksender.c:63-82 | a state is taken over exactly if it differs |
| FeedbackSender.FeedbackSender.SendHistoryPacket | lib/src/feedbacksender.c:147-161 | the packet numbered n carries the newest events at event n |
| FeedbackSender.FeedbackSender.SendButtons | lib/src/feedbacksender.c:165-186 | one event and one packet for each changed button, in order |
| FeedbackSender.FeedbackSender.SendTrigger | lib/src/feedbacksender.c:188-212 | one event and one packet if the trigger moved |
| FeedbackSender.FeedbackSender.SendTouch | lib/src/feedbacksender.c:214-235 | the touch event of a slot, if any |
| FeedbackSender.FeedbackSender.SendHistory | lib/src/feedbacksender.c:163-236 | the log grows by exactly the difference, each event followed by its packet |
| FeedbackSender.FeedbackSender.WakeUp | lib/src/feedbacksender.c:253-284 | every wake-up leaves the log equal to the history of the states seen, so the guards lose nothing |
| FeedbackPacket.SealedOpens | lib/src/takion.c:512-581 | a sealed feedback packet is opened to the history packet it was made of, wherever its key position is recoverable |
| FeedbackPacket.SealedLayout | lib/src/takion.c:512-581 | a sealed history packet byte by byte, its tag that of everything around it, its events' bits flipped by the key stream from 16 bytes after its position on |
| FeedbackPacket.AlteredNotOpened | lib/src/takion.c:527-535 | a packet that keeps its tag but differs in any other byte or in size is opened only if two different inputs collide under the tag function |
| FeedbackPacket.SealInPlace | lib/src/takion.c:527-535 | encrypting, inserting the position and signing in the buffer yield the sealed packet, under the key stream the cache gives |
| Senkusha.AttemptsMean | lib/src/senkusha.c:357-402 | a round succeeds if and only if some attempt is answered after nothing but losses, and fails if and only if all are lost |
| Senkusha.AttemptsEnd | lib/src/senkusha.c:357-402 | a round ends at the first attempt that is not lost, with its error if it is none that answers, and otherwise after all its attempts |
| Senkusha.SearchSound | lib/src/senkusha.c:352-408 | on any network the result was tried and answered or is the lower bound, the next size was tried and refused or is the upper bound, the first size tried is the starting one and all others lie between the bounds, and the upper bound is found only by starting there |
| Senkusha.SearchFindsLimit | lib/src/senkusha.c:471-550 | on a path with a limit, in spite of some losses, the result is the limit cut to the bounds, with the untried sizes spelled out |
| Senkusha.SearchIsShort | lib/src/senkusha.c:352-408 | at most 1 + ceil(log2(max - min)) rounds, although the first may not narrow the interval |
| Senkusha.SearchNeeds | lib/src/senkusha.c:352-408 | so networks that answer the attempts of that many rounds alike lead to the same result |
| Senkusha.Log2Means | lib/src/senkusha.c:352-408 | the bound is the rounded-up binary logarithm |
| Senkusha.RunMtuInTest | lib/src/senkusha.c:347-411 | the nested loops compute the search from the upper bound in 32-bit arithmetic, for any bounds; a failed send or a stop ends it |
| Senkusha.RunMtuOutTest | lib/src/senkusha.c:413-565 | argument checks, command errors, and the search from the inbound size; every ping fits its buffer |
| Base64Text.UnpackSextets | lib/src/base64.c:10-153 | repacking bytes into sextets and back is the identity, for every length |
| Base64Text.EncodeExactly | lib/src/base64.c:10-80 | character i of an encoding is the letter of RFC 4648's alphabet for bits 6 i to 6 i + 5 of the data, or an equals sign if no data is left |
| Base64Text.StripScans | lib/src/base64.c:114-115 | line feeds anywhere change nothing |
| Base64Text.RoundTrip | lib/src/base64.c:10-153 | decoding an encoding, with line feeds inserted anywhere, gives back the bytes if and only if they fit, and otherwise reports a small buffer |
| Base64Text.EncodedDecodes | lib/src/base64.c:10-153 | decoding an encoding gives back the bytes if and only if they fit |
| Base64.Encode | lib/src/base64.c:10-80 | succeeds exactly if the buffer is larger than 4 * ceil(n / 3), and then holds the padded text and a zero |
| Base64.EncodeGroup | lib/src/base64.c:20-63 | one turn of the loop writes the characters of up to three bytes, or fails exactly if they do not fit |
| Base64.Decode | lib/src/base64.c:100-153 | result, bytes and length are those of the specification, with the first error winning, and nothing is written past the capacity |

## Left out

- Frame.FecPreservesFrame: that the erasure decoder restores a frame when no more units are missing than there are correction units is a hypothesis of the theorems about error correction; jerasure itself is not modelled.
- FrameProcessor.FrameProcessor.PutUnit: a unit index equal to the number of slots passes the source's check and addresses memory after the slots; the model requires it to be different.
- FrameProcessor.FrameProcessor.Flush: a second flush of the same frame reads units the first one has moved; the receiver never does it, and the model excludes it.
- VideoReceiver.VideoReceiver.StreamInfo: keeps only how many profiles there are; the copied headers and their padding are not modelled.
- VideoReceiver.VideoReceiver.AvPacket: after a failed allocation the frame processor keeps a mix of old and new bookkeeping; the model covers streams whose frames can be allocated, and ends a run otherwise.
- VideoReceiver.VideoReceiver.StartFrame: the frame of the packet can be allocated, as in `AvPacket`.
- VideoReceiver.VideoReceiver.AddUnit: the unit index `PutUnit` excludes is excluded here too.
- VideoWire.EveryFrameAccounted: assumes each packet is less than 2^15 frames from the current one and at most that far ahead of the last decoded one; `GapReportedExactly` says what happens beyond.
- DataChannel.DeliveredIsPrefix: assumes no datagram stays in the network for longer than half the number space.
- ReorderQueue.ReorderQueue.Push: a number exactly half the space ahead is taken as ahead, with the source's assertions (`reorderqueue.c:82`) compiled out; only for a ring of one slot are such numbers excluded.
- ReorderQueue.ReorderQueue.constructor: rings of half the number space or more are excluded, because positions of one window could not be told apart by their numbers; the program's rings have 16 slots.
- GkCrypt.GkCrypt.GetKeyStream: a misread request that would be copied from past the end of the ring is excluded, because C leaves it undefined; `Decrypt`, `SealInPlace` and `SendFeedbackPacket` exclude it too. Buffers are smaller than half the address space.
- KeyReuse.ShortRunsNeverReuse: runs that end in the last block below 2^64 are left to `OwnStreamExactly` and `LastBlockReuses`; `ReuseExactly` is about the same runs.
- Ctrl.Ctrl.TakeMessages: what happens after the status `SizeWraps` is not modelled.
- FeedbackHistory.TouchesShownExactly: the two slots have no touch identifier in common, before or after the change; the state's own functions hand out a new one for each touch.
- FeedbackSender.FeedbackSender.WakeUp: sticks and motion, with their tolerance comparison and the state packets, are not modelled.
- Base64.Decode: characters are unsigned; a plain char above 127 indexes outside the table where char is signed.
- Senkusha.RunMtuOutTest: building the test packet's header and the round-trip test before it are not modelled.
- `chiaki_reorder_queue_drop` and the check of postponed packets that uses `peek` without an output.
- ConnectionRuns.RunRefines: assumes, as the data channel does, that no packet stays in the network for longer than half the number space; keys and key positions may change arbitrarily between steps, sockets refuse packets longer than a UDP datagram can be (RFC 768), and packets that are neither data nor acknowledgements count as such changes.
- Takion.Takion.HandlePacket: packets that are not control packets end there; the audio and video parsers, which also commit key positions, are not part of this model.
- Liveness: that anything lost is eventually resent or delivered.
- Sockets, threads, condition variables, the stop pipe and memory failure; critical sections are atomic steps.
- AES, SHA-256, GMAC, the control cipher and protobuf: parameters or not part of this model.
- The handshake's cookie exchange, congestion packets, the parsing of audio and video headers, postponed packets, and the dispatch of control messages by type.
- `chiaki_stream_stats_bitrate`, packet statistics, audio, discovery and everything outside `lib`.
