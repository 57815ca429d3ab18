# Dafny models of the hx-kong kernels

This project models the parts of the hx-kong firmware whose correctness rests on byte arrays, loops and
persistent state, and proves what each is for:

- **SHA-1 and MD5** (`Sha1Spec`, `Sha1Example`, `Sha1`, `Sha1Runs`, `Md5Spec`, `Md5Example`, `Md5`). The
  streaming contexts, with their buffer, two-word bit counter and padding, against FIPS PUB 180-1 and
  RFC 1321: any split of a message over input calls gives the standard digest of the whole message. The
  specifications themselves are held to what the standards publish: SHA-1's constants are square roots, the
  round functions are characterised bit by bit, and the digest of "abc" is derived round by round in both.
- **Base 64** (`Base64Spec`, `Base64`). The table encoder and the accumulator decoder: decoding undoes
  encoding for every octet string, noise is ignored, and the output bound holds for every input.
- **Mini-data frames over a byte stream** (`MiniData`, `YunReceiver`, `YunStream`). The framer, the
  resynchronising parser and the compacting buffer in front of it: any stream of created frames with
  head-free noise between them, cut into any pieces, reaches the dispatcher as exactly its payloads.
- **The doubly linked list** (`ZhList`) and **the outbox queue** (`OutboxSpec`, `Outbox`). The pointer
  structures on the heap refine sequences.
- **The MQTT client** (`MqttWire`, `MqttMsg`, `MqttParse`, `MqttRoundTrip`, `Fragments`, `Answers`,
  `AckSpec`, `LinkSpec`, `MqttClient`, `ClientRuns`). Builders and parsers over one shared buffer, fragmented delivery, the in-flight
  bookkeeping and the connection state machine. Every API call and every pass of the client's loop is one atomic step;
  what the transport, the clock and the random source answer are inputs. Because `MqttClient.Client.Valid`
  ties the client's fields to a recorded history, what is proved of every run of the state machines holds of
  the class after any interleaving of its methods.
- `Bytes`, `Words`, `Padding` and `Sequences` hold what these share.

The source's form is kept: contexts, connections, queues, lists and the client are classes whose methods
update their fields, buffers are arrays written in place, and its loops are loops. Each method is proved
against a specification function or a standard, and the laws are lemmas about those functions.
Where such a function would otherwise only mirror its method, lemmas pin it down in octets: published digests
and vectors, readers written from the standard, and literal packets.

## Where the code and its promise part

The code is modelled as it is; where a promise fails, the exact condition is proved.

- `fini_message` writes at most two length octets, so packets with a remaining length above 16383 cannot be
  read back (`FixedHeaderStandard`, `FixedHeaderTooLong`, `ConnectRoundTrip`).
- `mqtt_get_id` finds the id of a PUBLISH only when something follows it (`PublishRoundTrip`, `IncomingId`).
  An incoming PUBLISH of QoS 1 or 2 is answered under its own id, whatever the buffer held before and
  whatever is drawn, exactly when the first read brings its header, topic and id and the buffer holds more
  than these (`PublishIdRead`, `PublishAnswered`). A first read that stops earlier takes the id from octets
  of an earlier packet (`AnsweredFromStaleId`); a head that fills the buffer reads as id 0
  (`AnsweredUnderWrongId`). The reader has no case for UNSUBSCRIBE, although it has one for SUBSCRIBE.
- It also looks at the whole buffer instead of what was read: the id of an acknowledgement received in fewer
  than four octets is completed from octets of an earlier packet (`StaleAck`).
- The loop of `deliver_publish` need not stop. `message_length_read` has 16 bits and can pass the message
  length unseen by wrapping; a transport can keep the loop going for any number of reads exactly when the
  message is incomplete and message length plus buffer size exceed 65536 (`EndlessIff`). At the default
  buffer of 1024 octets a message of 65535, a first read of 1000 and full reads from then on do it
  (`FullReadsWrap`). Otherwise message_length - message_length_read bounds the reads (`ReadsBounded`,
  `DeliverLive`).
- The QoS argument's sign decides whether an id is written, but only two of its bits reach the header; the
  payload is recovered exactly when the two agree (`PublishDataIff`).
- Every packet written overwrites the pending type, and a reconnect the pending id. A lone request's
  acknowledgement is accepted exactly when no reconnect came between and the last type written equals the
  request's own (`LoneExchange`, `QoS2Exchange`).
- With several requests in flight a duplicate acknowledgement can be accepted again and so close another
  request, whose own is then refused: exactly when more than one is counted and the key stands in the slot
  or in the outbox once more (`AcceptedAgain`, `DuplicateCloses`).
- The reader tests the whole input buffer for a CONNACK, so an attempt that received fewer than four octets
  may be decided by octets of an earlier connection (`StaleConnack`, `FreshExactly`). One received CONNACK
  can so open two connections (`OneConnackTwice`): accepted, connection lost, timeout, and an attempt whose
  read brings nothing. A run that receives nothing at all can announce a connection exactly when the buffer,
  which the source allocates without clearing, starts out as an accepting CONNACK (`SilentConnectIff`).
- The total that `deliver_publish` announces can be wrong. For a PUBLISH read whole it is right exactly when
  nothing follows it in the buffer (`TotalRightIff`); for a first read that stops inside it, past the length
  octets, exactly when header, topic and id have come (`TotalAnnouncedIff`).
- The tick counter is cut to 32 bits, so the wait ends exactly when the time elapsed, modulo 2^32, lies above
  the timeout and below 2^31: never early, but a longer sleep may go unnoticed (`ElapsedExact`).
- `iotYunSend` passes its length through an octet, so a buffer is sent whole exactly up to 254 octets
  (`SendWhole`).
- The receive buffer is not cleared for a new connection. What the last one left is harmless to every stream
  of the next exactly when it holds no unfinished frame (`LeftoverHarmlessIff`); otherwise the next stream
  can complete it (`LeftoverLoss`).
- With exactly the live octets AF FF 00 the parser's answer depends on an octet beyond them
  (`StaleOctetMatters`); for streams of created frames this never shows (`Reassembly`).
- The Base 64 decoder counts an error only when '=' follows a lone symbol. Its branch for input that ends
  inside a group without '=' can never be taken, so an encoding cut before its padding decodes to its whole
  triples without an error (`TruncatedUnreported`).
- Section 3.3 of RFC 4648 lets a decoder ignore what is neither alphabet nor '='. The decoder ignores exactly
  that except NUL, which its table loop enters with value 64 (`IgnoredExactly`).
- `WsockMD5Update` compares a 32-bit `i + 63` with the input length. The loop ends with its last whole block
  exactly when that sum does not wrap there (`GuardAtEnd`), which holds for all inputs of at most 2^32 - 64
  octets and for every input on a fresh context (`TakesEnough`).
- `dtrs_recv_data_callback` copies a piece inside its buffer exactly when the piece has at most 1400 octets
  (`CopyFits`); the receive loop in hxkong_tcp.c hands over up to 2048.
- `outbox_destroy` leaves entries behind when one is pending or the newest ones are empty
  (`DestroyLeavesNothing`).
- A CONNECT with a password and no user name is built as asked (`PasswordNeedsUsername`).
- A SHA-1 context that is given 2^61 octets or more is corrupted until it is reset (`SplitIndependence`).
- `mqtt_msg.c` tests `CONFIG_MQTT_PROTOCOL_311`, not the `MQTT_PROTOCOL_311` of the configuration header;
  both variants are modelled, chosen by the flag `v311`.

## Model

| member | source | states |
|---|---|---|
| Padding.PadZerosLeast | components/websocket/sha1.c:326-371 | the number of zero octets the padding uses is the least that reaches a block boundary |
| Bytes.WordPlaces | components/websocket/sha1.c:361-368 | the octets of a 32-bit word, weighted by their places in the stated order, make the word up again, for both orders |
| Bytes.Conversions | components/hxkong_yun/hxkong_yun.c:129 | a narrowing conversion keeps what its width holds and is periodic with it |
| Sha1Spec.ConstantsAreRoots | components/websocket/sha1.c:209-215 | each of the four constants is the integer part of 2^30 times the square root of 2, 3, 5 or 10 |
| Sha1Spec.RoundFunctions | components/websocket/sha1.c:243-287 | which function each of the eighty rounds uses |
| Sha1Spec.ChoiceOnes | components/websocket/sha1.c:246 | wherever B has ones, the first function is C |
| Sha1Spec.ChoiceZeros | components/websocket/sha1.c:246 | wherever B has zeros, it is D |
| Sha1Spec.MajorityFirst | components/websocket/sha1.c:269 | wherever B and C agree, the third function is what they agree on |
| Sha1Spec.MajorityMiddle | components/websocket/sha1.c:269 | the same for B and D |
| Sha1Spec.MajorityLast | components/websocket/sha1.c:269 | the same for C and D |
| Sha1Spec.ParityFirst | components/websocket/sha1.c:257-280 | wherever C and D agree, the second function is B |
| Sha1Spec.ParityMiddle | components/websocket/sha1.c:257-280 | wherever B and D agree, it is C |
| Sha1Spec.ParityLast | components/websocket/sha1.c:257-280 | wherever B and C agree, it is D |
| Sha1Example.PaddedBlock | components/websocket/sha1.c:326-371 | "abc" padded is one block: the octets, the bit 1, zeros, and the length 24 |
| Sha1Example.DigestOfAbc | components/websocket/sha1.c:207-301 | the digest of "abc", derived through all eighty rounds, is the one appendix A of FIPS PUB 180-1 publishes |
| Sha1Spec.DigestOneBlock | components/websocket/sha1.c:349-370 | with at most 55 octets buffered, one closing block gives the section 7 digest of the whole message |
| Sha1Spec.DigestTwoBlocks | components/websocket/sha1.c:334-370 | with more than 55 octets buffered, two closing blocks give it |
| Sha1.Context.constructor | components/websocket/sha1.c:71-85 | a new context has absorbed the empty message |
| Sha1.Context.Reset | components/websocket/sha1.c:71-85 | from any state, corrupted or not, the context is back to the empty message |
| Sha1.Context.Schedule | components/websocket/sha1.c:224-235 | all eighty words are the standard's message schedule of the buffered block |
| Sha1.Context.EightyRounds | components/websocket/sha1.c:237-287 | the four loops together are the standard's eighty rounds, whose constants, functions and outcome ConstantsAreRoots, RoundFunctions and DigestOfAbc fix |
| Sha1.Context.ProcessMessageBlock | components/websocket/sha1.c:207-301 | the chaining value becomes its compression with the block, and the buffer is empty |
| Sha1.Context.CountOctet | components/websocket/sha1.c:163-176 | the two words hold eight times the octet count; the context is corrupted exactly when that reaches 2^64 |
| Sha1.Context.InputOctet | components/websocket/sha1.c:160-183 | one octet more in the message, with counter, buffer and chaining value still in step |
| Sha1.Context.Input | components/websocket/sha1.c:143-185 | the message grows by the whole input; empty input changes nothing; input after a result, or past 2^61 octets, corrupts; a computed digest is never altered |
| Sha1.Context.PadMessage | components/websocket/sha1.c:326-371 | both padding branches leave the section 7 digest of everything absorbed |
| Sha1.Context.StoreLength | components/websocket/sha1.c:361-368 | the last eight octets of the block are the two counter words, big-endian, and the others stay |
| Sha1.Context.Result | components/websocket/sha1.c:104-119 | succeeds exactly on an uncorrupted context, then holds the digest of the whole message; a second call leaves it unchanged |
| Sha1Runs.SplitIndependence | components/websocket/sha1.c:143-185 | every way of cutting a message into input calls ends in the same state, corrupted exactly from 2^61 octets on |
| Sha1Runs.CorruptedForever | components/websocket/sha1.c:107-110 | no sequence of calls makes a corrupted context succeed again |
| Sha1Runs.ComputedStays | components/websocket/sha1.c:152-156 | after a result the digest stands through any calls, exactly as long as no nonempty input is among them |
| Sha1Runs.DigestOfPieces | components/websocket/sha1.c:104-185 | reset, any inputs, result: the FIPS digest of their concatenation, exactly below 2^61 octets |
| Md5Spec.Functions | components/websocket/wsock_md5.c:36-39 | the four round functions bit by bit: a choice by the first word, a choice by the third, a parity, and the conditional complement |
| Md5Example.FoldOfAbc | components/websocket/wsock_md5.c:158-246 | the state after the one block of "abc", derived through all sixty-four operations |
| Md5Example.DigestOfAbc | components/websocket/wsock_md5.c:129-154 | the digest of "abc" is the one section A.5 of RFC 1321 publishes |
| Md5.FF | components/websocket/wsock_md5.c:166-182 | the round-1 macro is the RFC's operation i, registers rotated |
| Md5.GG | components/websocket/wsock_md5.c:184-200 | the same for round 2 |
| Md5.HH | components/websocket/wsock_md5.c:202-218 | the same for round 3 |
| Md5.II | components/websocket/wsock_md5.c:220-236 | the same for round 4 |
| Md5.Round1 | components/websocket/wsock_md5.c:166-182 | the sixteen calls are operations 0 to 15 of section 3.4 |
| Md5.Round2 | components/websocket/wsock_md5.c:184-200 | the sixteen calls are operations 16 to 31 |
| Md5.Round3 | components/websocket/wsock_md5.c:202-218 | the sixteen calls are operations 32 to 47 |
| Md5.Round4 | components/websocket/wsock_md5.c:220-236 | the sixteen calls are operations 48 to 63 |
| Md5.Decode | components/websocket/wsock_md5.c:269-279 | sixteen words of the block, low-order octet first |
| Md5.Encode | components/websocket/wsock_md5.c:251-264 | the words' octets, low-order first, in order |
| Md5.Context.constructor | components/websocket/wsock_md5.c:71-81 | a new context has absorbed the empty message |
| Md5.Context.Transform | components/websocket/wsock_md5.c:158-246 | the state becomes the RFC's block function of it and the block |
| Md5.Context.CountBits | components/websocket/wsock_md5.c:94-101 | the two-word counter, wraps counted, grows by eight times the input length whatever carries; the index is the length modulo 64 |
| Md5.Context.ConsumeDirect | components/websocket/wsock_md5.c:112-113 | the fast loop, with its 32-bit guard, folds exactly the whole blocks of the input and leaves less than one |
| Md5.GuardAtEnd | components/websocket/wsock_md5.c:112 | with less than a block left the 32-bit guard is false exactly when `i + 63` does not wrap |
| Md5.TakesEnough | components/websocket/wsock_md5.c:103-113 | that is so for inputs up to 2^32 - 64 octets and for every input when whole blocks came before |
| Md5.Context.FillAndConsume | components/websocket/wsock_md5.c:107-116 | buffered octets and input together lose no octet: what is folded and what is left make up both |
| Md5.Context.Update | components/websocket/wsock_md5.c:87-124 | the message grows by the whole input on every path |
| Md5.Context.Close | components/websocket/wsock_md5.c:139-146 | the two padding updates fold exactly the padded message of sections 3.1 and 3.2 |
| Md5.Context.Final | components/websocket/wsock_md5.c:129-154 | the output is the RFC digest of everything absorbed, and the context is all zero |
| Md5.BitLengthWords | components/websocket/wsock_md5.c:136-137 | the counter words are the low 64 bits of the bit length, for every length |
| Md5.BufferIndex | components/websocket/wsock_md5.c:95 | the low word alone gives the buffer index |
| Md5.OneShot | components/websocket/wsock_md5.c:308-315 | the one-shot call yields the RFC digest of its input, of every 32-bit length |
| Md5.DigestOfPieces | components/websocket/wsock_md5.c:71-154 | any sequence of updates yields the RFC digest of their concatenation |
| Base64Spec.RoundTrip | components/websocket/include/c_base64.h:20-111 | decoding an encoding gives back every octet string, of all lengths, with no error |
| Base64Spec.EncodeInjective | components/websocket/include/c_base64.h:20-51 | equal encodings have equal sources |
| Base64Spec.NoiseIgnored | components/websocket/include/c_base64.h:73-74 | dropping everything that is neither alphabet, '=' nor NUL changes neither output nor errors |
| Base64Spec.NoiseInserted | components/websocket/include/c_base64.h:73-74 | inserting such octets anywhere changes neither |
| Base64Spec.IgnoredExactly | components/websocket/include/c_base64.h:60-74 | an octet may be inserted anywhere without effect exactly when it is neither one of the 64 symbols nor '=' nor NUL |
| Base64Spec.NotIgnored | components/websocket/include/c_base64.h:71-107 | every other octet changes the decoding of some text |
| Base64Spec.OutputBound | components/websocket/include/c_base64.h:67-111 | for every input at all, four times the octets written is at most three times the octets given |
| Base64Spec.TruncatedUnreported | components/websocket/include/c_base64.h:88-107 | any cut of any encoding before its padding decodes, with no error, to exactly the triples of its whole groups |
| Base64Spec.SymbolValue | components/websocket/include/c_base64.h:60-65 | the decoder's table inverts the encoder's on all 64 symbols |
| Base64Spec.SymbolIs | components/websocket/include/c_base64.h:24 | the symbols are those of the literal, at their places, and the padding is '=' |
| Base64Spec.Vectors | components/websocket/include/c_base64.h:20-51 | the encodings section 10 of RFC 4648 publishes |
| Base64Spec.OddTexts | components/websocket/include/c_base64.h:88-107 | of up to three capital letters, with or without '=' behind them, exactly a lone one with '=' counts as an error |
| Base64Spec.NulText | components/websocket/include/c_base64.h:62-74 | four NULs decode to three octets, since NUL counts 64 |
| Base64.Indices | components/websocket/include/c_base64.h:29-32 | the shifts and masks are the six-bit groups of the three octets |
| Base64.EncodeInto | components/websocket/include/c_base64.h:20-51 | the output is the section 4 encoding for all three residues, its exact length, and a NUL behind it; nothing else is written |
| Base64.Tables.constructor | components/websocket/include/c_base64.h:56 | the static tables start out zero |
| Base64.Tables.Fill | components/websocket/include/c_base64.h:62-65 | on first use or filled by earlier calls, the tables afterwards hold exactly the 64 symbols and NUL, with their values |
| Base64.StepMember | components/websocket/include/c_base64.h:75-85 | an alphabet member extends the accumulator or completes three octets of the decoding |
| Base64.Close | components/websocket/include/c_base64.h:88-101 | after '=' the incomplete group yields none, one or two octets, and an error exactly for a lone symbol |
| Base64.DecodeInto | components/websocket/include/c_base64.h:54-111 | on arbitrary input the loop writes exactly the decoding, reports exactly its errors, and touches nothing beyond; the uninitialised variable does not matter |
| Base64.DecodeNew | components/websocket/include/c_base64.h:113-134 | no buffer exactly when there was an error, otherwise one that holds the whole decoding |
| MiniData.Create | components/hxkong_yun/mini-data.c:7-46 | writes exactly the frame of the payload, in both length forms, and nothing for length 0 |
| MiniData.FrameOctets | components/hxkong_yun/mini-data.c:7-46 | the octets on the wire, in both length forms, for every payload length |
| MiniData.Get | components/hxkong_yun/mini-data.c:48-116 | the count is between 0 and the cached length, a drop is of at least one octet, and a found payload lies inside the frame |
| MiniData.MiniDataGet | components/hxkong_yun/mini-data.c:48-116 | the loop and branches return what the specification says for the whole array, stale octets included |
| MiniData.GetFrame | components/hxkong_yun/mini-data.c:48-116 | a created frame in front is awaited while incomplete and found with its payload intact once complete, whatever lies beyond |
| MiniData.GetLong | components/hxkong_yun/mini-data.c:76-116 | the long form with any 16-bit length, low octet first, is awaited and then found |
| MiniData.DropsNoHead | components/hxkong_yun/mini-data.c:59-70 | a drop never passes over a head, and noise in front of one goes at once |
| MiniData.BadHeads | components/hxkong_yun/mini-data.c:88-109 | a length of 0 and a wrong tail each cost the head alone |
| MiniData.StaleOctetMatters | components/hxkong_yun/mini-data.c:76-80 | octets past the cached length can change the answer exactly when the live ones are AF FF 00 |
| YunReceiver.DrainConserves | components/hxkong_yun/hxkong_yun.c:68-86 | for arbitrary octets, consumed then still buffered is what was buffered, and the loop stops only where the parser returns nothing |
| YunReceiver.ReceiveConserves | components/hxkong_yun/hxkong_yun.c:52-87 | the same across a call: no octet lost or reordered unless the overflow reset fires; at most 1399 stay buffered |
| YunReceiver.Receiver.ActionTransServDataFunc | components/hxkong_yun/hxkong_yun.c:90-116 | only the data answer reaches the user's callback, without its command octet and in order |
| YunReceiver.Receiver.Store | components/hxkong_yun/hxkong_yun.c:59-65 | the reset and the copy, over the whole array |
| YunReceiver.CopyFits | components/hxkong_yun/hxkong_yun.c:60-65 | the copy stays inside the buffer exactly for pieces of at most 1400 octets, whatever was buffered |
| YunReceiver.ResetExactly | components/hxkong_yun/hxkong_yun.c:59-65 | the buffer has 1400 octets, and what it held is lost exactly when it and the piece exceed 1399 |
| YunReceiver.DeliveredExactly | components/hxkong_yun/hxkong_yun.c:90-116 | an octet string reaches the user's callback exactly when a command was received with it behind the octet 1 |
| YunReceiver.Receiver.Shift | components/hxkong_yun/hxkong_yun.c:79-84 | the overlapping in-place shift moves the live octets down unharmed and keeps the ones above |
| YunReceiver.Receiver.RecvData | components/hxkong_yun/hxkong_yun.c:52-87 | the loop terminates, with the buffer and the dispatched commands of the specification |
| YunStream.StepAt | components/hxkong_yun/hxkong_yun.c:68-86 | one turn moves to a later place in the stream and dispatches a payload exactly when it passes a packet |
| YunStream.DrainAt | components/hxkong_yun/hxkong_yun.c:68-86 | the whole loop dispatches exactly the packets between the two places |
| YunStream.SettledLength | components/hxkong_yun/hxkong_yun.c:79-86 | where the loop stops on such a stream at most 259 octets are buffered |
| YunStream.Reassembly | components/hxkong_yun/hxkong_yun.c:52-87 | from an empty buffer, for every stream of created frames with head-free gaps, every chunking into pieces of at most 1140 and every content of the array: exactly the payloads in order, no overflow reset, only an unfinished tail left |
| YunStream.Resumed | components/hxkong_yun/hxkong_yun.c:52-87 | the same when the receiver still holds noise and the front of this stream from earlier calls |
| YunStream.LeftoverHarmlessIff | components/hxkong_yun/hxkong_yun.c:59-86 | what an ended stream leaves in the buffer disturbs no later stream exactly when it holds no unfinished frame |
| YunStream.LeftoverLoss | components/hxkong_yun/hxkong_yun.c:59-86 | a frame swallowed by the unfinished frame of an earlier connection |
| YunStream.ReceiveAll | components/hxkong_yun/hxkong_yun.c:52-87 | repeated callbacks on the object, whatever it still holds, are the modelled run |
| YunStream.ReceiveStream | components/hxkong_yun/hxkong_yun.c:52-87 | so the commands of a receiver that holds nothing unfinished but the front of this stream grow by exactly the stream's payloads, and it then holds only the stream's tail |
| YunStream.UserReceives | components/hxkong_yun/hxkong_yun.c:68-96 | AF 02 01 41 FA, in whatever pieces it comes, brings the user's callback the one octet 41 |
| YunStream.IotYunSend | components/hxkong_yun/hxkong_yun.c:119-137 | what is sent is the frame of the octet-truncated payload, or nothing |
| YunStream.SendWhole | components/hxkong_yun/hxkong_yun.c:129 | the caller's buffer goes out whole exactly up to 254 octets |
| YunStream.SentFrame | components/hxkong_yun/hxkong_yun.c:119-131 | the octets sent: head, length, command octet 0, the caller's octets, tail |
| ZhList.List.constructor | components/zhlist/zhlist.c:12-17 | the empty list |
| ZhList.List.Insert | components/zhlist/zhlist.c:52-86 | insertion after the given node, or in front, on the sequence of nodes; both pointer chains and the count follow |
| ZhList.List.Add | components/zhlist/zhlist.c:88-91 | the node becomes the last one |
| ZhList.List.Delete | components/zhlist/zhlist.c:93-106 | exactly that node leaves the sequence; its own pointers are not touched |
| ZhList.List.Find | components/zhlist/zhlist.c:110-127 | the position counted from 1, or -1 exactly when the node is absent |
| ZhList.List.Free | components/zhlist/zhlist.c:131-149 | every node is released once, in order, and the list is empty |
| ZhList.List.WalksAgree | components/zhlist/zhlist.c:52-127 | the forward walk is the backward walk reversed, of exactly count nodes, and is the sequence |
| ZhList.LinkedInserted | components/zhlist/zhlist.c:56-82 | the pointers an insertion sets link the longer sequence both ways |
| ZhList.LinkedRemoved | components/zhlist/zhlist.c:95-103 | so do those a deletion sets |
| ZhList.WithoutInserted | components/zhlist/zhlist.c:52-106 | deleting what was inserted restores the sequence |
| ZhList.InsertThenDelete | components/zhlist/zhlist.c:52-106 | the same for the two operations on the heap |
| OutboxSpec.CleanupExact | components/espmqtt/lib/mqtt_outbox.c:130-142 | the shortest run of oldest free entries that makes the rest fit goes, the rest keeps its order, and it fails exactly when the pending ones alone are too big |
| OutboxSpec.DestroyLeavesNothing | components/espmqtt/lib/mqtt_outbox.c:144-148 | destroying releases every entry exactly when none is pending and the newest has data |
| OutboxSpec.RemoveFirstFree | components/espmqtt/lib/mqtt_outbox.c:44-53 | taking the oldest free entry leaves the pending ones as they were |
| OutboxSpec.RemoveFirstOldest | components/espmqtt/lib/mqtt_outbox.c:54-68 | deletion takes the oldest match alone; other matches and all else keep their order |
| OutboxSpec.PendingSmallest | components/espmqtt/lib/mqtt_outbox.c:120-128 | no cleaning can get below the pending entries' size |
| OutboxSpec.FilterMembers | components/espmqtt/lib/mqtt_outbox.c:69-118 | exactly the entries that are kept stay |
| OutboxSpec.DeletionsLeave | components/espmqtt/lib/mqtt_outbox.c:69-118 | which entries the deletions by id, by type and by age leave, in terms of the entries' own fields |
| OutboxSpec.SearchesFind | components/espmqtt/lib/mqtt_outbox.c:33-68 | which entry the searches by id, by id and type, and for one not pending find: the oldest that has these fields |
| OutboxSpec.MarkedExactly | components/espmqtt/lib/mqtt_outbox.c:82-90 | marking changes the oldest entry of that id and nothing of it but the mark |
| Outbox.Queue.constructor | components/espmqtt/lib/mqtt_outbox.c:9-15 | the empty queue |
| Outbox.Queue.Enqueue | components/espmqtt/lib/mqtt_outbox.c:17-31 | a fresh entry with a copy of the data goes last, through the tail link |
| Outbox.Queue.Get | components/espmqtt/lib/mqtt_outbox.c:33-42 | the oldest entry with the id, or null exactly when there is none |
| Outbox.Queue.Dequeue | components/espmqtt/lib/mqtt_outbox.c:44-53 | the oldest entry not pending, which stays queued |
| Outbox.Queue.Remove | components/espmqtt/lib/mqtt_outbox.c:59 | unlinking any item, first and last included, keeps the links and the tail right |
| Outbox.Queue.Delete | components/espmqtt/lib/mqtt_outbox.c:54-68 | the first match by id and type goes, and success says whether there was one |
| Outbox.Queue.SetPending | components/espmqtt/lib/mqtt_outbox.c:82-90 | the first entry with the id is marked and no other |
| Outbox.Queue.DeleteAll | components/espmqtt/lib/mqtt_outbox.c:71-80 | removal while walking equals the order-preserving filter |
| Outbox.Queue.DeleteMsgId | components/espmqtt/lib/mqtt_outbox.c:69-81 | that filter for ids |
| Outbox.Queue.DeleteMsgType | components/espmqtt/lib/mqtt_outbox.c:92-104 | that filter for types |
| Outbox.Queue.DeleteExpired | components/espmqtt/lib/mqtt_outbox.c:106-118 | that filter for age |
| Outbox.Queue.GetSize | components/espmqtt/lib/mqtt_outbox.c:120-128 | the sum of the data lengths |
| Outbox.Queue.Cleanup | components/espmqtt/lib/mqtt_outbox.c:130-142 | the loop on the heap has the result CleanupExact is about |
| MqttWire.LengthRoundTrip | components/espmqtt/lib/mqtt_msg.c:106-153 | the standard's remaining-length coding is inverted for every value of four octets, whatever follows |
| MqttWire.FixedHeaderStandard | components/espmqtt/lib/mqtt_msg.c:106-127 | the header written is the standard's exactly for remaining lengths up to 16383 |
| MqttWire.FixedHeaderTooLong | components/espmqtt/lib/mqtt_msg.c:110-117 | above that, whatever the body, a standard reader never finds the packet's length, not even by reading body octets as length |
| MqttWire.TotalLengthStandard | components/espmqtt/lib/mqtt_msg.c:136-153 | on every well-formed length of one to four octets the scan gives value plus header size |
| MqttWire.TotalLengthFits | components/espmqtt/lib/mqtt_msg.c:136-153 | up to four length octets, well-formed or not, the sum stays inside a 32-bit int |
| MqttWire.TotalLengthOfHeader | components/espmqtt/lib/mqtt_msg.c:106-153 | it inverts the header writer for 0 to 16383 and depends on nothing behind the header |
| MqttWire.FirstFields | components/espmqtt/lib/mqtt_msg.c:112 | type, DUP, QoS and RETAIN each stand in their own bits of the first octet, and type and QoS are read back |
| MqttWire.TypesStandard | components/espmqtt/lib/include/mqtt_msg.h:43-59 | the type values are those of table 2.1 of MQTT 3.1.1 |
| MqttWire.WordOrder | components/espmqtt/lib/mqtt_msg.c:63-91 | words are written and read with the high octet first |
| MqttWire.LengthVectors | components/espmqtt/lib/mqtt_msg.c:106-153 | the length coding has the values of table 2.4 at the ends of its ranges |
| MqttMsg.Connection.AppendString | components/espmqtt/lib/mqtt_msg.c:63-74 | the length-prefixed string goes last, or nothing changes exactly when it does not fit |
| MqttMsg.Connection.AppendMessageId | components/espmqtt/lib/mqtt_msg.c:76-91 | the id, or a nonzero draw in place of 0, goes last, or nothing changes exactly when it does not fit |
| MqttMsg.Connection.Fini | components/espmqtt/lib/mqtt_msg.c:106-127 | the message is the fixed header directly followed by the body, for both choices of its start |
| MqttMsg.Connection.MsgPublish | components/espmqtt/lib/mqtt_msg.c:362-386 | the section 3.3 packet exactly when it fits and has a topic, else the empty message; nothing past the buffer length changes |
| MqttMsg.Connection.MsgAck | components/espmqtt/lib/mqtt_msg.c:388-418 | the two-octet packet with the id, under the same conditions |
| MqttMsg.Connection.MsgSubscribe | components/espmqtt/lib/mqtt_msg.c:420-438 | the same for SUBSCRIBE, whose body SubscribeRoundTrip reads back, and what id is handed out on every failure |
| MqttMsg.Connection.MsgUnsubscribe | components/espmqtt/lib/mqtt_msg.c:440-454 | the same for UNSUBSCRIBE, with UnsubscribeRoundTrip |
| MqttMsg.Connection.MsgEmpty | components/espmqtt/lib/mqtt_msg.c:456-472 | the bodiless packets |
| MqttRoundTrip.EmptyOctets | components/espmqtt/lib/mqtt_msg.c:456-472 | PINGREQ, PINGRESP and DISCONNECT, octet by octet |
| MqttMsg.Connection.ConnectWill | components/espmqtt/lib/mqtt_msg.c:329-341 | the will fields are appended and its flags patched without disturbing the others |
| MqttMsg.Connection.ConnectCredential | components/espmqtt/lib/mqtt_msg.c:343-357 | a present credential is appended and exactly its flag added |
| MqttMsg.Connection.MsgConnect | components/espmqtt/lib/mqtt_msg.c:292-360 | the whole CONNECT with the flags its fields demand, exactly when there is a client id and it fits, else length 0; nothing past the buffer length changes |
| MqttParse.GetTotalLength | components/espmqtt/lib/mqtt_msg.c:136-153 | the shifting loop is the base-128 sum and the header's end |
| MqttParse.GetPublishTopic | components/espmqtt/lib/mqtt_msg.c:155-182 | position and length, or null, depend on the live octets only, as specified |
| MqttParse.GetPublishData | components/espmqtt/lib/mqtt_msg.c:184-228 | the same for the payload |
| MqttParse.GetId | components/espmqtt/lib/mqtt_msg.c:230-290 | the same for the id |
| MqttParse.ViewsExactly | components/espmqtt/lib/mqtt_msg.c:155-228 | where topic and payload of any buffer are, in octets: the big-endian topic length, two more octets above QoS 0, the end of packet or buffer |
| MqttParse.IdExactly | components/espmqtt/lib/mqtt_msg.c:230-290 | the id of any buffer, in octets, for each of the sixteen type values |
| MqttRoundTrip.PublishRoundTrip | components/espmqtt/lib/mqtt_msg.c:155-290 | from any buffer starting with a built PUBLISH the readers recover total length, topic and payload, and the id exactly when something follows it; DUP is clear and RETAIN is the caller's |
| MqttRoundTrip.PublishDataIff | components/espmqtt/lib/mqtt_msg.c:369-385 | the payload comes back exactly when the QoS argument's sign agrees with its two low bits |
| MqttRoundTrip.PublishOctets | components/espmqtt/lib/mqtt_msg.c:362-386 | a retained PUBLISH at QoS 1 and one at QoS 0, octet by octet |
| MqttRoundTrip.AckRoundTrip | components/espmqtt/lib/mqtt_msg.c:271-285 | an acknowledgement's type, id and total length are read back whatever follows |
| MqttRoundTrip.BodyBack | components/espmqtt/lib/mqtt_msg.c:106-127 | any packet's body is read back exactly when its length fits the two length octets |
| MqttRoundTrip.SubscriptionBodies | components/espmqtt/lib/mqtt_msg.c:420-454 | the body of SUBSCRIBE holds id, topic filter and QoS, that of UNSUBSCRIBE id and topic filter, by sections 3.8 and 3.10 |
| MqttRoundTrip.SubscribeRoundTrip | components/espmqtt/lib/mqtt_msg.c:420-438 | a reader by section 3.8 alone recovers id, topic filter and QoS of a built SUBSCRIBE exactly when its remaining length is at most 16383 |
| MqttRoundTrip.UnsubscribeRoundTrip | components/espmqtt/lib/mqtt_msg.c:440-454 | the same for UNSUBSCRIBE by section 3.10 |
| MqttRoundTrip.SubscriptionFirsts | components/espmqtt/lib/mqtt_msg.c:437-453 | both carry the reserved bits the standard fixes |
| MqttRoundTrip.SubscriptionOctets | components/espmqtt/lib/mqtt_msg.c:420-454 | a subscription to MSD/A at QoS 0, and its end, octet by octet |
| MqttRoundTrip.FlagBits | components/espmqtt/lib/mqtt_msg.c:318-357 | each flag of CONNECT is set exactly when its field is present |
| MqttRoundTrip.ConnectRoundTrip | components/espmqtt/lib/mqtt_msg.c:292-360 | a reader by section 3.1 alone recovers every field of CONNECT, exactly when the remaining length is at most 16383 |
| MqttRoundTrip.ConnectOctets | components/espmqtt/lib/mqtt_msg.c:292-360 | a CONNECT with every field, in both protocol variants, octet by octet |
| MqttRoundTrip.PasswordNeedsUsername | components/espmqtt/lib/mqtt_msg.c:343-357 | the packet obeys section 3.1.2.9 exactly when the caller gave a user name with a password |
| Fragments.Tiling | components/espmqtt/mqtt_client.c:409-456 | however the message is read, as long as the counter does not wrap: every event carries the payload's size, each offset is the sum of earlier lengths, there is one event per read, and the lengths add up to the payload exactly when the reads end where the message ends |
| Fragments.EventsPerRead | components/espmqtt/mqtt_client.c:416-453 | one event for the first part and one for each read the loop makes use of |
| Fragments.ReadsBounded | components/espmqtt/mqtt_client.c:441-453 | without a wrap, message_length - message_length_read bounds the reads, however long the supply |
| Fragments.UnwrappedWithin | components/espmqtt/mqtt_client.c:444-452 | message and buffer of together at most 65536 octets exclude a wrap |
| Fragments.EndlessIff | components/espmqtt/mqtt_client.c:416-453 | the loop can be kept going for any number of reads exactly when the message is incomplete and its length plus the buffer size exceeds 65536 |
| Fragments.FullReadsWrap | components/espmqtt/mqtt_client.c:444-452 | the case of the default buffer: 65535 octets, 1000 of them read, every later read full |
| Fragments.Surplus | components/espmqtt/mqtt_client.c:441-442 | once the counter has reached the message length nothing more is read, and what the transport still holds changes no event |
| Fragments.NoOverrunTaken | components/espmqtt/mqtt_client.c:441-453 | reads that stay inside the message are all used |
| Fragments.FirstView | components/espmqtt/mqtt_client.c:547-551 | a first read that covers header, topic and id sees the true total length and as much payload as it holds |
| Fragments.HeadLayout | components/espmqtt/lib/mqtt_msg.c:136-269 | in any buffer that begins with an incoming PUBLISH up to its payload, total length, topic length, QoS and id are where the readers look |
| Fragments.IncomingId | components/espmqtt/lib/mqtt_msg.c:237-270 | the id of an incoming PUBLISH above QoS 0 is found exactly when something follows it in the buffer |
| Fragments.IncomingTiles | components/espmqtt/mqtt_client.c:409-456 | so for every conforming PUBLISH below 65536 octets whose header, topic and id came with the first read, however the rest is cut, the events tile its payload |
| Fragments.TotalRightIff | components/espmqtt/mqtt_client.c:423-424 | for every PUBLISH read whole, the announced total is its payload's size exactly when nothing follows it in the buffer |
| Fragments.TotalAnnouncedIff | components/espmqtt/mqtt_client.c:423-424 | for a first read that stops inside the packet, past its length octets, the announced total is the payload's size exactly when header, topic and id have been read |
| Fragments.CutHead | components/espmqtt/lib/mqtt_msg.c:184-290 | a PUBLISH cut at or before the start of its payload shows no id, and cut before it no payload |
| Fragments.LengthLayout | components/espmqtt/lib/mqtt_msg.c:136-153 | with the length octets read, total length and QoS are known |
| AckSpec.Accounting | components/espmqtt/mqtt_client.c:458-489 | over every interleaving the counter is requests made minus acknowledgements accepted, between 0 and one more than the outbox holds |
| AckSpec.AcceptedIds | components/espmqtt/mqtt_client.c:458-474 | every id accepted is 0 or was drawn by a request earlier in the run than its acknowledgement |
| AckSpec.ListedPlace | components/espmqtt/mqtt_client.c:458-474 | every acknowledgement counted as accepted has its place in the run |
| AckSpec.PlaceListed | components/espmqtt/mqtt_client.c:458-474 | and every one accepted is counted |
| AckSpec.LoneSlot | components/espmqtt/mqtt_client.c:381-393 | through unrelated events a lone request keeps its place: packets written change its type, a reconnect its id, and nothing is accepted while the id stands |
| AckSpec.QuietAfter | components/espmqtt/mqtt_client.c:461-463 | after the exchange closes, duplicates are rejected until the next request |
| AckSpec.LoneExchange | components/espmqtt/mqtt_client.c:458-474 | a lone request is closed by its acknowledgement exactly once, exactly when no reconnect came between and the last packet written since has the request's type |
| AckSpec.QoS2Exchange | components/espmqtt/mqtt_client.c:559-575 | a lone QoS 2 publish is closed by PUBREC, PUBREL, PUBCOMP exactly once, exactly when no reconnect came between and the last packet written since PUBREL has its type |
| AckSpec.LoneAck | components/espmqtt/mqtt_client.c:458-474 | the law behind both: which acknowledgement finds a lone request after any unrelated events |
| AckSpec.AcceptedAgain | components/espmqtt/mqtt_client.c:458-474 | an acknowledgement accepted once is accepted again exactly when another request is counted and its key stands in the slot or once more in the outbox |
| AckSpec.DuplicateCloses | components/espmqtt/mqtt_client.c:458-474 | a duplicate that closes the other of two requests, whose own acknowledgement is then refused |
| LinkSpec.ElapsedExact | components/espmqtt/mqtt_client.c:655 | the comparison of wrapping ticks holds exactly when the elapsed time, modulo 2^32, is above the timeout and below 2^31 |
| LinkSpec.ElapsedSound | components/espmqtt/mqtt_client.c:655 | so under a clock that does not go back the timeout is never reported early |
| LinkSpec.TickCut | components/espmqtt/mqtt_client.c:643-655 | the cut to 32 bits, read as a signed number, for every tick |
| LinkSpec.PassLeads | components/espmqtt/mqtt_client.c:611-661 | where each pass leads: connected exactly when the transport is up and the CONNACK accepted, the wait from the tick of the failure, the end of the loop without auto_reconnect, another attempt exactly after the timeout |
| LinkSpec.NoReconnect | components/espmqtt/mqtt_client.c:651-654 | without auto_reconnect no attempt ever follows a DISCONNECTED, and from the wait on the loop only ends |
| LinkSpec.StepInv | components/espmqtt/mqtt_client.c:606-663 | each pass of the loop keeps the invariant behind ClientLoop |
| LinkSpec.ConnectedFrom | components/espmqtt/mqtt_client.c:620-634 | each CONNECTED event comes from a pass that finds the transport up and accepts a CONNACK, at the place the events before it leave |
| LinkSpec.ConnectsGives | components/espmqtt/mqtt_client.c:620-634 | each such pass, reached with the loop running and nothing connected, dispatches one |
| LinkSpec.ClientLoop | components/espmqtt/mqtt_client.c:606-663 | in every run two CONNECTED events have a DISCONNECTED between them, CONNECTED is dispatched exactly by the passes that find the transport up and accept a CONNACK, and every attempt comes more than the timeout after every earlier DISCONNECTED |
| MqttClient.Client.constructor | components/espmqtt/mqtt_client.c:259-310 | buffers of the configured size, or of 1024 octets when none is given; nothing in flight, nothing logged, the loop about to start |
| MqttClient.Client.Accounted | components/espmqtt/mqtt_client.c:458-489 | the object's counter obeys the accounting laws after any interleaving of its methods, and every id accepted was 0 or drawn before its acknowledgement came |
| MqttClient.Client.WriteData | components/espmqtt/mqtt_client.c:381-393 | the written packet's type lands in the slot whether or not the write succeeds |
| MqttClient.Client.Enqueue | components/espmqtt/mqtt_client.c:476-489 | a nonzero count moves the slot's id and type, with the current packet, to the end of the outbox |
| MqttClient.Client.IsValidMsg | components/espmqtt/mqtt_client.c:458-474 | accepts exactly what the state machine accepts, and changes exactly what it changes |
| MqttClient.AckedStep | components/espmqtt/mqtt_client.c:463-471 | deleting from the outbox is the state machine's step on the ids and types in it |
| MqttClient.Client.Subscribe | components/espmqtt/mqtt_client.c:709-730 | one request is recorded, the SUBSCRIBE packet goes out with the fresh id and the id is returned; refused and without effect unless connected |
| MqttClient.Client.Unsubscribe | components/espmqtt/mqtt_client.c:732-754 | the same for UNSUBSCRIBE |
| MqttClient.Client.Publish | components/espmqtt/mqtt_client.c:756-785 | the PUBLISH packet goes out; above QoS 0 one request is recorded, at QoS 0 only a write |
| MqttClient.Client.Ping | components/espmqtt/mqtt_client.c:692-707 | when connected, the packet is PINGREQ, its write is recorded and takes over the slot's type; otherwise refused and without effect |
| MqttClient.Client.DispatchData | components/espmqtt/mqtt_client.c:418-440 | one event with the length, total and offset of the specification |
| MqttClient.Client.Turn | components/espmqtt/mqtt_client.c:416-453 | one turn takes the loop exactly one event and at most one read further |
| MqttClient.Client.DeliverPublish | components/espmqtt/mqtt_client.c:409-456 | over any finite supply of reads the loop on the shared input buffer leaves the specified events and buffer, each turn re-reading what the last read left |
| MqttClient.Client.DeliverLive | components/espmqtt/mqtt_client.c:416-453 | over a supply that never ends, with message and buffer within 65536 octets together, the loop terminates by message_length - message_length_read, having asked for at most that many reads |
| MqttClient.EventsBounded | components/espmqtt/mqtt_client.c:416-453 | the same bound on the events, for any supply |
| MqttClient.DeliveredTiles | components/espmqtt/mqtt_client.c:530-552 | the events process_receive leaves for a conforming PUBLISH whose head came with the first read tile its payload; all of it exactly when the reads used end where the message ends |
| MqttClient.Client.Reply | components/espmqtt/mqtt_client.c:530-579 | the answer goes out as specified and is recorded as a write |
| Answers.ReplyCarriesId | components/espmqtt/mqtt_client.c:530-579 | the peer reads back, from the answer, what the client's reader made of its packet, or the random id that replaces 0 |
| Answers.PublishAnswered | components/espmqtt/mqtt_client.c:505-546 | sections 4.3.2 and 4.3.3: PUBACK or PUBREC always answers a QoS 1 or 2 PUBLISH, and under its own id, whatever was in the buffer and whatever is drawn, exactly when the first read brings header, topic and id and the buffer holds more |
| Answers.PublishIdRead | components/espmqtt/mqtt_client.c:509-511 | the id read after the first read is the packet's, for every earlier buffer content, exactly under that condition |
| Answers.AnsweredOnceBegun | components/espmqtt/mqtt_client.c:530-546 | on one buffer that begins with header, topic and id: the own id exactly when something follows or the draw hits it |
| Answers.AnsweredFromStaleId | components/espmqtt/mqtt_client.c:509-546 | a first read that stops before the id, answered under a wrong one |
| Answers.AnsweredUnderWrongId | components/espmqtt/mqtt_client.c:530-546 | the shortest packet answered under a wrong id |
| Answers.AckAnswered | components/espmqtt/mqtt_client.c:559-569 | PUBREC is answered by PUBREL and PUBREL by PUBCOMP under its own id, whatever else the buffer holds |
| Answers.AnswerOctets | components/espmqtt/mqtt_client.c:525-579 | which packets are answered and with which octets: 40, 50, 62 or 70 with the id or the draw, or D0 00 |
| Answers.StaleAck | components/espmqtt/lib/mqtt_msg.c:271-285 | octets of an earlier read decide an acknowledgement's id exactly when fewer than four came and the second, if it came, has no top bit |
| MqttClient.Client.ReceiveAck | components/espmqtt/mqtt_client.c:514-575 | each acknowledgement is checked against the type ReactionOctets gives for its first octet: SUBACK against SUBSCRIBE, UNSUBACK against UNSUBSCRIBE, PUBACK against PUBLISH, PUBCOMP against PUBREL |
| MqttClient.ReactionOctets | components/espmqtt/mqtt_client.c:514-580 | what every received packet does to the bookkeeping, in octets: 9x, Bx, 4x and 7x acknowledge a request of type 8, 10, 3 and 6 under the id in octets 2 and 3; what is answered is a write; all else is nothing |
| MqttClient.ReactionWritten | components/espmqtt/mqtt_client.c:514-580 | and the write is of the answer's type |
| ClientRuns.Acknowledged | components/espmqtt/mqtt_client.c:491-575 | octets received on the object close a lone request, exactly when no reconnect came between and the type last written is the one they answer, which covers the second half of a QoS 2 publish; otherwise the count stays |
| MqttClient.Client.ProcessReceive | components/espmqtt/mqtt_client.c:491-587 | every received packet has exactly its reaction, which ReactionOctets gives in octets: one event in the history, the right answer sent, a PUBLISH delivered, the buffer as the reads leave it; no octets, no effect; failure exactly on a read error |
| MqttClient.Client.Connect | components/espmqtt/mqtt_client.c:188-246 | the CONNECT packet takes the slot with id 0; success exactly when both transfers work and the buffer, whose new content is stated, then holds a CONNACK with return code 0 (ConnackCodes, OnlyConnack) |
| Answers.ConnackCodes | components/espmqtt/mqtt_client.c:220-244 | a CONNACK is accepted exactly with return code 0 |
| Answers.OnlyConnack | components/espmqtt/mqtt_client.c:216-219 | nothing that is no CONNACK is |
| ClientRuns.CodeDecides | components/espmqtt/mqtt_client.c:620-634 | a pass whose read is a CONNACK connects and dispatches CONNECTED for code 0; for any other code it dispatches only DISCONNECTED and leads to the wait |
| ClientRuns.RefusedNever | components/espmqtt/mqtt_client.c:620-634 | so in no run does such a pass put a CONNECTED anywhere |
| Answers.StaleConnack | components/espmqtt/mqtt_client.c:211-228 | earlier buffer content can decide the outcome exactly when fewer than four octets came and none of them rules a CONNACK out |
| Answers.FreshExactly | components/espmqtt/mqtt_client.c:211-228 | an acceptance is that of the octets read, whatever was in the buffer, exactly when four or more were read |
| ClientRuns.ConnectedBacked | components/espmqtt/mqtt_client.c:188-234 | in every run each CONNECTED comes from a pass whose read, over what was in the buffer before it, is an accepting CONNACK; its marker says whether four octets were read |
| ClientRuns.AcceptedOctet | components/espmqtt/mqtt_client.c:211-228 | each octet of an accepted CONNACK was in the buffer from the start or came with a read of this or an earlier pass |
| ClientRuns.ConnectedReceived | components/espmqtt/mqtt_client.c:188-234 | unless the buffer starts out with the first octet of a CONNACK, every CONNECTED has a read of the run that brought one |
| ClientRuns.SilentConnectIff | components/espmqtt/mqtt_client.c:296-300 | some run that receives nothing announces a connection exactly when the buffer starts out as an accepting CONNACK |
| MqttClient.NextLaid | components/espmqtt/mqtt_client.c:444-553 | a pass changes the input buffer by the reads that land in it and by nothing else |
| ClientRuns.OneConnackTwice | components/espmqtt/mqtt_client.c:211-234 | a run that dispatches CONNECTED twice on one received CONNACK |
| MqttClient.Client.AbortConnection | components/espmqtt/mqtt_client.c:248-257 | DISCONNECTED is dispatched and the wait starts at the current tick |
| MqttClient.Client.ReceiveInPass | components/espmqtt/mqtt_client.c:636-642 | the history grows by the reaction to what was received and by nothing else |
| MqttClient.Client.Keepalive | components/espmqtt/mqtt_client.c:643-646 | PINGREQ is built and written, and the tick renewed, exactly when half the keepalive interval has passed |
| MqttClient.DueExactly | components/espmqtt/mqtt_client.c:643 | that is so exactly when the time since the last ping, modulo 2^32, is above 500 times the keepalive seconds and below 2^31 |
| MqttClient.Client.ConnectedPass | components/espmqtt/mqtt_client.c:636-648 | receiving, then the ping: what is added to the history and what becomes of the keepalive tick, due or not; nothing after a read error |
| MqttClient.Client.TaskPass | components/espmqtt/mqtt_client.c:606-663 | one pass takes the object's connection state, log, input buffer, keepalive tick and, as long as a CONNECT can be built, history through one step, the ping included, and keeps the bookkeeping valid |
| ClientRuns.RunTask | components/espmqtt/mqtt_client.c:589-663 | for every finite run on the object, under a clock that never goes back, the log is the state machine's over the buffers actually left: the connection laws hold, every CONNECTED is backed by an accepting CONNACK in the buffer, and by one received in the run unless the buffer started out with the first octet of one; the keepalive tick and, as long as a CONNECT can be built, the whole history, every reaction and every ping, are those of the run |

## Left out

- Md5.Context.Update: an input on which the source's 32-bit `i + 63` wraps is not taken; `GuardAtEnd` says exactly which those are.
- Md5.DigestOfPieces: the same for each piece, given what came before it.
- MqttParse.GetTotalLength: sums in unbounded integers; the source's shifts overflow only beyond the four length octets the standard allows.
- MqttParse.GetPublishData: compares with that sum.
- YunReceiver.Receiver.RecvData: a piece of more than 1400 octets, which the source would copy past its buffer, is not taken; YunReceiver.Receiver.Store likewise.
- MqttClient.Client.constructor: configured buffer sizes from 4 to 65535, so that the four octets of a CONNACK and a fixed header fit and the 16-bit length does not wrap.
- MqttClient.Client.DeliverPublish: a supply of reads that goes on for ever is covered by DeliverLive where the loop terminates; where it need not, every finite part of the run is covered. Offsets, lengths and totals only; topic and data pointers of later fragments point into overwritten octets and are not modelled.
- Base64.DecodeNew: the allocation size is the integer bound, where the source computes it in floating point.
- Outbox.Queue.GetSize: the sum of lengths is an unbounded integer.
- Outbox.Queue.DeleteAll: models three loops that differ only in their test as one loop with the test as a parameter; MqttMsg's MsgAck does the same for four builders.
- Outbox.Queue.Enqueue: the tail pointer, in the source the address of a link, is an item or null; the macros of rom/queue.h are not part of this model.
- Memory: allocation failure, freeing, and the clearing of local arrays.
- Octet arithmetic: shifts and masks are division and modulo, and an OR of disjoint bits is a sum, outside the hashes.
- The retry loop of append_message_id: its first nonzero draw is a parameter.
- Sockets, TLS, transport tables, DNS and the connection handling of hxkong_tcp.c: what they return is an input.
- Configuration, URI parsing, stopping and destroying the client, and callbacks that call back into it.
- Data races between tasks: every call and pass is atomic, as the source's own comments ask for a lock.
- The transport is taken as valid; without one the source stops the loop after an attempt on a null handle.
- The element wrappers of components/zhlist/zhlist_exp.c, the key debouncer, HTTP, web socket handshakes and the peripheral drivers.
