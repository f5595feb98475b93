# Model of the push server's MQTT sessions and APNs sender

The model covers the two stateful parts of the push server.

* **The MQTT session.** `MqttServer` takes frames off the front of one receive buffer, copies each payload
  into an `MqttPacket`, hands it to a handler, and shifts the rest of the buffer down in place. The handlers
  drive the status `New`, `Connected`, `Disconnecting`, read the CONNECT header with a cursor, answer through
  the socket or a queue, and keep a registry of sessions that all sessions share.
* **The APNs sender.** `SslTcpClient` queues messages and keeps the head queued until a send succeeds.
  `SslTcpClientSocket` holds the message that is being written in a send buffer that must not be refilled. A
  timeout throws the socket and its buffer away and keeps the queue. The pool reconnects clients on request: it
  opens a new connection of the same socket object, with the same send buffer.

## How it is built

Each object of the source is a class with the same fields: `MqttPacket` (`MqttPacket.dfy`),
`MqttSessionHandler` (`SessionHandler.dfy`), `MqttServer` (`MqttServer.dfy`), `SslTcpClientSocket`,
`SslTcpClient`, `ApsApnsAdvanceClient` and the part of the pool that they use (`SslTcpClient.dfy`). Their
methods follow the source statement by statement, with its loops, its in-place moves and its 32-bit
accumulators. A `View()` of each object is a value, and every method is proved to turn the old view into what
a specification function says:

* `Framing.dfy` reads the frames off the original bytes without moving any; `RemainingLength.dfy` is the length
  field of section 2.1 of MQTT V3.1.
* `PacketReader.dfy` and `Connect.dfy` say which payloads a CONNECT is accepted for.
* `Session.dfy` and `SocketInput.dfy` are one session as a state machine over frames and over socket input.
* `Sender.dfy` is the outbound side as a state machine, with a history of all its connections and the bytes
  that each of them carried; `ApnsRequest.dfy` is its message format.

What the source promises is then proved about these functions over whole runs: `SessionRuns.dfy` for one
session, `World.dfy` for any number of sessions in every interleaving, `ServeRuns.dfy` for the input of a
connection, `SenderRuns.dfy`, `ClientState.dfy` and `ApnsDelivery.dfy` for the outbound side. Wire bytes, registry
keys, return codes and timers are also stated without these functions, as what a peer reads and as which event
decides, so that a specification function cannot be wrong together with the method that follows it.

What a session cannot foresee is a parameter: the result of its n-th `Send` and whether that `Send` finds the
connection gone, the socket's input as a list of what each read meets, and the JSON library as a function from
a text to an optional user name. What a client cannot foresee is one too: for each write, how many bytes go out
and whether the connection ends, and for each connect, whether it succeeds. Every statement holds for all of
these. A handler call is one atomic step.

## What the model follows where documentation or expectation says otherwise

* A frame that the buffer cuts short is dispatched all the same, with an empty payload, and frames are never
  reassembled across two reads. `Framing.CutIsTransparentIff` says exactly when that is harmless.
* The payload length passes through a 16-bit parameter, so `ProcessRecvMsg` clips a frame of 64 KiB or more,
  which section 2.1 allows; `Framing.RoundTripIff` is the exact condition for a buffer of any length. `Run`
  never passes it more than 2046 bytes, so there such a frame is not clipped: the read that brings its beginning
  is dispatched with an empty payload (`Framing.ProperPrefixIsPartial`) or lost as too big. The real limit of the
  program is 2046 bytes for a whole encoded frame, by `ServeRuns.ReachHandlersIff`.
* The protocol name is compared with `strcmp`, so "MQIsdp" in front of a zero byte is accepted too.
* A second CONNECT is refused and takes the session out of the registry, but the session stays `Connected`.
* A refused CONNECT erases the entry of its raw user name, and a new session keeps that raw name. So a CONNECT
  that is refused can take away the entry of another session; `World.RefusedConnectEvicts` is a run.
* A CONNECT under a name that is taken is accepted and answered with code 0, but gets no entry;
  `World.TakenNameIsAccepted` is a run.
* A connected session therefore need not be in the registry. `World.RegisteredIff` says exactly when it is:
  its name was free when its CONNECT was accepted, and no later event evicted the entry.
* The length byte of a pushed PUBLISH is one byte, so bodies above 125 bytes are misframed.
* `mqtt_send_publish` does not use its `retain` argument: the RETAIN bit of a push is never set.
* Responses that the socket did not take are queued, and the write event drops them from the queue unsent.
* Input that is already there when a buffer fails is thrown away; what arrives behind it is served
  (`ServeRuns.FailureKeepsLaterInput`).
* The send buffer outlives a reconnect of the same socket object, so a connection can begin in the middle of a
  message. Its peer then does not get the first request whole, although that request counts as completed;
  `ApnsDelivery.MidMessageConnection` is a run. A new connection hands over whole requests, whatever follows,
  exactly if no byte of the head counts as written when it is opened: `ApnsDelivery.ConnectDeliversIff`.
* A failed send does not take the client offline, and the pool drops the reconnect request of a client that is
  not offline; `SenderRuns.PoolKeepsAwakeIff` is the exact condition, `SenderRuns.LostWakeup` a run. The next
  timeout of the advance client repairs that, unless a disconnect has put the timer off and nothing has set it
  since: then, and only then, the message waits for the next publish (`SenderRuns.StrandedIff` for what can still
  happen, `ClientState.StrandedRunIff` for the runs that lead there).

## Model

| member | source | states |
|---|---|---|
| RemainingLength.DecodeEncoded | MqttServer.cpp:155-172 | decoding inverts the base-128 encoding for every length |
| RemainingLength.DigitWeights | MqttServer.cpp:171-172 | the weights of the digits, the first byte being the least significant |
| RemainingLength.FourBytesIffInRange | MqttServer.cpp:160-168 | the encoding fits in four bytes exactly for 0 to 268435455 |
| RemainingLength.ReencodeIffMinimal | MqttServer.cpp:158-172 | a received length field is the prescribed encoding of its value exactly when it has no superfluous zero digit; others are accepted too |
| RemainingLength.AccumulatorsFit | MqttServer.cpp:156-171 | no turn of the loop wraps either 32-bit accumulator around |
| Framing.MalformedIff | MqttServer.cpp:165-169 | a header is refused exactly when four length bytes are there and all of them ask for more |
| Framing.HeaderRead | MqttServer.cpp:158-178 | a header loop that reaches the byte behind the received ones, whatever it is, gives an unfinished frame; otherwise size and payload are those of the parser |
| Framing.RoundTripIff | MqttServer.cpp:154-189 | a buffer of encoded frames, of any length, splits into exactly those frames, with nothing left, if and only if all payloads are below 64 KiB |
| Framing.StreamRoundTrip | MqttServer.cpp:174-178 | for all frames that section 2.1 allows, the split gives the frames with payloads clipped to 16 bits, and consumes the buffer |
| Framing.SmallBufferKeepsPayload | MqttPacket.cpp:73-82 | in a buffer of at most 65535 bytes the 16-bit length never truncates |
| Framing.ProperPrefixIsPartial | MqttServer.cpp:154-180 | a buffer that stops anywhere inside an encoded frame gives that frame with an empty payload, never a clipped one |
| Framing.WholeFrameSize | MqttServer.cpp:176-188 | in a buffer below 64 KiB, what a frame takes off is at least its prescribed encoding, so no frame longer than the buffer comes out of it |
| Framing.CutIsTransparentIff | MqttServer.cpp:54-62 | handling two reads one after the other sees the frames of the joined bytes, for every second read, if and only if the first does not stop inside a frame |
| PacketReader.ReadAllIff | MqttPacket.cpp:133-179 | fields are read successfully exactly when the payload is these fields written out followed by what is left unread |
| PacketReader.ReadsLeaveSuffix | MqttPacket.cpp:133-179 | any sequence of reads, failed ones included, leaves a suffix of the payload |
| Packet.MqttPacket.constructor | MqttPacket.cpp:3-7 | a fresh packet is valid and has nothing to read |
| Packet.MqttPacket.Reset | MqttPacket.cpp:18-33 | resetting gives a fresh packet back |
| Packet.MqttPacket.SetCommand | MqttPacket.cpp:35-40 | stores the command and returns the previous one |
| Packet.MqttPacket.SetReceivePayload | MqttPacket.cpp:73-82 | the payload becomes a copy of the given bytes, as many as the 16-bit length says |
| Packet.MqttPacket.GetPayload | MqttPacket.cpp:95-101 | the payload behind the message id |
| Packet.MqttPacket.GetJsonMsg | MqttPacket.cpp:103-108 | exactly the bytes that are still unread, with no underflow |
| Packet.MqttPacket.ReadString | MqttPacket.cpp:133-152 | reads the string behind its big-endian length, or fails and keeps the caller's string; a length field that was there is used up |
| Packet.MqttPacket.ReadUint16 | MqttPacket.cpp:154-169 | reads a big-endian word, or fails without moving |
| Packet.MqttPacket.ReadUint8 | MqttPacket.cpp:171-179 | reads a byte, or fails without moving |
| Connect.ProtocolNameIff | MqttServer.cpp:238-244 | the name test is the `strcmp` of the C string with the six letters |
| Connect.HeaderRoundTrip | MqttServer.cpp:223-281 | every written header field comes back, and exactly the JSON text is left |
| Connect.AcceptedIff | MqttServer.cpp:223-299 | a CONNECT is accepted exactly when its payload is a written header of the right name and a text with a 16-byte user name |
| SessionHandler.MqttSessionHandler.AddMqttSession | MqttSessionHandler.cpp:32-46 | inserts under a free name; an existing entry is not overwritten |
| SessionHandler.MqttSessionHandler.DeleteMqttSession | MqttSessionHandler.cpp:48-58 | erases the entry and returns how many there were |
| SessionHandler.MqttSessionHandler.FindMqttSession | MqttSessionHandler.cpp:60-74 | the session of the name, or none; the iterator stands at it, or at the end |
| Server.MqttServer.constructor | MqttServer.cpp:4-9 | a session starts new, with an empty name and no history |
| Server.MqttServer.SendOrQueue | MqttServer.cpp:374-384 | exactly one message is produced, and it is either taken by the socket or appended byte for byte to the queue |
| Server.MqttServer.SendConnack | MqttServer.cpp:366-388 | produces exactly one message, which the peer reads as a CONNACK with this return code, in the second payload byte |
| Server.MqttServer.SendPublish | MqttServer.cpp:413-440 | produces exactly one message, sent or queued: the PUBLISH of this message id, body, qos and dup, which up to 125 body bytes reads back as such |
| Server.MqttServer.ServerDisconnect | MqttServer.cpp:469-474 | erases the entry of the current name and lets the timer run out |
| Server.MqttServer.RoutePacket | MqttServer.cpp:194-208 | the handler of the message type turns the session and the registry into what the state machine says |
| Server.MqttServer.PacketHandle | MqttServer.cpp:194-208 | the frame is logged and handled; a consistent registry stays consistent on the objects themselves |
| Server.MqttServer.HandlePingreq | MqttServer.cpp:322-356 | produces one PINGRESP, the bytes D0 00, and returns the result of its send |
| Server.MqttServer.HandleDisconnect | MqttServer.cpp:308-320 | the status becomes disconnecting and the entry of the name goes |
| Server.MqttServer.HandleConnect | MqttServer.cpp:210-306 | the reading of the header field by field ends exactly in the effect of the verdict on the whole payload |
| Server.MqttServer.ReadConnectHeader | MqttServer.cpp:223-268 | the header fields that were there replace the old ones, and a refusal carries the codes of the verdict |
| Server.MqttServer.ConnectUser | MqttServer.cpp:270-306 | the JSON half of a CONNECT has the effect of its verdict; a 16-byte user name becomes each half of the 32-byte name, another one the name itself |
| Server.MqttServer.AcceptConnect | MqttServer.cpp:299-305 | the accepted end of a CONNECT: status, registration under the doubled name unless that is taken, and CONNACK 0 |
| Server.MqttServer.ReadRemainingLength | MqttServer.cpp:155-174 | the decoding loop finds the header that the parser finds, reading no byte behind index nLen |
| Server.MqttServer.ReadFrame | MqttServer.cpp:137-178 | the packet that is dispatched is the parser's frame |
| Server.MqttServer.Consume | MqttServer.cpp:183-188 | the unread suffix moves to the front, the bytes behind it are zero, bytes beyond nLen are untouched |
| Server.MqttServer.Dispatch | MqttServer.cpp:145-180 | guard, header and dispatch depend on the received bytes only |
| Server.MqttServer.ProcessRecvMsg | MqttServer.cpp:134-192 | one frame: effect on the session and the registry, new length, buffer contents, all from the first nLen bytes |
| Server.MqttServer.NextFrame | MqttServer.cpp:59-62 | after one more frame the rest of the buffer leads to the same outcome; the length strictly decreases |
| Server.MqttServer.ProcessRequest | MqttServer.cpp:56-62 | the in-place loop refines playing the frames that the parser reads off the original buffer, up to the first failure; on success the final `nLen` is 0 exactly if the buffer ends between frames, and negative exactly if it stops inside one |
| Server.MqttServer.ReadRequest | TCPSslRequestStream.cpp:53-114 | one read of at most 2047 bytes; a chunk that fills the buffer is reported as too big |
| Server.MqttServer.CleanupRequest | MqttServer.cpp:476-483 | drains the input that is there now, which `ServeRuns.DrainStops` delimits |
| Server.MqttServer.ServeChunk | MqttServer.cpp:33-86 | one pass through the read branch leads on to the same final state |
| Server.MqttServer.AnswerRequest | MqttServer.cpp:54-86 | a request that was read is handled; after a failure, or once a send found the connection gone, what is left leads on to the same final state |
| Server.MqttServer.DropQueuedMessage | MqttServer.cpp:87-108 | the write event drops the head of the queue, and only that, and signals again if more is queued |
| Server.MqttServer.Run | MqttServer.cpp:16-132 | `Run` always returns, and its whole effect is that of serving the input in order, sends that find the connection gone included; a timeout or kill changes nothing |
| SessionRuns.ReceiveKeepsStatusInv | MqttServer.cpp:147-152 | status and name are what the history of handled frames says, and the status never goes back |
| SessionRuns.SucceedsIff | MqttServer.cpp:180-191 | which frames let the buffer go on |
| SessionRuns.ReturnCodeMeaning | MqttServer.cpp:223-305 | what each return value of the handlers says about the frame, by its type number and the layout of its payload |
| SessionRuns.MalformedIsRefused | MqttServer.cpp:165-169 | four length bytes that all ask for more end the buffer with code 2, and nothing is handled |
| SessionRuns.ReceiveKeepsTimerInv | MqttServer.cpp:270-270 | the timer is twice the accepted keep-alive time, or runs out at once after a refused CONNECT or a DISCONNECT |
| SessionRuns.HandleKeepsNames | MqttServer.cpp:290-318 | a session gives up its name only with its entry, and takes an entry only as a new session under a doubled 16-byte name |
| SessionRuns.ReceiveKeepsReplyInv | MqttServer.cpp:366-388 | responses are exactly those the handled frames call for, in order, each taken by the socket or queued |
| SessionRuns.ConnectIsAnswered | MqttServer.cpp:366-388 | a CONNECT that meets a new session is answered by exactly one message, which reads as a CONNACK with the code for its payload, sent or queued |
| SessionRuns.DropKeepsInvariants | MqttServer.cpp:92-104 | the write event keeps the account of queued and dropped responses |
| SessionRuns.ResponseAccounting | MqttServer.cpp:210-388 | the messages produced answer the handled frames one by one, in order: D0 00 a PINGREQ, a CONNACK with the code for its payload a CONNECT that met a new session; one positive CONNACK exactly if the session left `New` |
| SessionRuns.DispatchIsPrefix | MqttServer.cpp:56-62 | what reaches the handlers is a prefix of the parser's frames, and all of them if the buffer succeeds |
| SessionRuns.CutAtFirstFailure | MqttServer.cpp:59-62 | the prefix is cut at the first failure and nowhere else |
| SessionRuns.EncodedFramesAreHandled | MqttServer.cpp:56-62 | a buffer of encoded frames that the handlers accept is handled to its last byte: exactly these frames, in order, and nothing left |
| SessionRuns.PlayJoin | MqttServer.cpp:56-62 | two buffers handled in turn have the effect of their joined frames, up to the first failure |
| SessionRuns.PublishRoundTripIff | MqttServer.cpp:420-426 | the framing takes a pushed PUBLISH up to its last byte, and no further, if and only if the body has at most 125 bytes |
| SessionRuns.PublishPayload | MqttServer.cpp:422-425 | the message id and the body come back |
| SessionRuns.PublishCommandIff | MqttServer.cpp:420-420 | type, dup and qos all come back from the command byte exactly for qos 0 to 3 |
| SessionRuns.PublishCommandValue | MqttServer.cpp:420-420 | the value of the command byte for qos 0 to 3; RETAIN is never set |
| SessionRuns.PublishMeaning | MqttServer.cpp:418-429 | where each field of a pushed PUBLISH stands, and what the peer reads back |
| SessionRuns.ConnackCodeMeaning | MqttServer.cpp:223-305 | what each CONNACK code says about the layout of the payload |
| ServeRuns.FailureDropsInput | MqttServer.cpp:81-84 | after a chunk that fails, the input that is there already has no effect |
| ServeRuns.DrainStops | MqttServer.cpp:476-483 | the drain takes what is there now and the read that gets nothing, and no more |
| ServeRuns.FailureKeepsLaterInput | MqttServer.cpp:81-84 | after a chunk that fails on a live connection, serving goes on with the first input behind the read that got nothing; that input is not lost |
| ServeRuns.DroppedEndsServing | MqttServer.cpp:28-28 | a send that found the connection gone ends the serving, and what lies behind stays unread |
| ServeRuns.FullBufferIsLost | TCPSslRequestStream.cpp:74-78 | of a chunk that fills the buffer exactly the first 2047 bytes are lost |
| ServeRuns.SuccessKeepsConnection | MqttServer.cpp:366-388 | a buffer that is handled without failure has met no send that found the connection gone |
| ServeRuns.ServeIsStream | MqttServer.cpp:28-86 | if no read stops inside a frame, serving the reads one by one equals playing the concatenated stream; a success leaves all input behind the first empty read for the next wake-up, a failure goes on with it |
| ServeRuns.ServeGrowsBySmall | TCPSslRequestStream.cpp:53-114 | whatever the connection brings, no frame whose encoding exceeds 2046 bytes reaches a handler |
| ServeRuns.ReachHandlersIff | TCPSslRequestStream.cpp:53-114 | frames that the handlers accept reach them whole under some division of their stream into reads if and only if each has at most 2046 bytes |
| ServeRuns.ServeKeepsInvariants | MqttServer.cpp:28-86 | one wake-up keeps the session invariants, whatever the input |
| World.StepKeepsInv | MqttServer.cpp:194-320 | every step of every session keeps the registry and session invariants |
| World.EveryRunKeepsInv | MqttServer.cpp:210-320 | so does every interleaving of any number of sessions |
| World.BufferIsRun | MqttServer.cpp:56-62 | handling one buffer is a run of frame steps of one session |
| World.EntryMeaning | MqttSessionHandler.cpp:32-46 | in every reachable world an entry is a connected session with one accepted CONNECT, both halves of its key are the user name in that CONNECT, and no session has two entries |
| World.EveryRunStatus | MqttServer.cpp:147-152 | in every run the status is what the frames say, and exactly one CONNECT takes a session out of `New` |
| World.EveryRunAccounts | MqttServer.cpp:322-388 | in every run every session has answered its log message by message, and its queue is what the socket did not take, less one message for each write event that met one |
| World.EntersIff | MqttServer.cpp:290-305 | a session gets an entry exactly by a CONNECT that is accepted under a free name |
| World.LeavesIff | MqttServer.cpp:469-474 | exactly which frames take an entry away; otherwise its owner stays |
| World.OwnerStaysIff | MqttSessionHandler.cpp:32-58 | over every run an owner stays registered throughout exactly when no frame takes its entry away |
| World.NeverRegains | MqttSessionHandler.cpp:32-58 | a session that left `New` and has no entry has none at any later moment of any run |
| World.RegisteredIff | MqttServer.cpp:290-320 | after every run, a session that left `New` has exactly one accepted CONNECT behind it, its name is the user name in that CONNECT twice, and it has its entry if and only if that name was free then and no later event evicts it |
| World.SameKeySameUser | MqttServer.cpp:290-304 | sessions accepted under the same name gave the same user name |
| World.PushReachesOwner | MqttSessionHandler.cpp:60-74 | a push that looks its token up makes exactly the connected session that owns the token produce one message, the PUBLISH of this body, taken by the socket or queued; no other session changes |
| World.ConnectedButUnregistered | MqttServer.cpp:215-221 | a run after which a connected session has no entry, because of its own second CONNECT |
| World.TakenNameIsAccepted | MqttServer.cpp:303-305 | a run in which a CONNECT under a taken name is answered with code 0 and gets no entry |
| World.RefusedConnectEvicts | MqttServer.cpp:289-296 | a run in which the refused CONNECT of a new session takes away the entry of a connected one |
| SslClient.SslTcpClientSocket.constructor | TcpSslClientSocket.cpp:33-42 | a new socket has an empty send buffer |
| SslClient.SslTcpClientSocket.Connect | TcpSslClientSocket.cpp:92-94 | a new connection leaves the send buffer as it is |
| SslClient.SslTcpClientSocket.LoseConnection | TcpSslClientSocket.cpp:100-101 | a lost connection leaves the send buffer as it is |
| SslClient.SslTcpClientSocket.SendSendBuffer | TcpSslClientSocket.cpp:96-101 | the assumed contract of the base class: without a connection nothing, otherwise a part of the rest is written, and on success all of it; a failure may end the connection |
| SslClient.SslTcpClientSocket.SendV | TcpSslClientSocket.cpp:80-103 | the pieces are copied in only if the buffer is empty, then it is written |
| SslClient.ClientPool.RequestConnect | SslTcpClient.cpp:158-159 | the client is in the pool's queue once, and the pool is signalled |
| SslClient.ClientPool.Run | ApsApnsClientPool.h:30-32 | a turn of the task (ApsApnsClientPool.cpp:181-236) for one client: exactly which combination of events, place in the queue, status and connect result reconnects it, drops its request or keeps it |
| SslClient.SslTcpClient.constructor | SslTcpClient.cpp:5-22 | a client starts with an empty queue and a fresh socket |
| SslClient.SslTcpClient.Online | SslTcpClient.cpp:62-67 | online, with the keep-alive timer |
| SslClient.SslTcpClient.Offline | SslTcpClient.cpp:69-79 | offline without a timer; the queue stays |
| SslClient.SslTcpClient.OnNetConnecting | SslTcpClient.cpp:99-107 | connecting, with the reconnect timer, unless it is already |
| SslClient.SslTcpClient.OnNetConnectted | SslTcpClient.cpp:114-117 | the keep-alive timer |
| SslClient.SslTcpClient.OnTimeout | SslTcpClient.cpp:81-92 | a new socket with an empty buffer, offline with the keep-alive timer; the queue stays |
| SslClient.SslTcpClient.OnSendMessage | SslTcpClient.cpp:126-139 | a copy of the bytes, however many, is queued and the send event asked for |
| SslClient.SslTcpClient.OnTrySendMsg | SslTcpClient.cpp:141-165 | the head goes out and leaves the queue, or stays with a reconnect request; the bytes are added to the connection that is open |
| SslClient.SslTcpClient.SendData | SslTcpClient.cpp:146-151 | the message goes to the socket whole, and the bytes that went out are those of the last connection |
| SslClient.ApsApnsAdvanceClient.OnTimeout | ApsApnsAdvanceClient.cpp:56-64 | the timeout of the client, and then a reconnect request |
| SslClient.ApsApnsAdvanceClient.OnPublish | ApsApnsAdvanceClient.cpp:15-21 | exactly the encoded request is queued |
| SenderRuns.StepKeepsInv | SslTcpClient.cpp:81-165 | every step keeps buffer, stream, socket and connection invariants |
| SenderRuns.SocketConservation | SslTcpClient.cpp:126-165 | for one socket, bytes taken, rest of the send buffer and messages not yet copied are the messages since it was made |
| SenderRuns.TimeoutRestartsHead | SslTcpClient.cpp:81-92 | a timeout loses no message, and over every run that follows it the next connection starts with the first byte of the head |
| SenderRuns.EveryRunConserves | SslTcpClient.cpp:126-165 | over every run, messages completed and messages pending are the messages queued, in order |
| SenderRuns.EverySocketInOrder | SslTcpClient.cpp:81-165 | every socket of a run took whole messages in order up to its successor's start, and at most a part of the next |
| SenderRuns.EveryConnectionInOrder | TcpSslClientSocket.cpp:80-103 | over every run, what a connection skips and what it carries are the messages from the first not completed when it was opened up to the first not completed when its successor was, and at most a part of that one |
| SenderRuns.ClientStepKeepsAwake | SslTcpClient.cpp:126-165 | no step of the client loses the wake-up |
| SenderRuns.PoolKeepsAwakeIff | ApsApnsClientPool.h:30-32 | exactly when a turn of the pool's task (ApsApnsClientPool.cpp:181-236) keeps the wake-up of a client |
| SenderRuns.AwakeThroughoutIff | SslTcpClient.cpp:126-165 | a pending message has an event coming at every moment of a run exactly when no turn of the pool loses it |
| SenderRuns.StrandedIff | SslTcpClient.cpp:69-79 | a client without a wake-up keeps its queue and stays without one, over every run in which nothing is published and the network is silent, if and only if its timer is off or it is not an advance client; a publish always wakes it |
| SenderRuns.LostWakeup | SslTcpClient.cpp:156-162 | a failed send on a client that counts as online, and the pool's next turn (ApsApnsClientPool.cpp:230-234): a run after which a message is pending and only a timeout will look; and its continuation by a disconnect, after which none will |
| SenderRuns.TimeoutRecovers | ApsApnsAdvanceClient.cpp:56-64 | a timeout of the advance client brings the wake-up back |
| SenderRuns.EveryRunKeepsTimer | SslTcpClient.cpp:62-117 | in every run a client that is not offline has its timer running |
| ClientState.NotifiedIff | SslTcpClient.cpp:126-165 | over every run, a send event is due exactly if a publish, a success with more to send or a connect has asked for one since the last |
| ClientState.QueuedIff | SslTcpClient.cpp:156-162 | over every run, a client stands in the pool's queue exactly if it asked for a connection and the pool (ApsApnsClientPool.cpp:208-234) has not connected it or found it online since; a failed connect leaves it there |
| ClientState.SignalledIff | SslTcpClient.cpp:158-159 | over every run, the pool's event is set exactly if a connection was asked for since the last turn of the pool |
| ClientState.ConnectedIff | TcpSslClientSocket.cpp:92-101 | over every run, the socket has a connection exactly if one was made and nothing has ended it since |
| ClientState.StatusIff | SslTcpClient.cpp:62-107 | over every run, the status is what the last connect, connect start, timeout or disconnect has set |
| ClientState.TimerIff | SslTcpClient.cpp:62-117 | over every run, the timer is off exactly after a disconnect that no timeout, connect or connect start has followed, and otherwise runs for what the last of them set |
| ClientState.StrandedRunIff | SslTcpClient.cpp:69-79 | exactly which runs leave an advance client with a pending message and nothing coming |
| ClientState.NeverStranded | ApsApnsAdvanceClient.cpp:56-64 | no run without a disconnect does, whatever sends and connects fail |
| ApnsRequest.ParseEncoded | ApsApnsPrimeryRequestMessage.h:28-37 | in the layout of `GetRequestMessage` (ApsApnsPrimeryRequestMessage.cpp:115-165), a request at the front of a stream is taken whole and unchanged |
| ApnsRequest.EncodeLayout | ApsApnsPrimeryRequestMessage.h:28-37 | where each field of a request stands, numbers in network order |
| ApnsRequest.ParseStream | ApsApnsPrimeryRequestMessage.h:28-37 | in that layout, a stream of requests, cut anywhere, parses to exactly the requests in front of the cut |
| ApnsRequest.ParseFits | ApsApnsPrimeryRequestMessage.h:28-37 | a request read off a stream has taken exactly the bytes of its encoding, so no request comes out of fewer bytes than it has |
| ApnsDelivery.EveryConnectionDelivers | SslTcpClient.cpp:141-165 | over every run, each connection that was opened with nothing of the head written hands its peer whole requests in order, from the first not completed when it was opened up to the first not completed when its successor was, and perhaps that one; the others begin behind the bytes they skip |
| ApnsDelivery.ConnectDeliversIff | TcpSslClientSocket.cpp:82-96 | from any state that keeps the invariants, a new connection delivers whole requests from the first pending one in every future if and only if no byte of the head counts as written |
| ApnsDelivery.MidMessageConnection | TcpSslClientSocket.cpp:82-96 | for every request, a run that completes it while its peer never gets it whole: its first byte goes to one connection, the rest to the next |

## Left out

- SslClient.SslTcpClientSocket.SendSendBuffer: `ClientSocket` is not part of this model, so its flush is stated
  by contract; `SslTcpSocket::Send` reports success on a blocked write (SslTcpSocket.cpp:236-240), and bytes it
  reports as sent count as taken here.
- SslClient.SslTcpClient.SendData: `TcpClient` is not part of this model and is taken to forward one whole
  message.
- SslClient.SslTcpClientSocket.Connect: the steps of the SSL connect (SslTcpSocket.cpp:102-220) are one outcome;
  closing the descriptor of a lost connection (TcpSslClientSocket.cpp:100-101) is left out.
- Server.MqttServer.ReadRequest: `TCPRequestStream` is not part of this model; the bounds are those of its SSL
  counterpart (TCPSslRequestStream.cpp:53-114).
- Server.MqttServer.Run: `fOutputStream.Flush` is left out, since nothing writes to that stream; so are the
  read and write interests that are registered with the event thread.
- Server.MqttServer.HandlePingreq: the one-second sleep is left out.
- SslClient.ClientPool.Run: one turn of the pool for one client, given the outcome of its connect; the loop over
  several clients and the pool's timeout are left out.
- ApnsDelivery.EveryConnectionDelivers: bytes count as delivered when the socket reports them as sent; what the
  network loses behind that is left out.
- The end of session objects: the timeout and kill exit of `MqttServer::Run` does not unregister the session, so
  "every registered session is alive" is not a property of this code and is not claimed.
- Thread-level races on the registry: a handler call is one step.
- JSON parsing: a function from texts to optional user names, the same text always giving the same result.
- Request messages with a command other than 0 or 1, for which `GetRequestMessage` lays out nothing.
- `SetMid`, `GetMid`, `SetRemainingLength` and the header fields of `MqttPacket` that nothing reads.
- `mqtt_handle_puback` and `mqtt_send_pingresp`, which nothing calls.
- The response decoders, `ProviderPacket`, the gateways to MongoDB and Redis, configuration, logging, the daemon
  and the listeners.
