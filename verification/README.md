# Asynchronous byte streams over Boost.Asio, verified

A Dafny model of the asynchronous I/O engine in `IoServices/`, of the applications that read from it
and of the unix client built on it.  Boost.Asio is the environment: it completes a read with 1 to `len`
bytes, puts any part of a write on the wire before completing it, and dispatches completions in any
order and on any thread.

## How it is built

Each component is a machine over values: a state, the events that can happen in it, and what each event
does.  An event carries every choice of the environment: byte counts, the bytes themselves, the content
and size of a fresh allocation, which completion is dispatched.  `Runs.dfy` defines finite runs once and
proves the one induction all machines use, so a main result speaks about every run.

Code that changes objects is a class whose methods are proved to be steps of those machines.

| file | content |
|---|---|
| `IoBufferWrapper.dfy`, `NulFraming.dfy` | the payload of a write, and what its terminator is good for |
| `RawVector.dfy` | the vector with the allocator that does not initialise on resize |
| `ReceiveProtocol.dfy`, `IoCircularBuffer.dfy` | the receive buffer: machine and object over raw memory |
| `WriteProtocol.dfy`, `CallbackProtocol.dfy`, `TcpPeerConnection.dfy` | a connection's write queue and notifications: machines and object |
| `EndToEnd.dfy` | sender, wire and receiver together |
| `RecordDelivery.dfy`, `BroadcastDelivery.dfy` | the same with the application that takes records, and with the server that broadcasts |
| `PeerCleanup.dfy` | a server's peer list with one connection's write queue and read chain |
| `StreamConnection.dfy`, `RecordReader.dfy`, `AllocationBound.dfy` | extraction, the 25-byte record reader, the memory taken under a consumption policy |
| `BroadcastProtocol.dfy`, `TcpServer.dfy` | the server's peer list: machine and object |
| `UdpProtocol.dfy`, `UdpListener.dfy` | the UDP receive modes: machine and object |
| `TimerProtocol.dfy`, `WorkerProtocol.dfy`, `IoServicesImpl.dfy` | periodic timers and the worker counter: machines and object |
| `ClientProtocol.dfy`, `ClientUnixConnection.dfy` | the unix client's handshake: machine and object |

## Where the code promises less than it seems to

Each of these is proved as an exact condition, or with a run that shows it.

- An empty string sent NUL-terminated emits nothing, because both `AsyncWrite` overloads move their
  argument (`ConstructorsAgree`, `TextsRecovered`).
- A throwing notification callback stops the chain for good: `BeginReadSome` then does nothing
  (`StalledForever`).  After a failed read it does restart (`FailureCanRestart`); the exact condition is
  `ReadsAgainExactly`.
- The chained read starts before the connect callback runs, so with pool threads data, or an error, can
  be announced first, on the client's side and the server's (`ProtocolExactly`, `ProtocolAlwaysExactly`,
  `AcceptedAlwaysExactly`, `WorkerCanOvertake`).
- One record per notification is enough exactly for reads of at most a record (`CompleteExactly`), and
  memory is bounded exactly under the same condition (`BoundedExactly`).
- A connection whose error is handled before it is listed can get onto the server's list afterwards, and
  stays there until the next handled error (`ListedAfterErrorExactly`).  That takes a pool thread: on a
  lone service thread `OnAccept` lists the connection before any error can be handled.
- A receive issued before a UDP connect can overwrite the connected end point once
  (`OverwritesAfterConnect`, `EndPointChangesExactly`, `ConnectCanBeOverwritten`).
- `CancelPeriodicTimer` has no lasting effect when an expired wait is queued or the handler is running,
  so a handler cannot cancel its own timer (`CancelExactly`).  The comment at
  `IoServices/IoServices.cpp:372-373` concedes one late call; the chain in fact goes on (`ChainGoesOn`).
- Setting a timer does not retire its old handler when a completion of the old one is queued or running:
  the old one sets itself again and aborts the new wait (`SetExactly`).
- `RunWork` is said to make as many workers as needed (`IoServices/IoServicesImpl.cpp:305`).  It adds one
  worker at most, and only at a counter of exactly 0: it counts neither the jobs still queued nor the
  threads busy with completions (`EnoughThreadsExactly`, `TwoJobsPosted`), and at -1 it adds none
  (`NeglectsExactly`, `MinusOneIsReached`).
- An error that reaches the unix client before `Work` has stored the connection, or after its wait for
  the error timed out, is never reported (`ReportableExactly`), and a connection that arrives after the
  timeout is never taken over, so `Work` never closes it (`TakenOverExactly`); the socket is closed only
  when its last handle is released (`IoServices/UnixStreamConnection.cpp:28-35`).
- Calling `Start` again while `Work` runs undoes a stop (`StopEndsWork`), expires the client although the
  first `Work` still holds its connection (`ExpiredExactly`), and hides every error from `Stop`
  (`ReportableExactly`).
- The read callback is to clean up after an incomplete write (`IoServices/TcpPeerConnection.cpp:157-158`).
  It does exactly while the read chain is active: after a callback that threw, the closed connection
  stays listed until another connection's error is handled (`CleanedUpExactly`, `IdlePeerLeavesExactly`).

## Model

| member | source | states |
|---|---|---|
| IoBufferWrapper.Wrapper.ToBoost | IoServices/IoBufferWrapper.cpp:47-68 | the bytes handed to the socket are always exactly as many as the size a completed write is compared with |
| IoBufferWrapper.ConstructorsAgree | IoServices/IoBufferWrapper.cpp:13-32 | copying and moving a string into the wrapper emit the same bytes exactly when it is not an empty string to be NUL-terminated; that one loses its NUL when moved |
| NulFraming.FramesMonotone | IoServices/IoBufferWrapper.cpp:47-57 | receiving more bytes never changes the NUL-terminated frames already cut out, it only appends some |
| NulFraming.FramesOfStream | IoServices/IoBufferWrapper.cpp:22-57 | cutting the concatenated encodings at NULs gives back the sent texts in order, minus the empty ones |
| NulFraming.TextsRecovered | IoServices/IoBufferWrapper.cpp:22-57 | NUL-terminated texts are recovered exactly when none of them is empty |
| RawVector.Vector.Construct | IoServices/IoCircularBuffer.h:46-57 | a moving construct writes its slot, a construct without argument leaves the memory as it is |
| RawVector.Vector.Reserve | IoServices/IoCircularBuffer.h:46-52 | growing moves every live byte to the new allocation and leaves the size alone |
| RawVector.Vector.Resize | IoServices/IoCircularBuffer.h:54-57 | growing inside the capacity makes the raw bytes lying there live, unchanged |
| RawVector.Vector.EraseFront | IoServices/IoCircularBuffer.cpp:159 | erasing the front shifts the rest down inside the same allocation, in order, and leaves the bytes past it alone |
| ReceiveProtocol.StepKeepsInv | IoServices/IoCircularBuffer.cpp:71-164 | every call and completion keeps: received = consumed + live; at most one read outstanding, into the spare area right behind the live bytes of the current allocation, below max_size, with no callback running; and the capacity never shrinks |
| ReceiveProtocol.Fifo | IoServices/IoCircularBuffer.cpp:86-164 | in every run the bytes consumed followed by the live bytes are the bytes the socket delivered, across reallocation, growth over raw memory and in-place shifting |
| ReceiveProtocol.StartExactly | IoServices/IoCircularBuffer.cpp:71-84 | starting a chain at once issues a read of a chunk exactly when it fits below max_size, and else stalls; a deferred start issues nothing, and the later BeginReadSome issues the read exactly when it fits |
| ReceiveProtocol.InstalledForGood | IoServices/IoCircularBuffer.cpp:71-84 | in every run chunk size and max_size stay what the first BeginChainedRead made them, and a second one changes nothing |
| ReceiveProtocol.ConsumedExactly | IoServices/IoCircularBuffer.cpp:136-164 | in every reachable state an event takes bytes exactly if it is a Consume from the callback for no more than is available, and then the front ones |
| ReceiveProtocol.CompletionFits | IoServices/IoCircularBuffer.cpp:109-119 | the assertion size + bytesRead <= capacity never fails, and the bytes written into spare memory are exactly those appended to the live ones |
| ReceiveProtocol.ConsumeTakesFront | IoServices/IoCircularBuffer.cpp:136-164 | consuming removes exactly the front bytes and keeps the capacity |
| ReceiveProtocol.OutstandingReadFreezes | IoServices/IoCircularBuffer.h:97-104 | while a read is outstanding nothing but its own completion changes size, allocation, flags or reads |
| ReceiveProtocol.ThrowStalls | IoServices/IoCircularBuffer.cpp:86-134 | a throwing callback, an empty completion, or a read past max_size, chained or asked for, leaves the buffer wanting to read with no read outstanding |
| ReceiveProtocol.StalledForever | IoServices/IoCircularBuffer.h:97-104 | in every continuation a stalled buffer stays exactly as it is; not even BeginReadSome restarts it |
| ReceiveProtocol.FailureCanRestart | IoServices/IoCircularBuffer.h:97-106 | after a failed read, unlike after a throw, BeginReadSome issues a new read |
| ReceiveProtocol.ChainStaysActive | IoServices/IoCircularBuffer.cpp:109-134 | a chain stops being outstanding-or-handled exactly on a throw, a failed or empty read, or an overflow of max_size |
| ReceiveProtocol.ReadsAgainExactly | IoServices/IoCircularBuffer.h:97-106 | in every reachable state with a callback installed: reading goes on or can be started again exactly when a read is outstanding or being handled, or reading is off and the next chunk fits below max_size |
| IoCircularBuffer.CircularBuffer.BeginChainedRead | IoServices/IoCircularBuffer.cpp:71-84 | installs the callback once: a second call throws and changes nothing; deferred, reading stays off for a later BeginReadSome; immediate, a read is outstanding, or the call throws and the buffer is stalled |
| IoCircularBuffer.CircularBuffer.BeginReadSome | IoServices/IoCircularBuffer.h:97-104 | issues a read unless reading is already on; after a deferred start or a failed read exactly when the chunk fits below max_size |
| IoCircularBuffer.CircularBuffer.ReadSome | IoServices/IoCircularBuffer.cpp:86-107 | makes room for a chunk, keeping the live bytes, and issues a read into the spare area of the resulting allocation |
| IoCircularBuffer.CircularBuffer.ReadSomeHandler | IoServices/IoCircularBuffer.cpp:109-127 | makes the bytes read live without touching memory and tells the callback the new size |
| IoCircularBuffer.CircularBuffer.ReadCompletes | IoServices/IoCircularBuffer.cpp:109-127 | a socket write through the read's own raw pointer followed by the handler is the machine's completion step; no outstanding pointer is stale |
| IoCircularBuffer.CircularBuffer.CallbackReturns | IoServices/IoCircularBuffer.cpp:128-133 | leaves the callback context and chains the next read |
| IoCircularBuffer.CircularBuffer.CallbackUnwinds | IoServices/IoCircularBuffer.cpp:21-36 | a throwing callback only resets the context flag |
| IoCircularBuffer.CircularBuffer.ReadFails | IoServices/TcpPeerConnection.cpp:28-33 | a failed completion ends the chain |
| IoCircularBuffer.CircularBuffer.Consume | IoServices/IoCircularBuffer.cpp:136-164 | removes the front bytes in place; throws outside the callback or for more than is available |
| IoCircularBuffer.CircularBuffer.CopyTo | IoServices/IoCircularBuffer.cpp:166-174 | appends exactly the first len live bytes to the destination; throws outside the callback |
| WriteProtocol.StepKeepsInv | IoServices/TcpPeerConnection.cpp:48-181 | every write, transfer, completion and close keeps: enqueued = completed + queue; at most one write outstanding, of the queue's front; the wire is the completed messages plus what was sent of the front; a waiting queue without a write means a closed socket and an incomplete front |
| WriteProtocol.QueueDiscipline | IoServices/TcpPeerConnection.cpp:48-82 | in every run at most one write is outstanding, it is the front, one is outstanding exactly when the queue is not empty (while open), no message is lost or reordered, and the backlog is enqueued minus completed |
| WriteProtocol.WireIsPrefix | IoServices/TcpPeerConnection.cpp:104-181 | the wire lies between the completed messages' bytes and the enqueued messages' bytes, and is all of the latter once the queue is empty |
| WriteProtocol.FreezeExactly | IoServices/TcpPeerConnection.cpp:154-166 | the queue freezes exactly on a completion whose message is not entirely on the wire |
| WriteProtocol.FrozenForever | IoServices/TcpPeerConnection.cpp:56-62 | after an incomplete write no continuation launches or writes anything: the wire ends strictly inside the front message for ever, while AsyncWrite keeps queueing |
| WriteProtocol.ClosedSocketIsSilent | IoServices/TcpPeerConnection.cpp:127-134 | after a close no continuation puts a byte on the wire |
| WriteProtocol.SilentExactly | IoServices/TcpPeerConnection.cpp:104-134 | in every reachable state: no continuation writes another byte exactly when the socket is closed |
| WriteProtocol.Drains | IoServices/TcpPeerConnection.cpp:168-180 | the queue never deadlocks: from every reachable state with an open socket, transfers and completions alone can bring every enqueued message, and nothing else, onto the wire |
| TcpPeerConnection.PeerConnection.AsyncWrite | IoServices/TcpPeerConnection.cpp:48-82 | queues the message, launches it if it is alone, and returns the messages enqueued minus those completed |
| TcpPeerConnection.PeerConnection.WriteCompletes | IoServices/TcpPeerConnection.cpp:147-181 | if the front message is entirely on the wire it becomes completed and the wire is exactly the completed messages; otherwise nothing becomes completed and no continuation writes another byte |
| TcpPeerConnection.PeerConnection.Close | IoServices/TcpPeerConnection.cpp:127-134 | no continuation puts another byte on the wire |
| TcpPeerConnection.PeerConnection.ConnectHandler | IoServices/TcpPeerConnection.cpp:136-145 | a failed connect is reported; a successful one starts the chained read, which may throw |
| TcpPeerConnection.PeerConnection.NotifyConnected | IoServices/IoServices.cpp:143-145 | telling the application that it is connected never breaks the notification protocol by itself |
| TcpPeerConnection.PeerConnection.ReadHandler | IoServices/TcpPeerConnection.cpp:24-42 | an error or an empty read ends the chain and is reported; anything else announces all bytes received and not consumed; the notice breaks the protocol exactly if the connect callback has not run yet |
| TcpPeerConnection.PeerConnection.CallbackReturns | IoServices/IoCircularBuffer.cpp:128-133 | after a data callback returned the next read is outstanding unless max_size leaves no room, which throws and stalls the chain; the protocol is kept |
| TcpPeerConnection.PeerConnection.CallbackUnwinds | IoServices/IoCircularBuffer.cpp:21-36 | a data callback that throws leaves the chain stalled; the protocol is kept |
| CallbackProtocol.StepKeepsInv | IoServices/TcpPeerConnection.cpp:24-42 | every step keeps the notifications in the protocol's language unless it dispatches a completion in front of the connect callback, and such a step breaks it |
| CallbackProtocol.AnnouncedInRun | IoServices/IoCircularBuffer.cpp:109-127 | in every run, wherever a read completes with data, the notice the application gets for it, for good, is the number of bytes received and not consumed by then |
| CallbackProtocol.ProtocolExactly | IoServices/IoServices.cpp:111-146 | in every run the notifications are one connect error alone, or connected, then data notifications that never nest, then at most one error with nothing after it, exactly when no completion was dispatched in front of the connect callback |
| CallbackProtocol.ProtocolAlwaysExactly | IoServices/IoServices.cpp:143-145 | every run follows the protocol exactly when there are no pool threads, or max_size leaves no room for one byte |
| CallbackProtocol.AcceptedAlwaysExactly | IoServices/TcpServer.cpp:108-125 | for a connection accepted by a server likewise: its data is never announced before the accept callback exactly when there are no pool threads, or no room for one byte |
| CallbackProtocol.WorkerCanOvertake | IoServices/IoServices.cpp:143-145 | with a pool thread a run exists in which data is announced before the connect callback |
| CallbackProtocol.ReadAlwaysOutstanding | IoServices/IoCircularBuffer.cpp:109-134 | in every run, once reading started, a read is outstanding or being handled unless a read failed, a callback threw or max_size was reached |
| EndToEnd.StreamDelivered | IoServices/TcpPeerConnection.cpp:48-181 | in every interleaving of writes, transfers, completions, reads of any size, consumes and failures, consumed plus live bytes at the receiver are a prefix of the sent messages' encodings in call order, and all of them once everything has arrived |
| EndToEnd.FramesDelivered | IoServices/TcpPeerConnection.cpp:48-64 | in every run of NUL-terminated messages the frames in the receiver's bytes are a prefix of the sent texts without the empty ones, and all of them at the end |
| EndToEnd.NothingBehindTruncation | IoServices/TcpPeerConnection.cpp:147-166 | after an incomplete write no continuation ever gives the receiver the truncated message's last byte or anything behind it |
| RecordDelivery.RecordsTaken | HelloAsio/main.cpp:49-70 | with sender, wire, buffer and record reader together and reads of at most a record: in every run the records the application has taken are a prefix of the sent stream cut into records; once everything has arrived they are all of them exactly if less than a record is live, and a whole one is live only while its callback is to run or after one threw |
| RecordDelivery.MessagesTaken | HelloAsio/main.cpp:49-70 | in every run of record-sized messages the records taken are the messages sent, in order and unaltered, and all of them once everything has arrived and a read is outstanding |
| RecordDelivery.DeliveryCompletes | HelloAsio/main.cpp:49-70 | nothing deadlocks: from every reachable state of a working connection some continuation without new messages brings every record sent to the application |
| BroadcastDelivery.HistoryReceived | IoServices/TcpServer.cpp:273-283 | a listed peer receives the encodings of everything enqueued for it, a prefix in every run and all of it once everything has arrived, and the broadcasts among that are exactly those since it was listed |
| BroadcastDelivery.BroadcastsReceived | IoServices/TcpServer.cpp:273-283 | a listed peer that was written only broadcasts receives the encodings of the broadcasts since it was listed, a prefix of them in every run and all of them once everything has arrived |
| BroadcastDelivery.PeersReceiveTheSame | IoServices/TcpServer.cpp:273-283 | of two such peers that have received everything, the earlier one received the broadcasts between the two listings and then byte for byte what the later one received |
| PeerCleanup.ReachableInv | IoServices/TcpServer.cpp:108-126 | in every run of server and connection together, the server's record of what was enqueued and of the socket is what the connection's write queue holds |
| PeerCleanup.CleanedUpExactly | IoServices/TcpPeerConnection.cpp:154-161 | in every reachable state of an accepted connection, after an incomplete write too: some continuation reports its error and takes it off the list exactly when a read is outstanding or being handled |
| PeerCleanup.IdlePeerLeavesExactly | IoServices/TcpServer.cpp:253-271 | a listed connection that is closed and does not read any more is still listed after a run exactly if no error of another connection was handled in it |
| StreamConnection.Connection.ConsumeInto | IoServices/StreamConnection.cpp:90-100 | copies the first len live bytes to the caller's memory and consumes them; throws when the connection is gone or outside the callback |
| StreamConnection.Connection.ConsumeTo | IoServices/StreamConnection.cpp:107-118 | appends the first len live bytes to the destination and consumes them; throws when the connection is gone or outside the callback |
| StreamConnection.ExtractionSplits | IoServices/StreamConnection.cpp:107-118 | a series of extractions appends the front bytes of the summed length and leaves exactly the rest |
| StreamConnection.ExtractionIsOneCall | IoServices/StreamConnection.cpp:107-118 | such a series has the result of a single call of the summed length |
| RecordReader.NotifyKeepsUp | HelloAsio/main.cpp:49-70 | one notification of at most a record's size keeps the reader equal to the stream cut into whole records |
| RecordReader.RecordsComplete | HelloAsio/main.cpp:49-70 | however the stream is split into reads of at most a record, the reader holds every whole record in order and only the remainder waits |
| RecordReader.RecordsDelivered | HelloAsio/main.cpp:49-70 | the count is total / A, the remainder total mod A, and record k is the k-th slice of the stream |
| RecordReader.SegmentationIrrelevant | HelloAsio/main.cpp:49-70 | two segmentations of one stream deliver the same records |
| RecordReader.CompleteExactly | HelloAsio/main.cpp:49-70 | reads of up to c bytes keep the reader complete exactly when c is at most the record size |
| RecordReader.ReadStream | HelloAsio/main.cpp:49-70 | takes the first 25 live bytes as one record if at least 25 are available, otherwise nothing |
| RecordReader.ServeChunk | IoServices/TcpServer.cpp:108-118 | one read, its notification and the next read advance the buffer object as one notification of the reader |
| RecordReader.Serve | HelloAsio/main.cpp:49-70 | serving any chunks of the server's size through the buffer object delivers every whole record of the stream |
| AllocationBound.CapacityBound | TestServices/main.cpp:84-100 | with exact allocation, in every run with amounts between the chunk size c and A, the capacity never exceeds A + c - 1, so the asserted bound A + c holds and the compare size is never passed |
| AllocationBound.AllocationCount | IoServices/IoCircularBuffer.cpp:87-97 | whatever the library allocates, an unbounded run performs at most A allocations |
| AllocationBound.FinishedConsumesNothing | TestServices/main.cpp:84-88 | once more than the compare size was available, no continuation consumes anything |
| AllocationBound.BoundedExactly | TestServices/main.cpp:131-133 | the capacity is bounded at all exactly when a read is never larger than the amount consumed, the guard the program puts in front of its assertion |
| BroadcastProtocol.StepKeepsInv | IoServices/TcpServer.cpp:108-126 | every accept, listing, broadcast, write, close and handled error keeps: no peer listed twice, every listed open peer still listed, and every listed peer enqueued exactly the broadcasts since it was listed |
| BroadcastProtocol.BroadcastsSinceJoining | IoServices/TcpServer.cpp:273-283 | in every run the broadcasts in a listed peer's history are the server's broadcasts since it was listed, in order |
| BroadcastProtocol.PeersAgree | IoServices/TcpServer.cpp:273-283 | of two listed peers the later one was enqueued a suffix of the earlier one's broadcasts |
| BroadcastProtocol.OpenPeersStay | IoServices/TcpServer.cpp:120-121 | in every run no open peer has been dropped and none is listed twice |
| BroadcastProtocol.ListedInOrder | IoServices/TcpServer.cpp:120-121 | in every run the peers are in the order in which they were put on the list, whatever was purged in between |
| BroadcastProtocol.StaysOpenExactly | IoServices/TcpServer.cpp:238-262 | in every state an open connection is closed by exactly its own close, its own handled error, or the closing of all while it is listed; an error handled without an error code leaves it open |
| BroadcastProtocol.PurgeLeavesOpen | IoServices/TcpServer.cpp:253-271 | a handled error leaves exactly the other open peers, in order |
| BroadcastProtocol.ErrorAfterCloseAllEmpties | IoServices/TcpServer.cpp:238-245 | closing all leaves the list alone, the next handled error empties it |
| BroadcastProtocol.ListedAfterErrorExactly | IoServices/TcpServer.cpp:108-121 | in every reachable state: a connection whose error is handled can still get onto the list exactly when it had not been put there before |
| TcpServer.Server.OnAccept | IoServices/TcpServer.cpp:120-121 | puts the connection at the end of the list |
| TcpServer.Server.SendMessageToAllPeers | IoServices/TcpServer.cpp:273-283 | enqueues the message once on every listed connection and on no other |
| TcpServer.Server.ErrorHandler | IoServices/TcpServer.cpp:253-271 | with an error: the connection is closed and off the list, with every other closed one; without an error code neither its socket nor the list changes |
| TcpServer.Server.WriteCompletes | IoServices/TcpPeerConnection.cpp:147-181 | a write completion of a known connection changes nothing for the server, unless it was incomplete: then it is a socket close |
| TcpServer.Server.RemoveClosed | IoServices/TcpServer.cpp:269 | the in-place compaction yields exactly the old list filtered to open sockets, in order |
| TcpServer.Server.CloseAllPeerConnections | IoServices/TcpServer.cpp:238-245 | closes every listed connection and keeps the list |
| UdpProtocol.OneReceive | IoServices/UdpListener.cpp:72-102 | for any mix of launches, connects and completions at most one receive is outstanding |
| UdpProtocol.SourceIsReported | IoServices/UdpListener.cpp:92-96 | in every run of a listener that never connects PeerEndPoint is the source of the last completed receive |
| UdpProtocol.DeferredStart | IoServices/UdpListener.cpp:163-167 | a deferred start issues no receive, and the launch that follows issues one, in the mode of the moment, exactly when it fits below max_size |
| UdpProtocol.ConnectedStep | IoServices/UdpListener.cpp:89-97 | once connected, each step either leaves the end point alone, is a new connect, or uses up the one unconnected receive left |
| UdpProtocol.OverwritesAfterConnect | IoServices/UdpListener.cpp:230-255 | after a successful connect at most one later completion overwrites PeerEndPoint, and none if no unconnected receive was outstanding |
| UdpProtocol.EndPointSettles | IoServices/UdpListener.cpp:230-255 | once connected with no unconnected receive outstanding, only another connect changes PeerEndPoint |
| UdpProtocol.EndPointIsLastDest | IoServices/UdpListener.cpp:242-249 | once connected with no unconnected receive outstanding, in every run PeerEndPoint is the destination of the last connect |
| UdpProtocol.ReceivedFromIsFinal | IoServices/UdpListener.cpp:87-97 | once connected with no unconnected receive outstanding, in every run the received-from mark stays what it is |
| UdpProtocol.EndPointChangesExactly | IoServices/UdpListener.cpp:87-97 | in every state after a connect: PeerEndPoint can still be overwritten, and changed without a new connect, exactly when a receive issued in the unconnected mode is outstanding |
| UdpProtocol.ConnectCanBeOverwritten | IoServices/UdpListener.cpp:244-249 | a run exists in which the destination stored by the connect handler is overwritten once |
| UdpListener.Listener.SetupChainedRead | IoServices/UdpListener.cpp:163-167 | a deferred setup issues no receive and leaves reading off for a later launch |
| UdpListener.Listener.LaunchRead | IoServices/UdpListener.cpp:220-228 | after a deferred start or a failure, issues a receive exactly when it fits below max_size; once connected it never adds one that could overwrite the end point |
| UdpListener.Listener.ConnectHandler | IoServices/UdpListener.cpp:242-253 | the listener is connected and PeerEndPoint is the destination; it stays that until the next connect exactly when no unconnected receive was outstanding |
| UdpListener.Listener.ReceiveHandler | IoServices/UdpListener.cpp:75-85 | an error or an empty datagram ends the chain, anything else is announced; only an unconnected receive writes the end point |
| TimerProtocol.OneWait | IoServices/IoServicesImpl.cpp:351-355 | in every run at most one wait is armed |
| TimerProtocol.EachWaitCompletesOnce | IoServices/IoServicesImpl.cpp:333-355 | in every run each wait armed is still to come or has completed once, as aborted or as expired, and each expired completion has called one handler, which is running or over |
| TimerProtocol.SilentWithoutChain | IoServices/IoServicesImpl.cpp:338-342 | aborted completions never call the handler: with nothing else on its way no handler is called until the next set |
| TimerProtocol.SilencedExactly | IoServices/IoServicesImpl.cpp:333-348 | no handler is called in any continuation without a set exactly when no wait is armed or expired and no handler is running |
| TimerProtocol.ThrowExactly | IoServices/IoServicesImpl.cpp:344-348 | a handler that throws is never called again before the next set exactly when nothing else was on its way |
| TimerProtocol.ChainGoesOn | IoServices/IoServicesImpl.cpp:344-348 | an armed or expired wait or a running handler can lead to any number of further calls without a set |
| TimerProtocol.CancelExactly | IoServices/IoServicesImpl.cpp:358-364 | a cancel silences the timer exactly when no expired completion is queued and no handler is running at that moment |
| TimerProtocol.SetExactly | IoServices/IoServicesImpl.cpp:333-355 | after a set only the new handler is called until the next set exactly when every expired completion still queued and every handler still running is that same handler |
| TimerProtocol.SetArms | IoServices/IoServicesImpl.cpp:351-355 | after a set, whatever was under way, the new handler can be the next one called |
| TimerProtocol.NextCallExactly | IoServices/IoServicesImpl.cpp:333-348 | without a set, a handler can be the next one called exactly when a wait of its is armed or expired, or it is running |
| IoServicesImpl.Services.InitialisePeriodicTimer | IoServices/IoServicesImpl.cpp:30-36 | a new timer calls nothing before it is set; every existing one is left as it is |
| IoServicesImpl.Services.SetPeriodicTimer | IoServices/IoServicesImpl.cpp:327-356 | the handler can be the next one called for the timer; from now on it is the only one, exactly when no completion or handler of another was under way; does nothing for an unknown timer |
| IoServicesImpl.Services.CancelPeriodicTimer | IoServices/IoServicesImpl.cpp:358-364 | the timer never calls a handler again before the next set, exactly when no expired completion was queued and no handler running; does nothing for an unknown timer |
| IoServicesImpl.Services.HandlerOver | IoServices/IoServicesImpl.cpp:344-348 | the timer is silenced exactly if the handler threw and nothing else was on its way |
| IoServicesImpl.Services.Serve | IoServices/IoServicesImpl.cpp:327-364 | over any sequence of calls and completions on any timers: each takes effect on its own timer, the handlers returned are exactly those called, and a timer that is silenced and not set again fires nothing, one that carries a single handler only that one |
| WorkerProtocol.CounterConserved | IoServices/IoServicesImpl.cpp:304-325 | in every interleaving the counter plus the increments still due is the workers minus the running jobs, even when jobs throw |
| WorkerProtocol.CounterFloor | IoServices/IoServicesImpl.cpp:366-371 | the counter is at least -1 minus the workers not yet counted, with equality exactly when every thread, the service thread included, is inside a job |
| WorkerProtocol.JobsConserved | IoServices/IoServicesImpl.cpp:66-80 | in every interleaving each job posted, the start notification included, is waiting, being picked up, running, or over |
| WorkerProtocol.EnoughThreadsExactly | IoServices/IoServicesImpl.cpp:304-308 | in every reachable state: RunWork leaves an idle thread for every waiting job exactly when the jobs ahead and the threads busy with completions are at most the counter, plus the workers being counted, plus one if it is 0 |
| WorkerProtocol.TwoJobsPosted | IoServices/IoServicesImpl.cpp:304-308 | a run reaches a counter of 1 at which RunWork would add no worker and leave fewer idle threads than waiting jobs |
| WorkerProtocol.NeglectsExactly | IoServices/IoServicesImpl.cpp:304-308 | in every reachable state: RunWork adds no worker and leaves fewer idle threads than waiting jobs exactly at a counter other than 0 which, with the workers not yet counted, is below the jobs queued or being picked up and the completions running |
| WorkerProtocol.MinusOneIsReached | IoServices/IoServicesImpl.cpp:66-80 | a run reaches -1 with one worker, where RunWork would add none: the start notification counts as a job too |
| IoServicesImpl.Services.Start | IoServices/IoServicesImpl.cpp:61-82 | the start notification is posted and a thread is idle for it |
| IoServicesImpl.Services.RunWork | IoServices/IoServicesImpl.cpp:304-325 | undisturbed, adds a worker at a counter of exactly 0 and posts the job; every waiting job then has an idle thread exactly under the condition of EnoughThreadsExactly |
| IoServicesImpl.Services.JobBegins | IoServices/IoServicesImpl.cpp:311-314 | the counter falls to its floor exactly when the last thread enters a job, and never below |
| IoServicesImpl.Services.JobEnds | IoServices/IoServicesImpl.cpp:316-321 | whether the job returned or threw, the counter leaves its floor; the exception is reported |
| ClientProtocol.PromisesOnce | UnixDomainClient/ClientUnixConnection.cpp:87-137 | in every run each promise is satisfied at most once |
| ClientProtocol.TrueMeansRecorded | UnixDomainClient/ClientUnixConnection.cpp:205-221 | in every run Work returns true only if an error for the very connection and path the client holds was recorded |
| ClientProtocol.ExpiredExactly | UnixDomainClient/ClientUnixConnection.cpp:57-65 | in every run the client has expired exactly when Work is over or Start was called again |
| ClientProtocol.StopEndsWork | UnixDomainClient/ClientUnixConnection.cpp:67-80 | after a stop of a started client, whatever the callbacks and further calls do: at most three of Work's own events are left; until it is over one of them is possible, except exactly when it waits for the condition variable without a flagged error after a later Start; and once it is over a connection it took over has been closed or its error flagged |
| ClientProtocol.ClosesExactly | UnixDomainClient/ClientUnixConnection.cpp:194-203 | in every reachable state with a connection held and not closed: Work can still close it exactly as long as it waits for the condition variable and no error is flagged |
| ClientProtocol.TakenOverExactly | UnixDomainClient/ClientUnixConnection.cpp:174-185 | in every reachable state: an arriving connection can still be taken over exactly when Work is not over |
| ClientProtocol.RecordedExactly | UnixDomainClient/ClientUnixConnection.cpp:107-130 | an error callback is recorded exactly when Work has taken the connection over and the callback still holds it |
| ClientProtocol.FalseIsFinal | UnixDomainClient/ClientUnixConnection.cpp:209-221 | a Work that ended with false never comes to report an error |
| ClientProtocol.LostErrorStaysLost | UnixDomainClient/ClientUnixConnection.cpp:113-116 | an error that was not recorded never makes Work return true |
| ClientProtocol.ReportableExactly | UnixDomainClient/ClientUnixConnection.cpp:107-130 | in every run, an arriving error can still be reported by Work exactly when Work has taken the connection over and is not over, and the callback still holds the connection; Stop can learn of it exactly when, besides, Start was called only once |
| ClientUnixConnection.ClientImpl.Start | UnixDomainClient/ClientUnixConnection.cpp:57-65 | starts Work; a further start expires the client, and in no continuation does Stop learn of an error |
| ClientUnixConnection.ClientImpl.Stop | UnixDomainClient/ClientUnixConnection.cpp:67-80 | with no callback in between Stop comes to an end, returns true only for the recorded error of the connection held and never after a second start, closes a connection that was taken over, and leaves one with a flagged error alone |
| ClientUnixConnection.ClientImpl.SetConnection | UnixDomainClient/ClientUnixConnection.cpp:87-105 | satisfies the connect promise unless connected or of another path; throws if it was satisfied |
| ClientUnixConnection.ClientImpl.SetError | UnixDomainClient/ClientUnixConnection.cpp:107-130 | satisfies the error promise only for the connection and path held; throws if it was satisfied |
| ClientUnixConnection.ClientImpl.ConnectCallback | UnixDomainClient/ClientUnixConnection.cpp:150-152 | the client's own connect callback never makes set_value throw |
| ClientUnixConnection.ClientImpl.ErrorCallback | UnixDomainClient/ClientUnixConnection.cpp:167-169 | the client's own error callback never makes set_value throw |
| ClientUnixConnection.ClientImpl.ConnectWaitEnds | UnixDomainClient/ClientUnixConnection.cpp:174-185 | takes over the very connection the connect callback delivered, and ends exactly if none was |
| ClientUnixConnection.ClientImpl.Wakes | UnixDomainClient/ClientUnixConnection.cpp:187-203 | past the condition variable the connection has been closed exactly if no error was flagged |
| ClientUnixConnection.ClientImpl.ErrorWaitEnds | UnixDomainClient/ClientUnixConnection.cpp:205-220 | returns true only with the recorded error of the connection held |

## Left out

- SSL contexts, certificates, handshakes and `EgSslServer`: calls into OpenSSL and Boost; an SSL connection uses the same write queue and receive buffer.
- `TcpDomainConnection`, `UnixServer`, `UnixStreamConnection`, `DgramListener`: copies of, or wrappers around, classes modelled here.
- Boost.Asio, sockets, name resolution, multicast and broadcast options: the environment.
- Logging, stream operators, program options, signal handling: I/O only.
- Lifetimes of shared and weak pointers: an object is taken to live as long as a completion is bound to it; an expired handle is a flag (`StreamConnection`) or an absent handle (`ClientProtocol`).
- The client connection and listener registries: their erase on error is replaced by `BeginChainedRead`, so no claim about them is made.
- The UDP write queue: `QueueOrWriteBuffer`, `LaunchWrite` and `WriteHandler` repeat the queue discipline of `WriteProtocol`; the choice between the two send calls and the reopening of a closed socket are not modelled.
- A failed UDP connect: it only calls the error callback.
- The callback is cut out of `ReadSomeHandler`: the handler's part before it and after it are two methods, and the callback is whatever happens between them.
- Two threads inside one buffer's callback context at once: the context flag is checked, but calls of one buffer are taken one at a time; `BeginReadSome` is one step.
- An application that overwrites live bytes through the pointer from `Get`.
- `chunkSize` as a signed int, and lengths as 32-bit ints: they are positive naturals here; the backlog is not truncated to an int.
- `ConsumeInto` with more than is available, `CopyTo` likewise: `memcpy` and `std::copy` would read past the live bytes; callers are required not to.
- Jobs throwing something else than `std::exception`: they end the worker thread, and the process.
- A notification callback or timer handler that throws on a pool thread: `WorkerThread` catches nothing (`IoServices/IoServicesImpl.cpp:378-382`), so the process ends; `CallbackThrows` and `HandlerThrows` describe a throw on the service thread.
- The accept callback, which `OnAccept` runs while it holds the peer list's lock.
- `RunWork` before `Start`, `Stop` and `RemoveWorker`: thread shutdown.
- `ClientUnixConnection.ClientImpl.Stop`: has no callback come in between; `ClientProtocol.StopEndsWork` covers every interleaving.  A second `Stop`, which finds no future to wait for, is not modelled.
- One-shot timers: a periodic timer without re-arming.
- `ClientUnixConnection.ClientImpl.Start`: a further call blocks its caller until the first `Work` is over, because it replaces that one's future; here it returns at once, which only adds runs.
- Accepting connections: the accept loop only calls `OnAccept` and starts the next accept.
