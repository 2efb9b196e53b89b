# olc::net networking core, modelled in Dafny

This project models the core of the `olc::net` networking layer, a small C++
client/server library built on asio. The asio calls themselves are left out.
The model has five parts.

- **Message envelope** (`net_message.dfy`, module `NetMessage`).
  - A `message<T>` is a header (a type code and a `uint32_t` size) and a byte body.
  - `operator<<` pushes the bytes of a fixed-width value at the tail of the body and sets `header.size` to `size()`.
  - `operator>>` takes the bytes of a value back off the tail.
  - The message is a value in the source, since it is copied into queues and handlers. So each operator is a specification function (`Append`, `Extract`) plus a method that performs the source's steps (`PushValue`, `PopValue`).
  - Proved: the round trip, chaining (`msg << x << y`) and the stack discipline over any number of values.
- **Thread-safe deque** (`net_tsqueue.dfy`, module `NetTsQueue`).
  - `tsqueue<T>` is a class over a sequence, with its sequential meaning: every operation runs under one lock.
  - FIFO order of `push_back`/`pop_front` is proved.
- **Connection** (`net_connection.dfy`, module `NetConnection`).
  - `connection<T>` is a state machine. Each asio completion handler runs on the single-threaded `io_context`, so it is one event method with an `ok` flag standing for the `error_code`.
  - Ghost logs record every header and body transfer.
  - The class invariant says two things:
    - the write chain sends every queued message exactly once, front first, header before body, with at most one write in flight;
    - the read chain delivers messages in arrival order, and never after a failed read.
  - The origin tag is stated in the `ensures` of `AddToIncomingMessageQueue`, `HeaderRead` and `BodyRead`. `Origin` gives the rule: the connection's identifier when the owner is the server, none otherwise.
- **Server** (`net_server.dfy`, module `NetServer`).
  - `server_interface<T>` keeps a roster of nullable entries `(id, connected)`, the 32-bit identifier counter `nIDCounter` (starting at 10000) and the shared inbound queue.
  - The hooks and the sends go into an output log. The veto hook's answer is an input of the accept handler.
  - Proved:
    - identifiers are distinct and increase along the roster until the counter wraps;
    - a broadcast sends exactly once to every live entry other than the ignored one, reports every dead entry once, and leaves exactly the live entries;
    - `Update(n)` dispatches `min(n, count)` messages in FIFO order, also across calls.
- **Framing on the wire** (`framing.dfy`, module `Framing`).
  - The stream is a sequence of bytes. A header goes out as the struct's 8 bytes: the type code, then the size field, each least significant byte first.
  - Shows what the read chain makes of the frames the write chain sends, as the code is written and as evidently intended.
  - The end-to-end round trip is proved for the corrected framing.

`common.dfy` (module `Common`) holds `Option` and the 32-bit unsigned integers, with an explicit wrap-around.

## Model

| member | source | states |
|---|---|---|
| Common.ToU32 | NetCommon/net_message.hpp:52 | assigning a size_t to a uint32_t keeps the value below 2^32 and congruent modulo 2^32, and keeps it unchanged when it fits |
| Common.IncU32 | NetCommon/net_server.hpp:75 | `nIDCounter++` adds one, and wraps to 0 after the largest uint32_t |
| NetMessage.Resize | NetCommon/net_message.hpp:46 | std::vector::resize gives the requested length, keeps the prefix when shrinking and the whole old body when growing |
| NetMessage.Size | NetCommon/net_message.hpp:21-23 | size() is at least the header width |
| NetMessage.SizeFollowsBody | NetCommon/net_message.hpp:21-23 | size() is the header width plus the body length: a push of w bytes raises it by w, a pop of w bytes lowers it by w, whatever the size field says |
| NetMessage.Append | NetCommon/net_message.hpp:36-56 | pushing w bytes grows the body by exactly w; the old bytes stay in front and the value sits at the tail; the type code is kept; header.size is size() (header width plus body length) modulo 2^32 |
| NetMessage.PushValue | NetCommon/net_message.hpp:43-55 | the steps of operator<< (note length, resize, copy into the tail, set the size field) produce exactly `Append` |
| NetMessage.Extract | NetCommon/net_message.hpp:59-78 | needs at least w body bytes; yields the last w bytes, truncates the body to the rest, and leaves the header, size field included, untouched |
| NetMessage.PopValue | NetCommon/net_message.hpp:64-76 | the steps of operator>> (locate the tail, copy out, resize twice) produce exactly `Extract` |
| NetMessage.RoundTrip | NetCommon/net_message.hpp:43-49 | popping a value of the width just pushed gives the value back and restores the body |
| NetMessage.AppendBody | NetCommon/net_message.hpp:43-49 | after a push the body is the old body followed by the value |
| NetMessage.AppendChain | NetCommon/net_message.hpp:55 | `msg << x << y` is the same message as pushing the bytes of x then y at once: chaining is sequential composition |
| NetMessage.AppendAll | NetCommon/net_message.hpp:55 | `msg << v1 << ... << vn` keeps the type code and grows the body by the bytes of all the values |
| NetMessage.ExtractAll | NetCommon/net_message.hpp:59-78 | `msg >> v1 >> ... >> vn` yields n values, keeps the header, and leaves the front of the body, shorter by the widths popped |
| NetMessage.AppendAllBody | NetCommon/net_message.hpp:43-55 | after pushing v1..vn the body is the old body followed by their bytes in push order, with the type code unchanged |
| NetMessage.PopWidthsTotal | NetCommon/net_message.hpp:64 | popping the pushed values in reverse order needs exactly as many bytes as they hold |
| NetMessage.ExtractAllPops | NetCommon/net_message.hpp:64-76 | popping from a body that ends in v1..vn yields vn..v1 and leaves the bytes in front of them |
| NetMessage.Lifo | NetCommon/net_message.hpp:43-49 | pushing v1..vn and popping n values of the matching widths yields vn..v1 and the original body |
| NetMessage.ExtractLeavesSizeStale | NetCommon/net_message.hpp:72-73 | as written, after a value is pushed and popped again the size field still counts it and disagrees with size() |
| NetMessage.ExtractLeavesSizeStaleExample | NetCommon/net_message.hpp:72-73 | one byte pushed onto an empty message and popped leaves size field 9 for a message of size 8 |
| NetMessage.AppendCorrected | NetCommon/net_message.hpp:52 | operator<< with the size field counting the body: same body and type code as `Append`, and the size field is the body length, so the message is framed while it fits in 32 bits |
| NetMessage.ExtractCorrected | NetCommon/net_message.hpp:72-73 | operator>> with the size recalculated: same value and body as `Extract`, same type code, and the size field is the new body length, as the corrected operator<< sets it, so a framed message stays framed |
| NetMessage.ExtractCorrectedRoundTrip | NetCommon/net_message.hpp:43-76 | with the corrected operators, popping what was pushed onto any framed message gives the value back and restores the whole message, size field included |
| NetTsQueue.TsQueue.constructor | NetCommon/net_tsqueue.hpp:12 | a new queue is empty |
| NetTsQueue.TsQueue.Front | NetCommon/net_tsqueue.hpp:20-23 | front() of a non-empty queue is its first item; the queue is not changed |
| NetTsQueue.TsQueue.Back | NetCommon/net_tsqueue.hpp:26-29 | back() of a non-empty queue is its last item; the queue is not changed |
| NetTsQueue.TsQueue.PopFront | NetCommon/net_tsqueue.hpp:32-37 | pop_front() of a non-empty queue returns the former first item and leaves the rest in order |
| NetTsQueue.TsQueue.PopBack | NetCommon/net_tsqueue.hpp:40-45 | pop_back() of a non-empty queue returns the former last item and leaves the rest in order |
| NetTsQueue.TsQueue.PushBack | NetCommon/net_tsqueue.hpp:48-54 | push_back puts the item last and keeps the others in order |
| NetTsQueue.TsQueue.PushFront | NetCommon/net_tsqueue.hpp:57-63 | push_front puts the item first and keeps the others in order |
| NetTsQueue.TsQueue.Empty | NetCommon/net_tsqueue.hpp:66-69 | empty() holds exactly when the queue holds no item |
| NetTsQueue.TsQueue.Count | NetCommon/net_tsqueue.hpp:72-75 | count() is the number of items, and is 0 exactly when the queue is empty |
| NetTsQueue.TsQueue.Clear | NetCommon/net_tsqueue.hpp:78-81 | clear() leaves the queue empty |
| NetTsQueue.FifoOrder | NetCommon/net_tsqueue.hpp:32-54 | items pushed with push_back and drained with pop_front until empty() come out in push order |
| NetConnection.OutFrame | NetCommon/net_connection.hpp:136-161 | WriteHeader transfers the header first; WriteBody follows with the whole body exactly when the body is not empty |
| NetConnection.InFrame | NetCommon/net_connection.hpp:100-123 | ReadHeader transfers a header first; ReadBody follows exactly when the header's size field is positive |
| NetConnection.InFrameMatchesOutFrame | NetCommon/net_connection.hpp:104-108 | for a message whose size field is positive exactly when its body is not empty, the reader consumes exactly the transfers the writer made |
| NetConnection.OutFramesSnoc | NetCommon/net_connection.hpp:136-174 | the transfers of one more written message follow those of the earlier ones |
| NetConnection.InFramesSnoc | NetCommon/net_connection.hpp:100-133 | the transfers of one more delivered message follow those of the earlier ones |
| NetConnection.SendKeepsWriteInv | NetCommon/net_connection.hpp:86-94 | the Send handler keeps the write-chain invariant: the message goes last, and a header write starts only if the queue was empty |
| NetConnection.HeaderDoneKeepsWriteInv | NetCommon/net_connection.hpp:139-150 | a completed header write keeps the invariant: a non-empty body follows; an empty-body message is popped and the next header write starts iff messages remain |
| NetConnection.BodyDoneKeepsWriteInv | NetCommon/net_connection.hpp:163-168 | a completed body write pops the front message and keeps the invariant, the next header write starting iff messages remain |
| NetConnection.FailureKeepsWriteInv | NetCommon/net_connection.hpp:152-155 | a failed header or body write stops the chain with the queue as it was |
| NetConnection.HeaderReadKeepsReadInv | NetCommon/net_connection.hpp:103-112 | a positive size leads to a body read into a buffer of exactly that size; a zero size completes the frame with the scratch body as it is |
| NetConnection.BodyReadCompletesFrame | NetCommon/net_connection.hpp:123-126 | a completed body read completes the frame of the scratch message |
| NetConnection.FailedReadCannotDeliver | NetCommon/net_connection.hpp:114-117 | after a failed header or body read the socket is closed and no read is in flight, so the scratch message is never delivered: no transfer log shows its frame completed |
| NetConnection.DeliverKeepsReadInv | NetCommon/net_connection.hpp:176-186 | delivering a fully read message restores the read invariant with the next header read in flight |
| NetConnection.Connection.Origin | NetCommon/net_connection.hpp:177-182 | a delivered message carries this connection's identifier exactly when the owner is the server, and no origin otherwise |
| NetConnection.Connection.constructor | NetCommon/net_connection.hpp:20-24 | a new connection has id 0, an empty queue and scratch message, no transfer in flight, and the owner and socket it was given |
| NetConnection.Connection.GetID | NetCommon/net_connection.hpp:30-33 | GetID() is the identifier |
| NetConnection.Connection.ConnectToClient | NetCommon/net_connection.hpp:37-48 | only a server-side connection with an open socket takes the identifier and starts reading; otherwise nothing changes |
| NetConnection.Connection.ConnectToServer | NetCommon/net_connection.hpp:51-55 | only a client-side connection issues the connect |
| NetConnection.Connection.ConnectHandler | NetCommon/net_connection.hpp:56-63 | a successful connect leaves the socket open and starts the read chain; a failed one starts no read and does not touch the socket itself, which stays as asio left it (the input `openAfter`) |
| NetConnection.Connection.IsConnected | NetCommon/net_connection.hpp:76-79 | IsConnected() is exactly "socket open" |
| NetConnection.Connection.Disconnect | NetCommon/net_connection.hpp:69-73 | a close is posted exactly when connected |
| NetConnection.Connection.CloseHandler | NetCommon/net_connection.hpp:71 | the posted close closes the socket |
| NetConnection.Connection.Send | NetCommon/net_connection.hpp:84-86 | Send posts a handler carrying a copy of the message |
| NetConnection.Connection.SendHandler | NetCommon/net_connection.hpp:86-94 | the posted handler puts the message last in the outbound queue; a header write starts iff the queue was empty before; the invariant (at most one write in flight; sent = written + queued) holds |
| NetConnection.Connection.HeaderWritten | NetCommon/net_connection.hpp:136-157 | on success the header is on the wire; a non-empty body is written next, an empty-body message is popped and the next header write starts iff the queue is non-empty; on failure the socket closes, the queue is unchanged, the chain stops |
| NetConnection.Connection.BodyWritten | NetCommon/net_connection.hpp:160-174 | on success the front message is popped after its body went out, and the next header write starts iff the queue is non-empty; on failure the socket closes, the queue is unchanged, the chain stops |
| NetConnection.Connection.AddToIncomingMessageQueue | NetCommon/net_connection.hpp:176-187 | the scratch message, tagged with its origin, goes last in the inbound queue and the next header read is issued |
| NetConnection.Connection.HeaderRead | NetCommon/net_connection.hpp:100-119 | a positive size resizes the scratch body to that size and reads the body; a zero size delivers at once with the old scratch body; a failure closes the socket and reads no more |
| NetConnection.Connection.BodyRead | NetCommon/net_connection.hpp:122-133 | the bytes read become the body and the message is delivered; a failure closes the socket and reads no more |
| NetServer.IsLive | NetCommon/net_server.hpp:97 | `client && client->IsConnected()` holds only for a non-null entry |
| NetServer.BroadcastEffects | NetCommon/net_server.hpp:115-128 | the log of the loop over the roster, one iteration per entry, never longer than the roster |
| NetServer.BroadcastEffectsShape | NetCommon/net_server.hpp:115-128 | the loop logs only sends and reports, and exactly one per entry when the ignored handle is not a live entry |
| NetServer.Dispatches | NetCommon/net_server.hpp:143-146 | one OnMessage call per popped message, with its remote and message, in queue order |
| NetServer.Drain | NetCommon/net_server.hpp:137-152 | Update(n) pops the first min(n, count) messages, hands each to OnMessage oldest first, and keeps the rest of the queue; it empties the queue exactly when n covers it |
| NetServer.ToSizeT | NetCommon/net_server.hpp:137 | the default argument -1 converts to SIZE_MAX; in-range values are unchanged |
| NetServer.Sift | NetCommon/net_server.hpp:104-105 | `erase(std::remove(...))`, here and at line 133, keeps the entries that pass in order and never lengthens the roster |
| NetServer.EntryEffects | NetCommon/net_server.hpp:115-128 | one iteration of the MessageAllClients loop logs at most one effect, and none exactly for a live entry equal to the ignored handle |
| NetServer.SiftSnoc | NetCommon/net_server.hpp:132-134 | std::remove and erase keep the order of the entries that pass |
| NetServer.SiftMembers | NetCommon/net_server.hpp:132-134 | an entry survives the erase exactly when it was in the roster and passes the test |
| NetServer.SiftAllPass | NetCommon/net_server.hpp:132-134 | erasing when every entry passes leaves the roster as it was |
| NetServer.IdsPrefix | NetCommon/net_server.hpp:73-75 | a prefix of a roster keeps its identifiers increasing and in range |
| NetServer.IdsSnoc | NetCommon/net_server.hpp:73-75 | appending an entry with a larger identifier in range keeps the identifiers increasing and in range |
| NetServer.SiftKeepsIds | NetCommon/net_server.hpp:103-105 | erasing entries keeps the identifiers increasing and in range |
| NetServer.SiftKeepsRosterInv | NetCommon/net_server.hpp:103-105 | erasing entries keeps the roster invariant |
| NetServer.AcceptKeepsRosterInv | NetCommon/net_server.hpp:73-75 | the approved connection takes the counter value, larger than every identifier in the roster, at the back |
| NetServer.DropKeepsRosterInv | NetCommon/net_connection.hpp:114-117 | a socket closing keeps the roster invariant |
| NetServer.IncreasingIdsDistinct | NetCommon/net_server.hpp:75 | identifiers handed out by the counter are distinct before it wraps |
| NetServer.DeadClientKept | NetCommon/net_server.hpp:99-106 | as written, MessageClient's erase leaves a roster without null entries as it was, so the reported client stays in it |
| NetServer.DeadClientKeptExample | NetCommon/net_server.hpp:103-105 | a roster holding one closed client keeps that client after the erase |
| NetServer.SentIdsAppend | NetCommon/net_server.hpp:115-121 | the sends of two stretches of the log are the sends of each, in order |
| NetServer.DisconnectedClientsAppend | NetCommon/net_server.hpp:122-127 | the reports of two stretches of the log are the reports of each, in order |
| NetServer.RecipientsMembers | NetCommon/net_server.hpp:115-121 | an identifier is a recipient exactly when a live entry other than the ignored one carries it |
| NetServer.RecipientsIncreasing | NetCommon/net_server.hpp:115-121 | the recipients follow the roster's increasing identifiers |
| NetServer.BroadcastSendsToRecipients | NetCommon/net_server.hpp:115-121 | a broadcast calls Send on exactly the live entries other than the ignored one, in roster order |
| NetServer.BroadcastReportsDead | NetCommon/net_server.hpp:122-127 | a broadcast calls OnClientDisconnect once for each null or disconnected entry, the ignored one included, in roster order |
| NetServer.IncreasingOccursOnce | NetCommon/net_server.hpp:115-121 | in a strictly increasing sequence every member occurs once |
| NetServer.ExactlyOnce | NetCommon/net_server.hpp:115-121 | each live entry other than the ignored one is sent the message exactly once; the ignored one never |
| NetServer.SweepKeepsLive | NetCommon/net_server.hpp:124-134 | erasing the nulls of the fully swept roster leaves exactly the live entries, in order |
| NetServer.SweepStep | NetCommon/net_server.hpp:115-128 | one iteration logs the entry's effects and nulls it iff it is not live |
| NetServer.SweepDone | NetCommon/net_server.hpp:131-134 | after the loop the conditional erase leaves exactly the live entries, and every entry's effects are logged |
| NetServer.DispatchesAppend | NetCommon/net_server.hpp:139-148 | the OnMessage calls for two stretches of the queue are those of each, in order |
| NetServer.DrainTwice | NetCommon/net_server.hpp:137-152 | Update(a) then Update(b) pops and dispatches what Update(a + b) does: dispatch is FIFO across calls |
| NetServer.SweepRoster | NetCommon/net_server.hpp:111-135 | the loop and the erase of MessageAllClients leave exactly the live entries, in order, and log one Send per live non-ignored entry and one report per other entry, in roster order |
| NetServer.ServerInterface.constructor | NetCommon/net_server.hpp:193 | the roster is empty and the counter is 10000 |
| NetServer.ServerInterface.WaitForClientConnection | NetCommon/net_server.hpp:56-58 | an accept is outstanding |
| NetServer.ServerInterface.AcceptHandler | NetCommon/net_server.hpp:59-92 | on an approved accept the connection goes last with the current counter as its identifier and the counter goes up by one modulo 2^32; a veto or an error leaves roster and counter unchanged; the accept is relaunched; the identifiers stay distinct and increasing |
| NetServer.ServerInterface.ConnectionDropped | NetCommon/net_connection.hpp:116 | a closed socket marks its roster entry disconnected and changes nothing else |
| NetServer.ServerInterface.MessageClient | NetCommon/net_server.hpp:96-108 | a live client gets exactly one Send and the roster is unchanged; otherwise OnClientDisconnect is called once and only null entries are erased |
| NetServer.ServerInterface.MessageClientCorrected | NetCommon/net_server.hpp:99-106 | a client that is not live is reported once and erased, and every other entry stays, in order |
| NetServer.ServerInterface.MessageAllClients | NetCommon/net_server.hpp:111-135 | the roster becomes exactly its live entries, in order, and the log gains the broadcast's sends and reports |
| NetServer.ServerInterface.Update | NetCommon/net_server.hpp:137-152 | min(n, count) messages are popped from the front and handed to OnMessage oldest first; the rest of the queue is kept |
| Framing.DecodeEncodeU32 | NetCommon/net_connection.hpp:101 | the four bytes of a uint32_t, least significant first, read back as that uint32_t |
| Framing.EncodeDecodeU32 | NetCommon/net_connection.hpp:101 | any four bytes read into a uint32_t and stored again are the same four bytes |
| Framing.DecodeHeader | NetCommon/net_connection.hpp:100-101 | the header that 8 bytes read into a message_header hold; writing that header out gives the same 8 bytes, so every 8 bytes are some header |
| Framing.EncodeHeader | NetCommon/net_connection.hpp:137 | a header goes out as exactly HeaderWidth bytes |
| Framing.DecodeEncodeHeader | NetCommon/net_connection.hpp:101 | reading the bytes of a header into a message_header gives that header back |
| Framing.Wire | NetCommon/net_connection.hpp:136-174 | WriteHeader then WriteBody put HeaderWidth + body length bytes on the stream: the header's bytes, then the body |
| Framing.ReadAsWritten | NetCommon/net_connection.hpp:100-133 | a frame is read exactly when the stream holds a header and as many bytes after it as the size field says; it delivers that header with those bytes as body (the old scratch body for size 0), and the rest of the stream follows |
| Framing.AppendedNeverDelivered | NetCommon/net_message.hpp:52 | a message built with `<<` is never delivered from its own frame: the reader waits for 8 more bytes than were sent, or takes the next frame's 8 header bytes as body bytes |
| Framing.AppendedSwallowsNextHeader | NetCommon/net_message.hpp:52 | a one-byte message followed by an empty one: the first is delivered with the second's header bytes appended to its body, and nothing is left for the second |
| Framing.FramedDeliveredIntact | NetCommon/net_connection.hpp:104-108 | as written, a frame whose size field is its positive body length is delivered intact, whatever follows |
| Framing.ReadersAgreeOnPositiveSize | NetCommon/net_connection.hpp:104-112 | the reader as written and the corrected reader differ only for a size of 0 |
| Framing.StaleBodyDelivered | NetCommon/net_connection.hpp:109-112 | a frame with size 0 is delivered with the body left in the scratch message |
| Framing.StaleBodyExample | NetCommon/net_connection.hpp:104-112 | a message with one pushed byte, then two empty messages: the first read swallows the first empty message's header, and the second empty message arrives carrying the pushed byte and those 8 header bytes |
| Framing.ReadCorrected | NetCommon/net_connection.hpp:100-133 | the corrected reader succeeds under the same condition as the reader as written, delivers the header it read with a body as long as its size field, and consumes input |
| Framing.ReadCorrectedWire | NetCommon/net_connection.hpp:100-133 | the corrected reader delivers every framed message from its frame, whatever follows |
| Framing.ReadAllWireAll | NetCommon/net_connection.hpp:100-187 | framed messages written one after the other are read back, all of them, in order |
| Framing.AppendCorrectedRoundTrip | NetCommon/net_message.hpp:36-56 | a value pushed with the corrected operator on an empty message is read back from its frame |

## Left out

- asio: sockets, the resolver, the acceptor, `io_context`, `async_read`, `async_write`, `async_connect` and `post` are foreign library calls. Their completions are event methods with an `ok` flag, and transfers are whole headers or bodies.
- Partial transfers: `async_read`/`async_write` either complete the whole buffer or fail. Bytes that a failed read stores before the failure are not modelled.
- Posted Send handlers run in posting order, as asio runs handlers on a single-threaded `io_context`. A posted close is only counted, so the model lets posted closes and posted sends run in any interleaving. That allows more schedules than asio does.
- Threads and blocking: `Start`/`Stop` of the server, `tsqueue::wait` and the mutex and condition variable of `tsqueue`.
- `net_client.hpp` is not part of this model. Its logic is a connect plus gating `Send` on `IsConnected`, and the connection model covers both.
- `shared_ptr`/`enable_shared_from_this` lifetimes: a connection is referred to by its identifier. In the server, a roster entry is the pair (identifier, connected). `pIgnoreClient` and the `std::remove` of MessageClient compare entries by value, standing in for `shared_ptr` equality.
- The native memory layout of pushed values, their endianness, floats and time points: a value is an opaque byte string. A byte (`uint8_t`) is an integer from 0 to 255.
- The header's bytes on the wire are laid out as on a little-endian machine with no padding: the type code, then the size field, four bytes each. A big-endian peer is not modelled.
- `HeaderWidth` is 8, as for a type code whose underlying type is `uint32_t`, like every enum the programs declare.
- `ostream` printing of messages and all console logging.
- The demo and entry-point programs (`SimpleServer.cpp`, `SimpleClient.cpp`, `ThreadedClient.cpp`, `async.cpp`, `example.cpp`).
- The server's hooks are not run. OnClientConnect's answer is a parameter of `AcceptHandler`. What the hooks do (such as the `Send` in `SimpleServer.cpp`'s OnClientConnect) is not logged.
- NetConnection.Connection.ConnectHandler: whether the socket is still open after a failed `async_connect` is up to asio, so it is the input `openAfter`. The handler itself does not close it.
- NetServer.ServerInterface.MessageClient, NetServer.ServerInterface.MessageClientCorrected, NetServer.ServerInterface.MessageAllClients: the handle passed in is null, a roster entry, or a connection whose identifier no entry carries (`Designates`). While identifiers are distinct (before the counter wraps), comparing values then agrees with comparing `shared_ptr` handles, which the model cannot express otherwise. After a wrap two connections can share a value, and the model then treats them as one handle.
- NetConnection.Connection.outQueue: `m_qMessagesOut` is a `tsqueue` in the source. Only the connection's own handlers touch it, so it is a sequence field updated as `push_back`/`pop_front` would.
- NetServer.ServerInterface.AcceptHandler: the accepted socket is taken to be open, so `ConnectToClient` always takes the identifier. The roster entry records the identifier the counter handed out.
- NetServer.ServerInterface.Update: `nMaxMessages` is a natural number up to SIZE_MAX. A caller's negative argument is converted by `ToSizeT` first, as C++ does for the default `-1`.

## Findings

| source | as written | input that shows it | evidently intended | confidence | as-written member | corrected member |
|---|---|---|---|---|---|---|
| NetCommon/net_message.hpp:52 | `header.size` is set to `size()`, which counts the 8 header bytes, while the reader (NetCommon/net_connection.hpp:107, 123) reads `header.size` body bytes | a message with one pushed `uint32_t`: size field 12, 4 body bytes sent; the reader waits for 8 more bytes, or takes the next message's 8 header bytes as body | the size field counts the body bytes only | high, not executed | Framing.AppendedNeverDelivered | NetMessage.AppendCorrected, Framing.ReadAllWireAll |
| NetCommon/net_connection.hpp:109-112 | a header with size 0 is delivered with the scratch body left from the previous message | a message with one pushed byte, then two empty messages: the second empty message arrives carrying the pushed byte and the first one's 8 header bytes | a size of 0 delivers an empty body | high, not executed | Framing.StaleBodyExample | Framing.ReadCorrectedWire |
| NetCommon/net_message.hpp:72-73 | the line meant to recalculate the size resizes the body a second time, so after `>>` the size field still counts the extracted bytes | one byte pushed onto an empty message and popped: size field 9, size() 8 | the size field is recalculated, to the body length as the corrected `<<` of the first row sets it | high, not executed | NetMessage.ExtractLeavesSizeStale | NetMessage.ExtractCorrected, NetMessage.ExtractCorrectedRoundTrip |
| NetCommon/net_server.hpp:103-105 | the local handle is reset before the erase, so only null entries are erased and the disconnected client stays in the roster | a roster holding one client whose socket closed, passed to MessageClient | the client that was reported is erased | high, not executed | NetServer.DeadClientKept | NetServer.ServerInterface.MessageClientCorrected |

The main model follows the code as written. The corrected members stand beside it and carry the intended properties.
