# ircom in Dafny

ircom links two peers over TCP. Each side keeps sending its latest position
and timestamp, a packet `payload` of three doubles, and keeps the latest
payload the peer sent. The server publishes itself over Avahi (mDNS/DNS-SD)
as a `_ircom._tcp` service on port 40001, and the client finds it by browsing.
This project models three parts of ircom and proves properties about them:

- `packet.dfy` (module `Packet`): the payload codec. Each double is sent as
  its 8 bytes, most significant byte first. A 32-byte frame is `"ircom"`,
  then the 24 payload bytes, then `"end"`. A double is handled as its
  binary64 bit pattern (`bv64`), so the codec is exact. Proved: round trips
  both ways, the byte layout, and that decoding ignores the markers and
  looks only at the first 24 bytes after the header.
- `keeper.dfy` (module `Keeper`): the `update_keeper`.
  - Outbound payloads go into a `circular_buffer` of capacity 200, drained by
    one coroutine at a time (the *flusher*).
  - Inbound frames overwrite the latest payload.
  - The outbound side is a class, `UpdateKeeper`. Each method is proved equal
    to a transition function on an `Outbound` value. A ghost `History` (every
    payload ever pushed) lets the lemmas state the flusher's discipline: what
    goes on the socket is an in-order subsequence of what was pushed, with
    nothing written twice.
- `orchestration.dfy` (module `Orchestration`): how the server's accept loop
  and the client's connect loop classify errors. For each, the model states
  when the loop ends, how it ends, and how many retry cooldowns it waits.
- `discovery.dfy` (module `Discovery`):
  - the Avahi publisher's state machine (`STARTING`, `CAN_PUBLISH`,
    `PUBLISH_PENDING`, `PUBLISHED`) and its callbacks;
  - the browser's list of resolved services. A REMOVE event drops records by
    erasing them while walking the list; this loop is proved equal to a pure
    `Without` function.
- `wrappers.dfy` (module `Wrappers`): `Option` and `Result`.

In `packet.dfy` the decoding functions `DecodeF64`, `Deserialize` and
`DecodeFrame` carry no contract of their own; what they read is stated by
the rows of `EncodeDecodeF64`, `DeserializeFields` and
`DecodeFrameReadsPayload` respectively, and their round trips by the other
`Packet` rows.

In `keeper.dfy` the functions `AfterPushOpen`, `AfterEnqueue`,
`AfterEnqueueCorrected`, `AfterWrite`, `AfterClose` and `AfterCloseCorrected`
are the value form of the `UpdateKeeper` methods of the same rows: each
method's `ensures` says its new `State()` is that function of the old one,
and the `...KeepsOrder` and `CorrectedKeepsLive` lemmas state what the
functions preserve.

Each callback and each coroutine step between two `co_await`s is one atomic
method, because both Avahi's poll lock and Asio's single executor serialise
them. A wait on a condition variable becomes the `requires` of the step that
comes after it.

## Model

| member | source | states |
|---|---|---|
| Packet.EncodeF64 | src/packet.cpp:10-13 | a double becomes exactly 8 bytes, most significant first: byte i is the value shifted right by 56 - 8i bits, masked to 8 bits |
| Packet.DecodeEncodeF64 | src/packet.cpp:26-27 | reading back the 8 bytes written for a double gives the same bit pattern |
| Packet.EncodeDecodeF64 | src/packet.cpp:26-27 | reading a double (DecodeF64) takes exactly the first 8 bytes, most significant first; writing it again reproduces them |
| Packet.Serialize | src/packet.cpp:9-20 | a serialized payload is 24 bytes |
| Packet.SerializeLayout | src/packet.cpp:9-20 | byte 8n+i of the payload is big-endian byte i of field n, with the fields in the order x, y, t |
| Packet.DeserializeFields | src/packet.cpp:22-37 | x is read from bytes 0-7, y from bytes 8-15 and t from bytes 16-23: each field's big-endian encoding is that slice of the input |
| Packet.DeserializeSerialize | src/packet.cpp:22-37 | deserialize(serialize(p)) == p |
| Packet.SerializeDeserialize | src/packet.cpp:22-37 | deserialize reads the first 24 bytes; serializing its result gives those bytes back |
| Packet.DeserializeReadsPrefix | src/packet.cpp:22-37 | inputs that agree on their first 24 bytes deserialize to the same payload |
| Packet.AppendSerialized | src/packet.cpp:9-20 | serialize(out) keeps what out held and appends 24 bytes that deserialize to the payload |
| Packet.ReadPayload | src/packet.cpp:22-37 | deserialize(in), which advances by 8 bytes per field, yields the payload whose serialization is in[0..24] |
| Packet.MarkersAreAscii | include/ircom/packet.h:18-26 | the header and footer are the 5 bytes of "ircom" and the 3 bytes of "end"; the NUL terminator is not included |
| Packet.Frame | src/ircom.cpp:48-57 | a write puts 32 bytes on the socket |
| Packet.FrameLayout | src/ircom.cpp:51-55 | the header is at bytes 0-4, the payload at 5-28 and the footer at 29-31; decoding a frame gives its payload back |
| Packet.DecodeFrameReadsPayload | src/ircom.cpp:73-74 | the payload read from a frame is the one whose serialization is bytes 5-28 of the frame |
| Packet.DecodeFrameIgnoresMarkers | src/ircom.cpp:68-74 | a frame is decoded from offset 5, and its header and footer bytes are never checked |
| Packet.FramesSnoc | src/ircom.cpp:43-63 | each completed write extends the byte stream by exactly one frame |
| Packet.FramesChunk | src/ircom.cpp:43-63 | the stream has 32 bytes per written payload; its k-th 32-byte chunk is the frame of the k-th payload |
| Keeper.Push | src/ircom.cpp:33-39 | push_back onto the ring keeps the newest 200 payloads and puts the new one last; a full ring loses its front |
| Keeper.PushAllKeepsNewest | include/ircom/ircom.h:43 | after any sequence of pushes, the ring is the newest 200 payloads of everything pushed, oldest first |
| Keeper.OverflowDropsOldest | src/ircom.cpp:33-39 | pushing 200 or more payloads onto an empty ring keeps exactly the last 200, in order |
| Keeper.LastFrameOfStream | src/ircom.cpp:66-81 | reading a stream of frames frame by frame leaves the last payload sent as the latest value |
| Keeper.PushOpenKeepsOrder | src/ircom.cpp:31-41 | a push on an open socket keeps the ring equal to a suffix of the history, and keeps the flusher discipline |
| Keeper.EnqueueKeepsOrder | src/ircom.cpp:23-41 | send_update as written keeps the state consistent; it keeps the flusher discipline unless the flag is left up over an empty ring |
| Keeper.EnqueueCorrectedKeepsOrder | src/ircom.cpp:24-28 | if dropping the backlog also lowers the flag, send_update keeps the flusher discipline on every input |
| Keeper.CompleteWriteKeepsOrder | src/ircom.cpp:57-63 | a completed write appends the in-flight payload to the written ones, after all earlier ones, and keeps the discipline |
| Keeper.IdleBacklogStaysIdle | src/ircom.cpp:31-41 | on an open socket with a backlog but no flusher, no sequence of send_update calls ever starts a write |
| Keeper.CorrectedKeepsLive | src/ircom.cpp:24-28 | with the corrected close and the corrected send_update, an open socket with a backlog always has a flusher |
| Keeper.UpdateKeeper.constructor | include/ircom/ircom.h:42-45 | the keeper starts with an empty ring, the flag down, no flusher, nothing written and an empty history |
| Keeper.UpdateKeeper.Open | src/ircom.cpp:114 | accepting a connection opens the socket and changes nothing else |
| Keeper.UpdateKeeper.Close | src/ircom.cpp:140 | closing aborts the pending write and the flusher dies; the ring and the flag stay |
| Keeper.UpdateKeeper.CloseCorrected | src/ircom.cpp:24-28 | closing that also drops the lost connection's backlog and flag |
| Keeper.UpdateKeeper.PushOpen | src/ircom.cpp:31-46 | a push on an open socket: a full ring rotates and raises the flag; only the call that found the ring empty starts writing the front |
| Keeper.UpdateKeeper.Enqueue | src/ircom.cpp:13-41 | on a closed socket the backlog is dropped and the flag left as it is; otherwise as PushOpen; the history records the push or the drop; the state stays consistent |
| Keeper.UpdateKeeper.EnqueueCorrected | src/ircom.cpp:24-28 | send_update whose drop also lowers the flag; the history records the push or the drop, and the flusher discipline is kept |
| Keeper.UpdateKeeper.CompleteWrite | src/ircom.cpp:57-63 | after a write, the front is popped unless the flag is up; the flag is lowered; the next front is written if the ring is not empty; the history records the write |
| Keeper.UpdateKeeper.Receive | src/ircom.cpp:68-79 | one 32-byte read sets the latest value to the frame's decoded payload |
| Keeper.UpdateKeeper.HandleUpdates | src/ircom.cpp:66-81 | after reading a stream, the latest value is the payload of its last complete frame, or is unchanged if there is none |
| Keeper.UpdateKeeper.LatestUpdate | src/ircom.cpp:18-21 | latest_update() returns the latest value |
| Keeper.StaleFlagResendsFrame | src/ircom.cpp:59-62 | the run in the first row of Findings writes r twice |
| Keeper.ResentBytes | src/ircom.cpp:51-57 | on the socket, that run is two copies of r's 32-byte frame |
| Keeper.CorrectedFlagSendsOnce | src/ircom.cpp:24-28 | with the corrected send_update, the same run writes r once |
| Keeper.StaleBacklogStallsWrites | src/ircom.cpp:31-41 | the run in the second row of Findings ends with an open socket, two payloads waiting and no flusher |
| Keeper.CorrectedCloseResumesWrites | src/ircom.cpp:24-28 | with the corrected close, the new connection gets r and nothing from the old one |
| Orchestration.ServerHandler | src/ircom.cpp:109-149 | the accept loop goes on only while sessions end in errors that discard the connection with no shutdown issued; a failed accept crashes unless it was aborted; an abort, or an EOF after shutdown, ends it cleanly |
| Orchestration.ClientConnect | src/ircom.cpp:178-246 | the connect loop never crashes on the errors it tells apart (system errors of resolve, connect and a session, and a closed discovery); it ends when discovery closes, on an abort, or on a shutdown; it waits one 1000 ms cooldown per failed connect |
| Discovery.Register | src/discovery.cpp:145-188 | registration succeeds exactly when the entry group exists or can be created, is empty, and both the add and the commit return non-negative codes; AVAHI_ERR_COLLISION is reported as a local collision |
| Discovery.Publisher.constructor | include/ircom/discovery.h:65-68 | the publisher starts in STARTING with no entry group |
| Discovery.Publisher.Publish | src/discovery.cpp:49-74 | CAN_PUBLISH registers once and moves to PUBLISH_PENDING; PUBLISH_PENDING registers nothing and waits; PUBLISHED returns at once; a failed registration leaves the state as it was |
| Discovery.Publisher.Reset | src/discovery.cpp:76-82 | with an entry group: empty it and go to CAN_PUBLISH; without one: nothing |
| Discovery.Publisher.EntryGroupCallback | src/discovery.cpp:84-113 | ESTABLISHED moves to PUBLISHED; a collision or a failure quits the loop and is fatal; other states change nothing |
| Discovery.Publisher.ClientCallback | src/discovery.cpp:115-143 | RUNNING moves to CAN_PUBLISH; COLLISION and REGISTERING reset the group; FAILURE quits the loop and is fatal; every state except RUNNING passes through STARTING |
| Discovery.WithoutAppend | src/discovery.cpp:344-355 | removal works piecewise over a concatenation, so surviving records keep their order |
| Discovery.WithoutMembers | src/discovery.cpp:344-355 | a record survives a removal exactly when it was present and its interface and domain do not both match |
| Discovery.WithoutIdempotent | src/discovery.cpp:339-357 | a second identical REMOVE removes nothing more |
| Discovery.WithoutNoMatch | src/discovery.cpp:344-355 | a REMOVE that matches no record leaves the list unchanged |
| Discovery.Browser.constructor | src/discovery.cpp:195-234 | the browser starts with no services, not closed, with its loop running |
| Discovery.Browser.OnBrowserNew | src/discovery.cpp:319-337 | for the target name and type, a resolver for an INET address is started; failing to create it is fatal; anything else is ignored |
| Discovery.Browser.ServiceResolverCallback | src/discovery.cpp:266-310 | a result over INET on port 40001 is appended to the list; any other result, and a failure, leaves it unchanged |
| Discovery.Browser.RemoveMatching | src/discovery.cpp:344-355 | erasing while walking the list leaves exactly the records that do not match, in their original order |
| Discovery.Browser.ServiceBrowserCallback | src/discovery.cpp:312-371 | NEW starts a resolver as above; REMOVE for the target over INET removes matching records, and otherwise does nothing; FAILURE quits the loop and is fatal |
| Discovery.Browser.ClientCallback | src/discovery.cpp:373-382 | a client failure quits the loop and is fatal; other states are ignored |
| Discovery.Browser.HasService | src/discovery.cpp:384 | true exactly when the list is not empty |
| Discovery.Browser.GetLatestService | src/discovery.cpp:244-250 | a closed browser raises closed_exception, even if it holds records; otherwise returns the most recently resolved record |
| Discovery.Browser.Close | src/discovery.cpp:252-264 | the browser becomes closed and stops its loop; the records stay |

## Findings

| source | as written | input that shows it | evidently intended | confidence | as-written member | corrected member |
|---|---|---|---|---|---|---|
| src/ircom.cpp:24-28 | on a closed socket, send_update clears the ring but leaves update_buf_rotated_ as it was | while the flusher writes p, fill the ring past 200 so it rotates; lose the connection; call send_update(q) while the socket is closed; reconnect and call send_update(r) | r is written once | not executed (the model writes r twice) | Keeper.StaleFlagResendsFrame | Keeper.CorrectedFlagSendsOnce |
| src/ircom.cpp:31-41 | losing the connection aborts the pending write and ends the flusher, but the ring keeps its contents; the first send_update on the next connection finds the ring non-empty and does not start a flusher | call send_update(p); close the socket while p is being written; reconnect before any send_update; call send_update(r) | the new connection gets r | not executed (the model never writes again) | Keeper.StaleBacklogStallsWrites | Keeper.CorrectedCloseResumesWrites |

`Keeper.IdleBacklogStaysIdle` proves that, as written, the stalled state of
the second row never recovers, however many updates follow. In the
corrected model, `Keeper.CorrectedKeepsLive` proves that every step keeps
an invariant: an open socket with a backlog has a flusher, and a closed
socket has no backlog and no raised flag.

## Left out

- Sockets, the acceptor, the resolver, the timer and Avahi are not modelled. What they report comes in as parameters: error kinds, return codes, callback states and events.
- Locks and condition variables are not modelled. Each callback is one atomic step, and a wait becomes the `requires` of the step after it. Whether a lock is taken again inside a callback (reset() called from client_callback) is outside the model.
- Floating point is not modelled: a double is its 64-bit pattern, and the codec never does arithmetic on it.
- Keeper.UpdateKeeper.Enqueue: the co_spawn deferral of send_update is not modelled. Each call runs as soon as it is issued, in program order.
- Keeper.UpdateKeeper.Close: a write that has completed but whose flusher has not yet resumed when the socket closes is treated as aborted, so the model misses four things about that window:
  - the frame of that payload has already gone out on the wire, but `written` does not record it;
  - the resumed flusher pops the front unless the flag is up and then lowers the flag (src/ircom.cpp:61-62), but the model keeps the front and the flag;
  - when the ring is still non-empty, the loop goes on (src/ircom.cpp:63) and its next async_write on the closed socket fails (src/ircom.cpp:57);
  - a send_update that runs in the window on the closed socket first clears the ring (src/ircom.cpp:27), so the resumed flusher calls pop_front() on an empty circular_buffer, breaking that call's precondition (src/ircom.cpp:61).
  The invariant that a flusher in flight implies an open socket and a non-empty ring (`Consistent`), and `AfterWrite`'s precondition, depend on this simplification.
- Keeper.UpdateKeeper.constructor: the initial value of latest_update_ is indeterminate in the source, so it is a parameter.
- Keeper.CorrectedKeepsLive: an async_write that fails while the socket stays open is not modelled; in the source that flusher dies and leaves the backlog behind with no flusher. The model's only way for a write to fail is Close or CloseCorrected, so "an open socket with a backlog always has a flusher" holds only under that restriction.
- Keeper.UpdateKeeper.HandleUpdates: the error that ends the read loop is not modelled. Orchestration handles errors as values.
- Orchestration.ServerHandler: the call to publish() before the loop, remote_endpoint() and logging are not modelled. Exceptions other than boost::system::system_error raised inside a session (and a throw from remote_endpoint()) are not modelled; in the source they reach the outer handler at src/ircom.cpp:144-148 and stop the io_context. The only crash the model has is a failed accept that was not aborted.
- Orchestration.ClientConnect: the ServiceInfo selected before each connect is not modelled, only whether discovery was closed. Exceptions other than boost::system::system_error raised inside a connect attempt or a session are not modelled; in the source they reach the outer handler at src/ircom.cpp:240-245 and stop the io_context, so "never crashes" holds only for the errors the model tells apart.
- Discovery.Publisher.Publish: the first wait's `logic_error` default branch is excluded by the precondition, since no other state can satisfy the wait. The second wait, for PUBLISHED, is returned as `AwaitPublished`.
- Construction failures (event loop, client, browser) and the destructors are not modelled. They only throw or free resources.
- set_state_unlocked (src/discovery.cpp:190-193) is modelled inline, as the state assignments of each step; its notify_all is not modelled.
- Logging (spdlog) and include/ircom/config.h's SERVICE_PORT_STR are not modelled.
