# Verified model of the cloud communication layer

The device talks to its cloud over a chain of channels: `CoAPChannel` numbers messages, `CoAPReliableChannel` retransmits
and deduplicates them, and `DTLSMessageChannel` or `LightSSLMessageChannel` encrypts them. On top of the channels an
update arrives chunk by chunk, and events are published, limited in rate and delivered to subscribers. This project models
that layer in Dafny and proves what it promises.

Every part has the same shape. A specification on values (states, operations, runs) carries the theorems, most of them
about whole runs. Classes with the fields of the original, linked lists, arrays and loops included, are proved to do
exactly what the specification says. The network, the clock, the flash memory and the cryptographic library follow
scripts that are fixed in advance and otherwise arbitrary, so a statement about all scripts covers every loss,
duplication, reordering and delay.

| part | specification and theorems | program |
|---|---|---|
| reliable messages | `StoreSpec`, `StoreRuns`, `StoreGuarantees`, `Exchanges`, `SynchronousSend` | `CoapMessage`, `Link`, `MessageStore`, `ReliableChannel` |
| chunked updates | `OtaSpec`, `ChunkBitmap` | `ChunkedTransfer` |
| LightSSL records | `RecordLayer`, `MessageBuffer` | `MessageBuffer`, `LightSslChannel` |
| options, events and subscriptions | `CoapOptions`, `EventMessages`, `Subscriptions` | the same |
| event rate | `RateLimiter` | the same |
| persisted sessions | `SessionSpec` | `DtlsChannel` |

`Words` holds the fixed-width words and the comparison of wrapping clock ticks. `dafny verify dfyconfig.toml` checks the
whole project.

## Main results

- **Reliable messages.** The linked list refines a map from message IDs to entries, over every run
  (`StoreRefinesMap`), and its wrapping 32-bit timeouts behave like unbounded ones as long as the store is polled every
  24 days (`WrappingClockIsInvisible`). From these follow: in a session, a request ID reaches the application at most once
  in 45 s (`RequestsAreHandedOverOnce`, in terms of what arrived and what the application got), a request is handed over
  exactly when none with its ID was handed over or answered before, unless a processing pass has come 45 s later, and a
  duplicate gets exactly the latest answer (`RequestsAreHandedOverExactly`). Every request sent is matched by one reply,
  is lost or is pending (`RepliesMatchRequests`), a reply in the first 60 s is handed over (`RepliesAreHandedOver`), and
  an unanswered confirmable message is sent four times and given up after 60 s, and before 90 s when the store is polled
  every millisecond (sections 4.2, 4.5 and 4.8.2 of RFC 7252). The blocking send always ends, and its result says what
  happened on the network.
- **Chunked updates.** Whatever order, loss and duplication of chunks, and whatever was committed before, a fast transfer
  is committed only when flash holds the image byte for byte, as long as no other UPDATE_BEGIN arrives
  (`CommitsAreComplete`, and `CommitsAreWhole` for the object itself, whose log restarts at every UPDATE_BEGIN and
  reset). The guarantee survives an UPDATE_BEGIN that does not start a transfer exactly when the file it leaves has the
  same address and at least as many chunks (`GuaranteeSurvivesExactly`). A transfer that is not fast commits the whole
  image exactly when every chunk was in flash before or has arrived (`SlowTransferCommits`). An intact
  chunk that arrives is saved at its place and flagged (`FastChunkArrives`, `SlowChunkArrives`), and every served repair
  round leaves at least two chunks fewer to ask for (`RoundsComplete`, and `RepairRoundIsServed` for the object itself).
- **LightSSL records.** What one endpoint has received is a prefix of what the other has sent, and all of it exactly when
  every byte has been read (`EndpointsAgree`). The bytes of a body may be cut into any pieces; a call that reads a
  header must get both of its bytes or none, and no body may be abandoned. A message survives exactly when it is shorter
  than 768 bytes. What is put on the stream has the padding of section 6.3 of RFC 5652 and is chained block by block
  (`RecordIsRecord`).
- **Events.** A published event is parsed back to the same name and data (`EventRoundTrip`); the parser that joins path
  segments inside the receive buffer never overtakes itself and never damages the data. Removing a filter takes exactly
  its handlers out of every later delivery (`RemoveEventHandlers`).
- **Rate limiter and sessions.** Five accepted events span a second across clock wrap; a session is resumed at most three
  times in a row; once it has been given up, nothing is resumed before a handshake has succeeded
  (`NothingIsResumedBeforeAHandshake`); after a received message the next three connections resume it
  (`ReceivedMessageRenews`); and message IDs of a session do not repeat within 65536 assignments.

## Where the code falls short of its description

- `SessionPersist::prepare_save` keeps the use counter, although the counter is described as the number of uses of *this*
  session. Once a session has expired, no later session is ever resumed (`ExpiryIsForever`); a handshake and three
  restarts without a received message lead there (`ExpiryIsReached`). `NewSessionIsResumable` says exactly when a new
  session can be resumed.
- A file whose rounded-up length does not fit 32 bits, or whose chunk size is zero, has no chunks and is committed at the
  first UPDATE_DONE (`UncoveredFileIsCommittedAtOnce`); `ChunkCountCovers` is the exact condition, and
  `UncoveredFilesExist` gives one descriptor of each kind.
- In transfers that are not fast every chunk counts as received from the start: the device itself does not check
  completeness there, and the first acknowledged UPDATE_DONE commits. The commit is good exactly when every chunk was in
  flash before or has arrived with the right check sum (`SlowTransferCommits`; from an empty flash, `NothingWasThere`),
  which only the server can know.
- UPDATE_DONE searches the bitmap before it tests that an update is in progress. `reset` drops the bitmap and keeps the
  file, and an UPDATE_BEGIN that is rejected replaces the file, so the search may leave the bitmap: exactly when the
  bitmap is too short for the file and has no clear bit (`StaysInsideExactly`, `SearchAfterReset`).
- An UPDATE_BEGIN during a transfer replaces the file even when it is rejected, and the transfer goes on with the new
  file. One without a descriptor makes the next UPDATE_DONE commit whatever flash holds (`RefusedBeginCommits`).
  `GuaranteeSurvivesExactly` says for which files the commits of the transfer stay whole; `HandleUpdateBegin` says when
  the bitmap is still long enough for the search.
- The terminator that `handle_event` writes behind a message with a payload leaves the buffer when the message fills it,
  and so does the one behind a name that ends there. The DTLS channel has no room to spare behind its 800 bytes.
  `TerminatorsFitExactly` is the exact condition, `FullBufferIsLeft` the messages for which it fails.
- `remove_event_handlers` compares names with filters of 64 bytes that have no terminator; it leaves such a filter exactly
  when the filter begins the name (`ComparisonStaysInside`), as the filter stored for a name of 64 bytes or more does
  with that name (`OwnFilterIsLeft`).
- `add_event_handler` looks only at the first slot that agrees in handler, data, scope and name. A handler for a second
  device is never found there and is added again by every call (`AddedIsFoundExactly`).
- The age of a remembered request is only looked at in a processing pass. After a pause without one, a new request is
  swallowed as a duplicate, however old the ID is (`OldRequestIsSwallowed`; `HandedOverExactly` is the exact condition).
- The capacity of a response is larger than the room it has (`ResponseRecordHasRoom` is the exact condition).
- LightSSL reads a header with a single call. When that returns one byte, the byte is dropped and the place in the stream
  is lost without notice: a message that was never sent can be decoded (`LostByteIsNotNoticed`, with `LostByteExample`).
- LightSSL sends messages of 768 to 782 bytes that the peer refuses (`RecordDecodes`).
- The longest wait before the first retransmission is 5992 ms, not the 6000 ms that the random factor 1.5 suggests: the
  back-off uses a random byte, and the constants of the random factor are not used.
- An application event is rejected after 2^32 ms of silence (`LongSilenceIsRejected`; `AcceptedIffSpaced` is the exact
  condition), and the first four calls are rejected in the last second before the clock wraps (`FirstCalls`).

## Model

| member | source | states |
|---|---|---|
| Words.TimeHasPassedIsOrder | communication/src/coap_channel.h:311-322 | on wrapped ticks the comparison is the order of the unbounded times, for every distance below 2^31 |
| Words.TimeHasPassedExactly | communication/src/coap_channel.h:311-322 | the comparison depends only on the distance modulo 2^32, except at 2^31, where the wrapped values decide |
| Words.TimeHasPassedFailsBeyond | communication/src/coap_channel.h:311-322 | at every distance from 2^31 up the comparison is wrong for some pair of times |
| CoapMessage.WithId | communication/src/coap_channel.h:81-84 | writing the ID into the header changes the ID and no other byte |
| CoapMessage.Message.DecodeId | communication/src/message_channel.h:104-110 | the ID is taken from the header exactly when there is one |
| StoreSpec.StepKeepsValid | communication/src/coap_channel.h:397-432 | every store operation keeps the IDs pairwise distinct |
| StoreSpec.FindStep | communication/src/coap_channel.cpp:69-178 | what an operation does to the entry of an ID depends only on that entry |
| StoreSpec.FindProcessed | communication/src/coap_channel.cpp:69-88 | a pass keeps, backs off or drops each entry according to its own timeout and count |
| StoreSpec.ProcessedKeepsOrder | communication/src/coap_channel.cpp:69-88 | a pass removes exactly the expired entries that may not be sent again and keeps the order of the others |
| StoreRuns.StoreRefinesMap | communication/src/coap_channel.h:336-483 | over every run the list is a map from IDs to entries in which every ID evolves on its own |
| StoreRuns.TransmitTimeoutBounds | communication/src/coap_channel.h:265-270 | the back-off after n retransmissions lies between 4000 * 2^n ms and 1.498 times that, for every random byte |
| StoreRuns.TransmitTimeoutIsRandom | communication/src/coap_channel.h:265-270 | the random byte adds its share of half of the back-off, rounded down, and more for every larger byte |
| StoreRuns.SimulationStep | communication/src/coap_channel.h:227-245 | an operation on an entry with 32-bit timeout is the same operation with unbounded time |
| StoreRuns.WrappingClockIsInvisible | communication/src/coap_channel.h:311-322 | over every run that is polled at least every 2^31 ms the wrapped timeouts behave as if time were unbounded |
| StoreRuns.WellTimedRuns | communication/src/coap_channel.h:311-322 | a monotone clock and passes at most 2^31 ms apart make a well-timed run |
| StoreRuns.OperationCommands | communication/src/coap_channel.cpp:57-64 | an operation tells the channel to close for every dropped request and to discard the session for a reset, and nothing else |
| StoreRuns.ClosesForDroppedRequests | communication/src/coap_channel.cpp:57-64 | a pass gives one CLOSE for every request that it drops, and nothing else |
| StoreRuns.CommandingThen | communication/src/coap_channel.cpp:57-64 | so over any number of operations the commands are those of the operations, in their order |
| StoreGuarantees.DeliveriesAreOneSpanApart | communication/src/coap_channel.cpp:152-174 | a confirmable request ID reaches the application at most once in 45 s of a session, for every loss, duplication and order |
| StoreGuarantees.DuplicatesGetTheStoredAnswer | communication/src/coap_channel.cpp:152-163 | a duplicate is swallowed, and once the request is answered exactly the stored answer is sent again |
| StoreGuarantees.Memory | communication/src/coap_channel.cpp:152-175 | the server store holds an ID exactly when a request with it was handed over or answered in this session and no pass has come 45 s after the last time |
| StoreGuarantees.HandedOverExactly | communication/src/coap_channel.cpp:152-175 | a confirmable request is handed over exactly when its ID is not held in that sense |
| StoreGuarantees.AnsweredExactly | communication/src/coap_channel.cpp:152-163 | it is answered exactly when an answer is held, with the latest one; a duplicate without an answer transmits nothing |
| StoreGuarantees.OldRequestIsSwallowed | communication/src/coap_channel.cpp:152-163 | without a pass in between, a request is swallowed 100 s after the first |
| StoreGuarantees.OthersPass | communication/src/coap_channel.cpp:174-177 | what needs no confirmation is passed on, and changes and transmits nothing |
| StoreGuarantees.EntrySurvives | communication/src/coap_channel.cpp:165-174 | a server entry survives for 45 s whatever else happens, and only an answer changes it |
| StoreGuarantees.ServerEntriesExpire | communication/src/coap_channel.h:292-296 | every entry of the server store is marked never to be sent again and has no delivery handler |
| StoreGuarantees.ServerStoreNeverRetransmits | communication/src/coap_channel.cpp:69-88 | over every run, a pass over the server store transmits nothing and reports no timeout |
| StoreGuarantees.RepliesMatchRequests | communication/src/coap_channel.cpp:131-151 | requests sent with an ID = replies delivered for it + requests replaced, given up or forgotten + the one that is pending |
| StoreGuarantees.ReplyIsDelivered | communication/src/coap_channel.cpp:131-151 | a reply is delivered exactly when its request has not been given up, so always in the first 60 s |
| StoreGuarantees.PassIsOnTime | communication/src/coap_channel.cpp:69-88 | a pass resends or drops an entry exactly when its unbounded deadline has come |
| StoreGuarantees.ScheduleOfCell | communication/src/coap_channel.h:227-245 | an unanswered message follows its schedule: counts, deadlines and transmission times agree at every moment |
| StoreGuarantees.RetransmissionsOfCell | communication/src/coap_channel.cpp:47-55 | the messages on the wire are exactly the retransmissions of the schedule |
| StoreGuarantees.ConfirmableIsRetransmitted | communication/src/coap_channel.h:161-165 | at most MAX_RETRANSMIT retransmissions, none early; given up only after all of them and at least 60 s |
| StoreGuarantees.ConfirmableEndsInTime | communication/src/coap_channel.h:227-270 | with a bound on the time between passes, upper bounds on every retransmission and on giving up, and the message is then gone |
| StoreGuarantees.ConfirmablePolledEveryTick | communication/src/coap_channel.h:227-270 | polled every millisecond, the last retransmission comes within 42 s and the end between 60 s and 90 s |
| SynchronousSend.StepKeepsOnlyWatched | communication/src/coap_channel.h:673-680 | no operation moves a delivery handler to another message, and forgetting the message removes it |
| SynchronousSend.ReportsTimeoutOnlyFor | communication/src/coap_channel.cpp:57-64 | a pass reports a timeout exactly when it drops the watched message |
| SynchronousSend.PassOverWatched | communication/src/coap_channel.cpp:69-88 | what a pass does to the watched message, its handler and the wire, in unbounded time |
| SynchronousSend.IterationStep | communication/src/coap_channel.h:685-699 | an iteration lets the message leave, transmits it again, or finds its deadline in the future |
| SynchronousSend.ProgressEnds | communication/src/coap_channel.h:685-707 | when the loop ends, the result is the one that the replies and the clock brought about |
| MessageStore.CoAPMessage.constructor | communication/src/coap_channel.h:183-193 | a stored message has the ID and the first bytes of the message, and is counted |
| MessageStore.CoAPMessage.PrepareRetransmit | communication/src/coap_channel.h:227-245 | the new timeout and count, and whether the message may be sent again |
| MessageStore.CoAPMessage.SetExpiration | communication/src/coap_channel.h:292-296 | the message expires at the time and is never sent again |
| MessageStore.CoAPMessageStore.ForId | communication/src/coap_channel.h:342-357 | finds the node with the ID and the one before it, or establishes that there is none |
| MessageStore.CoAPMessageStore.Unlink | communication/src/coap_channel.h:359-366 | takes exactly one node out of the list |
| MessageStore.CoAPMessageStore.Remove | communication/src/coap_channel.h:424-432 | the list without the ID; the removed node is returned and no longer in it |
| MessageStore.CoAPMessageStore.ClearMessage | communication/src/coap_channel.h:465-473 | the list without the ID, whether there was one, and the count of live messages |
| MessageStore.CoAPMessageStore.Clear | communication/src/coap_channel.h:475-484 | the list is empty and its messages are no longer counted |
| MessageStore.CoAPMessageStore.FromId | communication/src/coap_channel.h:390-395 | the only message with the ID, if there is one |
| MessageStore.CoAPMessageStore.Add | communication/src/coap_channel.h:397-422 | a message already present stays, one whose `next` is set is refused, a new one replaces the one with its ID and becomes the head |
| MessageStore.CoAPMessageStore.Retransmit | communication/src/coap_channel.cpp:47-55 | sends the message again exactly when it is confirmable and has retries left |
| MessageStore.CoAPMessageStore.ReportTimeout | communication/src/coap_channel.cpp:57-64 | the handler learns of the timeout, and the channel is closed for a request |
| MessageStore.CoAPMessageStore.ProcessNode | communication/src/coap_channel.cpp:73-87 | one turn of the loop: the node waits, is sent again, or leaves the list, and nothing else in the list changes |
| MessageStore.CoAPMessageStore.Process | communication/src/coap_channel.cpp:69-88 | the loop over the linked list does what a pass does to the entries: survivors, resends in order, closings, timeout report, count |
| MessageStore.CoAPMessageStore.Send | communication/src/coap_channel.cpp:95-122 | requests are kept for retransmission and answers for 45 s, under the ID of the message |
| MessageStore.CoAPMessageStore.Receive | communication/src/coap_channel.cpp:127-178 | new entries, what is passed on, what is sent in reply, what the handler and the channel are told |
| MessageStore.CoAPMessageStore.RequestArrived | communication/src/coap_channel.cpp:152-175 | a confirmable request is remembered; a duplicate is swallowed and gets the stored answer |
| MessageStore.CoAPMessageStore.SetDeliveredHandler | communication/src/coap_channel.h:679-681 | only the message with the ID gets the handler |
| MessageStore.CoAPMessageStore.HasUnacknowledgedRequests | communication/src/coap_channel.cpp:180-190 | is there an entry that is a request |
| Exchanges.TakenInExactly | communication/src/coap_channel.h:640-650 | which store a message is shown to, what is passed on, what is transmitted in answer and what the channel is told, for every type of message |
| Exchanges.RecordedGrows | communication/src/coap_channel.h:638-660 | every poll for the application adds one exchange, which is accounted for by the log of the store that the message was shown to |
| Exchanges.HandedOverOnce | communication/src/coap_channel.cpp:152-175 | two exchanges of one session that hand over a request with the same ID lie 45 s apart |
| Exchanges.HandedOverUnlessKnown | communication/src/coap_channel.cpp:152-175 | an exchange hands over its request exactly when no earlier one of the session did so and no answer was sent, or a pass has come 45 s later |
| Exchanges.AnsweredIfKnown | communication/src/coap_channel.cpp:152-163 | an exchange transmits exactly the latest answer, if there is one |
| ReliableChannel.CoAPReliableChannel.Receive | communication/src/coap_channel.h:638-660 | one poll: which store saw the message, what is passed on, what is sent, every CLOSE and DISCARD_SESSION, both passes in order, the notification, both logs, and the exchange that is recorded |
| ReliableChannel.CoAPReliableChannel.Poll | communication/src/coap_channel.h:640-650 | the first half: one arrival and what the store that it belongs to makes of it |
| ReliableChannel.CoAPReliableChannel.Background | communication/src/coap_channel.h:651-657 | the second half: the passes over the client and the server store, with their transmissions and closings |
| ReliableChannel.CoAPReliableChannel.ProcessServer | communication/src/coap_channel.h:652 | a pass over the server store transmits nothing and reports nothing |
| ReliableChannel.CoAPReliableChannel.AwaitReply | communication/src/coap_channel.h:686-694 | the first half of the waiting loop: one poll, an acknowledgement or reset removes the message and sets the result, and a reset discards the session |
| ReliableChannel.CoAPReliableChannel.AwaitOutcome | communication/src/coap_channel.h:684-699 | the waiting loop ends, after at most MAX_RETRANSMIT retransmissions, with the outcome that the network brought about and the commands of the store |
| ReliableChannel.CoAPReliableChannel.SendSynchronous | communication/src/coap_channel.h:662-707 | always returns; success only after a matching acknowledgement, reset only after a matching reset, timeout only after all transmissions; nothing is awaited without an ID, for a NON message or after a refusal; the commands given; no handler is left behind |
| ReliableChannel.CoAPReliableChannel.SendOrRefuse | communication/src/coap_channel.h:664-699 | the part up to the end of the loop: refusal, transmission or waiting, with its result |
| ReliableChannel.CoAPReliableChannel.Send | communication/src/coap_channel.h:585-605 | every case: short messages bypass the stores, confirmed requests are sent synchronously with that result, the others are registered and sent once |
| ReliableChannel.CoAPReliableChannel.Establish | communication/src/coap_channel.h:573-578 | a new session starts with empty stores and no live message, and the result is that of the channel below |
| ReliableChannel.CoAPReliableChannel.StoresAreLogged | communication/src/coap_channel.h:492-507 | at every moment both stores are the result of the logged operations, so the theorems about runs apply to them |
| ReliableChannel.CoAPReliableChannel.LogsAreWellTimed | communication/src/coap_channel.h:651-657 | when it is polled at least every 24 days, what the channel has done is a well-timed run, to which every theorem about runs applies |
| ReliableChannel.CoAPReliableChannel.RequestsAreHandedOverOnce | communication/src/coap_channel.h:638-660 | in what arrived and what the application got: two confirmable requests with one ID that are handed over in a session lie 45 s apart |
| ReliableChannel.CoAPReliableChannel.RequestsAreHandedOverExactly | communication/src/coap_channel.h:638-660 | a request is handed over unless one with its ID was handed over or answered before and no pass has come 45 s later; what is transmitted in answer is exactly the latest answer |
| ReliableChannel.CoAPReliableChannel.OthersAreHandedOver | communication/src/coap_channel.h:643-650 | every other message is handed over as it is, and a reply exactly when its request is stored |
| ReliableChannel.CoAPReliableChannel.RepliesAreHandedOver | communication/src/coap_channel.h:643-650 | a reply is handed to the application exactly when the request it answers has not been given up, so always in the first 60 s |
| ReliableChannel.CoAPReliableChannel.LiveMessagesAreCounted | communication/src/coap_channel.h:148-200 | `message_count` is the number of nodes in both lists at every moment |
| ReliableChannel.CoAPChannel.AssignId | communication/src/coap_channel.h:69-84 | a message without an ID gets the next one, the header shows the ID, and nothing else changes |
| ReliableChannel.CoAPChannel.Send | communication/src/coap_channel.h:69-87 | the reliable channel below handles the message with its ID in the header, and its result is passed on |
| ChunkBitmap.FlaggedIsReceived | communication/src/chunked_transfer.h:105-109 | setting the bit of a chunk adds that chunk to the set and changes no other |
| ChunkBitmap.AllOnes | communication/src/chunked_transfer.cpp:371-376 | a bitmap of 0xFF bytes stands for all chunks |
| OtaSpec.ChunkCountCovers | communication/inc/file_transfer.h:78-80 | the chunks cover the file without a superfluous one, exactly when the rounded-up length fits 32 bits and the chunk size is not zero (for a file that is not empty) |
| OtaSpec.MissingIsComplement | communication/src/chunked_transfer.cpp:354-369 | the missing chunks are exactly those not received, in strictly increasing order |
| OtaSpec.StepIsSafe | communication/src/chunked_transfer.cpp:169-194 | every event keeps flagged chunks saved, and if it commits, it commits the whole image |
| OtaSpec.ChunkGoesToItsPlace | communication/src/chunked_transfer.cpp:169-195 | during an update a chunk with the right check sum is flagged and written to its place, any other changes nothing |
| OtaSpec.CommitsAreComplete | communication/src/chunked_transfer.cpp:250-279 | for every order, loss and duplication of chunks, and whatever was committed before, every commit of this transfer happens with the whole image in flash |
| OtaSpec.FastTransferCommitsTheImage | communication/src/chunked_transfer.cpp:93-99 | every transfer that starts with an empty bitmap commits only the whole image |
| OtaSpec.RunIgnoresImage | communication/src/chunked_transfer.cpp:114-214 | what the device does does not depend on the image that it does not know |
| OtaSpec.RequestLimitBounds | communication/src/chunked_transfer.cpp:285-287 | between 2 and 40 chunks are asked for in every round |
| OtaSpec.RequestLimitGrows | communication/src/chunked_transfer.cpp:285-287 | from round to round the number grows by a fifth, rounded down, and by two at least; it is 40 from 34 on |
| OtaSpec.RequestHeaderIsGet | communication/src/chunked_transfer.cpp:304-312 | the request is a confirmable GET for the path c, followed by a payload |
| OtaSpec.RoundShrinksMissing | communication/src/chunked_transfer.cpp:281-291 | a repair round whose chunks arrive leaves at least two fewer missing, until none is |
| OtaSpec.RoundsComplete | communication/src/chunked_transfer.cpp:281-334 | after half as many served rounds as chunks are missing the next UPDATE_DONE commits |
| OtaSpec.GuaranteeSurvivesExactly | communication/src/chunked_transfer.cpp:35-77 | when another file replaces the one in transfer, only the whole image is committed, from every safe state, exactly when the new file has the same address and at least as many chunks |
| OtaSpec.FewerChunksFail | communication/src/chunked_transfer.cpp:354-369 | with fewer chunks there is a run that commits without the others |
| OtaSpec.AnotherAddressFails | communication/src/chunked_transfer.cpp:174 | with another address there is a run that puts the last chunk elsewhere and commits |
| OtaSpec.SavedExactly | communication/src/chunked_transfer.cpp:169-183 | until the commit, a chunk is in flash exactly when it was there before or has arrived with the right check sum |
| OtaSpec.SlowTransferCommits | communication/src/chunked_transfer.cpp:96-99 | with every bit set from the start the first acknowledged UPDATE_DONE commits; the commit is whole exactly when every chunk was in flash before or has arrived |
| OtaSpec.NothingWasThere | communication/src/chunked_transfer.cpp:96-99 | from an empty flash, that is exactly when every chunk has arrived |
| OtaSpec.UncoveredFileIsCommittedAtOnce | communication/inc/file_transfer.h:78-80 | a file that the chunk count does not cover is committed without any chunk |
| OtaSpec.UncoveredFilesExist | communication/inc/file_transfer.h:78-80 | two descriptors whose file the chunk count does not cover |
| OtaSpec.BigEndianDecodes | communication/src/chunked_transfer.cpp:317-318 | the requested indices can be read back from the message, in order |
| ChunkedTransfer.FastChunkDecodes | communication/src/chunked_transfer.cpp:138-155 | scanning the options of a fast chunk gives its check sum, its index and its data |
| ChunkedTransfer.SlowChunkDecodes | communication/src/chunked_transfer.cpp:134-155 | scanning the options of a chunk without an index gives its check sum and its data |
| ChunkedTransfer.BeginMessageDecodes | communication/src/chunked_transfer.cpp:35-51 | the descriptor and the flags of UPDATE_BEGIN are read back field by field |
| ChunkedTransfer.ChunkedTransfer.WantsFastExactly | communication/src/chunked_transfer.cpp:37-47 | the override decides about the fast transfer, and without one the first flag of the message |
| ChunkedTransfer.ChunkedTransfer.AdmittedExactly | communication/src/chunked_transfer.cpp:61-65 | a file is admitted exactly when the application takes it and it has fewer than 65535 chunks |
| ChunkedTransfer.StaysInsideExactly | communication/src/chunked_transfer.cpp:354-369 | the search for a missing chunk reads only bits that exist exactly when the bitmap is long enough or has a clear bit |
| ChunkedTransfer.ChunkedTransfer.CommitsAreWhole | communication/src/chunked_transfer.cpp:250-279 | the theorem about commits for the object: its state is the run of its events since the last UPDATE_BEGIN or reset, and if flagged chunks were saved then, they are saved now and every commit since is whole, for every image at this address with at most as many chunks |
| ChunkedTransfer.ChunkedTransfer.FlagChunkReceived | communication/src/chunked_transfer.h:105-109 | the received set grows by exactly this chunk |
| ChunkedTransfer.ChunkedTransfer.NextChunkMissing | communication/src/chunked_transfer.cpp:354-369 | the least missing chunk from the start index on, or 65535 when there is none |
| ChunkedTransfer.ChunkedTransfer.IsChunkReceived | communication/src/chunked_transfer.h:111-114 | is the chunk in the received set |
| ChunkedTransfer.ChunkedTransfer.SendMissingChunks | communication/src/chunked_transfer.cpp:295-334 | one message with exactly the first missing chunks, at most the limit, big-endian and increasing; nothing is sent when none is missing |
| ChunkedTransfer.ChunkedTransfer.AskForOne | communication/src/chunked_transfer.cpp:314-324 | one turn of the loop: one more index in the message, and the next missing chunk |
| ChunkedTransfer.ChunkedTransfer.ReadOptions | communication/src/chunked_transfer.cpp:134-155 | the loop finds the check sum, the index and the payload of a chunk |
| ChunkedTransfer.ChunkedTransfer.SaveChunk | communication/src/chunked_transfer.cpp:170-211 | a chunk with the right check sum is saved at its address and flagged, any other is only reported |
| ChunkedTransfer.ChunkedTransfer.HandleChunk | communication/src/chunked_transfer.cpp:114-214 | the transfer makes the step of this chunk; all replies and the returned error |
| ChunkedTransfer.FastChunkArrives | communication/src/chunked_transfer.cpp:114-214 | a fast chunk with the right check sum is written to address + index * chunk size and flagged, without an answer; a broken one changes nothing |
| ChunkedTransfer.SlowChunkArrives | communication/src/chunked_transfer.cpp:114-214 | a chunk at the running index is acknowledged, and then saved, flagged and counted exactly when the acknowledgement went out and the check sum is right |
| ChunkedTransfer.ChunksArriveAt | communication/src/chunked_transfer.cpp:114-214 | any sequence of genuine fast chunks makes the steps of their events on the object |
| ChunkedTransfer.RepairRoundIsServed | communication/src/chunked_transfer.cpp:281-291 | on the object: after an acknowledged UPDATE_DONE and the arrival of what was asked for, at least two chunks fewer are missing, or none |
| ChunkedTransfer.ChunkedTransfer.HandleUpdateDone | communication/src/chunked_transfer.cpp:250-293 | the transfer makes the step of UPDATE_DONE: validation only if nothing is missing, one acknowledgement, and then a commit, a request or nothing; outside an update the search must stay inside the bitmap |
| ChunkedTransfer.ChunkedTransfer.SearchAfterReset | communication/src/chunked_transfer.cpp:255 | after a reset UPDATE_DONE is safe exactly when the file that was left has no chunks |
| ChunkedTransfer.ChunkedTransfer.HandleUpdateBegin | communication/src/chunked_transfer.cpp:27-111 | a transfer starts exactly when the rehearsal, the chunk count, the acknowledgement and the preparation succeed; its bitmap has a bit for every chunk, all clear or all set; when it does not start, the transfer in progress keeps its chunks but not its file, and exactly when the bitmap is still long enough |
| ChunkedTransfer.RefusedBeginCommits | communication/src/chunked_transfer.cpp:53-77 | an UPDATE_BEGIN without a descriptor that is refused in a transfer, and then UPDATE_DONE: an update is committed whatever flash holds |
| ChunkedTransfer.ChunkedTransfer.StartUpdate | communication/src/chunked_transfer.cpp:86-99 | the state in which a transfer starts |
| ChunkedTransfer.ChunkedTransfer.SetFastOta | communication/src/chunked_transfer.h:147-151 | the override of the application is in force |
| ChunkedTransfer.ChunkedTransfer.Reset | communication/src/chunked_transfer.h:130-135 | no update, no bitmap, and the file stays |
| ChunkedTransfer.ChunkedTransfer.Cancel | communication/src/chunked_transfer.cpp:343-351 | an update in progress is reported as failed |
| RecordLayer.DecryptUndoesEncrypt | communication/src/lightssl_message_channel.cpp:73-76 | block chaining is undone, for every invertible block cipher and vector |
| RecordLayer.XorIsBitwise | communication/src/lightssl_message_channel.cpp:144-149 | every bit of an exclusive or says whether the two bits differ |
| RecordLayer.EncryptIsChained | communication/src/lightssl_message_channel.cpp:144-149 | every ciphertext block is the cipher of its plain block mixed with the ciphertext block before, the first with the vector |
| RecordLayer.UnpadUndoesPad | communication/src/lightssl_message_channel.cpp:130-134 | the padding (section 6.3 of RFC 5652) is removed again for every length |
| RecordLayer.PadIsPadding | communication/src/lightssl_message_channel.cpp:130-134 | up to the next whole number of blocks one to 16 bytes are added, and every one of them is their number |
| RecordLayer.RecordIsRecord | communication/src/lightssl_message_channel.cpp:130-149 | a record is the big-endian length of its body and the padded message, chained |
| RecordLayer.RecordDecodes | communication/src/lightssl_message_channel.cpp:56-91 | a record gives back its message exactly when that is shorter than 768 bytes; a longer one is refused |
| RecordLayer.StreamGrows | communication/src/lightssl_message_channel.cpp:144-149 | sending one more message appends its record, encrypted with the first ciphertext block of the record before |
| RecordLayer.ReceivedIsPrefixOfSent | communication/src/lightssl_message_channel.cpp:56-91 | what is decoded from any part of the stream is a prefix of what was sent, and the receive vector is the send vector of that moment |
| RecordLayer.WholeStreamDecodes | communication/src/lightssl_message_channel.cpp:42-91 | a whole stream is decoded to all its messages, to the last byte |
| RecordLayer.BordersAreWellFormed | communication/src/lightssl_message_channel.cpp:60-63 | between records the stream never shows a header that the receiver would refuse |
| RecordLayer.LostByteIsNotNoticed | communication/src/lightssl_message_channel.cpp:59-63 | for every cipher and vector: behind one lost byte, a record of 256 bytes whose ciphertext begins with 16 is decoded to a message that was not sent |
| RecordLayer.LostByteExample | communication/src/lightssl_message_channel.cpp:59-63 | such a record exists |
| RecordLayer.StreamIsShorter | communication/src/lightssl_message_channel.cpp:42-54 | every message adds to the stream |
| MessageBuffer.MessageView.Splinter | communication/src/message_channel.h:53-62 | the room behind a message, when there is enough, goes to the other message |
| MessageBuffer.MessageView.TrimCapacity | communication/src/message_channel.h:44-49 | the message keeps its bytes and gives away the rest of its capacity |
| MessageBuffer.BufferMessageChannel.Create | communication/src/buffer_message_channel.h:42-52 | a new message gets the whole buffer between prefix and suffix, unless more is demanded |
| MessageBuffer.BufferMessageChannel.Response | communication/src/buffer_message_channel.h:57-60 | a response has a frame of its own inside the buffer for every payload up to the required size; exactly when it can be answered in turn |
| MessageBuffer.ResponseFrame | communication/src/buffer_message_channel.h:57-60 | exactly the payloads that leave room for another prefix and suffix fit a response |
| MessageBuffer.ResponseIsRoomy | communication/src/buffer_message_channel.h:57-60 | exactly when the whole capacity of a response can be used |
| LightSslChannel.TimeoutIsNoticed | communication/src/lightssl_message_channel.cpp:224-229 | the wrapped difference shows a timeout exactly when more than 20 s have passed |
| LightSslChannel.LightSslMessageChannel.Wrap | communication/src/lightssl_message_channel.cpp:130-149 | the buffer holds the record in place of the message and is unchanged outside it; the record has the big-endian length and the padded message, chained, and the next vector is its first ciphertext block |
| LightSslChannel.LightSslMessageChannel.EncryptInPlace | communication/src/lightssl_message_channel.cpp:144-149 | this part of the buffer is encrypted, the rest unchanged, and the first ciphertext block is the next vector |
| LightSslChannel.LightSslMessageChannel.BlockingSend | communication/src/lightssl_message_channel.cpp:201-233 | sends all bytes in order, or stops for a socket error or after 20 s; always ends when the clock advances |
| LightSslChannel.LightSslMessageChannel.BlockingReceive | communication/src/lightssl_message_channel.cpp:236-268 | fills the buffer with the next bytes of the stream, or stops for a socket error or after 20 s |
| LightSslChannel.LightSslMessageChannel.ReceiveBody | communication/src/lightssl_message_channel.cpp:66-80 | the message of the record whose header was read, or a failure that leaves the vector alone |
| LightSslChannel.LightSslMessageChannel.Send | communication/src/lightssl_message_channel.cpp:42-54 | one record on the stream, or part of it and an error; an empty message sends nothing |
| LightSslChannel.LightSslMessageChannel.Receive | communication/src/lightssl_message_channel.cpp:56-91 | the message that the stream holds next, for every way the bytes of its body are cut; what every kind of failure, and a header of which one byte was read, leaves behind |
| LightSslChannel.EndpointsAgree | communication/src/lightssl_message_channel.cpp:42-91 | two endpoints, of which the second has read every header whole or not at all and every body to its end: received messages are a prefix of those sent, all of them exactly when every byte has been read, the vectors agree between records, and the next header is a good one |
| LightSslChannel.ResponseRecordHasRoom | communication/src/buffer_message_channel.h:57-60 | the record of a response is disjoint from the one of its message and inside the buffer up to the required size; the exact limit beyond |
| CoapOptions.AddOption | communication/inc/coap.h:166-179 | writes the option and nothing else |
| CoapOptions.ExtendedOptionValue | communication/inc/coap.h:218-233 | writes the extension of a value and nothing else |
| CoapOptions.OptionRoundTrip | communication/src/coap.cpp:86-104 | decoding finds the data of an option exactly when its delta has no extension |
| CoapOptions.HeadStandsFor | communication/inc/coap.h:166-233 | the nibbles and extensions of a head stand for its delta and its length (section 3.1 of RFC 7252) |
| CoapOptions.OptionsRoundTrip | communication/src/coap.cpp:86-104 | every list of options is read back to the last byte (section 3.1 of RFC 7252) |
| EventMessages.EventNameUriPath | communication/src/events.cpp:89-108 | appends a name of up to 64 bytes as one option, and nothing for the empty name |
| EventMessages.Event | communication/src/messages.cpp:290-322 | writes the event message |
| EventMessages.EventIsPostRequest | communication/src/messages.cpp:290-299 | an event is a POST request without a token, confirmable or not as asked for, with its ID and the type of the event as path |
| EventMessages.MaxAgeIsTimeToLive | communication/src/messages.cpp:301-307 | the time to live follows as a Max-Age option of three bytes, unless it is 60 |
| EventMessages.SegmentsAreJoined | communication/src/subscriptions.h:122-136 | any number of path segments with headers of any size is joined by slashes |
| EventMessages.EventRoundTrip | communication/src/messages.cpp:290-322 | parsing a published event gives its name and data, cut to their limits; absent and empty data stay different |
| EventMessages.TerminatorsFitExactly | communication/src/subscriptions.h:144-151 | both terminators stay inside the buffer exactly when there is room behind the message, or it has no payload and the name ends before it |
| EventMessages.FullBufferIsLeft | communication/src/subscriptions.h:144-151 | a message with a payload that fills the buffer is one for which they do not |
| Subscriptions.NothingBehindAGap | communication/src/subscriptions.h:156-163 | in a gap-free table nothing behind the first empty slot matches |
| Subscriptions.MatchingExactly | communication/src/subscriptions.h:156-163 | the handlers that get an event are exactly those whose filter begins its name |
| Subscriptions.NewHandlerMatches | communication/src/subscriptions.h:286-313 | a new handler gets exactly the events whose name its filter begins, after all the others, whose deliveries stay as they are |
| Subscriptions.OthersExactly | communication/src/subscriptions.h:220-249 | exactly the handlers with another filter are kept |
| Subscriptions.OthersAreGapFree | communication/src/subscriptions.h:220-249 | removal leaves a gap-free table |
| Subscriptions.ReadsTerminatorExactly | communication/src/subscriptions.h:233 | the comparison reads the byte behind a filter exactly when the filter begins the name |
| Subscriptions.ComparisonStaysInside | communication/src/subscriptions.h:233 | so it stays inside the 64 bytes exactly when the filter is shorter or does not begin the name |
| Subscriptions.OwnFilterIsLeft | communication/src/subscriptions.h:233 | the filter stored for a name of 64 bytes or more is one that it leaves |
| Subscriptions.PaddingMatchesNothing | communication/src/subscriptions.h:220-249 | cleared slots are in no delivery |
| Subscriptions.RemovalIsExact | communication/src/subscriptions.h:220-249 | removing a filter takes its handlers out of every delivery and changes nothing else |
| Subscriptions.Subscriptions.EventHandlerExists | communication/src/subscriptions.h:255-281 | the verdict on the first slot that agrees in handler, data, scope and the first 64 bytes of the name |
| Subscriptions.Subscriptions.AddEventHandler | communication/src/subscriptions.h:286-313 | nothing changes for a known handler or a full table; else the first empty slot is taken, with the name cut to 64 bytes, and from then on the handler gets exactly the events whose name begins with that |
| Subscriptions.Subscriptions.FoundExactly | communication/src/subscriptions.h:255-281 | a handler is known exactly when the first slot with its handler, data, scope and the first 64 bytes of its name is for the same device |
| Subscriptions.Subscriptions.AddedIsFoundExactly | communication/src/subscriptions.h:255-281 | a handler just added is found again exactly when no earlier slot agrees with it in all but the device |
| Subscriptions.Subscriptions.RemoveEventHandlers | communication/src/subscriptions.h:220-250 | the loop in the array is the stable filter of the table, and every later delivery loses exactly the handlers with the filter |
| Subscriptions.Subscriptions.JoinPath | communication/src/subscriptions.h:119-137 | the loop in the receive buffer leaves the joined name, never writes ahead of its reading, and keeps what follows |
| Subscriptions.Subscriptions.JoinOne | communication/src/subscriptions.h:124-136 | one turn: a slash and the data of the option behind the name, what follows unchanged |
| Subscriptions.Subscriptions.ReadEvent | communication/src/subscriptions.h:107-151 | name and data are left terminated in the buffer, and neither terminator hits the other; up to the last message that leaves room for them |
| Subscriptions.Subscriptions.Dispatch | communication/src/subscriptions.h:153-199 | the loop that stops at the first empty slot calls exactly the handlers that for_each visits and whose filter begins the name |
| Subscriptions.Subscriptions.HandleEvent | communication/src/subscriptions.h:83-201 | acknowledgement, parsing and delivery: the calls and the result for every message |
| RateLimiter.FiveAcceptedSpanASecond | communication/src/publisher.h:72-86 | any five accepted events of any history span at least 1000 ms |
| RateLimiter.AcceptedIffSpaced | communication/src/publisher.h:72-86 | an event is accepted exactly when it and the four calls before it span a second or more, and not a time between n * 2^32 and n * 2^32 + 999 ms for some n from 1 on |
| RateLimiter.SpacedCallsAreAccepted | communication/src/publisher.h:72-86 | once the initial ring is overwritten, calls 250 ms apart are rejected only in those times, and never when five of them span less than 2^32 ms |
| RateLimiter.FirstCalls | communication/src/publisher.h:72-75 | the initial ring rejects exactly in the last second before the clock wraps |
| RateLimiter.LongSilenceIsRejected | communication/src/publisher.h:78-86 | there are such rejections: after any number of times around the clock without a call |
| RateLimiter.SystemEventsAreBounded | communication/src/publisher.h:52-69 | at most 255 system events are accepted in every 65536 ms, over every history |
| RateLimiter.RejectedOnlyWhenFull | communication/src/publisher.h:52-69 | a system event is rejected only when 255 were accepted in its 65536 ms, unless the first of them is almost 2^32 ms old |
| RateLimiter.RateLimiter.IsBurst | communication/src/publisher.h:72-86 | the ring of five ticks decides as the history does |
| RateLimiter.RateLimiter.IsSystemLimited | communication/src/publisher.h:52-69 | the minute counter decides as the history does |
| RateLimiter.RateLimiter.IsRateLimited | communication/src/publisher.h:50-88 | the verdict for both kinds of events and the histories it extends |
| SessionSpec.StepKeepsInv | communication/src/dtls_message_channel.cpp:51-155 | every call keeps valid records tied to the latest uncleared handshake, their use counts high enough and their message IDs recent enough |
| SessionSpec.RunKeepsInv | communication/src/dtls_message_channel.cpp:347-521 | so does every run of calls and reboots |
| SessionSpec.ResumedAtMostThreeTimes | communication/inc/dtls_session_persist.h:117-122 | at most three resumptions in a row without a received message or a new handshake |
| SessionSpec.StreakIsResumptions | communication/inc/dtls_session_persist.h:117-122 | what that theorem counts are the resumptions among the events since the last handshake or received message |
| SessionSpec.NothingIsResumedBeforeAHandshake | communication/src/dtls_message_channel.cpp:256-261 | after a close, a failed write, or a failed or closed read nothing is resumed, across reboots, before a handshake has succeeded |
| SessionSpec.GivenUpIsNeverResumed | communication/inc/dtls_session_persist.h:188-194 | a resumed session is the one of the latest handshake, and a handshake has succeeded since a session was last given up |
| SessionSpec.UsesAreBegins | communication/src/dtls_message_channel.cpp:90-103 | while nothing goes wrong, the record has been used as often as the session was resumed since its uses were counted anew |
| SessionSpec.ReceivedMessageRenews | communication/src/dtls_message_channel.cpp:479-486 | once a message has been received in a resumed session, the next three connections with the same keys resume it |
| SessionSpec.MessageIdsDoNotRepeat | communication/src/dtls_message_channel.cpp:69-77 | new message IDs of a session increase across reboots and differ within 65536 assignments |
| SessionSpec.NewSessionIsResumable | communication/src/dtls_message_channel.cpp:51-67 | after a handshake the new session can be resumed exactly when the old record was not used up |
| SessionSpec.ExpiryIsForever | communication/src/dtls_message_channel.cpp:90-100 | once a session has expired no later one is resumed |
| SessionSpec.ExpiryIsReached | communication/src/dtls_message_channel.cpp:90-103 | a new device gets there with a handshake and three restarts |
| DtlsChannel.SessionPersist.Clear | communication/inc/dtls_session_persist.h:188-194 | an invalid record is stored and the one in memory is no longer saved |
| DtlsChannel.SessionPersist.SaveTo | communication/inc/dtls_session_persist.h:177-184 | the record is stored exactly when it is marked persistent |
| DtlsChannel.SessionPersist.RestoreFrom | communication/inc/dtls_session_persist.h:160-175 | the record in memory is the stored one, if there is one |
| DtlsChannel.DtlsMessageChannel.CancelMoveSession | communication/src/dtls_message_channel.cpp:479-486 | exactly when the session was being moved the use count is set back to zero and the record saved |
| DtlsChannel.DtlsMessageChannel.ResetSession | communication/src/dtls_message_channel.cpp:256-261 | the session is closed and its record cleared |
| DtlsChannel.DtlsMessageChannel.Restore | communication/src/dtls_message_channel.cpp:79-155 | the record is used exactly when it is there, belongs to these keys and is not used up; every other case leaves it discarded |
| DtlsChannel.DtlsMessageChannel.PrepareSave | communication/src/dtls_message_channel.cpp:51-67 | a valid record of the new session that keeps the old use counter, and an invalid one when the handshake is not over |
| DtlsChannel.DtlsMessageChannel.Establish | communication/src/dtls_message_channel.cpp:347-419 | the device makes the step of establish, with the results for a failing setup, a resumed session, a handshake and a failed one |
| DtlsChannel.DtlsMessageChannel.NotifyEstablished | communication/src/dtls_message_channel.cpp:421-426 | from now on the record is saved |
| DtlsChannel.DtlsMessageChannel.Close | communication/src/dtls_message_channel.cpp:528-538 | the session is closed, and an invalid record is stored |
| DtlsChannel.DtlsMessageChannel.MoveSession | communication/src/dtls_message_channel.cpp:540-542 | the session is being moved |
| DtlsChannel.DtlsMessageChannel.LoadSession | communication/src/dtls_message_channel.cpp:544-546 | the record in memory is the stored one |
| DtlsChannel.DtlsMessageChannel.Save | communication/src/dtls_message_channel.cpp:549-551 | the record is stored if it is marked persistent |
| DtlsChannel.DtlsMessageChannel.Reboot | communication/inc/dtls_session_persist.h:101-109 | after a reboot nothing but the stored record is left |
| DtlsChannel.DtlsMessageChannel.Begin | communication/src/protocol.cpp:305-322 | a resumed session is moved at once |
| DtlsChannel.DtlsMessageChannel.Receive | communication/src/dtls_message_channel.cpp:428-472 | the device makes the step of what was read |
| DtlsChannel.DtlsMessageChannel.Send | communication/src/dtls_message_channel.cpp:488-521 | the device makes the step of a transmission: a new ID, the update of the record, or a reset; a direct transmission that fails is only reported |
| DtlsChannel.DtlsMessageChannel.Guarantees | communication/src/dtls_message_channel.cpp:347-521 | the theorems about sessions for the channel: its state is the run of all its events, reboots included |
| DtlsChannel.DtlsMessageChannel.GivenUpIsNotResumed | communication/src/dtls_message_channel.cpp:347-521 | once a session of the channel has been given up, no connection resumes one before a handshake has succeeded |

## Left out

- mbedTLS, RSA and key handling, the handshakes, CRC computation: calls into libraries; the block cipher is any invertible function, the check sum any function, the results of the calls are parameters.
- Describe messages, functions, variables, mesh commands, `Pinger`, `TimeSyncManager`, logging: glue with single-branch facts.
- Diagnostics: the send time of a message, round trip times and the counters of retransmitted and unacknowledged messages.
- Failing allocations: `INSUFFICIENT_STORAGE` from `CoAPMessage::create` does not occur.
- MessageStore.CoAPMessage.constructor: `message_count` is an unbounded integer and does not wrap at 16 bits; messages are at most 1500 bytes long, as the stored message itself demands.
- ReliableChannel.CoAPReliableChannel.SendSynchronous: the clock is taken to pass every time and to be read at least every 2^30 ms; without that the loop need not end.
- ReliableChannel.CoAPReliableChannel.Establish: what the channel below does is the subject of `DtlsChannel`; here its results follow a script.
- LightSslChannel.LightSslMessageChannel.BlockingSend: termination rests on the same assumption about the clock.
- ChunkedTransfer.ChunkedTransfer.HandleChunk: the result of `save_firmware_chunk` is ignored, as in the original; flash always takes what it is given. Options without a payload marker, offsets beyond an int and indices of valid chunks beyond the bitmap are excluded.
- ChunkedTransfer.ChunkedTransfer.HandleUpdateBegin: the bitmap is an array of its own, not the end of the channel buffer; the second call of the application leaves flash alone.
- `last_chunk_millis`, which nothing reads.
- LightSslChannel.LightSslMessageChannel.Receive: a header whose length is no positive multiple of 16 is excluded; `EndpointsAgree` shows that the peer never sends one.
- EventMessages.Event: strings are sequences of bytes without their terminator; a name or data with a zero byte inside does not exist there.
- Subscriptions.Subscriptions.HandleEvent: options that lie partly outside the message, or have the reserved length 15 inside the path, are excluded, and so are the messages whose terminators leave the buffer, for which the original writes there.
- Subscriptions.Subscriptions.RemoveEventHandlers: a comparison that leaves the filter is excluded; the original compares what lies behind it. `ComparisonStaysInside` says exactly when that happens.
- Sending the subscriptions to the cloud and the check sum over them.
- SessionSpec.StepKeepsInv: every call is atomic and every save succeeds; a failing restore leaves the record in memory alone; the key material is the number of the handshake that made it.
- SessionSpec.ExpiryIsForever: the context can be set up at every connection; a device that fails to do so after a restart and then closes the channel stores a record with a use count of zero.
- The connection data, record counters and application state check sums in the persisted record.
