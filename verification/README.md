# Network labs: models and proofs

Dafny models of the hard parts of the repository, written from its C sources, with their properties proved for all inputs
and all runs. `dafny verify dfyconfig.toml` checks everything.

## What is modelled

**KTP, the sliding-window transport** (`Lab 4 Final`). A message socket with ten send slots, ten receive slots and
sequence numbers on the ring 1 to 255, over a network that may lose, repeat and reorder.

- `KtpBase`, `KtpSender`, `KtpReceiver`: constants, frames, and the two halves of a socket entry as functions on values,
  with their invariants. The sender's abstract view is the queue of unacknowledged frames.
- `KtpEntry`: the shared-memory entry as a class with arrays; every critical section of `sem_SM` is a method with the
  loops of the source, proved equal to the function of the same step.
- `Stutter`: ordered delivery with repeats, shared with stop-and-wait KTP.
- `KtpProtocol`: the two endpoints of user1 and user2 and the network. The wire is the set of all frames ever sent, so one
  step may receive any of them at any time; the clock value of a tick and the simulated drop are free.
- `KtpGuarantees`: what every run guarantees. `KtpStall`: when a closed window can reopen. `KtpFinish`: from
  which states everything queued can still be delivered. `KtpLimits`, `KtpLap` and `KtpWedge`: concrete runs that show
  where each guarantee ends.
- `KtpFileCopy`: the chunking and reassembling loops of user1 and user2, alone and on top of the protocol.

**Stop-and-wait KTP** (`Lab 4/asg4`). `StopAndWait` has the frames and the retransmit-until-acknowledged loop on a class
with the one-byte sequence number; `StopAndWaitRun` runs it over two channels that keep order but lose and repeat.

**Mailbox** (`Lab 6`). `MailText` models `fprintf` and `fgets`; `MailReaders` the two line parsers with their loops;
`MailboxReadBack` when they give the stored messages back; `MailSession` one session's state machine on values;
`MailServer` the same as classes updated in place; `MailRuns` any number of sessions over one directory,
interleaved line by line; `MailThreads` the one position of `strtok` that their threads share.

**CLDP checksum** (`Lab 7`). `InternetChecksum` has the accumulator loop against the end-around-carry sum of RFC 1071;
`CldpHeader` the IPv4 header of RFC 791, section 3.1: verification, the server's rewriting, the client's check.

**Task queue** (`Lab 5`). `TaskTable` has the locked operations in place and one pass of a handler's loop; `TaskRuns` any
interleaving of any number of handlers and the main loop.

## Where the code and its own words differ

The model follows the code.

- The retransmission loop of thread S (`Lab 4 Final/initksocket.c:375-393`) lacks the index test of its twin at line 413:
  with a window larger than the backlog it indexes the send buffer with -1. The model calls that step undefined.
- The comment at `Lab 4 Final/initksocket.c:275-276` says an early frame is stored when received for the first time. The
  flag it tests is never cleared by that branch, so an early frame can be accepted again; it then is delivered twice.
- The branch that answers an already received frame (`Lab 4 Final/initksocket.c:190-213`) stands inside the test for the
  expected number: a frame already accepted is never acknowledged again, and a transfer whose acknowledgements were all
  lost can wait for ever.
- `get_next_task` (`Lab 5/task_queue_server.c:105-113`) is commented as testing whether this client has a task; it tests
  whether any client has one.
- The message at `Lab 5/task_queue_server.c:286` speaks of tasks not completed; completed ones are cleared as well.
- `handle_data_content` (`Lab 6/mysmtp_server.c:285-287`) reports a message as stored even when its file could not be opened.
- `handle_client` (`Lab 6/mysmtp_server.c:149-162`) is commented as splitting its own data by lines; all threads split with one
  `strtok`, and a call of another thread in between makes a session go on with that thread's lines.

## Model

| member | source | states |
|---|---|---|
| KtpSender.SendToKeeps | Lab 4 Final/ksocket.c:84-133 | k_sendto is refused exactly when the message is longer than 509 bytes or all ten slots are outstanding, and then changes nothing; otherwise the outstanding queue grows by one frame at its end that carries the message under the next sequence number, and the sender invariant is kept |
| KtpSender.EnqueueAppends | Lab 4 Final/ksocket.c:113-128 | storing a frame in any free slot leaves the frames of all older sequence numbers alone and appends the new one to the abstract queue |
| KtpSender.ProcessAckDrops | Lab 4 Final/initksocket.c:150-164 | acknowledgement processing refines a queue drop: the ring loop ends, exactly the messages up to the acknowledged one leave the front of the queue, the bijection between outstanding numbers and occupied slots survives, and an old acknowledgement changes only the window size |
| KtpSender.ReleaseKeeps | Lab 4 Final/initksocket.c:154-164 | the release loop is always defined up to any stop inside the outstanding range and drops exactly that many frames |
| KtpSender.RetransmitKeeps | Lab 4 Final/initksocket.c:375-393 | the retransmission loop, which has no index test, is defined exactly while it stays inside the outstanding range, and then sends that stretch of the queue once each |
| KtpSender.FirstSendNew | Lab 4 Final/initksocket.c:402-428 | from the first unsent message on, the first-send loop sends a contiguous stretch of the queue, limited by the window, the backlog and the wrap of the ring |
| KtpSender.FirstSendSkips | Lab 4 Final/initksocket.c:411-428 | the first-send loop walks over every message already sent without sending or stamping anything |
| KtpSender.TickKeeps | Lab 4 Final/initksocket.c:359-430 | one tick times out exactly when some outstanding message was sent five seconds ago or earlier; it is undefined exactly when a timeout meets a window larger than the backlog; otherwise it changes time stamps only, transmits one stretch of at most window many outstanding frames, and the messages sent at least once stay a prefix of the queue that overshoots the window by at most one |
| KtpSender.TickOverdue | Lab 4 Final/initksocket.c:362-394 | with a message overdue, a tick sends exactly the first messages of the queue, as many as the window says, stamps those with the present time and no other |
| KtpSender.TickNew | Lab 4 Final/initksocket.c:398-428 | with none overdue, a tick sends exactly the next messages that were never sent, as many as window and backlog allow, stamps those with the present time and no other |
| KtpSender.ResendsExactlyWhenOverdue | Lab 4 Final/initksocket.c:364-394 | a message is sent again if and only if some outstanding message was sent five seconds ago or earlier |
| KtpSender.AckExactly | Lab 4 Final/initksocket.c:141-162 | any six-byte acknowledgement, genuine or not: out of range it changes nothing; for a queued number it is processed; for a number never queued it runs into an empty index, unless it is 255 and nothing was ever released |
| KtpReceiver.MinSlot | Lab 4 Final/ksocket.c:165-183 | the scan finds the first occupied slot with a least sequence number, or none exactly when all are free |
| KtpReceiver.DeliverKeeps | Lab 4 Final/ksocket.c:165-212 | k_recvfrom returns nothing exactly when every stored number is above the expected one; otherwise it returns the last number again or exactly the next one, with the payload queued for it, and that one copy leaves its slot |
| KtpReceiver.AcceptKeeps | Lab 4 Final/initksocket.c:180-258 | an in-order frame finds a free slot, moves the expected number by exactly one, uses one unit of credit and keeps everything accepted but undelivered stored |
| KtpReceiver.StoreEarlyKeeps | Lab 4 Final/initksocket.c:261-304 | a frame stored out of order overwrites nothing and keeps the receiver invariant |
| KtpReceiver.ReceiveDataKeeps | Lab 4 Final/initksocket.c:171-312 | any genuine data frame, whichever branch it takes, keeps the receiver invariant; it is acknowledged exactly when the expected number advances, every acknowledgement names the last accepted number with a window of 0 to 10, and a window that closes sets the no-space flag |
| KtpReceiver.ReceiveDataCopies | Lab 4 Final/initksocket.c:180-304 | a frame that is accepted or stored early adds one stored copy of its own number; no frame changes the copies of another |
| KtpReceiver.TakesExactly | Lab 4 Final/initksocket.c:180-304 | a genuine frame is accepted if and only if it is the expected one and a slot is free; it is stored out of order if and only if it is no further ahead than there are slots in use, these numbers do not pass the end of the ring, and its slot is free |
| KtpReceiver.TakenInto | Lab 4 Final/initksocket.c:215-257 | a frame that is taken goes whole into one free slot, the first one if it was expected, is found there by its number, and sets the no-space flag if that was the last; a frame that is not taken changes nothing |
| KtpReceiver.AnswersExactly | Lab 4 Final/initksocket.c:190-250 | a frame that is not accepted is not acknowledged; an accepted one is acknowledged with the free slots that remain and, if and only if its number was stored already, before that with the free slots there were |
| KtpReceiver.CreditIsExact | Lab 4 Final/initksocket.c:217-237 | rwnd.size is the number of free slots in every reachable state: an in-order frame always finds a slot, an early frame's computed slot is 0 to 9, delivery never reaches the clamp to 10, and every advertised window is the free count before or after the store |
| KtpReceiver.DeliverCredit | Lab 4 Final/ksocket.c:207-212 | delivery returns exactly one unit of credit, without the clamp |
| KtpReceiver.ScanKeeps | Lab 4 Final/initksocket.c:82-105 | the no-space scan emits an acknowledgement exactly when it clears the flag, naming the last accepted number with a positive window |
| KtpProtocol.StepKeepsInv | Lab 4 Final/initksocket.c:117-431 | the joint invariant of both endpoints and the network is kept by each of the five critical sections, for any frame or acknowledgement ever sent |
| KtpProtocol.TickKeepsInv | Lab 4 Final/initksocket.c:359-430 | thread S puts only genuine copies of queued messages on the wire and keeps the joint invariant |
| KtpProtocol.GetAckKeepsInv | Lab 4 Final/initksocket.c:133-167 | an acknowledgement from the wire, however old, can always be processed and keeps the joint invariant |
| KtpProtocol.GetDataKeepsInv | Lab 4 Final/initksocket.c:171-312 | a frame from the wire, however old or often repeated, keeps the joint invariant |
| KtpProtocol.ReceiveKeepsInv | Lab 4 Final/ksocket.c:165-212 | k_recvfrom keeps the joint invariant and the order of everything delivered |
| KtpGuarantees.Reachable | Lab 4 Final/initksocket.c:473-503 | the joint invariant holds after every run from the state init_ksocket leaves, of any length, with at most 254 messages queued |
| KtpGuarantees.DeliveredInOrder | Lab 4 Final/ksocket.c:165-212 | over a network that loses, duplicates and reorders, deliveries start with message 1, each repeats the last or is the next one with the payload queued for it, and removing the repeats leaves a prefix of what was queued |
| KtpGuarantees.DeliveriesCounted | Lab 4 Final/initksocket.c:288-302 | every message below the last one delivered was delivered exactly once plus once for each time the out-of-order branch stored it, so it was delivered more than once if and only if it was ever stored early |
| KtpGuarantees.DeliveredOnce | Lab 4 Final/initksocket.c:180-304 | while the out-of-order branch has stored nothing, the deliveries are exactly messages 1, 2, 3, ... once each |
| KtpGuarantees.DeliveredOnceInGoBackN | Lab 4 Final/initksocket.c:180-304 | in runs where a later frame than the expected one reaches the receiver only when it lies beyond the bound at line 261, the expected number plus the slots in use, and old duplicates arrive at any time, the deliveries are exactly 1, 2, 3, ... without repeats |
| KtpGuarantees.NothingLost | Lab 4 Final/initksocket.c:150-164 | sender base <= receiver start <= sender's next number always, every acknowledgement on the wire names an accepted number, and each queued message is whole in a send slot, or stored at the receiver, or delivered |
| KtpGuarantees.AcksNeverGetStuck | Lab 4 Final/initksocket.c:154-162 | any acknowledgement ever sent can be processed in any reachable state: the release loop never indexes with -1 |
| KtpGuarantees.TickPossible | Lab 4 Final/initksocket.c:375-393 | in a reachable state a tick of thread S is defined exactly when no timeout meets a window larger than the backlog |
| KtpGuarantees.TickSendsExactly | Lab 4 Final/initksocket.c:359-430 | in every reachable state: if some outstanding message was sent five seconds ago or earlier, a tick puts the first messages of the window on the wire again; if not, only messages never sent before |
| KtpGuarantees.FrameAnsweredExactly | Lab 4 Final/initksocket.c:180-304 | in every reachable state: which acknowledgements a frame from the wire gets, two if and only if its number was stored out of order and is stored still, and if and only if when it is stored out of order itself |
| KtpGuarantees.ReceiveAlwaysEnds | Lab 4 Final/initksocket.c:254-257 | in a reachable state the loop that opens the next sequence number always ends |
| KtpGuarantees.WindowTracked | Lab 4 Final/initksocket.c:150-151 | with acknowledgements in order and without loss, the sender's window is the last one it read, and a last emitted window of 0 means the receiver's flag is set |
| KtpGuarantees.ZeroWindowRemembered | Lab 4 Final/initksocket.c:228-250 | a sender that has read everything and still sees a closed window has a receiver whose no-space flag is set |
| KtpGuarantees.FlagClearedOnlyByAnnouncing | Lab 4 Final/initksocket.c:82-104 | the no-space flag is cleared by nothing but an acknowledgement that advertises the positive free count |
| KtpLap.SafeExactlyUpTo254 | Lab 4 Final/initksocket.c:152 | ordered delivery over all runs that queue at most n messages holds if and only if n <= 254: the plain maximum and minimum do not survive a lap of the ring |
| KtpLap.LapBreaksOrder | Lab 4 Final/ksocket.c:172 | a concrete run with 255 messages in which the first message is delivered again in place of the 255th |
| KtpLimits.RetransmissionCanBeUndefined | Lab 4 Final/initksocket.c:375-377 | a reachable state with one message outstanding in which the retransmission loop indexes the send buffer with -1 |
| KtpStall.StallIsForever | Lab 4 Final/initksocket.c:371-374 | once the sender sees a closed window, the receiver's flag is clear and every frame on the wire is old, nothing is put on the wire by any continuation that reads no earlier acknowledgement again |
| KtpStall.ReopensUnlessStuck | Lab 4 Final/initksocket.c:82-104 | in every reachable state with a closed window, some continuation that reads only acknowledgements still to be sent reopens it if and only if the transfer is neither stalled nor its receiver wedged |
| KtpStall.ReopensUnlessStalled | Lab 4 Final/initksocket.c:82-104 | without early stores that is: if and only if the transfer is not stalled |
| KtpStall.WedgeIsForever | Lab 4 Final/ksocket.c:185-191 | a receiver whose ten slots all hold numbers above the expected one never delivers, stores or acknowledges anything again |
| KtpStall.WedgeNeedsEarly | Lab 4 Final/initksocket.c:282-302 | such a receiver holds nothing but numbers that were stored out of order, so without early stores it cannot arise |
| KtpFinish.AlwaysAckInv | Lab 4 Final/initksocket.c:190-250 | in every reachable state the latest acknowledgement names the last accepted number, a latest window of 0 comes with the no-space flag set, the first one ever advertised at least nine slots, and nothing was stored early that was not sent |
| KtpFinish.FinishesUnlessWedged | Lab 4 Final/initksocket.c:117-431 | from any reachable state some continuation delivers everything queued so far if and only if the receiver is not wedged |
| KtpFinish.FinishesUnlessStuck | Lab 4 Final/initksocket.c:180-312 | without hearing any earlier acknowledgement again, some continuation delivers everything queued so far if and only if the receiver is not wedged and the transfer is not starved, that is: waiting for a queued message with nothing to announce, every frame on the wire already accepted and so never acknowledged again, and the sender's window ending before the awaited number |
| KtpFinish.StarvedForEver | Lab 4 Final/initksocket.c:305-311 | a starved transfer stays starved, whatever is retransmitted or queued, until an earlier acknowledgement is heard again |
| KtpWedge.StarvedReachable | Lab 4 Final/initksocket.c:180-312 | a concrete run of 12 messages, all frames received, in which the loss of one window's acknowledgements starves the transfer with the sender's window open at 8 |
| KtpWedge.WedgeReachable | Lab 4 Final/initksocket.c:282-302 | a concrete run of 13 messages that wedges the receiver after delivering four |
| KtpLimits.ReopeningCanBeLost | Lab 4 Final/initksocket.c:82-104 | that stall is reachable by leaving a single window announcement unread |
| KtpLimits.EarlyStoreCanRepeat | Lab 4 Final/initksocket.c:282-302 | a concrete run with one early store that delivers 1, 2, 3, 4, 5, 5 |
| KtpEntry.SharedMemoryEntry.constructor | Lab 4 Final/initksocket.c:473-503 | a fresh entry is the initial sender and the initial receiver |
| KtpEntry.SharedMemoryEntry.KSendTo | Lab 4 Final/ksocket.c:84-133 | in place on the slot arrays: equals the sender's k_sendto, receiver half unchanged |
| KtpEntry.SharedMemoryEntry.KRecvFrom | Lab 4 Final/ksocket.c:165-216 | in place: equals the receiver's delivery, returns the text before the first NUL, sender half unchanged |
| KtpEntry.SharedMemoryEntry.FindLeast | Lab 4 Final/ksocket.c:166-183 | the scan loop returns the slot and number of a least stored sequence number, 257 when there is none |
| KtpEntry.SharedMemoryEntry.ReceiveAck | Lab 4 Final/initksocket.c:137-164 | in place: equals the sender's acknowledgement processing, including when it is undefined |
| KtpEntry.SharedMemoryEntry.ReleaseThrough | Lab 4 Final/initksocket.c:154-164 | the release loop on the arrays ends and equals the queue drop |
| KtpEntry.SharedMemoryEntry.Tick | Lab 4 Final/initksocket.c:359-430 | in place: equals one tick of the sender, frames sent included |
| KtpEntry.SharedMemoryEntry.RetransmitWindow | Lab 4 Final/initksocket.c:368-393 | the retransmission loop equals its specification and reports the missing index |
| KtpEntry.SharedMemoryEntry.SendNew | Lab 4 Final/initksocket.c:402-428 | the first-send loop equals its specification |
| KtpEntry.SharedMemoryEntry.ReceiveFrame | Lab 4 Final/initksocket.c:171-312 | in place: ends exactly when the frame is not accepted in order or leaves some number of the ring open, and then equals the receiver's reaction, acknowledgements included |
| KtpEntry.SharedMemoryEntry.AcceptFrame | Lab 4 Final/initksocket.c:190-257 | the in-order branch ends exactly when some other number is open, and then equals its specification, acknowledgements in order |
| KtpEntry.SharedMemoryEntry.AdvanceStart | Lab 4 Final/initksocket.c:254-257 | the loop over accepted numbers ends exactly when some number of the ring is not accepted, and stops at the first such number |
| KtpEntry.SharedMemoryEntry.StoreIfMissingEarlier | Lab 4 Final/initksocket.c:264-303 | the out-of-order branch equals its specification |
| KtpEntry.SharedMemoryEntry.ScanNoSpace | Lab 4 Final/initksocket.c:82-105 | the no-space scan equals its specification |
| KtpFileCopy.SendFile | Lab 4 Final/user1.c:38-52 | the read-and-send loop hands over the file's 509-byte chunks and then the end marker |
| KtpFileCopy.ChunkSizes | Lab 4 Final/user1.c:38-52 | every chunk but the last has 509 bytes |
| KtpFileCopy.ReceiveFile | Lab 4 Final/user2.c:38-64 | the receive-and-append loop over the reused buffer equals its specification, end-marker test included |
| KtpFileCopy.CopyExact | Lab 4 Final/user2.c:48-62 | if everything user1 sends is returned by k_recvfrom, user2's output is the file exactly when the file has no NUL byte and no chunk makes the reused buffer begin with EOF |
| KtpFileCopy.MarkerCutsShort | Lab 4 Final/user2.c:48-51 | a chunk that looks like the marker ends the copy with a strictly shorter output |
| KtpFileCopy.ReadDelivered | Lab 4 Final/user2.c:38-64 | over any ordered deliveries with repeats, user2's output is every chunk as often as it was delivered, and it leaves its loop exactly with the marker |
| KtpFileCopy.FileCopied | Lab 4 Final/user1.c:38-52 | end to end over the protocol: once user2 has left its loop its output is the file if and only if no chunk was ever stored out of order; as long as none was, its output is a prefix of the file |
| StopAndWait.FrameRoundTrip | Lab 4/asg4/ksocket.c:159-170 | every data frame is unframed to the very message, fits the receive buffer, and its acknowledgement matches its own number only |
| StopAndWait.ControlExactly | Lab 4/asg4/ksocket.c:119-158 | which messages bypass the framing, and that the receiver hands each of them over as it is |
| StopAndWait.DataExactly | Lab 4/asg4/ksocket.c:254-306 | a payload is taken from a packet if and only if the packet was not dropped and begins with the data frame of that payload |
| StopAndWait.ReceivedExactly | Lab 4/asg4/ksocket.c:241-290 | packets that start with EOF or FIN are handed over and never dropped; of the others, dropped or short ones fail, other kinds are handed over, and data is acknowledged with its own number |
| StopAndWait.AcknowledgesExactly | Lab 4/asg4/ksocket.c:206-216 | a packet ends the wait if and only if it is a frame of the acknowledgement kind with the awaited number |
| StopAndWait.KSocket.KSendTo | Lab 4/asg4/ksocket.c:119-223 | the retransmit-until-acknowledged loop: control messages go out once unframed, oversized ones fail, data is sent once per event under an unchanged number that advances modulo 256 only on success |
| StopAndWait.ReturnsExactlyOnMatch | Lab 4/asg4/ksocket.c:171-223 | k_sendto transmits once per event up to the first that ends its loop: it returns exactly when that event acknowledges its own number, fails exactly when it is an error of select, and waits exactly when there is none |
| StopAndWaitRun.MatchIsGenuine | Lab 4/asg4/ksocket.c:206-214 | in every state of the invariant an acknowledgement in flight matches the one-byte number exactly when it belongs to the current message: wrap-around never causes a false match |
| StopAndWaitRun.StepKeepsInv | Lab 4/asg4/ksocket.c:166-310 | what is in flight belongs to the current or the previous message, in order, kept by every send, timeout, arrival, loss and repetition |
| StopAndWaitRun.Reachable | Lab 4/asg4/ksocket.c:166-310 | that invariant holds after every run, for any number of messages |
| StopAndWaitRun.OneEventEach | Lab 4/asg4/ksocket.c:173-222 | in every run transmissions and events of the sender alternate: a timeout or an acknowledgement of another number is followed by another transmission |
| StopAndWaitRun.DeliveredBeforeReturn | Lab 4/asg4/ksocket.c:255-310 | with repeats removed the deliveries are a prefix of the messages that contains every message whose k_sendto has returned, and at most one more |
| StopAndWaitRun.PatientDeliversOnce | Lab 4/asg4/ksocket.c:166-310 | while no call has timed out and no channel has repeated a packet, messages 0, 1, 2, ... are delivered exactly once each |
| StopAndWaitRun.AlwaysFinishes | Lab 4/asg4/ksocket.c:177-229 | from every reachable state some continuation without further faults lets every call of k_sendto return, and all messages have then been delivered in order |
| StopAndWaitRun.RepeatsUnlessFinished | Lab 4/asg4/ksocket.c:192-197 | in every reachable state some continuation delivers a message twice in a row if and only if a call is still to return or a frame is in flight; timeouts alone suffice |
| MailText.FirstLine | Lab 6/mysmtp_server.c:367-369 | fgets with its 1024-byte buffer returns a line of at most 1022 characters whole and cuts a longer one after 1023 |
| MailText.ReadBack | Lab 6/mysmtp_server.c:328-331 | printed lines are read back as they were if and only if none is longer than 1022 characters |
| MailText.SavedAppends | Lab 6/mysmtp_server.c:314-331 | appending one printed message to a mailbox file appends exactly its lines |
| MailReaders.List | Lab 6/mysmtp_server.c:360-395 | the loop of handle_list over the file, with its nested read and its separator test on the overwritten line, equals the list specification |
| MailReaders.Get | Lab 6/mysmtp_server.c:424-462 | the loop of handle_get_mail over the file equals the search specification |
| MailboxReadBack.ListExact | Lab 6/mysmtp_server.c:367-395 | handle_list prints exactly the stored messages, in order, if and only if no body has a "From: " line after a separator line |
| MailboxReadBack.FoundExactly | Lab 6/mysmtp_server.c:436-448 | the search for message id stops at that message's own first line if and only if no earlier body has a "From: " line |
| MailboxReadBack.GetExact | Lab 6/mysmtp_server.c:431-462 | handle_get_mail finds message id in its place and answers with exactly its lines if and only if no earlier body has a "From: " line and its own body has no separator line |
| MailboxReadBack.ReadersAgree | Lab 6/mysmtp_server.c:367-462 | on tidy mailboxes the two readers agree on every id: one entry a message, the same sender and date, and nothing found beyond the last |
| MailSession.TokensOfWeave | Lab 6/mysmtp_server.c:149-162 | strtok finds exactly the lines of a chunk, in order, whatever carriage returns and newlines lie between and around them |
| MailSession.ChunkIsWeave | Lab 6/mysmtp_server.c:149-162 | every chunk is its lines with nothing but carriage returns and newlines between and around them, and no line is empty or has one |
| MailSession.HandledInTurn | Lab 6/mysmtp_server.c:149-162 | each line is handled in the state the lines before it left, and the answers come in that order |
| MailServer.ClientSession.HandleChunk | Lab 6/mysmtp_server.c:147-162 | the line loop over one received chunk, run without a call of strtok by another thread in between: the session, the mailbox files and all replies equal the line-by-line specification |
| MailThreads.StrtokTakes | Lab 6/mysmtp_server.c:150-161 | one call of strtok returns the first line of the text behind the saved position and leaves the others there |
| MailThreads.ExactUnlessDisturbed | Lab 6/mysmtp_server.c:150-161 | whatever the chunks hold, a session's calls return exactly the lines of its chunk and then nothing, if and only if no other session calls strtok between its first call and its last |
| MailThreads.HeardAlone | Lab 6/mysmtp_server.c:140-163 | in the server, a session whose loop no other session's call interrupts handles the lines of its chunk in order, and its loop ends exactly after all of them |
| MailThreads.LinesCross | Lab 6/mysmtp_server.c:115-161 | in any state, for any four lines: two sessions that make their first calls before their second ones leave the first session handling a line of the other, and its own second line handled by nobody |
| MailThreads.RunsOverLines | Lab 6/mysmtp_server.c:134-170 | every run of the threads, lines crossed or not, is for sessions and mailboxes a run over single lines, so the invariant of MailRuns.AlwaysInv holds |
| MailServer.ClientSession.SaveEmail | Lab 6/mysmtp_server.c:309-334 | the four prints append exactly the message text, or nothing when the file cannot be opened |
| MailServer.ClientSession.HandleList | Lab 6/mysmtp_server.c:337-399 | LIST in place equals its specification, errors included |
| MailServer.ClientSession.HandleGetMail | Lab 6/mysmtp_server.c:402-475 | GET_MAIL in place equals its specification, errors and overruns of its two arrays included |
| MailRuns.SessionKeeps | Lab 6/mysmtp_server.c:173-306 | every line keeps the session invariant: sender and recipient are the addresses it was told last, DATA mode only with both, buffer below 4096 characters and equal to the lines since the accepted DATA |
| MailRuns.AddressesKept | Lab 6/mysmtp_server.c:235-276 | the sender is always the first 99 characters behind the last MAIL FROM with an @ that was handled outside DATA mode, and the recipient the same of RCPT TO; no other line changes either |
| MailRuns.AddressTaken | Lab 6/mysmtp_server.c:235-276 | an address is taken and answered 200 if and only if it has an @, else answered 400 and nothing changes |
| MailRuns.DataAccepted | Lab 6/mysmtp_server.c:250-261 | DATA is accepted if and only if both addresses are known |
| MailRuns.HeloAnswered | Lab 6/mysmtp_server.c:213-225 | HELO is answered 200 if and only if it names somebody |
| MailRuns.OtherLines | Lab 6/mysmtp_server.c:173-210 | a line that is no command is answered 400 and changes nothing |
| MailRuns.LineCollected | Lab 6/mysmtp_server.c:279-306 | a line of a message is collected if and only if all lines since DATA come to at most 4094 characters with it; otherwise it is answered 500 and ends DATA mode |
| MailRuns.AlwaysInv | Lab 6/mysmtp_server.c:134-334 | in every run of any number of sessions, their lines interleaved in any order, that invariant holds, and each mailbox file is exactly the messages saved in it, each with the addresses its session was told last and precisely the lines it handled since its accepted DATA |
| MailRuns.MessageStored | Lab 6/mysmtp_server.c:250-306 | after an accepted DATA all lines are collected if and only if their text is at most 4094 characters; the dot is then answered as stored in any case, and appends exactly that message to the recipient's file if and only if the file can be opened |
| MailRuns.MessageSent | Lab 6/mysmtp_server.c:235-331 | a whole message: MAIL FROM and RCPT TO with two addresses, DATA, the lines and the dot append exactly that message, with its sender, to its recipient's mailbox |
| MailRuns.FileReadBack | Lab 6/mysmtp_server.c:328-331 | in every reachable state a mailbox file reads back as the lines of its saved messages if and only if no body line is longer than 1022 characters |
| MailRuns.ContentSize | Lab 6/mysmtp_server.c:428-460 | the answer for a message takes 24 characters, its address, its date, its text and one more for each line |
| MailRuns.MailboxAnswers | Lab 6/mysmtp_server.c:337-475 | in every reachable state, for a recipient with tidy messages: LIST answers exactly the saved messages, and not found exactly when there was never one; GET_MAIL answers exactly the message, not found exactly beyond the last, and overruns exactly with an address of 100 characters or an answer of 4096 |
| MailRuns.NotFoundExactly | Lab 6/mysmtp_server.c:337-355 | in every reachable state LIST refuses exactly a name without an @ and answers not found if and only if no message was ever saved for an address; GET_MAIL with a positive id then answers the same |
| MailRuns.TargetScanned | Lab 6/mysmtp_server.c:404-460 | an address without white space and any decimal id, written in one GET_MAIL line, are read back as that pair; the answer overruns an array if and only if the address has 100 characters or more or the message found is too long, and is 400 if and only if a shorter address has no @ or the id is 0 |
| MailRuns.NegativeRefused | Lab 6/mysmtp_server.c:406-410 | a negative id, or none, is answered 400 |
| InternetChecksum.Calculate | Lab 7/cldp_server.c:332-346 | the accumulator loop with 32-bit wrap-around, odd last byte, two folds and complement equals the checksum of the buffer's native words |
| InternetChecksum.FoldIsRep | Lab 7/cldp_server.c:342-344 | two folds of any 32-bit sum always suffice: the result is the one's complement representative, congruent modulo 65535 and zero only for zero |
| InternetChecksum.ChecksumIsRfc1071 | Lab 7/cldp_server.c:332-346 | for up to 65537 words the result is the complement of the end-around-carry sum of RFC 1071, and all ones exactly for an all-zero buffer |
| InternetChecksum.CorrectExactlyUpTo | Lab 7/cldp_server.c:335-339 | the checksum is right for every buffer of n words if and only if n <= 65537: the accumulator bound is tight |
| InternetChecksum.OnesSumSwap | Lab 7/cldp_server.c:338-344 | swapping the bytes of every word swaps the bytes of the end-around-carry sum |
| InternetChecksum.ByteOrderIndependent | Lab 7/cldp_client.c:225-239 | section 2 (B) of RFC 1071: little-endian and big-endian hosts store the same two checksum bytes for any even-length buffer within the bound |
| CldpHeader.Verify | Lab 7/cldp_server.c:138-147 | verification in place: accepts exactly by recomputation, and leaves the buffer with the field cleared |
| CldpHeader.AcceptsIsRfcTest | Lab 7/cldp_server.c:138-143 | recompute-and-compare accepts a header if and only if it passes the sum test of RFC 1071 and a received field of 0xFFFF comes with an otherwise zero header |
| CldpHeader.DamageFound | Lab 7/cldp_server.c:138-147 | an accepted header changed in one word is accepted again if and only if the word went from 0 to 0xFFFF or back, the header is not all zero, and a field of 0xFFFF stands in an otherwise zero header |
| CldpHeader.AnsweredExactly | Lab 7/cldp_server.c:131-160 | the server answers a packet if and only if it is a CLDP query to its address whose header passes the test of RFC 1071, a field of 0xFFFF only in an otherwise zero header |
| CldpHeader.DamagedNotAnswered | Lab 7/cldp_server.c:138-147 | a query whose header was changed in one word is answered only if the word went from 0 to 0xFFFF or back |
| CldpHeader.TakenExactly | Lab 7/cldp_client.c:308-355 | the client takes a packet if and only if it is a CLDP packet to its address from another host whose header passes that test |
| CldpHeader.ReplyChecksumChange | Lab 7/cldp_server.c:210-214 | between a query and an answer to it that both pass the test of RFC 1071, the checksums differ modulo 65535 by exactly the changes of total length and identification, because the address swap permutes words |
| CldpHeader.ReplyTurns | Lab 7/cldp_server.c:163-214 | the rewriting of a query addressed to this server is such an answer: it turns the addresses round, writes length and identification in network order, keeps the other words, and its checksum is accepted |
| CldpHeader.Answer | Lab 7/cldp_server.c:131-226 | the server's handling of one packet in its buffer: replies if and only if protocol, type, address and the test of RFC 1071 are right, otherwise changes at most the checksum field; the sent bytes are given in full |
| CldpHeader.WriteReply | Lab 7/cldp_server.c:210-226 | the reply written over a verified query: header, CLDP header and metadata |
| CldpHeader.Readdress | Lab 7/cldp_server.c:210-214 | the in-place rewriting of the header, checksum recomputed over the cleared field |
| CldpHeader.QueryIsAnswered | Lab 7/cldp_client.c:257-355 | a query as send_query builds it is taken by the server it names, and the reply passes the checks of the client that sent it if and only if client and server are different hosts; both headers also pass the test of RFC 1071 |
| CldpHeader.ReplyTaken | Lab 7/cldp_client.c:308-355 | the client's tests of address, protocol, checksum and source accept a rewritten query exactly when the server is another host |
| TaskTable.SharedData.constructor | Lab 5/task_queue_server.c:74-93 | loading takes the first 100 descriptions, all free and unowned |
| TaskTable.SharedData.GetNextTask | Lab 5/task_queue_server.c:101-129 | busy while any client's task is assigned, otherwise the first free task is given to the caller, all before it being completed, otherwise none; nothing else changes |
| TaskTable.GivesFirstFree | Lab 5/task_queue_server.c:101-129 | a request gets busy if and only if a task is assigned, none if and only if all are completed, and otherwise the first free task, which alone changes |
| TaskTable.SharedData.CompleteTask | Lab 5/task_queue_server.c:132-140 | marks exactly the given task completed and keeps its owner |
| TaskTable.SharedData.ClearAssignedTasks | Lab 5/task_queue_server.c:143-155 | frees exactly the tasks recorded for the client, completed ones included |
| TaskTable.SharedData.AllTasksCompleted | Lab 5/task_queue_server.c:158-175 | true exactly when every task is completed |
| TaskTable.Handler.Once | Lab 5/task_queue_server.c:193-305 | one pass of the handler loop equals its specification on the table, the current task, the reply and whether it goes on |
| TaskRuns.PassIsStep | Lab 5/task_queue_server.c:193-305 | each pass of a handler is one step of the interleaving model |
| TaskRuns.StepKeeps | Lab 5/task_queue_server.c:101-291 | the mutual-exclusion invariant is kept by every critical section of every handler and of the main loop |
| TaskRuns.AlwaysInv | Lab 5/task_queue_server.c:101-291 | for any number of clients and any interleaving: at most one task is assigned, a task is free exactly when unowned, and a live handler's current task is i exactly when task i is assigned to it |
| TaskRuns.BusyForOthers | Lab 5/task_queue_server.c:105-113 | in every reachable state a client without a task is answered busy if and only if some other client's task is assigned |
| TaskRuns.RepliesExactly | Lab 5/task_queue_server.c:216-278 | in every reachable state, each answer if and only if: the description of the very task that is the client's from now on, busy, no tasks, result received, shutting down |
| TaskRuns.TableExactly | Lab 5/task_queue_server.c:196-291 | in every reachable state, when a pass frees, gives away or finishes a task, each if and only if, and when the handler ends |
| TaskRuns.DescriptionsKept | Lab 5/task_queue_server.c:74-155 | no task's description ever changes |
| TaskRuns.ShutdownAfterCompletion | Lab 5/task_queue_server.c:402-409 | past the check every task stays completed through the run if and only if no client with a recorded task closes its connection after the check |
| TaskRuns.LateDisconnectLosesWork | Lab 5/task_queue_server.c:282-290 | a concrete run in which the server shuts down with its only task free again |
| TaskRuns.CompletedStays | Lab 5/task_queue_server.c:132-155 | no step but a zero-byte disconnect changes a completed task, and that frees exactly the tasks recorded for its client |
| TaskRuns.CompletedForever | Lab 5/task_queue_server.c:132-140 | in any stretch of a run without zero-byte disconnects completed tasks never revert |
| TaskRuns.LeavingOrphans | Lab 5/task_queue_server.c:209-231 | a handler that ends by exit, failed recv or shutdown leaves an assigned task without a handler exactly when it was holding one |
| TaskRuns.OrphanForever | Lab 5/task_queue_server.c:106-113 | such a task stays assigned in every continuation, no task is ever given out again, and no check succeeds |
| TaskRuns.CanShutDownUnlessOrphaned | Lab 5/task_queue_server.c:400-415 | while the server is accepting, some continuation reaches the shutdown if and only if there is a task and none is orphaned |

## Left out

KTP (`Lab 4 Final`):

- Both guarantees of order are stated for at most 254 queued messages; that this bound is exact is proved.
- Traffic flows from one entry to the other only, as in user1 and user2: `last_ack_received` is written by both roles.
- Entries are fresh from `init_ksocket`; reuse through `k_socket` resets only the two window sizes.
- `k_socket`, `k_bind`, `k_close`, the garbage collector, the rendezvous of `sem1` and `sem2`, and the ownership tests at the
  start of `k_sendto` and `k_recvfrom`: process lifecycle.
- `swnd.valid_seq_num` is written but never read. The source address of a datagram is not looked at, by the code either.
- The two bytes the code copies as acknowledgement are taken as numbers; `time` is one value for a whole tick.
- What happens after an index of -1: undefined behaviour in C, the end of the run in the model.
- Liveness: from which states a transfer can still be finished is proved exactly; that a particular schedule or network
  finishes it is not claimed. The clock of a continuation is as free as that of any run.
- KtpFileCopy.FileCopied: is stated for files without NUL bytes and look-alike markers, of at most 253 chunks;
  `KtpFileCopy.CopyExact` proves that the first two are needed.
- KtpGuarantees.ZeroWindowRemembered: is stated for acknowledgements that arrive in order and without loss; what remains
  without that is `KtpStall.ReopensUnlessStuck`.

Stop-and-wait KTP (`Lab 4/asg4`):

- Channels that reorder; a frame whose length field points beyond the packet; control messages and the closing handshake
  of the two programs; failures of `sendto`; binding and addresses.

Mailbox (`Lab 6`):

- MailRuns.AlwaysInv: takes different recipients as different files. A recipient with a slash, such as `./a@b`, names the
  same file as another one; path resolution is not modelled.
- The fixed sizes of the sender and date buffers of `handle_list`, which only a body line taken for a header can exceed, and
  of the file names. The two arrays of `handle_get_mail` are modelled.
- The clock: the date is one word given to each save. One save is one atomic append, whichever session makes it.
- A call of `strtok` is one step. A saved position in the buffer of a thread that has received anew or ended keeps, in the
  model, the text that was behind it.
- A NUL byte in what `recv` delivers; `sscanf` of numbers beyond the range of `int`. A command split over two chunks is two
  lines, as in the code.

CLDP (`Lab 7`):

- Sockets, addresses asked from the user, the metadata texts, the periodic greeting, the client's list of servers and the
  transaction ids. The number of bytes received is not checked, by the code either.
- Native loads and stores are little-endian in the header model; `InternetChecksum.ByteOrderIndependent` covers the rest.

Task queue (`Lab 5`):

- Processes, sockets and signals; the text of tasks and results; the clock behind the inactivity timeout. Table accesses
  after the main process has removed the shared segment.

Not modelled at all: the early draft files directly under `Lab 4`, the Lab 3 cipher, the chat server, the socket samples and
the worker client: small programs with little state of their own.
