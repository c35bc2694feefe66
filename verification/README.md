# Verified model of the Aeron client pipeline of aeron-fast

The project models, in Dafny 4.11, the log-buffer pipeline of the vendored Aeron C++ client and the concurrent structures
beside it, and proves what they promise for every input, every run and every interleaving.

- `Framing`, `TermBuffer`, `GatheredWrites`: frames of a term, how a message is cut into fragments, and how both are
  written into the cells of a term. A term is an array of byte cells; a header field of several bytes is kept whole in
  the cell of its first byte. Functions on sequences of `Frame` say what the memory shows.
- `ExclusivePublication`: the single-writer publication as a class over three term buffers, tied step by step to the
  value function `Offered`.
- `Image`: the scan loops of the controlled polls and of the peek, tied to the value functions `Poll` and `Peek`. A
  handler is any function from its own state and a frame to a new state and one of ABORT, BREAK, COMMIT, CONTINUE, or
  THROW for an exception. An uncontrolled poll is a controlled one whose handler answers CONTINUE or throws.
- `BufferBuilder`, `Assembly`, `Sessions`, `Assemblers`: reassembly of fragments, for one image and per session. The
  uncontrolled assemblers are the controlled ones with delegates that never answer ABORT. `MessageHeaders`: the header
  handed over with an assembled message. `HeaderPosition`: what headers say, and the stream position read off them. `StreamLoss`: fragments that arrive with gaps. `EscapedException`: an exception
  that also leaves the exception handler.
- `Delivery`, `EndToEnd`, `Guarantees`: a publication, the driver and a subscriber in any interleaving. `LastTerm`: a run
  that fills all 2^31 terms of a stream.
- `Rotation`, `RotationGuarantees`: the tails of a publication with any number of writers and the rotation of the log,
  thread by thread and step by step. `TermClaims`: the memory of one such term with all writers interleaved byte by
  byte and readers looking on. `SharedStream`: both together with a subscriber that polls and assembles. `SharedOffer`:
  which offers make a claim. `SharedDrain`: whatever was claimed can be finished and read. `RotationStalls`: when the
  active term count falls behind for good. `ReusedBuffers`: the three buffers behind the terms.
- `AtomicArray`, `Subscription`: the seqlock-style array, and round-robin polling.
- `Counters`: the slot allocator, the scans that stop early, the heartbeat search.
- `ChannelUri`, `UriRejection`, `UriBuilder`: the parser, its errors, the printer and the builder of channel URIs.
- `Stats`, `MessageStats`: the lock-free latency statistics, without and with a message index.

## Assumptions

- Atomic steps are interleaved sequentially consistently.
- The driver raises the publication limit over the position only once the buffer after the active one has been zeroed,
  zeroes a buffer only when the subscriber has left the term in it, and never sets a limit beyond the greatest position.
  In `TermClaims` and `SharedStream` every term has memory of its own; `ReusedBuffers` derives from the first two of
  these rules that three buffers are enough for that, as long as a claim over the end of a term is made by a thread that
  had planned that term.
- The reserved value is the 0 of the default supplier. Frames are at most 65504 bytes long, as the builder enforces for
  the MTU (c-performance/aeron-lib/include/ChannelUriStringBuilder.h:190).
- Clocks, limits and connection status are parameters.

## Where the code does not do what one might expect

- After MAX_POSITION_EXCEEDED the offset stays behind the padding, and a shorter message is still accepted.
  `Guarantees.SealedOfferLost` gives the exact condition under which it is lost: the subscriber has passed the padding;
  `LastTerm.LostMessageIsReached` gives a run from the start that gets there.
- The header of a message assembled from fragments has the reserved length as its fragmented frame length exactly when
  the message was never answered ABORT; after that it is the length of one unfragmented frame
  (`MessageHeaders.FragmentedLengthExact`), and the position read off the header lies inside the message instead of
  being the one that the offer returned (`HeaderPositions.AssembledPosition`).
- `rotateLog` advances the active term count only from the term that was closed. Threads that planned their offers early
  can close later terms while a thread that is to advance the count is held up; once three terms have been installed
  after the counted one, and nobody is rotating out of it, the count never moves again and every offer answers
  ADMIN_ACTION (`RotationStalls.CountAdvancesIff`, `RotationStalls.StallReached`). As long as no claim over the end of a
  term comes late this does not happen (`RotationStalls.OnTimeKeepsUp`).
- The assemblers compare term offsets only, so fragments of two terms can be put together
  (`Assembly.TermIdIsNotCompared`): of fragments that arrive in any order, exactly when a step inside the run is
  at least as long as a term (`StreamLoss.OneMessageIffNoLongGap`).
- If the delegate throws and the exception handler throws too, the poll leaves its position at the last COMMIT or else
  where it began. The message thrown on comes again whole exactly when that position is at or before its first fragment;
  otherwise it is lost, or its last bytes come twice. Messages settled since that position come twice
  (`EscapedExceptions.EscapedThrow`).
- `free` does not check that the counter is allocated: the free list stays consistent exactly when it is
  (`Counters.FreeKeepsIffAllocated`), and, with clocks and deadlines below 2^63 - 1, a record that is allocated can be
  handed out again exactly when an id had been freed that was never handed out before
  (`Counters.FreeIsHarmlessIff`, `Counters.EarlyFreeSharesCounter`).
- The heartbeat search never looks at the last counter id, and misses a heartbeat exactly when that is the only one
  (`Counters.HeartbeatMissedIff`, `Counters.LastHeartbeatIsMissed`).
- `record_latency` keeps the details of up to 1000 calls exactly when none of them is overtaken between its read of the
  count and its swap (`Stats.DetailsKeptIff`, `Stats.DetailsCanBeLost`), as calls that do not overlap never are
  (`Stats.ApartKeepsDetails`).
  `record_message_latency` loses none of its first 1000, but its plain stores are right exactly when the right call makes
  them last (`MessageStats.PlainFieldsRightIff`), which calls that overlap can miss (`MessageStats.PlainStoresRace`) and
  calls that do not overlap never do (`MessageStats.ApartIsRight`).
- A value with a '|' does not survive `build` (`UriBuilders.BuildParses`), and `initialPosition` stores a term id that is
  not wrapped to 32 bits (`UriBuilders.TermIdInRange`).
- The documentation of `poll` lets one expect that each poll starts one image further; after a wrap image 0 leads twice,
  so that as many polls as images are enough exactly when the stored index is at most 1
  (`Subscriptions.LengthPollsEnough`).

## Model

| member | source | states |
|---|---|---|
| Framing.ReservedLengthIsExact | c-performance/aeron-lib/include/ExclusivePublication.h:721-729 | the length reserved for a fragmented message never exceeds what its frames take, and equals it exactly when the maximum payload is a multiple of 32 |
| Framing.FramedLengthCountsFragments | c-performance/aeron-lib/include/concurrent/logbuffer/LogBufferDescriptor.h:403-413 | the closed formula with division and remainder equals the count fragment by fragment |
| MessageHeaders.FragmentedLengthExact | c-performance/aeron-lib/include/BufferBuilder.h:135-146 | for every fragmented message, from any assembler state and refused any number of times: the header handed over has the length of the message and both flags, and its fragmented length is the reserved one if and only if nothing was refused, otherwise that of one unfragmented frame |
| MessageHeaders.FirstCompletionRecoversRequired | c-performance/aeron-lib/include/ExclusivePublication.h:804-837 | the first completion, and no later one, recovers exactly what the publication added to its term offset |
| HeaderPositions.AssembledPosition | c-performance/aeron-lib/include/concurrent/logbuffer/Header.h:163-198 | the position a reader works out from the header of an assembled message is the one the offer returned if and only if the message was never refused; otherwise it lies inside the message |
| HeaderPositions.PositionsAgree | c-performance/aeron-lib/include/concurrent/logbuffer/Header.h:163-198 | in all 2^31 terms, with wrapped term ids, the header of every fragment gives the stream position where that fragment ends, and the last one the position the offer returned |
| HeaderPositions.PaddingPosition | c-performance/aeron-lib/include/concurrent/logbuffer/Header.h:163-198 | the padding that closes a term ends where the next term begins |
| HeaderPositions.FragmentsCarry | c-performance/aeron-lib/include/concurrent/logbuffer/HeaderWriter.h:34-51 | every fragment carries session, stream and term id and its own length, BEGIN only on the first, END only on the last, and all but the last are full |
| Framing.FragmentsTile | c-performance/aeron-lib/include/ExclusivePublication.h:804-837 | the frames of a message lie end to end, each carrying its own offset |
| TermBuffer.HoldsKept | c-performance/aeron-lib/include/ExclusivePublication.h:811-832 | writing behind the frames of a term leaves all of them readable as they were |
| TermBuffer.WriteFrame | c-performance/aeron-lib/include/ExclusivePublication.h:769-779 | after the write the cells decode to exactly that frame and no cell outside it has changed |
| TermBuffer.WritePadding | c-performance/aeron-lib/include/ExclusivePublication.h:736-747 | the padding frame covers the rest of the term and changes only its header cells |
| TermBuffer.WriteFragments | c-performance/aeron-lib/include/ExclusivePublication.h:783-841 | the fragmenting loop leaves exactly the fragments of the message, zeroes behind them, and nothing changed before them |
| GatheredWrites.CopyBytes | c-performance/aeron-lib/include/ExclusivePublication.h:921-937 | the nested copy loop terminates over any buffers, also empty ones, and copies the next bytes of their concatenation |
| GatheredWrites.WriteGatheredFragments | c-performance/aeron-lib/include/ExclusivePublication.h:884-958 | offering a list of buffers leaves the same frames as offering their concatenation |
| GatheredWrites.WriteGatheredWhole | c-performance/aeron-lib/include/ExclusivePublication.h:843-882 | the same for a message that fits one frame |
| ExclusivePublications.TailUnpacks | c-performance/aeron-lib/include/ExclusivePublication.h:731-734 | term id and clipped offset come back from a packed tail, for negative term ids too |
| ExclusivePublications.TermCountSurvivesWrap | c-performance/aeron-lib/include/concurrent/logbuffer/LogBufferDescriptor.h:274-278 | the term count comes back from the wrapped term id, whatever the initial one |
| ExclusivePublications.RequiredIsSpan | c-performance/aeron-lib/include/ExclusivePublication.h:749-800 | what an offer adds to the offset is exactly the span of the frames it writes, aligned, and stays a 32-bit number |
| ExclusivePublications.OfferedOutcomes | c-performance/aeron-lib/include/ExclusivePublication.h:340-391 | each of the eight outcomes if and only if its condition on closed, limit, connection, length, position and room in the term; a refusal changes nothing, except that a message too long for the rest of the last term leaves padding |
| ExclusivePublications.RaisedLimitLetsThrough | c-performance/aeron-lib/include/ExclusivePublication.h:686-698 | an offer answered BACK_PRESSURED or NOT_CONNECTED goes through or moves to the next term once the limit is over the position, if its length is allowed and this is not the last term |
| ExclusivePublications.ExclusivePublication.Offer | c-performance/aeron-lib/include/ExclusivePublication.h:340-391 | result and the three buffers in memory are those of the value function, with all error results, the tail counters move exactly when the message is let through, and the object invariant on offset, term id, begin position and tiling is kept |
| ExclusivePublications.ExclusivePublication.OfferGathered | c-performance/aeron-lib/include/ExclusivePublication.h:427-489 | the gathered offer does what the contiguous offer of the concatenation does, except that a length over 2^31 - 1 is refused |
| ExclusivePublications.ExclusivePublication.NewPosition | c-performance/aeron-lib/include/ExclusivePublication.h:655-684 | the position after an append, the move to the next term after a trip, or MAX_POSITION_EXCEEDED in the last term with everything kept |
| ExclusivePublications.ExclusivePublication.HandleEndOfLogCondition | c-performance/aeron-lib/include/ExclusivePublication.h:736-747 | the rest of the term is padding, once |
| Images.PollAccounts | c-performance/aeron-lib/include/Image.h:549-606 | for every handler the data among the consumed frames is exactly what was not aborted, at most the limit of it, and every consumed frame starts below the limit offset |
| Images.PollRunsOn | c-performance/aeron-lib/include/Image.h:549-593 | the handler is called on the frames in order, only the last call may stop the scan, and an unstopped scan went as far as frames and limits allow |
| Images.ThrowActsAsBreak | c-performance/aeron-lib/include/Image.h:595-606 | a handler that throws is polled like one that answers BREAK there |
| Images.PeekStopsAtBoundary | c-performance/aeron-lib/include/Image.h:752-804 | from a message boundary of a legal log a peek returns a message boundary for every handler, aborting and throwing ones included |
| Images.PeekRunsOn | c-performance/aeron-lib/include/Image.h:752-804 | the handler is called on the frames in order, only the last call may stop the peek, and an unstopped one went as far as frames and limit offset allow |
| Images.PeekReturnsLastEnd | c-performance/aeron-lib/include/Image.h:752-804 | the position a peek returns is behind the last frame with END, or padding, that it got past with no answer against it, or where it began |
| Images.LimitOffsetIsLimit | c-performance/aeron-lib/include/Image.h:643-649 | a frame of the term starts below the limit offset if and only if it starts below the limit position in the stream |
| Images.Image.ScanTerm | c-performance/aeron-lib/include/Image.h:549-606 | the loop on memory does what the value function says; each COMMIT stores the end of its own frame; an exception that also leaves the exception handler leaves the position at the last COMMIT |
| Images.Image.ControlledPoll | c-performance/aeron-lib/include/Image.h:529-607 | the position moves by exactly the consumed frames, never back and never out of the term |
| Images.Image.BoundedControlledPoll | c-performance/aeron-lib/include/Image.h:623-708 | the same below a limit position: every consumed frame starts below it in the stream, a scan that no answer and no fragment limit stopped ended where the frames end or at a frame that starts at or beyond it, and nothing at all from the limit on |
| Images.Image.ControlledPeek | c-performance/aeron-lib/include/Image.h:724-805 | the position the value function returns, every frame passed starts below the limit position and an unstopped scan goes up to it, the two range errors in numbers, and the subscriber position untouched |
| BufferBuilders.FindSuitableCapacity | c-performance/aeron-lib/include/BufferBuilder.h:161-177 | the growth loop ends without a 32-bit wrap at a capacity between the required and the greatest one |
| BufferBuilders.Run | c-performance/aeron-lib/include/BufferBuilder.h:78-127 | after every run of append, reset, compact and rollback the contents are the retained appends and limit and capacity are in range |
| BufferBuilders.BufferBuilder.Append | c-performance/aeron-lib/include/BufferBuilder.h:120-127 | succeeds exactly up to the greatest capacity, and then the bytes are behind the earlier ones |
| BufferBuilders.BufferBuilder.CompleteHeader | c-performance/aeron-lib/include/BufferBuilder.h:135-146 | header and captured header become that of the whole message: length, flags of both ends, fragmented length from the captured frame length, which Assemblers.HandleFragment ties to the first fragment |
| Assembly.AssembledIsCompleteRun | c-performance/aeron-lib/include/ImageControlledFragmentAssembler.h:94-140 | on any stream with gaps and repeats and any answers, exceptions of the delegate included as long as the fragment it threw on is not the next one again: a message is handed over exactly when the fragment closes a run that starts with BEGIN and whose offsets chain, and it is the payload of that run |
| Assembly.NothingUntilBegin | c-performance/aeron-lib/include/FragmentAssembler.h:138-141 | after a break nothing is assembled until the next BEGIN fragment |
| Assembly.TermIdIsNotCompared | c-performance/aeron-lib/include/FragmentAssembler.h:122-124 | a concrete stream in which fragments of two terms are put together |
| StreamLoss.OneMessageIffNoLongGap | c-performance/aeron-lib/include/FragmentAssembler.h:118-141 | of every published stream, with fragments arriving in any order with gaps and repeats, an assembled run stands side by side in the stream from BEGIN to END if and only if no step in it, forwards or backwards, is as long as a term |
| EscapedExceptions.EscapedThrow | c-performance/aeron-lib/include/Image.h:549-606 | when delegate and exception handler both throw, in any poll over a legal stream: the message thrown on comes again whole if and only if the position left is at or before its first fragment, together with, and so twice, exactly the messages settled since that began there; otherwise it is lost, or its last fragment is doubled |
| EscapedExceptions.PositionLeft | c-performance/aeron-lib/include/Image.h:587-606 | the position left is that of the last COMMIT, or that at which the poll began |
| StreamLoss.PublishedIsCompleteRun | c-performance/aeron-lib/include/ExclusivePublication.h:804-837 | the fragments of every published message are a complete run, none of them empty, with the message as their payload |
| Sessions.Demultiplexes | c-performance/aeron-lib/include/FragmentAssembler.h:78-159 | for every interleaving of sessions and deletions each session gets what the single-image assembler delivers on its inputs alone, a deletion counting as a reset |
| Assemblers.HandleFragment | c-performance/aeron-lib/include/ImageControlledFragmentAssembler.h:94-140 | the builder follows the value step for every answer, the rollback after ABORT is never refused when fragments are not empty, and the header handed over and the one captured afterwards are those of the value functions |
| Assemblers.ImageAssembler.OnFragment | c-performance/aeron-lib/include/ImageControlledFragmentAssembler.h:73-92 | the object follows the value step, header included |
| Assemblers.SessionAssembler.OnFragment | c-performance/aeron-lib/include/ControlledFragmentAssembler.h:88-158 | the map of builders follows the session step, header included, no other session touched |
| Assemblers.SessionAssembler.DeleteSessionBuffer | c-performance/aeron-lib/include/ControlledFragmentAssembler.h:78-81 | exactly that session is forgotten |
| Deliveries.FragmentsDeliver | c-performance/aeron-lib/include/ImageFragmentAssembler.h:88-119 | the fragments of a message, read from any assembler state, deliver that message and nothing else |
| Deliveries.PollCatchesUp | c-performance/aeron-lib/include/Image.h:549-606 | a whole poll under every schedule of answers and limits leaves the messages settled equal to what the consumed frames deliver |
| EndToEnd.StepKeeps | c-performance/aeron-lib/include/ExclusivePublication.h:655-684 | every offer, cleaning and poll keeps the invariant that ties history, buffers, position and assembler together |
| EndToEnd.FittingOffer | c-performance/aeron-lib/include/ExclusivePublication.h:783-841 | an accepted message is what its frames add to the stream, while the subscriber is left alone |
| EndToEnd.TrippingOffer | c-performance/aeron-lib/include/ExclusivePublication.h:736-747 | padding and rotation lose nothing and deliver nothing |
| EndToEnd.PollKeeps | c-performance/aeron-lib/include/Image.h:623-708 | a poll keeps the invariant, across the end of a term too |
| EndToEnd.UnsealedKeeps | c-performance/aeron-lib/include/ExclusivePublication.h:664-668 | taking back the padding of the last term is harmless while the subscriber has not passed it |
| Guarantees.DeliveredInOrderOnce | c-performance/aeron-lib/include/ImageControlledFragmentAssembler.h:94-140 | in every run the messages not answered ABORT are a prefix of those accepted, in order and once, each call carries the first one outstanding, and a subscriber that has caught up has them all |
| Guarantees.PositionsIncrease | c-performance/aeron-lib/include/ExclusivePublication.h:655-662 | the positions of successful offers strictly increase along every run |
| Guarantees.PollMakesProgress | c-performance/aeron-lib/include/Image.h:549-606 | a subscriber that is behind moves at every poll that is not aborted |
| Guarantees.MemoryIsVisible | c-performance/aeron-lib/include/Image.h:549-563 | what the publication object leaves in memory is what an image sees at the subscriber position |
| Guarantees.SealedOfferLost | c-performance/aeron-lib/include/ExclusivePublication.h:664-668 | a message accepted after MAX_POSITION_EXCEEDED behind padding is delivered if the subscriber has not passed the padding, and otherwise never, in any continuation |
| LastTerm.LostMessageIsReached | c-performance/aeron-lib/include/ExclusivePublication.h:664-668 | a run from the start reaches a state in which the next message is accepted and then, in no continuation, delivered |
| LastTerm.ReachTerm | c-performance/aeron-lib/include/ExclusivePublication.h:670-683 | every term up to the last is reached from the start, with the next buffer clean and the invariant kept |
| Rotation.StepKeeps | c-performance/aeron-lib/include/concurrent/logbuffer/LogBufferDescriptor.h:367-387 | for any number of threads each atomic step keeps: three tails of the three newest terms, claims end to end, every older term closed |
| Rotation.FetchAddShared | c-performance/aeron-lib/include/Publication.h:711-746 | a fetch-and-add, also a late one into a newer term, extends the claims of that term end to end |
| RotationGuarantees.ClosedTermIsFilled | c-performance/aeron-lib/include/Publication.h:935-948 | in a closed term exactly one claim crosses the end; it alone may pad, and it pads what the successful claims before it leave |
| RotationGuarantees.SuccessfulClaimsDisjoint | c-performance/aeron-lib/include/Publication.h:792-854 | successful claims of different threads, calls or terms never overlap in the stream, and each returns the end of its own stretch |
| RotationGuarantees.TermsInTurn | c-performance/aeron-lib/include/concurrent/logbuffer/LogBufferDescriptor.h:367-387 | terms are taken one at a time, the active count never falls, and a new term is installed only when all before it are closed |
| RotationGuarantees.RunKeeps | c-performance/aeron-lib/include/Publication.h:353-400 | every run keeps the log invariant, and of one term each thread makes at most one planned and one late claim over the end |
| RotationGuarantees.OffsetsStaySmall | c-performance/aeron-lib/include/Publication.h:721 | as long as two greatest claims per thread fit above the term, no fetch-and-add of any run carries into the term id |
| RotationGuarantees.PairsPack | c-performance/aeron-lib/include/concurrent/logbuffer/LogBufferDescriptor.h:338-354 | pairs of term and offset stand for raw tails: equality, reading and adding agree |
| RotationStalls.CountAdvancesIff | c-performance/aeron-lib/include/concurrent/logbuffer/LogBufferDescriptor.h:367-387 | with a newer term installed and a thread idle, some steps advance the active count if and only if the publication is not stalled: at most two terms installed after the counted one, or a thread rotating out of that |
| RotationStalls.StalledForever | c-performance/aeron-lib/include/Publication.h:370-373 | in every continuation a stalled publication stays stalled, the count stays, and no thread plans a claim any more |
| RotationStalls.NothingMoreClaimed | c-performance/aeron-lib/include/Publication.h:370-373 | once its threads are through with what they had begun, no tail and no claim ever changes again |
| RotationStalls.StallReached | c-performance/aeron-lib/include/concurrent/logbuffer/LogBufferDescriptor.h:367-387 | eight threads reach it from the start if a frame may take more than half a term: count 3, newest term 6, all threads idle, and no run from there makes another claim |
| RotationStalls.OnTimeKeepsUp | c-performance/aeron-lib/include/concurrent/logbuffer/LogBufferDescriptor.h:367-387 | in every run in which claims over the end of a term are made only by threads that had planned that term, the count is at most one term behind and offers always read the tail of the counted term |
| RotationStalls.TailIsCurrentIff | c-performance/aeron-lib/include/Publication.h:370-373 | the tail an offer reads is that of the counted term if and only if at most two terms have been installed after it |
| TermClaims.TermRunKeeps | c-performance/aeron-lib/include/Publication.h:792-854 | with all writers interleaved byte by byte every claimed frame is in memory as far as its writer has come, and nothing lies behind them |
| TermClaims.ReaderSeesCompleteFront | c-performance/aeron-lib/include/Image.h:475-500 | at every moment a reader sees, in the order of the claims, exactly the frames up to the first incomplete one, and they deliver a front of the messages in that order |
| TermClaims.FrontGrows | c-performance/aeron-lib/include/Publication.h:844-847 | what readers can see only grows |
| TermClaims.WritersIndependent | c-performance/aeron-lib/include/Publication.h:811-850 | in every run the first frame of a new claim can be written at once, however far the frames claimed before have been written |
| TermClaims.OnePadding | c-performance/aeron-lib/include/Publication.h:942-948 | at most one claim of a term writes padding, as the last frame, and it fills exactly the rest |
| SharedStreams.SharedDelivery | c-performance/aeron-lib/include/Publication.h:711-746 | in every run of any number of writers over any number of terms, with a subscriber that polls and assembles: the messages it has settled are a prefix of those whose claims succeeded, in the order of the claims, once each, every call carries the first one outstanding, and with all frames consumed it has them all |
| SharedStreams.JointStepKeeps | c-performance/aeron-lib/include/Publication.h:792-854 | every step of a thread, every byte written and every poll keeps claims, memory and subscriber together |
| SharedStreams.MemoryShowsAhead | c-performance/aeron-lib/include/Image.h:475-500 | what memory shows the subscriber is exactly the complete frames ahead of it |
| SharedStreams.ReadyMayOffer | c-performance/aeron-lib/include/Publication.h:711-746 | a thread that has passed the limit can always make its claim |
| SharedOffers.OfferGoesThrough | c-performance/aeron-lib/include/Publication.h:353-400 | an offer that nobody gets in between: with the tail of the active term there, an allowed length and the position below the limit it makes exactly one claim at that tail, and its message joins the successful ones if and only if it fits the rest of the term; otherwise nothing changes |
| SharedOffers.OfferPlans | c-performance/aeron-lib/include/Publication.h:370-389 | after reading count and tail, from any state, a thread goes on to claim if and only if term, length and position allow it |
| SharedOffers.OfferClaims | c-performance/aeron-lib/include/Publication.h:711-746 | the claim a thread that goes on makes, the new tail, and when the thread is to close the term |
| SharedOffers.AnswersAsExclusive | c-performance/aeron-lib/include/Publication.h:353-400 | an offer left alone answers what an exclusive publication answers at the same place in the stream, in all outcomes, however far the tail has run over the end |
| SharedOffers.AnswerOfOffer | c-performance/aeron-lib/include/Publication.h:935-959 | a position is answered if and only if the claim fits, and it is the end of the claim in the stream; a claim that does not fit answers ADMIN_ACTION, or MAX_POSITION_EXCEEDED in the last term only |
| SharedOffers.TripMovesOn | c-performance/aeron-lib/include/Publication.h:935-959 | a thread whose claim ran over the end of the active term moves the active count on by one with its own further steps; in the last term it gives up |
| SharedDrains.EverythingArrives | c-performance/aeron-lib/include/Publication.h:792-854 | from every state that a run reaches, its writers and a subscriber that does not refuse can go on, without another claim, until the subscriber has settled every message whose claim succeeded |
| SharedDrains.WriteMakesProgress | c-performance/aeron-lib/include/Publication.h:811-850 | every unblocked step of a writer leaves exactly one step less to be made, and the frames of its term as they are |
| SharedDrains.FirstCanWrite | c-performance/aeron-lib/include/Publication.h:844-847 | the writer of the first incomplete frame of a term is never blocked |
| SharedDrains.ReadConsumes | c-performance/aeron-lib/include/Image.h:529-607 | a poll consumes exactly the frames the scan consumed, and goes on to the next term if and only if that was the end of this one |
| ReusedBuffers.ThreeBuffersSuffice | c-performance/aeron-lib/include/concurrent/logbuffer/LogBufferDescriptor.h:367-387 | in every run in which the driver zeroes only buffers of terms the subscriber has left, and raises the limit over the position only with the next buffer zeroed, every term that can still be written or is still to be read has its cells in its buffer, so that the subscriber reads there what it settles |
| ReusedBuffers.MemoryStepKeeps | c-performance/aeron-lib/include/Publication.h:353-400 | every step of writers, subscriber and driver keeps the buffers right |
| ReusedBuffers.OpenedHeldIff | c-performance/aeron-lib/include/concurrent/logbuffer/LogBufferDescriptor.h:367-387 | opening a term keeps them right if and only if its buffer has been zeroed for it |
| ReusedBuffers.ZeroingReadies | c-performance/aeron-lib/include/concurrent/logbuffer/LogBufferDescriptor.h:367-387 | where the buffer after a term has not been zeroed, the driver may zero it if and only if the subscriber has come to the term before that one, and then the next term is ready |
| AtomicArrays.LoadsAreWhole | c-performance/aeron-lib/include/concurrent/AtomicArrayUpdater.h:77-94 | every pair any load returns was installed by one update, and one reader never goes back to an earlier update |
| AtomicArrays.LoadIsCurrent | c-performance/aeron-lib/include/concurrent/AtomicArrayUpdater.h:145-157 | a load that succeeds returns what is installed at its last check, unchanged since it began; one that retries was overtaken by an update |
| AtomicArrays.UpdateTakesEffect | c-performance/aeron-lib/include/concurrent/AtomicArrayUpdater.h:145-157 | an update begun at rest, with its two stores in either order, leaves both change numbers one higher, the new array and length installed and the history one longer |
| AtomicArrays.UpdateIsLoaded | c-performance/aeron-lib/include/concurrent/AtomicArrayUpdater.h:77-94 | a load left alone after an update returns what the update installed |
| AtomicArrays.LoadAloneSucceeds | c-performance/aeron-lib/include/concurrent/AtomicArrayUpdater.h:77-94 | with no update under way a load succeeds at once, in either order of its reads |
| AtomicArrays.AtomicArrayUpdater.AddElement | c-performance/aeron-lib/include/concurrent/AtomicArrayUpdater.h:106-116 | a fresh array with the element behind the others, the old one untouched and returned |
| AtomicArrays.AtomicArrayUpdater.RemoveElement | c-performance/aeron-lib/include/concurrent/AtomicArrayUpdater.h:118-137 | the first match is taken out, with the old array and its index returned, or nothing changes and there is no array |
| AtomicArrays.RemoveFromArray | c-performance/aeron-lib/include/concurrent/AtomicArrayUpdater.h:48-63 | the copy without one element, in order |
| Subscriptions.Subscription.Poll | c-performance/aeron-lib/include/Subscription.h:209-233 | the two loops visit the images in the order of the specification and count what was read |
| Subscriptions.VisitsFair | c-performance/aeron-lib/include/Subscription.h:222-230 | a poll asks images there are, no image twice, never reads more than the limit in all, gives the first the whole limit, and with limit to spare asks every image |
| Subscriptions.NoImageStarves | c-performance/aeron-lib/include/Subscription.h:216-220 | in every length + 1 polls from any stored index each image is asked first, with the whole limit, at least once |
| Subscriptions.LengthPollsEnough | c-performance/aeron-lib/include/Subscription.h:216-220 | from every stored index, as many polls as there are images let each of them lead if and only if the index is at most 1 or there is at most one image |
| Counters.AllocateIsFresh | c-performance/aeron-lib/include/concurrent/CountersManager.h:79-105 | an allocation keeps the invariant, hands out an id that is not live and past its deadline, with its key padded by zeros and, for an id that is reused, reset values, and touches no other record and no other value, nor the value of an id used for the first time; failures change nothing and are exact |
| Counters.LongestFreeIsNext | c-performance/aeron-lib/include/concurrent/CountersManager.h:147-172 | of the freed ids past their deadline the one freed longest ago is handed out and leaves the list in order; only if there is none, the next id never used, or the failure |
| Counters.LiveCounterStays | c-performance/aeron-lib/include/concurrent/CountersManager.h:79-134 | in every proper run an allocated counter keeps its record and its values until an operation on its own id |
| Counters.RegistrationIdSet | c-performance/aeron-lib/include/concurrent/CountersManager.h:129-133 | exactly one field of one counter is stored, or the id is refused |
| Counters.FreeRefusedIff | c-performance/aeron-lib/include/concurrent/CountersManager.h:112-121 | an id is refused if and only if it is no counter |
| Counters.FreeKeepsIffAllocated | c-performance/aeron-lib/include/concurrent/CountersManager.h:112-121 | free keeps the allocator consistent exactly when the counter was allocated, and changes no value |
| Counters.FreeIsHarmlessIff | c-performance/aeron-lib/include/concurrent/CountersManager.h:112-121 | after a free, in whatever state the counter is, no run that frees only ids handed out before and keeps its clock below 2^63 - 1 hands out the id of an allocated record, if and only if the freed id had been handed out before |
| Counters.CarefulRunKeeps | c-performance/aeron-lib/include/concurrent/CountersManager.h:147-172 | no such run hands out the id of an allocated record, however often it frees one |
| Counters.CarefulFromStart | c-performance/aeron-lib/include/concurrent/CountersManager.h:147-172 | so in every such run from an empty table |
| Counters.EarlyFreeSharesCounter | c-performance/aeron-lib/include/concurrent/CountersManager.h:112-121 | a concrete run at one moment in which an id freed before it was handed out is handed out a second time while its record is allocated |
| Counters.RunKeeps | c-performance/aeron-lib/include/concurrent/CountersManager.h:147-180 | in every run that frees only allocated ids, each id up to the high-water mark is allocated or waiting exactly once |
| Counters.ProperFromStart | c-performance/aeron-lib/include/concurrent/CountersManager.h:147-180 | so in every such run from an empty table |
| Counters.ReuseWaits | c-performance/aeron-lib/include/concurrent/CountersManager.h:147-172 | in every such run no id is handed out again before its deadline |
| Counters.ScanIsComplete | c-performance/aeron-lib/include/concurrent/CountersReader.h:94-119 | the scan that stops at the first unused record reports exactly the allocated counters, once each, in order |
| Counters.CountersManager.ForEach | c-performance/aeron-lib/include/concurrent/CountersReader.h:94-119 | the loop is that scan |
| Counters.CountersManager.Find | c-performance/aeron-lib/include/concurrent/CountersReader.h:121-175 | the least allocated counter that matches, or none if there is none, in spite of the early stop |
| Counters.CountersManager.FindHeartbeat | c-performance/aeron-lib/include/HeartbeatTimestamp.h:60-82 | the least match below the last id, and NULL if only the last id matches |
| Counters.HeartbeatMissedIff | c-performance/aeron-lib/include/HeartbeatTimestamp.h:60-82 | the search returns nothing although there is a match if and only if the last counter is the only match |
| Counters.LastHeartbeatIsMissed | c-performance/aeron-lib/include/HeartbeatTimestamp.h:65 | after as many allocations from the start as there are counters, with a key of its own in the last, that one is allocated and matches, and the search for it returns nothing |
| Counters.CountersManager.Allocate | c-performance/aeron-lib/include/concurrent/CountersManager.h:79-105 | the buffers follow the value function |
| Counters.CountersManager.Release | c-performance/aeron-lib/include/concurrent/CountersManager.h:112-121 | the buffers follow the value function, for allocated and other ids |
| ChannelUris.ParseUri | c-performance/aeron-lib/include/ChannelUri.h:223-339 | the loop computes the specified parse, with every error |
| ChannelUris.AcceptedIffGrammatical | c-performance/aeron-lib/include/ChannelUri.h:223-339 | the parser accepts exactly the texts of the grammar, and of a key that occurs twice the first value stays |
| UriRejections.RejectedIff | c-performance/aeron-lib/include/ChannelUri.h:223-339 | each of the six errors is answered for exactly the texts with that fault: what stands before it is as the grammar has it, and what follows is the fault |
| UriRejections.ParsedExample | c-performance/aeron-lib/include/ChannelUri.h:223-339 | a spy URI with two values for one key, and what it parses to |
| ChannelUris.FirstValueStays | c-performance/aeron-lib/include/ChannelUri.h:305-311 | the map that repeated emplace builds |
| ChannelUris.PrintParse | c-performance/aeron-lib/include/ChannelUri.h:185-221 | printing and parsing give the URI back exactly when it is well formed, for every order of iteration |
| ChannelUris.ReparseStable | c-performance/aeron-lib/include/ChannelUri.h:185-339 | re-printing and re-parsing an accepted text changes nothing |
| ChannelUris.ToString | c-performance/aeron-lib/include/ChannelUri.h:185-221 | the loop with its last character taken off prints the specified text |
| ChannelUris.AddSessionIdParses | c-performance/aeron-lib/include/ChannelUri.h:341-347 | the result parses to the same channel with this session id |
| ChannelUris.ToDecimalReads | c-performance/aeron-lib/include/ChannelUri.h:341-347 | the digits printed read back as the number, with its sign and without leading zeros |
| UriBuilders.ShownReads | c-performance/aeron-lib/include/ChannelUriStringBuilder.h:415-519 | what each kind of field is printed as: the text, a number, a number behind tag:, true or false |
| UriBuilders.BuildParses | c-performance/aeron-lib/include/ChannelUriStringBuilder.h:415-519 | what is built parses back to the fields set exactly when no value contains the separator |
| UriBuilders.InitialPosition | c-performance/aeron-lib/include/ChannelUriStringBuilder.h:348-365 | the four fields determine the position again, the offset is aligned and inside the term, and the rejections are exact |
| UriBuilders.ValidTermLengths | c-performance/aeron-lib/include/concurrent/logbuffer/LogBufferDescriptor.h:152-173 | the term lengths that are let through are the powers of two from 2^16 to 2^30 |
| UriBuilders.TermIdInRange | c-performance/aeron-lib/include/ChannelUriStringBuilder.h:361 | the stored term id is a 32-bit number exactly below a bound on the position |
| Stats.FinalStatistics | c-performance/src/performance_stats.c:243-284 | once all calls have returned, in any interleaving: count, sum modulo 2^64, true extremes, bucket counts, distinct filled slots, and each call has a slot or missed one |
| Stats.BucketsAddUp | c-performance/src/performance_stats.c:267-274 | the bucket counts add up to the number of calls |
| Stats.FindBucket | c-performance/src/performance_stats.c:267-274 | the first bucket whose limit exceeds the latency, and there always is one |
| Stats.FailedSwapSeesBetter | c-performance/src/performance_stats.c:251-265 | a failed compare-and-swap goes on with a strictly better value, so the loops end |
| Stats.MissedSlot | c-performance/src/performance_stats.c:277-283 | at its swap a call misses a slot exactly when all were taken or another call came between its read and its swap |
| Stats.DetailsKeptIff | c-performance/src/performance_stats.c:277-283 | of up to 1000 calls, once all have returned, in any interleaving: the details of all are kept if and only if no step of the schedule finds the count moved on between a call's read and its swap |
| Stats.ApartKeepsDetails | c-performance/src/performance_stats.c:277-283 | any number of calls that do not overlap fill as many slots as there are, one each |
| Stats.DetailsCanBeLost | c-performance/src/performance_stats.c:277-283 | for any two latencies, a run from the start in which one of the two calls loses its details although 999 slots are free |
| MessageStats.DetailsComplete | c-performance/src/performance_stats.c:38-91 | once all calls have returned, in any interleaving: each of the first 1000 indexes has its slot, with the times of its own call, and the stored count is that of some call |
| MessageStats.PlainFieldsRightIff | c-performance/src/performance_stats.c:56-81 | once all calls have returned, in any interleaving: the minimum is true; the stored count is right if and only if the last call to store it has the last slot; index, send time and receive time of the minimum are each those of the call that stored them last, and are together those of one call that had it if and only if the index was stored last by such a call and the times by calls with the same ones |
| MessageStats.ApartIsRight | c-performance/src/performance_stats.c:56-81 | calls that do not overlap leave the right count and the right index and times |
| MessageStats.PlainStoresRace | c-performance/src/performance_stats.c:56-81 | for any two messages, a run from the start of two calls that overlap, after which the count is 1 with two slots filled and the minimum has the index of the one call with the times of the other |

## Left out

- Media-driver interaction, command and protocol flyweights, the conductor: calls into code outside the repository.
- Weak memory ordering: the fences are taken as given.
- tryClaim and BufferClaim, in both publications: same header and position path as an unfragmented append, completed by the caller.
- poll and boundedPoll of Image: read as controlled polls whose handler answers CONTINUE or throws. blockPoll and TermReader::read hand over raw ranges or repeat that loop.
- The C form of the rotation test in aeron_exclusive_publication.h, which compares with `>`; the model follows the C++ form.
- ExclusivePublications.Settings: the term length is only required to be in range and a multiple of 32, which is more general than a power of two.
- EndToEnd.StepKeeps: works on frames; the objects are tied to it by their own contracts and by Guarantees.MemoryIsVisible, not by one program that runs them together.
- Rotation.StepKeeps: counts claims and tails only; the memory of a term is the subject of TermClaims.
- SharedStreams.SharedDelivery: every term has memory of its own there; ReusedBuffers.ThreeBuffersSuffice is about the three buffers.
- SharedOffers.Answer: what an offer answers when others come in between; then it is the rotation that decides, which Rotation follows step by step.
- ReusedBuffers.ThreeBuffersSuffice: not for runs in which a thread that planned a term three or more before makes a claim over the end of the one it comes to; such a claim has not seen the limit of that term.
- Counters: setCounterValue and setCounterOwnerId, which store one field as setCounterRegistrationId does; the allocate overload with a key function; a label is kept as it is, without its place in the buffer.
- Subscriptions.Subscription.Poll: the list of images is fixed during a poll, as load() returns it.
- UriBuilders.BuildParses: the simple setters are not modelled, only what they leave in the fields.
- record_message_latency: its total, extremes and buckets go as in record_latency, the buckets with `<=`; the times of the first and the last message; init_performance_stats differs in its bucket limits.
- Floating-point rates and printed reports; clocks, threads and configuration files of the benchmark programs.
