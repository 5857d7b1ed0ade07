# Verified model of the media server's stateful cores

This project models the parts of the media server that keep state over time, and proves what callers
of those parts rely on. Each source file that changes things in place is modelled by classes with the
same fields and methods; every such method is proved to compute a function on values, and the
properties are lemmas about those functions and about all their runs.

`dafny verify dfyconfig.toml` checks everything (Dafny 4.11).

| files | model |
|---|---|
| `ProtocolState`, `ProtocolTeardown`, `ProtocolLinking`, `ProtocolGraceful`, `ProtocolStack`, `ProtocolRuns`, `ProtocolChain` | protocol stacks: linking, graceful and immediate deletion, the drain of the dead map, creation of whole chains |
| `FrameParser`, `SampleParser`, `FrameQueue`, `FrameDelivery`, `ApiFeed` | camera frames: incremental framing, the 30-slot queue, and the two threads that share it |
| `FlvDemux` | the resumable FLV tag parser and its codec gating (Annex E.4 of Adobe's Video File Format Specification 10.1) |
| `BitOps`, `TopBit`, `G711` | G.711 companding (section 3 of ITU-T G.711), bit operations included |
| `CaptureReassembly`, `CaptureFrames` | TCP payload read back from a capture (section 3.4 of RFC 9293), and the frames it is in (section 3.1 of RFC 791 and of RFC 9293) |
| `Base64` | the demo page's encoder against section 4 of RFC 4648 |
| `StreamAliases` | stream aliases with lazy and eager expiry |
| `ApplicationIndex` | applications by id, name and alias, and the configuration check that keeps those apart |
| `SessionRelay` | the two-phase relay between an inbound and an outbound connection |
| `Options`, `Bytes` | optional values, byte orders |

How the state is represented. The snapshot of all live protocols is a `Registry` value: a record per
id, the two maps as sets, the last id used. Links between objects become ids there; that links never
dangle and are symmetric is part of the invariant and proved, not assumed. A failed `ASSERT` ends the
process in the source, and the methods return with `aborted` set. Time, thread interleaving, what a
factory makes of a type, whether a carrier can be woken, and what a stream accepts are parameters, and
the theorems hold for all of them.

What was found not to hold as one would expect; each is a lemma, with the exact condition where the code
meets the expectation, or with the case in which it does not:

- After a failed chain creation the next cleanup does not always remove what was spawned: it does if
  and only if every protocol spawned but the last has its near-delete flag set. `InboundHTTP4RTMP`
  clears that flag (`sources/thelib/src/protocols/rtmp/inboundhttp4rtmp.cpp:104`). The named chains all
  meet the condition: the only one with that protocol has it last
  (`sources/thelib/src/protocols/defaultprotocolfactory.cpp:331-334`). The chain vector TCP, HTTP for RTMP,
  inbound RTMP, RTMPE does not: RTMPE is listed as handled (line 111) but `SpawnProtocol` has no case for it
  (lines 643-831), and the inbound RTMP protocol is left behind.
- Linking the two ends of one stack is not prevented by the setters and makes it cyclic.
- When more frames were queued at the consumer's peek and pushed before its delete than the queue has
  slots, the delete removes a frame that was never delivered.
- A frame pushed while thirty wait loses all of them but the one in the consumer's hand, not just the oldest.
- The records handed to the upper protocol can be read back only if payload plus nine fits 32 bits.
- A sample that completes several frames leaves all but one of them waiting for later samples.
- The FLV time stamp is right only if its extension byte is zero.
- Encoding the mu-law code 0x7F after decoding it gives 0xFF.
- A retransmission that carries new bytes behind old ones loses them unless they come once more. A SYN or
  FIN that carries data makes the next packet of its direction fail although nothing is missing; it does no
  harm exactly where no other packet of that direction follows.
- The base64 encoder merges code units above 255.
- Unregistering an application that was refused over a taken name makes the owner of the name
  unfindable. The web server application unregisters itself in its destructor
  (`sources/webserver/src/application/webserverapplication.cpp:205`), and a refused application is deleted
  (`sources/thelib/src/configuration/module.cpp:193-198`). With a normalised configuration, from which that
  only caller of `RegisterApplication` takes its applications, none is refused (`NoneIsRefused`); the case
  arises only for applications registered in another way.
- Registering a default application forgets the one before it; unregistering does not bring that back.
- The expiry timer is invisible to lookups but not to `HasExpiredAlias`, once it has fired after an expiry.
- The relay answers false although it has given the bytes when the other end is there but its carrier
  cannot be woken; only then do its answers differ from what was handed on. A hand-over that cannot wake
  the carrier leaves a copy in the temporary buffer.

## Model

| member | source | states |
|---|---|---|
| ProtocolTeardown.EveryDrainIsThePurge | sources/thelib/src/protocols/protocolmanager.cpp:57-66 | in whatever order the dead map is drained, exactly the protocols reachable from it along deleting links go, once each, and the same state remains |
| ProtocolTeardown.DoomedIsLeast | sources/thelib/src/protocols/baseprotocol.cpp:58-97 | that set is the least one holding the dead protocols and closed under far links whose owner deletes farwards and near links whose owner deletes nearwards |
| ProtocolTeardown.DestroyEffect | sources/thelib/src/protocols/baseprotocol.cpp:58-97 | one deletion: the protocol is in neither map, every other keeps its record but for links to it, and exactly the neighbours it kills are moved to the dead map |
| ProtocolTeardown.DestroyedDoomed | sources/thelib/src/protocols/protocolmanager.cpp:57-66 | one turn of the drain takes exactly one protocol off the doomed set, although it may add to the dead map |
| ProtocolTeardown.DestroyedOutcome | sources/thelib/src/protocols/protocolmanager.cpp:57-66 | and leaves the end state of the drain what it was |
| ProtocolTeardown.PurgeKeepsWellFormed | sources/thelib/src/protocols/protocolmanager.cpp:57-66 | after a drain links are still closed and symmetric, the dead map is empty, and no protocol left is enqueued |
| ProtocolLinking.SettersAgree | sources/thelib/src/protocols/baseprotocol.cpp:115-176 | SetFarProtocol and SetNearProtocol abort in the same cases, stated exactly, and otherwise give the same state, with both ends linked |
| ProtocolLinking.LinkAcyclicIff | sources/thelib/src/protocols/baseprotocol.cpp:115-176 | linking two free ends keeps every stack acyclic if and only if they are not the two ends of one stack (the code does not check this) |
| ProtocolLinking.LinkConcatenates | sources/thelib/src/protocols/baseprotocol.cpp:115-176 | linking appends the one stack to the other, read from the far endpoint, from whichever of the two it is read |
| ProtocolLinking.ResetSplits | sources/thelib/src/protocols/baseprotocol.cpp:141-182 | unlinking from either side is the same operation, keeps the invariant and cuts the stack in two at that link |
| ProtocolGraceful.GracefulOutcome | sources/thelib/src/protocols/baseprotocol.cpp:218-233 | called on any member: if a member of the stack overrides GetOutputBuffer and has output, nobody is enqueued, otherwise exactly the last member towards the near side is; the far endpoint is flagged either way and nothing outside the stack changes |
| ProtocolGraceful.GracefulAtOnce | sources/thelib/src/protocols/baseprotocol.cpp:218-233 | with all delete flags set and nothing pending, the next drain removes the whole stack |
| ProtocolGraceful.GracefulDeferred | sources/thelib/src/protocols/baseprotocol.cpp:396-403 | with output pending, ReadyForSend on the far endpoint and then a drain remove the whole stack |
| ProtocolGraceful.GracefulFlags | sources/thelib/src/protocols/baseprotocol.cpp:218-233 | who is left flagged: the member it was called on, and from the far endpoint on everyone up to the first that finds output |
| ProtocolGraceful.GracefulNearwardsOutcome | sources/thelib/src/protocols/baseprotocol.cpp:218-233 | called from the far side it looks only at what is between the protocol and the near endpoint |
| ProtocolGraceful.HasOutputIff | sources/thelib/src/protocols/baseprotocol.cpp:360-364 | output is found exactly if, of the protocols from here to the near endpoint, the first that overrides GetOutputBuffer has some |
| ProtocolGraceful.ReadyForSendEnqueues | sources/thelib/src/protocols/baseprotocol.cpp:396-403 | exactly the first flagged protocol towards the near endpoint becomes dead |
| ProtocolGraceful.ReadyForSendElse | sources/thelib/src/protocols/baseprotocol.cpp:396-403 | without a flagged one nothing changes |
| ProtocolGraceful.DeadMemberDoomsStack | sources/thelib/src/protocols/baseprotocol.cpp:58-97 | with all delete flags set, one dead member dooms every member of its stack |
| ProtocolRuns.StepKeepsInvariant | sources/thelib/src/protocols/protocolmanager.cpp:31-90 | every permitted operation keeps links symmetric and closed, stacks acyclic and the two maps a partition of the live protocols |
| ProtocolRuns.Run | sources/thelib/src/protocols/protocolmanager.cpp:31-90 | so does every sequence of operations from the start |
| ProtocolRuns.EveryRun | sources/thelib/src/protocols/protocolmanager.cpp:81-90 | after every run: p's far is q iff q's near is p, nobody is on its own far side, every live protocol is in one of the two maps, dead ones invisible unless asked for |
| ProtocolRuns.GoneStaysGone | sources/thelib/src/protocols/protocolmanager.cpp:57-66 | a deleted protocol is not live again later in any run |
| ProtocolStack.CreatedKeepsInvariant | sources/thelib/src/protocols/baseprotocol.cpp:36-56 | creating a protocol keeps the invariant |
| ProtocolStack.DestroyKeepsInvariant | sources/thelib/src/protocols/baseprotocol.cpp:58-97 | deleting any protocol keeps the invariant and leaves no link to it behind |
| ProtocolStack.ShutDownKeepsInvariant | sources/thelib/src/protocols/protocolmanager.cpp:68-79 | shutdown keeps the invariant, though it moves protocols to the dead map without setting their own flag |
| ProtocolStack.ShutdownLeaves | sources/thelib/src/protocols/protocolmanager.cpp:57-79 | shutdown and the cleanup behind it leave at most protocol 5, and that one exactly if it was active and neither neighbour takes it along |
| ProtocolStack.DrainStep | sources/thelib/src/protocols/protocolmanager.cpp:57-66 | what one turn of the cleanup loop does to the doomed set and to the end state |
| ProtocolStack.BaseProtocol.constructor | sources/thelib/src/protocols/baseprotocol.cpp:36-56 | adds one unlinked active protocol under the next id |
| ProtocolStack.BaseProtocol.SetFarProtocol | sources/thelib/src/protocols/baseprotocol.cpp:115-139 | terminates, and computes the linking step, abortion included |
| ProtocolStack.BaseProtocol.SetNearProtocol | sources/thelib/src/protocols/baseprotocol.cpp:152-176 | terminates, and computes the linking step seen from the other side |
| ProtocolStack.BaseProtocol.ResetFarProtocol | sources/thelib/src/protocols/baseprotocol.cpp:141-146 | cuts the link on both sides and keeps the invariant |
| ProtocolStack.BaseProtocol.ResetNearProtocol | sources/thelib/src/protocols/baseprotocol.cpp:178-182 | cuts the link on both sides and keeps the invariant |
| ProtocolStack.BaseProtocol.GetFarEndpoint | sources/thelib/src/protocols/baseprotocol.cpp:192-198 | terminates at the first protocol of the stack |
| ProtocolStack.BaseProtocol.GetNearEndpoint | sources/thelib/src/protocols/baseprotocol.cpp:200-205 | terminates at the last protocol of the stack |
| ProtocolStack.BaseProtocol.GetOutputBuffer | sources/thelib/src/protocols/baseprotocol.cpp:360-364 | whether the nearest override towards the near endpoint has output pending |
| ProtocolStack.BaseProtocol.EnqueueForDelete | sources/thelib/src/protocols/baseprotocol.cpp:211-216 | moves the protocol to the dead map once |
| ProtocolStack.BaseProtocol.GracefullyEnqueueForDelete | sources/thelib/src/protocols/baseprotocol.cpp:218-233 | terminates, and computes the graceful deletion of the whole stack from any member |
| ProtocolStack.BaseProtocol.ReadyForSend | sources/thelib/src/protocols/baseprotocol.cpp:396-403 | enqueues the first flagged protocol towards the near endpoint |
| ProtocolStack.BaseProtocol.Destroy | sources/thelib/src/protocols/baseprotocol.cpp:58-97 | the destructor: unlinks, enqueues the neighbours its flags say, unregisters, keeps the invariant |
| ProtocolStack.ProtocolManager.RegisterProtocol | sources/thelib/src/protocols/protocolmanager.cpp:31-37 | an id in either map is not filed again |
| ProtocolStack.ProtocolManager.UnRegisterProtocol | sources/thelib/src/protocols/protocolmanager.cpp:39-44 | the protocol leaves both maps and nothing else changes |
| ProtocolStack.ProtocolManager.EnqueueForDelete | sources/thelib/src/protocols/protocolmanager.cpp:46-55 | moves the protocol to the dead map without touching its own flag |
| ProtocolStack.ProtocolManager.CleanupDeadProtocols | sources/thelib/src/protocols/protocolmanager.cpp:57-66 | terminates, returns the number of protocols deleted, empties the dead map and deletes exactly the doomed set |
| ProtocolStack.ProtocolManager.Shutdown | sources/thelib/src/protocols/protocolmanager.cpp:68-79 | everything active but protocol 5 becomes dead |
| ProtocolStack.ProtocolManager.GetProtocol | sources/thelib/src/protocols/protocolmanager.cpp:81-90 | finds an id in the active map, and in the dead one only when asked to |
| ProtocolChain.BuiltStack | sources/thelib/src/protocols/protocolfactorymanager.cpp:182-222 | the stack built for a chain has exactly the requested types, far endpoint first, and leaves all older protocols alone |
| ProtocolChain.FailedChainLeavesNothing | sources/thelib/src/protocols/protocolfactorymanager.cpp:200-220 | after a failed attempt the next cleanup leaves none of the protocols spawned, and exactly what it would have left without the attempt, if and only if every one spawned but the last deletes its near neighbour |
| ProtocolChain.SurvivorsOfFailure | sources/thelib/src/protocols/protocolfactorymanager.cpp:200-220 | which of them are still live after it: exactly those with an earlier one that does not delete its near neighbour |
| ProtocolChain.SparedSurvivor | sources/thelib/src/protocols/protocolfactorymanager.cpp:200-220 | such a chain vector: TCP, HTTP for RTMP, inbound RTMP and RTMPE, which is handled but not implemented; the attempt fails after three, and the third stays live |
| ProtocolChain.SpawnProtocol | sources/thelib/src/protocols/defaultprotocolfactory.cpp:822-830 | a protocol that cannot be initialised is deleted again and leaves only its id used up |
| ProtocolChain.CreateProtocolChain | sources/thelib/src/protocols/protocolfactorymanager.cpp:178-222 | an unhandled type changes nothing; the process aborts, the near endpoint of the new stack is returned, or the attempt is given up, each exactly when |
| FrameParser.FeedConserves | sources/thelib/src/api3rdparty/gst_rmsframe.cpp:102-180 | one sample pushes at most one frame, and frame, parsed header and retained buffer are together the bytes held before and the sample |
| FrameParser.RunConserves | sources/thelib/src/api3rdparty/gst_rmsframe.cpp:102-180 | over every run, the frames pushed and what is held are exactly the bytes received |
| FrameParser.DecodingIsUnique | sources/thelib/src/api3rdparty/gst_rmsframe.cpp:129-176 | bytes that begin with encoded frames can be read as frames in one way only |
| FrameParser.EveryChunkingPushesAPrefix | sources/thelib/src/api3rdparty/gst_rmsframe.cpp:102-180 | however the bytes of a list of frames are cut into samples, what is pushed is a prefix of that list and what is held is the encoding of the rest so far |
| FrameParser.FeedPushesIff | sources/thelib/src/api3rdparty/gst_rmsframe.cpp:149-175 | a sample pushes a frame exactly when a complete one is there |
| FrameParser.PushedCount | sources/thelib/src/api3rdparty/gst_rmsframe.cpp:129-175 | each sample raises the number of frames pushed by one until it reaches the number arrived complete |
| FrameParser.NoLagIff | sources/thelib/src/api3rdparty/gst_rmsframe.cpp:129-175 | no complete frame ever waits if and only if no sample completes more than one |
| SampleParser.CameraCallback.TakeStamp | sources/thelib/src/api3rdparty/gst_rmsframe.cpp:129-138 | takes eight bytes off the buffer into the time stamp and moves the flag on, keeping exactly one set |
| SampleParser.CameraCallback.TakeSize | sources/thelib/src/api3rdparty/gst_rmsframe.cpp:140-147 | takes the little-endian length off the buffer |
| SampleParser.CameraCallback.TakeData | sources/thelib/src/api3rdparty/gst_rmsframe.cpp:149-175 | takes the payload off the buffer and pushes it with the stamp |
| SampleParser.CameraCallback.OnNewSample | sources/thelib/src/api3rdparty/gst_rmsframe.cpp:102-180 | the flags, buffers and queue follow the parser machine and the abstract queue; exactly one flag stays set |
| FrameQueue.Queue.PushBuffer | sources/thelib/src/api3rdparty/gst_rmsframe.cpp:969-993 | appends a copy of frame and stamp, or at 30 entries starts afresh with just that one |
| FrameQueue.Queue.PopBuffer | sources/thelib/src/api3rdparty/gst_rmsframe.cpp:999-1036 | describes the head without removing it: its size, its little-endian stamp divided by a million, its own buffer |
| FrameQueue.Queue.DeleteBuffer | sources/thelib/src/api3rdparty/gst_rmsframe.cpp:1042-1087 | drops exactly the head; every other frame keeps contents, size and stamp though each moves a slot down |
| FrameQueue.PeekSurvivesPushes | sources/thelib/src/api3rdparty/gst_rmsframe.cpp:969-1036 | whatever arrives between peek and delete, an overflow included, the peeked memory does not change |
| FrameDelivery.StepKeepsInv | sources/thelib/src/api3rdparty/apiprotocol.cpp:996-1025 | every step of camera or API thread keeps the delivery invariant |
| FrameDelivery.DeliveredInOrder | sources/thelib/src/api3rdparty/apiprotocol.cpp:996-1025 | over every interleaving the delivered frames are pushed frames, in push order, each at most once |
| FrameDelivery.LosslessWithoutOverflow | sources/thelib/src/api3rdparty/gst_rmsframe.cpp:969-993 | unless some step pushed a frame while thirty were waiting, delivered and waiting frames are all the pushed ones in order |
| FrameDelivery.OverflowDropsTheQueue | sources/thelib/src/api3rdparty/gst_rmsframe.cpp:969-993 | a push while thirty frames wait leaves the new frame alone in the queue, and loses all thirty but the one in the consumer's hand |
| FrameDelivery.PopNeverFindsNothing | sources/thelib/src/api3rdparty/gst_rmsframe.cpp:199-205 | the check outside the lock is enough: the later peek finds a frame |
| FrameDelivery.DeleteRemovesTheDeliveredIff | sources/thelib/src/api3rdparty/apiprotocol.cpp:1014-1022 | the deletion removes the delivered frame if and only if the frames queued at the peek and those pushed since are at most 30; if not, it removes a later frame that was not delivered |
| FrameDelivery.PeekExists | sources/thelib/src/api3rdparty/gst_rmsframe.cpp:199-205 | every frame in the consumer's hand was peeked at some step of the run, and kept since |
| FrameDelivery.SomeDeleteRemovesAnother | sources/thelib/src/api3rdparty/apiprotocol.cpp:996-1025 | such a run: a full queue, a peek, one more frame, and the deletion takes another frame than the one delivered |
| FrameDelivery.LostForever | sources/thelib/src/api3rdparty/apiprotocol.cpp:996-1025 | a frame that left the queue undelivered is delivered in no continuation |
| FrameDelivery.EndToEnd | sources/thelib/src/api3rdparty/apiprotocol.cpp:996-1025 | when the samples are the encoding of a list of frames cut anywhere, the frames delivered are frames of that list, with rising positions |
| FrameDelivery.RecordsReadBackIff | sources/thelib/src/api3rdparty/apiprotocol.cpp:1014-1019 | the records put into the output buffer can be read back one by one if and only if no 32-bit length field wraps |
| FrameDelivery.RecordsAreTheFrames | sources/thelib/src/api3rdparty/apiprotocol.cpp:1002-1019 | and then the k-th record has header 0 for stream type 1 and 1 for types 3 and 10, the time stamp in whole milliseconds times 1000, and the data of the k-th frame |
| ApiFeed.ApiProtocol.FeedData | sources/thelib/src/api3rdparty/apiprotocol.cpp:986-1033 | appends the record of the head, deletes the head, shows the buffer to the near protocol and gives back its answer; with no frame, or one of an unsupported type, changes nothing and says true |
| FlvDemux.Connection.OnDataAvailable | sources/protocolmodules/echosample/src/module.cpp:176-310 | terminates with result at most length, and makes the calls of the specified run over the tags |
| FlvDemux.Connection.Dispatch | sources/protocolmodules/echosample/src/module.cpp:230-307 | what one complete tag makes of the codec flags and the calls |
| FlvDemux.Connection.FeedInStream | sources/protocolmodules/echosample/src/module.cpp:268-301 | one call with time stamp and body; refusal ends the run |
| FlvDemux.Tags | sources/protocolmodules/echosample/src/module.cpp:215-309 | consumes at most the data; without an early exit it stops where no complete tag follows |
| FlvDemux.TagsResume | sources/protocolmodules/echosample/src/module.cpp:215-309 | a run over a + b is a run over a, then one over its leftover and b, unless the first exits early |
| FlvDemux.ChunkingDoesNotMatter | sources/protocolmodules/echosample/src/module.cpp:201-309 | for every cut of a stream, unconsumed bytes presented again: it exits early iff one call on the whole does, and otherwise calls, flags and leftover are those of that one call |
| FlvDemux.CallsUpToTheExit | sources/protocolmodules/echosample/src/module.cpp:262-273 | up to and including an early exit the calls are those of one call on the whole stream |
| FlvDemux.TagsMeanWhatTheySay | sources/protocolmodules/echosample/src/module.cpp:215-309 | on the encoding of a list of tags the run does what the tags mean one after the other and stops at a tag boundary |
| FlvDemux.OneCallOnAFile | sources/protocolmodules/echosample/src/module.cpp:204-309 | the nine bytes of the file header and the four behind them are skipped, and the tags then mean what they say |
| FlvDemux.EveryFileIsItsTags | sources/protocolmodules/echosample/src/module.cpp:179-309 | from the file to the calls: however a file of encoded tags is cut into chunks, the run makes the calls its tags mean, and without an early exit leaves over exactly what is behind the last tag |
| FlvDemux.OneTagIsItsMeaning | sources/protocolmodules/echosample/src/module.cpp:230-307 | one encoded tag does what its fields mean |
| FlvDemux.TimestampIff | sources/protocolmodules/echosample/src/module.cpp:230-232 | the time stamp handed on is that of the file format if and only if the extension byte is zero |
| FlvDemux.TimestampBits | sources/protocolmodules/echosample/src/module.cpp:230-232 | in general the bits of the extension byte show up in the lowest byte of the stamp |
| FlvDemux.ParameterSetsRoundTrip | sources/protocolmodules/echosample/src/module.cpp:285-291 | the SPS and PPS of a well-formed AVC header are handed on as they were put in |
| FlvDemux.ParameterSetsLayout | sources/protocolmodules/echosample/src/module.cpp:285-291 | and where an SPS and a PPS are handed on the tag is laid out like that |
| FlvDemux.EveryRunIsGated | sources/protocolmodules/echosample/src/module.cpp:239-306 | in every run each codec is set up at most once and nothing is fed before both are |
| TopBit.FindTopBit | sources/thelib/include/api3rdparty/g711.h:126-154 | the five masking steps find floor(log2) of every non-zero 32-bit word; zero gives -1 |
| TopBit.Narrow | sources/thelib/include/api3rdparty/g711.h:133-152 | a step tells one binary digit of the top position and keeps only ones that agree with it there |
| G711.LinearToUlaw | sources/thelib/include/api3rdparty/g711.h:232-263 | the bit operations compute the specified code for every int whose bias does not overflow |
| G711.UlawToLinear | sources/thelib/include/api3rdparty/g711.h:269-280 | the bit operations compute the specified sample, which fits 16 bits |
| G711.LinearToAlaw | sources/thelib/include/api3rdparty/g711.h:306-334 | the bit operations compute the specified code for every int but the least |
| G711.AlawToLinear | sources/thelib/include/api3rdparty/g711.h:340-352 | the bit operations compute the specified sample, which fits 16 bits |
| G711.FindSegment | sources/thelib/include/api3rdparty/g711.h:247-250 | the segment is found by the top bit; at least 8 means out of range |
| G711.DecodeAfterEncode | sources/thelib/include/api3rdparty/g711.h:232-280 | both laws: decoding the seven bits of a magnitude gives the midpoint of its cell |
| G711.EncodeAfterDecode | sources/thelib/include/api3rdparty/g711.h:306-352 | both laws: the decoded magnitude, and the one below it, are encoded by the same seven bits |
| G711.LevelMonotone | sources/thelib/include/api3rdparty/g711.h:232-352 | both laws: midpoints are ordered as magnitudes are, across segments too |
| G711.LevelIsNear | sources/thelib/include/api3rdparty/g711.h:232-352 | both laws: the midpoint is within half a step |
| G711.UlawIsMidpoint | sources/thelib/include/api3rdparty/g711.h:232-280 | for every integer, decoding the code gives the signed, unbiased midpoint |
| G711.UlawError | sources/thelib/include/api3rdparty/g711.h:232-280 | error at most 4 * 2^segment on [-32636, 32635] |
| G711.UlawSaturates | sources/thelib/include/api3rdparty/g711.h:247-256 | outside that range the result is plus or minus 32124 |
| G711.UlawMonotone | sources/thelib/include/api3rdparty/g711.h:232-280 | decode after encode is monotone over all integers |
| G711.UlawIdempotent | sources/thelib/include/api3rdparty/g711.h:232-280 | decode after encode is idempotent over all integers |
| G711.UlawCodesOrdered | sources/thelib/include/api3rdparty/g711.h:232-280 | the code words: the top bit is set exactly on what is not negative, and the other seven count down from all ones with the magnitude |
| G711.UlawCodesRoundTrip | sources/thelib/include/api3rdparty/g711.h:232-280 | encode after decode is the identity on a code if and only if it is not 0x7F, minus zero, which becomes 0xFF |
| G711.AlawIsMidpoint | sources/thelib/include/api3rdparty/g711.h:306-352 | for every integer, decoding the code gives the signed midpoint |
| G711.AlawError | sources/thelib/include/api3rdparty/g711.h:306-352 | error at most 8 in segment 0 and 4 * 2^segment above, on [-32768, 32767] |
| G711.AlawSaturates | sources/thelib/include/api3rdparty/g711.h:322-330 | outside that range the result is plus or minus 32256 |
| G711.AlawMonotone | sources/thelib/include/api3rdparty/g711.h:306-352 | decode after encode is monotone over all integers |
| G711.AlawIdempotent | sources/thelib/include/api3rdparty/g711.h:306-352 | decode after encode is idempotent over all integers |
| G711.AlawCodesOrdered | sources/thelib/include/api3rdparty/g711.h:306-352 | the code words, with every other bit inverted back: the top bit is set exactly on what is not negative, and the other seven count up from zero with the magnitude |
| G711.AlawCodesRoundTrip | sources/thelib/include/api3rdparty/g711.h:306-352 | encode is a left inverse of decode on every code |
| CaptureReassembly.PcapFileSource.GetData | sources/trafficdissector/src/pcapfilesource.cpp:140-276 | reads the headers of a frame, and fails, blanks or hands on its payload exactly as specified; moves on only the sequence number of its direction |
| CaptureFrames.FrameLayout | sources/trafficdissector/src/pcapfilesource.cpp:26-67 | on a frame laid out field by field, options included, endpoints, number, flags and payload are read as they were put in |
| CaptureFrames.FitsIff | sources/trafficdissector/src/pcapfilesource.cpp:149-185 | the frames whose headers are accepted are exactly those so laid out |
| CaptureFrames.FrameIsItsSegment | sources/trafficdissector/src/pcapfilesource.cpp:140-255 | reading such a frame comes to the answer said by its fields: which way it goes, when it fails, is blanked, or is handed on, and the number expected next |
| CaptureFrames.OtherFrameFails | sources/trafficdissector/src/pcapfilesource.cpp:149-185 | reading any other frame fails |
| CaptureReassembly.ContiguousSlice | sources/trafficdissector/src/pcapfilesource.cpp:196-252 | whatever a capture of slices of a stream hands on in a direction, before it fails or ends, is one contiguous slice: no gap and no repeat |
| CaptureReassembly.SliceGrows | sources/trafficdissector/src/pcapfilesource.cpp:196-252 | from any point of a run on, the slice handed on so far grows only at its end |
| CaptureReassembly.HandedOnIff | sources/trafficdissector/src/pcapfilesource.cpp:196-252 | over every run from its start, failed or not, the payload of all packets of a direction has been handed on, each at its place in the stream, if and only if none begins before the first byte handed on or ends beyond the number expected in the end; where nothing was handed on, if and only if there was none |
| CaptureReassembly.NothingIsMissed | sources/trafficdissector/src/pcapfilesource.cpp:204-224 | a sufficient case of that: the run does not fail, and no repetition reached beyond what had been handed on when it came |
| CaptureReassembly.OverlapCanBeMadeGood | sources/trafficdissector/src/pcapfilesource.cpp:207-221 | a repetition that reached beyond does no harm when its end comes once more in order |
| CaptureReassembly.OverlapEndsTheReading | sources/trafficdissector/src/pcapfilesource.cpp:204-224 | a repetition with new bytes behind the old is blanked whole, and with the packet that follows it on the wire the reading fails, whatever comes after |
| CaptureReassembly.RepetitionIsSkipped | sources/trafficdissector/src/pcapfilesource.cpp:207-212 | a packet from before the expected number leaves the rest of the run, both ways, as if it had not been captured |
| CaptureReassembly.ReadWholeIff | sources/trafficdissector/src/pcapfilesource.cpp:196-252 | a conversation in both directions, interleaved anyhow, in which each packet begins where the one before it in its direction ended by the count of RFC 9293, is read to the end if and only if every packet that another of its direction follows has neither SYN nor FIN or just one of them and no data; and then all payload of both directions is handed on |
| CaptureReassembly.AdvanceIsTcpsIff | sources/trafficdissector/src/pcapfilesource.cpp:217-221 | the source counts sequence numbers as RFC 9293 does if and only if SYN or FIN comes neither with data nor with the other |
| CaptureReassembly.FinWithDataEndsTheReading | sources/trafficdissector/src/pcapfilesource.cpp:204-224 | after a FIN that carried data the reading fails at the sender's next packet though nothing is missing |
| Base64.Base64Encode | dist_template/demo/base64.js:27-75 | the do-while loop computes the specified output for every string of UTF-16 code units |
| Base64.DecodesToInputIff | dist_template/demo/base64.js:50-74 | the output is always accepted by a strict RFC 4648 decoder, and decodes to the input if and only if every code is below 256 |
| Base64.OutputEncodes | dist_template/demo/base64.js:54-74 | it is the RFC 4648 encoding of the low 24 bits of every three code units |
| Base64.OctetStringsStayApart | dist_template/demo/base64.js:50-74 | no two strings of octets are encoded alike |
| Base64.NotInjective | dist_template/demo/base64.js:59-66 | beyond octets two strings can be: U+0100 and U+0000 |
| Base64.DecodesIff | dist_template/demo/base64.js:46-74 | reference: the strict decoder accepts a text as s exactly if the text is the encoding of s |
| Base64.LengthAndPadding | dist_template/demo/base64.js:70-74 | four letters per three octets begun, and padding exactly in the places of the octets missing from the last three |
| Base64.TestVectors | dist_template/demo/base64.js:28-74 | three of the test vectors of RFC 4648 |
| StreamAliases.BaseClientApplication.GetStreamNameByAlias | sources/thelib/src/application/baseclientapplication.cpp:636-664 | the name found, and what is erased by finding it |
| StreamAliases.BaseClientApplication.SetStreamAlias | sources/thelib/src/application/baseclientapplication.cpp:666-682 | refused without the configuration property, otherwise stores an alias that starts now |
| StreamAliases.BaseClientApplication.RemoveStreamAlias | sources/thelib/src/application/baseclientapplication.cpp:684-689 | refused without the configuration property, otherwise erases just that alias |
| StreamAliases.BaseClientApplication.HasExpiredAlias | sources/thelib/src/application/baseclientapplication.cpp:626-634 | an alias is there and has run out |
| StreamAliases.StreamAliasExpireTimer.TimePeriodElapsed | sources/thelib/src/application/baseclientapplication.cpp:56-68 | erases exactly the expired aliases, in whatever order the map is gone through; nothing once detached |
| StreamAliases.LookupsFollowHistory | sources/thelib/src/application/baseclientapplication.cpp:636-664 | in every run with a clock never set back, a lookup finds exactly what the history of sets, removals and single uses says |
| StreamAliases.FoundIff | sources/thelib/src/application/baseclientapplication.cpp:636-686 | which name, by the operations alone: the one some operation set the alias to, if no other set, removal or, for a negative period, using lookup came after it and the size of its period has not passed; none if there is no such operation |
| StreamAliases.StoredAsSet | sources/thelib/src/application/baseclientapplication.cpp:668-686 | what the map holds is, field by field, what was last set under that name |
| StreamAliases.TimerIsInvisible | sources/thelib/src/application/baseclientapplication.cpp:56-68 | firing the timer anywhere, any number of times, changes no lookup of the run |
| StreamAliases.TimerShowsIff | sources/thelib/src/application/baseclientapplication.cpp:626-634 | over every run, HasExpiredAlias answers differently than without the timer if and only if without it the alias would still be in the map and the timer fired after it had run out |
| StreamAliases.OneTickShowsIff | sources/thelib/src/application/baseclientapplication.cpp:56-68 | firing the timer once changes what HasExpiredAlias answers later if and only if the alias had expired by then |
| StreamAliases.TimerShowsInHasExpired | sources/thelib/src/application/baseclientapplication.cpp:626-634 | such a run |
| StreamAliases.NotAfterExpiry | sources/thelib/include/application/baseclientapplication.h:65-72 | a lookup that finds a name finds the one last set, not later than the size of its period allows |
| StreamAliases.FoundUntilExpiry | sources/thelib/src/application/baseclientapplication.cpp:636-664 | until its period is over an alias is found, whatever happens that does not set, remove or use it up |
| StreamAliases.OneShotOnlyOnce | sources/thelib/src/application/baseclientapplication.cpp:647-654 | an alias set with a negative period and looked up with removal is not found again until it is set again |
| StreamAliases.WithoutAliases | sources/thelib/src/application/baseclientapplication.cpp:658-663 | without the configuration property nothing is ever stored and every name stands for itself |
| ApplicationIndex.ClientApplicationManager.RegisterApplication | sources/thelib/src/application/clientapplicationmanager.cpp:43-78 | succeeds exactly if id, name and aliases are all free; a failure changes nothing |
| ApplicationIndex.ClientApplicationManager.UnRegisterApplication | sources/thelib/src/application/clientapplicationmanager.cpp:80-107 | takes id, name and aliases away, whoever they lead to, and the default if it has that id |
| ApplicationIndex.ClientApplicationManager.FindAppByName | sources/thelib/src/application/clientapplicationmanager.cpp:113-117 | what the name leads to in the index |
| ApplicationIndex.ClientApplicationManager.FindAppById | sources/thelib/src/application/clientapplicationmanager.cpp:119-123 | what the id leads to |
| ApplicationIndex.EveryRunIsSound | sources/thelib/src/application/clientapplicationmanager.cpp:43-107 | over every run of registrations and of unregistrations of what is registered, names and default lead only to registered applications, and to all of them |
| ApplicationIndex.DefaultIsTheLast | sources/thelib/src/application/clientapplicationmanager.cpp:43-107 | after every run the default application is the last one that was registered as default and not refused, unless its id was unregistered since; otherwise there is none |
| ApplicationIndex.FindsTheOne | sources/thelib/src/application/clientapplicationmanager.cpp:113-117 | a name finds an application if and only if that one is registered and has it as name or alias |
| ApplicationIndex.RegisterKeepsSound | sources/thelib/src/application/clientapplicationmanager.cpp:43-78 | registering keeps the index sound, refused or not |
| ApplicationIndex.RegisteredIsFound | sources/thelib/src/application/clientapplicationmanager.cpp:64-73 | a registered application is found by all its names, and every other name leads where it led |
| ApplicationIndex.UnregisterUndoesRegisterIff | sources/thelib/src/application/clientapplicationmanager.cpp:43-101 | unregistering what was just registered restores the index if and only if it did not replace another default application |
| ApplicationIndex.UnregisterKeepsSoundIff | sources/thelib/src/application/clientapplicationmanager.cpp:80-107 | unregistering anything keeps it sound if and only if the names taken away are its own and nobody else's, which holds for whatever is registered |
| ApplicationIndex.UnregisteringARefused | sources/thelib/src/application/clientapplicationmanager.cpp:80-107 | unregistering an application that was refused over a taken name leaves the owner registered but no longer found by it |
| ApplicationIndex.ConfigFile.NormalizeApplications | sources/thelib/src/configuration/configfile.cpp:368-400 | accepts exactly the configurations whose entries are each acceptable and share no name; what is accepted has pairwise disjoint names, read out in order |
| ApplicationIndex.ConfigFile.NormalizeApplication | sources/thelib/src/configuration/configfile.cpp:402-551 | accepts exactly the entries whose name and aliases are present, not empty, and new, also to each other |
| ApplicationIndex.NoneIsRefused | sources/thelib/src/application/clientapplicationmanager.cpp:43-78 | registering the applications of an accepted configuration one after another, in any order, none is refused |
| SessionRelay.Session.FeedData | sources/applications/livertmpdissector/src/session.cpp:91-104 | follows the relay machine: waits, is given to the other end, or is refused; the rest of a refused buffer stays |
| SessionRelay.Session.SetOutboundProtocolId | sources/applications/livertmpdissector/src/session.cpp:82-89 | appends exactly what waited to the outbound protocol; the buffer is emptied unless the carrier could not be woken |
| SessionRelay.Session.ConnectIsStep | sources/applications/livertmpdissector/src/session.cpp:82-89 | with a new outbound protocol that is the hand-over step of the relay machine |
| SessionRelay.RawTcpProtocol.FeedData | sources/applications/livertmpdissector/src/rawtcpprotocol.cpp:76-79 | appends to the output buffer whatever the carrier then answers |
| SessionRelay.RawTcpProtocol.GetOutputBuffer | sources/applications/livertmpdissector/src/rawtcpprotocol.cpp:56-60 | nothing, or all that is pending |
| SessionRelay.BothWaysConserved | sources/applications/livertmpdissector/src/session.cpp:82-104 | over every session, across the switch, each end was given exactly what arrived at the other, in order, while nothing is lost |
| SessionRelay.ConservedIff | sources/applications/livertmpdissector/src/session.cpp:98-101 | a direction is conserved if and only if no byte of it found its other end gone |
| SessionRelay.NothingWaitsAfterTheSwitch | sources/applications/livertmpdissector/src/session.cpp:86-88 | after the switch the temporary buffer is empty, unless waking the carrier failed |
| SessionRelay.FailedHandOverKeepsACopy | sources/applications/livertmpdissector/src/session.cpp:86-88 | if it failed the buffer keeps a second copy of what was handed over |
| SessionRelay.WaitingAfterTheSwitch | sources/applications/livertmpdissector/src/session.cpp:82-89 | from the switch on the temporary buffer holds nothing if the carrier was woken, and otherwise all that had arrived before |
| SessionRelay.AnswersAreTrueIff | sources/applications/livertmpdissector/src/session.cpp:91-104 | over every session, the bytes callers were told were taken are exactly those handed on, if and only if the carrier of an end that was there could always be woken |

## Left out

- Protocol factories' register and unregister maps: the same shape as the application index; the types some factory handles are a parameter of `CreateProtocolChain`, and so is what each spawn yields.
- `SetApplication(NULL)` when a protocol is enqueued: taken to have no effect on links and maps.
- Overrides of the virtual methods in protocol subclasses: only their delete flags, their `AllowFar`/`AllowNear` tables and whether they have output pending enter the model.
- Wrap-around of protocol, application and session ids: ids are unbounded.
- ProtocolStack.ProtocolManager.CleanupDeadProtocols: which dead protocol goes next is left open, where the source takes the least id; the result is proved not to depend on it.
- The order in which a map is iterated (Shutdown, the alias timer): likewise left open.
- The licence and demo counters, and chain names, in `CreateProtocolChain`; the empty chain, which the source does not survive.
- `gstTerminateFrame`, allocation failure, and the unlocked reset of `pushIndex` on stream restart (line 424 of `gst_rmsframe.cpp`): not part of the interleavings.
- The four bytes `sizeof(pts)` reserves for an eight-byte time stamp on a 32-bit platform: slots hold eight.
- FrameDelivery.StepKeepsInv: each queue operation is one atomic step because it runs under the mutex; a mutex that cannot be locked is not modelled.
- SampleParser.CameraCallback.OnNewSample: the UDP socket that wakes the reader and the stream type it announces are the `Announce` step of `FrameDelivery`.
- ApiFeed.ApiProtocol.FeedData: the branch for other platforms, and the refusal of a stream that was started and stopped, which also ends in true, are left out; what the near protocol takes off the buffer is a parameter.
- FlvDemux.Connection.OnDataAvailable: an AVC header whose lengths lead past the tag is handed on as `PastTag` instead of reading beyond it, where what is read would depend on how the stream was cut; lengths do not wrap at 32 bits.
- FlvDemux.Connection.Dispatch: the same `PastTag`.
- `bottom_bit`, the transcoders and the assembler forms of `top_bit`: unused by the four functions modelled.
- G711.LinearToAlaw: the least int, whose negation overflows in the source, is excluded, as are for the mu-law the ints whose bias overflows.
- CaptureReassembly.PcapFileSource.GetData: a frame is taken to be captured whole; opening the file, compiling the filter and time stamps are left out.
- CaptureReassembly.NothingIsMissed: one direction only, because OverlapCanBeMadeGood shows the other fails; HandedOnIff is the exact condition.
- CaptureReassembly.ContiguousSlice: assumes, beyond slices of one stream, that sequence numbers do not wrap and that a bare SYN comes before the stream and a bare FIN after it.
- `Variant` nodes of the configuration: an entry is its name, its aliases and whether the rest of it is acceptable; paths, acceptors and defaults are not modelled.
- ApplicationIndex.ClientApplicationManager.UnRegisterApplication: event logging is left out, as is deleting applications on shutdown.
- Ingest points: `CreateIngestPoint` passes a NULL protocol and skips the name check, so nothing is claimed of the two maps.
- StreamAliases.BaseClientApplication.SetStreamAlias: the clock is a parameter; 64-bit overflow of creation time plus period is not modelled.
- The dissector a session feeds on the side, the table of sessions and the session's destructor.
- GStreamer pipelines, sockets, event loops, libpcap, files and process control: input and output.
- Helper methods such as `Store`, `MoveDown`, `Attach` or `Extend` split one method of the source in several; the split is the model's.
