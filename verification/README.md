# M-EXTENDER: a verified model

M-EXTENDER turns an Android tablet into a second screen of a Windows PC. A host program captures a
monitor, encodes it, and streams video and audio over TCP; the tablet decodes, plays, and sends touch
and stylus input back; an indirect display driver provides a virtual monitor. This project models the
parts of those three programs that move bytes, keep state and share it between threads, and proves
properties of them in Dafny 4.11. `dafny verify dfyconfig.toml` covers the whole project.

Two forms recur. A loop or a method that changes state is a Dafny method or class with the source's own
variables, proved equal to a function of its inputs or old state; what the source promises is proved of
that function. A thing shared between threads is a state machine over its atomic steps, and its
properties hold over every sequence of steps. What the system does not decide itself (short sends
and receives, failing captures and resizes, send times, the order in which threads move, a map's iteration
order) is an argument that every property quantifies over.

| file | models |
|---|---|
| Bytes, Reals | wire integers; conversion of reals to integers |
| Nal, VideoPayload | Annex B splitting, the NAL container, the tablet's parser and decoder feed |
| Framing, Sockets | message framing as functions on byte strings; both socket ends as they run |
| InputBatch, TabletClient, Inject, Contacts | input events from touch to wire to cursor; the tablet's sending side |
| Pipeline, HostToTablet | video and audio over one stream, end to end; with the main loop's run at its beginning |
| Controller, HostLoop, HostLoopRuns, HostLoopFrames | the adaptive-resolution controller; the main loop; every run of it; the frames it sends |
| Color | BGRA to NV12, in place |
| Resampler, CaptureQueue, FrameQueue | audio resampling; the host's and the tablet's bounded queues |
| RunCore, SwapChain | the driver's swap-chain threads, and who owns their processors |
| Nvenc, Adts | two sibling codecs |

## Where the code decides

- The comment at host/src/encode/nal.h:9 says bytes after the last NAL unit are discarded; the code keeps
  them as part of that unit, and so does the model.
- proto/protocol.md:17 calls the sequence number monotonic; the tablet always sends 0. Only the host's
  numbers are claimed to count up.
- The comment at the tablet's VideoPlayer.kt:85 says the newest frame is dropped; the loop drops the oldest.
  The queue never holds more than four frames, yet the loop can run, because size() walks the queue while
  frames are added (`FrameQueue.StaleDropIff`, `FrameQueue.StaleDropCanRun`).
- The tablet does not look at the version field of a header, the host does; the two readers differ so.

A Resize that fails. The loop takes a failure below the top of the ladder for an encoder that is native
again. The interface would let an encoder refuse and stay on at its reduced size; the size reported would then
be wrong and the change unannounced, and `HostLoopFrames.MisreportIff` and `HostLoopFrames.UnannouncedIff` say
exactly when. No encoder of the repository does that: the hardware encoders refuse only when they are not set
up (host/src/encode/nvenc.cpp:272, qsv.cpp:229, amf.cpp:236) and otherwise have been stopped when they fail, the
null encoder never fails, and an encoder without Resize is never reduced. For all of these every reported size is
true and every change announced. But with a hardware encoder any failed Resize ends the video for good, since
the same guards refuse every later one (`HostLoopFrames.FailedResizeEndsVideo`).

A destructor that waits. The driver does not check that CreateEvent succeeded, and RunCore leaves a missing
event out of its wait. With the new-frame event alone the terminate signal is never seen; with the terminate
event alone its signal is taken for a new frame and lost. The destructor then ends only if the thread leaves
for a failure to bind, to acquire or to finish a frame (`SwapChain.DestructorEndsIff`), and so never while
every acquire pends (`SwapChain.DestructorCanEndIff`).

A cursor on the wrong monitor. Mouse coordinates are scaled to the virtual screen, which holds all monitors, but
the flags at host/src/input/inject.cpp:139-140 leave out MOUSEEVENTF_VIRTUALDESK, so the system takes them over
the primary monitor. A finger reaches the pixel it names on every place of the monitor shown only when the host
has a single monitor (`Inject.MonitorReachedIff`); on a second monitor it never does
(`Inject.OtherMonitorNeverReached`, `Inject.CentreOfSecondMonitorMissed`). A stylus is not affected.

A frame of the wrong size. host/src/encode/encoder.h:30-32 wants every frame handed to an encoder to have the
size of its last Resize. When the scaler fails below the top of the ladder the loop hands it the native frame
(host/src/main.cpp:275-277); `HostLoopFrames.TextureFits` gives the exact condition.

Other behaviour proved here that may not be what was wanted: touches never click (`Inject.TouchesNeverClick`);
a touch on the view's right or bottom edge names a pixel past the monitor (`Inject.FingerStaysOnMonitorIff`); a
swap chain whose thread could not be created is never deleted (`SwapChain.QuietMeansAllDeletedOnce`).

## Model

| member | source | states |
|---|---|---|
| Nal.SplitAnnexB | host/src/encode/nal.cpp:5-26 | The scanning loop returns exactly the units of the recursive splitting function `Split`, for every byte string. |
| Nal.SplitHasNoStartCode | host/src/encode/nal.cpp:10-24 | No unit of any split contains 00 00 01, with no condition on the input. |
| Nal.UnitHasNo000001 | host/src/encode/nal.cpp:10-24 | That is: at no place in any unit of a split do the bytes 00 00 01 stand. |
| Nal.JoinBytes | tablet/app/src/main/java/com/twinscreen/tablet/VideoPlayer.kt:91-99 | What a join is, byte for byte: each unit behind 00 00 01 or 00 00 00 01. |
| Nal.SplitTilesInput | host/src/encode/nal.cpp:10-24 | The input is a prefix without a start code followed by start codes and units in turn, every byte in exactly one piece, trailing bytes included; and that tiling is separable. |
| Nal.SplitInvertsJoinIff | host/src/encode/nal.cpp:10-24 | For every list of units (empty ones included) under any mixture of 3- and 4-byte codes, behind any prefix without a start code, splitting the join gives the list back if and only if no unit contains a start code and no unit before a 3-byte code ends in zero. |
| Nal.SplitOfJoin | host/src/encode/nal.cpp:13-21 | What splitting does to a join otherwise: each unit that ends in zero before a 3-byte code loses that zero, nothing else changes. |
| Nal.SplitIsTheOnlyTiling | host/src/encode/nal.cpp:10-24 | Every separable tiling of an input has the units of the split: the split is determined by what it means. |
| Nal.HasIdrSlice | host/src/encode/nal.cpp:28-34 | The scanning loop answers `AnyIdrSlice`, for every list of units. |
| Nal.IdrIsTypeFive | host/src/encode/nal.cpp:30 | For one unit that begins with forbidden_zero_bit f, nal_ref_idc ref and nal_unit_type t (section 7.3.1 of ITU-T H.264), the answer is true if and only if t is 5. |
| Nal.AnyIdrSliceIff | host/src/encode/nal.cpp:28-34 | For a list the answer is true if and only if some unit begins with a byte 128 f + 32 ref + 5. |
| Nal.FeedBuffer | tablet/app/src/main/java/com/twinscreen/tablet/VideoPlayer.kt:80-99 | The feed thread's buffer is every unit behind 00 00 00 01, and the byte count is the buffer's length. |
| Nal.AnnexBKeepsSplit | tablet/app/src/main/java/com/twinscreen/tablet/VideoPlayer.kt:91-99 | For every byte string, the units of its split behind 4-byte start codes split into the same units. |
| VideoPayload.BuildVideoPayload | host/src/main.cpp:73-86 | The payload is the count and then each unit behind its length (`Container`). |
| VideoPayload.ParseVideoFrame | tablet/app/src/main/java/com/twinscreen/tablet/Protocol.kt:158-174 | The cursor loop computes the recursive parse, with the same exception on every malformed payload. |
| VideoPayload.ReadUnitsIff | tablet/app/src/main/java/com/twinscreen/tablet/Protocol.kt:165-172 | Reading a given number of units succeeds with a list if and only if the bytes begin with the host's serialisation of exactly that list. |
| VideoPayload.ParseIff | tablet/app/src/main/java/com/twinscreen/tablet/Protocol.kt:158-174 | Which payloads the tablet accepts and what it reads from each, in both directions; a negative count reads no units, bytes after the last unit are ignored. |
| VideoPayload.ParseOfHostPayload | host/src/main.cpp:296-307 | What the host assembles parses back to the same flag, codec, size and units. |
| VideoPayload.EncoderToDecoder | host/src/main.cpp:73-86 | For every encoder output below 2^31 bytes: split, payload, parse, start codes and split again give the units of the first split and the same IDR answer. |
| VideoPayload.PayloadBytes | proto/protocol.h:100-107 | The header's twelve bytes and the units' container, field by field in the protocol's order. |
| Framing.HeaderFields | proto/protocol.h:63-70 | Every header field stands at the protocol's offset, little-endian. |
| Framing.HeaderBytes | proto/protocol.h:17-70 | A header begins with 'S', 'P', '2', '!' and version 1, and the fields follow in the protocol's order. |
| Bytes.LittleEndian | proto/protocol.h:63-70 | Words are written and read least significant byte first. |
| Framing.NextIff | host/src/net/server.cpp:136-153 | A reader takes a message off the front of the stream if and only if the stream begins with it behind a header that reader accepts: the host looks at magic and version, the tablet at the magic alone. |
| Framing.DeframeOfCutStream | tablet/app/src/main/java/com/twinscreen/tablet/Client.kt:190-235 | For every list of messages and every byte at which the stream is cut, a reader on either side delivers exactly the messages complete by then, in order. |
| Framing.CompleteCountIs | tablet/app/src/main/java/com/twinscreen/tablet/Client.kt:193-217 | The number of complete messages is what it says: that many end within the cut, the next one does not. |
| Framing.DeframeOfStream | host/src/net/server.cpp:127-154 | The uncut stream delivers the whole list. |
| Framing.DeframeSound | host/src/net/server.cpp:136-153 | The converse: for arbitrary bytes and either reader, the delivered messages stand in them end to end, each behind an accepted header with its type and its length; a length of 2^31 or more yields, on the host only, that many zeros and takes no bytes of the stream. |
| Sockets.RecvExact | host/src/net/server.cpp:16-25 | Whatever each receive returns, the buffer holds exactly the next bytes of the stream, and failure means the stream ended first. |
| Sockets.SendAll | host/src/net/server.cpp:27-36 | Whatever each send takes, success puts exactly the bytes on the wire and failure a proper prefix of them. |
| Sockets.TcpServer.SendFrame | host/src/net/server.cpp:100-125 | Success appends one whole frame with the next sequence number; failure appends a proper prefix and ends the connection. |
| Sockets.TcpServer.ReadFrame | host/src/net/server.cpp:127-154 | One poll delivers the next message of the stream, or nothing when not ready, or ends the connection exactly when no whole acceptable message is left. |
| Sockets.DrainHost | host/src/main.cpp:386-409 | Any sequence of polls: messages delivered so far followed by those still to come are always the messages of the stream. |
| Sockets.SendRun | host/src/net/server.cpp:100-125 | A run of sends under any pattern of short sends and one failure: the wire is a prefix of the stream in which exactly the messages reported as sent are complete, numbered from 1. |
| Sockets.SentIsDelivered | host/src/net/server.cpp:100-125 | What such a run leaves on the wire is delivered at the other end as exactly the messages reported as sent. |
| Sockets.SendRaw | tablet/app/src/main/java/com/twinscreen/tablet/Client.kt:284-289 | The byte-by-byte header write and the payload write put exactly header and payload on the wire, or a proper prefix. |
| Sockets.ReceiveLoop | tablet/app/src/main/java/com/twinscreen/tablet/Client.kt:190-217 | Whatever the receives return, the loop delivers exactly the messages the stream holds. |
| InputBatch.PackInputBatch | tablet/app/src/main/java/com/twinscreen/tablet/Protocol.kt:115-130 | The cursor loop fills the buffer with the count and twelve bytes an event. |
| InputBatch.UnpackOfPackIff | host/src/input/inject.cpp:80-84 | For every list of events, the host's walk over the packed batch stays inside it and reads each event reduced to its wire widths; it reads the list that was packed if and only if every event fits the wire. |
| InputBatch.PackReduces | tablet/app/src/main/java/com/twinscreen/tablet/Protocol.kt:118-127 | A field that does not fit is reduced modulo its width: the packed bytes are those of the reduced event. |
| InputBatch.EventBytes | proto/protocol.h:109-119 | An event's twelve bytes, in the protocol's order. |
| InputBatch.BatchBytes | tablet/app/src/main/java/com/twinscreen/tablet/Protocol.kt:115-130 | A batch is its count and then event k at byte 4 + 12 k. |
| TabletClient.PackHeader | tablet/app/src/main/java/com/twinscreen/tablet/Protocol.kt:83-93 | The cursor fills the 24 bytes of `Framing.Header`; left to its defaults, with sequence number and time 0. |
| TabletClient.RequestBytes | tablet/app/src/main/java/com/twinscreen/tablet/Client.kt:269-279 | A keyframe request is a header of type 4, a batch one of type 5 with its bytes, both with sequence number and time 0. |
| TabletClient.WantedIff | tablet/app/src/main/java/com/twinscreen/tablet/Client.kt:273-274 | Of the requests only empty batches are not sent. |
| TabletClient.Client.Send | tablet/app/src/main/java/com/twinscreen/tablet/Client.kt:269-294 | A request puts one whole frame on the wire or ends the connection with a proper part of it; an empty batch, and any request after the end, puts nothing. |
| TabletClient.SendRequests | tablet/app/src/main/java/com/twinscreen/tablet/Client.kt:269-294 | A run of requests under any short sends and failures: the wire is a prefix of the stream of the wanted requests in which exactly those reported as sent are complete; all are, unless the connection ended. |
| TabletClient.RequestsArrive | host/src/main.cpp:386-393 | What such a run leaves on the wire is understood by the host as exactly the requests reported as sent, in order, every batch event for event. |
| TabletClient.TabletToHost | host/src/main.cpp:386-393 | Both ends running: whatever the polls and receives do, the host has read the first of the requests reported as sent, and all of them once the connection is over. |
| Pipeline.StreamArrives | host/src/main.cpp:293-381 | For every list of messages the host sends on one connection, video, audio and others in any order, and every byte at which the stream breaks off, the tablet gets exactly the complete ones: video with the host's flags and sizes and units that split into the encoder's own with the same IDR answer, audio with rate, channels and data that a standard reader cuts into the raw frames. |
| Pipeline.MessageBytes | proto/protocol.h:32-39 | The types of the host's messages and the layout of their payloads. |
| Pipeline.DispatchByType | tablet/app/src/main/java/com/twinscreen/tablet/Client.kt:218-233 | Messages of type 3 are parsed as video, of type 7 as audio, and others are ignored. |
| HostToTablet.RunAnnounces | host/src/main.cpp:249-301 | In the order sent, every frame of every run reports the size it was encoded at, and the first frame and every one with another size than the one before it are flagged, with encoders that never stay on at a reduced size after a failed Resize. |
| HostToTablet.TabletKnowsSizes | tablet/app/src/main/java/com/twinscreen/tablet/Client.kt:190-230 | Main loop, stream and receive loop together: of the frames the tablet parses out of any connection that carries a run's frames among other messages, cut anywhere, each has the size it was encoded at, and the first and every change of size are flagged as keyframes. |
| Pipeline.AudioArrives | host/src/main.cpp:365-377 | An audio message parses back to rate, codec and channels, and its data divides into the encoder's raw frames. |
| Controller.CongestionReachesBottom | host/src/main.cpp:323-353 | From any state, 141 or more consecutive frames of at least 36 ms leave the ladder at its bottom step. |
| Controller.StepsIff | host/src/main.cpp:327-352 | Over every run of send times: a frame takes the ladder one step down if and only if there is one and the averages after it and the 44 frames before it were all above 18.0 ms with no step down among those 44; one up if and only if there is one and the averages after it and the 149 before it were all below 6.0 ms with no step up among those 149; else it stays. |
| Controller.AverageClosedForm | host/src/main.cpp:324-326 | After positive send times the average is 0.9 to the number of frames since times the first, and a tenth of each later one likewise faded. |
| Controller.CongestionBoundIsTight | host/src/main.cpp:115-121 | 141 cannot be lowered: a reachable state and 140 such frames that do not reach the bottom. |
| Controller.ClearingReachesTop | host/src/main.cpp:323-353 | From any state, send times of at most 3 ms for the average's settling time and 450 frames leave the ladder at native. |
| Controller.SettleTimeBound | host/src/main.cpp:324-326 | The settling time is at most one frame per 0.3 ms of average above 6 ms, plus one. |
| Controller.TicksSane | host/src/main.cpp:337-352 | Over every run of send times the step index stays in 0..3 and the average non-negative. |
| HostLoop.MainLoop.Resize | host/src/main.cpp:254-287 | The resize phase, on the loop's own variables, is `ResizePhase`, and the texture left to encode is `Texture`, the captured one when the scaler fails. |
| HostLoop.MainLoop.Adapt | host/src/main.cpp:324-352 | The average, the streaks and the ladder step, on the loop's own variables, are `Controller.Tick`, and nothing else changes. |
| HostLoop.MainLoop.TurnOver | host/src/main.cpp:250-413 | One turn of the loop moves its variables as `Step` says and sends the frame `Emitted` says. |
| HostLoop.InvKept | host/src/main.cpp:250-413 | Every turn keeps the loop's invariant on sizes, encoder, streaks and ladder moves. |
| HostLoop.RunInv | host/src/main.cpp:250-413 | From start-up, after any sequence of turns, that invariant holds and the native size and the adaptive switch are those of start-up. |
| HostLoopRuns.LadderDescends | host/src/main.cpp:115-117 | Ladder sizes never grow on the way down, stay within native, and are even below it. |
| HostLoopRuns.LadderNonZeroIff | host/src/main.cpp:258-259 | No ladder size is empty if and only if both native dimensions are at least 6. |
| HostLoopRuns.LadderSizesAre | host/src/main.cpp:115-117 | The ladder is native and the even dimensions next below three quarters, a half and three eighths of native. |
| HostLoopRuns.IndexIsDownsLessUps | host/src/main.cpp:341-352 | The record that the bound on flapping is about is true: where no Resize fails, the ladder's step is the moves down less the moves up. |
| HostLoopFrames.RunningIff | host/src/main.cpp:316-319 | In every run the loop is still going if and only if no send has failed and the tablet was there at the end of every turn so far. |
| HostLoopFrames.SentIff | host/src/main.cpp:250-319 | In every run a turn sends a frame if and only if the loop is still going, a picture was captured and encoded, no failed Resize has stopped the encoder since the last that succeeded, and the send succeeds. |
| HostLoopFrames.DisplayIsLadderSizeIff | host/src/main.cpp:256-301 | In every run a frame is sent at the ladder size of the controller's step, except exactly when going back to native was asked for and failed. |
| HostLoopFrames.ControllerIff | host/src/main.cpp:267-352 | In every run the controller moves by one tick at each frame sent with adaptation on and stays otherwise, but for the step that a failed Resize sets to 0. |
| HostLoopFrames.KeyframeIff | host/src/main.cpp:249-298 | In every run a sent frame carries the keyframe flag if and only if the encoder made an IDR frame or no frame has left since the start, since a turn whose Resize succeeded, or since a turn that read a request, whatever failed in between. |
| HostLoopFrames.MisreportIff | host/src/main.cpp:255-301 | In every run a sent frame reports a ladder size, and another one than it was encoded at if and only if some turn gave the ladder up at a reduced size and no Resize has succeeded since. |
| HostLoopFrames.UnannouncedIff | host/src/main.cpp:261-273 | Of two successive frames the second shows another size without the keyframe flag if and only if a turn between them gave the ladder up at a reduced size, no keyframe was due and the encoder made no IDR frame. |
| HostLoopFrames.ReportedSizesAreEncodedSizes | host/src/main.cpp:300-301 | With encoders that never stay on at a reduced size after a failed Resize (all of the repository's), every frame of every run reports the size it was encoded at, a ladder size. |
| HostLoopFrames.SizeChangesAtKeyframes | host/src/main.cpp:262-264 | With such encoders every change of the reported size comes with the keyframe flag. |
| HostLoopFrames.TextureFits | host/src/encode/encoder.h:30-32 | With such encoders the texture handed to the encoder has the encoder's size if and only if the frame is native or the scaler worked. |
| HostLoopFrames.VideoIsOverIff | host/src/main.cpp:267-287 | At any point of any run that is still going, no frame can follow, whatever happens outside, if and only if the encoder is off while the loop believes it native. |
| HostLoopFrames.FailureBelowTopEndsVideo | host/src/main.cpp:267-273 | A Resize below the top of the ladder that stops the encoder is such an end: no continuation sends a frame. |
| HostLoopFrames.FailedResizeEndsVideo | host/src/encode/nvenc.cpp:271-278 | With an encoder that is stopped by a failed Resize and, stopped, refuses every other, any failed Resize, down the ladder or back to native, is followed by no frame. |
| HostLoopRuns.NoFlapping | host/src/main.cpp:327-352 | In every run 45 frames per step down, 150 per step up and both streaks fit in the frames sent; one streak runs at a time; each step keeps its distance from the one before. |
| HostLoopRuns.CongestionReachesBottomInLoop | host/src/main.cpp:250-356 | From any point of any run, once 141 frames have taken 36 ms or more and no Resize has failed, the ladder is at its bottom and stays there, whatever captures and encodes fail. |
| HostLoopRuns.ClearingReachesTopInLoop | host/src/main.cpp:250-356 | From any point of any run, once send times stay at 3 ms or less for the settling time and 450 frames, the ladder is at native and stays there, whether or not resizes fail. |
| Color.BgraToNv12 | host/src/encode/color.cpp:12-44 | For every width and height, odd ones included, the in-place loops leave the buffer equal to `Output`: every picture byte its formula, every other byte its old value, no access outside either buffer. |
| Color.LumaPlane | host/src/encode/color.cpp:14-22 | Every luma sample stands at y * pitch + x, in the first plane, with its pixel's formula. |
| Color.ChromaPlane | host/src/encode/color.cpp:24-43 | Both samples of every 2x2 box stand in the second plane, after the first, with the box's formulas. |
| Color.LumaFromBytes | host/src/encode/color.cpp:14-22 | Every luma byte from the blue, green and red bytes at y * pitch + 4 x: 16 and (66 r + 129 g + 25 b) / 256 to the nearest integer. |
| Color.ChromaFromBytes | host/src/encode/color.cpp:26-43 | Every U and V byte from the sums over its box's four pixels, to the nearest integer, U first. |
| Color.OutsideUnchanged | host/src/encode/color.cpp:12-44 | Every byte that is no sample of either plane is unchanged. |
| Color.NominalRanges | host/src/encode/color.cpp:6-8 | Luma stays in 16..235 and chroma in 16..240, both ends reached, so clipping never happens. |
| Color.GreyIsNeutral | host/src/encode/color.cpp:38-41 | Equal channels give U = V = 128, and brighter greys no darker luma. |
| Color.WithinOneStepOf601 | host/src/encode/color.cpp:21-41 | The fixed-point formulas are within one step of section 2.5 of Recommendation ITU-R BT.601 for every pixel and every box. |
| Color.LumaMeets601 | host/src/encode/color.cpp:15-22 | So is every luma byte of the converted buffer, for the pixel it stands for. |
| Color.ChromaMeets601 | host/src/encode/color.cpp:26-42 | So is every chroma byte, for the mean colour of its box; at an odd width the last box of a row takes in the pixel stored after the row. |
| Resampler.LerpBetween | host/src/audio/capture.cpp:21-26 | Interpolation between 16-bit samples stays between them and within one of the exact value, and the clamp never acts. |
| Resampler.StereoResampler.Process | host/src/audio/capture.cpp:86-99 | One packet, any capacity: outputs are the samples at the continued positions, reads stay inside the packet, writes inside the capacity, the phase is outputs * ratio - inputs, below ratio, and negative if and only if the capacity was too small. |
| Resampler.ResampleAll | host/src/audio/capture.cpp:82-99 | A caller for Process: a stream of packets, each with room for its output, yields `RunOut`, and the final phase is total outputs * ratio - total inputs, in [0, ratio). |
| Resampler.TotalIff | host/src/audio/capture.cpp:88-97 | A count is ceil(N / ratio) exactly when the position after it lies in [N, N + ratio). |
| Resampler.OutputIsStreamSample | host/src/audio/capture.cpp:88-95 | Every output of every run is the stream at position index * ratio, with the frame before it held where a packet ends right after it. |
| Resampler.OutputInterpolates | host/src/audio/capture.cpp:87-95 | In numbers: output j lies on the straight line between the two stream frames around j * ratio, to within one, or is the frame's own sample at a packet's end. |
| Resampler.PacketEndsIff | host/src/audio/capture.cpp:90 | A packet ends before frame n exactly when n frames make up the first few packets. |
| Resampler.PacketCutsDoNotMatter | host/src/audio/capture.cpp:81-97 | Two ways of cutting one stream into packets yield ceil(N / ratio) frames each, equal wherever the cuts agree. |
| CaptureQueue.AudioCapture.EmitFrames | host/src/audio/capture.cpp:308-315 | The emit loop moves every full frame to the queue, dropping the oldest when it is full. |
| CaptureQueue.AudioCapture.PopFrame | host/src/audio/capture.cpp:158-164 | A pop takes the oldest frame, or nothing from an empty queue. |
| CaptureQueue.FramingConserves | host/src/audio/capture.cpp:264-315 | In every interleaving: 2048 values a frame, frames and accumulator together exactly the samples appended, and the queue exactly the newest at most 20 frames after the last one popped. |
| CaptureQueue.DrainLeavesRemainder | host/src/audio/capture.cpp:308-311 | A drain leaves exactly the samples that do not fill a frame. |
| CaptureQueue.DrainQueuesAll | host/src/audio/capture.cpp:308-315 | A drain cuts the accumulator into frames of 2048 samples and a remainder, nothing lost, and the queue is the newest 20 of what it held followed by those frames. |
| CaptureQueue.DrainIsEmits | host/src/audio/capture.cpp:308-315 | At any point of a run the drain loop is as many single emits as the accumulator holds frames, so that what holds of every interleaving holds with it. |
| FrameQueue.QueueIsNewest | tablet/app/src/main/java/com/twinscreen/tablet/Client.kt:219-230 | In every interleaving of producer, consumers and player, with size() a walk over nodes that others add and take: the bound holds, the queue is a contiguous run of the newest frames since the last clear, and frames are delivered in arrival order, none twice. |
| FrameQueue.QueuesAreBounded | tablet/app/src/main/java/com/twinscreen/tablet/Client.kt:221-229 | In every interleaving the video queue holds at most 4 frames and the audio queue at most 80. |
| FrameQueue.FramesAccountedFor | tablet/app/src/main/java/com/twinscreen/tablet/Client.kt:219-230 | In every interleaving every frame that arrived was added or is in the producer's hand, and of those added each is queued, was delivered, or was dropped to make room, by a clear or as stale. |
| FrameQueue.ClearFinishes | tablet/app/src/main/java/com/twinscreen/tablet/Client.kt:117-118 | Undisturbed, a clear ends with an empty queue and nothing else changed. |
| FrameQueue.ClearEnds | tablet/app/src/main/java/com/twinscreen/tablet/Client.kt:117-118 | In every interleaving the step that ends a clear finds the queue empty, and no frame added by then is delivered afterwards. |
| FrameQueue.StaleDropIff | tablet/app/src/main/java/com/twinscreen/tablet/VideoPlayer.kt:84-87 | In every interleaving the player's size() answers with the frames queued when it set out, at most 4, plus those added during its walk, less those gone before it looked; its loop's body is entered if and only if the added exceed the room and the missed. |
| FrameQueue.StaleDropCanRun | tablet/app/src/main/java/com/twinscreen/tablet/VideoPlayer.kt:84-87 | A run in which the body executes: the walk counts five and a frame is dropped although four are queued. |
| FrameQueue.PlayerRecounts | tablet/app/src/main/java/com/twinscreen/tablet/VideoPlayer.kt:86 | A size() that has to start over, undisturbed, answers with what the queue holds; the player then drops if and only if that is more than 4. |
| FrameQueue.ProducerRecounts | tablet/app/src/main/java/com/twinscreen/tablet/Client.kt:221 | And so does the producer's. |
| FrameQueue.ProducerFinishes | tablet/app/src/main/java/com/twinscreen/tablet/Client.kt:221-222 | Undisturbed, the producer's loop ends with the newest frames up to the bound, the new one included. |
| SwapChain.InvHolds | driver/src/Driver.cpp:408-447 | In every interleaving map and processors agree, freed processors have no running thread, and every chain's deletions are accounted for. |
| SwapChain.DeletedAtMostOnce | driver/src/Driver.cpp:545-560 | In every interleaving no chain is deleted twice. |
| SwapChain.OneProcessorPerSlot | driver/src/Driver.cpp:422-427 | In every interleaving a slot holds one processor, and no processor is in two slots. |
| SwapChain.AssignReplaces | driver/src/Driver.cpp:422-427 | The critical section of AssignSwapChain installs its processor, hands the previous one to a destructor and leaves other slots alone. |
| SwapChain.NoThreadOutlivesItsProcessor | driver/src/Driver.cpp:526-537 | In every interleaving no thread of a freed processor has a step left to take, in RunCore or after it. |
| SwapChain.SlotsAreHistory | driver/src/Driver.cpp:422-442 | In every interleaving a monitor's slot holds exactly the processor of the last AssignSwapChain for it, and nothing once the monitor has been unassigned or torn down since. |
| SwapChain.ProcessorsAreWhereTheyBelong | driver/src/Driver.cpp:408-447 | In every interleaving a processor is with the call that makes it until that has run, then in its monitor's slot while it is that monitor's last, and from then on in a destructor or freed. |
| SwapChain.QuietMeansAllDeletedOnce | driver/src/Driver.cpp:261-269 | Once every monitor assigned has been unassigned or torn down and no call or destructor is pending, every processor made is freed, and its chain deleted exactly once if its thread was created, never if not. |
| SwapChain.RefusedIsDeletedOnce | driver/src/Driver.cpp:410-417 | A chain refused for want of a device has been deleted exactly once ever since. |
| SwapChain.NothingAfterTeardown | driver/src/Driver.cpp:261-269 | After the context's destructor every slot is empty and none changes any more. |
| SwapChain.DestructorEnds | driver/src/Driver.cpp:526-537 | Once a destructor has begun and no more frames come, however binding and acquiring fail: if its thread never was, is out of RunCore or has both events, it ends within 14 steps of its own, one of which is always possible, in every interleaving. |
| SwapChain.DestructorEndsIff | driver/src/Driver.cpp:572-680 | In every interleaving, frames and all: when nothing is left to do for a processor whose destructor had begun, it is freed if and only if its thread then never was, was out of RunCore or had both events, or has since left for a failure to bind, acquire (other failure, or the sixth loss) or finish a frame. |
| SwapChain.DestructorCanEndIff | driver/src/Driver.cpp:619-646 | While binding succeeds, acquiring only ever pends and no frame event comes, a destructor can end if and only if its thread never was, is out of RunCore or has both events. |
| RunCore.SixthLossLeaves | driver/src/Driver.cpp:595-676 | In every run a thread still in the loop has lost access at most five times since the last surface, waits in between or not, and the next loss makes it leave exactly when it is the sixth. |
| RunCore.FramesKeepItGoing | driver/src/Driver.cpp:625-643 | A thread that does not give up and finds a new frame at every wait never leaves, even when told to: the new-frame event is looked at first and the terminate event stays set. |
| RunCore.SpinsWithoutEvents | driver/src/Driver.cpp:623-646 | With neither event a wait ends at once and the thread goes round for ever. |
| Nvenc.ParseContainer | host/src/encode/nvenc.cpp:231-245 | The loop computes the recursive reading of the container; the position never passes the end. |
| Nvenc.ParseInvertsIff | host/src/encode/nvenc.cpp:236-245 | For serialised non-empty units and any tail, exactly the list comes back if and only if the round after the list ends the loop. |
| Nvenc.TrailingWordIff | host/src/encode/nvenc.cpp:242 | A trailing 4-byte word is skipped if and only if it is zero or its 32-bit sum with the size does not wrap. |
| Adts.WriteAdts | host/src/audio/aac.cpp:52-63 | The seven bytes written are `Header`, and the rest of the buffer is unchanged. |
| Adts.FieldsOfHeader | host/src/audio/aac.cpp:52-63 | For every length, rate and channel count, what a section 1.A.2.2 reader finds: fixed fields right, length modulo 2^13, channels modulo 8, profile and index right below 16 channels. |
| Adts.HeaderExample | host/src/audio/aac.cpp:52-63 | The header of a 371-byte frame at 48000 Hz in stereo, byte for byte. |
| Adts.IndexNamesRateIff | host/src/audio/aac.cpp:36-49 | The index names the rate exactly for the nine rates of the table; any other is announced as 48000. |
| Adts.Append | host/src/audio/aac.cpp:233-259 | The output loop appends every raw frame behind its header. |
| Adts.CutOfFrames | host/src/audio/aac.cpp:233-259 | Frames of up to 8191 bytes, however many are appended, are cut back into the raw frames by a standard reader. |
| Adts.FrameLengthReadBackIff | host/src/audio/aac.cpp:59-61 | A frame's length is read back if and only if it is below 2^13. |
| Contacts.InputSender.OnTouch | tablet/app/src/main/java/com/twinscreen/tablet/InputSender.kt:18-57 | Each motion event updates the pointer map and sends events as `Handles` says, in whatever order the map yields its entries. |
| Contacts.HandledReplay | tablet/app/src/main/java/com/twinscreen/tablet/InputSender.kt:23-54 | One motion event: replaying what it sent tracks the map, its moves are about open contacts, and it breaks the down rule exactly when it re-downs an active pointer. |
| Contacts.SessionTracksContacts | proto/protocol.md:78-79 | Over every session the pointer map is the set of contacts the replay leaves open, every move is about an open contact, and the down rule is obeyed if and only if the touch source never re-downs an active pointer. |
| Contacts.ContactOpenIff | tablet/app/src/main/java/com/twinscreen/tablet/InputSender.kt:23-54 | Over every session a contact is in the pointer map, and open to a receiver, if and only if it went down and has neither gone up nor been cancelled since. |
| Contacts.TouchSends | tablet/app/src/main/java/com/twinscreen/tablet/InputSender.kt:23-86 | What each motion event sends: one event about the pointer that goes down or up, one in order about every active pointer of a move, one about every contact of a cancel, with kind, pointer, pressure and tilt as touched. |
| Contacts.NothingOpenAfterCancel | tablet/app/src/main/java/com/twinscreen/tablet/InputSender.kt:49-54 | After a cancel nothing is open, in the map or in the replay. |
| Contacts.EventsFitTheWire | tablet/app/src/main/java/com/twinscreen/tablet/InputSender.kt:61-86 | For any position and pressure and any plausible angle, an event lies within the display and fits the wire, so packing loses nothing. |
| Contacts.TouchLandsInProportion | tablet/app/src/main/java/com/twinscreen/tablet/InputSender.kt:64-68 | A touch inside the view lands at the same proportion of the display, rounded down. |
| Inject.InjectBatch | host/src/input/inject.cpp:80-110 | For every payload with a count, the walk routes the announced events in order, as many as the payload holds, and it leaves the payload if and only if fewer are held than announced. |
| Inject.RouteByKind | host/src/input/inject.cpp:84-109 | What each kind of event becomes, with its place, buttons, pressure, tilt and contact; a cancel reaches the pen, or touch without one. |
| Inject.PixelRoundTrip | host/src/input/inject.cpp:120-123 | For screens of at most 65535 pixels the normalised coordinate is in 1..65535 and strictly inside its pixel's band, and so means that pixel on a surface of that width. |
| Inject.NormaliseIncreases | host/src/input/inject.cpp:122-123 | Normalisation is strictly increasing in the pixel. |
| Inject.AllPixelsRoundTripIff | host/src/input/inject.cpp:122-123 | Every pixel is found again if and only if the screen has at most 65535. |
| Inject.BatchMovesCursor | host/src/input/inject.cpp:84-142 | Every mouse event of a packed batch that names a pixel of the virtual screen moves the cursor to a pixel of the primary monitor, and to the very pixel named if there is no other monitor. |
| Inject.MonitorReachedIff | host/src/input/inject.cpp:112-142 | Every pixel of the monitor shown is reached by naming it if and only if the host has a single monitor (another one being at least four pixels further one way). |
| Inject.OtherMonitorNeverReached | host/src/input/inject.cpp:112-142 | When the monitor shown is not the primary, no mouse event for it moves the cursor onto it. |
| Inject.CentreOfSecondMonitorMissed | host/src/input/inject.cpp:112-142 | An instance: a finger at the centre of the right-hand one of two 1920x1080 monitors moves the cursor to (1440, 540) on the left-hand one. |
| Inject.FingerStaysOnMonitorIff | host/src/input/inject.cpp:112-142 | From any finger position on the tablet to the cursor: the pixel named is on the monitor shown if and only if the touch is short of the view's far edges, and then the cursor goes to the primary monitor: to the pixel named if there is no other, and never onto the monitor shown if that is another. |
| Inject.StylusStaysOnMonitorIff | host/src/input/inject.cpp:144-184 | A stylus, injected as pen or as touch, arrives at the very pixel named on whichever monitor, which is on the monitor shown if and only if the touch is short of the view's far edges. |
| Inject.TouchesNeverClick | host/src/input/inject.cpp:125-140 | Whatever the touch, the mouse input it becomes presses and releases no button, since the tablet sends none. |

## Left out

- Resampler.StereoResampler.Process: the phase is an exact real, so rounding of the C++ double is not captured; a call with a negative phase, which a capacity too small leaves behind, is excluded, since its conversion to an index is undefined.
- Resampler.ResampleAll: the call in the capture loop, which passes target/source as ratio and an element count as capacity and keeps half of what is written, is not modelled.
- Controller.Tick: the moving average is an exact real; rounding of the C++ double is not captured.
- Nvenc.ParseContainer: says nothing about a length whose 32-bit sum with the position wraps past the guard (result None); the source then copies bytes beyond the buffer.
- Inject.InjectBatch: says nothing of what the source reads behind the last event of a payload that announces more than it holds.
- Color.BgraToNv12: at an odd width, which the encoders pass through at native size, the source reads one pixel past each row; the source buffer must hold that pixel for the last pair of rows too, which one of exactly height * pitch bytes without row padding does not at an even height.
- Inject.BatchMovesCursor: claims nothing of events that name no pixel of the virtual screen, whose coordinates leave the documented range 0..65535 (a position left of or above it, or a touch on the far edge of the last monitor). That the system takes floor(norm * width / 65536) as the pixel is assumed.
- SwapChain.DestructorEnds: nothing is claimed while frames keep arriving, when the thread prefers them for ever (`RunCore.FramesKeepItGoing`). Failures of the wait itself, other than for want of events, and of SetEvent are not modelled. No member function of the context runs during or after its destructor.
- Sockets.TcpServer.ReadFrame: the select timeout is the `ready` argument; one client connection at a time, without the listening socket and the handshake.
- Sockets.ReceiveLoop: ends with its stream; stopping it from another thread, reconnection and back-off are not modelled.
- Contacts.InputSender.OnTouch: batches a disconnected client drops silently are counted as sent.
- HostLoop.MainLoop.TurnOver: an Encode that succeeds without NAL units when raw frames are not kept counts as no frame; bitrate control is not modelled, and audio sending is in Pipeline only.
- FrameQueue.QueueIsNewest: the queue depth recorded for the statistics is not modelled.
- TabletClient.SendRequests: starts when the handshake is over; requests of different threads are taken in the order in which they get the stream's lock.
- VideoPayload.ParseVideoFrame: running out of memory on a large announced length is not modelled; neither is what a parse exception does to the receive thread.
- Nal.FeedBuffer: a codec buffer too small for the frame is not modelled.
- The UV plane of the QSV surface, which lies at another offset than the converter's when the height is not a multiple of 16.
- The session lifecycle of the hardware encoders, Direct3D, WASAPI, Media Foundation, MediaCodec, AudioTrack and Winsock themselves.
- Conversion of device audio formats to 16-bit stereo, the EDID, display modes, option files, argument parsing, logging and the user interface: easy members.
