# virglrs, modelled and proved

A Dafny model of the stateful mechanisms of the virglrs renderer, and proofs about them over every
input, every run and every interleaving.

| file | what it models |
|---|---|
| `Bytes.dfy`, `Sums.dfy`, `Rows.dfy`, `Layouts.dfy` | little-endian words, sums over maps, rows at a pitch, surface layouts |
| `TraceFormat.dfy`, `TraceShape.dfy`, `TraceMerge.dfy`, `TraceRing.dfy` | the trace: its byte format and reader, where chunks lie in the ring, the history a dump stands for, and the recorder's state as a class over a byte array |
| `BlobTable.dfy` | the 64-slot table that keeps a blob's frame from being recorded twice |
| `FenceProtocol.dfy` | fence retirement: pushers, the worker, the last drop, and threads draining the deferred queue, interleaved step by step |
| `ScatterWalk.dfy` | the scatter-list walk, its cursor, and the copies in and out |
| `Budget.dfy` | the memory ledger, its cap, its watermark and what a context is told |
| `SurfaceRegistry.dfy` | published surfaces over ids the system recycles, interleaved step by step |
| `DmaBuf.dfy`, `PlanarLayout.dfy` | the check a layout passes, the row copies that trust it, and the layout of a planar surface |
| `ExportQuery.dfy` | the all-or-nothing export query and the descriptors it transfers |
| `AnnexB.dfy`, `Nv12.dfy` | the NAL splitter and the NV12 split |

Five things a maintainer may want to know came out of the proofs:

* `copy_plane_from` never fails a bound on a layout `describe` accepted, but the check rounds a
  subsampled plane up and the copy rounds it down: the copy takes the whole picture exactly when
  neither extent is odd, and otherwise the last chroma row or column keeps what it held
  (`DmaBuf.CopyTakesThePictureExactlyWhenEven`; a 3x3 picture in `DmaBuf.OddPictureLosesChroma`).
* `read_rows` reads from the mapping's first byte whatever the first plane's offset is: the rows it
  returns are that plane's exactly when the offset is zero or nothing is read
  (`DmaBuf.ReadRowsReadsThePlaneExactlyAtOffsetZero`; an accepted layout none of which is read in
  `DmaBuf.OffsetPictureIsNotRead`).
* `PlanarFormat::planes` lays a plane out soundly exactly when its aligned row fits 32 bits. Past
  that the two unchecked products wrap, and the layout is accepted with rows too short for their
  pixels (`PlanarLayout.PitchIsSoundExactlyWhenTheRowFits`).
* With deferral on, fences reach the VMM in order within a ring, as `FenceSink` promises, exactly
  when no two threads drain: polls and cleanup on different threads can hand one ring's fences over
  the other way round (`FenceProtocol.InOrderExactlyWithOneDrainer`).
* `from_nv12` stops the process on a picture of no columns whose chroma pitch is zero, and on
  nothing else (`Nv12.FromNv12`).

A resource event is stamped with the number of the next record, and there are two orders to put the
log back in by. Applying an event before the record its stamp names gives the order things arrived
in (`TraceMerge.MergeRestoresArrival`). The replayer applies it after that record, on purpose,
because a record marks the start of a batch: what it plays is that order with every event one record
late, and events due after no record left out (`TraceMerge.ReplayIsOneRecordLate`).

## Model

| member | source | states |
|---|---|---|
| TraceShape.EvictKeepsShape | src/trace.rs:613-626 | the four bytes and the kind byte at the tail are the oldest chunk's own length and kind, and letting go of that many bytes, wrapping at the end, leaves a well-formed ring |
| TraceShape.PadKeepsShape | src/trace.rs:557-564 | a header over the room left at the end turns it into one pad chunk, whatever bytes follow, and the head starts over |
| TraceShape.AppendKeepsShape | src/trace.rs:568-586 | a record written at the head is the newest chunk, and afterwards the head again has room for a header before the end |
| TraceShape.AroundIsLive | src/trace.rs:628-657 | in a well-formed ring the used bytes from the tail, wrapping at most once, are exactly the live chunks end to end |
| TraceShape.NoneSplit | src/trace.rs:544-588 | every live chunk lies whole in the buffer, none across the end, and a pad is the one that runs up to the end |
| TraceRing.State.constructor | src/trace.rs:411-436 | an empty ring of any size is valid: sizes too small for a record, not a multiple of eight, and past 32 bits included |
| TraceRing.State.EvictOne | src/trace.rs:613-626 | where its length can be read back, exactly the oldest chunk goes; it counts as evicted if and only if it is a record, not a pad |
| TraceRing.State.MakeRoom | src/trace.rs:558-567 | the eviction loop ends with room for `n` bytes, having let go of no chunk that could have stayed; it never evicts from an empty ring, nor any of the last `keep` chunks before the end |
| TraceRing.State.WriteHeader | src/trace.rs:590-611 | the header's eight fields in the layout a reader expects, and no other byte of the ring changed |
| TraceRing.State.WriteRecord | src/trace.rs:568-580 | header, little-endian words, payload and zeros up to the record's length, and no other byte changed |
| TraceRing.State.PadOut | src/trace.rs:557-564 | everything that lies past the head goes, each because the pad needs its room, and one pad of exactly the room left takes its place |
| TraceRing.State.ClearAround | src/trace.rs:557-567 | making room after padding never lets go of the pad just written: the half-ring refusal is what makes that provable |
| TraceRing.State.Put | src/trace.rs:544-588 | over half the ring: refused, counted, nothing else changed; otherwise what `Recorded` says, whose meaning is the next row, and every live length stays readable if and only if the new record's fits its 32-bit field |
| TraceRing.RecordedMeans | src/trace.rs:544-588 | the record is the newest in the history and the last chunk; it is its size rounded up to eight long unless less than a header would be left before the end, and then runs to the end; a pad of the room there was is before it exactly when it would have run past the end; what was let go is the oldest, none that could have stayed, and nothing at all if and only if everything fits |
| TraceFormat.LengthFieldIsExact | src/trace.rs:590-611 | a chunk's length reads back from its header if and only if it fits the 32-bit field, which is what evicting it later needs |
| TraceRing.AppendCounted | src/trace.rs:544-588 | accepting keeps the ring a window on the log: its records are those numbered from `evicted`, in order, and evicted plus live is accepted |
| TraceRing.State.PutResource | src/trace.rs:446-462 | an event is logged after exactly the records accepted so far, or dropped with the full flag set at 4194304 |
| TraceRing.State.PutBlob | src/trace.rs:464-494 | a frame goes to the ring exactly when the table says so, and not recording one changes neither ring nor log |
| TraceRing.State.RingBytes | src/trace.rs:646-655 | the copy-out loop yields the live chunks, oldest first, and terminates |
| TraceRing.State.DumpBytes | src/trace.rs:628-657 | the dump is its sixteen header words, the resource log and the live chunks |
| TraceRing.State.DumpReadsBack | src/trace.rs:628-657 | in every valid state the dump reads back exactly when its used bytes fit their 32-bit word, and then gives the ring's size in megabytes, the counters, the clock, exactly the records numbered from `evicted` with their kinds and times, and the whole resource log; merging the two by stamp gives the surviving history in arrival order |
| TraceFormat.HeaderFields | src/trace.rs:590-611 | each header field, the time among them, reads back at its own offset, cut to its width |
| TraceFormat.KindsAreKnownByTheirCodes | src/trace.rs:51-67 | a reader's own table of codes knows every kind the recorder writes, and neither the pad's code nor the gap's |
| Bytes.LeDigit | src/trace.rs:590-611 | byte `i` of a little-endian field is its digit of 256 to the `i` |
| TraceFormat.WalkFlat | src/trace.rs:712-737 | walking any run of records and pads by record length recovers exactly the records, each with its kind as a reader numbers it, dropping pads and slack |
| TraceFormat.ResRoundTrip | src/trace.rs:123-180 | a resource log of any length, followed by anything, decodes to its events and stamps, by a decoder that takes no other tag or memory code |
| TraceFormat.ResWordsRoundTrip | src/trace.rs:123-180 | the twelve words of an event determine the event, each where the reader's structure has it: nothing a create, blob or unref carries is lost |
| TraceFormat.DumpRoundTrip | src/trace.rs:712-737 | a dump of any log and any chunks parses to that log, those records and its own counters, or to nothing exactly when the used count is cut |
| TraceMerge.MergeRestoresArrival | src/trace.rs:457-461 | for any history and any number evicted, merging surviving records and stamped events restores the order everything that survived arrived in |
| TraceMerge.SurvivorsAre | src/trace.rs:613-626 | what survives is the history from some point on untouched, after every event and no record of what came before it |
| TraceMerge.ParsedMergeRestoresArrival | src/trace.rs:712-737 | the same for what a reader parsed, contexts cut to sixteen bits and all |
| TraceMerge.ReplayIsOneRecordLate | harness/replay/vrend-replay.c:1653-1661 | applying each event after the record its stamp reaches gives, for any history and any number evicted, the surviving history with every event moved past the next record, and those with no next record dropped |
| TraceMerge.ReplayIsArrivalExactlyWithoutEvents | harness/replay/vrend-replay.c:1653-1661 | that is the order of arrival if and only if no event was logged |
| BlobTable.EntryIsHistory | src/trace.rs:464-494 | on every run a tracked blob's entry is its own history: its last hash, kept plus dropped equal to the changes it showed, kept equal to the changes up to the cap; at most 64 blobs are tracked, and an untracked one arrived when 64 were |
| BlobTable.RecordedExactlyWhen | src/trace.rs:464-494 | a frame is recorded if and only if its blob is untracked, or its content differs from that blob's last and the blob has changed fewer than `max` times |
| BlobTable.UntrackedAlwaysRecorded | src/trace.rs:464-494 | a blob the full table has no room for is forwarded every time |
| BlobTable.Table.Observe | src/trace.rs:464-494 | the probe loop over the 64 slots refines the partial map from handle to history, in its new state and in its answer |
| BlobTable.OneByteChangesTheHash | src/trace.rs:464-468 | two frames of one length that differ in one byte never hash the same: both halves of a step can be undone |
| BlobTable.KnownHashes | src/trace.rs:464-468 | the hashes of the empty frame, of "a" and of "fo" are those the FNV reference lists |
| FenceProtocol.Safe | src/fence.rs:88-97 | the invariant holds after every legal interleaving of holders, worker and drainers |
| FenceProtocol.StateIsWhatTheStepsSay | src/fence.rs:88-185 | on every run, from its steps alone: the holders are the first and those a handle was given to, less those that let go since; the queue is kept exactly while there is one; what was pushed is what the pushes pushed, in order |
| FenceProtocol.TornDownOnlyByTheLast | src/fence.rs:88-97 | the teardown has begun if and only if nobody who was given a handle still has it |
| FenceProtocol.HoldersCanPush | src/fence.rs:169-185 | whoever holds a handle can push, on every run; the fence goes to the back of the queue and a sleeping worker is woken |
| FenceProtocol.HoldersCanShareAndLetGo | src/fence.rs:134-150 | a holder can give a handle to anyone without one, who then holds it, and can let its own go |
| FenceProtocol.WorkerCanMove | src/fence.rs:187-233 | until it exits the worker always has a step, and with nothing queued it is to sleep |
| FenceProtocol.EveryRunCanFinish | src/fence.rs:88-97 | every legal run goes on to one in which the last drop has returned and every fence pushed has been told |
| FenceProtocol.ExactlyOnePlace | src/fence.rs:169-233 | each fence pushed is in exactly one of: the queue, the worker's hands, the deferred queue, one drainer's hands, handed over once |
| FenceProtocol.NeverQueuedAfterStop | src/fence.rs:169-185 | the stop is the last job ever queued, the assertion on a fence queued after it cannot fail, and a worker asleep on a non-empty queue has a wake pending |
| FenceProtocol.CallsOnlyOnAgreedThreads | src/ffi.rs:181-210 | the VMM is called from the retirement thread if and only if it agreed to be |
| FenceProtocol.DeliveredByTheLastDrop | src/fence.rs:88-97 | when the last holder's drop returns, everything pushed has been told, is in a drainer's hands or waits in the deferred queue; without deferral, told |
| FenceProtocol.CleanupTellsEverything | src/ffi.rs:495-507 | however a run goes on from that return, nothing more is pushed or deferred, a thread with free hands can take a fence while one waits, and once as many have been taken as waited and no hand holds one, every fence ever pushed has been told |
| FenceProtocol.JoinReturns | src/fence.rs:88-97 | however a run goes on from the stop, the worker makes at most a fixed number of moves, has one to make until it has exited, has exited once they are made, and from then on the join returns |
| FenceProtocol.OneDrainerIsOneAtATime | src/ffi.rs:195-210 | draining on one thread, callbacks that drain again included, takes a fence only when every earlier one is handed over |
| FenceProtocol.ToldInPushOrder | src/ffi.rs:181-210 | then, and without deferral, the VMM has been told of exactly the first fences pushed, in push order |
| FenceProtocol.EachRingInOrder | src/ffi.rs:181-210 | so what it was told on each ring is a prefix of what was pushed on it |
| FenceProtocol.InOrderExactlyWithOneDrainer | src/fence.rs:46-47 | for any set of draining threads, every deferring run they alone drain keeps push order, and keeps every ring's, if and only if the set holds no two threads |
| FenceProtocol.TwoDrainersCanReorder | src/ffi.rs:195-210 | for any two threads, a run they drain in which a ring is told out of order |
| ScatterWalk.PiecesTile | src/guest_mem.rs:405-418 | the pieces of a range are contiguous, each inside its own entry and where its part of the range lives, and cover the range exactly |
| ScatterWalk.EntryForHolds | src/guest_mem.rs:396-404 | the entry a walk stops at is the one that holds the byte, entries of no length passed over |
| ScatterWalk.HoldsUnique | src/guest_mem.rs:396-404 | there is only one such entry, so resuming and starting over must agree |
| ScatterWalk.Cursor.Seek | src/guest_mem.rs:393-404 | from any earlier cursor, on this list or another, the walk stops at the entry that holds `at`, skipping only the entries the cursor had not already passed |
| ScatterWalk.Cursor.WalkFrom | src/guest_mem.rs:380-419 | succeeds exactly when the range fits, yields the pieces a fresh walk yields whatever the cursor, and a refusal visits nothing and moves nothing |
| ScatterWalk.CopyOutFrom | src/guest_mem.rs:430-438 | true exactly when the range fits; the destination is then that slice of the list's concatenation, and otherwise as it was |
| ScatterWalk.CopyInFrom | src/guest_mem.rs:448-454 | true exactly when the range fits; then every address of the range holds what the last of its bytes says and no other changes, entries sharing memory included, and where entries are apart that is a flat update of the concatenation; a refusal writes nothing |
| ScatterWalk.WrittenSpan | src/guest_mem.rs:448-454 | where entries are apart, writing the addresses of a range and no others reads back as a flat update |
| ScatterWalk.AddrInjective | src/guest_mem.rs:316-319 | bytes of a list whose entries are apart have addresses of their own |
| ScatterWalk.WalkRows | src/guest_mem.rs:322-339 | over any ascending run of rows, refused ones among them, the entries skipped are at most the list's length, not rows times length |
| Budget.OpenAgrees | src/budget.rs:371-376 | opening a fresh occupant's slot keeps the ledger in agreement with what is held, and finds no slot standing there |
| Budget.TakeAgrees | src/budget.rs:391-394 | a charge taken lands in its own home and no other |
| Budget.CreditAgrees | src/budget.rs:307-320 | a charge let go is found in its home: its occupant's slot, the shared bucket if that occupant is gone, or classic |
| Budget.RetireAgrees | src/budget.rs:761-781 | retiring moves exactly the occupant's outstanding charges to the shared bucket |
| Budget.LateCreditStaysOffTheNewOccupant | src/budget.rs:307-316 | a previous occupant's late credit changes nothing the current occupant of the same id is charged |
| Budget.TakenIsHeldOrLetGo | src/budget.rs:383-401 | on every run, charge for charge, what was taken is what is held and what was let go |
| Budget.LiveIsOpenedNotRetired | src/budget.rs:371-376 | on every run a key stands exactly while it has been opened and not retired since |
| Budget.DropMakesRoom | src/budget.rs:307-320 | after a charge is let go another is admitted if and only if it fits beside what is left |
| Budget.DrainInto | src/budget.rs:233-237 | every bucket's count and the bytes are the sums of the two histograms |
| Budget.BytesOf | src/budget.rs:228-230 | the loop's total is the sum of size times count |
| Budget.Ledger.Bytes | src/budget.rs:174-178 | the derived total is the sum of everything held, whoever holds it |
| Budget.Ledger.Open | src/budget.rs:371-376 | the assertion that no slot stands at the id cannot fail; the fresh slot is empty and nothing held changes |
| Budget.Ledger.TryCharge | src/budget.rs:383-401 | admitted leaves the total at or below the cap, one more charge held and one more of its size in the context's own histogram and no other, and reports exactly when the watermark says so, in amounts at four fifths of the cap when none is standing; refused says what, how much and the total, and changes nothing |
| Budget.Ledger.ChargeClassic | src/budget.rs:517-524 | classic counts one more and never refuses, touches no slot, and reports exactly when the watermark says so of the new total |
| Budget.Ledger.Release | src/budget.rs:307-320 | the total falls by the charge's size and what is held is what was held less that charge; one fewer is counted in the histogram of its occupant if that one's slot stands, of nobody if not, or of classic, and every other count is as it was; the credit's expectation never fails |
| Budget.Ledger.Retire | src/budget.rs:761-781 | the standing occupant's slot goes and each of its counts is added to the shared bucket's; a slot under another occupant stays, and what is held does not change |
| Budget.Ledger.StandingFor | src/budget.rs:420-425 | what the context holds, what all others hold and the cap, as one observation; the subtraction never saturates |
| Budget.CapHolds | src/budget.rs:383-401 | on every run the total never passes the cap plus what classic holds |
| Budget.CapHoldsWithoutClassic | src/budget.rs:383-401 | on every run without classic charges the total never passes the cap |
| Budget.Refuses | src/budget.rs:386-390 | the saturating test refuses exactly when the sum passes the cap, except at the largest 64-bit cap, which refuses nothing |
| Budget.LatchMeans | src/budget.rs:830-836 | the latch is set if and only if some sample was at 80% and none since below 70% |
| Budget.ReportedOncePerClimb | src/budget.rs:830-836 | a sample is reported if and only if it is at 80% and every earlier such sample was followed by one below 70% |
| Budget.ReportedInAmounts | src/budget.rs:830-836 | in amounts, for any cap above zero whose percentages fit 64 bits: a total is reported if and only if it is four fifths of the cap and every earlier one so high was followed by one under seven tenths; a cap of zero is never reported |
| Budget.Ledger.Sample | src/budget.rs:653-660 | the latch in the ledger is that latch over the totals after each charge, and in amounts |
| Budget.Standing.HeapAnswer | src/budget.rs:432-440 | the answer is at least 1, at most max(1, min(heap, non-zero driver figure)), and never below the usage beside it; within the cap it is what others leave, and past it what the context holds, as far as the hardware goes |
| Budget.OwnChargesNeverLowerTheAnswer | src/budget.rs:536-558 | a context's own charges leave `others` fixed and never lower its answer; within the cap they do not move it |
| Budget.OthersChargesLowerTheAnswer | src/budget.rs:432-440 | another context's charge never raises the answer; within the cap it lowers it byte for byte if and only if what others leave is no more than the hardware has and something of it is left; past the cap it changes nothing |
| SurfaceRegistry.StepKeeps | src/metal.rs:1276-1335 | every step of every thread keeps the registry exact |
| SurfaceRegistry.HandOverKeeps | src/metal.rs:1302-1321 | handing over keeps the registry exact and never overwrites an entry |
| SurfaceRegistry.SurfaceIsWhatTheStepsSay | src/metal.rs:1302-1335 | on every run a surface is alive exactly when it was minted and not let go, under the id and for the publisher it was minted with, and as far along as its own steps |
| SurfaceRegistry.StandsExactly | src/metal.rs:1302-1335 | on every run a surface stands exactly when it was minted for a publisher, handed over, and not removed |
| SurfaceRegistry.LogIsWhatTheStepsSay | src/metal.rs:1276-1335 | on every run each surface is published as often as it was handed over with a publisher and a port and republished with a port while it stood under the id, and released exactly when its drop says so |
| SurfaceRegistry.HandedOverIsHeld | src/metal.rs:1302-1321 | a surface handed over with a publisher and a port is published once, and the receiver behind that publisher then holds it under its id |
| SurfaceRegistry.RepublishSaysOnce | src/metal.rs:1276-1288 | a republish with a port publishes the surface standing under the id, once; any other says nothing |
| SurfaceRegistry.IdsComeBack | src/metal.rs:1324-1335 | a standing surface can be dropped and its id given to another |
| SurfaceRegistry.EverySurfaceCanGo | src/metal.rs:1324-1335 | however far along, a surface not let go can be, in at most three steps of its own |
| SurfaceRegistry.EntriesNameLiveSurfaces | src/metal.rs:1264-1273 | on every run with ids recycled, the registry is exactly the standing surfaces, each under the id it has now |
| SurfaceRegistry.NoEventReachesAStranger | src/metal.rs:1324-1335 | each id's event log is runs of publishes of one surface closed by that surface's one release, so no release or republish reaches a later surface that inherited the id |
| SurfaceRegistry.GoneMeansReleasedOnce | src/metal.rs:1324-1335 | a surface handed over is released exactly once by the time it is gone, to the publisher it was minted under |
| Layouts.NewPlanes | src/surface.rs:71-79 | the four slots and the count read back as exactly the planes passed, and more than four are refused, never trimmed |
| Layouts.PlanesReadBack | src/surface.rs:64-90 | making slots again from what slots read as gives those slots, so they are equal exactly when they read alike, and no slots read as more than four planes |
| DmaBuf.Describe | src/dmabuf.rs:702-736 | accepted if and only if a descriptor is given and every plane lies in the buffer; each refusal names the first thing wrong; the size recorded is the kernel's |
| DmaBuf.BoundedMeans | src/dmabuf.rs:702-736 | that every plane lies in the buffer, in numbers: each plane's rows hold its pixels in 32 bits and its last row, a chroma plane's extent rounded up, ends within the size |
| DmaBuf.FormatsByNumber | src/dmabuf.rs:592-605 | the fifteen known codes as numbers, with the bytes per element of each plane, and no other |
| DmaBuf.CodeIsItsCharacters | src/dmabuf.rs:592-605 | a code's little-endian bytes are its four characters |
| DmaBuf.RoundsToHalf | src/dmabuf.rs:480-488 | the first plane is whole and every other half, an odd extent up where it is checked and down where it is copied |
| DmaBuf.CopyRows | src/dmabuf.rs:434-449 | the row loop copies the rows that fit both ends, stops at the first that does not, and touches no byte outside them |
| DmaBuf.Surface.ReadRows | src/dmabuf.rs:426-451 | the greatest row count up to `height` for which every row fits both buffers, each row the source's first min(pitch, stride) bytes, every other byte unchanged |
| DmaBuf.Surface.WritePlane | src/dmabuf.rs:493-524 | true exactly when every row fits both ends, and even a failure writes only inside the plane's rows |
| DmaBuf.Surface.CopyPlaneFrom | src/dmabuf.rs:527-559 | true exactly when both sides have the plane at one size and every row fits; rows are the source's as they were before the call, also when both read one buffer |
| DmaBuf.BoundedRowsFit | src/dmabuf.rs:713-733 | an accepted plane's rounded-down rows all end inside the buffer, at every row |
| DmaBuf.DescribedCopyIsTotal | src/dmabuf.rs:527-559 | between accepted layouts of one fourcc and extent the copy never fails, its row is never cut to 32 bits or to the pitch |
| DmaBuf.CopyTakesThePictureExactlyWhenEven | src/dmabuf.rs:480-488 | the copy takes the whole checked picture if and only if the plane is the first or neither extent is odd |
| DmaBuf.OddPictureLosesChroma | src/dmabuf.rs:480-488 | a 3x3 NV12 layout the check accepts, of whose eight chroma bytes a copy that succeeds takes two |
| DmaBuf.ReadRowsReadsThePlaneExactlyAtOffsetZero | src/dmabuf.rs:431-449 | the bytes the row read takes are the first plane's if and only if that plane starts at zero or nothing is read |
| DmaBuf.OffsetPictureIsNotRead | src/dmabuf.rs:431-449 | a layout the check accepts, of whose picture the row read takes no byte |
| PlanarLayout.Planes | src/metal.rs:338-354 | planes end to end, chroma rounded up, in 32 bits; none exactly when an alignment is missing or a plane ends past them |
| PlanarLayout.PitchIsSoundExactlyWhenTheRowFits | src/metal.rs:349 | a pitch holds its row, is aligned and wastes less than one alignment if and only if the aligned row fits 32 bits |
| PlanarLayout.TheWidestPictureIsSheared | src/metal.rs:349-351 | a concrete width that does not fit, accepted with rows of no bytes |
| ExportQuery.Descriptors.Dup | src/ffi.rs:766-768 | a duplicate is the lowest free number and names what the original names, or nothing changes |
| ExportQuery.ExportsByTheFirstRouteGranted | src/renderer.rs:2263-2302 | whatever routes a resource has, it is exported by the first the system grants, the surface before the dma-buf before the native buffer, with that route's layout and buffer, and not exported only when turned down on every one |
| ExportQuery.ResourceExport | src/renderer.rs:2263-2302 | the three routes in turn give a reference of the caller's own to the route's buffer, or none and nothing left open |
| ExportQuery.Prepare | src/ffi.rs:750-771 | offsets and duplicates for every plane or, at whatever plane it fails, every duplicate already made is closed |
| ExportQuery.Fill | src/ffi.rs:772-782 | each plane's slots are its own layout and descriptor, and the slots past the planes keep what they held |
| ExportQuery.ExportQuery | src/ffi.rs:706-784 | answered exactly when the structure's size and id are right, the resource is there and its layout and every descriptor asked for can be given, where too many planes is never why not; a refusal leaves the structure and the open descriptors as they were; success writes each plane's pitch and offset and opens one new, distinct descriptor per plane if and only if they were asked for, each naming the exported buffer |
| AnnexB.Nals | examples/first-session.rs:20-40 | the two loops compute the units between start codes, each without its trailing zeros |
| AnnexB.SplitUndoesFraming | examples/first-session.rs:20-40 | for units with no start code inside and no zero at the end, under any mix of start codes and trailing zeros, splitting gives exactly those units |
| AnnexB.UnitsAreClean | examples/first-session.rs:31-38 | whatever the stream, no unit that comes out holds a start code or ends in zero |
| AnnexB.RoundTripsExactlyWhenClean | examples/first-session.rs:20-40 | so splitting undoes framing if and only if every unit is of that kind |
| AnnexB.SplitAgain | examples/first-session.rs:20-40 | framing what any stream split to, and splitting again, changes nothing |
| AnnexB.TwoUnits | examples/first-session.rs:20-40 | a stream with a three-byte and a four-byte start code and zeros trailing both units comes out as its two units |
| Nv12.FromNv12 | src/vaapi.rs:164-219 | refused exactly when planes, mapped bytes or chroma pitch cannot hold the picture; planes exact to the byte for odd extents; the process stopped exactly when a three-plane split meets a chroma pitch of zero |
| Nv12.SplitChroma | src/vaapi.rs:198-207 | every chroma row's Cb and Cr, taken alternately again, are the row's first 2 * chroma_width bytes, and the two planes hold nothing else |
| Nv12.SplitPixel | src/vaapi.rs:198-207 | chroma pixel `x` of row `y` is the pair of bytes at `2 * x` in that row of the image, the first in the Cb plane and the second in the Cr |
| Nv12.InterleaveIsLossless | src/vaapi.rs:198-207 | two rows are determined by what they interleave to |
| Nv12.PanicsOnlyWithoutColumns | src/vaapi.rs:186-202 | stopping needs a picture of no columns |
| Nv12.PanicsOnAnEmptyImage | src/vaapi.rs:186-202 | and such an image exists |
| Nv12.RowsToTheLast | src/vaapi.rs:285-290 | a plane's row is there exactly up to its last, where rows have any bytes |

## Left out

- TraceRing.State.Put: takes any record, but a ring all of whose lengths can be read back. Only a
  record of 4 GiB, in a ring of 8 GiB or more, leaves one that is not; what evicting from that ring
  does is not modelled, while dumping it is.
- TraceRing.State.DumpBytes: the 64-bit sequence never wraps. A timestamp is a parameter. The memory
  touching at construction, the lock, the output file, the signal pipe and the log lines are left out.
- TraceFormat.WalkFlat: the reader is the one the tests use; where it would stop on a malformed
  stream the model answers that there is no parse.
- TraceMerge.ReplayIsOneRecordLate: the records are those the replayer plays; which contexts it is
  asked for, where it is told to stop, and what it does with an event are not part of this model.
- BlobTable.RecordedExactlyWhen: frames are compared by hash, as the source compares them, so two
  contents with one hash are one.
- FenceProtocol.Safe: threads are steps over one state, a region under a lock being one step, so
  data races inside such a region are not modelled. A callback the VMM did not register is told
  nothing, by the ABI's contract; handing over is one step whether or not a callback is there. The
  sink is assumed to hold no handle of its own.
- FenceProtocol.JoinReturns: fairness of the scheduler is not modelled; progress is
  stated as moves always being possible and always bringing the exit nearer.
- ScatterWalk.WalkRows: stands for the transfers that call the copies row by row, whose own code
  is not part of this model.
- ScatterWalk.Cursor.WalkFrom: two lists are one only if they are one object, where the source
  compares the address of the first entry; pieces are returned rather than handed to a closure.
- Budget.Ledger.Bytes: counts and sums are unbounded, where the source has 32-bit counts and a
  64-bit sum; the percentage is cut to 64 bits as the source cuts it.
- Budget.Ledger.TryCharge: the report's text, the timed census, the heap trace and the reading of
  the environment are left out.
- SurfaceRegistry.NoEventReachesAStranger: a step is a region under the registry's lock or one call
  outside it; a call on a publisher is one step. What a receiver does with a port is not modelled,
  only what it may hold.
- DmaBuf.Surface.WritePlane: sums of offsets are unbounded, so wrap-around on a layout that was
  never checked is not modelled; the lemmas about checked layouts show none of theirs passes the
  buffer's 64-bit size.
- DmaBuf.Surface.CopyPlaneFrom: whether the system maps the buffer is a parameter of the surface,
  and the three row loops of the source share one method here.
- PlanarLayout.Planes: products the source leaves unchecked wrap, as they do in a release build.
- ExportQuery.ResourceExport: how the renderer comes to know a resource's surface, dma-buf or native
  buffer is a parameter, and so is which calls for a descriptor the system refuses.
- Nv12.FromNv12: the GPU path, where a picture is two images, copies nothing and is left out.
- Whole-surface copies (`read_into`, `write_from`), a mapping's own bounds check, the choice between
  pixel sources and page rounding are one expression each.
- Foreign calls, the renderer proper, the decoders, and the generated tables are not part of this
  model.
