# A verified model of the frame-rate mod, the audio ring and the build tools

This project models the parts of the repository that keep state across frames,
threads or files, and proves what each of them promises over every input, run or
interleaving. `dafny verify dfyconfig.toml` verifies all of it.

Code that works in place is modelled as classes and methods over arrays and
fields. Each method is proved against a function on values, and the main results
are lemmas about those functions. Guest memory is an array, a byte sequence or a
map; matrix elements, alphas and speeds are reals; streams are exact bytes;
counters and clocks carry their machine width where the code can wrap.

| file | what it models |
|---|---|
| `PoseProtocol.dfy` | the J3D pose history: rotating a pose pair, injecting an interpolated pose into live matrices, taking it out again |
| `DisplayList.dfy` | parsing an emitted GX display list into animated slots, patching them in place, restoring them |
| `FifoCapture.dfy` | capturing the game's command stream out of a circular fifo and splitting it into frames |
| `ParticleTable.dfy` | the bounded-probe particle table and the writes and restores it drives |
| `Cadence.dfy` | the 30 Hz logic / 60 Hz render decision, the pair lock and the retrace lock |
| `HeapPin.dfy` | which of the two heaps may be recycled at a Painter entry |
| `Governor.dfy` | the median verdict on host speed and the back-off machine behind it |
| `JudgeWalk.dfy` | the native process-list search that stands in for the guest's own |
| `SkipGate.dfy` | when a held cutscene skip may be forced |
| `SpscRing.dfy` | the two-thread audio ring, one atomic access or sample copy per step |
| `Yaz0.dfy` | the Yaz0 decoder against an LZ code and its serialization |
| `RarcWalk.dfy` | the recursive walk over a RARC archive's directories |
| `CommandLine.dfy` | argument quoting against the rules of CommandLineToArgvW and section 2.2 of the POSIX.1-2017 Shell Command Language |
| `ControllerProfile.dfy` | merging selected controllers into an existing profile |
| `AspectRatio.dfy` | reading and writing the aspect-ratio setting |
| `DescriptorEncoding.dfy` | the byte stream behind the module descriptor's fingerprint |
| `MergeBands.dfy` | the interval merge of the reservation table and its reported sums |
| `DolPatch.dfy` | patching instruction words of a DOL executable |
| `ChunkTable.dfy` | one code chunk per generated function |
| `Bytes.dfy`, `Words.dfy`, `Sequences.dfy`, `ModArith.dfy`, `Wrappers.dfy` | big-endian words, machine widths, concatenation, remainders and fractions, optional values and results |

## What holds only under a condition

- An L-frame draws what production wrote if and only if production did not write
  exactly the outstanding interpolated pose while `curr` held something else
  (`PoseSpec.DrawsProducedIff`); `PoseSpec.CollidingRun` is a run in which it
  does. After two L-frames in a row and no new pose the
  R-frame replays the older pair (`PoseSpec.SlipReplaysOlderPair`); of the two
  arrays of a ConcatView model the one that stood still replays it as soon as
  the other moves (`PoseSpec.ConcatSlipReplaysOlderPair`).
- Display-list slots kept from one emission to the next are the parse of the new
  one if and only if every signature holds, every konst bit is the slot's and
  the commands between the slots carry none (`DlKept.KeptSlotsParseIff`); for an
  emission that changes slot commands alone, if and only if the konst bits are
  unchanged (`DlKept.KindBitsDecide`). The program checks signatures only.
  `DlKept.SignaturesMissKind` is a konst colour followed by a TEV colour of the
  same size: the slot is kept and patching it turns the TEV colour into a konst
  colour. Every repaint of a run keeps its emission's structure where the
  emission meets the condition (`DlTracker.TaRecord.FollowTicks`); where only
  slot commands and unread bytes changed since the slots were parsed, a repaint
  keeps it if and only if every slot it patches has its konst bit
  (`DlKept.RunKeepsParseIff`).
- A merged band keeps the id of its first row by address. The docstring of
  `merge_bands` says the lowest id; the model follows the code,
  `BandSpec.LowestIdIsNotKept` is an input on which the two differ, and
  `BandSpec.KeepsLowestIdIff` says for which rows they agree.
- A saved aspect ratio reloads if and only if it was not a decimal of four or
  more fraction digits (`AspectRatio.SavedRatioReloadsIff`); `2.3700` is lost.
- Patching a DOL twice changes nothing the second time if and only if the rows
  agree on every file byte they share (`DolSpec.SecondRunIsNoop`). Text sections
  that do not overlap in the file guarantee that. The program checks only
  addresses, and `DolSpec.SharedSectionsBreakTheSecondRun` is a file and a
  manifest on which the second run fails.
- The chunk table covers exactly the addresses of each code range from its first
  function on if and only if no range that holds a function ends behind the first
  such range, save where the next function has begun by then
  (`ChunkSpec.ChunksCoverIff`). Disjoint ranges guarantee that;
  `ChunkSpec.NestedRangesLeaveHole` shows nested ranges that do not.
- The retrace lock's pad is the intended one if and only if the retrace and the
  landing are in the same lap of the 64-bit timebase (`Cadence.ViLockPad`);
  `CadenceSpec.PadMissesAcrossLaps` is a clock on which they are not. Its
  search ends if and only if the limit is no higher than the highest point of a
  lap that the search can reach (`CadenceSpec.EndsIff`);
  `CadenceSpec.SearchCanRunForever` is a clock on which it does not.
- Reading back merged controllers gives the requested list if and only if the
  names are already trimmed and unquoted (`ProfileMerge.MergedReadsBack`).
- An observation can write past the carry buffer if and only if the fifo is more
  than one byte larger than the carry (`FifoSpec.CanOverrunIff`). The program
  accepts fifos of up to 24 MB, and `FifoSpec.LargeFifoOverruns` is one of 2 MB.
- Frames and carry concatenate to what was seen of everything the game wrote as
  long as no round restarted the stream, and otherwise from the last such round
  on (`FifoSpec.RunKeepsStream`). A round restarts it by an observation of no
  bytes, a region that does not relock, or a carry that would overflow. Of a
  write of a whole lap or more only the bytes beyond whole laps are seen. Writes
  shorter than a lap that fit into the carry together are kept in full
  (`FifoSpec.SmallRunKeepsStream`).
- A particle is interpolated if and only if the L-frame tracked it and it is one
  tick older, in full mode with the same lifetime (`ParticleSteps.TrackedMoves`);
  it is tracked if and only if the L-frame visited it and its probe chain was not
  full of others (`ParticleSteps.TrackedIff`).
- Bit 0x10000 of a returned band id means that ids were joined, unless the id
  that is kept had the bit already (`BandSpec.OutputFlagIsExact`).

## Model

| member | source | states |
|---|---|---|
| PoseSpec.SparseIsFull | mods/frame60-accum/mod.c:3026-3042 | storing only the matrices that differ from what the array holds leaves the same array as storing all of them |
| PoseSpec.SnapshotKeepsInv | mods/frame60-accum/mod.c:3887-3991 | an L-frame's snapshot puts back what production wrote, whatever was injected, and leaves it as the newest endpoint |
| PoseSpec.RefreshSettles | mods/frame60-accum/mod.c:4012-4093 | after a refresh a set mask means that the array holds the scratch pose and a clear one that it holds curr, and curr is what production wrote |
| PoseSpec.InjectIsFullLerp | mods/frame60-accum/mod.c:4102-4180 | the sparse injection leaves exactly the interpolation of (prev, curr), and only when it is due |
| PoseSpec.RestoreInjectedRestores | mods/frame60-accum/mod.c:4190-4241 | after a camera cut the array holds what production wrote |
| PoseSpec.ApplyKeepsInv | mods/frame60-accum/mod.c:3887-4241 | every event of the frame loop keeps the protocol's invariant; L-frames, cuts and disengage edges show what production wrote |
| PoseSpec.DrawsProducedIff | mods/frame60-accum/mod.c:3887-3899 | the next L-frame draws the produced pose if and only if that pose does not collide with the outstanding scratch |
| PoseSpec.CollisionDrawsOlderPose | mods/frame60-accum/mod.c:3887-3899 | when production writes exactly the pose an R-frame shows, the next L-frame draws the pose produced before it |
| PoseSpec.CollidingRun | mods/frame60-accum/mod.c:3887-3899 | a run in which that happens |
| PoseSpec.RunKeepsInv | mods/frame60-accum/mod.c:3887-4241 | the invariant over any run, with the last produced pose tracked |
| PoseSpec.LFrameIsAuthoritative | mods/frame60-accum/mod.c:3887-4241 | after any run of events an L-frame draws the last produced pose, never a lerp, and a cut or disengage leaves no lerp behind |
| PoseSpec.RFrameShows | mods/frame60-accum/mod.c:4062-4172 | for a buffered model: after an L-frame and a new pose the pair is (pose drawn, pose produced) and the array holds their interpolation; teleports snap; a repeated pose uses the older pair |
| PoseSpec.PairStaysFixed | mods/frame60-accum/mod.c:4062-4092 | for a buffered model: another R-frame with nothing produced keeps the pair and both flags |
| PoseSpec.PairStaysFixedOverRun | mods/frame60-accum/mod.c:4062-4092 | the same for any number of R-frames at any alphas |
| PoseSpec.SlipReplaysOlderPair | mods/frame60-accum/mod.c:4062-4092 | for a buffered model: an L,L slip without a new pose interpolates the step that was already shown |
| PoseSpec.RefreshConcatSettles | mods/frame60-accum/mod.c:4012-4093 | the refresh of a ConcatView model settles both its arrays under the shared flags |
| PoseSpec.InjectConcatIsFullLerp | mods/frame60-accum/mod.c:4102-4175 | its injection leaves full interpolations in the node array and, once observed, in the envelope array |
| PoseSpec.ConcatEventIsSafe | mods/frame60-accum/mod.c:3887-4241 | every event keeps the invariant of both arrays, and L-frames, cuts and disengage edges show what production wrote into each |
| PoseSpec.ConcatLFrameIsAuthoritative | mods/frame60-accum/mod.c:3887-4241 | after any run of events an L-frame leaves both arrays at the last produced poses, and so do a cut and a disengage edge |
| PoseSpec.ConcatDrawsProducedIff | mods/frame60-accum/mod.c:3943-3965 | the next L-frame draws both produced poses if and only if neither collides with its array's outstanding scratch |
| PoseSpec.ConcatRFrameShows | mods/frame60-accum/mod.c:4020-4060 | each array runs from the pose drawn to the pose produced since; an array that stood still replays its own older pair as soon as the other one moved; a jump of either shows both as produced |
| PoseSpec.ConcatPairStaysFixed | mods/frame60-accum/mod.c:4020-4060 | another R-frame with nothing produced keeps both pairs and the shared flags |
| PoseSpec.ConcatPairStaysFixedOverRun | mods/frame60-accum/mod.c:4020-4060 | the same for any number of R-frames at any alphas |
| PoseSpec.ConcatSlipReplaysOlderPair | mods/frame60-accum/mod.c:4039-4057 | over an L,L slip an array without a new pose interpolates the step that was already shown, also when only the other one moved |
| PoseTracks.PoseTrack.Rotate | mods/frame60-accum/mod.c:3762-3806 | the in-place rotation seeds, snaps over a teleport or shifts the pair, and reports exactly whether the pose changed |
| PoseTracks.PoseTrack.WriteDiff | mods/frame60-accum/mod.c:3026-3042 | the in-place sparse store |
| PoseTracks.PoseTrack.Observe | mods/frame60-accum/mod.c:3887-3899 | restore-if-ours and rotation in place |
| PoseTracks.LerpPose | mods/frame60-accum/mod.c:2631-2644 | the element loops compute the interpolated pose |
| PoseTracks.BufferedModel.LFrame | mods/frame60-accum/mod.c:3911-3991 | the L-frame of a buffered model is the snapshot function, and draws the result |
| PoseTracks.BufferedModel.Refresh | mods/frame60-accum/mod.c:4012-4093 | the in-place refresh is the refresh function |
| PoseTracks.BufferedModel.Inject | mods/frame60-accum/mod.c:4102-4180 | the in-place injection is the injection function |
| PoseTracks.BufferedModel.RestoreInjected | mods/frame60-accum/mod.c:4190-4241 | the in-place restore is the restore function |
| PoseTracks.ConcatModel.LFrame | mods/frame60-accum/mod.c:3911-3991 | the same for a ConcatView model's two arrays |
| PoseTracks.ConcatModel.Refresh | mods/frame60-accum/mod.c:4012-4093 | the refresh of both arrays with dirty and teleport flags merged |
| PoseTracks.ConcatModel.Inject | mods/frame60-accum/mod.c:4102-4180 | the injection into both arrays |
| PoseTracks.ConcatModel.RestoreInjected | mods/frame60-accum/mod.c:4190-4241 | the restore of both arrays |
| GxParse.SlotsInBounds | mods/frame60-accum/mod.c:5954-6036 | every parsed slot lies inside the emission and carries its signature |
| GxParse.SlotsDisjoint | mods/frame60-accum/mod.c:5954-6036 | parsed slots do not overlap, headers included |
| GxParse.SkippedCommand | mods/frame60-accum/mod.c:5954-6036 | a command that carries no slot carries none in any stream that differs in unread bytes only |
| GxParse.ParseIgnoresPayload | mods/frame60-accum/mod.c:5954-6036 | two streams that differ only in slot payload and in unread bytes of other commands, konst bits kept, parse to the same slots |
| PayloadLerp.RoundStaysBetween | mods/frame60-accum/mod.c:6044-6057 | a rounded colour channel stays between its two endpoints |
| PayloadLerp.TexMtxBytes | mods/frame60-accum/mod.c:6072-6149 | word by word, a matrix span holds the encoded interpolation, with the wrap of a 2x4 matrix's translation column |
| PayloadLerp.KonstBytes | mods/frame60-accum/mod.c:6072-6149 | a konst colour span holds both interpolated channels of both words, its command heads and the konst bit |
| PayloadLerp.TevBytes | mods/frame60-accum/mod.c:6072-6149 | a TEV colour span holds the interpolated signed fields, the high word three times, its command heads and a clear konst bit |
| PayloadLerp.LerpKeepsHeads | mods/frame60-accum/mod.c:6072-6149 | an interpolated span keeps every command head and stays konst or TEV |
| DlPatch.SpanWriteEffect | mods/frame60-accum/mod.c:5894-5914 | writing a span replaces that span and no other byte, opcodes included |
| DlPatch.PatchThenRestore | mods/frame60-accum/mod.c:6251-6301 | patching any subset of slots and restoring gives back exactly the emitted bytes |
| DlPatch.PatchIsSameShape | mods/frame60-accum/mod.c:6072-6301 | a patched stream differs from the emitted one in payload only |
| DlPatch.PatchKeepsStructure | mods/frame60-accum/mod.c:5954-6301 | where the slots are the emission's parse, a patched stream parses to the same slots and every slot's signature holds |
| DlKept.KeptSlotsParseIff | mods/frame60-accum/mod.c:5918-6036 | kept slots are the parse of a new emission if and only if signatures and konst bits hold and no other command carries a slot |
| DlKept.KindBitsDecide | mods/frame60-accum/mod.c:5918-5934 | for an emission that changed in slot commands and unread bytes alone and passes the signature check, the konst bits decide it |
| DlKept.SeenIsParseIff | mods/frame60-accum/mod.c:6157-6228 | after a sighting the slots are the emission's parse if and only if it is faithful to them; after a fresh parse it always is |
| DlKept.SignaturesMissKind | mods/frame60-accum/mod.c:5918-5934 | two emissions on which the signature check keeps a slot of the wrong kind: at every alpha the patched list parses to other slots than the emission |
| DlKept.HeldSlotIsParsed | mods/frame60-accum/mod.c:5954-6036 | whatever the konst bits of the other kept slots, a slot whose own bit is right is a slot of the new parse |
| DlKept.RepaintKeepsParseIff | mods/frame60-accum/mod.c:6273-6301 | where an emission changed in slot commands and unread bytes alone, a repaint of it keeps its parse if and only if every slot it patches has its konst bit |
| DlKept.RunKeepsParseIff | mods/frame60-accum/mod.c:6157-6301 | the same for every repaint of every tick of any run |
| DlKept.StaysFaithfulIff | mods/frame60-accum/mod.c:6190-6228 | from one emission to the next, where only slot commands and unread bytes changed, the konst bits decide whether the slots stay its parse |
| DlKept.SteadyRunKeepsStructure | mods/frame60-accum/mod.c:6157-6301 | over a run of such emissions with konst bits unchanged every repaint parses to the slots of its emission |
| DlTracker.TaParse | mods/frame60-accum/mod.c:5954-6036 | the parse loop computes the slots, at most sixteen, within the clamped size |
| DlTracker.TaSpanWrite | mods/frame60-accum/mod.c:5894-5914 | the in-place write of a span |
| DlTracker.TaBuildLerp | mods/frame60-accum/mod.c:6072-6149 | the four kinds of interpolated span, unchanged on equal endpoints or a matrix jump |
| DlTracker.SigsHold | mods/frame60-accum/mod.c:5918-5934 | true exactly if every stored signature holds |
| DlTracker.TaRecord.Sight | mods/frame60-accum/mod.c:6157-6228 | same size and every signature in place: the slots are kept and the endpoint pair moves on by one; otherwise they are parsed afresh within the clamped size and have no earlier endpoint; either way the record is of this generation and buffer |
| DlTracker.TaRecord.RFrame | mods/frame60-accum/mod.c:6273-6301 | a record of another generation or buffer is left alone; otherwise an R-frame patches a slot exactly if it has an earlier endpoint, would change and still holds this tick's bytes, with the interpolation at this alpha, and no other byte; where the emission is faithful the list keeps its structure |
| DlTracker.TaRecord.Restore | mods/frame60-accum/mod.c:6251-6268 | spans that still hold what was written get their bytes back, others are left alone |
| DlTracker.TaRecord.RepaintOnce | mods/frame60-accum/mod.c:6251-6301 | a repaint shows every slot on its way from the emission before, and the restore after it leaves the list byte for byte as emitted |
| DlTracker.TaRecord.LogicTick | mods/frame60-accum/mod.c:6157-6301 | one emission, its sighting and any number of repaints, each restored |
| DlTracker.TaRecord.FollowTicks | mods/frame60-accum/mod.c:6157-6301 | over any run of ticks that emit to either of two buffers, do not emit, or are swapped away: every repaint of a live tick shows its emission interpolated from the one before, with its slots wherever it is faithful; the repaints of every other tick leave the list alone; every emission is left in its buffer as the game wrote it |
| FifoSpec.CaptureAt | mods/frame60-accum/mod.c:3325-3335 | byte k of a captured region is the ring byte k places after its start, across the wrap |
| FifoSpec.DeltaCounts | mods/frame60-accum/mod.c:3518-3526 | the wrap-aware distance is the number of bytes written, except that a whole lap reads as none |
| FifoSpec.CanOverrunIff | mods/frame60-accum/mod.c:3266-3275 | some observation of an accepted fifo writes past the carry if and only if the fifo is more than one byte larger than the carry |
| FifoSpec.LargeFifoOverruns | mods/frame60-accum/mod.c:3558-3561 | a fifo of 2 MB is accepted and overruns |
| FifoSpec.OrderedBoundariesAllCut | mods/frame60-accum/mod.c:3605-3615 | increasing boundaries within the buffered bytes are all cut, each behind its command |
| FifoSpec.FeedKeepsStream | mods/frame60-accum/mod.c:3558-3651 | one region: frames and carry are exactly the bytes that went in, from the region on if the carry had to be emptied |
| FifoSpec.RunKeepsStream | mods/frame60-accum/mod.c:3497-3652 | over any run with companions in between, frames and carry are exactly what was seen of the game's bytes since the last round that restarted the stream, and all of it if there was none |
| FifoSpec.SmallRunKeepsStream | mods/frame60-accum/mod.c:3558-3559 | writes shorter than a lap that fit into the carry together lose nothing |
| FifoSpec.RunStaysPaid | mods/frame60-accum/mod.c:3653-3757 | over any run the companions injected and owed never exceed the frames captured, at most eight are owed and a pair gets at most three |
| FifoCapture.GatherPipe.Write | mods/frame60-accum/mod.c:3327-3335 | after each byte the fifo holds the newest lap of what the game wrote |
| FifoCapture.StreamAlignHead | mods/frame60-accum/mod.c:3481-3488 | the bounded search is the first plausible head among 64 bytes, or no skip at all |
| FifoCapture.StripTriggers | mods/frame60-accum/mod.c:3734-3739 | no trigger command is left in the staged bytes, and only zeroes were written |
| FifoCapture.RegionIsWritten | mods/frame60-accum/mod.c:3518-3537 | for any number of bytes written, an observation sees exactly the ones beyond whole laps |
| FifoCapture.FifoReplay.TakeFrame | mods/frame60-accum/mod.c:3613-3645 | a split-off frame becomes the newest pose exactly when it is long enough, short enough, well-headed and no repeat |
| FifoCapture.FifoReplay.Split | mods/frame60-accum/mod.c:3605-3651 | the frames split off are exactly the bytes between the cuts, the rest stays in the carry, and the poses are made of those frames in order |
| FifoCapture.FifoReplay.Consume | mods/frame60-accum/mod.c:3558-3651 | a region is fed as FeedKeepsStream says: it extends the stream, restarts it on overflow, or is dropped while a resync has not relocked |
| FifoCapture.FifoReplay.Observe | mods/frame60-accum/mod.c:3497-3652 | a discontinuity empties the stream and asks for a relock; otherwise the region the game wrote is fed; exactly where the copy would leave the carry the model stops and says so |
| FifoCapture.FifoReplay.FollowGame | mods/frame60-accum/mod.c:3497-3652 | over any sequence of writes, observations and injections, up to the first region that leaves the carry, the state is the run function's: the stream holds the game's bytes and none of our own |
| FifoCapture.FifoReplay.ObserveFirst | mods/frame60-accum/mod.c:3512-3515 | the first call notes the write pointer and captures nothing |
| FifoCapture.FifoReplay.FollowSmallGame | mods/frame60-accum/mod.c:3497-3652 | writes shorter than a lap that fit into the carry together are all in the stream, in order |
| FifoCapture.FollowFromStart | mods/frame60-accum/mod.c:3497-3652 | the run from a fresh replay: first observation, then every round |
| FifoCapture.FifoReplay.InjectCompanions | mods/frame60-accum/mod.c:3653-3757 | injects exactly the companions that are owed, due in this pair and not stopped by a failure, and the observation point moves past our own bytes |
| ParticleSpec.AtMostOneSlot | mods/frame60-accum/mod.c:4919-4928 | no address occupies two slots |
| ParticleSpec.StoreKeepsPlaced | mods/frame60-accum/mod.c:4919-4928 | storing where a lookup ended keeps every stored address findable, the new one included |
| ParticleSpec.AngleTakesShorterArc | mods/frame60-accum/mod.c:4973-4979 | an interpolated angle moves along the shorter arc and not past its end |
| ParticleSpec.ChannelStaysBetween | mods/frame60-accum/mod.c:4955-4968 | an interpolated colour channel stays between its endpoints |
| ParticleSteps.InjectKeepsOutstanding | mods/frame60-accum/mod.c:5172-5232 | a write over an object leaves an entry that can rebuild what was there before the first write |
| ParticleSteps.RestoreKeepsOutstanding | mods/frame60-accum/mod.c:5278-5291 | putting one endpoint back settles that object and leaves the others restorable |
| ParticleTable.Table.Find | mods/frame60-accum/mod.c:4919-4928 | the probe loop is the lookup |
| ParticleTable.Table.VisitL | mods/frame60-accum/mod.c:5172-5192 | an L visit records the drawn state, or finds the chain full |
| ParticleTable.Table.VisitR | mods/frame60-accum/mod.c:5193-5232 | an R visit of a tracked object that continues, or was written already, writes the interpolation from the state before the first write and marks its entry; any other visit changes nothing; no other object or entry is touched |
| ParticleTable.Table.WalkR | mods/frame60-accum/mod.c:5234-5275 | after an R walk every visited object that moves holds its target, and every other object what it held |
| ParticleTable.Table.Restore | mods/frame60-accum/mod.c:5278-5291 | the restore returns memory to what it was before any write |
| ParticleTable.Table.LFrame | mods/frame60-accum/mod.c:5302-5315 | after an L-frame memory is authentic and the table is that of the objects visited, each recorded as drawn or its chain full |
| ParticleTable.Table.RFramesThenRestore | mods/frame60-accum/mod.c:5234-5322 | any number of R-frames in any visiting order at any alphas: what each of them draws from, and that the restore leaves memory unchanged |
| ParticleTable.Table.OneTick | mods/frame60-accum/mod.c:5234-5322 | L-frame, production and any number of R-frames: what each of them draws from |
| ParticleTable.Table.FollowTicks | mods/frame60-accum/mod.c:5234-5322 | the same for every tick of any run, each starting from what production left |
| ParticleSteps.TableIsDrawn | mods/frame60-accum/mod.c:5302-5315 | the table after an L walk holds visited objects only, each as it was drawn |
| ParticleSteps.TrackedIff | mods/frame60-accum/mod.c:4919-4928 | an object is tracked exactly if it was visited and its probe chain was not full of others |
| ParticleSteps.TrackedMoves | mods/frame60-accum/mod.c:5193-5232 | a tracked object moves exactly if it is the one drawn, one tick later, and then from the pose drawn to the one produced |
| ParticleSteps.TickShowsMotion | mods/frame60-accum/mod.c:5172-5232 | in every R-frame of a tick a moving object that is visited is between the drawn and the produced state, and an object that is not tracked or fails the key holds what production wrote |
| ParticleSteps.UnmovedIsNeverWritten | mods/frame60-accum/mod.c:5193-5232 | over any number of R-frames an object that fails the key is never written |
| CadenceSpec.DecideKeepsInv | mods/frame60-accum/mod.c:668-801 | the residue stays below a slot and a shortened pad inside its window |
| CadenceSpec.PairPadCompletesSlot | mods/frame60-accum/mod.c:763-776 | the shortened pad is in [600000, 675000), never leaves the pair short of a slot, and completes it exactly up to 750000 ticks |
| CadenceSpec.TicksAreConserved | mods/frame60-accum/mod.c:745-789 | slots consumed plus the residue are the ticks received |
| CadenceSpec.LogicRateIsExact | mods/frame60-accum/mod.c:745-789 | logic frames after engagement are floor(sum / T) and the residue is sum mod T |
| CadenceSpec.NeverTwoRenderFrames | mods/frame60-accum/mod.c:745-789 | for deltas in [T/2, T] no two render-only frames are adjacent |
| CadenceSpec.SlipsCountSurplus | mods/frame60-accum/mod.c:745-789 | back-to-back logic frames count exactly the surplus of logic over render-only frames, plus one if the run ends render-only |
| CadenceSpec.SlowHostRunsLogicEveryFrame | mods/frame60-accum/mod.c:745-789 | deltas of a slot or more run logic every frame and keep the residue bounded |
| CadenceSpec.LockedPadInWindow | mods/frame60-accum/mod.c:993-1014 | the retrace pad is in [field/8, field/8 + field) and lands exactly an eighth of a field past the grid |
| CadenceSpec.PhaseHolds | mods/frame60-accum/mod.c:993-1014 | once a wait ended on the phase, the next pad is exactly one field |
| CadenceSpec.EndsIff | mods/frame60-accum/mod.c:1011-1013 | the search by whole fields modulo 2^64 ends if and only if the limit is at most the highest point of a lap with the start's remainder by the field's power of two |
| CadenceSpec.FirstPointIsLockedIff | mods/frame60-accum/mod.c:1010-1014 | the first point it stops at gives the locked pad if and only if the retrace and the landing are in one lap |
| CadenceSpec.PadMissesAcrossLaps | mods/frame60-accum/mod.c:1008-1014 | a clock on which the retrace and the landing are in different laps and the pad is another one |
| CadenceSpec.SearchCanRunForever | mods/frame60-accum/mod.c:1012-1013 | a clock and a field on which the search never ends |
| Cadence.FrameClock.DecideFrame | mods/frame60-accum/mod.c:668-801 | the hook's updates are the decision function; alpha is in [0, 1) |
| Cadence.ViLockPad | mods/frame60-accum/mod.c:993-1014 | for every 64-bit clock on which the search ends, the wrapped arithmetic gives the retrace pad if and only if the retrace and the landing are in one lap |
| Cadence.WaitPadBounds | mods/frame60-accum/mod.c:1016-1071 | every wait is positive, a 60 Hz wait without a grid is in [600000, 675000], and unlimited mode spends an eighth of a slot per iteration |
| HeapPin.StepKeepsInv | mods/frame60-accum/mod.c:1118-1130 | every iteration keeps the pin on the heap that holds the live list |
| HeapPin.DrawsNewestList | mods/frame60-accum/mod.c:1854-1861 | free() recycles the other heap and the list drawn is the newest |
| HeapPin.LiveListIsNeverRecycled | mods/frame60-accum/mod.c:1118-1130 | the same after any run of logic, repainted, duplicate and unsplit iterations with engage and disengage edges |
| HeapPin.UnpinnedRepaintLosesList | mods/frame60-accum/mod.c:1118-1130 | without the pin a repaint loses the live list exactly when the next frame runs Painter |
| HeapPin.PainterHook.OnPainterEntry | mods/frame60-accum/mod.c:2020-2025 | the hook's heap bookkeeping on every decision |
| HeapPin.PainterHook.OneIteration | mods/frame60-accum/mod.c:1854-1861 | one iteration draws the list the last fpcDw built |
| GovernorSpec.CountIsOfMultiset | mods/frame60-accum/mod.c:1793-1802 | sorting does not change how many samples lie below a limit |
| GovernorSpec.SpikesAreIgnored | mods/frame60-accum/mod.c:1793-1804 | at most 29 slow pairs of 60 never give a slow median |
| GovernorSpec.SustainedSlownessIsSeen | mods/frame60-accum/mod.c:1793-1804 | at least 31 slow pairs always do |
| GovernorSpec.RunKeepsInv | mods/frame60-accum/mod.c:1810-1849 | over any run degraded and probing exclude each other and the hold stays between 15 s and 240 s |
| GovernorSpec.DegradesOnlyOnEvidence | mods/frame60-accum/mod.c:1822-1839 | interpolation goes off only after a failed probe, which doubles the hold up to its maximum, or after two slow windows in a row, which leave it |
| GovernorSpec.HoldMovesOnlyOnEvidence | mods/frame60-accum/mod.c:1810-1849 | at every verdict the hold grows only where a probe fails and shrinks only where thirty clean windows are complete |
| GovernorSpec.HoldRunsFromDegrade | mods/frame60-accum/mod.c:1810-1839 | while degraded the retry time is at least the hold after the degrade |
| GovernorSpec.NoEarlyRetry | mods/frame60-accum/mod.c:1810-1821 | a retry comes no earlier than the hold after the degrade and only at speed |
| GovernorSpec.CleanRunResetsHold | mods/frame60-accum/mod.c:1840-1848 | thirty clean windows in a row bring the hold back to its minimum |
| Governor.InsertionSort | mods/frame60-accum/mod.c:1793-1802 | the array ends sorted and a permutation of itself |
| Governor.HeadroomGovernor.OnLFrame | mods/frame60-accum/mod.c:1779-1849 | only plausible pairs are samples; a full window is judged by its median and updates the back-off |
| JudgeSpec.CleanWalkAnswers | mods/frame60-accum/mod.c:7163-7191 | on a list of in-memory nodes the guest's walk ends, and not with the decline code |
| JudgeWalk.Walk | mods/frame60-accum/mod.c:7163-7191 | the native walk answers exactly on clean lists of at most 8192 nodes, with the guest walker's own result |
| JudgeWalk.OnJudge | mods/frame60-accum/mod.c:7193-7236 | every claimed call returns what the guest's walker returns; the declined ones are characterised exactly |
| SkipGateSpec.FiresFarApart | mods/cutscene-skip/mod.c:287-316 | in any run, with the combination let go anywhere, two forced skips are at least 135 held calls apart |
| SkipGateSpec.LatestBounds | mods/cutscene-skip/mod.c:293-316 | the delay of a held combination is between 1 and 45 + 90 * 181 calls |
| SkipGateSpec.HeldFires | mods/cutscene-skip/mod.c:293-316 | a combination held for that delay fires, whatever the fade does |
| SkipGateSpec.WorstFade | mods/cutscene-skip/mod.c:293-316 | for every state some fade pattern keeps the gate shut up to the last of those calls |
| SkipGate.ForcedSkip.ForceNow | mods/cutscene-skip/mod.c:293-316 | the static counters follow the gate |
| SkipGate.ForcedSkip.LetGo | mods/cutscene-skip/mod.c:287-292 | letting the combination go resets the hold and fade counts and keeps the cooldown |
| RingIndex.SlotOfAbsolute | include/moderngekko/spsc_audio_ring.hpp:34-35 | the masked index of a wrapped counter is the index of the unbounded one |
| RingIndex.SubIsDistance | include/moderngekko/spsc_audio_ring.hpp:32 | unsigned subtraction of wrapped counters is their distance |
| RingProtocol.NextKeepsInv | include/moderngekko/spsc_audio_ring.hpp:27-51 | every atomic access and every sample copy of either thread keeps the invariant, with stale acquire loads |
| RingProtocol.DeliveredIsPrefixOfAccepted | include/moderngekko/spsc_audio_ring.hpp:27-51 | in every state of every interleaving the samples popped are a prefix of those accepted, and accepted = delivered + stored with stored at most the capacity |
| RingProtocol.NoSharedSlot | include/moderngekko/spsc_audio_ring.hpp:34-48 | a slot that Push may write is never one that Pop may read |
| RingProtocol.StoredFramesForProducer | include/moderngekko/spsc_audio_ring.hpp:53-56 | called by the producer, with a stale load of the other counter, the count is at least what is stored and at most the capacity |
| RingProtocol.StoredFramesForConsumer | include/moderngekko/spsc_audio_ring.hpp:53-56 | called by the consumer, with a stale load, the count is at most what is stored |
| AudioRing.SpscStereoRing.Push | include/moderngekko/spsc_audio_ring.hpp:27-38 | accepts exactly the whole frames that fit, in order |
| AudioRing.SpscStereoRing.Pop | include/moderngekko/spsc_audio_ring.hpp:42-51 | delivers the oldest stored frames and touches nothing else of the destination |
| AudioRing.SpscStereoRing.StoredFrames | include/moderngekko/spsc_audio_ring.hpp:53-56 | the number of frames accepted and not delivered |
| Yaz0Spec.CopyIsPeriodic | scripts/disc_builder/archives.py:50-51 | an overlapping copy repeats the last bytes periodically |
| Yaz0Spec.MachineFillsSize | scripts/disc_builder/archives.py:19-52 | a success has exactly the declared size |
| Yaz0Spec.MachineIgnoresTail | scripts/disc_builder/archives.py:19-52 | bytes behind the consumed ones do not matter |
| Yaz0Spec.MachineRejectsPrefix | scripts/disc_builder/archives.py:19-52 | every proper prefix of the consumed bytes is rejected |
| Yaz0Spec.DecodeIsPrefixDetermined | scripts/disc_builder/archives.py:13-52 | the three together for whole files, header included |
| Yaz0Spec.FlagsAreReadBack | scripts/disc_builder/archives.py:24-31 | each token of a group of eight finds its own bit of the flag byte |
| Yaz0Spec.MachineExpands | scripts/disc_builder/archives.py:19-52 | bytes that read as tokens decode to what the tokens mean |
| Yaz0Spec.SuccessHasTokens | scripts/disc_builder/archives.py:19-52 | whatever is accepted is the expansion of tokens that stand in the consumed bytes |
| Yaz0Spec.DecodesEverySerialization | scripts/disc_builder/archives.py:13-52 | every token list that codes x, serialized under any header for its size, decodes to x |
| Yaz0Reader.Yaz0 | scripts/disc_builder/archives.py:13-52 | the nested loops compute the decoder, every error included |
| Yaz0Reader.CopyLoop | scripts/disc_builder/archives.py:50-51 | the copy loop is the back-reference |
| RarcSpec.WalkYieldsContained | scripts/disc_builder/archives.py:70-100 | every file handed out, even by a walk that fails later, has at most 33 safe names below the start and lies inside the archive |
| RarcSpec.SuccessMeansNoCycle | scripts/disc_builder/archives.py:70-72 | a walk that succeeds saw no directory twice on any chain; a reachable cycle is always refused |
| RarcWalk.WalkDirectory | scripts/disc_builder/archives.py:70-100 | the recursive generator ends and computes the walk, entry by entry |
| RarcWalk.RarcFiles | scripts/disc_builder/archives.py:55-102 | the same from the packed archive and its header |
| WindowsQuoting.SplitBody | tools/moderngekko_port.cpp:84-106 | inside the quotes the argument parser reads back exactly the text, backslash runs before quotes and at the end included |
| WindowsQuoting.SplitUndoesQuote | tools/moderngekko_port.cpp:84-107 | splitting a line of quoted arguments joined by spaces gives the list back |
| WindowsQuoting.Quote | tools/moderngekko_port.cpp:84-107 | the loop with the running backslash counter computes the quoted form |
| PosixQuoting.SplitUndoesQuote | tools/moderngekko_port.cpp:109-112 | a shell splits the line of quoted arguments into the original list |
| PosixQuoting.Quote | tools/moderngekko_port.cpp:109-112 | the loop computes the quoted form |
| ProfileText.DeviceLineReadsBack | tools/frontend_config.cpp:815-820 | the line that is written binds the trimmed, unquoted name |
| ProfileText.HeaderLineReadsBack | tools/frontend_config.cpp:107-130 | the header that is written for a pad is read as that pad |
| ProfileMerge.ScanAllReads | tools/frontend_config.cpp:1111-1142 | the kept lines read as exactly the pads that were bound, in every prefix |
| ProfileMerge.SpliceReads | tools/frontend_config.cpp:1154-1183 | splicing in standard mappings changes no binding |
| ProfileMerge.MissingReads | tools/frontend_config.cpp:1200-1206 | appending the missing sections binds exactly their pads |
| ProfileMerge.MergedBindsWanted | tools/frontend_config.cpp:1111-1206 | the merged profile binds the requested devices pad by pad and no other |
| ProfileMerge.MergedReadsBack | tools/frontend_config.cpp:799-830 | reading the merged profile gives the requested names, trimmed and unquoted; the list itself if and only if they were that already |
| ProfileMerge.FreshReadsBack | tools/frontend_config.cpp:1046-1052 | a new profile reads back as the requested names, trimmed and unquoted |
| ProfileMerge.MergedKeepsLines | tools/frontend_config.cpp:1111-1206 | every other original line survives in order; only Device lines of bound sections are dropped |
| ControllerProfile.ReadConfiguredControllers | tools/frontend_config.cpp:799-830 | the read loop computes the bound devices, a BOM, repeated sections and later bindings included |
| ControllerProfile.ScanPass | tools/frontend_config.cpp:1104-1142 | the read pass of the merge |
| ControllerProfile.SplicePass | tools/frontend_config.cpp:1154-1183 | the splice pass of the merge |
| ControllerProfile.GenerateControllerConfig | tools/frontend_config.cpp:1026-1058 | a new profile has all four sections, bound or bare, and the balance board's for Wii Remotes |
| ControllerProfile.EnsureControllerConfig | tools/frontend_config.cpp:1077-1206 | an existing binding or an invalid list changes nothing; a profile that is there becomes the merge, a new one the fresh profile, and both bind the list |
| AspectRatio.WrittenRatioReadsBackIff | tools/frontend_config.cpp:292-353 | a printed ratio reads back as itself if and only if both sides are at most 9999, and is refused otherwise |
| AspectRatio.SavedRatioReloadsIff | tools/frontend_config.cpp:175-208 | a setting that was read reloads after saving if and only if it had at most three fraction digits |
| AspectRatio.FourFractionDigitsAreLost | tools/frontend_config.cpp:343-349 | 2.37 survives a save and 2.3700 does not |
| DescriptorSpec.FlatInjective | tools/netplay_compatibility.cpp:36-43 | arrays of fixed-width items under a known count decode uniquely |
| DescriptorSpec.EncodeIsInjective | tools/netplay_compatibility.cpp:81-113 | equal hash inputs come from equal descriptors, nested modules and sections included |
| DescriptorHash.Context.HashModule | tools/netplay_compatibility.cpp:96-111 | one module with its sections is fed in encoding order |
| DescriptorHash.DescriptorFingerprint | tools/netplay_compatibility.cpp:81-113 | the nested loops feed the hash exactly that encoding |
| BandSpec.MergeIsExact | scripts/disc_builder/gen_rel_band_table.py:122-132 | merged rows have strict gaps and cover exactly the input's addresses |
| BandSpec.MergeIgnoresOrder | scripts/disc_builder/gen_rel_band_table.py:122-132 | the windows do not depend on the order of the input, whatever the bands |
| BandSpec.MergeIsIdempotent | scripts/disc_builder/gen_rel_band_table.py:122-132 | merging a merged table changes nothing |
| BandSpec.FlagIsExact | scripts/disc_builder/gen_rel_band_table.py:126-132 | a row is marked joined exactly when a band of another id went into it |
| BandSpec.OutputFlagIsExact | scripts/disc_builder/gen_rel_band_table.py:132 | bit 0x10000 of a returned id is set exactly when the row was joined or the kept id had it already; the bits below are the kept id's |
| BandSpec.RowKeepsFirstId | scripts/disc_builder/gen_rel_band_table.py:126-132 | a row keeps the id and start of its first band by address |
| BandSpec.BandLiesInItsRow | scripts/disc_builder/gen_rel_band_table.py:126-131 | every band lies inside the row it went into |
| BandSpec.KeepsLowestIdIff | scripts/disc_builder/gen_rel_band_table.py:122-132 | a row keeps its lowest id if and only if its first band by address has it |
| BandSpec.LowestIdIsNotKept | scripts/disc_builder/gen_rel_band_table.py:123-124 | the id kept need not be the lowest |
| BandSpec.CoveredAndGapsFillSpan | scripts/disc_builder/gen_rel_band_table.py:157-165 | covered bytes and gaps fill the span |
| BandSpec.CoveredCountsAddresses | scripts/disc_builder/gen_rel_band_table.py:157 | covered bytes are the number of distinct reserved addresses |
| MergeBands.Merged | scripts/disc_builder/gen_rel_band_table.py:122-132 | the loop that grows the last row computes the merge |
| MergeBands.Report | scripts/disc_builder/gen_rel_band_table.py:157-165 | the sums of the report loop |
| DolSpec.LocateIsExact | tools/dol_patch.cpp:219-238 | an address is placed by exactly one section; none and several are the two errors |
| DolSpec.OnlyTargetsChange | tools/dol_patch.cpp:219-258 | no byte outside the target words changes |
| DolSpec.AgreeingRunPutsAll | tools/dol_patch.cpp:219-258 | a run that succeeds leaves every target word replaced when rows agree |
| DolSpec.SecondRunIsNoop | tools/dol_patch.cpp:183-260 | after a success a second run succeeds without a change if and only if the rows agree on every shared byte |
| DolSpec.RunsConverge | tools/dol_patch.cpp:183-260 | images that differ only inside target words, in any mixture, end as the same file |
| DolSpec.SeparatedRunSucceedsIff | tools/dol_patch.cpp:240-258 | a run succeeds exactly if every target word was expected or replaced, and reports a change exactly if one was not replaced yet |
| DolSpec.DisjointSectionsRun | tools/dol_patch.cpp:183-260 | all of it for an accepted manifest and text sections that are disjoint in the file |
| DolSpec.SharedSectionsBreakTheSecondRun | tools/dol_patch.cpp:219-238 | two sections sharing file bytes: the first run succeeds, the second is refused |
| DolPatch.LoadManifest | tools/dol_patch.cpp:58-117 | a manifest is accepted exactly if it is non-empty, aligned, strictly ascending and changes every word |
| DolPatch.DolFile.Apply | tools/dol_patch.cpp:183-260 | an error or a run with nothing to do leaves the file unwritten; otherwise it is replaced once, by the patched image; the change flag says whether a word was written in memory, also where a later row stopped the run |
| ChunkSpec.ChunksAscend | scripts/disc_builder/gen_module_tables.py:87-96 | chunks follow one another without overlap |
| ChunkSpec.EmptyIffListedTwice | scripts/disc_builder/gen_module_tables.py:87-96 | a chunk is empty exactly when its function is listed twice |
| ChunkSpec.ChunksCoverIff | scripts/disc_builder/gen_module_tables.py:87-96 | the chunks hold exactly each range from its first function on if and only if no range overhangs the first one that holds a function of it |
| ChunkSpec.ChunksCover | scripts/disc_builder/gen_module_tables.py:87-96 | disjoint code ranges meet that condition |
| ChunkSpec.NestedRangesLeaveHole | scripts/disc_builder/gen_module_tables.py:87-96 | two nested ranges and a function whose chunk leaves a hole |
| ChunkTable.Build | scripts/disc_builder/gen_module_tables.py:87-96 | the loop computes the chunks and fails exactly if a function lies outside all ranges |

## Left out

- Floating-point rounding, NaN and non-finite guards: elements, alphas and speeds are reals, and the 32-bit float format of a display list is any decoder and encoder.
- In `mods/frame60-accum/mod.c`: the particle emitter table, the deferred or optional paths for faders, lights, sea, foliage, shadows and cloth, and the eviction of display-list records, which are weaker copies of the disciplines modelled here.
- Double-buffer pointer re-resolution, model liveness and purging: one model is one fixed array per matrix kind.
- The engine's command scanner: its boundaries and desync count are arbitrary inputs. Matrix patching of a captured stream and the engine's acceptance of an injection are inputs too.
- FifoCapture.FifoReplay.FollowGame: one fifo geometry; a fifo that is re-created during a run is a discontinuity of Observe.
- FifoCapture.FifoReplay.Observe: what memory holds after the copy has left the carry buffer is not modelled; the observation ends there.
- FifoCapture.FifoReplay.InjectCompanions: does not model the trailing copy-exec trim and the padding to 32 bytes, which only change the bytes that are injected; debug bisect modes are off.
- Environment settings: each is at its default, or a parameter where both values matter (pair lock, retrace lock, heap pin, particle mode). The render-class overrides after the decision (overlap guard) are not modelled.
- Cadence.ViLockPad: a call whose search never ends has no answer, so the method asks for a clock on which it does; EndsIff says which those are.
- Governor.HeadroomGovernor.OnLFrame: wall-clock arithmetic does not wrap 64 bits.
- ParticleTable.Table.LFrame: the traversal of the manager's lists is any list of addresses; a torn-down object is one that is not in guest memory.
- JudgeWalk.OnJudge: the condition-register and program-counter updates of a claimed call; the module-side twin of the walk has the same loop.
- RingProtocol.NextKeepsInv: sample copies are sequentially consistent steps, which the release and acquire accesses around them justify; StoredFrames from a third thread is not covered, and its own load does not count as one that later loads must not fall behind, which only allows more runs.
- RarcWalk.RarcFiles: file names are byte strings; joining them with slashes is left out.
- Reading and writing files, temporary names and atomic publication: a file is its bytes or its lines.
- ControllerProfile.EnsureControllerConfig: the standard mapping of a device is a parameter of plain control lines. A line is the text between newlines.
- AspectRatio.WrittenRatioReadsBackIff: letters are ASCII and stored sides are unbounded integers, which the window keeps within 32 bits for everything that is read.
- DescriptorSpec.EncodeIsInjective: the digest itself is left out, and so is the fingerprint over mod files, whose contents carry no length prefix and do not encode injectively.
- DolPatch.LoadManifest: rows arrive as words or as unreadable; splitting lines and parsing hexadecimal are left out.
- The align-up of bands to a page, the parsers of maps and descriptors, hashing of chunk text, the launcher, lobby, session and process plumbing, and the variable-size record walk of the cache-affinity helper.
