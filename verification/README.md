# Verification of the algorithms and protocols of Constatus

Constatus is a video recorder: sources produce frames, filters change them, motion triggers watch them and
targets store them. This project models the parts of it that are algorithms or state machines and proves
what they guarantee, for all inputs, runs and schedules. `dafny verify dfyconfig.toml` checks
everything (Dafny 4.11).

| file | part of the program |
|---|---|
| `MotionSpec.dfy`, `MotionRuns.dfy`, `MotionLoop.dfy` | the motion recorder's frame loop: the decisions as functions, whole-run theorems, and the loop as a class that refines the functions |
| `Despeckle.dfy` | the morphological noise filter and the difference image it works on |
| `Crc32.dfy` | the CRC-32 and its error detection |
| `Resize.dfy`, `ResizeFine.dfy` | nearest-neighbour and averaging scaling |
| `Placement.dfy` | anchors, picture-in-picture, blit |
| `Circle.dfy` | the circle marker |
| `Encoding.dfy` | RGB to YUYV and back |
| `LcdprocArgs.dfy`, `LcdprocFraming.dfy` | the LCDproc server's argument splitter and line buffer |
| `Lifecycle.dfy`, `Mailbox.dfy`, `DelayLine.dfy` | thread lifecycle with watchdog, frame mailbox, delay line |
| `FilterPipeline.dfy` | the two-buffer filter pipeline and the mirrors |
| `Pixels.dfy`, `Options.dfy` | index arithmetic of pixel buffers; optional values |

Each routine that changes its state in place is a method over arrays or fields, proved against a
specification function or relation; the theorems are lemmas about those. Doubles are exact reals. `int` is
unbounded, except that the CRC uses 32-bit vectors. Memory from `malloc` is an array with arbitrary contents.
A frame is known by the number of its allocation or arrival, a frame in the mailbox by its time stamp.

Points where the code does something its reader may not expect, and what is proved about them:

- The despeckle window has one row more above than below its centre. Erosion followed by dilation therefore
  removes specks like the textbook opening but also moves the picture down a row (`OpeningAndClosing`).
- A pattern letter that names no kernel still swaps the buffers. Where the kernels see the image in full, the
  result depends on uninitialised memory exactly when an odd number of such letters comes before the first
  kernel (`ScratchShowsByParity`). Nearer to the edges it can depend on it even without such letters: the rim
  that one kernel leaves unwritten is seen by the next, and the blanked frame of four pixels hides it for a
  total radius of at most four (`SmallPatternsDetermined`); two kernels need exactly that
  (`TwoKernelsDetermined`), so "dd" is determined and "dD" is not.
- `count_frames_changed` is cleared only by quiet frames while recording, so before a recording triggers need
  not be consecutive (`StartExactly`). A negative mute duration ends all recording for ever
  (`RestartsIffMuteNotNegative`).
- `picture_in_picture` asks for a negative number of bytes exactly when the corner lies further left than the
  picture is wide, which only `axy` positions can cause (`CopyCountDefined`).
- `do_resize` writes outside its buffer exactly when there are output rows but no output columns
  (`WritesOutsideExactly`), and the scaled picture-in-picture asks for that exactly when
  `win * perc < 100 <= hin * perc` (`ScaledOverloadWritesOutside`). The blanking loops of `despeckle` stay in
  the buffer exactly for images of at least four by four pixels and for empty ones (`BlankingInBounds`).
- A circle stays in the ring around its radius exactly for positive radii (`NearCircleExactly`). Radius zero
  also plots the diagonal neighbour (`RadiusZero`), a negative radius a single point in eight mirrorings.
- The marker does not compare its circle with the image. A circle that leaves it at the left or right continues
  in the neighbouring rows, one that leaves it at the top or bottom is written outside the buffer.
  `InBufferExactly` and `MarkerInBufferExactly` say exactly when; `MarkerLeavesBuffer` is a set of changed pixels
  for which it happens.
- An inverting marker leaves gaps: the pixels straight above, below, beside and diagonal to the centre are painted
  an even number of times (`InvertedCircleHasGaps`).
- `rgb_to_yuy2` handles pairs of pixels without a test for odd widths, and the loopback target passes any width.
  For odd widths and no others it writes more than it allocated and reads past its input (`OddWidthOverruns`).
- A rejected LCDproc command stays in the buffer behind a NUL, so the connection never executes another
  command (`RejectionIsFinal`). The overflow test compares with a size the fill level cannot reach; a full
  buffer ends the connection through a read of zero bytes instead. Of a client that sends no
  NUL and whose commands are not rejected that happens exactly when a line is too long for the buffer
  (`RoomExactly`, `Connection.Serve`).
- A stop without a start fails an assertion exactly when the interface has a thread and no users
  (`FailureExactly`). The shutdown in src/main.cpp stops interfaces that nobody started; those are on demand
  and bear it, with a watchdog too (`OnDemandBearsSurplusStops`, `WatchedOnDemandNeverFails`).
- An announced stop does not always stay announced (`AnnouncementStaysExactly`). A restart between the
  announcement and the watchdog's next look at the flag, its own or another, makes the watchdog, and with it the
  thread, stay for ever (`ShutdownExactly`, `ClearedExactly`); `AnnouncementCanBeMissed` and
  `RestartUndoesAnnouncedStop` show such runs.
- A wait in `get_frame` that ends by timeout fails even if a newer frame has arrived, and only such a wait does
  (`MissedIffTimedOut`, `TimeoutBeatsNewFrame`). A call made while a newer frame is there always returns it
  (`CallReturnsIffNewFrame`).
- The delay line does not empty its queue at exit (`QueueDanglesAfterCleanUp`).

## Model

| member | source | states |
|---|---|---|
| MotionLoop.MotionTrigger.Iterate | src/motion_trigger_generic.cpp:222-470 | one turn of the frame loop changes every field, allocation and delete as the specification function of the iteration does, and ends the loop exactly when the camera was resized |
| MotionLoop.MotionTrigger.React | src/motion_trigger_generic.cpp:330-443 | the mute, trigger and quiet branches, with their in-place counters, take exactly the decision of the specification |
| MotionLoop.MotionTrigger.KeepFrame | src/motion_trigger_generic.cpp:445-461 | the previous frame is deleted, the pre-roll queue drops its oldest entry when full, and the frame and its copy end up in the queue and as previous frame |
| MotionLoop.MotionTrigger.Loop | src/motion_trigger_generic.cpp:222-481 | the whole loop with its clean-up ends in the state the run function gives for the inputs |
| MotionSpec.EachFrameInOnePlace | src/motion_trigger_generic.cpp:227-461 | over every run, with parameters changing at will, each allocated frame is in exactly one place once: freed, handed to a target, given to the metadata store, queued, or previous frame |
| MotionSpec.NothingLeaked | src/motion_trigger_generic.cpp:472-481 | after the loop every frame was freed once or given away once |
| MotionSpec.StepBooks | src/motion_trigger_generic.cpp:227-461 | one turn allocates exactly the fetched frame and, as configured, the filtered one, the copies for the plugin, for the metadata store at a start, and for the next comparison; without a target a start frees the queue |
| MotionRuns.RunConsistent | src/motion_trigger_generic.cpp:353-442 | starts and stops alternate, a stop names the event of the start before it, and a muted recorder is not recording and has no hits, in every run |
| MotionRuns.PrerollIsLatest | src/motion_trigger_generic.cpp:445-458 | with fixed length P the queue is the last min(P, n) of the n frames since the previous hand-over, in order |
| MotionRuns.HandedPreroll | src/motion_trigger_generic.cpp:366-390 | what a start records and hands to the first target is exactly those frames, without a target they are freed; the trigger frame is not among them and begins the next list |
| MotionRuns.RunRefinesPhases | src/motion_trigger_generic.cpp:330-443 | with fixed parameters the loop's variables behave as a machine with three phases over the trigger decisions |
| MotionRuns.RunFollowsActions | src/motion_trigger_generic.cpp:353-442 | starts and stops in the log of a run are exactly the beginnings and endings of that machine |
| MotionRuns.StartsExactly | src/motion_trigger_generic.cpp:258-356 | a frame starts a recording if and only if none is recorded, the mute period is over, the schedule allows it, there was a sound, or a detection that has a previous frame or comes from the gray detector, and a plugin decides or min-n-frames is reached |
| MotionRuns.TriggersByInputs | src/motion_trigger_generic.cpp:258-337 | in every run the trigger decisions of the timing theorems are that test on what came from outside, where there is a previous frame exactly after an earlier frame |
| MotionRuns.StopExactly | src/motion_trigger_generic.cpp:419-442 | a recording ends exactly with the frame that makes more than min-duration frames in a row without trigger; until then the counter equals that number and is at most min-duration |
| MotionRuns.StartExactly | src/motion_trigger_generic.cpp:330-356 | from rest the next frame starts a recording if and only if it triggers (`StartsExactly` and `TriggersByInputs` say what that takes), the mute period is over, and the triggers since then reach min-n-frames or a plugin decides |
| MotionRuns.GapInEveryRun | src/motion_trigger_generic.cpp:330-443 | in every run at least the mute period separates a stop from the next start, and without plugin the frames after it, the starting one included, hold at least min-n-frames triggers |
| MotionRuns.RestartsIffMuteNotNegative | src/motion_trigger_generic.cpp:330-336 | after a stop some continuation starts a recording if and only if the mute duration is not negative |
| Despeckle.ApplyKernel | src/motion_trigger_generic.cpp:30-68 | every pixel at least half a kernel from the edges gets the extreme of its window, every other pixel of the output keeps its value |
| Despeckle.Despeckle | src/motion_trigger_generic.cpp:70-113 | for every pattern and every content of the scratch buffer the outer four pixels are zero and every other pixel is that of the current one of two planes on which each kernel fills the interior of the other |
| Despeckle.BuffersMean | src/motion_trigger_generic.cpp:70-91 | however often the buffers swapped, every pixel that the kernels in effect see in full holds their pure composition on the input or on the scratch buffer |
| Despeckle.KnownPatternComposes | src/motion_trigger_generic.cpp:70-91 | for patterns over d, e, D, E that is the composition of all their kernels from left to right on the input |
| Despeckle.SmallLetters | src/motion_trigger_generic.cpp:30-91 | after any pattern a further d gives every pixel seen in full the greatest value, e the least, of two columns and rows before it to two columns and one row after it in what the pattern left |
| Despeckle.LargeLetters | src/motion_trigger_generic.cpp:30-91 | D and E the same with four columns and rows before, four columns and three rows after |
| Despeckle.OtherLetters | src/motion_trigger_generic.cpp:76-90 | any other letter only exchanges the two buffers |
| Despeckle.ScratchShowsByParity | src/motion_trigger_generic.cpp:73-93 | for every pattern, at every pixel the kernels see in full, the result is the same for all contents of the uninitialised buffer if and only if an even number of other letters precedes the first kernel; otherwise a buffer full of any byte shows as that byte |
| Despeckle.SmallPatternsDetermined | src/motion_trigger_generic.cpp:73-113 | with an even number of letters without kernel before the first kernel, and a total radius of at most four, nothing of the image depends on the uninitialised buffer |
| Despeckle.TwoKernelsDetermined | src/motion_trigger_generic.cpp:73-113 | for two kernels, on images larger than twice their total radius, that holds if and only if the radii add up to at most four |
| Despeckle.BlankingInBounds | src/motion_trigger_generic.cpp:95-113 | the blanking loops write inside the buffer if and only if the image is at least four by four or empty |
| Despeckle.OpeningAndClosing | src/motion_trigger_generic.cpp:30-68 | erosion then dilation stays below the input one row up, dilation then erosion above it |
| Despeckle.ComposedMonotone | src/motion_trigger_generic.cpp:70-91 | a pixelwise brighter difference image never gives a darker result, for any pattern |
| Despeckle.ComposedInverted | src/motion_trigger_generic.cpp:30-91 | exchanging dilations and erosions in a pattern inverts its effect on the inverted image |
| Despeckle.ConstantStays | src/motion_trigger_generic.cpp:30-91 | any pattern leaves a constant image constant, so nothing is found where nothing changed |
| Despeckle.CalcDiff | src/motion_trigger_generic.cpp:126-130 | the first n bytes become absolute differences, the rest is kept |
| Crc32.Crc32b | src/main.cpp:81-95 | the nested byte and bit loops compute the checksum function of the first n bytes |
| Crc32.MaskedStep | src/main.cpp:88-91 | the branch-free step with its negated mask is the branching division step of section 8 of RFC 1952 |
| Crc32.TableDriven | src/main.cpp:81-95 | for every message the bit loop computes the same register as the table of section 8 of RFC 1952 |
| Crc32.WindowDetected | src/main.cpp:81-95 | altering any window of at most 4 consecutive bytes of a message of any length changes the checksum |
| Crc32.BurstDetected | src/main.cpp:81-95 | altering any burst of at most 32 consecutive bits, at any bit position, changes the checksum |
| Crc32.ChecksumAffine | src/main.cpp:81-95 | crc(a) ^ crc(b) ^ crc(c) is crc(a ^ b ^ c) for messages of equal length |
| Crc32.ResidueIdentifiesChecksum | src/main.cpp:81-95 | a message with 4 bytes appended has the residue 0x2144DF1C if and only if they are its checksum, lowest byte first |
| Resize.CellIsInCell | src/resize.cpp:72-88 | the truncated product with a real scale factor is the cell that integer arithmetic gives |
| Resize.LastWriterIsLast | src/resize.cpp:77-95 | for every output cell there is a step that writes it, and the last one is ((o + 1) * span - 1) / size |
| Resize.DoResize | src/resize.cpp:65-96 | every output pixel is written and shows the input pixel that its last writer reads; all accesses are in bounds |
| Resize.SourceExactly | src/resize.cpp:69-88 | the source of an output cell is ((o + 1) * n - 1) / m when shrinking, the last input cell that falls on it, and o * n / m when enlarging |
| Resize.ScaledByte | src/resize.cpp:82-94 | every byte of the output, by index, is the byte of the same channel of the source pixel |
| Resize.WritesOutsideExactly | src/resize.cpp:65-96 | the first write of the pass is outside the buffer if and only if there are output rows but no columns |
| Resize.ScaledOverloadWritesOutside | src/resize.cpp:43-54 | the scaled overload causes that exactly for win * perc < 100 <= hin * perc; some percentage does so if and only if the least one that leaves a row leaves no column |
| Resize.UpAndDownIsIdentity | src/resize.cpp:65-96 | scaling up by any amounts in both directions and back down gives exactly the original image |
| Resize.PictureInPictureScaled | src/resize.cpp:43-54 | the scaled overload pastes the scaled picture, clipped, at its anchor and changes nothing else |
| ResizeFine.DoResize | src/resize_fine.cpp:24-80 | the accumulating loops terminate, read within bounds, and give every output channel the weighted mean of its window rounded down |
| ResizeFine.WeightIsArea | src/resize_fine.cpp:28-60 | the accumulated weight of every output pixel is x_scale * y_scale |
| ResizeFine.BoxOfIndicator | src/resize_fine.cpp:35-57 | a single bright input pixel contributes the weight of its column times the weight of its row to a window, and nothing where no sample falls into it |
| ResizeFine.BoxLinear | src/resize_fine.cpp:35-57 | what a window gathers is linear in the picture, so this settles it for every picture |
| ResizeFine.BlockMean | src/resize_fine.cpp:24-77 | shrinking by whole factors k and l gives every output channel the sum of its k times l bytes divided by k * l, rounded down |
| ResizeFine.PixelWithinRange | src/resize_fine.cpp:35-77 | every output channel lies between the least and greatest input value of that channel |
| ResizeFine.ConstantStays | src/resize_fine.cpp:35-77 | a constant channel stays constant under every resize |
| ResizeFine.SameSizeIsIdentity | src/resize_fine.cpp:28-77 | resizing to the same size is the identity |
| Placement.PosToXy | src/pos.cpp:60-122 | every position gives its corner; the wrap loops terminate and give the coordinates modulo the target size |
| Placement.NamedAnchors | src/pos.cpp:68-103 | each named anchor puts the three-quarter line, the middle or the one-third line of the picture on the first quarter, the middle or the last quarter of the target, up to rounding; the picture is never wholly off the left or top edge, and one of up to a third of the target lies wholly inside |
| Placement.AnchorsFormGrid | src/pos.cpp:68-103 | left, centre and right anchors, and upper, centre and lower ones, lie strictly in that order and share their other coordinate |
| Placement.GivenCorners | src/pos.cpp:104-118 | wrapped coordinates lie in the target and differ from the given ones by whole target sizes, absolute ones are kept |
| Placement.PictureInPicture | src/resize.cpp:11-41 | the clipped row copies change exactly the pixels of the overlap, each to in(X - tx, Y - ty) |
| Placement.Blit | src/filter_scroll.cpp:17-44 | the pixel loops with their early exits change exactly the same pixels from an offset on |
| Placement.PastedByte | src/resize.cpp:11-41 | every byte of the result, by index: inside the overlap that of the picture, elsewhere what was there |
| Placement.PasteWhole | src/resize.cpp:11-41 | a picture of the size of the target, placed at its origin, replaces it |
| Placement.PasteUnique | src/resize.cpp:11-41 | pasting determines every byte, so row copies and blit with equal arguments give equal images |
| Placement.CopyCountDefined | src/resize.cpp:19-37 | the number of bytes to copy is non-negative if and only if the corner is at most the picture's width left of the target, which every position but axy guarantees; `AbsoluteMayBeUndefined` is an input that fails |
| Circle.CircleFits | src/filter_marker_simple.cpp:42-74 | a circle that reaches neither the left nor the right edge writes inside the buffer if and only if it fits the image vertically |
| Circle.InBufferExactly | src/filter_marker_simple.cpp:42-74 | for every centre in the image and every radius up to its width, circles that wrap included, all writes stay in the buffer if and only if the rows fit and an outermost row that is the first or last of the image does not stick out of it |
| Circle.MarkerInBufferExactly | src/filter_marker_simple.cpp:173-257 | for every set of changed pixels that is exactly when the circles around their mean, with the smaller mean deviation as radius, write inside the buffer |
| Circle.ClosedFormKept | src/filter_marker_simple.cpp:61-70 | every step keeps d = 2x^2 + 8x + 2y^2 - 6y + 3 - 2r^2 + 4r |
| Circle.PointsNearCircle | src/filter_marker_simple.cpp:54-74 | for every radius from 1 every octant point satisfies (r - 2)^2 <= x^2 + y^2 <= r^2 + r + 1 |
| Circle.NearCircleExactly | src/filter_marker_simple.cpp:54-74 | all points lie in that ring if and only if the radius is positive; a negative radius plots one point |
| Circle.OctantWithoutGaps | src/filter_marker_simple.cpp:56-74 | the octant has one point per column, each at most one row below the last, and crosses the diagonal |
| Circle.DrawCircle | src/filter_marker_simple.cpp:42-74 | for every circle whose writes stay in the buffer, every pixel is painted as often as it is a mirror image of an octant point, and no other byte changes |
| Circle.TouchedNearCircle | src/filter_marker_simple.cpp:42-74 | a circle that fits the image touches only pixels of the ring from r - 2 to r + 1/2 around its centre |
| Circle.ElsewhereUnchanged | src/filter_marker_simple.cpp:42-74 | all pixels outside that ring keep their value |
| Circle.EightWays | src/filter_marker_simple.cpp:42-52 | each point is plotted in exactly its eight mirror images |
| Circle.RepeatedPainting | src/filter_marker_simple.cpp:15-40 | a pixel painted repeatedly gets the colour, or full red, and in the inverting modes has all channels, or the red one, inverted exactly after an odd number of times |
| Circle.InvertedCircleHasGaps | src/filter_marker_simple.cpp:15-74 | a fitting circle paints pixels straight or diagonal to its centre an even number of times, so an inverting marker leaves them unchanged |
| Encoding.StudioRange | src/encoding.cpp:41-43 | Y lies in 16..235, U and V in 16..240, so the forward clamps never fire |
| Encoding.RgbToYuy2 | src/encoding.cpp:45-79 | for even widths every pair of pixels is encoded as its lumas and the rounded means of its chromas |
| Encoding.OddWidthOverruns | src/encoding.cpp:45-79 | the loops write more bytes than were allocated, and read past the input, if and only if the width is odd and there are rows |
| Encoding.Yuy2ToRgb | src/encoding.cpp:7-36 | every four bytes decode to two pixels with the shared chroma |
| Encoding.Primaries | src/encoding.cpp:7-79 | red, green, blue, black and white have their values of ITU-R BT.601 in the byte order Y, U, Y, V, and decode to the given bytes |
| Encoding.RoundTripError | src/encoding.cpp:7-79 | for every image the error of a pair is bounded by the chroma difference of its pixels; with equal chroma it is at most 2 for red and green and 3 for blue, and `BoundsAreSharp` attains these; `Gray` keeps gray within one |
| LcdprocArgs.SplitInArgs | src/filter_lcdproc.cpp:18-80 | the index and flag loops compute the recursive splitter, arguments and verdict |
| LcdprocArgs.RoundTrip | src/filter_lcdproc.cpp:18-80 | any list of arguments, each bare or in one of the three quotes without its closer, joined by single spaces, is split into itself |
| LcdprocArgs.UnterminatedQuote | src/filter_lcdproc.cpp:36-77 | a quote opened after any such list and never closed makes the splitter return false |
| LcdprocArgs.ExpressibleExactly | src/filter_lcdproc.cpp:18-80 | a list of strings is the successful result of some command if and only if each of them can be written bare or in one of the quotes |
| LcdprocFraming.Connection.Poll | src/filter_lcdproc.cpp:370-435 | one read appends its bytes, executes the complete lines and keeps the rest, as the drain function says, for any bytes |
| LcdprocFraming.Connection.ExecuteLines | src/filter_lcdproc.cpp:389-435 | the in-place search, execution and memmove loop is the drain function |
| LcdprocFraming.OneCommand | src/filter_lcdproc.cpp:389-435 | a complete line is executed without its line feed and removed, also when it ends with an exception; a rejected one stays with a NUL for the line feed |
| LcdprocFraming.ChunkingIrrelevant | src/filter_lcdproc.cpp:370-435 | however a stream is cut into reads, with NULs and rejections too, the same commands run and the same bytes stay behind |
| LcdprocFraming.AnyCutExecutesLines | src/filter_lcdproc.cpp:382-436 | for streams without NUL, cut in any way, the commands are the newline-terminated lines in order up to the first rejected one; the processed lines and the buffered bytes, with the NUL of a rejected command turned back, are the whole stream |
| LcdprocFraming.RoomExactly | src/filter_lcdproc.cpp:376-385 | for streams without NUL or rejection the buffer has room for the next read at every byte if and only if every line and the unfinished end is shorter than the buffer less one |
| LcdprocFraming.Connection.Serve | src/filter_lcdproc.cpp:370-435 | the loop of reads, each as long as the client offers and the buffer allows, leaves what one read of all bytes taken leaves; it closes only with a full buffer, and takes the whole stream with room to spare if and only if all its lines are that short |
| LcdprocFraming.RejectionIsFinal | src/filter_lcdproc.cpp:404-407 | after a rejected command no further read executes anything |
| Lifecycle.EveryScheduleHealthy | src/interface.cpp:92-177 | for every interleaving in which nobody stops more often than it started no assertion fails, the user count is the outstanding starts, running says whether a thread exists, all other threads were joined, and a used interface has a thread |
| Lifecycle.StopJoinsExactly | src/interface.cpp:92-177 | in every such schedule a stop joins the thread if and only if it gives back the last use and the last setting of on-demand was true, having told it to stop; no other stop touches the thread, and after a start there is one |
| Lifecycle.JoinedWasTold | src/interface.cpp:151-177 | in every such schedule an interface whose threads were all joined has its stop flag set |
| Lifecycle.FailureExactly | src/interface.cpp:92-177 | for every interleaving whatever an assertion has failed if and only if at some point somebody stopped an interface with a thread and no users |
| Lifecycle.OnDemandBearsSurplusStops | src/main.cpp:607-616 | an interface that is on demand from the beginning stays healthy under any number of surplus stops, and has no thread whenever it has no users |
| Lifecycle.AnnouncementStaysExactly | src/interface.cpp:92-148 | after an announcement, in every schedule, the stop flag stays set throughout if and only if no step restarts a thread or starts an interface without users |
| Lifecycle.WatchdogNeverFails | src/source.cpp:494-540 | in every run of the watchdog among others no assertion fails, its use is counted and holds the thread from its start until it gives it back, and its restart replaces the thread and keeps every count |
| Lifecycle.AfterTheLook | src/source.cpp:507-537 | if between the announcement and the watchdog's next look nobody restarts the interface and the watchdog has neither decided to nor finds the source stuck at a check still ahead, the watchdog leaves, and once all uses are given back every thread is joined; otherwise it watches and the thread stays for ever |
| Lifecycle.ShutdownExactly | src/source.cpp:507-537 | so shutdown can join the thread if and only if no restart comes before that look |
| Lifecycle.ShutdownOfRun | src/source.cpp:494-540 | the same for every run from the beginning with an announcement while the watchdog watches |
| Lifecycle.WatchedOnDemandNeverFails | src/main.cpp:607-616 | for every run of a watched source that was set on demand before others used it, whatever they do, no assertion fails and without users it has no thread |
| Lifecycle.ShutdownJoinsEveryThread | src/interface.cpp:151-177 | after an announced stop, in any balanced schedule that stays on demand, the stop that gives back the last use leaves no thread unjoined |
| Lifecycle.Interface.End | src/interface.cpp:151-177 | stop changes the fields as the specification says, tells the thread to stop before it joins it, and its assertion holds for callers that started before |
| Lifecycle.Interface.Again | src/interface.cpp:118-149 | restart changes the fields as the specification says, tells the thread to stop before it joins it, and its assertion always holds |
| Mailbox.ConsumersSeeTimeAdvance | src/source.cpp:169-190 | over every schedule each consumer's frames have strictly increasing time stamps |
| Mailbox.SuccessIsCurrent | src/source.cpp:119-135 | a successful call returns the current frame, newer than all this consumer had, no older than any consumer had, and the newest ever published |
| Mailbox.MissedIffTimedOut | src/source.cpp:179-190 | with a newer frame there, a wait that ends returns nothing if and only if it ended by timeout, and the frame stays new for this consumer |
| Mailbox.FailureComesLate | src/source.cpp:169-190 | over every schedule a wait that was not ended by timeout fails if and only if there is no newer frame and the timeout has passed since the call |
| Mailbox.PublishedAsStamped | src/source.cpp:119-135 | over every schedule a frame becomes current with the time its producer read before taking the lock |
| Mailbox.NewFrameIsDelivered | src/source.cpp:169-190 | over every schedule, once a frame is new for a consumer there is one for it until it receives one, so a missed frame is only late |
| Mailbox.TimeoutBeatsNewFrame | src/source.cpp:186-190 | the schedule of a sleeping consumer, a published frame and a timeout reaches the failure |
| Mailbox.Source.GetFrame | src/source.cpp:171-206 | the waiting loop returns what its last look at the frame says, after looks that all said to wait, and fails on timeout |
| DelayLine.SourceDelay.Arrive | src/source_delay.cpp:38-51 | after any number k of arrivals the queue is the last min(k, n) frames in order, prev is the frame before them, and every older frame was freed once |
| DelayLine.QueueExactly | src/source_delay.cpp:38-51 | from the number of arrivals alone: the queued frames by position, the frame before them, and exactly which frames are freed |
| DelayLine.SourceDelay.GetFrame | src/source_delay.cpp:75-109 | the oldest queued frame is served with the time stamp of the newest, and nothing only before the first arrival |
| DelayLine.SourceDelay.CleanUp | src/source_delay.cpp:64-68 | at exit every frame that ever arrived has been freed exactly once |
| DelayLine.QueueDanglesAfterCleanUp | src/source_delay.cpp:64-68 | after exit the queue still points to freed frames if and only if anything had arrived |
| FilterPipeline.ApplyFilters | src/filter.cpp:12-45 | for every mix of filters the image ends up in work with the filters applied from left to right, whatever the parity of the buffer swaps |
| FilterPipeline.LastFilter | src/filter.cpp:21-42 | whatever came before, the last filter of a pipeline, in place or not, applies its own function to the result |
| FilterPipeline.PipelineFolds | src/filter.cpp:21-42 | a pipeline of filters given by functions, in place or not in any mix, is the left fold of the functions |
| FilterPipeline.ApplyMirrorH | src/filter_mirror_h.cpp:17-31 | the output is the input with the columns of every row reversed |
| FilterPipeline.ApplyMirrorV | src/filter_mirror_v.cpp:17-23 | the output is the input with its rows reversed |
| FilterPipeline.MirrorTwice | src/filter_mirror_h.cpp:17-31 | each mirror applied twice is the identity |
| FilterPipeline.MirrorsTurn | src/filter_mirror_v.cpp:17-23 | both mirrors in either order reverse the order of all pixels, a rotation by 180 degrees |
| FilterPipeline.MirrorPipelines | src/filter.cpp:21-42 | every pipeline of mirrors depends only on the parities of the two kinds: both odd turns the image by 180 degrees, both even is the identity |

## Left out

- Sockets, HTTP and REST handlers, databases, file and process output, codecs, fonts, plugins and configuration loading: calls to foreign code or plumbing.
- Rounding of doubles in the scalers: scale factors, weights and sums are exact reals.
- Overflow of `int`: sizes, counters and decision variables are unbounded.
- The detectors of the motion loop, apart from the difference image, the despeckle filter and the use of the previous frame: their verdict is an arbitrary boolean for every frame.
- Pan and tilt, external commands, notified clients, meta data strings and the warm-up frames of the motion loop: they do not touch the modelled state.
- A negative pre-record duration, which the program turns into a very large unsigned number: the model takes a natural number.
- What a target or the metadata store does with a frame it was given: it owns it from then on.
- Despeckle.Despeckle: non-empty images smaller than 4 by 4, for which the blanking loops write outside the buffer, are excluded.
- Despeckle.SmallPatternsDetermined: for three or more kernels with a total radius above four it is not characterised which of the pixels near the edges depend on the scratch buffer; what they hold is exact in Despeckle.Despeckle.
- Circle.DrawCircle: circles that would be written outside the buffer, which InBufferExactly determines, are excluded.
- Circle.TouchedNearCircle: circles that wrap to neighbouring rows are covered by DrawCircle and InBufferExactly only.
- Encoding.RgbToYuy2: odd widths, which OddWidthOverruns covers, are excluded.
- `draw_border`, boxes and crosses of the marker, `update_pixel` outside the buffer: easy, or undefined.
- The interpreter behind `lcdproc_command` and its screens: any function of the commands so far and the new one stands for it.
- Mailbox.Source.GetFrame: the filtered path, failure frames and the time the operating system takes to wake a waiter are not modelled; what others do during a wait is an arbitrary frame, time and timeout.
- Lifecycle.WatchdogNeverFails: others give back only what they took; a surplus stop can take the watchdog's use, which FailureExactly and WatchedOnDemandNeverFails cover.
- Lifecycle.AfterTheLook: others give back only what they took, and nobody announces a second stop or leaves on demand after the announcement.
- Lifecycle.ShutdownExactly: the same.
- Lifecycle.ShutdownOfRun: the same.
- The threads behind `interface`: bodies under the lock are single steps, joining always succeeds, and several interfaces starting each other are not modelled.
- DelayLine.SourceDelay.Arrive: a queue length below 1, for which the loop reads an empty vector or never drops a frame, is excluded.
- A null filter list in `apply_filters`: it returns at once.
