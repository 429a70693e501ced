# Andon safety light for a Coral Dev Board Micro — Dafny model

The firmware watches a work area with a camera (person detection) and an
multi-zone time-of-flight (ToF) depth sensor (configured for a 4×4 grid; the grid is a parameter of the model), and drives a three-LED Andon light.
On the M7 core a state controller decides every 10 ms whether the area is
Idle, Warning (someone present) or Stopped (someone within the danger
distance). It decides either from the sensors (no host connected) or from
the state a host machine reports (host connected). The LED task shows that
state as a colour. This project models the decision logic, the two depth
estimators, the LED bit encoding and the inter-core ring buffer as pure
Dafny functions, and proves what they guarantee.

Modules (one per file):

- `Wrappers` — `Option`.
- `SeqMath` — sums, min/max, insertion sort, de-duplication, counts and "sum/count of the elements at most c", shared by both estimators.
- `Ticks` — `TickType_t` ages: unsigned 32-bit differences.
- `SystemEnums` — system states, host connection status, host-state buckets.
- `DepthEstimation` — `src/m7/depth_estimation.cc`: the cells a box overlaps, the usable-range filter, median outlier removal, the mean, and the per-detection mapping.
- `HistogramDepth` — `src/m7/depth_estimation_task.cc`: the valid-cell filter, the histogram "closest third" estimate (a loop-based method proved equal to a plain reference definition), and the task's fusion pass.
- `StateController` — one iteration of `state_controller_task` as a step function over the remembered record, the queue contents and the clock reads.
- `ControllerProperties` — what one step, and a run of steps, guarantees.
- `LedWire` — `SendByte`/`SendColor` as signal traces, with decoders and round trips.
- `LedTask` — `src/m7/led_task.cc`: the colour map and change-only rendering.
- `RgbTask` — `src/m7/rgb_task.cc`: 0xRRGGBB unpacking and one task cycle.
- `IpcRingBuffer` — `include/ipc_ring_buffer.hh`: the 4-slot SPSC buffer, proved equal to a 3-entry FIFO queue, and the message manager.

Modelling choices:

- Ticks are milliseconds, as the header comment states for a 1 ms tick. Ages are `(now - since) mod 2^32`.
- A FreeRTOS queue read becomes an `Option` in the step's `Inbox`. The step returns what is left in each queue. `xQueueOverwrite` of the state queue becomes the step's `published` value. The logging record is part of the controller record.
- The controller reads the tick counter three times per iteration: at the start, after depth estimation, and when stamping the log. These reads are the three fields of a `Clock` parameter. They decide the `depth_estimation_time_ms > 0` condition that gates the log's depth record.
- The depths array is a fixed-length `seq<real>`. It starts zeroed, as static storage is. Estimation overwrites slots `0..count-1` and keeps the rest.
- The cell regions, `rectangles_overlap`, `kTofRgbMap`/`pixel_to_coords` and the four host-state bucket sets are defined outside these files. They are parameters: a `Grid`, an overlap function, and `Buckets`.
- The outlier test `|d - m| > 0.25 m` is modelled as `4|d - m| > m` on integers. This is exact because both values are `uint16_t` and multiplying by 0.25 is exact in `float`. The mean is the rational mean of the survivors.
- ToF distances are `int16_t`. Copying one into a `uint16_t` wraps it (`ToU16`), so a negative reading is never usable.

## Model

| member | source | states |
|---|---|---|
| SeqMath.Sort | src/m7/depth_estimation.cc:68-69 | the result is ordered and is a permutation of the input (same multiset, same length) |
| SeqMath.Dedup | src/m7/depth_estimation_task.cc:72-77 | from a sorted list, a strictly increasing list with exactly the same values, starting with the smallest |
| SeqMath.CountIsMultiplicity | src/m7/depth_estimation_task.cc:66-69 | the occurrence count of a distance is its multiplicity in the multiset of readings (the histogram entry) |
| SeqMath.SortSorted | src/m7/depth_estimation.cc:68-70 | sorting an already ordered list leaves it unchanged |
| SeqMath.RankOfSorted | src/m7/depth_estimation.cc:68-70 | the element at position k of a sorted rearrangement of a list has rank k in the original list: at most k elements lie below it and more than k at or below it |
| SeqMath.CountAtMostPerm | src/m7/depth_estimation.cc:68-69 | two lists holding the same readings (one a sorted copy of the other) have equally many readings at or below any value |
| Ticks.Elapsed | src/m7/state_controller_task.cc:69 | the unsigned tick difference: `since + age ≡ now (mod 2^32)`, equal to `now - since` when no wrap happened |
| DepthEstimation.ToU16 | src/m7/depth_estimation.cc:55 | a `uint16_t` conversion keeps values in range and wraps negative `int16_t` readings by +65536 |
| DepthEstimation.ClampBox | src/m7/depth_estimation.cc:16-20 | each coordinate becomes min(coordinate, extent-1 as `uint16_t`): never above that limit, never larger than before, unchanged when already in range, and equal to the limit when it was beyond it |
| DepthEstimation.ClampedBoxInsideImage | src/m7/depth_estimation.cc:16-20 | for a real image (1 to 65536 pixels per side) the clamped box lies within width-1 and height-1 |
| DepthEstimation.FindOverlappingCells | src/m7/depth_estimation.cc:7-37 | the cell indices are strictly ascending (so unique), each is a valid cell index, and a cell is listed exactly when its region overlaps the clamped box |
| DepthEstimation.UsableReadings | src/m7/depth_estimation.cc:50-59 | one entry per overlapped cell whose `uint16_t` reading is in (0, 4000): each value occurs exactly as often as there are such cells reading it, and no other value occurs |
| DepthEstimation.Median | src/m7/depth_estimation.cc:67-70 | the median is one of the readings and is the element of rank n/2: at most n/2 readings lie below it and more than n/2 lie at or below it |
| DepthEstimation.KeepNear | src/m7/depth_estimation.cc:72-79 | every reading within 25% of the median survives with its full multiplicity and every other reading is removed entirely |
| DepthEstimation.Survivors | src/m7/depth_estimation.cc:65-80 | with at most two readings nothing is removed; with more, the survivors are exactly the readings within 25% of their median, each with its original multiplicity |
| DepthEstimation.SurvivorsNonEmpty | src/m7/depth_estimation.cc:70-84 | the median survives its own filter, so filtering never empties the list and the "all outliers" -1 branch is unreachable |
| DepthEstimation.SurvivorsNotIdempotent | src/m7/depth_estimation.cc:65-80 | a second outlier pass can remove more readings: [1,1,75,100,125,125] keeps [75,100,125,125], and that keeps [100,125,125] |
| DepthEstimation.SecondPass | src/m7/depth_estimation.cc:65-80 | the median of [75,100,125,125] is 125, which drops 75 and keeps exactly [100,125,125] |
| DepthEstimation.KeepAllNear | src/m7/depth_estimation.cc:72-79 | a list whose readings are all near the median passes the filter unchanged |
| DepthEstimation.MeanBounds | src/m7/depth_estimation.cc:86-92 | the mean of values within [lo, hi] lies within [lo, hi] |
| DepthEstimation.SurvivorsBetween | src/m7/depth_estimation.cc:65-92 | every survivor lies between the smallest and the largest usable reading |
| DepthEstimation.ComputeDepth | src/m7/depth_estimation.cc:40-93 | -1 exactly when the detection has no usable reading; otherwise the mean of the readings that survive outlier removal (which is never empty), lying between the smallest and largest usable reading, hence in (0, 4000) |
| DepthEstimation.DepthsFor | src/m7/depth_estimation.cc:107-119 | one result per detection in input order, carrying that detection, its compute_depth value, and valid exactly when the depth is positive |
| DepthEstimation.EstimateDepths | src/m7/depth_estimation.cc:95-129 | nothing is estimated when the ToF queue is empty; otherwise one result per detection, in input order, carrying that detection and its compute_depth value; valid exactly when it has a usable reading, valid depths in (0, 4000), invalid ones -1 |
| HistogramDepth.SelectedFrom | src/m7/depth_estimation_task.cc:32-56 | cell indices ascending; a cell is selected exactly when it has a target, status 5 and overlaps the box |
| HistogramDepth.GetOverlappingDepthCells | src/m7/depth_estimation_task.cc:23-59 | one cell per selected index, in ascending cell order, carrying that cell's distance and status, with status 5 and valid set |
| HistogramDepth.DistinctSorted | src/m7/depth_estimation_task.cc:65-77 | the histogram keys in ascending order: strictly increasing, with exactly the distances that occur |
| HistogramDepth.NumSamples | src/m7/depth_estimation_task.cc:80 | a third of the distinct distances, rounded down, but at least one: one when fewer than three, and for three or more an n with 3n <= distinct < 3n+3; never more than there are |
| HistogramDepth.CutoffSelectsSome | src/m7/depth_estimation_task.cc:79-89 | the largest distance used is itself a reading, so the count is positive and the division is defined |
| HistogramDepth.CalculateDepthEstimate | src/m7/depth_estimation_task.cc:62-90 | the histogram loop computes the reference estimate: the floor of the mean of all readings at or below the cut-off (multiplicity-weighted closest third); 0 for no cells; between the smallest reading and the cut-off |
| HistogramDepth.HistogramStep | src/m7/depth_estimation_task.cc:84-87 | adding the next histogram bucket adds distance×multiplicity to the sum and the multiplicity to the count, i.e. moves the cut-off to that distance |
| HistogramDepth.NoReadingBetween | src/m7/depth_estimation_task.cc:77-87 | no reading lies strictly between consecutive sorted keys, nor below the first |
| HistogramDepth.FinishEstimate | src/m7/depth_estimation_task.cc:84-89 | after the loop, the totals give the reference estimate with a positive count |
| HistogramDepth.EstimateBounds | src/m7/depth_estimation_task.cc:84-89 | the estimate is at least the smallest distance and at most the largest distance used |
| HistogramDepth.DivBounds | src/m7/depth_estimation_task.cc:89 | integer division of a total within [n·lo, n·hi] by n lands in [lo, hi] |
| HistogramDepth.UniformDistance | src/m7/depth_estimation_task.cc:80-89 | when every cell reports the same distance d, the estimate is d |
| HistogramDepth.PersonDepths | src/m7/depth_estimation_task.cc:129-148 | exactly one entry per person with a positive estimate, carrying that person's id and estimate, in input order (an increasing map from entries to positions in the input) |
| HistogramDepth.PicksMembership | src/m7/depth_estimation_task.cc:129-148 | such an in-order listing reports only people with positive estimates, all of them, and no more entries than there are people |
| HistogramDepth.PicksStep | src/m7/depth_estimation_task.cc:129-148 | handling the first person and then the rest keeps the listing in order: the first person goes in front exactly when its estimate is positive |
| HistogramDepth.DepthTaskCycle | src/m7/depth_estimation_task.cc:107-155 | data is fused and published only when both an inference result and a ToF frame are available; the person depths are one entry per person with a positive estimate, in input order |
| StateController.Start | src/m7/state_controller_task.cc:317-337 | start-up moves Uninitialized to HostReading and publishes it; the host is unconnected, its state undefined, and no frame is remembered |
| StateController.EstimateInto | src/m7/state_controller_task.cc:94-99 | slot i of the depths array gets compute_depth of detection i for every detection; later slots keep their value |
| StateController.Step | src/m7/state_controller_task.cc:339-375 | the state queue is written exactly when the state changes, with the new state; the log carries the post-update state; the state is one of HostReading, Warning, Stopped, Idle, Active; connection and detection queues are drained; the ToF and host-state queues are either consumed or left as they were |
| ControllerProperties.FreshFrameFreshTof | src/m7/state_controller_task.cc:164-233 | disconnected, new frame with people, ToF frame queued: all depths are re-estimated from it and the state is Stopped exactly when some depth is within the danger distance, Warning otherwise, never Idle |
| ControllerProperties.FreshFrameRememberedTof | src/m7/state_controller_task.cc:203-233 | disconnected, new frame with people, no ToF frame: depths are not re-estimated; remembered ToF at most 1000 ms old decides Stopped/Warning, older ToF gives Warning |
| ControllerProperties.FreshEmptyFrameIdle | src/m7/state_controller_task.cc:235-238 | disconnected, new frame with nobody: Idle, whatever the ToF queue holds, which is not read |
| ControllerProperties.NoFrameForgottenIdle | src/m7/state_controller_task.cc:240-284 | disconnected, no new frame: Idle exactly when the remembered frame is empty or its last sighting is older than 1000 ms (mod 2^32) |
| ControllerProperties.RememberedFrame | src/m7/state_controller_task.cc:253-279 | disconnected, remembered frame still valid: remembered depths reused unchanged; ToF older than 1000 ms gives Warning, otherwise Stopped exactly when a remembered depth is within the danger distance |
| ControllerProperties.NoReadingStops | src/m7/state_controller_task.cc:193-200 | one detection within the danger distance suffices, and a detection with no usable reading (-1) stops the line whenever the danger distance is at least -1 |
| ControllerProperties.TickBookkeeping | src/m7/state_controller_task.cc:162-182 | the last-detection tick moves to now only on a new frame with people; the last-ToF tick moves to now only when a ToF frame is taken |
| ControllerProperties.ConnectedHostDecides | src/m7/state_controller_task.cc:22-44 | connected: the state comes from the queued or remembered host state, red→Stopped, yellow→Warning, blue→Idle, green→Active in that order, HostReading if in no bucket |
| ControllerProperties.ConnectedIgnoresSensors | src/m7/state_controller_task.cc:9-51 | connected: detections, depths, ToF data and ticks never change the decided or the published state |
| ControllerProperties.IndependentKeepsHostState | src/m7/state_controller_task.cc:146-159 | disconnected: the host-state queue is not read and the remembered host state is kept |
| ControllerProperties.Run | src/m7/state_controller_task.cc:339-375 | any number of iterations keeps the remembered frame within the depths array |
| ControllerProperties.StaysConnected | src/m7/state_controller_task.cc:344-347 | with connection updates that only ever say Connected, a connected controller stays connected on every later iteration |
| LedWire.SendByte | src/m7/led_task.cc:18-22 | exactly eight data bits |
| LedWire.SendByteMsbFirst | src/m7/led_task.cc:18-22 | position k carries bit 7-k of the byte: most significant bit first |
| LedWire.ByteRoundTrip | src/m7/led_task.cc:18-22 | decoding the eight bits gives the byte back |
| LedWire.EncodeDecodeByte | src/m7/led_task.cc:18-22 | every eight-bit trace is the encoding of the byte it decodes to (the encoding is a bijection) |
| LedWire.SendColor | src/m7/led_task.cc:24-30 | 24 bits: the green byte, then red, then blue |
| LedWire.ColorRoundTrip | src/m7/led_task.cc:24-30 | a green-red-blue receiver latches the colour that was sent |
| LedWire.SendToAll | src/m7/led_task.cc:45-47 | the same 24-bit colour three times, 72 bits |
| LedWire.FrameRoundTrip | src/m7/led_task.cc:45-47 | after such a frame all three LEDs show the colour |
| LedTask.ColorMeaning | src/m7/led_task.cc:60-88 | red exactly for Stopped, yellow exactly for Warning, white exactly for Uninitialized, blue for every other state |
| LedTask.Start | src/m7/led_task.cc:39-47 | start-up sends a reset and then white to all three LEDs; the current state is Uninitialized |
| LedTask.Step | src/m7/led_task.cc:49-93 | nothing is sent when nothing is received or the state is already shown; otherwise the new state's colour frame is sent, reaching all three LEDs, and only then is it the current state |
| LedTask.ShownColors | src/m7/led_task.cc:59-91 | when the last frame sent is the current state's, each of the three LEDs latches that state's colour |
| LedTask.AlwaysShowsCurrent | src/m7/led_task.cc:49-93 | once the last frame sent is the current state's colour, that stays true after any further queue reads |
| LedTask.StartShowsCurrent | src/m7/led_task.cc:39-93 | from start-up, the last frame sent is always the colour of the task's current state |
| RgbTask.UnpackPack | src/m7/rgb_task.cc:43-47 | unpacking the word (r << 16) OR (g << 8) OR b gives (r, g, b) |
| RgbTask.PackUnpack | src/m7/rgb_task.cc:43-47 | bits above 23 are ignored: repacking gives the word with them cleared, and words that agree on bits 0-23 unpack alike |
| RgbTask.Cycle | src/m7/rgb_task.cc:40-53 | nothing is sent when the configuration read fails; otherwise the trace is exactly the unpacked colour sent to each of the three LEDs (`SendToAll`), which they all latch, followed by one reset |
| IpcRingBuffer.NewBuffer | include/ipc_ring_buffer.hh:72-73 | a new buffer is empty |
| IpcRingBuffer.Size | include/ipc_ring_buffer.hh:69-73 | a buffer never holds more than kSlots-1 = 3 messages |
| IpcRingBuffer.Contents | include/ipc_ring_buffer.hh:41-59 | the held messages, tail to head, number exactly the size |
| IpcRingBuffer.Push | include/ipc_ring_buffer.hh:30-46 | succeeds exactly when the message fits the buffer size and fewer than 3 are held, then appends it; a failed push changes nothing; head and tail stay below kSlots |
| IpcRingBuffer.PushContents | include/ipc_ring_buffer.hh:40-44 | writing the head slot and advancing head appends the message after the held ones |
| IpcRingBuffer.Pop | include/ipc_ring_buffer.hh:48-61 | fails exactly when empty, changing nothing; otherwise returns the oldest message (payload and size) and removes it |
| IpcRingBuffer.Clear | include/ipc_ring_buffer.hh:63-66 | the buffer is empty afterwards |
| IpcRingBuffer.BufferIsFifo | include/ipc_ring_buffer.hh:30-61 | any sequence of pushes, pops and clears reports exactly what a 3-entry FIFO queue would: pops return the payloads of successful pushes in push order |
| IpcRingBuffer.NewManager | include/ipc_ring_buffer.hh:116-119 | both buffers start empty, sized 4096 and 512, sequence 0 |
| IpcRingBuffer.SendMessage | include/ipc_ring_buffer.hh:82-98 | the sequence number advances (mod 2^32) on every send, failed ones included; camera and ToF messages go to their own buffer only; any other type fails and touches no buffer |
| IpcRingBuffer.ReceiveMessage | include/ipc_ring_buffer.hh:100-109 | camera and ToF reads pop their own buffer only; any other type fails and changes nothing |
| IpcRingBuffer.ClearManager | include/ipc_ring_buffer.hh:111-114 | both buffers are empty afterwards; the sequence number is kept |

Five functions that model source code have no row of their own. Their contracts would only repeat their bodies, so the rows of the lemmas about them state what they mean:
- `StateController.HostDriven` (src/m7/state_controller_task.cc:22-44): covered by `ControllerProperties.ConnectedHostDecides`.
- `StateController.ConnectedCycle` (src/m7/state_controller_task.cc:9-144): covered by `ControllerProperties.ConnectedHostDecides`, `ControllerProperties.ConnectedIgnoresSensors` and `StateController.Step`.
- `StateController.DisconnectedCycle` (src/m7/state_controller_task.cc:146-311): covered by the disconnected-path lemmas `ControllerProperties.FreshFrameFreshTof` through `ControllerProperties.IndependentKeepsHostState`, and by `StateController.Step`.
- `LedTask.ColorOf` (src/m7/led_task.cc:60-88): covered by `LedTask.ColorMeaning`.
- `RgbTask.Unpack` and `RgbTask.Pack` (src/m7/rgb_task.cc:43-47): covered by `RgbTask.UnpackPack` and `RgbTask.PackUnpack`.

## Code and design description

Where the written design description and the code disagree, the model follows the code:

- The design describes a fault latch, a heartbeat timeout and separate host-stopped and host-active states. The controller code implements none of them. `SystemFault`, `set_host_state` and `kValidConnectionLimitTicks` are declared but never used. Nothing in the controller ever moves it back to disconnected once connected (`StaysConnected`), because the heartbeat handler only ever writes Connected.
- The design treats outlier removal as a normalising filter. The code makes one pass, and a second pass can remove more (`SurvivorsNotIdempotent`).
- `include/system_enums.hh` lists neither `IDLE` nor `ACTIVE`, but the controller uses both. `SystemEnums.SystemState` includes them. The controller starts with `HostConnectionStatus::DISCONNECTED`, while the enum's name for it is `UNCONNECTED`. It is modelled as `NotConnected`.
- `src/m7/depth_estimation_task.cc` does not compile as written. Lines 14-20 hold a stray loop, and line 43 passes five arguments to the four-parameter helper at line 5. The model follows the evident intent: a cell counts when some pixel of it lies in the box, given as the `cellOverlap` parameter.
- The controller calls a four-argument `depth_estimation(detections, count, distance_mm, depths)`. That function is not part of this model's files. `StateController.EstimateInto` stands in for it: slot i gets `compute_depth` of detection i.
- With the static depths zeroed and the last-ToF tick at 0, a detection in the first second with no ToF frame reads depth 0. That is within any non-negative danger distance, so the state is Stopped. A detection with no usable reading gets -1, which also counts as within the danger distance (`NoReadingStops`).

## Left out

- FreeRTOS itself: task creation, delays, blocking timeouts, `printf`, and queue failure paths. Queue contents are step inputs. A failed `xQueueOverwrite` of the log has no effect on the model.
- Concurrency and memory ordering in `include/ipc_ring_buffer.hh` (atomics, acquire/release). Only the sequential semantics are modelled. That header also has an `<atomicV` include typo.
- The `MessageHeader` built by `sendMessage`, including its `xTaskGetTickCount` timestamp. It is never stored or sent, so it has no observable effect apart from the sequence-number increment, which is modelled.
- The conversion of normalised float boxes to `uint16_t` pixels (src/m7/depth_estimation.cc:11-14). The model starts from the truncated pixel box.
- Float rounding. The mean of the survivors is an exact rational, and `depth_mm` is compared as a real.
- The cell-region table, `rectangles_overlap`, `kTofRgbMap`, `pixel_to_coords` and the host-state bucket sets. They are parameters, because their definitions are not part of this model.
- src/m7/tof_task.cc (sensor bring-up and polling), src/m7/inference_task.cc (TFLite/EdgeTPU inference), src/m7/rpc_task.cc (JSON-RPC over HTTP), and the boot, IPC transport and task-configuration files. Their effect on the controller enters only as queue contents.
- `include/runtime_config.hh` does not compile (`unsigned float`). The danger distance is a `Config` parameter, and `RgbTask` takes the colour word from an optional `RuntimeConfig`.
- The `uint8_t` detection loops and counters. The model requires each frame to fit the depths array and the grid to have fewer than 256 cells. The histogram's `uint32_t` sum cannot overflow for 64 cells of 16-bit distances, so it is unbounded in the model.
- The GPIO timing of a bit (pulse widths, `ResetDelay` duration) and the interrupt masking around `SendColor`. A bit is a `Signal` value and a reset is `Reset`.
