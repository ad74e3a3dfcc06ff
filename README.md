# InfiRay thermal camera: frame hand-off and hotspot temperature, in Dafny

This project models the core of the InfiRay network thermal camera viewer. The
camera SDK calls two callbacks from its own thread:

- the video callback delivers I420 frames;
- the temperature callback delivers raw 16-bit temperature samples.

A render loop takes the newest frame, finds the hottest 30x30 window and shows
its temperature in degrees Celsius.

## Modules

- `common.dfy` (`Common`): the shared building blocks.
  - `uint8_t`/`uint16_t` values, C's truncating `/`, and the I420 size `width*height*3/2`.
  - `DimsFit`: no signed overflow in the size expression.
  - `std::vector::resize` and `memcpy`.
  - One SDK video delivery (pointer, reported length, resolution).
- `indexed_exchange.dfy` (`IndexedExchange`): the double buffer of `main_v8.cpp` and `main_v4.cpp`.
  - There are two slot vectors, a write index and a read index.
  - The callback copies into the writable slot and swaps the indices.
  - The render loop takes the read index and shows the first `width*height` bytes (the Y plane).
  - The two files carry the same hand-off code, so it is modelled once, and the table cites both files.
  - The shared state is a value type `ExchangeState`. The operations are specification functions (`Publish`, `TakeFrame`, `Luma`, `RenderStep`), and the class `Exchange` holds the same globals.
  - Each method of `Exchange` is proved to move its state exactly as the matching function does.
- `pointer_exchange.dfy` (`PointerExchange`): the variant of `main_v3_fast.cpp`.
  - The callback always copies into the buffer behind `g_writeBuffer`.
  - The render loop swaps the two pointers when a frame is flagged.
  - The buffers are objects (`ByteVector`) and the pointers are fields that refer to them.
- `hotspot.dfy` (`Hotspot`): the hotspot window.
  - The clamp places the window `maxLoc - 15`, pushed back inside the frame.
  - The row-major sums of the samples under the window, and their mean.
- `calibration.dfy` (`Calibration`): the piecewise Celsius formula over real numbers.
- `temperature.dfy` (`Temperature`): the temperature path of `main_v8.cpp`.
  - `tempCallBack` decodes the bit-interleaved buffer into the sample vector, a class `TempBuffer` with an array.
  - The render loop's guarded double loop over the window, then the formula.

The blocking waits are modelled by their predicates:
- `IndexedExchange.Exchange.Take` requires what `g_cv.wait` waits for, which is the flag or a cleared running flag.
- `PointerExchange.Exchange.Take` takes the value `wait_for` returns. In a sequential model no callback runs during the wait, so that value is the flag itself.

### Where the code differs from the intended behaviour

Each row below names something the program is meant to do and what the code does instead:
- an odd-length temperature buffer is meant to be rejected;
- the clamp is meant to keep the window inside the frame;
- the reported window is meant to be the best window's top-left corner.

The model follows the code in each case.

| topic | intended | code |
|---|---|---|
| odd-length temperature buffer | rejected | truncated: an odd last byte is ignored; when `BufferLen/2` is odd, the last sample keeps whatever the resize left there (`Temperature.TempGridSamples`) |
| clamp | always keeps the window inside the frame | does so only for frames of at least 30x30 (see Findings) |
| window position | the top-left corner of the best window | the box filter's maximum (the window centre) minus 15 |

## Model

| member | source | states |
|---|---|---|
| Common.TruncDiv | main_v8.cpp:64 | the quotient rounds toward zero: the remainder has the dividend's sign and is smaller than the divisor |
| Common.ExpectedLen | main_v8.cpp:64 | `width*height*3/2` is non-negative exactly when `width*height` is, lies between `width*height` and 1.5 times it, and fits an int |
| Common.Resize | main_v8.cpp:73 | the resized vector has the requested size, keeps the old prefix and zero-fills new elements |
| Common.CopyInto | main_v8.cpp:75 | memcpy overwrites exactly the first `|src|` elements and leaves the rest |
| Common.ResizeThenCopy | main_v8.cpp:72-75 | resizing only when the size differs and then copying leaves exactly the delivered bytes, whatever the slot held |
| IndexedExchange.Accepts | main_v8.cpp:64-65 | an accepted delivery carries a buffer, and for a non-negative resolution that buffer holds at least the `width*height` luma plane the render loop reads |
| IndexedExchange.Initial | main_v8.cpp:50-56 | the statics start with empty slots, write index 0, read index 1, flag clear, running set, and satisfy the invariant |
| IndexedExchange.Publish | main_v8.cpp:63-80 | a delivery with the wrong length or a null pointer changes nothing; an accepted one swaps the indices, makes the new readable slot equal to the delivered bytes of size BufferLen, leaves the now-writable slot as the old readable one, records the resolution, sets the flag and keeps the invariant (indices distinct in {0,1}) |
| IndexedExchange.TakeFrame | main_v8.cpp:147-156 | with running cleared the loop stops and nothing changes; otherwise the take returns the read index and resolution, clears only the flag, and the taken slot holds a frame of that resolution |
| IndexedExchange.Luma | main_v4.cpp:158-164 | a take is shown exactly when its index is non-negative, both dimensions are positive and the slot holds at least W*H bytes, and what is shown is the slot's first W*H bytes |
| IndexedExchange.RenderStep | main_v8.cpp:147-162 | one render pass shows a frame exactly when running and both recorded dimensions are positive (the index and size guards can never fire), and shows the read slot's Y plane |
| IndexedExchange.PublishAll | main_v4.cpp:60-82 | any burst of callbacks keeps the invariant and the running flag |
| IndexedExchange.RejectedDeliveriesChangeNothing | main_v4.cpp:61-62 | a burst of rejected deliveries leaves every global as it was |
| IndexedExchange.LatestAcceptedIsReadable | main_v4.cpp:70-79 | after a burst the readable slot holds the last accepted delivery's bytes with its resolution, and the flag is set |
| IndexedExchange.NewestFrameShown | main_v4.cpp:144-164 | the render pass after a burst shows the Y plane of the last accepted delivery |
| IndexedExchange.TakenSlotSurvivesOnePublish | main_v8.cpp:154-159 | the slot the render loop took is not written by the next accepted callback |
| IndexedExchange.SecondPublishOverwritesTakenSlot | main_v8.cpp:159-162 | a second accepted callback writes exactly the slot the render loop took, which it still reads after unlocking |
| IndexedExchange.Exchange.constructor | main_v4.cpp:49-57 | the globals start in the initial state |
| IndexedExchange.Exchange.VideoCallBack | main_v8.cpp:63-80 | the callback's resize, memcpy, swap and flag store move the globals exactly as `Publish` |
| IndexedExchange.Exchange.Take | main_v4.cpp:147-156 | the critical section moves the globals and returns the take exactly as `TakeFrame` |
| IndexedExchange.Exchange.FrameView | main_v8.cpp:158-162 | the post-lock guards and the Y-plane view compute `Luma` of the current state |
| IndexedExchange.Exchange.Stop | main_v8.cpp:239-241 | the ESC key clears `g_running` and nothing else |
| PointerExchange.ByteVector.constructor | main_v3_fast.cpp:48-49 | a buffer starts empty |
| PointerExchange.Accepts | main_v3_fast.cpp:60 | the length test alone: an accepted delivery that carries a buffer of a non-negative resolution holds the `width*height` luma plane, and its length is negative exactly when `width*height` is |
| PointerExchange.Initial | main_v3_fast.cpp:48-56 | both buffers start empty with the flag clear |
| PointerExchange.Publish | main_v3_fast.cpp:59-76 | a delivery of the wrong length changes nothing; an accepted one makes the write buffer equal to the delivered bytes of size BufferLen, leaves the read buffer untouched, records the resolution and sets the flag |
| PointerExchange.TakeFrame | main_v3_fast.cpp:130-141 | with the flag set the take swaps the two buffers' roles, hands out the buffer that was being written with the recorded resolution and clears the flag; on timeout it hands out nothing and changes nothing |
| PointerExchange.RenderStep | main_v3_fast.cpp:126-148 | a render pass draws exactly when a frame was flagged and both dimensions are positive, and the gray frame is the first W*H bytes of the buffer written last, inside its bounds |
| PointerExchange.PublishAll | main_v3_fast.cpp:59-76 | a burst of callbacks keeps the invariant and never touches the read buffer |
| PointerExchange.RejectedDeliveriesChangeNothing | main_v3_fast.cpp:60 | a burst of wrong-length deliveries leaves every global as it was |
| PointerExchange.LatestAcceptedInWriteBuffer | main_v3_fast.cpp:64-72 | after a burst only the last accepted delivery is left in the write buffer, with its resolution and the flag set |
| PointerExchange.NewestFrameTaken | main_v3_fast.cpp:133-139 | the take after a burst hands out exactly the last accepted delivery and its resolution |
| PointerExchange.TakenFrameUntouchedByPublishes | main_v3_fast.cpp:135-136 | no number of callbacks after a take changes the buffer that take handed out |
| PointerExchange.Exchange.constructor | main_v3_fast.cpp:48-56 | the write pointer refers to buffer A and the read pointer to buffer B, both empty |
| PointerExchange.Exchange.VideoCallBack | main_v3_fast.cpp:59-76 | the callback writes only through the write pointer, leaves both pointers in place, and moves the state exactly as `Publish` |
| PointerExchange.Exchange.Take | main_v3_fast.cpp:130-141 | with a flagged frame the pointers are swapped and the buffer returned is the one that was written; otherwise null is returned and no pointer moves; the pointers always refer to A and B in some order; the state moves exactly as `TakeFrame` |
| PointerExchange.Exchange.GrayFrame | main_v3_fast.cpp:144-148 | the render guard passes exactly when a buffer was returned and both dimensions are positive, and the gray frame is its first W*H bytes |
| PointerExchange.Exchange.NextGrayFrame | main_v3_fast.cpp:126-148 | one loop pass computes `RenderStep`, so the unchecked W*H read stays in bounds |
| Hotspot.ClampAxis | main_v8.cpp:171-174 | the window never reaches past the far edge; on a side of at least 30 it starts at or after 0; it is centred on the maximum when that is 15 from both edges, and pinned to 0 or size-30 otherwise; it starts before 0 only as size-30 |
| Hotspot.HotspotOrigin | main_v8.cpp:171-174 | on a frame of at least 30x30 the window lies inside the frame whatever the maximum's location; it is `maxLoc - 15` when the maximum is 15 from every edge |
| Hotspot.RowInFrame | main_v8.cpp:187 | each row `ty*W .. ty*W+W` of a W x H grid lies inside its W*H samples |
| Hotspot.RowSum | main_v8.cpp:185-189 | a row of `len` samples sums to between 0 and `len*65535` |
| Hotspot.WindowInGridIndices | main_v8.cpp:184-187 | the window is in the grid exactly when every index `ty*W + tx` the loop reads lies in `[0, size)`; a window left of column 0 that wraps into the row above can qualify |
| Hotspot.ClampedWindowInGrid | main_v8.cpp:171-187 | on a W x H frame of at least 30x30, the clamped window is in the W*H grid |
| Hotspot.WindowRowsFit | main_v8.cpp:184-187 | the 30 rows of a window in the grid each lie inside it, one grid row apart |
| Hotspot.RegionSum | main_v8.cpp:184-190 | `rows` window rows, one grid row apart, sum to between 0 and `rows*30*65535` |
| Hotspot.RegionSumFirst | main_v8.cpp:184-190 | the first of the rows lies inside the grid, and the region sum is its 30-sample sum plus the sum of the rows below it |
| Hotspot.Mean | main_v8.cpp:191 | the mean times the count gives back the sum, and it lies in the sample range 0..65535 |
| Hotspot.WindowMean | main_v8.cpp:181-191 | the mean of the 900 samples under the window lies in 0..65535 |
| Hotspot.UniformRowSum | main_v8.cpp:185-189 | on a grid of equal samples a row of `len` sums to `len` times the sample |
| Hotspot.UniformRows | main_v8.cpp:185-189 | on a grid of equal samples every row of 30 sums to 30 times the sample |
| Hotspot.UniformRegionSum | main_v8.cpp:184-190 | on such a grid `rows` rows sum to `rows*30` times the sample |
| Hotspot.UniformWindowMean | main_v8.cpp:181-191 | on a grid of equal samples the window's mean is that sample |
| Calibration.Celsius | main_v8.cpp:194-208 | above 7300 the result C satisfies `(C + 273.15)*15 + 3300 = raw`, at or below it `(C + 273.15)*30 - 7000 = raw`: each branch inverts its affine calibration line |
| Calibration.BranchesAtBreakpoint | main_v8.cpp:197-208 | 7300 takes the low branch and 7301 the high one, and the formula drops by more than 200 degrees between them |
| Calibration.IncreasingWithinBranch | main_v8.cpp:197-208 | on each side of the breakpoint the conversion is increasing |
| Calibration.HighBranchBySum | main_v8.cpp:191-197 | the mean of 900 samples takes the high branch exactly when their sum exceeds 6570000 |
| Calibration.OrderIrrelevantWithinBranch | main_v8.cpp:191-208 | for samples on one side of the breakpoint, averaging then converting equals converting then averaging |
| Calibration.OrderMattersAcrossBreakpoint | main_v8.cpp:191-208 | for samples straddling the breakpoint the two orders agree only when the mean takes the low branch and the high sample is 13600 |
| Temperature.DecodeSample | main_v8.cpp:96-97 | `(hi << 8) + lo` fits uint16_t and gives back both bytes |
| Temperature.DecodedPairs | main_v8.cpp:95-98 | after `m` iterations the loop has written exactly `2m` samples |
| Temperature.DecodedPairsAt | main_v8.cpp:95-98 | iteration `ii` writes `raw[2ii]*256 + raw[n+2ii+1]` and `raw[2ii+1]*256 + raw[n+2ii]` |
| Temperature.TempGrid | main_v8.cpp:86-98 | the grid after an accepted delivery has `BufferLen/2` samples |
| Temperature.TempGridSamples | main_v8.cpp:86-98 | every decoded pair follows the interleaving equations, and when `BufferLen/2` is odd the last sample keeps the old value or the resize's zero |
| Temperature.DecodeReadsInsideBuffer | main_v8.cpp:86-97 | every byte the decode loop reads lies in `[0, BufferLen)`, and an odd last byte is never read |
| Temperature.DecodeExample | main_v8.cpp:95-98 | the bytes 12 34 56 78 (hex) decode to 1278 and 3456 |
| Temperature.AsWrittenGuardAdmitsOutOfBounds | main_v8.cpp:171-187 | the guard as written accepts every frame lower than 30, and every frame narrower than 30 whose maximum lies in the top 16 rows; the summing loop's first index is then negative, and the corrected guard rejects the frame |
| Temperature.OutOfBoundsExample | main_v8.cpp:171-187 | a 20x20 frame with 400 samples and the maximum at (0,0) passes the written guard, the window is placed at (-10,-10) and the first index is -210 |
| Temperature.NarrowFrameExample | main_v8.cpp:171-187 | a 20x40 frame with 800 samples and the maximum at (5,39) puts the window at (-10,10); its rows wrap into the row above but stay inside the grid, so the reading is valid, as in the source |
| Temperature.CorrectedGuardAgreesWhereDefined | main_v8.cpp:180-187 | the corrected guard holds exactly when the written guard holds and every index `ty*W+tx` of the loop lies inside the grid |
| Temperature.LargeFramesKeepWrittenGuard | main_v8.cpp:171-180 | on frames of at least 30x30 the corrected guard for the clamped window is exactly the written guard |
| Temperature.CorrectedGuardKeepsIndicesInFrame | main_v8.cpp:180-187 | with the corrected guard, every index `ty*W+tx` of the loop lies inside the grid |
| Temperature.DecodeInto | main_v8.cpp:95-98 | the decode loop leaves exactly the `n/2` decoded pairs followed by the vector's old odd last sample, if any |
| Temperature.TempBuffer.constructor | main_v8.cpp:60 | the sample vector starts empty |
| Temperature.TempBuffer.TempCallBack | main_v8.cpp:83-99 | a null or non-positive-length delivery leaves the vector as it was; otherwise the loop leaves exactly `TempGrid` of the old vector and the delivered bytes |
| Temperature.TempBuffer.RowTotal | main_v8.cpp:185-189 | the inner loop over `tx` adds up exactly the 30 samples from `ty*W + rectX` on |
| Temperature.TempBuffer.WindowSum | main_v8.cpp:181-190 | the nested loops add up exactly the window's 900 samples and count 900 |
| Temperature.TempBuffer.HotspotReading | main_v8.cpp:171-210 | the window is the clamp's; the reading is valid exactly when the written guard holds and every index the loop reads lies in the vector; a valid reading's Celsius value is the formula applied to the window's mean; otherwise Celsius is 0 |

## Left out

- SDK and network glue is not modelled: `sdk_set_type`, `sdk_initialize`, `sdk_create`, `sdk_loginDevice`, `sdk_start_url`, the callback registration, and the fixed IP and credentials. They are device I/O behind headers that are not part of this model. Deliveries are parameters instead.
- OpenCV resizing, colour maps, drawing, `imshow`, `waitKey` and the keyboard mode switch are not modelled. They are foreign library calls and UI. The model stops at the Y plane or gray frame handed to them. In the `main_v8.cpp`/`main_v4.cpp` model the ESC key is `IndexedExchange.Exchange.Stop`.
- `cv::boxFilter` and `cv::minMaxLoc` (main_v8.cpp:164-169) are not modelled. They are OpenCV internals with 8-bit rounding and border rules. The maximum's location is an arbitrary input to the clamp.
- Threads, the mutexes, `condition_variable` waits, the 30 ms `wait_for` timeout, atomics and memory ordering are not modelled. Publish and take are atomic sequential steps, and each wait is replaced by the predicate it waits for.
- IndexedExchange.SecondPublishOverwritesTakenSlot: the v8/v4 render loop reads the slot after releasing the lock, so a callback can copy into that slot while it is being read. The lemma shows which slot gets overwritten; a torn read itself is a concurrency property outside a sequential model.
- Calibration.Celsius is computed over exact reals. IEEE `double` rounding and the `%.1f` display formatting (main_v8.cpp:227) are not modelled.
- `main_v2_opencv_gray.cpp`, `main_v2_opencv_gray_and_color.cpp` and its copy, and `main_debug.cpp` are not part of this model. They are thin OpenCV conversion wrappers and a wall-clock interval logger.
- The commented-out vertical flip (main_v8.cpp:186) is not modelled because it is not active code.
- IndexedExchange.Publish requires `DimsFit` (also PointerExchange.Publish and both `VideoCallBack` methods). `width*height*3` is evaluated in `int`, and signed overflow there is undefined behaviour, so resolutions that overflow are excluded rather than given a wrapped value.
- Temperature.TempBuffer.TempCallBack computes `BufferLen / 2` in unbounded integers. The narrowing to `int` of a length of 4 GiB or more is not modelled.
- PointerExchange.Publish requires a non-null pointer whenever the length matches (`Deliverable`, also PointerExchange.Exchange.VideoCallBack). `main_v3_fast.cpp` has no null check and would `memcpy` from null, which is undefined behaviour.
- Temperature.TempBuffer.HotspotReading uses the corrected guard `CanAverage`: the written guard, plus every index the loop reads lying in the vector. Where the written guard lets the loop read outside the vector, the reading is undefined behaviour, and the model returns an invalid reading instead. On every other input the two agree (`CorrectedGuardAgreesWhereDefined`), including narrow frames whose window wraps into the row above (`NarrowFrameExample`); see Findings.
- IndexedExchange.Publish and PointerExchange.Publish (and both `VideoCallBack` methods) take deliveries that satisfy `Delivery.WellFormed`. That predicate excludes a non-null delivery whose resolution has `width*height < 0` and whose `BufferLen` equals the negative expected length. The source's guard passes such a delivery. `main_v8.cpp`/`main_v4.cpp` then store `g_width`/`g_height` and throw `std::length_error` from `resize`. `main_v3_fast.cpp` throws from its `resize` before storing anything. C++ exceptions are not modelled.
- PointerExchange has no counterpart of `g_isRunning` (main_v3_fast.cpp:56, 126, 167-168). Only the render loop reads and writes it, on one thread. The model's render pass is one iteration of a loop that is still running, and the ESC key that ends the loop is not modelled.
- The temperature grid and the render loop take separate locks in the source. The model reads the grid in one step.

## Findings

| source | as written | input that shows it | evidently intended | confidence | as-written member | corrected member |
|---|---|---|---|---|---|---|
| main_v8.cpp:171-187 | the grid is averaged whenever it is non-empty and holds W*H samples. On a frame lower than 30 the clamp sets `rectY = H - 30 < 0`. On a frame narrower than 30 it sets `rectX = W - 30 < 0`. The loop's first index `rectY*W + rectX` is then negative whenever H < 30, and whenever W < 30 with `rectY*W < 30 - W`, and `g_tempBuf[ty * localW + tx]` reads before the vector. A narrow frame whose window sits lower wraps into the row above and stays in bounds | W = H = 20 (video length 600, temperature buffer of 800 bytes, so 400 samples), maxLoc = (0,0): window at (-10,-10), first index -210 | average only when every index the loop reads lies in the grid | not executed | Temperature.AsWrittenGuardAdmitsOutOfBounds | Temperature.CorrectedGuardAgreesWhereDefined |
