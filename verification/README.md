# Fire-detection event buffer, modelled in Dafny

This project models `EventBuffer` from `utils/buffer.py`. The buffer stores
geolocated fire detections in a dense tensor of shape
`(max_capacity, 12, row_size, row_size)`, indexed frame × channel × row ×
column. Channel 0 of a cell holds the timestamp of the last detection written
to it. Channel 1 holds the fire flag. The other ten channels are reserved and
stay zero.

An insertion (`add_event`) does three things:

1. It buckets the timestamp into a frame (`get_frame_index`).
2. It drops the detection when the frame is not one of the `max_capacity`
   retained frames.
3. It places the detection on a cell (`coord_to_grid`). It then either
   overwrites that cell's flag and timestamp, or drops the detection when the
   cell lies off the square grid.

The grid never moves. The code has no step that re-centres the grid on a
detection falling outside it, or that remaps the stored frames. Such a
detection fails the bounds test on `utils/buffer.py:84` and nothing is
written. The model follows the
code; `BufferLaws.DefaultGridScenario` shows a detection 22 cells north of
the origin being dropped.

Modules, one file each:

- `errors.dfy` (`Errors`): the exceptions the code can raise, and `Result`.
- `tensors.dfy` (`Tensors`): the 4-D tensor as nested sequences, with
  `np.zeros`, element read and element assignment.
- `frames.dfy` (`Frames`): Python floor division and `get_frame_index`.
- `grid.dfy` (`Grid`): the integer part of `coord_to_grid` and the bounds test.
- `event_buffer.dfy` (`EventBuffer`): the buffer record, its constructor,
  `add_event`, and the buffer invariant `Consistent`.
- `buffer_laws.dfy` (`BufferLaws`): drop, overwrite, idempotence and
  commutation laws for single insertions.
- `buffer_history.dfy` (`BufferHistory`): a run of insertions in order, as
  the live driver in `scripts/test.py` performs them.

Modelling choices:

- A timestamp is a whole number of microseconds, the resolution of Python's
  `datetime`. The frame index is the elapsed time floor-divided by
  `step_minutes · 60 · 10^6`. The floor goes toward minus infinity, as
  Python's `//` does. So timestamps before the start get negative frames.
- A zero `step_minutes` makes the floor division raise. The model returns
  `Failure(ZeroDivision)`.
- Channel 0 stores the detection's timestamp as the same integer, in
  microseconds. The source stores UNIX seconds as float32 there.
- The floating-point geodesy of `coord_to_grid` is not modelled. That is the
  degree-to-kilometre conversion, the cosine, the division by the cell size
  and `round`. An event reaches `AddEvent` as the outcome of that step: its
  whole-cell row and column offsets, or the exception the step raises. It
  raises on a NaN offset, an infinite offset or a zero cell size. The frame
  check runs before the projection, so a detection in a frame that is not
  retained is dropped even when its coordinates would make the projection
  raise.
- `np.zeros` refuses negative dimensions. `Init` returns
  `Failure(NegativeDimension)` when `row_size` or `max_capacity` is negative.

## Model

| member | source | states |
|---|---|---|
| `Frames.FloorDiv` | utils/buffer.py:67 | Python `//`: for a positive divisor b the quotient q satisfies b·q ≤ a < b·q + b; for a negative one, b·q + b < a ≤ b·q |
| `Frames.FloorDivUnique` | utils/buffer.py:67 | the floor quotient is the only integer bracketing the dividend that way |
| `Frames.FrameIndex` | utils/buffer.py:64-67 | fails with a division by zero exactly when the step is 0; otherwise the timestamp lies in the returned frame's interval [start + f·step, start + (f+1)·step) (mirrored for a negative step) |
| `Frames.FrameIndexIff` | utils/buffer.py:64-67 | a timestamp gets frame f if and only if it lies in frame f's interval |
| `Frames.FrameIndexAtStart` | utils/buffer.py:64-67 | the start time is in frame 0 |
| `Frames.FrameIndexOneStepLater` | utils/buffer.py:64-67 | for any nonzero step, the instant one step after the start is in frame 1 |
| `Frames.FrameIndexBeforeStart` | utils/buffer.py:64-67 | with a positive step, any timestamp before the start gets a negative frame (floor, not truncation) |
| `Frames.FrameIndexMonotone` | utils/buffer.py:64-67 | with a positive step, a later timestamp never gets an earlier frame |
| `Grid.CoordToGrid` | utils/buffer.py:55-62 | the cell's offsets from the centre are the input offsets (north lowers the row, east raises the column); zero offsets give (row_size // 2, row_size // 2) |
| `Grid.CoordToGridBijective` | utils/buffer.py:56-62 | offsets and cells correspond one to one, so any integer cell, in or out of the grid, is reachable |
| `Grid.CoordToGridMonotone` | utils/buffer.py:56-60 | the row is non-increasing in the north offset, the column non-decreasing in the east offset, and each depends only on its own offset |
| `Grid.InGridIff` | utils/buffer.py:84 | the bounds test passes exactly when the north offset lies in (center − row_size, center] and the east offset in [−center, row_size − center) |
| `Tensors.Zeros` | utils/buffer.py:30 | the new tensor has shape (frames, channels, side, side) and every element is 0 |
| `Tensors.Set` | utils/buffer.py:86 | an element assignment keeps the shape, sets the addressed element and leaves every other element as it was |
| `Tensors.SetSet` | utils/buffer.py:86-90 | assigning one element twice equals assigning the second value once |
| `Tensors.SetCommutes` | utils/buffer.py:86-90 | assignments to two different elements commute |
| `EventBuffer.Init` | utils/buffer.py:24-30 | fails exactly when row_size or max_capacity is negative; otherwise keeps the configuration, makes every element 0 and establishes the buffer invariant |
| `EventBuffer.InitDefault` | utils/buffer.py:7-14 | the defaults give a 10 × 10 grid, 1-minute steps and 240 frames, and always construct |
| `EventBuffer.AddEvent` | utils/buffer.py:77-90 | a zero step raises; a frame outside [0, max_capacity) leaves the buffer unchanged; a retained frame with a failed projection raises that error; an off-grid cell leaves the buffer unchanged; otherwise exactly two elements change: flag 1 and the timestamp in the event's frame and cell |
| `BufferLaws.AddEventPreservesConsistent` | utils/buffer.py:77-90 | insertion keeps the invariant: shape fixed, reserved channels zero, flags 0 or 1, no timestamp without a flag, and every flagged cell's timestamp lies in that cell's frame |
| `BufferLaws.DropAfterCapacity` | utils/buffer.py:77-80 | with a positive step, a detection at or after the end of the last retained frame leaves the buffer unchanged |
| `BufferLaws.DropBeforeStart` | utils/buffer.py:77-80 | with a positive step, a detection before the start time leaves the buffer unchanged |
| `BufferLaws.AddEventOverwrites` | utils/buffer.py:84-90 | two detections in the same frame and cell give the same buffer as the second one alone |
| `BufferLaws.AddEventIdempotent` | utils/buffer.py:84-90 | inserting the same detection twice equals inserting it once |
| `BufferLaws.AddEventCommutes` | utils/buffer.py:77-90 | two non-raising detections that do not write the same frame and cell can be inserted in either order, including one whose projection would fail but whose frame is dropped first |
| `BufferLaws.OriginEventAtCentre` | utils/buffer.py:77-90 | a detection at the origin at the start time writes frame 0 at the centre cell |
| `BufferLaws.DefaultGridScenario` | utils/buffer.py:77-90 | with the defaults, a detection at the origin at the start time marks cell (5, 5) of frame 0; one 22 cells north 30 s later is dropped, not re-centred |
| `BufferHistory.AddEvents` | scripts/test.py:37-43 | a run fails exactly when some detection raises, with the error of the first detection that does; a successful run keeps the configuration and shape |
| `BufferHistory.AddEventsLastWriteWins` | scripts/test.py:37-43 | after a run, each cell holds flag 1 and the timestamp of the last detection that wrote it; a cell nobody wrote keeps its old flag and timestamp; reserved channels never change |
| `BufferHistory.AddEventsPreservesConsistent` | scripts/test.py:37-43 | a run of insertions keeps the buffer invariant |

## Left out

- Floating-point geodesy in `coord_to_grid` (`utils/buffer.py:45-53`) is not modelled. That covers the 111.320 km-per-degree scale, `cos` of the origin latitude, division by `cell_size_km` and `round`. It enters the model only as its outcome: integer offsets or the exception it raises. So the monotonicity in latitude and longitude holds only as monotonicity in the offsets.
- Frames.FrameIndex: the source floor-divides the float `total_seconds()` by the step. The model floor-divides exact integer microseconds. Float rounding of the quotient right at a frame boundary is not modelled.
- Channel 0 holds `timestamp.timestamp()` in float32 (`utils/buffer.py:30`, `89-90`). The model stores the exact integer timestamp. Float32 keeps only 24 significant bits, so a present-day UNIX time is rounded to a multiple of 128 seconds. This is not modelled. Neither is the local-time interpretation of naive datetimes.
- `lat0`, `lon0` and `cell_size_km` are kept in the record but feed only the float projection above.
- A `TypeError` from subtracting a timezone-aware from a naive datetime is not modelled. A `MemoryError` from allocating a huge tensor is not modelled either.
- Re-centring the grid and remapping stored frames is absent from the code and so from the model.
- Visualisation, live display and GIF saving (`utils/helper.py:35-113`) are display code and are left out. JSON loading (`utils/helper.py:14-32`) is file I/O and is left out.
- The command-line wiring is left out, and so are the clock, `time.sleep` and the display calls (`scripts/test.py`, `scripts/main.py`). Only the order of `add_event` calls in the driver loop is modelled. The driver skips malformed points itself, so `AddEvents` receives only well-formed events. The driver reads `buffer.tensor[frame_idx, 1]` with numpy indexing, including wrap-around of negative indices. That read is not modelled. `scripts/main.py` imports a `simulate_fire_detections` that `utils/helper.py` does not define.
- BufferLaws.AddEventPreservesConsistent: the conjunct of `EventBuffer.Consistent` saying a flagged cell's timestamp lies in that cell's frame holds only because the model stores the exact timestamp. The source stores float32 UNIX seconds, converted through local time for naive datetimes. With 60-second frames that value is rounded to a multiple of 128 s, so it can lie outside the cell's frame. Channel 0 holds microseconds in the model and seconds in the source.
- EventBuffer.AddEvent: `timestamp.timestamp()` on `utils/buffer.py:89` may raise OverflowError or OSError for a naive datetime far in the past or future. It runs after line 86 has set the flag, so the source raises and leaves the cell half-written: flag 1 with the old timestamp. The model always writes both elements in the in-grid case and does not model this exception.
