/** The fire-event buffer: a fixed-shape tensor of frames × channels × rows ×
    columns, filled one detection at a time.

    Channel 0 of a cell holds the timestamp of the last detection written to
    it, channel 1 its fire flag; the other ten channels are reserved and stay
    zero. A detection outside the retained frames or outside the grid is
    silently dropped: the grid never moves. */
module EventBuffer {
  import opened Errors
  import opened Tensors
  import opened Frames
  import opened Grid

  /** Number of channels per cell. */
  const Channels: nat := 12
  /** Channel holding the timestamp of the last detection in a cell. */
  const TimestampChannel: nat := 0
  /** Channel holding the fire flag. */
  const FireChannel: nat := 1
  /** Value of the fire flag once a detection has been written. */
  const Fire: int := 1

  /** Constructor defaults. */
  const DefaultRowSize: int := 10
  const DefaultCellSizeKm: real := 0.2
  const DefaultStepMinutes: int := 1
  const DefaultMaxCapacity: int := 240

  /** The first detection: where the grid is centred and when frame 0 starts. */
  datatype IgnitionPoint = IgnitionPoint(lat: real, lon: real, time: int)

  /** One detection as it reaches `add_event`: the outcome of projecting its
      coordinates to whole-cell offsets, and its timestamp. */
  datatype Event = Event(proj: Result<Offsets>, time: int)

  datatype Buffer = Buffer(
    lat0: real,
    lon0: real,
    startTime: int,
    rowSize: nat,
    cellSizeKm: real,
    stepMinutes: int,
    maxCapacity: nat,
    tensor: Tensor)
  {
    /** The tensor has the shape the constructor gave it. */
    ghost predicate Shaped() {
      HasShape(tensor, maxCapacity, Channels, rowSize)
    }

    /** (f, c, row, col) addresses an element of the tensor. */
    predicate InShape(f: int, c: int, row: int, col: int) {
      0 <= f < maxCapacity && 0 <= c < Channels && 0 <= row < rowSize && 0 <= col < rowSize
    }

    function At(f: int, c: int, row: int, col: int): int
      requires Shaped() && InShape(f, c, row, col)
    {
      ValidInShape(tensor, maxCapacity, Channels, rowSize, f, c, row, col);
      Get(tensor, f, c, row, col)
    }

    /** The frame a timestamp falls into (`get_frame_index`). */
    function FrameOf(t: int): Result<int> {
      FrameIndex(startTime, stepMinutes, t)
    }

    /** Frame f is one of the retained frames. */
    predicate Retained(f: int) {
      0 <= f < maxCapacity
    }

    /** Same configuration; the tensors may differ. */
    predicate SameConfig(other: Buffer) {
      this == other.(tensor := tensor)
    }
  }

  /** The buffer's invariant: the shape is fixed, the reserved channels are
      zero, every fire flag is 0 or 1, a cell without fire holds no timestamp,
      and a cell with fire holds a timestamp that lies in that cell's frame. */
  ghost predicate Consistent(b: Buffer) {
    && b.Shaped()
    && (forall f, c, row, col :: b.InShape(f, c, row, col) && c > FireChannel ==> b.At(f, c, row, col) == 0)
    && (forall f, row, col :: b.InShape(f, FireChannel, row, col) ==>
          b.At(f, FireChannel, row, col) == 0 || b.At(f, FireChannel, row, col) == Fire)
    && (forall f, row, col :: b.InShape(f, FireChannel, row, col) && b.At(f, FireChannel, row, col) == 0 ==>
          b.At(f, TimestampChannel, row, col) == 0)
    && (forall f, row, col :: b.InShape(f, FireChannel, row, col) && b.At(f, FireChannel, row, col) == Fire ==>
          b.FrameOf(b.At(f, TimestampChannel, row, col)) == Success(f))
  }

  /** `EventBuffer.__init__`: an all-zero tensor of shape
      (max_capacity, 12, row_size, row_size); numpy refuses negative sizes. */
  function Init(p: IgnitionPoint, rowSize: int, cellSizeKm: real, stepMinutes: int, maxCapacity: int): (r: Result<Buffer>)
    ensures r.Failure? <==> rowSize < 0 || maxCapacity < 0
    ensures r.Failure? ==> r.error == NegativeDimension
    ensures r.Success? ==>
              && r.value.lat0 == p.lat && r.value.lon0 == p.lon && r.value.startTime == p.time
              && r.value.rowSize == rowSize && r.value.cellSizeKm == cellSizeKm
              && r.value.stepMinutes == stepMinutes && r.value.maxCapacity == maxCapacity
    ensures r.Success? ==> Consistent(r.value)
    ensures r.Success? ==> forall f, c, row, col :: r.value.InShape(f, c, row, col) ==> r.value.At(f, c, row, col) == 0
  {
    if rowSize < 0 || maxCapacity < 0 then Failure(NegativeDimension)
    else Success(Buffer(p.lat, p.lon, p.time, rowSize, cellSizeKm, stepMinutes, maxCapacity,
                        Zeros(maxCapacity, Channels, rowSize)))
  }

  /** The constructor with its default row size, cell size, step and capacity. */
  function InitDefault(p: IgnitionPoint): (r: Result<Buffer>)
    ensures r.Success?
    ensures r.value.rowSize == 10 && r.value.stepMinutes == 1 && r.value.maxCapacity == 240
    ensures Consistent(r.value)
  {
    Init(p, DefaultRowSize, DefaultCellSizeKm, DefaultStepMinutes, DefaultMaxCapacity)
  }

  /** b' is b with exactly two elements rewritten: the fire flag of cell
      (f, row, col) set to 1 and its timestamp set to t. */
  ghost predicate WritesCell(b: Buffer, b': Buffer, f: int, cell: Cell, t: int) {
    && b.SameConfig(b')
    && b.Shaped() && b'.Shaped()
    && (forall f', c, row, col :: b.InShape(f', c, row, col) ==>
          b'.At(f', c, row, col) ==
            if (f', row, col) == (f, cell.row, cell.col) && c == FireChannel then Fire
            else if (f', row, col) == (f, cell.row, cell.col) && c == TimestampChannel then t
            else b.At(f', c, row, col))
  }

  /** `add_event`: compute the frame; drop the event if the frame is not
      retained; otherwise compute the cell, drop the event if the cell lies
      off the grid, and otherwise overwrite the cell's flag and timestamp.
      `proj` is the outcome of the floating-point part of `coord_to_grid`,
      which runs only once the frame has passed its check. */
  function AddEvent(b: Buffer, proj: Result<Offsets>, t: int): (r: Result<Buffer>)
    requires b.Shaped()
    ensures b.stepMinutes == 0 ==> r == Failure(ZeroDivision)
    ensures b.stepMinutes != 0 && !b.Retained(b.FrameOf(t).value) ==> r == Success(b)
    ensures b.stepMinutes != 0 && b.Retained(b.FrameOf(t).value) && proj.Failure? ==> r == Failure(proj.error)
    ensures b.stepMinutes != 0 && b.Retained(b.FrameOf(t).value) && proj.Success? ==>
              var cell := CoordToGrid(b.rowSize, proj.value);
              && r.Success?
              && (!InGrid(b.rowSize, cell) ==> r.value == b)
              && (InGrid(b.rowSize, cell) ==> WritesCell(b, r.value, b.FrameOf(t).value, cell, t))
  {
    match b.FrameOf(t)
    case Failure(e) => Failure(e)
    case Success(f) =>
      if !b.Retained(f) then Success(b)
      else
        match proj
        case Failure(e) => Failure(e)
        case Success(off) =>
          var cell := CoordToGrid(b.rowSize, off);
          if !InGrid(b.rowSize, cell) then Success(b)
          else
            ValidInShape(b.tensor, b.maxCapacity, Channels, b.rowSize, f, FireChannel, cell.row, cell.col);
            ValidInShape(b.tensor, b.maxCapacity, Channels, b.rowSize, f, TimestampChannel, cell.row, cell.col);
            var flagged := Set(b.tensor, f, FireChannel, cell.row, cell.col, Fire);
            Success(b.(tensor := Set(flagged, f, TimestampChannel, cell.row, cell.col, t)))
  }

  /** Two buffers with the same configuration and shape that agree on every
      element are the same buffer. */
  lemma {:induction false} BufferExtensionality(b: Buffer, b': Buffer)
    requires b.SameConfig(b') && b.Shaped() && b'.Shaped()
    requires forall f, c, row, col :: b.InShape(f, c, row, col) ==> b.At(f, c, row, col) == b'.At(f, c, row, col)
    ensures b == b'
  {
    forall f, c, row, col | Valid(b.tensor, f, c, row, col)
      ensures Get(b.tensor, f, c, row, col) == Get(b'.tensor, f, c, row, col)
    {
      assert b.InShape(f, c, row, col);
    }
    Extensionality(b.tensor, b'.tensor);
  }
}
