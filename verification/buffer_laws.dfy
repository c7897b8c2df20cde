/** Properties of single insertions into the event buffer. */
module BufferLaws {
  import opened Errors
  import opened Frames
  import opened Grid
  import opened EventBuffer

  /** Inserting a detection keeps the buffer's invariant. */
  lemma {:induction false} AddEventPreservesConsistent(b: Buffer, proj: Result<Offsets>, t: int)
    requires Consistent(b)
    ensures AddEvent(b, proj, t).Success? ==> Consistent(AddEvent(b, proj, t).value)
  {
    var r := AddEvent(b, proj, t);
    if r.Success? && r.value != b {
      var b' := r.value;
      var f := b.FrameOf(t).value;
      var cell := CoordToGrid(b.rowSize, proj.value);
      assert WritesCell(b, b', f, cell, t);
      forall f', row, col | b'.InShape(f', FireChannel, row, col) && b'.At(f', FireChannel, row, col) == Fire
        ensures b'.FrameOf(b'.At(f', TimestampChannel, row, col)) == Success(f')
      {
        if (f', row, col) != (f, cell.row, cell.col) {
          assert b.InShape(f', TimestampChannel, row, col);
        }
      }
      forall f', row, col | b'.InShape(f', FireChannel, row, col) && b'.At(f', FireChannel, row, col) == 0
        ensures b'.At(f', TimestampChannel, row, col) == 0
      {
        assert b.InShape(f', TimestampChannel, row, col);
      }
    }
  }

  /** A detection stamped at or after the end of the last retained frame,
      with a positive step, is dropped: the buffer comes back unchanged. */
  lemma DropAfterCapacity(b: Buffer, proj: Result<Offsets>, t: int)
    requires b.Shaped() && b.stepMinutes > 0
    requires t >= FrameStart(b.startTime, b.stepMinutes, b.maxCapacity)
    ensures AddEvent(b, proj, t) == Success(b)
  {
    var f := b.FrameOf(t).value;
    if f < b.maxCapacity {
      MulMono(StepMicros(b.stepMinutes), f + 1, b.maxCapacity);
      assert false;
    }
  }

  /** A detection stamped before the start time, with a positive step, gets a
      negative frame and is dropped. */
  lemma DropBeforeStart(b: Buffer, proj: Result<Offsets>, t: int)
    requires b.Shaped() && b.stepMinutes > 0 && t < b.startTime
    ensures AddEvent(b, proj, t) == Success(b)
  {
    FrameIndexBeforeStart(b.startTime, b.stepMinutes, t);
  }

  /** Two detections in the same frame and cell leave only the second: the
      flag is set once and the timestamp is the later write's. */
  lemma {:induction false} AddEventOverwrites(b: Buffer, p1: Result<Offsets>, t1: int, p2: Result<Offsets>, t2: int)
    requires b.Shaped() && b.stepMinutes != 0
    requires b.FrameOf(t1) == b.FrameOf(t2) && b.Retained(b.FrameOf(t1).value)
    requires p1.Success? && p2.Success?
    requires CoordToGrid(b.rowSize, p1.value) == CoordToGrid(b.rowSize, p2.value)
    ensures AddEvent(b, p1, t1).Success?
    ensures AddEvent(AddEvent(b, p1, t1).value, p2, t2) == AddEvent(b, p2, t2)
  {
    var cell := CoordToGrid(b.rowSize, p1.value);
    var b1 := AddEvent(b, p1, t1).value;
    if InGrid(b.rowSize, cell) {
      var f := b.FrameOf(t1).value;
      var b12 := AddEvent(b1, p2, t2).value;
      var b2 := AddEvent(b, p2, t2).value;
      assert WritesCell(b, b1, f, cell, t1);
      assert WritesCell(b1, b12, f, cell, t2);
      assert WritesCell(b, b2, f, cell, t2);
      forall f', c, row, col | b12.InShape(f', c, row, col)
        ensures b12.At(f', c, row, col) == b2.At(f', c, row, col)
      {
        assert b1.InShape(f', c, row, col);
      }
      BufferExtensionality(b12, b2);
    }
  }

  /** Inserting the same detection twice is the same as inserting it once. */
  lemma AddEventIdempotent(b: Buffer, proj: Result<Offsets>, t: int)
    requires b.Shaped()
    ensures AddEvent(b, proj, t).Success? ==>
              AddEvent(AddEvent(b, proj, t).value, proj, t) == AddEvent(b, proj, t)
  {
    if AddEvent(b, proj, t).Success? && b.Retained(b.FrameOf(t).value) {
      AddEventOverwrites(b, proj, t, proj, t);
    }
  }

  /** The frame and cell a detection writes, if it is written at all. */
  ghost predicate Targets(b: Buffer, e: Event, f: int, cell: Cell) {
    && b.stepMinutes != 0
    && b.FrameOf(e.time) == Success(f)
    && b.Retained(f)
    && e.proj.Success?
    && cell == CoordToGrid(b.rowSize, e.proj.value)
    && InGrid(b.rowSize, cell)
  }

  /** The detection makes `add_event` raise. This depends only on the
      buffer's configuration, never on what the tensor holds. */
  predicate Raises(b: Buffer, e: Event) {
    b.stepMinutes == 0 || (b.Retained(b.FrameOf(e.time).value) && e.proj.Failure?)
  }

  /** Detections that raise nothing and do not write the same frame and cell
      may be inserted in either order. */
  lemma {:induction false} AddEventCommutes(b: Buffer, e1: Event, e2: Event)
    requires b.Shaped()
    requires !Raises(b, e1) && !Raises(b, e2)
    requires forall f, cell :: Targets(b, e1, f, cell) ==> !Targets(b, e2, f, cell)
    ensures AddEvent(b, e1.proj, e1.time).Success? && AddEvent(b, e2.proj, e2.time).Success?
    ensures AddEvent(AddEvent(b, e1.proj, e1.time).value, e2.proj, e2.time)
         == AddEvent(AddEvent(b, e2.proj, e2.time).value, e1.proj, e1.time)
  {
    if e1.proj.Success? && e2.proj.Success? {
      BothProjectedCommute(b, e1, e2);
    }
  }

  /** AddEventCommutes when both projections succeed. */
  lemma {:induction false} BothProjectedCommute(b: Buffer, e1: Event, e2: Event)
    requires b.Shaped() && b.stepMinutes != 0
    requires e1.proj.Success? && e2.proj.Success?
    requires forall f, cell :: Targets(b, e1, f, cell) ==> !Targets(b, e2, f, cell)
    ensures AddEvent(b, e1.proj, e1.time).Success? && AddEvent(b, e2.proj, e2.time).Success?
    ensures AddEvent(AddEvent(b, e1.proj, e1.time).value, e2.proj, e2.time)
         == AddEvent(AddEvent(b, e2.proj, e2.time).value, e1.proj, e1.time)
  {
    var b1 := AddEvent(b, e1.proj, e1.time).value;
    var b2 := AddEvent(b, e2.proj, e2.time).value;
    var b12 := AddEvent(b1, e2.proj, e2.time).value;
    var b21 := AddEvent(b2, e1.proj, e1.time).value;
    var c1 := CoordToGrid(b.rowSize, e1.proj.value);
    var c2 := CoordToGrid(b.rowSize, e2.proj.value);
    var w1 := b.Retained(b.FrameOf(e1.time).value) && InGrid(b.rowSize, c1);
    var w2 := b.Retained(b.FrameOf(e2.time).value) && InGrid(b.rowSize, c2);
    if w1 && w2 {
      var f1 := b.FrameOf(e1.time).value;
      var f2 := b.FrameOf(e2.time).value;
      assert Targets(b, e1, f1, c1);
      assert (f1, c1) != (f2, c2);
      assert WritesCell(b, b1, f1, c1, e1.time);
      assert WritesCell(b, b2, f2, c2, e2.time);
      assert WritesCell(b1, b12, f2, c2, e2.time);
      assert WritesCell(b2, b21, f1, c1, e1.time);
      forall f', c, row, col | b12.InShape(f', c, row, col)
        ensures b12.At(f', c, row, col) == b21.At(f', c, row, col)
      {
        assert b1.InShape(f', c, row, col);
      }
      BufferExtensionality(b12, b21);
    }
  }

  /** A detection at the ignition point at the start time lands in frame 0,
      at the centre cell, whenever there is a frame and a cell to hold it. */
  lemma OriginEventAtCentre(b: Buffer)
    requires b.Shaped() && b.stepMinutes != 0 && b.maxCapacity > 0 && b.rowSize > 0
    ensures AddEvent(b, Success(Offsets(0, 0)), b.startTime).Success?
    ensures WritesCell(b, AddEvent(b, Success(Offsets(0, 0)), b.startTime).value, 0,
                       Cell(Center(b.rowSize), Center(b.rowSize)), b.startTime)
  {
    FrameIndexAtStart(b.startTime, b.stepMinutes);
  }

  /** With the default configuration (as InitDefault builds it), a detection
      at the ignition point at the start time marks frame 0, cell (5, 5); a
      detection 22 cells (about 4.4 km) north thirty seconds later lies off the
      10 × 10 grid and is dropped, since the grid never re-centres. */
  lemma DefaultGridScenario(b: Buffer)
    requires b.Shaped()
    requires b.rowSize == DefaultRowSize && b.stepMinutes == DefaultStepMinutes
    requires b.maxCapacity == DefaultMaxCapacity
    ensures
      var r := AddEvent(b, Success(Offsets(0, 0)), b.startTime);
      && r.Success?
      && r.value.InShape(0, FireChannel, 5, 5)
      && r.value.At(0, FireChannel, 5, 5) == Fire
      && r.value.At(0, TimestampChannel, 5, 5) == b.startTime
      && AddEvent(r.value, Success(Offsets(22, 0)), b.startTime + 30 * MicrosPerSecond) == r
  {
    assert Center(b.rowSize) == 5;
    assert Cell(Center(b.rowSize), Center(b.rowSize)) == Cell(5, 5);
    OriginEventAtCentre(b);
    var r := AddEvent(b, Success(Offsets(0, 0)), b.startTime);
    assert WritesCell(b, r.value, 0, Cell(5, 5), b.startTime);
    assert b.InShape(0, FireChannel, 5, 5) && b.InShape(0, TimestampChannel, 5, 5);
    FrameIndexIff(b.startTime, 1, b.startTime + 30 * MicrosPerSecond, 0);
  }
}
