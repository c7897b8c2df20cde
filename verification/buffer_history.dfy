/** A run of detections fed to the buffer one after another, as the live
    driver does: each `add_event` sees the buffer the previous one left, and
    the first exception ends the run. */
module BufferHistory {
  import opened Errors
  import opened Grid
  import opened EventBuffer
  import opened BufferLaws

  datatype Option<T> = None | Some(value: T)

  /** The exception `add_event` raises for a detection that Raises. */
  function RaisedError(b: Buffer, e: Event): Error
    requires Raises(b, e)
  {
    if b.stepMinutes == 0 then ZeroDivision else e.proj.error
  }

  /** Insert the detections of `es` in order. */
  function AddEvents(b: Buffer, es: seq<Event>): (r: Result<Buffer>)
    requires b.Shaped()
    ensures r.Success? ==> b.SameConfig(r.value) && r.value.Shaped()
    ensures r.Failure? <==> exists i :: 0 <= i < |es| && Raises(b, es[i])
    ensures r.Failure? ==>
              exists i :: 0 <= i < |es| && Raises(b, es[i]) && r.error == RaisedError(b, es[i])
                && forall j :: 0 <= j < i ==> !Raises(b, es[j])
    decreases |es|
  {
    if es == [] then Success(b)
    else
      var prefix, last := es[..|es| - 1], es[|es| - 1];
      assert forall i :: 0 <= i < |prefix| ==> prefix[i] == es[i];
      match AddEvents(b, prefix)
      case Failure(e) => Failure(e)
      case Success(b') =>
        assert Raises(b', last) == Raises(b, last);
        AddEvent(b', last.proj, last.time)
  }

  /** The timestamp of the last detection in `es` that writes frame f, cell
      `cell`, if any does. */
  ghost function LastWrite(b: Buffer, es: seq<Event>, f: int, cell: Cell): Option<int>
    decreases |es|
  {
    if es == [] then None
    else if Targets(b, es[|es| - 1], f, cell) then Some(es[|es| - 1].time)
    else LastWrite(b, es[..|es| - 1], f, cell)
  }

  /** After a run, each cell holds the flag and timestamp of the last
      detection that wrote it, or what it held before if none did; the
      reserved channels are never touched. */
  lemma {:induction false} AddEventsLastWriteWins(b: Buffer, es: seq<Event>, f: int, row: int, col: int)
    requires b.Shaped() && b.InShape(f, FireChannel, row, col)
    ensures AddEvents(b, es).Success? ==>
              var b' := AddEvents(b, es).value;
              && (LastWrite(b, es, f, Cell(row, col)).None? ==>
                    && b'.At(f, FireChannel, row, col) == b.At(f, FireChannel, row, col)
                    && b'.At(f, TimestampChannel, row, col) == b.At(f, TimestampChannel, row, col))
              && (LastWrite(b, es, f, Cell(row, col)).Some? ==>
                    && b'.At(f, FireChannel, row, col) == Fire
                    && b'.At(f, TimestampChannel, row, col) == LastWrite(b, es, f, Cell(row, col)).value)
              && (forall c :: FireChannel < c < Channels ==> b'.At(f, c, row, col) == b.At(f, c, row, col))
    decreases |es|
  {
    if es != [] && AddEvents(b, es).Success? {
      var prefix, last := es[..|es| - 1], es[|es| - 1];
      AddEventsLastWriteWins(b, prefix, f, row, col);
      var b1 := AddEvents(b, prefix).value;
      var b' := AddEvents(b, es).value;
      assert b' == AddEvent(b1, last.proj, last.time).value;
      assert b1.InShape(f, TimestampChannel, row, col);
      if b1.stepMinutes != 0 && b1.Retained(b1.FrameOf(last.time).value) {
        var cell := CoordToGrid(b1.rowSize, last.proj.value);
        if InGrid(b1.rowSize, cell) {
          assert WritesCell(b1, b', b1.FrameOf(last.time).value, cell, last.time);
          forall c | FireChannel < c < Channels
            ensures b'.At(f, c, row, col) == b1.At(f, c, row, col)
          {
            assert b1.InShape(f, c, row, col);
          }
        }
      }
    }
  }

  /** A run of insertions keeps the buffer's invariant. */
  lemma {:induction false} AddEventsPreservesConsistent(b: Buffer, es: seq<Event>)
    requires Consistent(b)
    ensures AddEvents(b, es).Success? ==> Consistent(AddEvents(b, es).value)
    decreases |es|
  {
    if es != [] && AddEvents(b, es).Success? {
      var prefix, last := es[..|es| - 1], es[|es| - 1];
      AddEventsPreservesConsistent(b, prefix);
      AddEventPreservesConsistent(AddEvents(b, prefix).value, last.proj, last.time);
    }
  }
}
