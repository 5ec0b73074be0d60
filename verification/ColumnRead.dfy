/** Reading one column of a result row in segments (QUERY_SQLVariant.c), against the contract of
    SQLGetData: a buffer of 512 elements, of which text reserves one for its terminator. */
module ColumnReading {
  import opened OpcTypes

  const SEGMENT := 512
  const NO_TOTAL := -4
  const NULL_DATA := -1

  /** The content of a column and how the driver behaves on it: at which offsets it hides the total
      length, and which call fails. */
  datatype Column = Column(data: Option<seq<nat>>, hidden: set<nat>, broken: Option<nat>)

  /** How a column is transferred: narrow text, wide text (two bytes an element) or binary. */
  datatype Mode = Narrow | Wide | Binary

  function ElementSize(mode: Mode): nat {
    if mode == Wide then 2 else 1
  }

  /** The number of data elements that fit into a segment. */
  function Capacity(mode: Mode): nat {
    if mode == Binary then SEGMENT else SEGMENT - 1
  }

  datatype Return = Success | SuccessWithInfo | NoData | Failure

  // ----- The driver -----

  /** The driver's side of one column: how much it has delivered. */
  class ColumnReader {
    const column: Column
    const mode: Mode
    var offset: nat
    var finished: bool
    var calls: nat

    constructor (column: Column, mode: Mode)
      ensures this.column == column && this.mode == mode && offset == 0 && !finished && calls == 0
    {
      this.column, this.mode := column, mode;
      offset, finished, calls := 0, false, 0;
    }

    ghost predicate Valid()
      reads this
    {
      column.data.Some? ==> offset <= |column.data.value|
    }

    function Remaining(): nat
      requires Valid() && column.data.Some?
      reads this
    {
      |column.data.value| - offset
    }

    /** SQLGetData: the next segment, and the bytes that remained before it. */
    method GetData(segment: array<nat>) returns (ret: Return, marker: int)
      requires Valid() && segment.Length == SEGMENT
      modifies this, segment
      ensures Valid() && calls == old(calls) + 1
      ensures column.broken == Some(old(calls)) ==> ret == Failure
      ensures column.broken != Some(old(calls)) && old(finished) ==> ret == NoData && finished && offset == old(offset)
      ensures column.broken != Some(old(calls)) && !old(finished) && column.data.None? ==>
        ret == Success && marker == NULL_DATA && finished
      ensures column.broken != Some(old(calls)) && !old(finished) && column.data.Some? ==>
        Delivered(old(offset), offset, finished, ret, marker, segment[..])
    {
      calls, ret, marker := calls + 1, NoData, 0;
      if column.broken == Some(calls - 1) {
        ret := Failure;
      } else if !finished {
        if column.data.None? {
          ret, marker, finished := Success, NULL_DATA, true;
        } else {
          ret, marker := Deliver(segment);
        }
      }
    }

    /** What a call on unfinished data delivers: as much as fits, behind text a terminator. */
    ghost predicate Delivered(was: nat, now: nat, done: bool, ret: Return, marker: int, segment: seq<nat>)
      requires column.data.Some?
    {
      var data, room := column.data.value, Capacity(mode);
      && was <= now <= |data| && |segment| == SEGMENT && now - was <= room
      && segment[..now - was] == data[was..now]
      && (mode != Binary ==> segment[now - was] == 0)
      && done == (|data| - was <= room)
      && (if done
          then ret == Success && now == |data| && marker == ElementSize(mode) * (|data| - was)
          else ret == SuccessWithInfo && now == was + room
               && (marker == NO_TOTAL || marker == ElementSize(mode) * (|data| - was)))
    }

    method Deliver(segment: array<nat>) returns (ret: Return, marker: int)
      requires Valid() && segment.Length == SEGMENT && column.data.Some?
      modifies `offset, `finished, segment
      ensures Valid() && Delivered(old(offset), offset, finished, ret, marker, segment[..])
    {
      var data := column.data.value;
      var count := if Remaining() <= Capacity(mode) then Remaining() else Capacity(mode);
      var j := 0;
      while j < count
        invariant 0 <= j <= count && offset == old(offset)
        invariant segment[..j] == data[offset..offset + j]
      {
        segment[j] := data[offset + j];
        j := j + 1;
      }
      if mode != Binary {
        segment[count] := 0;
      }
      marker := ElementSize(mode) * Remaining();
      if Remaining() <= Capacity(mode) {
        ret, finished := Success, true;
      } else {
        ret, finished := SuccessWithInfo, false;
        if offset in column.hidden {
          marker := NO_TOTAL;
        }
      }
      offset := offset + count;
    }
  }

  // ----- What a column is worth -----

  datatype Cell = NullCell | Text(units: seq<nat>) | Bytes(units: seq<nat>)

  /** Text ends at its first terminator. */
  function UpToNul(units: seq<nat>): (text: seq<nat>)
    ensures text <= units && 0 !in text
    ensures |text| < |units| ==> units[|text|] == 0
  {
    if units == [] || units[0] == 0 then []
    else
      var rest := UpToNul(units[1..]);
      assert units == [units[0]] + units[1..];
      [units[0]] + rest
  }

  function CellOf(column: Column, mode: Mode): Cell {
    if column.data.None? then NullCell
    else if mode == Binary then Bytes(column.data.value)
    else Text(UpToNul(column.data.value))
  }

  /** A column comes through exactly when it is null, binary, or text without a terminator inside. */
  lemma ExactIff(column: Column, mode: Mode)
    ensures column.data.Some? ==>
      (CellOf(column, mode) == (if mode == Binary then Bytes(column.data.value) else Text(column.data.value))
       <==> mode == Binary || 0 !in column.data.value)
  {
    if column.data.Some? {
      var text := UpToNul(column.data.value);
      if |text| < |column.data.value| {
        assert column.data.value[|text|] in column.data.value;
      }
    }
  }

  /** What a cell shows of a column: nothing exactly when there is no data; binary data whole; text up to the
      first zero in it, and whole when there is none. */
  ghost predicate Shows(cell: Cell, column: Column, mode: Mode) {
    && (cell == NullCell <==> column.data == None)
    && (column.data.Some? ==>
          var data := column.data.value;
          && (mode == Binary ==> cell == Bytes(data))
          && (mode != Binary && 0 !in data ==> cell == Text(data))
          && forall i :: 0 <= i < |data| && mode != Binary && data[i] == 0 && 0 !in data[..i] ==> cell == Text(data[..i]))
  }

  lemma CellShows(column: Column, mode: Mode)
    ensures Shows(CellOf(column, mode), column, mode)
  {
    if column.data.Some? && mode != Binary {
      var data := column.data.value;
      ExactIff(column, mode);
      forall i | 0 <= i < |data| && data[i] == 0 && 0 !in data[..i]
        ensures UpToNul(data) == data[..i]
      {
        UpToNulIs(data, i);
      }
    }
  }

  lemma {:induction false} UpToNulIs(units: seq<nat>, i: nat)
    requires i < |units| && units[i] == 0 && 0 !in units[..i]
    ensures UpToNul(units) == units[..i]
    decreases i
  {
    if i > 0 {
      assert units[0] in units[..i] && forall x :: x in units[1..][..i - 1] ==> x in units[..i];
      UpToNulIs(units[1..], i - 1);
      assert [units[0]] + units[1..][..i - 1] == units[..i];
    }
  }

  /** How many calls reading takes: one when the first call delivers all, otherwise one for each
      segment and one that finds no more. */
  function Calls(length: nat, mode: Mode): nat {
    if length <= Capacity(mode) then 1 else SegmentsOf(length, mode) + 1
  }

  function SegmentsOf(length: nat, mode: Mode): (n: nat)
    decreases length
  {
    if length <= Capacity(mode) then 1 else 1 + SegmentsOf(length - Capacity(mode), mode)
  }

  /** Reading succeeds unless one of the calls it makes is the one that fails. */
  predicate Readable(column: Column, mode: Mode) {
    column.broken.None? || column.broken.value >= (if column.data.None? then 1 else Calls(|column.data.value|, mode))
  }

  lemma UpToNulStops(units: seq<nat>, more: seq<nat>)
    requires |more| > 0 && more[0] == 0
    ensures UpToNul(units + more) == UpToNul(units)
  {
    if units == [] {
      assert units + more == more;
    } else if units[0] != 0 {
      assert (units + more)[1..] == units[1..] + more;
      UpToNulStops(units[1..], more);
    }
  }

  // ----- The segment loop -----

  /** The bytes to take from a segment, as the code computes them from the marker. */
  function NumBytes(marker: int, mode: Mode): int {
    if marker >= ElementSize(mode) * SEGMENT || marker == NO_TOTAL
    then ElementSize(mode) * (SEGMENT - (if mode == Binary then 0 else 1))
    else marker
  }

  lemma NumBytesIsDelivered(r: ColumnReader, was: nat, now: nat, done: bool, ret: Return, marker: int, segment: seq<nat>)
    requires r.column.data.Some? && r.Delivered(was, now, done, ret, marker, segment)
    ensures NumBytes(marker, r.mode) == ElementSize(r.mode) * (now - was)
    ensures NumBytes(marker, r.mode) / ElementSize(r.mode) == now - was
  {
  }

  /** The loop over one column; the buffer grows by the segments' data. */
  method ReadColumn(r: ColumnReader) returns (cell: Option<Cell>)
    requires r.Valid() && r.offset == 0 && !r.finished && r.calls == 0
    modifies r
    ensures cell == if Readable(r.column, r.mode) then Some(CellOf(r.column, r.mode)) else None
  {
    var segment := new nat[SEGMENT](_ => 1);
    var ret, marker := r.GetData(segment);
    if ret == Failure {
      return None;
    }
    if marker == NULL_DATA {
      return Some(NullCell);
    }
    if ret == SuccessWithInfo {
      cell := ReadParts(r, segment, marker);
    } else if r.mode == Binary {
      assert segment[..marker] == r.column.data.value;
      cell := Some(Bytes(segment[..marker]));
    } else {
      assert segment[..] == r.column.data.value + segment[r.offset..];
      UpToNulStops(r.column.data.value, segment[r.offset..]);
      cell := Some(Text(UpToNul(segment[..])));
    }
  }

  /** The loop once the first segment turned out not to be the last. */
  method ReadParts(r: ColumnReader, segment: array<nat>, first: int) returns (cell: Option<Cell>)
    requires r.Valid() && r.column.data.Some? && segment.Length == SEGMENT && r.calls == 1
    requires r.Delivered(0, r.offset, r.finished, SuccessWithInfo, first, segment[..])
    requires r.column.broken != Some(0)
    modifies r, segment
    ensures cell == if Readable(r.column, r.mode) then Some(CellOf(r.column, r.mode)) else None
  {
    ghost var data := r.column.data.value;
    var ret, marker, buffer, contiguous := SuccessWithInfo, first, [], 0;
    while ret != NoData
      invariant r.Valid() && r.calls >= 1 && (r.column.broken.Some? ==> r.column.broken.value >= r.calls)
      invariant 0 <= contiguous == |buffer| <= |data| && buffer == data[..contiguous]
      invariant ret != NoData ==> r.Delivered(contiguous, r.offset, r.finished, ret, marker, segment[..])
      invariant ret == NoData ==> r.finished && contiguous == |data|
      invariant r.calls + (if r.finished then 0 else SegmentsOf(|data| - r.offset, r.mode)) + (if ret == NoData then 0 else 1)
        == Calls(|data|, r.mode)
      decreases ret != NoData, !r.finished, |data| - contiguous
    {
      NumBytesIsDelivered(r, contiguous, r.offset, r.finished, ret, marker, segment[..]);
      var bytes := NumBytes(marker, r.mode);
      buffer := buffer + segment[..bytes / ElementSize(r.mode)];
      contiguous := contiguous + bytes / ElementSize(r.mode);
      assert buffer == data[..contiguous] && contiguous == r.offset;
      ret, marker := r.GetData(segment);
      if ret == Failure {
        return None;
      }
    }
    assert buffer == data;
    var whole := Finished(buffer, r.mode);
    cell := Some(whole);
  }

  /** Text gets a terminator behind it and is then read up to its first one. */
  method Finished(buffer: seq<nat>, mode: Mode) returns (cell: Cell)
    ensures cell == CellOf(Column(Some(buffer), {}, None), mode)
  {
    if mode == Binary {
      cell := Bytes(buffer);
    } else {
      UpToNulStops(buffer, [0]);
      cell := Text(UpToNul(buffer + [0]));
    }
  }
}
