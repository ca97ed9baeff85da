/** The shared-memory layout of src/chromium/metrics/stats_table.cc: where each part of the
    segment lies.  Sizes are in bytes; ints have four.
  */
module StatsLayout {
  const MAX_THREAD_NAME_LENGTH: nat := 32
  const MAX_COUNTER_NAME_LENGTH: nat := 64
  const INT_SIZE: nat := 4
  const HEADER_SIZE: nat := 16

  function AlignOffset(offset: nat): (delta: nat)
    ensures (offset + delta) % INT_SIZE == 0 && delta < INT_SIZE
  {
    (INT_SIZE - offset % INT_SIZE) % INT_SIZE
  }

  function AlignedSize(size: nat): nat {
    size + AlignOffset(size)
  }

  /** The size the constructor asks for. */
  function TableSize(maxThreads: nat, maxCounters: nat): nat {
    AlignedSize(HEADER_SIZE) +
    AlignedSize(maxCounters * MAX_COUNTER_NAME_LENGTH) +
    AlignedSize(maxThreads * MAX_THREAD_NAME_LENGTH) +
    AlignedSize(maxThreads * INT_SIZE) +
    AlignedSize(maxThreads * INT_SIZE) +
    AlignedSize(INT_SIZE * (maxCounters * maxThreads))
  }

  /** The offsets `ComputeMappedPointers` finds; `end` is where it stops. */
  datatype Pointers = Pointers(threadNames: nat, threadTids: nat, threadPids: nat, counterNames: nat, data: nat, end: nat)

  method ComputeMappedPointers(maxThreads: nat, maxCounters: nat) returns (p: Pointers)
    ensures p == MappedPointers(maxThreads, maxCounters)
    ensures p.end == TableSize(maxThreads, maxCounters)
    ensures p.threadNames == 16 && p.threadTids == p.threadNames + 32 * maxThreads
    ensures p.threadPids == p.threadTids + 4 * maxThreads && p.counterNames == p.threadPids + 4 * maxThreads
    ensures p.data == p.counterNames + 64 * maxCounters && p.end == p.data + 4 * (maxThreads * maxCounters)
  {
    var offset := 0;
    offset := offset + HEADER_SIZE;
    NoPadding(offset, 4);
    offset := offset + AlignOffset(offset);
    var threadNames := offset;
    offset := offset + maxThreads * MAX_THREAD_NAME_LENGTH;
    NoPadding(offset, 4 + 8 * maxThreads);
    offset := offset + AlignOffset(offset);
    var threadTids := offset;
    offset := offset + INT_SIZE * maxThreads;
    NoPadding(offset, 4 + 9 * maxThreads);
    offset := offset + AlignOffset(offset);
    var threadPids := offset;
    offset := offset + INT_SIZE * maxThreads;
    NoPadding(offset, 4 + 10 * maxThreads);
    offset := offset + AlignOffset(offset);
    var counterNames := offset;
    offset := offset + maxCounters * MAX_COUNTER_NAME_LENGTH;
    NoPadding(offset, 4 + 10 * maxThreads + 16 * maxCounters);
    offset := offset + AlignOffset(offset);
    var data := offset;
    offset := offset + INT_SIZE * (maxThreads * maxCounters);
    p := Pointers(threadNames, threadTids, threadPids, counterNames, data, offset);
    SizesAdd(maxThreads, maxCounters);
  }

  lemma NoPadding(offset: nat, ints: nat)
    requires offset == INT_SIZE * ints
    ensures AlignOffset(offset) == 0
  {
  }

  /** Every section is a whole number of ints, so no padding is ever inserted. */
  function MappedPointers(maxThreads: nat, maxCounters: nat): Pointers {
    var threadNames := HEADER_SIZE;
    var threadTids := threadNames + MAX_THREAD_NAME_LENGTH * maxThreads;
    var threadPids := threadTids + INT_SIZE * maxThreads;
    var counterNames := threadPids + INT_SIZE * maxThreads;
    var data := counterNames + MAX_COUNTER_NAME_LENGTH * maxCounters;
    Pointers(threadNames, threadTids, threadPids, counterNames, data, data + INT_SIZE * (maxThreads * maxCounters))
  }

  lemma SizesAdd(maxThreads: nat, maxCounters: nat)
    ensures MappedPointers(maxThreads, maxCounters).end == TableSize(maxThreads, maxCounters)
  {
    var grid := maxThreads * maxCounters;
    assert maxCounters * maxThreads == grid;
    NoPadding(HEADER_SIZE, 4);
    NoPadding(maxCounters * MAX_COUNTER_NAME_LENGTH, 16 * maxCounters);
    NoPadding(maxThreads * MAX_THREAD_NAME_LENGTH, 8 * maxThreads);
    NoPadding(maxThreads * INT_SIZE, maxThreads);
    NoPadding(INT_SIZE * grid, grid);
    hide AlignOffset;
  }

  /** Anything with a place in the segment; slots and counters are numbered from one. */
  datatype Part =
    | Header
    | ThreadName(slot: int)
    | ThreadTid(slot: int)
    | ThreadPid(slot: int)
    | CounterName(counter: int)
    | Cell(counter: int, slot: int)
  {
    predicate Valid(maxThreads: nat, maxCounters: nat) {
      match this
      case Header => true
      case ThreadName(slot) => 1 <= slot <= maxThreads
      case ThreadTid(slot) => 1 <= slot <= maxThreads
      case ThreadPid(slot) => 1 <= slot <= maxThreads
      case CounterName(counter) => 1 <= counter <= maxCounters
      case Cell(counter, slot) => 1 <= counter <= maxCounters && 1 <= slot <= maxThreads
    }

    function Start(maxThreads: nat, maxCounters: nat): int {
      var p := MappedPointers(maxThreads, maxCounters);
      match this
      case Header => 0
      case ThreadName(slot) => p.threadNames + MAX_THREAD_NAME_LENGTH * (slot - 1)
      case ThreadTid(slot) => p.threadTids + INT_SIZE * (slot - 1)
      case ThreadPid(slot) => p.threadPids + INT_SIZE * (slot - 1)
      case CounterName(counter) => p.counterNames + MAX_COUNTER_NAME_LENGTH * (counter - 1)
      case Cell(counter, slot) => p.data + INT_SIZE * CellIndex(counter, slot, maxThreads)
    }

    function Length(): nat {
      match this
      case Header => HEADER_SIZE
      case ThreadName(slot) => MAX_THREAD_NAME_LENGTH
      case CounterName(counter) => MAX_COUNTER_NAME_LENGTH
      case _ => INT_SIZE
    }
  }

  /** The place of a cell in the data grid, as `GetLocation` computes it. */
  function CellIndex(counter: int, slot: int, maxThreads: nat): int {
    (counter - 1) * maxThreads + (slot - 1)
  }

  lemma CellsInGrid(counter: int, slot: int, maxThreads: nat, maxCounters: nat)
    requires 1 <= counter <= maxCounters && 1 <= slot <= maxThreads
    ensures 0 <= CellIndex(counter, slot, maxThreads) < maxThreads * maxCounters
  {
    RowsGrow(counter - 1, maxCounters - 1, maxThreads);
    RowsGrow(0, counter - 1, maxThreads);
    NextRow(maxCounters - 1, maxThreads);
  }

  lemma RowsGrow(row: int, other: int, width: nat)
    requires row <= other
    ensures row * width <= other * width
  {
    assert other * width - row * width == (other - row) * width;
  }

  lemma NextRow(row: int, width: nat)
    ensures (row + 1) * width == row * width + width
  {
  }

  lemma CellsDiffer(counter: int, slot: int, other: int, otherSlot: int, maxThreads: nat)
    requires 1 <= slot <= maxThreads && 1 <= otherSlot <= maxThreads
    requires CellIndex(counter, slot, maxThreads) == CellIndex(other, otherSlot, maxThreads)
    ensures counter == other && slot == otherSlot
  {
    if counter < other {
      RowGap(counter, other, maxThreads);
    } else if other < counter {
      RowGap(other, counter, maxThreads);
    }
  }

  lemma RowGap(counter: int, other: int, maxThreads: nat)
    requires counter < other
    ensures (counter - 1) * maxThreads + maxThreads <= (other - 1) * maxThreads
  {
    RowsGrow(counter, other - 1, maxThreads);
    NextRow(counter - 1, maxThreads);
  }

  /** Every part lies inside the segment, aligned for an int. */
  lemma PartsFit(part: Part, maxThreads: nat, maxCounters: nat)
    requires part.Valid(maxThreads, maxCounters)
    ensures 0 <= part.Start(maxThreads, maxCounters)
    ensures part.Start(maxThreads, maxCounters) + part.Length() <= TableSize(maxThreads, maxCounters)
    ensures part.Start(maxThreads, maxCounters) % INT_SIZE == 0
  {
    SizesAdd(maxThreads, maxCounters);
    RowsGrow(0, maxThreads, maxCounters);
    if part.Cell? {
      CellsInGrid(part.counter, part.slot, maxThreads, maxCounters);
    }
    hide TableSize, CellIndex;
    PartFits(part, maxThreads, maxCounters, maxThreads * maxCounters);
  }

  lemma PartFits(part: Part, maxThreads: nat, maxCounters: nat, grid: nat)
    requires part.Valid(maxThreads, maxCounters) && grid == maxThreads * maxCounters
    requires part.Cell? ==> 0 <= CellIndex(part.counter, part.slot, maxThreads) < grid
    ensures 0 <= part.Start(maxThreads, maxCounters)
    ensures part.Start(maxThreads, maxCounters) + part.Length() <= MappedPointers(maxThreads, maxCounters).end
    ensures part.Start(maxThreads, maxCounters) % INT_SIZE == 0
  {
    hide CellIndex;
    PartIsAligned(part, maxThreads, maxCounters);
  }

  lemma PartIsAligned(part: Part, maxThreads: nat, maxCounters: nat)
    ensures part.Start(maxThreads, maxCounters) % INT_SIZE == 0
  {
    hide CellIndex;
    var ints := match part
      case Header => 0
      case ThreadName(slot) => 4 + 8 * (slot - 1)
      case ThreadTid(slot) => 4 + 8 * maxThreads + (slot - 1)
      case ThreadPid(slot) => 4 + 9 * maxThreads + (slot - 1)
      case CounterName(counter) => 4 + 10 * maxThreads + 16 * (counter - 1)
      case Cell(counter, slot) => 4 + 10 * maxThreads + 16 * maxCounters + CellIndex(counter, slot, maxThreads);
    IntsAreAligned(part.Start(maxThreads, maxCounters), ints);
  }

  lemma IntsAreAligned(offset: int, ints: int)
    requires offset == INT_SIZE * ints
    ensures offset % INT_SIZE == 0
  {
  }

  /** Which section of the segment a part belongs to, in order. */
  function Section(part: Part): nat {
    match part
    case Header => 0
    case ThreadName(slot) => 1
    case ThreadTid(slot) => 2
    case ThreadPid(slot) => 3
    case CounterName(counter) => 4
    case Cell(counter, slot) => 5
  }

  predicate AreApart(part: Part, other: Part, maxThreads: nat, maxCounters: nat) {
    || part.Start(maxThreads, maxCounters) + part.Length() <= other.Start(maxThreads, maxCounters)
    || other.Start(maxThreads, maxCounters) + other.Length() <= part.Start(maxThreads, maxCounters)
  }

  lemma SectionsApart(part: Part, other: Part, maxThreads: nat, maxCounters: nat)
    requires part.Valid(maxThreads, maxCounters) && other.Valid(maxThreads, maxCounters)
    requires Section(part) < Section(other)
    ensures AreApart(part, other, maxThreads, maxCounters)
  {
    if other.Cell? {
      CellsInGrid(other.counter, other.slot, maxThreads, maxCounters);
    }
    hide CellIndex;
  }

  /** No two parts of the segment overlap; in particular each (counter, slot) pair has a cell of
      its own. */
  lemma PartsAreApart(part: Part, other: Part, maxThreads: nat, maxCounters: nat)
    requires part.Valid(maxThreads, maxCounters) && other.Valid(maxThreads, maxCounters) && part != other
    ensures AreApart(part, other, maxThreads, maxCounters)
  {
    if Section(part) < Section(other) {
      SectionsApart(part, other, maxThreads, maxCounters);
    } else if Section(other) < Section(part) {
      SectionsApart(other, part, maxThreads, maxCounters);
    } else {
      hide MappedPointers;
      if part.Cell? {
        if CellIndex(part.counter, part.slot, maxThreads) == CellIndex(other.counter, other.slot, maxThreads) {
          CellsDiffer(part.counter, part.slot, other.counter, other.slot, maxThreads);
        }
      }
      hide CellIndex;
    }
  }

  /** Nothing guards against slot 0: its place in a row is the last cell of the row before, or
      the end of the last counter name for the first row. */
  lemma SlotZeroIsNotItsOwn(counter: int, maxThreads: nat, maxCounters: nat)
    requires 1 <= counter <= maxCounters && 0 < maxThreads
    ensures counter > 1 ==>
      Cell(counter, 0).Start(maxThreads, maxCounters) == Cell(counter - 1, maxThreads).Start(maxThreads, maxCounters)
    ensures counter == 1 ==>
      Cell(counter, 0).Start(maxThreads, maxCounters) + INT_SIZE ==
      CounterName(maxCounters).Start(maxThreads, maxCounters) + MAX_COUNTER_NAME_LENGTH
  {
    NextRow(counter - 2, maxThreads);
  }

  /** A location is apart from everything else in the segment exactly if its slot is not 0. */
  lemma OwnCellIffSlot(counter: int, slot: nat, maxThreads: nat, maxCounters: nat)
    requires 1 <= counter <= maxCounters && slot <= maxThreads && 0 < maxThreads
    ensures 1 <= slot <==>
            forall part: Part :: part.Valid(maxThreads, maxCounters) && part != Cell(counter, slot) ==>
              AreApart(Cell(counter, slot), part, maxThreads, maxCounters)
  {
    if 1 <= slot {
      forall part: Part | part.Valid(maxThreads, maxCounters) && part != Cell(counter, slot)
        ensures AreApart(Cell(counter, slot), part, maxThreads, maxCounters)
      {
        PartsAreApart(Cell(counter, slot), part, maxThreads, maxCounters);
      }
    } else {
      SlotZeroIsNotItsOwn(counter, maxThreads, maxCounters);
      var taken := if counter > 1 then Cell(counter - 1, maxThreads) else CounterName(maxCounters);
      hide Part.Start;
      assert !AreApart(Cell(counter, slot), taken, maxThreads, maxCounters);
    }
  }
}
