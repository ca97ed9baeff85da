/** Threads that share a statistics table: src/chromium/metrics/stats_table.cc and the counters in
    src/chromium/metrics/stats_counters.cc.

    Slots are allocated under the shared-memory lock, one name at a time; unregistering, looking
    up a counter's cached row and counting take no lock, so any thread may run between two steps
    of another one.  The cached row is read twice, once to test it and once to use it.
  */
module StatsSlots {
  import opened CStrings
  import opened NumberConversions
  import opened StatsLayout
  import opened Wrappers

  lemma WrapSame(x: int, y: int)
    requires (x - y) % 0x1_0000_0000 == 0
    ensures Wrap32(x) == Wrap32(y)
  {
  }

  // ---------------------------------------------------------------------------------
  // States and steps
  // ---------------------------------------------------------------------------------

  /** The segment: `names[i]` is the string in slot i + 1, `data` the grid of cells, and `front[i]`
      the int i + 1 ints before it, where the counter names are. */
  datatype Table = Table(maxThreads: nat, maxCounters: nat, names: seq<string>, tids: seq<int>, pids: seq<int>,
                         front: seq<int>, data: seq<int>)
  {
    predicate Valid() {
      && |names| == |tids| == |pids| == maxThreads && |data| == maxThreads * maxCounters
      && |front| == maxThreads + 1
    }
  }

  /** An addition to a counter object. */
  datatype Work = Work(counter: nat, delta: int)

  /** Where a thread is; `held` is the slot in its thread-local storage, zero if none. */
  datatype Phase =
    | Ready(held: nat)
    | Finding(held: nat, work: Work)                  // the counter had no row cached
    | Wanting(held: nat, work: Work)                  // the row is cached, the thread has no slot
    | Scanning(held: nat, name: string, index: nat, resume: Option<Work>)   // has the lock, looks for an empty slot
    | Claiming(held: nat, name: string, slot: nat, resume: Option<Work>)    // has the lock, found one
    | Failing(held: nat, work: Work)                  // there was no empty slot
    | Locating(held: nat, work: Work)                 // tests the cached row next
    | Choosing(held: nat, work: Work)                 // has found it positive, and reads it next
    | Pointing(held: nat, row: nat, work: Work)       // has the location
    | Adding(held: nat, row: nat, loaded: int, work: Work)
  {
    predicate HasLock() {
      Scanning? || Claiming?
    }

    function InHand(): Option<Work> {
      match this
      case Finding(_, work) => Some(work)
      case Wanting(_, work) => Some(work)
      case Scanning(_, _, _, resume) => resume
      case Claiming(_, _, _, resume) => resume
      case Failing(_, work) => Some(work)
      case Locating(_, work) => Some(work)
      case Choosing(_, work) => Some(work)
      case Pointing(_, _, work) => Some(work)
      case Adding(_, _, _, work) => Some(work)
      case Ready(_) => None
    }
  }

  /** `ids` holds the cached row of each counter object: -1 before the first lookup, zero if
      counting is not possible.  `rowOf` is what the table answers to its name.  `completed` lists
      the additions by the row of their counter. */
  datatype State = State(table: Table, threads: seq<Phase>, locked: bool, ids: seq<int>, rowOf: seq<nat>,
                         completed: seq<(nat, int)>)
  {
    predicate Valid() {
      table.Valid() && |ids| == |rowOf|
    }
  }

  datatype Step =
    | Acquire(t: nat, name: string)
    | AcquireFor(t: nat)
    | Look(t: nat)
    | Claim(t: nat, tid: int, pid: int)
    | Unregister(t: nat)
    | Start(t: nat, work: Work)
    | FindRow(t: nat)
    | GiveUp(t: nat)
    | TestRow(t: nat)
    | ReadRow(t: nat)
    | LoadCell(t: nat)
    | StoreCell(t: nat)

  function Initial(maxThreads: nat, maxCounters: nat, threads: nat, rowOf: seq<nat>): State {
    State(Table(maxThreads, maxCounters, seq(maxThreads, _ => ""), seq(maxThreads, _ => 0), seq(maxThreads, _ => 0),
                seq(maxThreads + 1, _ => 0), seq(maxThreads * maxCounters, _ => 0)),
          seq(threads, _ => Ready(0)), false, seq(|rowOf|, _ => -1), rowOf, [])
  }

  predicate HasPlace(table: Table, row: nat, slot: nat) {
    row <= table.maxCounters && slot <= table.maxThreads
  }

  predicate IsEnabled(s: State, step: Step) {
    && step.t < |s.threads| && s.Valid()
    && match step
       case Acquire(t, name) => s.threads[t].Ready? && !s.locked
       case AcquireFor(t) => s.threads[t].Wanting? && !s.locked
       case Look(t) => s.threads[t].Scanning? && 0 < s.threads[t].index
       case Claim(t, tid, pid) => s.threads[t].Claiming? && 1 <= s.threads[t].slot <= s.table.maxThreads
       case Unregister(t) => s.threads[t].Ready? && 1 <= s.threads[t].held <= s.table.maxThreads
       case Start(t, work) => s.threads[t].Ready? && work.counter < |s.ids|
       case FindRow(t) => s.threads[t].Finding? && s.threads[t].work.counter < |s.ids|
       case GiveUp(t) => s.threads[t].Failing? && s.threads[t].work.counter < |s.ids|
       case TestRow(t) => s.threads[t].Locating? && s.threads[t].work.counter < |s.ids|
       case ReadRow(t) =>
         && s.threads[t].Choosing? && s.threads[t].work.counter < |s.ids| && s.ids[s.threads[t].work.counter] >= 0
       case LoadCell(t) => s.threads[t].Pointing? && HasPlace(s.table, s.threads[t].row, s.threads[t].held)
       case StoreCell(t) =>
         && s.threads[t].Adding? && HasPlace(s.table, s.threads[t].row, s.threads[t].held)
         && s.threads[t].work.counter < |s.ids|
  }

  /** The cell of a row for a slot from one on. */
  function CellOf(table: Table, row: nat, slot: nat): (i: nat)
    requires table.Valid() && 1 <= row <= table.maxCounters && 1 <= slot <= table.maxThreads
    ensures i < |table.data|
  {
    CellsInGrid(row, slot, table.maxThreads, table.maxCounters);
    CellIndex(row, slot, table.maxThreads)
  }

  lemma PlacesInReach(row: nat, slot: nat, maxThreads: nat, maxCounters: nat)
    requires row <= maxCounters && slot <= maxThreads
    ensures 0 <= CellIndex(row, slot, maxThreads) + maxThreads + 1
    ensures row == 0 ==> CellIndex(row, slot, maxThreads) < 0
    ensures row > 0 && slot > 0 ==> CellIndex(row, slot, maxThreads) < maxThreads * maxCounters
    ensures row > 1 && slot == 0 && maxThreads > 0 ==> CellIndex(row, 0, maxThreads) == CellIndex(row - 1, maxThreads, maxThreads)
    ensures (row == 1 || maxThreads == 0) && slot == 0 ==> CellIndex(row, slot, maxThreads) < 0
  {
    if row == 0 {
      NextRow(-1, maxThreads);
    } else {
      RowsGrow(0, row - 1, maxThreads);
      if slot > 0 {
        CellsInGrid(row, slot, maxThreads, maxCounters);
      } else if row > 1 {
        NextRow(row - 2, maxThreads);
      }
    }
  }

  /** The place `GetLocation` gives: for slot 0 it is the last cell of the row before, or the int
      in front of the grid; for row 0 it is an int in front of the grid. */
  function PlaceOf(table: Table, row: nat, slot: nat): (i: int)
    requires table.Valid() && HasPlace(table, row, slot)
    ensures -|table.front| <= i < |table.data|
    ensures row > 0 && slot > 0 ==> i == CellOf(table, row, slot)
    ensures row > 0 && slot == 0 && i >= 0 ==> row > 1 && table.maxThreads > 0 && i == CellOf(table, row - 1, table.maxThreads)
    ensures row == 0 ==> i < 0
  {
    hide CellIndex;
    PlacesInReach(row, slot, table.maxThreads, table.maxCounters);
    RowsGrow(0, table.maxThreads, table.maxCounters);
    assert row > 1 && slot == 0 && table.maxThreads > 0 ==>
        CellIndex(row, 0, table.maxThreads) == CellOf(table, row - 1, table.maxThreads);
    CellIndex(row, slot, table.maxThreads)
  }

  function Peek(table: Table, i: int): int
    requires -|table.front| <= i < |table.data|
  {
    if i < 0 then table.front[-1 - i] else table.data[i]
  }

  function Poke(table: Table, i: int, x: int): Table
    requires -|table.front| <= i < |table.data|
  {
    if i < 0 then table.(front := table.front[-1 - i := x]) else table.(data := table.data[i := x])
  }

  /** Where a thread goes on once it has a slot. */
  function Resumed(slot: nat, resume: Option<Work>): Phase {
    if resume.Some? then Locating(slot, resume.value) else Ready(slot)
  }

  /** Where a thread goes on when there was no empty slot. */
  function Refused(held: nat, resume: Option<Work>): Phase {
    if resume.Some? then Failing(held, resume.value) else Ready(held)
  }

  function Claimed(table: Table, slot: nat, name: string, tid: int, pid: int): Table
    requires table.Valid() && 1 <= slot <= table.maxThreads
  {
    table.(names := table.names[slot - 1 := Stored(name, MAX_THREAD_NAME_LENGTH)],
           tids := table.tids[slot - 1 := tid], pids := table.pids[slot - 1 := pid])
  }

  /** What a thread does next; everything but its own phase is in `Apply`. */
  function NextPhase(s: State, step: Step): Phase
    requires IsEnabled(s, step)
  {
    var phase := s.threads[step.t];
    match step
    case Acquire(t, name) => Scanning(phase.held, name, 1, None)
    case AcquireFor(t) => Scanning(phase.held, "", 1, Some(phase.work))
    case Look(t) =>
      if phase.index > s.table.maxThreads then Refused(phase.held, phase.resume)
      else if s.table.names[phase.index - 1] == "" then Claiming(phase.held, phase.name, phase.index, phase.resume)
      else phase.(index := phase.index + 1)
    case Claim(t, tid, pid) => Resumed(phase.slot, phase.resume)
    case Unregister(t) => Ready(0)
    case Start(t, work) => if s.ids[work.counter] == -1 then Finding(phase.held, work) else Locating(phase.held, work)
    case FindRow(t) => if phase.held == 0 then Wanting(0, phase.work) else Locating(phase.held, phase.work)
    case GiveUp(t) => Ready(phase.held)
    case TestRow(t) => if s.ids[phase.work.counter] > 0 then Choosing(phase.held, phase.work) else Ready(phase.held)
    case ReadRow(t) =>
      if phase.held <= s.table.maxThreads then Pointing(phase.held, s.ids[phase.work.counter], phase.work)
      else Ready(phase.held)
    case LoadCell(t) => Adding(phase.held, phase.row, Peek(s.table, PlaceOf(s.table, phase.row, phase.held)), phase.work)
    case StoreCell(t) => Ready(phase.held)
  }

  function Apply(s: State, step: Step): State
    requires IsEnabled(s, step)
  {
    var phase := s.threads[step.t];
    var s' := s.(threads := s.threads[step.t := NextPhase(s, step)]);
    match step
    case Acquire(t, name) => s'.(locked := true)
    case AcquireFor(t) => s'.(locked := true)
    case Look(t) => if phase.index > s.table.maxThreads then s'.(locked := false) else s'
    case Claim(t, tid, pid) => s'.(table := Claimed(s.table, phase.slot, phase.name, tid, pid), locked := false)
    case Unregister(t) => s'.(table := s.table.(names := s.table.names[phase.held - 1 := ""]))
    case FindRow(t) => s'.(ids := s.ids[phase.work.counter := s.rowOf[phase.work.counter]])
    case GiveUp(t) => s'.(ids := s.ids[phase.work.counter := 0])
    case StoreCell(t) =>
      s'.(table := Poke(s.table, PlaceOf(s.table, phase.row, phase.held), Wrap32(phase.loaded + phase.work.delta)),
          completed := s.completed + [(s.rowOf[phase.work.counter], phase.work.delta)])
    case _ => s'
  }

  predicate CanRun(s: State, steps: seq<Step>)
    decreases |steps|
  {
    steps == [] || (IsEnabled(s, steps[0]) && CanRun(Apply(s, steps[0]), steps[1..]))
  }

  function Run(s: State, steps: seq<Step>): State
    requires CanRun(s, steps)
    decreases |steps|
  {
    if steps == [] then s else Run(Apply(s, steps[0]), steps[1..])
  }

  /** A name whose slot looks taken: not one that starts with a NUL character. */
  predicate IsVisible(name: string) {
    name == "" || name[0] != '\0'
  }

  predicate NamesAreVisible(steps: seq<Step>) {
    forall i :: 0 <= i < |steps| && steps[i].Acquire? ==> IsVisible(steps[i].name)
  }

  lemma StoredIsVisible(name: string, size: nat)
    requires 1 < size
    ensures Stored(name, size) != "" <==> IsVisible(name)
  {
  }

  /** A counter that no thread can use any more: the table has no row for it, or its cached row is
      zero and nobody is about to write another one. */
  predicate IsDead(s: State, c: nat)
    requires s.Valid() && c < |s.ids|
  {
    s.rowOf[c] == 0 ||
    (s.ids[c] == 0 && forall u :: 0 <= u < |s.threads| && s.threads[u].Finding? ==> s.threads[u].work.counter != c)
  }

  /** The thread that starts an addition has a slot, or is among the first to look the counter up;
      or the addition has no effect. */
  predicate MayStart(s: State, step: Step)
    requires IsEnabled(s, step)
  {
    step.Start? ==> s.threads[step.t].held >= 1 || s.ids[step.work.counter] == -1 || IsDead(s, step.work.counter)
  }

  /** A thread that is refused a slot does not clear the cached row between another thread's test
      of it and its second read. */
  predicate MayGiveUp(s: State, step: Step)
    requires IsEnabled(s, step)
  {
    step.GiveUp? ==>
      forall u :: 0 <= u < |s.threads| && s.threads[u].Choosing? ==> s.threads[u].work.counter != s.threads[step.t].work.counter
  }

  predicate StartInTime(s: State, steps: seq<Step>)
    requires CanRun(s, steps)
    decreases |steps|
  {
    steps == [] || (MayStart(s, steps[0]) && StartInTime(Apply(s, steps[0]), steps[1..]))
  }

  predicate NoneIsOvertaken(s: State, steps: seq<Step>)
    requires CanRun(s, steps)
    decreases |steps|
  {
    steps == [] || (MayGiveUp(s, steps[0]) && NoneIsOvertaken(Apply(s, steps[0]), steps[1..]))
  }

  predicate IsGuarded(s: State, steps: seq<Step>)
    requires CanRun(s, steps)
  {
    StartInTime(s, steps) && NoneIsOvertaken(s, steps)
  }

  /** The thread that starts an addition has a slot, or the addition has no effect. */
  predicate MayStartOrderly(s: State, step: Step)
    requires IsEnabled(s, step)
  {
    step.Start? ==> s.threads[step.t].held >= 1 || IsDead(s, step.work.counter)
  }

  predicate IsOrderly(s: State, steps: seq<Step>)
    requires CanRun(s, steps)
    decreases |steps|
  {
    steps == [] || (MayStartOrderly(s, steps[0]) && IsOrderly(Apply(s, steps[0]), steps[1..]))
  }

  // ---------------------------------------------------------------------------------
  // Sums
  // ---------------------------------------------------------------------------------

  /** The first `n` cells of a row added up. */
  function RowSum(table: Table, counter: nat, n: nat): int
    requires table.Valid() && 1 <= counter <= table.maxCounters && n <= table.maxThreads
  {
    if n == 0 then 0 else RowSum(table, counter, n - 1) + table.data[CellOf(table, counter, n)]
  }

  function CompletedSum(completed: seq<(nat, int)>, counter: nat): int {
    if completed == [] then 0
    else
      var last := completed[|completed| - 1];
      CompletedSum(completed[..|completed| - 1], counter) + if last.0 == counter then last.1 else 0
  }

  /** What `GetRowValue` returns for all processes. */
  function RowValue(table: Table, counter: nat): int
    requires table.Valid() && 1 <= counter <= table.maxCounters
  {
    Wrap32(RowSum(table, counter, table.maxThreads))
  }

  /** The cells of a row whose slots carry a process's id, or all of them for id zero. */
  function ProcessSum(table: Table, counter: nat, pid: int, n: nat): int
    requires table.Valid() && 1 <= counter <= table.maxCounters && n <= table.maxThreads
  {
    if n == 0 then 0
    else
      ProcessSum(table, counter, pid, n - 1) +
      if pid == 0 || table.pids[n - 1] == pid then table.data[CellOf(table, counter, n)] else 0
  }

  lemma {:induction false} AllProcesses(table: Table, counter: nat, n: nat)
    requires table.Valid() && 1 <= counter <= table.maxCounters && n <= table.maxThreads
    ensures ProcessSum(table, counter, 0, n) == RowSum(table, counter, n)
  {
    hide CellOf;
    if n > 0 {
      AllProcesses(table, counter, n - 1);
    }
  }

  /** A store changes the sum of a process by what it changes in a slot that carries the id. */
  lemma {:induction false} ProcessSumUpdate(table: Table, counter: nat, pid: int, n: nat, slot: nat, x: int)
    requires table.Valid() && 1 <= counter <= table.maxCounters && n <= table.maxThreads && 1 <= slot <= table.maxThreads
    ensures var cell := CellOf(table, counter, slot);
            ProcessSum(table.(data := table.data[cell := x]), counter, pid, n) ==
            ProcessSum(table, counter, pid, n) +
            if slot <= n && (pid == 0 || table.pids[slot - 1] == pid) then x - table.data[cell] else 0
  {
    if n > 0 {
      ProcessSumUpdate(table, counter, pid, n - 1, slot, x);
      if CellOf(table, counter, n) == CellOf(table, counter, slot) {
        CellsDiffer(counter, n, counter, slot, table.maxThreads);
      }
      hide CellIndex;
    }
  }

  lemma {:induction false} ProcessSumOfZeros(table: Table, counter: nat, pid: int, n: nat)
    requires table.Valid() && 1 <= counter <= table.maxCounters && n <= table.maxThreads
    requires forall i :: 0 <= i < |table.data| ==> table.data[i] == 0
    ensures ProcessSum(table, counter, pid, n) == 0
  {
    hide CellOf;
    if n > 0 {
      ProcessSumOfZeros(table, counter, pid, n - 1);
    }
  }

  method GetRowValue(table: Table, index: nat, pid: int) returns (rv: int)
    requires table.Valid() && 1 <= index <= table.maxCounters
    ensures rv == Wrap32(ProcessSum(table, index, pid, table.maxThreads))
    ensures pid == 0 ==> rv == RowValue(table, index)
  {
    hide CellOf;
    AllProcesses(table, index, table.maxThreads);
    rv := 0;
    for slot := 0 to table.maxThreads
      invariant rv == Wrap32(ProcessSum(table, index, pid, slot))
    {
      if pid == 0 || table.pids[slot] == pid {
        var sum := rv + table.data[CellOf(table, index, slot + 1)];
        WrapSame(sum, ProcessSum(table, index, pid, slot + 1));
        rv := Wrap32(sum);
      }
    }
  }

  lemma {:induction false} RowSumUpdate(table: Table, counter: nat, n: nat, row: nat, slot: nat, x: int)
    requires table.Valid() && 1 <= counter <= table.maxCounters && n <= table.maxThreads
    requires 1 <= row <= table.maxCounters && 1 <= slot <= table.maxThreads
    ensures var cell := CellOf(table, row, slot);
            RowSum(table.(data := table.data[cell := x]), counter, n) ==
            RowSum(table, counter, n) + if row == counter && slot <= n then x - table.data[cell] else 0
  {
    if n > 0 {
      RowSumUpdate(table, counter, n - 1, row, slot, x);
      if CellOf(table, counter, n) == CellOf(table, row, slot) {
        CellsDiffer(counter, n, row, slot, table.maxThreads);
      }
      hide CellIndex;
    }
  }

  lemma {:induction false} RowSumSame(table: Table, other: Table, counter: nat, n: nat)
    requires table.Valid() && other.Valid() && 1 <= counter <= table.maxCounters && n <= table.maxThreads
    requires table.data == other.data && table.maxThreads == other.maxThreads && table.maxCounters == other.maxCounters
    ensures RowSum(table, counter, n) == RowSum(other, counter, n)
  {
    if n > 0 {
      hide CellIndex;
      RowSumSame(table, other, counter, n - 1);
    }
  }

  // ---------------------------------------------------------------------------------
  // The invariant
  // ---------------------------------------------------------------------------------

  predicate PhaseHolds(table: Table, rowOf: seq<nat>, phase: Phase)
    requires table.Valid()
  {
    && phase.held <= table.maxThreads
    && (phase.held > 0 ==> table.names[phase.held - 1] != "")
    && (phase.InHand().Some? ==> phase.InHand().value.counter < |rowOf|)
    && match phase
       case Wanting(held, work) => held == 0
       case Failing(held, work) => held == 0
       case Scanning(held, name, index, resume) =>
         1 <= index <= table.maxThreads + 1 && IsVisible(name) && (resume.Some? ==> held == 0)
       case Claiming(held, name, slot, resume) =>
         && 1 <= slot <= table.maxThreads && table.names[slot - 1] == "" && IsVisible(name)
         && (resume.Some? ==> held == 0)
       case Pointing(held, row, work) => 0 < held && 1 <= row <= table.maxCounters && row == rowOf[work.counter]
       case Adding(held, row, loaded, work) =>
         && 0 < held && 1 <= row <= table.maxCounters && row == rowOf[work.counter]
         && table.data[CellOf(table, row, held)] == loaded
       case _ => true
  }

  /** No two threads hold one slot, and exactly one has the lock if it is taken. */
  predicate Exclusive(s: State) {
    && (forall t, u :: 0 <= t < |s.threads| && 0 <= u < |s.threads| && t != u && s.threads[t].held > 0
          ==> s.threads[u].held != s.threads[t].held)
    && (forall t, u :: 0 <= t < |s.threads| && 0 <= u < |s.threads| && t != u && s.threads[t].HasLock()
          ==> !s.threads[u].HasLock())
    && (s.locked <==> exists t :: 0 <= t < |s.threads| && s.threads[t].HasLock())
  }

  /** Every row adds up to the additions completed on it. */
  predicate Conserved(s: State)
    requires s.table.Valid()
  {
    forall counter :: 1 <= counter <= s.table.maxCounters ==>
      (RowSum(s.table, counter, s.table.maxThreads) - CompletedSum(s.completed, counter)) % 0x1_0000_0000 == 0
  }

  predicate TableHolds(s: State) {
    && s.Valid()
    && (forall t :: 0 <= t < |s.threads| ==> PhaseHolds(s.table, s.rowOf, s.threads[t]))
    && Exclusive(s) && Conserved(s)
  }

  /** A cached row is what the table answers, or zero. */
  predicate AreCached(s: State) {
    && s.Valid()
    && (forall c :: 0 <= c < |s.ids| ==> s.rowOf[c] <= s.table.maxCounters)
    && (forall c :: 0 <= c < |s.ids| ==> s.ids[c] == -1 || s.ids[c] == 0 || s.ids[c] == s.rowOf[c])
  }

  /** A thread without a slot is about to read a cached row only if that is zero for good. */
  predicate HaveSlots(s: State)
    requires s.Valid()
  {
    forall t :: 0 <= t < |s.threads| && s.threads[t].Locating? && s.threads[t].held == 0 ==>
      s.threads[t].work.counter < |s.ids| && IsDead(s, s.threads[t].work.counter)
  }

  /** A thread that has tested a cached row has a slot, and the row is still cached. */
  predicate AreTested(s: State)
    requires s.Valid()
  {
    forall t :: 0 <= t < |s.threads| && s.threads[t].Choosing? ==>
      && s.threads[t].held > 0 && s.threads[t].work.counter < |s.ids|
      && s.ids[s.threads[t].work.counter] == s.rowOf[s.threads[t].work.counter] > 0
  }

  predicate Holds(s: State) {
    TableHolds(s) && AreCached(s) && HaveSlots(s) && AreTested(s)
  }

  predicate AreRows(rowOf: seq<nat>, maxCounters: nat) {
    forall c :: 0 <= c < |rowOf| ==> rowOf[c] <= maxCounters
  }

  lemma InitialHolds(maxThreads: nat, maxCounters: nat, threads: nat, rowOf: seq<nat>)
    requires AreRows(rowOf, maxCounters)
    ensures Holds(Initial(maxThreads, maxCounters, threads, rowOf))
  {
    var s := Initial(maxThreads, maxCounters, threads, rowOf);
    RowsGrow(0, maxThreads, maxCounters);
    forall counter | 1 <= counter <= maxCounters ensures RowSum(s.table, counter, maxThreads) == 0 {
      ZeroRow(s.table, counter, maxThreads);
    }
  }

  lemma {:induction false} ZeroRow(table: Table, counter: nat, n: nat)
    requires table.Valid() && 1 <= counter <= table.maxCounters && n <= table.maxThreads
    requires forall i :: 0 <= i < |table.data| ==> table.data[i] == 0
    ensures RowSum(table, counter, n) == 0
  {
    if n > 0 {
      hide CellOf;
      ZeroRow(table, counter, n - 1);
    }
  }

  /** Steps that leave the data alone keep the sums. */
  lemma SameDataConserved(s: State, s': State)
    requires s.table.Valid() && s'.table.Valid() && Conserved(s)
    requires s'.table.data == s.table.data && s'.completed == s.completed
    requires s'.table.maxThreads == s.table.maxThreads && s'.table.maxCounters == s.table.maxCounters
    ensures Conserved(s')
  {
    forall counter | 1 <= counter <= s.table.maxCounters
      ensures RowSum(s'.table, counter, s.table.maxThreads) == RowSum(s.table, counter, s.table.maxThreads)
    {
      RowSumSame(s'.table, s.table, counter, s.table.maxThreads);
    }
  }

  predicate SameShape(table: Table, other: Table) {
    table.Valid() && other.Valid() && table.maxThreads == other.maxThreads && table.maxCounters == other.maxCounters
  }

  /** A phase after a change of slot names that leaves its own slots as they were. */
  lemma PhaseAfterNames(table: Table, other: Table, rowOf: seq<nat>, phase: Phase)
    requires SameShape(table, other) && other.data == table.data && PhaseHolds(table, rowOf, phase)
    requires phase.held > 0 ==> other.names[phase.held - 1] != ""
    requires phase.Claiming? ==> other.names[phase.slot - 1] == ""
    ensures PhaseHolds(other, rowOf, phase)
  {
    hide Phase.InHand;
  }

  /** A phase after a store to a cell that is not its own. */
  lemma PhaseAfterStore(table: Table, other: Table, rowOf: seq<nat>, phase: Phase, cell: nat, x: int)
    requires SameShape(table, other) && other.names == table.names && PhaseHolds(table, rowOf, phase)
    requires cell < |table.data| && other.data == table.data[cell := x]
    requires phase.Adding? ==> CellOf(table, phase.row, phase.held) != cell
    ensures PhaseHolds(other, rowOf, phase)
  {
    hide Phase.InHand;
  }

  /** The lock is taken when it was free, released, or left alone. */
  predicate LockMoves(s: State, s': State, t: nat)
    requires t < |s.threads| == |s'.threads|
  {
    if s'.threads[t].HasLock() then s'.locked && (s.threads[t].HasLock() || !s.locked)
    else s'.locked == (s.locked && !s.threads[t].HasLock())
  }

  /** Slots and lock after a step of one thread: it keeps its slot, or has none now, or one that
      nobody had. */
  lemma ExclusiveKept(s: State, s': State, t: nat)
    requires Exclusive(s) && t < |s.threads| == |s'.threads| && s'.threads == s.threads[t := s'.threads[t]]
    requires LockMoves(s, s', t)
    requires s'.threads[t].held == s.threads[t].held || s'.threads[t].held == 0
             || forall u :: 0 <= u < |s.threads| ==> s.threads[u].held != s'.threads[t].held
    ensures Exclusive(s')
  {
    hide Phase.HasLock;
    if s'.locked && !s'.threads[t].HasLock() {
      var u :| 0 <= u < |s.threads| && s.threads[u].HasLock();
      assert s'.threads[u].HasLock();
    }
    forall u | 0 <= u < |s'.threads| && s'.threads[u].HasLock() ensures s'.locked {
      assert u != t ==> s.threads[u].HasLock() && s.locked;
    }
  }

  /** A step that changes only its thread, the lock and the cached rows. */
  lemma QuietKeeps(s: State, s': State, t: nat)
    requires TableHolds(s) && t < |s.threads| == |s'.threads|
    requires s'.Valid() && s'.table == s.table && s'.rowOf == s.rowOf && s'.completed == s.completed
    requires s'.threads == s.threads[t := s'.threads[t]] && s'.threads[t].held == s.threads[t].held
    requires PhaseHolds(s.table, s.rowOf, s'.threads[t]) && LockMoves(s, s', t)
    ensures TableHolds(s')
  {
    hide Conserved, PhaseHolds, Exclusive, LockMoves;
    ExclusiveKept(s, s', t);
    SameDataConserved(s, s');
  }

  lemma QuietStep(s: State, step: Step)
    requires Holds(s) && IsEnabled(s, step) && (step.Acquire? ==> IsVisible(step.name))
    requires !step.Claim? && !step.Unregister? && !step.StoreCell?
    ensures TableHolds(Apply(s, step))
  {
    var s' := Apply(s, step);
    var phase := s.threads[step.t];
    assert PhaseHolds(s.table, s.rowOf, phase);
    assert LockMoves(s, s', step.t) by { hide PhaseHolds, Conserved; }
    NextHolds(s, step);
    hide Conserved, PhaseHolds, Exclusive, LockMoves, NextPhase;
    assert s'.threads[step.t].held == phase.held by { NextHeld(s, step); }
    QuietKeeps(s, s', step.t);
  }

  lemma NextHeld(s: State, step: Step)
    requires IsEnabled(s, step) && !step.Claim? && !step.Unregister?
    ensures NextPhase(s, step).held == s.threads[step.t].held
  {
  }

  lemma NextHolds(s: State, step: Step)
    requires Holds(s) && IsEnabled(s, step) && (step.Acquire? ==> IsVisible(step.name))
    requires !step.Claim? && !step.Unregister? && !step.StoreCell?
    ensures PhaseHolds(s.table, s.rowOf, NextPhase(s, step))
  {
    hide Conserved, Exclusive, CellOf;
    assert PhaseHolds(s.table, s.rowOf, s.threads[step.t]);
  }

  /** The slot was empty when it was found, and stays so: only the holder of the lock fills
      slots. */
  lemma ClaimStep(s: State, step: Step)
    requires TableHolds(s) && IsEnabled(s, step) && step.Claim?
    ensures TableHolds(Apply(s, step))
  {
    hide Conserved, CellOf, Stored, Phase.InHand;
    var s' := Apply(s, step);
    var phase := s.threads[step.t];
    assert PhaseHolds(s.table, s.rowOf, phase);
    StoredIsVisible(phase.name, MAX_THREAD_NAME_LENGTH);
    forall u | 0 <= u < |s.threads| && u != step.t ensures PhaseHolds(s'.table, s.rowOf, s'.threads[u]) {
      PhaseAfterNames(s.table, s'.table, s.rowOf, s.threads[u]);
    }
    forall u | 0 <= u < |s.threads| && s.threads[u].held > 0 ensures s.threads[u].held != phase.slot {
      assert PhaseHolds(s.table, s.rowOf, s.threads[u]);
    }
    ResumedHolds(s'.table, s.rowOf, phase.slot, phase);
    ExclusiveKept(s, s', step.t);
    SameDataConserved(s, s');
  }

  lemma ResumedHolds(table: Table, rowOf: seq<nat>, slot: nat, phase: Phase)
    requires table.Valid() && 1 <= slot <= table.maxThreads && table.names[slot - 1] != ""
    requires phase.Claiming? && (phase.InHand().Some? ==> phase.InHand().value.counter < |rowOf|)
    ensures PhaseHolds(table, rowOf, Resumed(slot, phase.resume)) && !Resumed(slot, phase.resume).HasLock()
  {
  }

  lemma UnregisterStep(s: State, step: Step)
    requires TableHolds(s) && IsEnabled(s, step) && step.Unregister?
    ensures TableHolds(Apply(s, step))
  {
    hide Conserved, CellOf;
    var s' := Apply(s, step);
    forall u | 0 <= u < |s.threads| && u != step.t ensures PhaseHolds(s'.table, s.rowOf, s'.threads[u]) {
      assert PhaseHolds(s.table, s.rowOf, s.threads[u]) && PhaseHolds(s.table, s.rowOf, s.threads[step.t]);
      PhaseAfterNames(s.table, s'.table, s.rowOf, s.threads[u]);
    }
    ExclusiveKept(s, s', step.t);
    SameDataConserved(s, s');
  }

  /** What a store does. */
  lemma StoreEffect(s: State, t: nat)
    requires TableHolds(s) && IsEnabled(s, StoreCell(t))
    ensures t < |s.threads| && s.threads[t].Adding? && PhaseHolds(s.table, s.rowOf, s.threads[t])
    ensures var phase := s.threads[t];
            Apply(s, StoreCell(t)) ==
            s.(table := s.table.(data := s.table.data[CellOf(s.table, phase.row, phase.held) := Wrap32(phase.loaded + phase.work.delta)]),
               threads := s.threads[t := Ready(phase.held)],
               completed := s.completed + [(s.rowOf[phase.work.counter], phase.work.delta)])
  {
    hide Conserved, Exclusive, CellOf, Wrap32;
    assert PhaseHolds(s.table, s.rowOf, s.threads[t]);
  }

  /** Nobody else wrote the cell since it was loaded, so the addition is not lost. */
  lemma StoreStep(s: State, step: Step)
    requires TableHolds(s) && IsEnabled(s, step) && step.StoreCell?
    ensures TableHolds(Apply(s, step))
  {
    hide CellOf, Apply, IsEnabled, Conserved, Wrap32;
    StoreEffect(s, step.t);
    var s' := Apply(s, step);
    var phase := s.threads[step.t];
    forall u | 0 <= u < |s.threads| && u != step.t ensures PhaseHolds(s'.table, s.rowOf, s'.threads[u]) {
      assert PhaseHolds(s.table, s.rowOf, s.threads[u]);
      if s.threads[u].Adding? {
        CellsOfSlots(s.table, s.threads[u].row, s.threads[u].held, phase.row, phase.held);
      }
      PhaseAfterStore(s.table, s'.table, s.rowOf, s.threads[u], CellOf(s.table, phase.row, phase.held),
                      Wrap32(phase.loaded + phase.work.delta));
    }
    StoreConserves(s, phase);
    ConservedAlike(s.(table := s'.table, completed := s'.completed), s');
    ExclusiveKept(s, s', step.t);
  }

  lemma ConservedAlike(s: State, s': State)
    requires s.table == s'.table && s.completed == s'.completed && s.table.Valid() && Conserved(s)
    ensures Conserved(s')
  {
  }

  lemma StoreConserves(s: State, phase: Phase)
    requires s.Valid() && Conserved(s) && phase.Adding? && PhaseHolds(s.table, s.rowOf, phase)
    ensures var cell := CellOf(s.table, phase.row, phase.held);
            Conserved(s.(table := s.table.(data := s.table.data[cell := Wrap32(phase.loaded + phase.work.delta)]),
                         completed := s.completed + [(s.rowOf[phase.work.counter], phase.work.delta)]))
  {
    hide CellOf, Wrap32, CompletedSum, RowSum;
    var delta := phase.work.delta;
    var completed := s.completed + [(phase.row, delta)];
    var table := s.table.(data := s.table.data[CellOf(s.table, phase.row, phase.held) := Wrap32(phase.loaded + delta)]);
    forall counter | 1 <= counter <= s.table.maxCounters
      ensures (RowSum(table, counter, s.table.maxThreads) - CompletedSum(completed, counter)) % 0x1_0000_0000 == 0
    {
      assert (RowSum(s.table, counter, s.table.maxThreads) - CompletedSum(s.completed, counter)) % 0x1_0000_0000 == 0;
      RowSumUpdate(s.table, counter, s.table.maxThreads, phase.row, phase.held, Wrap32(phase.loaded + delta));
      CompletedStep(s.completed, (phase.row, delta), counter);
      SumsMove(RowSum(s.table, counter, s.table.maxThreads), CompletedSum(s.completed, counter), phase.loaded, delta);
    }
  }

  lemma SumsMove(row: int, completed: int, loaded: int, delta: int)
    requires (row - completed) % 0x1_0000_0000 == 0
    ensures (row + (Wrap32(loaded + delta) - loaded) - (completed + delta)) % 0x1_0000_0000 == 0
  {
  }

  lemma CellsOfSlots(table: Table, counter: nat, slot: nat, other: nat, otherSlot: nat)
    requires table.Valid() && 1 <= counter <= table.maxCounters && 1 <= other <= table.maxCounters
    requires 1 <= slot <= table.maxThreads && 1 <= otherSlot <= table.maxThreads && slot != otherSlot
    ensures CellOf(table, counter, slot) != CellOf(table, other, otherSlot)
  {
    if CellOf(table, counter, slot) == CellOf(table, other, otherSlot) {
      CellsDiffer(counter, slot, other, otherSlot, table.maxThreads);
    }
  }

  lemma CompletedStep(completed: seq<(nat, int)>, last: (nat, int), counter: nat)
    ensures CompletedSum(completed + [last], counter) ==
            CompletedSum(completed, counter) + if last.0 == counter then last.1 else 0
  {
    assert (completed + [last])[..|completed|] == completed;
  }

  // ---------------------------------------------------------------------------------
  // Cached rows
  // ---------------------------------------------------------------------------------

  /** What a step does to the threads and the cached rows. */
  lemma StepFrame(s: State, step: Step)
    requires IsEnabled(s, step)
    ensures var s' := Apply(s, step);
            && s'.threads == s.threads[step.t := NextPhase(s, step)] && s'.rowOf == s.rowOf && |s'.ids| == |s.ids|
            && SameShape(s.table, s'.table)
    ensures step.FindRow? ==> Apply(s, step).ids == s.ids[s.threads[step.t].work.counter := s.rowOf[s.threads[step.t].work.counter]]
    ensures step.GiveUp? ==> Apply(s, step).ids == s.ids[s.threads[step.t].work.counter := 0]
    ensures !step.FindRow? && !step.GiveUp? ==> Apply(s, step).ids == s.ids
  {
    hide NextPhase, Peek, PlaceOf;
  }

  /** Only a start makes a thread look a row up. */
  lemma FindingComesFrom(s: State, step: Step)
    requires IsEnabled(s, step) && NextPhase(s, step).Finding?
    ensures step.Start? && NextPhase(s, step).work == step.work && s.ids[step.work.counter] == -1
  {
    hide Peek, PlaceOf;
  }

  /** Once no thread can use a counter, none ever can. */
  lemma DeadStays(s: State, step: Step, c: nat)
    requires AreCached(s) && IsEnabled(s, step) && c < |s.ids| && IsDead(s, c)
    ensures IsDead(Apply(s, step), c)
  {
    var s' := Apply(s, step);
    StepFrame(s, step);
    if NextPhase(s, step).Finding? { FindingComesFrom(s, step); }
    assert step.FindRow? ==> s.threads[step.t].Finding?;
    hide Apply, NextPhase, IsEnabled;
    forall u | 0 <= u < |s'.threads| && s'.threads[u].Finding? && s.rowOf[c] > 0 ensures s'.threads[u].work.counter != c {
      if u != step.t { assert s'.threads[u] == s.threads[u]; }
    }
  }

  lemma CachedStep(s: State, step: Step)
    requires AreCached(s) && IsEnabled(s, step)
    ensures AreCached(Apply(s, step)) && |Apply(s, step).ids| == |s.ids|
  {
    StepFrame(s, step);
    hide Apply, NextPhase;
  }

  lemma SlotsStep(s: State, step: Step)
    requires Holds(s) && IsEnabled(s, step) && MayStart(s, step)
    ensures Apply(s, step).Valid() && HaveSlots(Apply(s, step))
  {
    CachedStep(s, step);
    StepFrame(s, step);
    var s' := Apply(s, step);
    if NextPhase(s, step).Locating? && NextPhase(s, step).held == 0 { LocatingComesFrom(s, step); }
    hide TableHolds, IsDead, Apply, NextPhase, IsEnabled, AreTested, AreCached;
    forall u | 0 <= u < |s'.threads| && s'.threads[u].Locating? && s'.threads[u].held == 0
      ensures s'.threads[u].work.counter < |s.ids| && IsDead(s', s'.threads[u].work.counter)
    {
      if u != step.t { assert s'.threads[u] == s.threads[u]; }
      DeadStays(s, step, s'.threads[u].work.counter);
    }
  }

  /** A thread without a slot that is about to read a cached row has just started. */
  lemma LocatingComesFrom(s: State, step: Step)
    requires IsEnabled(s, step) && NextPhase(s, step).Locating? && NextPhase(s, step).held == 0
    ensures step.Start? && NextPhase(s, step).work == step.work && s.ids[step.work.counter] != -1
    ensures s.threads[step.t].held == 0
  {
  }

  /** A row that was tested stays cached until it is read. */
  lemma TestedStep(s: State, step: Step)
    requires Holds(s) && IsEnabled(s, step) && MayGiveUp(s, step)
    ensures Apply(s, step).Valid() && AreTested(Apply(s, step))
  {
    CachedStep(s, step);
    StepFrame(s, step);
    var s' := Apply(s, step);
    if NextPhase(s, step).Choosing? {
      ChoosingComesFrom(s, step);
      PositiveIsHeld(s, step.t);
    }
    hide TableHolds, AreCached, HaveSlots, Apply, NextPhase;
    forall u | 0 <= u < |s'.threads| && s'.threads[u].Choosing?
      ensures s'.threads[u].held > 0 && s'.threads[u].work.counter < |s.ids|
      ensures s'.ids[s'.threads[u].work.counter] == s.rowOf[s'.threads[u].work.counter] > 0
    {
      if u != step.t { assert s'.threads[u] == s.threads[u]; }
    }
  }

  /** A thread that finds a positive row has a slot. */
  lemma PositiveIsHeld(s: State, t: nat)
    requires AreCached(s) && HaveSlots(s) && t < |s.threads| && s.threads[t].Locating? && s.threads[t].work.counter < |s.ids|
    ensures s.ids[s.threads[t].work.counter] > 0 ==>
      s.threads[t].held > 0 && s.ids[s.threads[t].work.counter] == s.rowOf[s.threads[t].work.counter]
  {
  }

  lemma ChoosingComesFrom(s: State, step: Step)
    requires IsEnabled(s, step) && NextPhase(s, step).Choosing?
    ensures step.TestRow? && s.threads[step.t] == Locating(NextPhase(s, step).held, NextPhase(s, step).work)
    ensures s.ids[NextPhase(s, step).work.counter] > 0 && Apply(s, step).ids == s.ids
  {
  }

  lemma StepKeeps(s: State, step: Step)
    requires Holds(s) && IsEnabled(s, step) && MayStart(s, step) && MayGiveUp(s, step)
    requires step.Acquire? ==> IsVisible(step.name)
    ensures Holds(Apply(s, step))
  {
    CachedStep(s, step);
    SlotsStep(s, step);
    TestedStep(s, step);
    hide TableHolds, AreCached, HaveSlots, AreTested, Apply, IsEnabled, IsVisible;
    if step.Claim? {
      ClaimStep(s, step);
    } else if step.Unregister? {
      UnregisterStep(s, step);
    } else if step.StoreCell? {
      StoreStep(s, step);
    } else {
      QuietStep(s, step);
    }
  }

  /** The next step of a thread in the middle of an operation. */
  function NextStep(phase: Phase, t: nat, tid: int, pid: int): Step {
    match phase
    case Scanning(_, _, _, _) => Look(t)
    case Claiming(_, _, _, _) => Claim(t, tid, pid)
    case Finding(_, _) => FindRow(t)
    case Wanting(_, _) => AcquireFor(t)
    case Failing(_, _) => GiveUp(t)
    case Locating(_, _) => TestRow(t)
    case Choosing(_, _) => ReadRow(t)
    case Pointing(_, _, _) => LoadCell(t)
    case Adding(_, _, _, _) => StoreCell(t)
    case Ready(_) => Unregister(t)
  }

  /** A thread in the middle of an operation can always go on, but for one that waits for the
      lock; then the thread that has it can. */
  lemma NoThreadIsBlocked(s: State, t: nat, tid: int, pid: int)
    requires Holds(s) && t < |s.threads|
    ensures !s.threads[t].Wanting? && (s.threads[t].Ready? ==> s.threads[t].held > 0) ==>
      IsEnabled(s, NextStep(s.threads[t], t, tid, pid))
    ensures s.threads[t].Wanting? ==>
      IsEnabled(s, AcquireFor(t)) ||
      exists u :: 0 <= u < |s.threads| && s.threads[u].HasLock() && IsEnabled(s, NextStep(s.threads[u], u, tid, pid))
  {
    hide Conserved, CellOf;
    assert PhaseHolds(s.table, s.rowOf, s.threads[t]);
    if s.threads[t].Wanting? && s.locked {
      var u :| 0 <= u < |s.threads| && s.threads[u].HasLock();
      assert PhaseHolds(s.table, s.rowOf, s.threads[u]);
    }
  }

  lemma {:induction false} RunKeeps(s: State, steps: seq<Step>)
    requires Holds(s) && CanRun(s, steps) && IsGuarded(s, steps) && NamesAreVisible(steps)
    ensures Holds(Run(s, steps))
    decreases |steps|
  {
    if steps != [] {
      hide Holds, Apply, IsEnabled, MayStart, MayGiveUp;
      StepKeeps(s, steps[0]);
      RunKeeps(Apply(s, steps[0]), steps[1..]);
    }
  }

  lemma {:induction false} RunShape(s: State, steps: seq<Step>)
    requires CanRun(s, steps) && s.table.Valid()
    ensures SameShape(s.table, Run(s, steps).table)
    decreases |steps|
  {
    if steps != [] {
      StepFrame(s, steps[0]);
      hide Apply, IsEnabled;
      RunShape(Apply(s, steps[0]), steps[1..]);
    }
  }

  /** In every run in which each thread that starts an addition has a slot or is among the first to
      look the counter up, and no refusal falls between another thread's two reads of the cached
      row: live threads have slots of their own, and the value of every row is the sum of the
      additions that were completed on its counters, slots that were used again included. */
  lemma NoAdditionIsLost(maxThreads: nat, maxCounters: nat, threads: nat, rowOf: seq<nat>, steps: seq<Step>)
    requires AreRows(rowOf, maxCounters) && CanRun(Initial(maxThreads, maxCounters, threads, rowOf), steps)
    requires IsGuarded(Initial(maxThreads, maxCounters, threads, rowOf), steps) && NamesAreVisible(steps)
    ensures var s := Run(Initial(maxThreads, maxCounters, threads, rowOf), steps);
            && s.table.Valid() && Exclusive(s)
            && (forall counter :: 1 <= counter <= s.table.maxCounters ==>
                  RowValue(s.table, counter) == Wrap32(CompletedSum(s.completed, counter)))
  {
    InitialHolds(maxThreads, maxCounters, threads, rowOf);
    hide Initial, Run, CanRun, IsGuarded, Exclusive, Conserved, PhaseHolds, AreCached, HaveSlots, AreTested, RowValue;
    RunKeeps(Initial(maxThreads, maxCounters, threads, rowOf), steps);
    ConservedIsValue(Run(Initial(maxThreads, maxCounters, threads, rowOf), steps));
  }

  lemma ConservedIsValue(s: State)
    requires s.table.Valid() && Conserved(s)
    ensures forall counter :: 1 <= counter <= s.table.maxCounters ==>
      RowValue(s.table, counter) == Wrap32(CompletedSum(s.completed, counter))
  {
    hide RowSum, CompletedSum, Wrap32;
    forall counter | 1 <= counter <= s.table.maxCounters
      ensures RowValue(s.table, counter) == Wrap32(CompletedSum(s.completed, counter))
    {
      WrapSame(RowSum(s.table, counter, s.table.maxThreads), CompletedSum(s.completed, counter));
    }
  }

  // ---------------------------------------------------------------------------------
  // Chaining steps
  // ---------------------------------------------------------------------------------

  lemma RunFirst(s: State, step: Step, rest: seq<Step>)
    ensures CanRun(s, [step] + rest) <==> IsEnabled(s, step) && CanRun(Apply(s, step), rest)
    ensures CanRun(s, [step] + rest) ==> Run(s, [step] + rest) == Run(Apply(s, step), rest)
  {
    assert ([step] + rest)[1..] == rest;
  }

  lemma {:induction false} RunAppend(s: State, steps: seq<Step>, more: seq<Step>)
    requires CanRun(s, steps) && CanRun(Run(s, steps), more)
    ensures CanRun(s, steps + more) && Run(s, steps + more) == Run(Run(s, steps), more)
    decreases |steps|
  {
    hide Apply, IsEnabled;
    if steps == [] {
      assert steps + more == more;
    } else {
      var step, rest := steps[0], steps[1..];
      assert steps == [step] + rest && steps + more == [step] + (rest + more);
      RunFirst(s, step, rest);
      RunFirst(s, step, rest + more);
      hide CanRun, Run;
      RunAppend(Apply(s, step), rest, more);
    }
  }

  lemma RunNothing(s: State)
    ensures CanRun(s, []) && Run(s, []) == s
  {
  }

  /** The steps can be taken, additions are started by threads with slots, nobody's reads are
      overtaken, and they end in a state. */
  ghost predicate Leads(s: State, steps: seq<Step>, last: State) {
    CanRun(s, steps) && IsGuarded(s, steps) && IsOrderly(s, steps) && Run(s, steps) == last
  }

  lemma LeadsNowhere(s: State)
    ensures Leads(s, [], s)
  {
  }

  lemma LeadsFirst(s: State, step: Step, rest: seq<Step>, last: State)
    requires IsEnabled(s, step) && MayStartOrderly(s, step) && MayGiveUp(s, step) && Leads(Apply(s, step), rest, last)
    ensures Leads(s, [step] + rest, last)
  {
    assert MayStart(s, step);
    RunFirst(s, step, rest);
    assert ([step] + rest)[1..] == rest;
    hide IsEnabled, MayStart, MayStartOrderly, MayGiveUp, Apply;
  }

  lemma LeadsStep(s: State, steps: seq<Step>, last: State)
    requires Leads(s, steps, last) && steps != []
    ensures IsEnabled(s, steps[0]) && MayStartOrderly(s, steps[0]) && MayGiveUp(s, steps[0])
    ensures Leads(Apply(s, steps[0]), steps[1..], last)
  {
    hide IsEnabled, MayStart, MayStartOrderly, MayGiveUp, Apply;
  }

  lemma LeadsNone(s: State, last: State)
    requires Leads(s, [], last)
    ensures s == last
  {
  }

  lemma {:induction false} LeadsAppend(s: State, steps: seq<Step>, next: State, more: seq<Step>, last: State)
    requires Leads(s, steps, next) && Leads(next, more, last)
    ensures Leads(s, steps + more, last)
    decreases |steps|
  {
    hide IsEnabled, MayStartOrderly, MayGiveUp, Apply, Leads;
    if steps == [] {
      LeadsNone(s, next);
      assert steps + more == more;
    } else {
      LeadsStep(s, steps, next);
      LeadsAppend(Apply(s, steps[0]), steps[1..], next, more, last);
      LeadsFirst(s, steps[0], steps[1..] + more, last);
      assert [steps[0]] + (steps[1..] + more) == steps + more;
    }
  }

  /** Steps that start and clear nothing. */
  predicate IsPlain(steps: seq<Step>) {
    forall i :: 0 <= i < |steps| ==> !steps[i].Start? && !steps[i].GiveUp?
  }

  lemma {:induction false} PlainLeads(s: State, steps: seq<Step>)
    requires CanRun(s, steps) && IsPlain(steps)
    ensures Leads(s, steps, Run(s, steps))
    decreases |steps|
  {
    if steps == [] {
      LeadsNowhere(s);
    } else {
      hide IsEnabled, Apply, Leads;
      PlainLeads(Apply(s, steps[0]), steps[1..]);
      LeadsFirst(s, steps[0], steps[1..], Run(s, steps));
      assert [steps[0]] + steps[1..] == steps;
    }
  }

  // ---------------------------------------------------------------------------------
  // Additions that miss their row
  // ---------------------------------------------------------------------------------

  /** An addition at slot 0, or at row 0, lands outside its row. */
  lemma MisplacedStore(s: State, t: nat)
    requires s.Valid() && Conserved(s) && t < |s.threads| && s.threads[t].Adding? && s.threads[t].work.counter < |s.ids|
    requires HasPlace(s.table, s.threads[t].row, s.threads[t].held)
    requires 1 <= s.rowOf[s.threads[t].work.counter] <= s.table.maxCounters && s.threads[t].work.delta % 0x1_0000_0000 != 0
    requires s.threads[t].row == 0 || (s.threads[t].held == 0 && s.threads[t].row == s.rowOf[s.threads[t].work.counter])
    ensures IsEnabled(s, StoreCell(t)) && Apply(s, StoreCell(t)).table.Valid() && !Conserved(Apply(s, StoreCell(t)))
  {
    hide CellOf, Wrap32, CompletedSum, RowSum, Peek;
    var phase, row := s.threads[t], s.rowOf[s.threads[t].work.counter];
    var s' := Apply(s, StoreCell(t));
    var place, x := PlaceOf(s.table, phase.row, phase.held), Wrap32(phase.loaded + phase.work.delta);
    if place < 0 {
      RowSumSame(s'.table, s.table, row, s.table.maxThreads);
    } else {
      RowSumUpdate(s.table, row, s.table.maxThreads, row - 1, s.table.maxThreads, x);
    }
    assert RowSum(s'.table, row, s.table.maxThreads) == RowSum(s.table, row, s.table.maxThreads);
    CompletedStep(s.completed, (row, phase.work.delta), row);
    assert (RowSum(s.table, row, s.table.maxThreads) - CompletedSum(s.completed, row)) % 0x1_0000_0000 == 0;
    NotBoth(RowSum(s.table, row, s.table.maxThreads), CompletedSum(s.completed, row), phase.work.delta);
  }

  lemma NotBoth(row: int, completed: int, delta: int)
    requires (row - completed) % 0x1_0000_0000 == 0 && delta % 0x1_0000_0000 != 0
    ensures (row - (completed + delta)) % 0x1_0000_0000 != 0
  {
    var k, q, r := (row - completed) / 0x1_0000_0000, delta / 0x1_0000_0000, delta % 0x1_0000_0000;
    RemainderIs(row - (completed + delta), k - q - 1, 0x1_0000_0000 - r);
  }

  lemma RemainderIs(x: int, k: int, r: int)
    requires x == 0x1_0000_0000 * k + r && 0 <= r < 0x1_0000_0000
    ensures x % 0x1_0000_0000 == r
  {
  }

  lemma ThreeLead(s: State, a: Step, b: Step, c: Step, last: State)
    requires IsEnabled(s, a) && IsEnabled(Apply(s, a), b) && IsEnabled(Apply(Apply(s, a), b), c)
    requires IsPlain([a, b, c]) && last == Apply(Apply(Apply(s, a), b), c)
    ensures Leads(s, [a, b, c], last)
  {
    hide IsEnabled, Apply;
    var s1 := Apply(s, a);
    var s2 := Apply(s1, b);
    assert [c] + [] == [c] && [b] + [c] == [b, c] && [a] + [b, c] == [a, b, c];
    assert !a.Start? && !a.GiveUp? by { assert [a, b, c][0] == a; }
    assert !b.Start? && !b.GiveUp? by { assert [a, b, c][1] == b; }
    assert !c.Start? && !c.GiveUp? by { assert [a, b, c][2] == c; }
    hide Leads;
    LeadsNowhere(last);
    LeadsFirst(s2, c, [], last);
    LeadsFirst(s1, b, [c], last);
    LeadsFirst(s, a, [b, c], last);
  }

  /** From the second read of the cached row on, for a thread that reads a wrong row or has no
      slot: the addition is not in its row. */
  lemma WrongReadMisplaces(s: State, t: nat, held: nat, work: Work) returns (steps: seq<Step>, last: State)
    requires s.Valid() && Conserved(s) && t < |s.threads| && s.threads[t] == Choosing(held, work) && held <= s.table.maxThreads
    requires work.counter < |s.ids| && 1 <= s.rowOf[work.counter] <= s.table.maxCounters && work.delta % 0x1_0000_0000 != 0
    requires s.ids[work.counter] == 0 || (held == 0 && s.ids[work.counter] == s.rowOf[work.counter])
    ensures Leads(s, steps, last) && last.table.Valid() && !Conserved(last)
    ensures forall i :: 0 <= i < |steps| ==> !steps[i].Acquire?
  {
    hide Conserved, PlaceOf, Peek;
    var s1 := Apply(s, ReadRow(t));
    var s2 := Apply(s1, LoadCell(t));
    SameDataConserved(s, s2);
    assert s2.threads[t].Adding? && s2.threads[t].held == held && s2.threads[t].row == s.ids[work.counter] && s2.threads[t].work == work;
    MisplacedStore(s2, t);
    last := Apply(s2, StoreCell(t));
    hide IsEnabled, Apply;
    ThreeLead(s, ReadRow(t), LoadCell(t), StoreCell(t), last);
    steps := [ReadRow(t), LoadCell(t), StoreCell(t)];
  }

  /** A thread without a slot that is about to test a cached row completes its addition outside that
      row. */
  lemma SlotZeroMisplaces(s: State, t: nat, work: Work) returns (steps: seq<Step>, last: State)
    requires s.Valid() && Conserved(s) && t < |s.threads| && s.threads[t] == Locating(0, work)
    requires work.counter < |s.ids| && 1 <= s.ids[work.counter] == s.rowOf[work.counter] <= s.table.maxCounters
    requires work.delta % 0x1_0000_0000 != 0
    ensures Leads(s, steps, last) && last.table.Valid() && !Conserved(last)
    ensures forall i :: 0 <= i < |steps| ==> !steps[i].Acquire?
  {
    hide Conserved;
    var s1 := Apply(s, TestRow(t));
    SameDataConserved(s, s1);
    assert s1.threads[t] == Choosing(0, work);
    var rest;
    rest, last := WrongReadMisplaces(s1, t, 0, work);
    hide IsEnabled, Apply, Leads;
    LeadsFirst(s, TestRow(t), rest, last);
    steps := [TestRow(t)] + rest;
  }

  lemma {:induction false} DeadStaysInRun(s: State, steps: seq<Step>, c: nat)
    requires AreCached(s) && CanRun(s, steps) && c < |s.ids| && IsDead(s, c)
    ensures AreCached(Run(s, steps)) && c < |Run(s, steps).ids| && IsDead(Run(s, steps), c)
    decreases |steps|
  {
    if steps != [] {
      DeadStays(s, steps[0], c);
      CachedStep(s, steps[0]);
      hide AreCached, IsDead, Apply, IsEnabled;
      DeadStaysInRun(Apply(s, steps[0]), steps[1..], c);
    }
  }

  /** A thread that finds no empty slot ends the use of the counter for all threads, whether they
      have slots or not, unless another first lookup is under way: ever after, a thread that tests
      the cached row is given no location. */
  lemma RefusalIsForAll(s: State, t: nat, steps: seq<Step>, u: nat)
    requires AreCached(s) && IsEnabled(s, GiveUp(t)) && CanRun(Apply(s, GiveUp(t)), steps)
    requires var c := s.threads[t].work.counter;
             && (forall v :: 0 <= v < |s.threads| && s.threads[v].Finding? ==> s.threads[v].work.counter != c)
             && IsEnabled(Run(Apply(s, GiveUp(t)), steps), TestRow(u))
             && Run(Apply(s, GiveUp(t)), steps).threads[u].work.counter == c
    ensures var last := Run(Apply(s, GiveUp(t)), steps);
            Apply(last, TestRow(u)).threads[u] == Ready(last.threads[u].held)
  {
    var c := s.threads[t].work.counter;
    var s1 := Apply(s, GiveUp(t));
    CachedStep(s, GiveUp(t));
    assert IsDead(s1, c) by {
      forall v | 0 <= v < |s1.threads| && s1.threads[v].Finding? ensures s1.threads[v].work.counter != c {
        assert v != t ==> s1.threads[v] == s.threads[v];
      }
    }
    DeadStaysInRun(s1, steps, c);
  }

  // ---------------------------------------------------------------------------------
  // Names that start with a NUL character
  // ---------------------------------------------------------------------------------

  /** Registering under an invisible name leaves the slot looking empty. */
  lemma InvisibleClaim(s: State, t: nat, name: string) returns (steps: seq<Step>, last: State)
    requires s.Valid() && t < |s.threads| && s.threads[t] == Ready(0) && !s.locked
    requires s.table.maxThreads > 0 && s.table.names[0] == "" && !IsVisible(name)
    ensures Leads(s, steps, last) && NamesAreOf(steps, name)
    ensures last == s.(threads := s.threads[t := Ready(1)], table := last.table)
    ensures SameShape(last.table, s.table) && last.table.names == s.table.names && last.table.data == s.table.data
  {
    StoredIsVisible(name, MAX_THREAD_NAME_LENGTH);
    hide Stored;
    var s1 := Apply(s, Acquire(t, name));
    var s2 := Apply(s1, Look(t));
    last := Apply(s2, Claim(t, 0, 0));
    assert last.table.names == s.table.names;
    assert last.threads == s.threads[t := Ready(1)];
    hide Apply, IsEnabled;
    ThreeLead(s, Acquire(t, name), Look(t), Claim(t, 0, 0), last);
    steps := [Acquire(t, name), Look(t), Claim(t, 0, 0)];
  }

  /** A thread that holds slot 1 starts to add one to the only row, and loads the cell. */
  lemma LoadsFirst(s: State, t: nat) returns (steps: seq<Step>, last: State)
    requires s.Valid() && s.table.maxThreads > 0 && s.table.maxCounters > 0
    requires t < |s.threads| && s.threads[t] == Ready(1) && |s.ids| == 1 && s.rowOf == [1] && s.ids[0] in {-1, 1}
    ensures Leads(s, steps, last) && forall i :: 0 <= i < |steps| ==> !steps[i].Acquire?
    ensures last == s.(ids := [1], threads := s.threads[t := Adding(1, 1, s.table.data[CellOf(s.table, 1, 1)], Work(0, 1))])
  {
    hide CellOf;
    var work := Work(0, 1);
    var s1 := Apply(s, Start(t, work));
    var s2 := s.(ids := [1], threads := s.threads[t := Locating(1, work)]);
    if s.ids[0] == 1 {
      assert s1 == s2;
    } else {
      assert s1 == s.(threads := s.threads[t := Finding(1, work)]);
      assert Apply(s1, FindRow(t)) == s2;
    }
    LoadsAt(s2, t);
    last := s2.(threads := s2.threads[t := Adding(1, 1, s.table.data[CellOf(s.table, 1, 1)], work)]);
    assert s2.threads[t := last.threads[t]] == s.threads[t := last.threads[t]];
    hide IsEnabled, Apply, Leads;
    steps := [TestRow(t), ReadRow(t), LoadCell(t)];
    if s.ids[0] != 1 {
      LeadsFirst(s1, FindRow(t), steps, last);
      steps := [FindRow(t)] + steps;
    }
    LeadsFirst(s, Start(t, work), steps, last);
    steps := [Start(t, work)] + steps;
  }

  lemma LoadsAt(s: State, t: nat)
    requires s.Valid() && s.table.maxThreads > 0 && s.table.maxCounters > 0
    requires t < |s.threads| && s.threads[t] == Locating(1, Work(0, 1)) && s.ids == [1]
    ensures Leads(s, [TestRow(t), ReadRow(t), LoadCell(t)],
                  s.(threads := s.threads[t := Adding(1, 1, s.table.data[CellOf(s.table, 1, 1)], Work(0, 1))]))
  {
    hide CellOf;
    var s1 := Apply(s, TestRow(t));
    assert s1 == s.(threads := s.threads[t := Choosing(1, Work(0, 1))]);
    var s2 := Apply(s1, ReadRow(t));
    assert s2 == s.(threads := s.threads[t := Pointing(1, 1, Work(0, 1))]);
    var last := Apply(s2, LoadCell(t));
    assert last == s.(threads := s.threads[t := Adding(1, 1, s.table.data[CellOf(s.table, 1, 1)], Work(0, 1))]);
    hide IsEnabled, Apply;
    ThreeLead(s, TestRow(t), ReadRow(t), LoadCell(t), last);
  }

  /** Two threads on one slot: both load the cell before either stores. */
  lemma LostAddition(s: State) returns (steps: seq<Step>, last: State)
    requires s.Valid() && s.table.maxThreads > 0 && s.table.maxCounters > 0
    requires s.threads == [Ready(1), Ready(1)] && s.completed == [] && s.ids == [-1] && s.rowOf == [1]
    requires forall i :: 0 <= i < |s.table.data| ==> s.table.data[i] == 0
    ensures Leads(s, steps, last) && last.table.Valid() && !Conserved(last)
    ensures forall i :: 0 <= i < |steps| ==> !steps[i].Acquire?
  {
    hide Conserved, CellOf, Leads;
    var first, s1 := LoadsFirst(s, 0);
    var second, s2 := LoadsFirst(s1, 1);
    assert s2 == s.(ids := [1], threads := [Adding(1, 1, 0, Work(0, 1)), Adding(1, 1, 0, Work(0, 1))]);
    BothStore(s2);
    last := Apply(Apply(s2, StoreCell(0)), StoreCell(1));
    OneOfTwo(s.table, last);
    hide IsEnabled, Apply;
    LeadsNowhere(last);
    LeadsFirst(Apply(s2, StoreCell(0)), StoreCell(1), [], last);
    LeadsFirst(s2, StoreCell(0), [StoreCell(1)] + [], last);
    var stores := [StoreCell(0)] + ([StoreCell(1)] + []);
    LeadsAppend(s1, second, s2, stores, last);
    LeadsAppend(s, first, s1, second + stores, last);
    steps := first + (second + stores);
  }

  lemma BothStore(s: State)
    requires s.Valid() && s.table.maxThreads > 0 && s.table.maxCounters > 0 && s.completed == [] && s.rowOf == [1]
    requires s.threads == [Adding(1, 1, 0, Work(0, 1)), Adding(1, 1, 0, Work(0, 1))]
    ensures IsEnabled(s, StoreCell(0)) && IsEnabled(Apply(s, StoreCell(0)), StoreCell(1))
    ensures var s' := Apply(Apply(s, StoreCell(0)), StoreCell(1));
            && s'.table == s.table.(data := s.table.data[CellOf(s.table, 1, 1) := 1])
            && s'.completed == [(1, 1)] + [(1, 1)]
  {
    hide CellIndex, CellOf;
    var cell := CellOf(s.table, 1, 1);
    var s1 := Apply(s, StoreCell(0));
    assert s1.table == s.table.(data := s.table.data[cell := 1]);
    assert s1.threads[1] == Adding(1, 1, 0, Work(0, 1));
    assert CellOf(s1.table, 1, 1) == cell by { SameCell(s.table, s1.table); }
    assert s.table.data[cell := 1][cell := 1] == s.table.data[cell := 1];
  }

  lemma SameCell(table: Table, other: Table)
    requires SameShape(table, other) && table.maxThreads > 0 && table.maxCounters > 0
    ensures CellOf(table, 1, 1) == CellOf(other, 1, 1)
  {
  }

  lemma OneOfTwo(table: Table, s: State)
    requires table.Valid() && table.maxThreads > 0 && table.maxCounters > 0
    requires forall i :: 0 <= i < |table.data| ==> table.data[i] == 0
    requires s.table == table.(data := table.data[CellOf(table, 1, 1) := 1])
    requires s.completed == [(1, 1)] + [(1, 1)]
    ensures !Conserved(s)
  {
    hide CellOf, CompletedSum;
    RowOfOne(table);
    SumOfTwo();
  }

  lemma RowOfOne(table: Table)
    requires table.Valid() && table.maxThreads > 0 && table.maxCounters > 0
    requires forall i :: 0 <= i < |table.data| ==> table.data[i] == 0
    ensures RowSum(table.(data := table.data[CellOf(table, 1, 1) := 1]), 1, table.maxThreads) == 1
  {
    ZeroRow(table, 1, table.maxThreads);
    RowSumUpdate(table, 1, table.maxThreads, 1, 1, 1);
  }

  lemma SumOfTwo()
    ensures CompletedSum([(1, 1)] + [(1, 1)], 1) == 2
  {
    CompletedStep([], (1, 1), 1);
    CompletedStep([(1, 1)], (1, 1), 1);
    assert [] + [(1, 1)] == [(1, 1)];
  }

  predicate NamesAreOf(steps: seq<Step>, name: string) {
    forall i :: 0 <= i < |steps| && steps[i].Acquire? ==> steps[i].name == name
  }

  /** Whether every guarded run in which threads register under one name conserves all additions. */
  ghost predicate IsSafeName(name: string) {
    forall maxThreads: nat, maxCounters: nat, threads: nat, rowOf: seq<nat>, steps: seq<Step> ::
      AreRows(rowOf, maxCounters) && CanRun(Initial(maxThreads, maxCounters, threads, rowOf), steps)
      && IsGuarded(Initial(maxThreads, maxCounters, threads, rowOf), steps) && NamesAreOf(steps, name) ==>
        Run(Initial(maxThreads, maxCounters, threads, rowOf), steps).table.Valid()
        && Conserved(Run(Initial(maxThreads, maxCounters, threads, rowOf), steps))
  }

  lemma InvisibleNameIsUnsafe(name: string) returns (steps: seq<Step>, last: State)
    requires !IsVisible(name)
    ensures Leads(Initial(1, 1, 2, [1]), steps, last) && NamesAreOf(steps, name)
    ensures last.table.Valid() && !Conserved(last)
  {
    var s0 := Initial(1, 1, 2, [1]);
    var first, s1 := InvisibleClaim(s0, 0, name);
    var second, s2 := InvisibleClaim(s1, 1, name);
    assert s2.threads == [Ready(1), Ready(1)];
    var more;
    more, last := LostAddition(s2);
    hide Leads, Conserved;
    LeadsAppend(s1, second, s2, more, last);
    LeadsAppend(s0, first, s1, second + more, last);
    steps := first + (second + more);
  }

  /** Additions are conserved in every guarded run exactly under the names that do not start with a
      NUL character. */
  lemma SafeIffVisible(name: string)
    ensures IsSafeName(name) <==> IsVisible(name)
  {
    if IsVisible(name) {
      forall maxThreads: nat, maxCounters: nat, threads: nat, rowOf: seq<nat>, steps: seq<Step>
        | AreRows(rowOf, maxCounters) && CanRun(Initial(maxThreads, maxCounters, threads, rowOf), steps)
          && IsGuarded(Initial(maxThreads, maxCounters, threads, rowOf), steps) && NamesAreOf(steps, name)
        ensures Run(Initial(maxThreads, maxCounters, threads, rowOf), steps).table.Valid()
        ensures Conserved(Run(Initial(maxThreads, maxCounters, threads, rowOf), steps))
      {
        InitialHolds(maxThreads, maxCounters, threads, rowOf);
        RunKeeps(Initial(maxThreads, maxCounters, threads, rowOf), steps);
      }
    } else {
      var steps, last := InvisibleNameIsUnsafe(name);
    }
  }

  // ---------------------------------------------------------------------------------
  // The methods, for a thread that is not interrupted
  // ---------------------------------------------------------------------------------

  /** The first empty slot from `index` on, zero if there is none. */
  function EmptyFrom(names: seq<string>, index: nat): (slot: nat)
    requires 1 <= index <= |names| + 1
    ensures slot <= |names| && (slot > 0 ==> index <= slot && names[slot - 1] == "")
    ensures forall i :: index - 1 <= i < (if slot > 0 then slot - 1 else |names|) ==> names[i] != ""
    decreases |names| + 1 - index
  {
    if index > |names| then 0 else if names[index - 1] == "" then index else EmptyFrom(names, index + 1)
  }

  function FirstEmpty(names: seq<string>): (slot: nat)
    ensures slot <= |names|
  {
    EmptyFrom(names, 1)
  }

  /** A state after one thread has registered, if there is an empty slot. */
  function Registered(s: State, t: nat, name: string, tid: int, pid: int): State
    requires s.Valid() && t < |s.threads|
  {
    var slot := FirstEmpty(s.table.names);
    if slot == 0 then s
    else s.(table := Claimed(s.table, slot, name, tid, pid), threads := s.threads[t := Ready(slot)])
  }

  /** A state after a thread's scan has ended at a slot, or at none. */
  function Scanned(s: State, t: nat, slot: nat, tid: int, pid: int): State
    requires s.Valid() && t < |s.threads| && s.threads[t].Scanning? && slot <= s.table.maxThreads
  {
    var phase := s.threads[t];
    if slot == 0 then s.(threads := s.threads[t := Refused(phase.held, phase.resume)], locked := false)
    else s.(table := Claimed(s.table, slot, phase.name, tid, pid), threads := s.threads[t := Resumed(slot, phase.resume)],
            locked := false)
  }

  /** One look: the scan ends here, or goes on at the next slot and ends as it would from there. */
  lemma LookOnce(s: State, t: nat, tid: int, pid: int)
    requires s.Valid() && t < |s.threads| && s.threads[t].Scanning? && 1 <= s.threads[t].index <= s.table.maxThreads + 1
    ensures IsEnabled(s, Look(t))
    ensures var index := s.threads[t].index;
            var s1 := Apply(s, Look(t));
            if index > s.table.maxThreads then s1 == Scanned(s, t, 0, tid, pid)
            else if s.table.names[index - 1] == "" then
              IsEnabled(s1, Claim(t, tid, pid)) && Apply(s1, Claim(t, tid, pid)) == Scanned(s, t, index, tid, pid)
            else
              && s1.Valid() && s1.table == s.table && |s1.threads| == |s.threads|
              && s1.threads[t] == s.threads[t].(index := index + 1)
              && forall slot: nat :: slot <= s.table.maxThreads ==> Scanned(s1, t, slot, tid, pid) == Scanned(s, t, slot, tid, pid)
  {
    hide Claimed, Refused, Resumed;
    var index, phase := s.threads[t].index, s.threads[t];
    var s1 := Apply(s, Look(t));
    if index <= s.table.maxThreads {
      if s.table.names[index - 1] == "" {
        assert s1.threads[t := Resumed(index, phase.resume)] == s.threads[t := Resumed(index, phase.resume)];
      } else {
        forall slot: nat | slot <= s.table.maxThreads ensures Scanned(s1, t, slot, tid, pid) == Scanned(s, t, slot, tid, pid) {
          assert s1.threads[t := Resumed(slot, phase.resume)] == s.threads[t := Resumed(slot, phase.resume)];
          assert s1.threads[t := Refused(phase.held, phase.resume)] == s.threads[t := Refused(phase.held, phase.resume)];
        }
      }
    }
  }

  /** The scan for an empty slot, as steps of a thread that has the lock. */
  lemma {:induction false} ScanAlone(s: State, t: nat, tid: int, pid: int) returns (steps: seq<Step>)
    requires s.Valid() && t < |s.threads| && s.threads[t].Scanning? && 1 <= s.threads[t].index <= s.table.maxThreads + 1
    ensures CanRun(s, steps)
    ensures Run(s, steps) == Scanned(s, t, EmptyFrom(s.table.names, s.threads[t].index), tid, pid)
    ensures forall i :: 0 <= i < |steps| ==> steps[i].t == t && (steps[i].Look? || steps[i].Claim?)
    decreases s.table.maxThreads + 1 - s.threads[t].index
  {
    hide Apply, IsEnabled, Scanned, CanRun, Run;
    LookOnce(s, t, tid, pid);
    var index := s.threads[t].index;
    var s1 := Apply(s, Look(t));
    if index > s.table.maxThreads {
      RunNothing(s1);
      RunFirst(s, Look(t), []);
      steps := [Look(t)] + [];
    } else if s.table.names[index - 1] == "" {
      RunNothing(Apply(s1, Claim(t, tid, pid)));
      RunFirst(s1, Claim(t, tid, pid), []);
      RunFirst(s, Look(t), [Claim(t, tid, pid)] + []);
      steps := [Look(t)] + ([Claim(t, tid, pid)] + []);
    } else {
      var rest := ScanAlone(s1, t, tid, pid);
      RunFirst(s, Look(t), rest);
      steps := [Look(t)] + rest;
    }
  }

  /** An uninterrupted registration has the effect that the method below has. */
  lemma RegisterAlone(s: State, t: nat, name: string, tid: int, pid: int) returns (steps: seq<Step>)
    requires s.Valid() && t < |s.threads| && s.threads[t].Ready? && !s.locked
    ensures CanRun(s, steps) && Run(s, steps) == Registered(s, t, name, tid, pid)
    ensures forall i :: 0 <= i < |steps| ==>
      steps[i].t == t && (steps[i] == Acquire(t, name) || steps[i].Look? || steps[i].Claim?)
  {
    var s1 := Apply(s, Acquire(t, name));
    var rest := ScanAlone(s1, t, tid, pid);
    steps := [Acquire(t, name)] + rest;
    RunFirst(s, Acquire(t, name), rest);
    hide Run, CanRun, Claimed;
    var held := s.threads[t].held;
    assert s1.threads[t := Ready(held)] == s.threads[t := Ready(held)] == s.threads;
    assert forall slot: nat :: s1.threads[t := Ready(slot)] == s.threads[t := Ready(slot)];
  }

  /** The thread tables of the segment. */
  class ThreadSlots {
    const names: array<string>
    const tids: array<int>
    const pids: array<int>

    constructor (maxThreads: nat)
      ensures Valid() && names.Length == maxThreads && fresh(names) && fresh(tids) && fresh(pids)
      ensures forall i :: 0 <= i < maxThreads ==> names[i] == ""
    {
      names := new string[maxThreads](_ => "");
      tids := new int[maxThreads](_ => 0);
      pids := new int[maxThreads](_ => 0);
    }

    predicate Valid() {
      tids != pids && names.Length == tids.Length == pids.Length
    }

    method FindEmptyThread() returns (slot: nat)
      ensures slot == FirstEmpty(names[..]) <= names.Length
    {
      var index := 1;
      while index <= names.Length
        invariant 1 <= index <= names.Length + 1 && FirstEmpty(names[..]) == EmptyFrom(names[..], index)
      {
        if names[index - 1] == "" {
          break;
        }
        index := index + 1;
      }
      if index > names.Length {
        return 0;
      }
      return index;
    }

    method RegisterThread(name: string, tid: int, pid: int) returns (slot: nat)
      requires Valid()
      modifies names, tids, pids
      ensures slot == FirstEmpty(old(names[..]))
      ensures slot == 0 ==> names[..] == old(names[..]) && tids[..] == old(tids[..]) && pids[..] == old(pids[..])
      ensures slot > 0 ==>
        && names[..] == old(names[..])[slot - 1 := Stored(name, MAX_THREAD_NAME_LENGTH)]
        && tids[..] == old(tids[..])[slot - 1 := tid] && pids[..] == old(pids[..])[slot - 1 := pid]
      ensures slot > 0 ==> IsCopyOf(names[slot - 1], if name == "" then "<unknown>" else name, MAX_THREAD_NAME_LENGTH)
    {
      StoredIsCopy(name, MAX_THREAD_NAME_LENGTH);
      slot := FindEmptyThread();
      if slot == 0 {
        return 0;
      }
      names[slot - 1] := Stored(name, MAX_THREAD_NAME_LENGTH);
      tids[slot - 1] := tid;
      pids[slot - 1] := pid;
    }

    method UnregisterThread(slot: nat)
      requires 1 <= slot <= names.Length
      modifies names
      ensures names[..] == old(names[..])[slot - 1 := ""]
    {
      names[slot - 1] := "";
    }
  }
}
