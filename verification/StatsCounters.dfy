/** How a counter object of src/chromium/metrics/stats_counters.cc finds its cell.  One object
    may be used by many threads; the row it looked up is cached for all of them.
  */
module StatsCounters {
  import opened CStrings
  import opened NumberConversions
  import Names = StatsNames
  import opened StatsLayout
  import opened StatsSlots
  import opened Wrappers

  /** `GetLocation`: nothing for a slot past the last one, otherwise a place in the row. */
  function Location(counter: nat, slot: nat, maxThreads: nat): Option<int> {
    if slot > maxThreads then None else Some(CellIndex(counter, slot, maxThreads))
  }

  /** The slot a thread counts with: its own, or the one it gets when it looks the counter up
      first. */
  function SlotUsed(id: int, slot: nat, free: nat): nat {
    if id == -1 && slot == 0 then free else slot
  }

  /** The cached row after a call: a first lookup caches the row that is found, but zero if the
      thread cannot get a slot. */
  function IdAfter(id: int, found: nat, slot: nat, free: nat): int {
    if id != -1 then id else if SlotUsed(id, slot, free) == 0 then 0 else found
  }

  /** A location overlaps nothing else in the segment. */
  ghost predicate IsOwn(counter: nat, slot: nat, maxThreads: nat, maxCounters: nat) {
    forall part: Part :: part.Valid(maxThreads, maxCounters) && part != Cell(counter, slot) ==>
      AreApart(Cell(counter, slot), part, maxThreads, maxCounters)
  }

  class StatsCounter {
    const name: string
    const table: ThreadSlots
    const names: Names.CounterNames
    /** -1 before the first lookup, zero if counting is not possible. */
    var counterId: int

    constructor (name: string, table: ThreadSlots, names: Names.CounterNames)
      ensures this.name == name && this.table == table && this.names == names && counterId == -1
    {
      this.name := name;
      this.table := table;
      this.names := names;
      counterId := -1;
    }

    predicate Valid()
      reads this, names
    {
      && table.Valid() && names.Valid() && names.rows != table.names
      && -1 <= counterId <= names.rows.Length
    }

    /** `slot` is the calling thread's slot, which is `slotNow` after the call.  The location is the
        thread's own exactly if the thread had a slot or this was the first lookup. */
    method GetPtr(slot: nat, tid: int, pid: int) returns (location: Option<int>, slotNow: nat)
      requires Valid() && slot <= table.names.Length
      modifies this, names`counters, names.rows, table.names, table.tids, table.pids
      ensures Valid() && slotNow == SlotUsed(old(counterId), slot, FirstEmpty(old(table.names[..])))
      ensures counterId == IdAfter(old(counterId), old(names.Answer(name)), slot, FirstEmpty(old(table.names[..])))
      ensures location == if counterId > 0 then Some(CellIndex(counterId, slotNow, table.names.Length)) else None
      ensures location.Some? && 0 < table.names.Length ==>
        (IsOwn(counterId, slotNow, table.names.Length, names.rows.Length) <==> slot >= 1 || old(counterId) == -1)
      ensures names.rows[..] == if old(counterId) == -1 then old(names.RowsThen(name)) else old(names.rows[..])
      ensures names.counters ==
        if old(counterId) == -1 && old(names.Answer(name)) > 0 then old(names.counters)[name := old(names.Answer(name))]
        else old(names.counters)
      ensures slotNow == slot ==>
        table.names[..] == old(table.names[..]) && table.tids[..] == old(table.tids[..]) && table.pids[..] == old(table.pids[..])
      ensures slotNow != slot ==>
        && table.names[..] == old(table.names[..])[slotNow - 1 := Stored("", MAX_THREAD_NAME_LENGTH)]
        && table.tids[..] == old(table.tids[..])[slotNow - 1 := tid] && table.pids[..] == old(table.pids[..])[slotNow - 1 := pid]
    {
      hide IsOwn, CellIndex, Stored, EmptyFrom, Names.FindRow, Names.AddRow, Names.AreRows, Names.IsGoodName, Names.CacheHolds;
      ghost var free := FirstEmpty(table.names[..]);
      ghost var was := counterId;
      slotNow := slot;
      if counterId == -1 {
        counterId := names.FindCounter(name);
        if slotNow == 0 {
          slotNow := table.RegisterThread("", tid, pid);
          if slotNow == 0 {
            counterId := 0;
            return None, 0;
          }
        }
      }
      if counterId > 0 {
        if 0 < table.names.Length {
          OwnLocationIff(counterId, was, slot, free, table.names.Length, names.rows.Length);
        }
        return Location(counterId, slotNow, table.names.Length), slotNow;
      }
      return None, slotNow;
    }
  }

  /** A location is the thread's own exactly if the thread has a slot, or looks the counter up
      first and can be registered. */
  lemma OwnLocationIff(counter: nat, id: int, slot: nat, free: nat, maxThreads: nat, maxCounters: nat)
    requires 1 <= counter <= maxCounters && slot <= maxThreads && free <= maxThreads && 0 < maxThreads
    ensures IsOwn(counter, SlotUsed(id, slot, free), maxThreads, maxCounters) <==> slot >= 1 || (id == -1 && free >= 1)
  {
    OwnCellIffSlot(counter, SlotUsed(id, slot, free), maxThreads, maxCounters);
  }

  /** A state after a thread has asked for the location of a counter without interruption. */
  function Asked(s: State, t: nat, work: Work, tid: int, pid: int): State
    requires s.Valid() && t < |s.threads| && work.counter < |s.ids|
  {
    var c, held, free := work.counter, s.threads[t].held, FirstEmpty(s.table.names);
    var slot := SlotUsed(s.ids[c], held, free);
    var id := IdAfter(s.ids[c], s.rowOf[c], held, free);
    s.(table := if slot == held then s.table else Claimed(s.table, slot, "", tid, pid),
       ids := s.ids[c := id],
       threads := s.threads[t := if id > 0 then Pointing(slot, id, work) else Ready(slot)])
  }

  /** The last steps: the cached row gives a location, or none. */
  function RowSteps(s: State, t: nat, work: Work): seq<Step>
    requires s.Valid() && work.counter < |s.ids|
  {
    if s.ids[work.counter] > 0 then [TestRow(t)] + ([ReadRow(t)] + []) else [TestRow(t)] + []
  }

  lemma LocateAlone(s: State, t: nat, held: nat, work: Work)
    requires s.Valid() && t < |s.threads| && s.threads[t] == Locating(held, work) && held <= s.table.maxThreads
    requires work.counter < |s.ids|
    ensures CanRun(s, RowSteps(s, t, work))
    ensures var id := s.ids[work.counter];
            Run(s, RowSteps(s, t, work)) == s.(threads := s.threads[t := if id > 0 then Pointing(held, id, work) else Ready(held)])
  {
    var s1 := Apply(s, TestRow(t));
    if s.ids[work.counter] > 0 {
      SetTwice(s.threads, t, Choosing(held, work), Pointing(held, s.ids[work.counter], work));
      var s2 := Apply(s1, ReadRow(t));
      RunNothing(s2);
      RunFirst(s1, ReadRow(t), []);
      RunFirst(s, TestRow(t), [ReadRow(t)] + []);
    } else {
      RunNothing(s1);
      RunFirst(s, TestRow(t), []);
    }
  }

  lemma GiveUpAlone(s: State, t: nat, held: nat, work: Work)
    requires s.Valid() && t < |s.threads| && s.threads[t] == Failing(held, work) && work.counter < |s.ids|
    ensures CanRun(s, [GiveUp(t)])
    ensures Run(s, [GiveUp(t)]) == s.(threads := s.threads[t := Ready(held)], ids := s.ids[work.counter := 0])
  {
    RunNothing(Apply(s, GiveUp(t)));
    RunFirst(s, GiveUp(t), []);
    assert [GiveUp(t)] + [] == [GiveUp(t)];
  }

  /** A thread without a slot, after it has cached the row. */
  lemma RegisterThenLocate(s: State, t: nat, work: Work, tid: int, pid: int) returns (steps: seq<Step>)
    requires s.Valid() && t < |s.threads| && s.threads[t] == Wanting(0, work)
    requires work.counter < |s.ids| && s.ids[work.counter] >= 0 && !s.locked
    ensures var free := FirstEmpty(s.table.names);
            var id := if free == 0 then 0 else s.ids[work.counter];
            && CanRun(s, steps)
            && Run(s, steps) == s.(table := if free == 0 then s.table else Claimed(s.table, free, "", tid, pid),
                                   ids := s.ids[work.counter := id],
                                   threads := s.threads[t := if id > 0 then Pointing(free, id, work) else Ready(free)])
  {
    hide Claimed;
    var c, free := work.counter, FirstEmpty(s.table.names);
    var s1 := Apply(s, AcquireFor(t));
    assert s1 == s.(threads := s.threads[t := Scanning(0, "", 1, Some(work))], locked := true);
    var scan := ScanAlone(s1, t, tid, pid);
    var s2 := Scanned(s1, t, free, tid, pid);
    if free == 0 {
      assert s2 == s.(threads := s.threads[t := Failing(0, work)]);
      GiveUpAlone(s2, t, 0, work);
      steps := [GiveUp(t)];
      assert s.threads[t := Failing(0, work)][t := Ready(0)] == s.threads[t := Ready(0)];
    } else {
      assert s2 == s.(threads := s.threads[t := Locating(free, work)], table := Claimed(s.table, free, "", tid, pid));
      ClaimedIsValid(s.table, free, tid, pid);
      LocateAlone(s2, t, free, work);
      steps := RowSteps(s2, t, work);
      assert s.ids[c := s.ids[c]] == s.ids;
      SetTwice(s.threads, t, Locating(free, work), Run(s2, steps).threads[t]);
    }
    hide Apply, IsEnabled, CanRun, Run, Scanned;
    RunAppend(s1, scan, steps);
    RunFirst(s, AcquireFor(t), scan + steps);
    steps := [AcquireFor(t)] + (scan + steps);
  }

  lemma SetTwice<T>(s: seq<T>, i: nat, x: T, y: T)
    requires i < |s|
    ensures s[i := x][i := y] == s[i := y]
  {
  }

  lemma ClaimedIsValid(table: Table, slot: nat, tid: int, pid: int)
    requires table.Valid() && 1 <= slot <= table.maxThreads
    ensures Claimed(table, slot, "", tid, pid).Valid() && Claimed(table, slot, "", tid, pid).maxThreads == table.maxThreads
  {
  }

  /** The steps of a thread that is not interrupted have the effect of the method. */
  lemma GetPtrAlone(s: State, t: nat, work: Work, tid: int, pid: int) returns (steps: seq<Step>)
    requires s.Valid() && t < |s.threads| && s.threads[t].Ready? && s.threads[t].held <= s.table.maxThreads
    requires work.counter < |s.ids| && !s.locked
    ensures CanRun(s, steps) && Run(s, steps) == Asked(s, t, work, tid, pid)
  {
    hide Claimed;
    var c, held, last := work.counter, s.threads[t].held, Asked(s, t, work, tid, pid);
    var s1 := Apply(s, Start(t, work));
    if s.ids[c] != -1 {
      assert s.ids[c := s.ids[c]] == s.ids;
      LocateAlone(s1, t, held, work);
      SetTwice(s.threads, t, s1.threads[t], last.threads[t]);
      steps := RowSteps(s1, t, work);
    } else {
      var s2 := Apply(s1, FindRow(t));
      SetTwice(s.threads, t, s1.threads[t], s2.threads[t]);
      SetTwice(s.threads, t, s2.threads[t], last.threads[t]);
      SetTwice(s.ids, c, s2.ids[c], last.ids[c]);
      if held > 0 {
        LocateAlone(s2, t, held, work);
        steps := RowSteps(s2, t, work);
      } else {
        steps := RegisterThenLocate(s2, t, work, tid, pid);
        assert s2.ids[c := s2.ids[c]] == s2.ids;
      }
      RunFirst(s1, FindRow(t), steps);
      steps := [FindRow(t)] + steps;
    }
    hide CanRun, Run, Asked;
    RunFirst(s, Start(t, work), steps);
    steps := [Start(t, work)] + steps;
  }

  // ---------------------------------------------------------------------------------
  // Counters by their names
  // ---------------------------------------------------------------------------------

  /** The rows of counters, by their names, in a table of names. */
  function RowsOf(rows: seq<string>, names: seq<string>): (r: seq<nat>)
    ensures |r| == |names| && forall c :: 0 <= c < |names| ==> r[c] == Names.FindRow(rows, names[c])
  {
    seq(|names|, c requires 0 <= c < |names| => Names.FindRow(rows, names[c]))
  }

  lemma SameNameSameRow(rows: seq<string>, name: string, other: string)
    requires CString(name) == CString(other)
    ensures Names.FindRow(rows, name) == Names.FindRow(rows, other)
  {
    Names.SameSearch(rows, name, other, 1, 0);
  }

  /** What lookups answer is one row for each name, and different rows for different names. */
  lemma LookupsGiveRows(processes: nat, processOf: seq<nat>, lookups: seq<Names.Step>, names: seq<string>, maxCounters: nat)
    requires Names.AreProcesses(processOf, processes)
    requires Names.CanRun(Names.Initial(maxCounters, processes, processOf), lookups) && Names.NamesAreGood(lookups)
    requires AreAnswered(Names.Run(Names.Initial(maxCounters, processes, processOf), lookups), names)
    ensures var found := Names.Run(Names.Initial(maxCounters, processes, processOf), lookups);
            var rowOf := RowsOf(found.rows, names);
            && AreRows(rowOf, maxCounters)
            && (forall c, i :: 0 <= c < |names| && 0 <= i < |found.returned| && found.returned[i].0 == names[c] ==>
                  found.returned[i].1 == rowOf[c])
            && (forall c, d :: 0 <= c < |names| && 0 <= d < |names| && rowOf[c] > 0 ==>
                  (rowOf[c] == rowOf[d] <==> CString(names[c]) == CString(names[d])))
  {
    Names.AnswersAreRows(maxCounters, processes, processOf, lookups);
    var found := Names.Run(Names.Initial(maxCounters, processes, processOf), lookups);
    var rowOf := RowsOf(found.rows, names);
    hide Names.Run, Names.CanRun, Names.Initial, Names.FindRow, Names.AreRows, Names.IsGoodName, Names.IsFullWithout, CString;
    forall c | 0 <= c < |names| ensures Names.IsBorneOut(found.rows, names[c], rowOf[c]) {
      assert IsAnswered(found, names[c]);
      var i :| 0 <= i < |found.returned| && found.returned[i].0 == names[c];
    }
    forall c, d | 0 <= c < |names| && 0 <= d < |names| && rowOf[c] > 0
      ensures rowOf[c] == rowOf[d] <==> CString(names[c]) == CString(names[d])
    {
      if CString(names[c]) == CString(names[d]) {
        SameNameSameRow(found.rows, names[c], names[d]);
      }
    }
  }

  predicate IsAnswered(found: Names.State, name: string) {
    exists i :: 0 <= i < |found.returned| && found.returned[i].0 == name
  }

  /** Every name was looked up. */
  predicate AreAnswered(found: Names.State, names: seq<string>) {
    forall c :: 0 <= c < |names| ==> IsAnswered(found, names[c])
  }

  /** Lookups and additions together.  Whatever the lookups of a run answered to the counters' names
      is one row for each counter, and different rows for different names; and in every guarded run
      of additions over these rows, the value of a counter's row is the sum of the additions
      completed on counters with its name. */
  lemma CountersAddUp(processes: nat, processOf: seq<nat>, lookups: seq<Names.Step>, names: seq<string>,
                      maxThreads: nat, maxCounters: nat, threads: nat, steps: seq<Step>)
    requires Names.AreProcesses(processOf, processes)
    requires Names.CanRun(Names.Initial(maxCounters, processes, processOf), lookups) && Names.NamesAreGood(lookups)
    requires AreAnswered(Names.Run(Names.Initial(maxCounters, processes, processOf), lookups), names)
    requires var rowOf := RowsOf(Names.Run(Names.Initial(maxCounters, processes, processOf), lookups).rows, names);
             && CanRun(Initial(maxThreads, maxCounters, threads, rowOf), steps)
             && IsGuarded(Initial(maxThreads, maxCounters, threads, rowOf), steps) && NamesAreVisible(steps)
    ensures var found := Names.Run(Names.Initial(maxCounters, processes, processOf), lookups);
            var rowOf := RowsOf(found.rows, names);
            var last := Run(Initial(maxThreads, maxCounters, threads, rowOf), steps);
            && last.table.Valid() && last.table.maxCounters == maxCounters
            && (forall c, i :: 0 <= c < |names| && 0 <= i < |found.returned| && found.returned[i].0 == names[c] ==>
                  found.returned[i].1 == rowOf[c])
            && (forall c, d :: 0 <= c < |names| && 0 <= d < |names| && rowOf[c] > 0 ==>
                  (rowOf[c] == rowOf[d] <==> CString(names[c]) == CString(names[d])))
            && (forall c :: 0 <= c < |names| && rowOf[c] > 0 ==>
                  rowOf[c] <= maxCounters && RowValue(last.table, rowOf[c]) == Wrap32(CompletedSum(last.completed, rowOf[c])))
  {
    LookupsGiveRows(processes, processOf, lookups, names, maxCounters);
    var rowOf := RowsOf(Names.Run(Names.Initial(maxCounters, processes, processOf), lookups).rows, names);
    hide Names.Run, Names.CanRun, Names.Initial, Names.NamesAreGood, AreAnswered, CString, RowsOf, Run, CanRun, IsGuarded, RowValue;
    NoAdditionIsLost(maxThreads, maxCounters, threads, rowOf, steps);
    InitialIsValid(maxThreads, maxCounters, threads, rowOf);
    RunShape(Initial(maxThreads, maxCounters, threads, rowOf), steps);
  }

  lemma InitialIsValid(maxThreads: nat, maxCounters: nat, threads: nat, rowOf: seq<nat>)
    ensures var table := Initial(maxThreads, maxCounters, threads, rowOf).table;
            table.Valid() && table.maxCounters == maxCounters
  {
    RowsGrow(0, maxThreads, maxCounters);
  }
}
