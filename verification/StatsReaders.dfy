/** Reading the value of a row while other threads count: `GetRowValue` of
    src/chromium/metrics/stats_table.cc takes no lock, so any steps may be taken between two of its
    reads.
  */
module StatsReaders {
  import opened NumberConversions
  import opened StatsLayout
  import opened StatsSlots

  /** Before each of the reader's reads some steps are taken: the first round before the cell of
      the given slot, the next one before that of the next slot. */
  predicate CanRead(s: State, rounds: seq<seq<Step>>)
    decreases |rounds|
  {
    rounds == [] ||
    (CanRun(s, rounds[0]) && IsGuarded(s, rounds[0]) && NamesAreVisible(rounds[0]) && CanRead(Run(s, rounds[0]), rounds[1..]))
  }

  function After(s: State, rounds: seq<seq<Step>>): State
    requires CanRead(s, rounds)
    decreases |rounds|
  {
    if rounds == [] then s else After(Run(s, rounds[0]), rounds[1..])
  }

  predicate HasCells(s: State, row: nat, slot: nat, rounds: seq<seq<Step>>) {
    Holds(s) && CanRead(s, rounds) && 1 <= row <= s.table.maxCounters && 1 <= slot && slot + |rounds| == s.table.maxThreads + 1
  }

  lemma NextRound(s: State, row: nat, slot: nat, rounds: seq<seq<Step>>)
    requires HasCells(s, row, slot, rounds) && rounds != []
    ensures HasCells(Run(s, rounds[0]), row, slot + 1, rounds[1..]) && SameShape(s.table, Run(s, rounds[0]).table)
  {
    hide Holds, CanRun, Run, IsGuarded;
    RunKeeps(s, rounds[0]);
    assert s.table.Valid() by { HoldsIsValid(s); }
    RunShape(s, rounds[0]);
  }

  lemma HoldsIsValid(s: State)
    requires Holds(s)
    ensures s.Valid() && s.table.Valid() && Conserved(s)
  {
  }

  /** What the reader adds up, cell by cell, modulo 2^32. */
  ghost function Gathered(s: State, row: nat, slot: nat, rounds: seq<seq<Step>>): int
    requires HasCells(s, row, slot, rounds)
    decreases |rounds|
  {
    if rounds == [] then 0
    else
      NextRound(s, row, slot, rounds);
      var s1 := Run(s, rounds[0]);
      s1.table.data[CellOf(s1.table, row, slot)] + Gathered(s1, row, slot + 1, rounds[1..])
  }

  /** Some of a list of additions, in order. */
  predicate AreAmong(some: seq<(nat, int)>, all: seq<(nat, int)>)
    decreases |all|
  {
    if all == [] then some == []
    else
      || AreAmong(some, all[..|all| - 1])
      || (some != [] && some[|some| - 1] == all[|all| - 1] && AreAmong(some[..|some| - 1], all[..|all| - 1]))
  }

  lemma AmongNone()
    ensures AreAmong([], [])
  {
  }

  lemma AmongMore(some: seq<(nat, int)>, all: seq<(nat, int)>, last: (nat, int))
    requires AreAmong(some, all)
    ensures AreAmong(some, all + [last]) && AreAmong(some + [last], all + [last])
  {
    assert (all + [last])[..|all|] == all && (some + [last])[..|some|] == some;
  }

  lemma {:induction false} AmongBoth(some: seq<(nat, int)>, all: seq<(nat, int)>, more: seq<(nat, int)>, others: seq<(nat, int)>)
    requires AreAmong(some, all) && AreAmong(more, others)
    ensures AreAmong(some + more, all + others)
    decreases |others|
  {
    if others == [] {
      assert some + more == some && all + others == all;
    } else {
      var front, last := others[..|others| - 1], others[|others| - 1];
      assert all + others == (all + front) + [last];
      if AreAmong(more, front) {
        AmongBoth(some, all, more, front);
        AmongMore(some + more, all + front, last);
      } else {
        AmongBoth(some, all, more[..|more| - 1], front);
        AmongMore(some + more[..|more| - 1], all + front, last);
        assert some + more == (some + more[..|more| - 1]) + [last];
      }
    }
  }

  lemma {:induction false} SumOfBoth(completed: seq<(nat, int)>, more: seq<(nat, int)>, row: nat)
    ensures CompletedSum(completed + more, row) == CompletedSum(completed, row) + CompletedSum(more, row)
  {
    if more == [] {
      assert completed + more == completed;
    } else {
      var front, last := more[..|more| - 1], more[|more| - 1];
      SumOfBoth(completed, front, row);
      assert completed + more == (completed + front) + [last] && more == front + [last];
      CompletedStep(completed + front, last, row);
      CompletedStep(front, last, row);
    }
  }

  /** The cells of a row from a slot on. */
  function Rest(table: Table, row: nat, slot: nat): int
    requires table.Valid() && 1 <= row <= table.maxCounters && 1 <= slot <= table.maxThreads + 1
  {
    RowSum(table, row, table.maxThreads) - RowSum(table, row, slot - 1)
  }

  /** Equal modulo 2^32. */
  predicate Same32(x: int, y: int) {
    (x - y) % 0x1_0000_0000 == 0
  }

  lemma Same32Adds(a: int, b: int, c: int, d: int)
    requires Same32(a, b) && Same32(c, d)
    ensures Same32(a + c, b + d)
  {
  }

  /** From the cells of a slot on, a row has grown by some of the additions completed meanwhile. */
  ghost predicate HasGrown(s: State, s': State, row: nat, slot: nat, seen: seq<(nat, int)>, completed: seq<(nat, int)>)
    requires s.table.Valid() && 1 <= row <= s.table.maxCounters && 1 <= slot <= s.table.maxThreads + 1
    requires SameShape(s.table, s'.table)
  {
    && s'.completed == s.completed + completed && AreAmong(seen, completed)
    && Same32(Rest(s'.table, row, slot), Rest(s.table, row, slot) + CompletedSum(seen, row))
  }

  lemma HasNotGrown(s: State, s': State, row: nat, slot: nat)
    requires s.table.Valid() && 1 <= row <= s.table.maxCounters && 1 <= slot <= s.table.maxThreads + 1
    requires SameShape(s.table, s'.table) && s'.table.data == s.table.data && s'.completed == s.completed
    ensures HasGrown(s, s', row, slot, [], [])
  {
    AmongNone();
    NoSum(row);
    assert s.completed + [] == s.completed;
    RowSumSame(s'.table, s.table, row, s.table.maxThreads);
    RowSumSame(s'.table, s.table, row, slot - 1);
  }

  lemma HasGrownOn(s: State, s1: State, s2: State, row: nat, slot: nat, seen1: seq<(nat, int)>, completed1: seq<(nat, int)>,
                   seen2: seq<(nat, int)>, completed2: seq<(nat, int)>)
    requires s.table.Valid() && 1 <= row <= s.table.maxCounters && 1 <= slot <= s.table.maxThreads + 1
    requires SameShape(s.table, s1.table) && SameShape(s1.table, s2.table)
    requires HasGrown(s, s1, row, slot, seen1, completed1) && HasGrown(s1, s2, row, slot, seen2, completed2)
    ensures SameShape(s.table, s2.table) && HasGrown(s, s2, row, slot, seen1 + seen2, completed1 + completed2)
  {
    hide AreAmong, CompletedSum, Same32, Rest;
    AmongBoth(seen1, completed1, seen2, completed2);
    SumOfBoth(seen1, seen2, row);
    assert s.completed + completed1 + completed2 == s.completed + (completed1 + completed2);
    SameChain(Rest(s2.table, row, slot), Rest(s1.table, row, slot), Rest(s.table, row, slot),
              CompletedSum(seen1, row), CompletedSum(seen2, row));
  }

  /** One step: the rest of the row grows by an addition that is completed there, if at all. */
  lemma RestStep(s: State, step: Step, row: nat, slot: nat) returns (seen: seq<(nat, int)>, completed: seq<(nat, int)>)
    requires Holds(s) && IsEnabled(s, step) && 1 <= row <= s.table.maxCounters && 1 <= slot <= s.table.maxThreads + 1
    ensures SameShape(s.table, Apply(s, step).table) && HasGrown(s, Apply(s, step), row, slot, seen, completed)
  {
    HoldsIsValid(s);
    StepFrame(s, step);
    if step.StoreCell? {
      seen, completed := RestStore(s, step.t, row, slot);
    } else {
      DataIsKept(s, step);
      seen, completed := [], [];
      hide Apply, IsEnabled, Holds, HasGrown;
      HasNotGrown(s, Apply(s, step), row, slot);
    }
  }

  lemma DataIsKept(s: State, step: Step)
    requires IsEnabled(s, step) && !step.StoreCell?
    ensures Apply(s, step).table.data == s.table.data && Apply(s, step).completed == s.completed
  {
    hide NextPhase;
  }

  lemma RestStore(s: State, t: nat, row: nat, slot: nat) returns (seen: seq<(nat, int)>, completed: seq<(nat, int)>)
    requires Holds(s) && IsEnabled(s, StoreCell(t)) && 1 <= row <= s.table.maxCounters && 1 <= slot <= s.table.maxThreads + 1
    ensures SameShape(s.table, Apply(s, StoreCell(t)).table) && HasGrown(s, Apply(s, StoreCell(t)), row, slot, seen, completed)
  {
    hide CellOf, Conserved, Exclusive, CompletedSum, AreAmong, RowSum;
    var phase := s.threads[t];
    assert PhaseHolds(s.table, s.rowOf, phase);
    var s' := Apply(s, StoreCell(t));
    var x := Wrap32(phase.loaded + phase.work.delta);
    var done := (phase.row, phase.work.delta);
    assert s'.table == s.table.(data := s.table.data[CellOf(s.table, phase.row, phase.held) := x]);
    completed := [done];
    RowSumUpdate(s.table, row, s.table.maxThreads, phase.row, phase.held, x);
    RowSumUpdate(s.table, row, slot - 1, phase.row, phase.held, x);
    AmongNone();
    AmongMore([], [], done);
    assert [] + [done] == [done];
    NoSum(row);
    CompletedStep([], done, row);
    seen := if phase.held >= slot then [done] else [];
    StoreDelta(phase.loaded, phase.work.delta);
  }

  lemma NoSum(row: nat)
    ensures CompletedSum([], row) == 0
  {
  }

  lemma StoreDelta(loaded: int, delta: int)
    ensures Same32(Wrap32(loaded + delta) - loaded, delta)
  {
  }

  /** The same for a run. */
  lemma {:induction false} RestGrows(s: State, steps: seq<Step>, row: nat, slot: nat) returns (seen: seq<(nat, int)>, completed: seq<(nat, int)>)
    requires Holds(s) && CanRun(s, steps) && IsGuarded(s, steps) && NamesAreVisible(steps)
    requires 1 <= row <= s.table.maxCounters && 1 <= slot <= s.table.maxThreads + 1
    ensures SameShape(s.table, Run(s, steps).table) && HasGrown(s, Run(s, steps), row, slot, seen, completed)
    decreases |steps|
  {
    HoldsIsValid(s);
    if steps == [] {
      seen, completed := [], [];
      HasNotGrown(s, s, row, slot);
    } else {
      StepKeeps(s, steps[0]);
      hide Holds, Apply, IsEnabled, MayStart, MayGiveUp, HasGrown;
      var seen1, completed1 := RestStep(s, steps[0], row, slot);
      var seen2, completed2 := RestGrows(Apply(s, steps[0]), steps[1..], row, slot);
      seen, completed := seen1 + seen2, completed1 + completed2;
      HasGrownOn(s, Apply(s, steps[0]), Run(s, steps), row, slot, seen1, completed1, seen2, completed2);
    }
  }

  lemma SameChain(last: int, middle: int, first: int, a: int, b: int)
    requires Same32(last, middle + b) && Same32(middle, first + a)
    ensures Same32(last, first + (a + b))
  {
  }

  /** The reader has gathered, from the cell of a slot on, what was there at first and some of the
      additions completed meanwhile. */
  ghost predicate IsGathered(s: State, last: State, row: nat, slot: nat, value: int, seen: seq<(nat, int)>, completed: seq<(nat, int)>)
    requires s.table.Valid() && 1 <= row <= s.table.maxCounters && 1 <= slot <= s.table.maxThreads + 1
  {
    && last.completed == s.completed + completed && AreAmong(seen, completed)
    && Same32(value, Rest(s.table, row, slot) + CompletedSum(seen, row))
  }

  lemma OneMoreGathered(s: State, s1: State, last: State, row: nat, slot: nat, others: int, seen1: seq<(nat, int)>,
                        completed1: seq<(nat, int)>, seen2: seq<(nat, int)>, completed2: seq<(nat, int)>)
    requires s.table.Valid() && 1 <= row <= s.table.maxCounters && 1 <= slot <= s.table.maxThreads && SameShape(s.table, s1.table)
    requires HasGrown(s, s1, row, slot, seen1, completed1) && IsGathered(s1, last, row, slot + 1, others, seen2, completed2)
    ensures IsGathered(s, last, row, slot, s1.table.data[CellOf(s1.table, row, slot)] + others, seen1 + seen2, completed1 + completed2)
  {
    RestOfOne(s1.table, row, slot);
    hide AreAmong, CompletedSum, CellOf, Same32, Rest;
    AmongBoth(seen1, completed1, seen2, completed2);
    SumOfBoth(seen1, seen2, row);
    assert s.completed + completed1 + completed2 == s.completed + (completed1 + completed2);
    var cell := s1.table.data[CellOf(s1.table, row, slot)];
    CellThenRest(cell + others, others, cell, Rest(s1.table, row, slot), Rest(s1.table, row, slot + 1), Rest(s.table, row, slot),
                 CompletedSum(seen1, row), CompletedSum(seen2, row));
  }

  lemma NoneGathered(s: State, row: nat, slot: nat)
    requires s.table.Valid() && 1 <= row <= s.table.maxCounters && slot == s.table.maxThreads + 1
    ensures IsGathered(s, s, row, slot, 0, [], [])
  {
    AmongNone();
    NoSum(row);
    assert s.completed + [] == s.completed;
  }

  lemma GatheredFirst(s: State, row: nat, slot: nat, rounds: seq<seq<Step>>)
    requires HasCells(s, row, slot, rounds) && rounds != []
    requires HasCells(Run(s, rounds[0]), row, slot + 1, rounds[1..])
    ensures var s1 := Run(s, rounds[0]);
            && Holds(s1) && After(s, rounds) == After(s1, rounds[1..])
            && Gathered(s, row, slot, rounds) == s1.table.data[CellOf(s1.table, row, slot)] + Gathered(s1, row, slot + 1, rounds[1..])
  {
    hide Holds, CanRun, Run, IsGuarded, NamesAreVisible, CellOf;
    HoldsIsValid(Run(s, rounds[0]));
  }

  lemma CellsRemain(s: State, row: nat, slot: nat, rounds: seq<seq<Step>>)
    requires HasCells(s, row, slot, rounds)
    ensures Holds(s) && CanRead(s, rounds) && s.table.Valid()
    ensures 1 <= row <= s.table.maxCounters && 1 <= slot <= s.table.maxThreads + 1
    ensures if rounds == [] then slot == s.table.maxThreads + 1 && After(s, rounds) == s && Gathered(s, row, slot, rounds) == 0
            else
              && slot <= s.table.maxThreads && CanRun(s, rounds[0]) && IsGuarded(s, rounds[0]) && NamesAreVisible(rounds[0])
              && HasCells(Run(s, rounds[0]), row, slot + 1, rounds[1..]) && SameShape(s.table, Run(s, rounds[0]).table)
  {
    hide Holds, CanRun, Run, IsGuarded, NamesAreVisible;
    HoldsIsValid(s);
    if rounds != [] {
      NextRound(s, row, slot, rounds);
    }
  }

  lemma {:induction false} RestIsGathered(s: State, row: nat, slot: nat, rounds: seq<seq<Step>>)
    returns (seen: seq<(nat, int)>, completed: seq<(nat, int)>)
    requires HasCells(s, row, slot, rounds)
    ensures s.table.Valid() && 1 <= row <= s.table.maxCounters && 1 <= slot <= s.table.maxThreads + 1 && CanRead(s, rounds)
    ensures IsGathered(s, After(s, rounds), row, slot, Gathered(s, row, slot, rounds), seen, completed)
    decreases |rounds|
  {
    hide *;
    CellsRemain(s, row, slot, rounds);
    if rounds == [] {
      seen, completed := [], [];
      NoneGathered(s, row, slot);
    } else {
      var s1 := Run(s, rounds[0]);
      GatheredFirst(s, row, slot, rounds);
      var seen1, completed1 := RestGrows(s, rounds[0], row, slot);
      var seen2, completed2 := RestIsGathered(s1, row, slot + 1, rounds[1..]);
      seen, completed := seen1 + seen2, completed1 + completed2;
      OneMoreGathered(s, s1, After(s1, rounds[1..]), row, slot, Gathered(s1, row, slot + 1, rounds[1..]),
                      seen1, completed1, seen2, completed2);
    }
  }

  lemma RestOfOne(table: Table, row: nat, slot: nat)
    requires table.Valid() && 1 <= row <= table.maxCounters && 1 <= slot <= table.maxThreads
    ensures Rest(table, row, slot) == table.data[CellOf(table, row, slot)] + Rest(table, row, slot + 1)
  {
    hide CellOf;
  }

  lemma CellThenRest(all: int, others: int, cell: int, rest: int, further: int, before: int, a: int, b: int)
    requires all == cell + others && rest == cell + further && Same32(others, further + b) && Same32(rest, before + a)
    ensures Same32(all, before + (a + b))
  {
  }

  /** A reader beside writers: the value is that of the additions completed before it began, plus
      that of some of the additions completed while it read. */
  lemma ReadBesideWriters(s: State, row: nat, rounds: seq<seq<Step>>)
    returns (seen: seq<(nat, int)>, completed: seq<(nat, int)>)
    requires HasCells(s, row, 1, rounds)
    ensures After(s, rounds).completed == s.completed + completed && AreAmong(seen, completed)
    ensures Wrap32(Gathered(s, row, 1, rounds)) == Wrap32(CompletedSum(s.completed + seen, row))
  {
    HoldsIsValid(s);
    hide Holds, CanRead, HasCells, AreAmong, CompletedSum;
    seen, completed := RestIsGathered(s, row, 1, rounds);
    SumOfBoth(s.completed, seen, row);
    assert Same32(RowSum(s.table, row, s.table.maxThreads), CompletedSum(s.completed, row));
    Same32Adds(Rest(s.table, row, 1), CompletedSum(s.completed, row), CompletedSum(seen, row), CompletedSum(seen, row));
    SameChain(Gathered(s, row, 1, rounds), Rest(s.table, row, 1), CompletedSum(s.completed, row), 0, CompletedSum(seen, row));
    WrapSame(Gathered(s, row, 1, rounds), CompletedSum(s.completed + seen, row));
  }
}
