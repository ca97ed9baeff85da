/** Which states of the statistics table are safe for threads that keep to the rule to have a slot
    before they add: src/chromium/metrics/stats_counters.cc:39-63.

    A thread that looks a counter up without a slot may be refused one, and then clears the row
    that is cached for all threads.  If that falls between another thread's test of the row and
    its second read, the addition of that thread is lost, although it has a slot.
  */
module StatsRefusals {
  import opened CStrings
  import opened NumberConversions
  import opened StatsLayout
  import opened StatsSlots
  import opened Wrappers

  // ---------------------------------------------------------------------------------
  // Lookups that can be refused
  // ---------------------------------------------------------------------------------

  predicate HasEmptyFrom(names: seq<string>, index: nat) {
    exists i :: 0 <= i < |names| && index <= i + 1 && names[i] == ""
  }

  /** The thread looks the counter up, has no slot, and may be refused one. */
  predicate IsRefusable(s: State, u: nat, c: nat)
    requires u < |s.threads|
  {
    match s.threads[u]
    case Finding(held, work) => held == 0 && work.counter == c
    case Wanting(_, work) => work.counter == c
    case Failing(_, work) => work.counter == c
    case Scanning(_, _, index, resume) =>
      resume.Some? && resume.value.counter == c && !HasEmptyFrom(s.table.names, index)
    case _ => false
  }

  predicate NoneIsRefusable(s: State, c: nat) {
    forall u :: 0 <= u < |s.threads| ==> !IsRefusable(s, u, c)
  }

  /** No thread has a slot and none can get one: nobody will ever count. */
  predicate IsBarren(s: State) {
    && (forall t :: 0 <= t < |s.threads| ==> s.threads[t].held == 0)
    && (forall i :: 0 <= i < |s.table.names| ==> s.table.names[i] != "")
  }

  /** No lookup of a counter that is in use can be refused, or nobody can be harmed. */
  predicate IsUndisturbed(s: State)
    requires s.Valid()
  {
    forall c :: 0 <= c < |s.ids| ==> IsDead(s, c) || NoneIsRefusable(s, c) || IsBarren(s)
  }

  // ---------------------------------------------------------------------------------
  // Undisturbed states stay so
  // ---------------------------------------------------------------------------------

  /** Nobody's reads are overtaken by a refusal. */
  lemma UndisturbedIsCalm(s: State, step: Step)
    requires Holds(s) && IsUndisturbed(s) && IsEnabled(s, step)
    ensures MayGiveUp(s, step)
  {
    hide TableHolds, AreCached, HaveSlots;
    if step.GiveUp? {
      var c := s.threads[step.t].work.counter;
      assert IsRefusable(s, step.t, c);
      assert !NoneIsRefusable(s, c);
      forall u | 0 <= u < |s.threads| && s.threads[u].Choosing? ensures s.threads[u].work.counter != c {
        assert s.threads[u].held > 0;
      }
    }
  }

  lemma NamesFrame(s: State, step: Step)
    requires IsEnabled(s, step)
    ensures !step.Claim? && !step.Unregister? ==> Apply(s, step).table.names == s.table.names && NextPhase(s, step).held == s.threads[step.t].held
    ensures step.Claim? ==>
      Apply(s, step).table.names == s.table.names[s.threads[step.t].slot - 1 := Apply(s, step).table.names[s.threads[step.t].slot - 1]]
    ensures step.Unregister? ==> Apply(s, step).table.names == s.table.names[s.threads[step.t].held - 1 := ""]
  {
    hide Peek, PlaceOf;
  }

  lemma BarrenStays(s: State, step: Step)
    requires TableHolds(s) && IsBarren(s) && IsEnabled(s, step)
    ensures IsBarren(Apply(s, step))
  {
    assert PhaseHolds(s.table, s.rowOf, s.threads[step.t]);
    StepFrame(s, step);
    NamesFrame(s, step);
    hide Apply, NextPhase, Conserved, Exclusive;
  }

  /** A lookup that can be refused was one before, or was started by a thread without a slot. */
  lemma RefusableComesFrom(s: State, step: Step, c: nat)
    requires TableHolds(s) && IsEnabled(s, step) && IsRefusable(Apply(s, step), step.t, c)
    ensures IsRefusable(s, step.t, c) || (step.Start? && s.threads[step.t].held == 0 && step.work.counter == c)
  {
    assert PhaseHolds(s.table, s.rowOf, s.threads[step.t]);
    if step.Look? {
      LookIsRefusable(s, step.t, c);
    } else {
      StepFrame(s, step);
      NamesFrame(s, step);
      hide Conserved, Exclusive, Peek, PlaceOf, CellOf, Apply, HasEmptyFrom;
    }
  }

  lemma LookIsRefusable(s: State, t: nat, c: nat)
    requires IsEnabled(s, Look(t)) && IsRefusable(Apply(s, Look(t)), t, c)
    ensures IsRefusable(s, t, c)
  {
  }

  /** A scan that will find a slot is not disturbed by other threads. */
  lemma OthersAreNotRefusable(s: State, step: Step, u: nat, c: nat)
    requires TableHolds(s) && IsEnabled(s, step) && u < |s.threads| && u != step.t && !IsRefusable(s, u, c)
    ensures u < |Apply(s, step).threads| && !IsRefusable(Apply(s, step), u, c)
  {
    StepFrame(s, step);
    NamesFrame(s, step);
    assert step.Claim? ==> s.threads[step.t].HasLock();
    assert s.threads[u].Scanning? ==> s.threads[u].HasLock();
    hide Apply, NextPhase, Conserved, PhaseHolds, IsEnabled;
    if s.threads[u].Scanning? && HasEmptyFrom(s.table.names, s.threads[u].index) {
      var i :| 0 <= i < |s.table.names| && s.threads[u].index <= i + 1 && s.table.names[i] == "";
      assert Apply(s, step).table.names[i] == "";
    }
  }

  lemma UndisturbedStep(s: State, step: Step)
    requires Holds(s) && IsUndisturbed(s) && IsEnabled(s, step) && MayStartOrderly(s, step)
    ensures Apply(s, step).Valid() && IsUndisturbed(Apply(s, step))
  {
    var s' := Apply(s, step);
    CachedStep(s, step);
    StepFrame(s, step);
    hide TableHolds, Apply, NextPhase, HaveSlots, AreTested, AreCached, IsDead, IsRefusable, IsBarren;
    forall c | 0 <= c < |s'.ids| ensures IsDead(s', c) || NoneIsRefusable(s', c) || IsBarren(s') {
      if IsDead(s, c) {
        DeadStays(s, step, c);
      } else if IsBarren(s) {
        BarrenStays(s, step);
      } else {
        assert NoneIsRefusable(s, c);
        forall u | 0 <= u < |s'.threads| ensures !IsRefusable(s', u, c) {
          if u != step.t {
            OthersAreNotRefusable(s, step, u, c);
          } else if IsRefusable(s', u, c) {
            RefusableComesFrom(s, step, c);
          }
        }
      }
    }
  }

  lemma {:induction false} OrderlyRunKeeps(s: State, steps: seq<Step>)
    requires Holds(s) && IsUndisturbed(s) && CanRun(s, steps) && IsOrderly(s, steps) && NamesAreVisible(steps)
    ensures Holds(Run(s, steps)) && IsUndisturbed(Run(s, steps))
    decreases |steps|
  {
    if steps != [] {
      UndisturbedIsCalm(s, steps[0]);
      UndisturbedStep(s, steps[0]);
      assert MayStart(s, steps[0]);
      StepKeeps(s, steps[0]);
      hide Holds, Apply, IsEnabled, MayStartOrderly, IsUndisturbed, MayStart;
      OrderlyRunKeeps(Apply(s, steps[0]), steps[1..]);
    }
  }

  /** In every run in which only threads with slots start additions, nobody is overtaken and every
      row is the sum of the additions completed on its counters. */
  lemma SlotHoldersAreSafe(maxThreads: nat, maxCounters: nat, threads: nat, rowOf: seq<nat>, steps: seq<Step>)
    requires AreRows(rowOf, maxCounters) && CanRun(Initial(maxThreads, maxCounters, threads, rowOf), steps)
    requires IsOrderly(Initial(maxThreads, maxCounters, threads, rowOf), steps) && NamesAreVisible(steps)
    ensures var s := Run(Initial(maxThreads, maxCounters, threads, rowOf), steps);
            && s.table.Valid() && Exclusive(s)
            && (forall counter :: 1 <= counter <= s.table.maxCounters ==>
                  RowValue(s.table, counter) == Wrap32(CompletedSum(s.completed, counter)))
  {
    InitialHolds(maxThreads, maxCounters, threads, rowOf);
    assert IsUndisturbed(Initial(maxThreads, maxCounters, threads, rowOf));
    hide Initial, Run, CanRun, IsOrderly, Exclusive, Conserved, PhaseHolds, AreCached, HaveSlots, AreTested, RowValue;
    OrderlyRunKeeps(Initial(maxThreads, maxCounters, threads, rowOf), steps);
    ConservedIsValue(Run(Initial(maxThreads, maxCounters, threads, rowOf), steps));
  }

  // ---------------------------------------------------------------------------------
  // Safety of a state
  // ---------------------------------------------------------------------------------

  /** The state with more threads that have done nothing yet. */
  function WithIdle(s: State, k: nat): State {
    s.(threads := s.threads + seq(k, _ => Ready(0)))
  }

  /** However many other threads there are, and whatever they do as long as only threads with slots
      start additions: the rows add up. */
  ghost predicate IsSafe(s: State) {
    forall k: nat, steps :: CanRun(WithIdle(s, k), steps) && IsOrderly(WithIdle(s, k), steps) && NamesAreVisible(steps) ==>
      Run(WithIdle(s, k), steps).table.Valid() && Conserved(Run(WithIdle(s, k), steps))
  }

  lemma IdleHolds(s: State, k: nat)
    requires Holds(s)
    ensures Holds(WithIdle(s, k))
    ensures forall c :: 0 <= c < |s.ids| ==> (IsDead(WithIdle(s, k), c) <==> IsDead(s, c))
    ensures forall u :: 0 <= u < |s.threads| ==> WithIdle(s, k).threads[u] == s.threads[u]
  {
    var s' := WithIdle(s, k);
    assert forall u :: |s.threads| <= u < |s'.threads| ==> s'.threads[u] == Ready(0);
    forall u | 0 <= u < |s'.threads| ensures PhaseHolds(s.table, s.rowOf, s'.threads[u]) {
      if u < |s.threads| { assert PhaseHolds(s.table, s.rowOf, s.threads[u]); }
    }
    IdleIsExclusive(s, k);
    SameDataConserved(s, s');
    hide Conserved, PhaseHolds, Exclusive;
    forall c | 0 <= c < |s.ids| ensures IsDead(s', c) <==> IsDead(s, c) {
      IdleIsDead(s, k, c);
    }
    forall t | 0 <= t < |s'.threads| && s'.threads[t].Locating? && s'.threads[t].held == 0
      ensures s'.threads[t].work.counter < |s.ids| && IsDead(s', s'.threads[t].work.counter)
    {
      assert s'.threads[t] == s.threads[t];
    }
  }

  lemma IdleIsDead(s: State, k: nat, c: nat)
    requires s.Valid() && c < |s.ids|
    ensures IsDead(WithIdle(s, k), c) <==> IsDead(s, c)
  {
    var s' := WithIdle(s, k);
    if IsDead(s', c) {
      assert forall u :: 0 <= u < |s.threads| ==> s'.threads[u] == s.threads[u];
    }
  }

  lemma IdleIsExclusive(s: State, k: nat)
    requires Exclusive(s)
    ensures Exclusive(WithIdle(s, k))
  {
    var s' := WithIdle(s, k);
    assert forall u :: 0 <= u < |s'.threads| ==> s'.threads[u] == if u < |s.threads| then s.threads[u] else Ready(0);
    if s.locked {
      var t :| 0 <= t < |s.threads| && s.threads[t].HasLock();
      assert s'.threads[t].HasLock();
    }
  }

  lemma IdleIsUndisturbed(s: State, k: nat)
    requires Holds(s) && IsUndisturbed(s)
    ensures IsUndisturbed(WithIdle(s, k))
  {
    IdleHolds(s, k);
    hide Holds, IsDead;
    var s' := WithIdle(s, k);
    forall c | 0 <= c < |s.ids| ensures IsDead(s', c) || NoneIsRefusable(s', c) || IsBarren(s') {
      assert forall u :: 0 <= u < |s'.threads| ==> s'.threads[u] == if u < |s.threads| then s.threads[u] else Ready(0);
      assert forall u :: 0 <= u < |s.threads| ==> (IsRefusable(s', u, c) <==> IsRefusable(s, u, c));
      assert forall u :: |s.threads| <= u < |s'.threads| ==> !IsRefusable(s', u, c);
      assert NoneIsRefusable(s, c) ==> NoneIsRefusable(s', c);
      assert IsBarren(s) ==> IsBarren(s');
    }
  }

  lemma UndisturbedIsSafe(s: State)
    requires Holds(s) && IsUndisturbed(s)
    ensures IsSafe(s)
  {
    forall k: nat, steps | CanRun(WithIdle(s, k), steps) && IsOrderly(WithIdle(s, k), steps) && NamesAreVisible(steps)
      ensures Run(WithIdle(s, k), steps).table.Valid() && Conserved(Run(WithIdle(s, k), steps))
    {
      IdleHolds(s, k);
      IdleIsUndisturbed(s, k);
      OrderlyRunKeeps(WithIdle(s, k), steps);
    }
  }

  // ---------------------------------------------------------------------------------
  // Disturbed states are not safe: how a refusal comes to fall between two reads
  // ---------------------------------------------------------------------------------

  /** A counter in use, and a lookup of it that can be refused. */
  predicate IsThreat(s: State, u: nat, c: nat) {
    Holds(s) && c < |s.ids| && !IsDead(s, c) && u < |s.threads| && IsRefusable(s, u, c)
  }

  lemma ThreatHasNoSlot(s: State, u: nat, c: nat)
    requires IsThreat(s, u, c)
    ensures s.threads[u].held == 0 && !s.threads[u].Ready?
  {
    assert PhaseHolds(s.table, s.rowOf, s.threads[u]);
  }

  /** A counter stays in use as long as no refusal clears its row. */
  lemma AliveStays(s: State, step: Step, c: nat)
    requires AreCached(s) && IsEnabled(s, step) && c < |s.ids| && !IsDead(s, c) && !step.GiveUp?
    ensures c < |Apply(s, step).ids| && Apply(s, step).Valid() && !IsDead(Apply(s, step), c)
  {
    CachedStep(s, step);
    StepFrame(s, step);
    if s.threads[step.t].Finding? { FindingStays(s, step); }
    hide Apply, NextPhase, IsEnabled;
    var s' := Apply(s, step);
    if s.ids[c] == 0 {
      var u :| 0 <= u < |s.threads| && s.threads[u].Finding? && s.threads[u].work.counter == c;
      assert u != step.t ==> s'.threads[u] == s.threads[u];
    }
  }

  lemma FindingStays(s: State, step: Step)
    requires IsEnabled(s, step) && s.threads[step.t].Finding?
    ensures step.FindRow?
  {
  }

  lemma RefusableStays(s: State, step: Step, u: nat, c: nat)
    requires TableHolds(s) && IsEnabled(s, step) && u < |s.threads| && IsRefusable(s, u, c) && u != step.t && !step.Unregister?
    ensures u < |Apply(s, step).threads| && IsRefusable(Apply(s, step), u, c)
  {
    StepFrame(s, step);
    NamesFrame(s, step);
    hide Apply, NextPhase, Conserved, PhaseHolds;
    assert s.threads[u].Scanning? ==> s.threads[u].HasLock();
    assert step.Claim? ==> s.threads[step.t].HasLock();
  }

  /** Steps of other threads that empty no slot and clear no row. */
  predicate AreApartFrom(steps: seq<Step>, u: nat) {
    forall i :: 0 <= i < |steps| ==> steps[i].t != u && !steps[i].GiveUp? && !steps[i].Unregister?
  }

  lemma {:induction false} ThreatStays(s: State, steps: seq<Step>, last: State, u: nat, c: nat)
    requires IsThreat(s, u, c) && Leads(s, steps, last) && NamesAreVisible(steps) && AreApartFrom(steps, u)
    ensures IsThreat(last, u, c) && |last.threads| == |s.threads|
    decreases |steps|
  {
    if steps != [] {
      LeadsStep(s, steps, last);
      assert MayStart(s, steps[0]);
      StepKeeps(s, steps[0]);
      AliveStays(s, steps[0], c);
      RefusableStays(s, steps[0], u, c);
      StepFrame(s, steps[0]);
      hide Holds, IsDead, IsRefusable, Apply, IsEnabled, Leads, MayStart, MayStartOrderly, MayGiveUp;
      ThreatStays(Apply(s, steps[0]), steps[1..], last, u, c);
    }
  }

  lemma {:induction false} AliveStaysInRun(s: State, steps: seq<Step>, last: State, c: nat)
    requires Holds(s) && Leads(s, steps, last) && NamesAreVisible(steps) && c < |s.ids| && !IsDead(s, c)
    requires forall i :: 0 <= i < |steps| ==> !steps[i].GiveUp?
    ensures Holds(last) && c < |last.ids| && !IsDead(last, c)
    decreases |steps|
  {
    if steps != [] {
      LeadsStep(s, steps, last);
      assert MayStart(s, steps[0]);
      StepKeeps(s, steps[0]);
      AliveStays(s, steps[0], c);
      hide Holds, IsDead, Apply, IsEnabled, Leads, MayStart, MayStartOrderly, MayGiveUp;
      AliveStaysInRun(Apply(s, steps[0]), steps[1..], last, c);
    }
  }

  /** The thread that has the lock finishes its scan. */
  lemma ScanEnds(s: State, h: nat) returns (steps: seq<Step>, last: State, slot: nat)
    requires Holds(s) && h < |s.threads| && s.threads[h].HasLock()
    ensures Leads(s, steps, last) && IsPlain(steps) && NamesAreVisible(steps)
    ensures forall i :: 0 <= i < |steps| ==> steps[i].t == h && !steps[i].Unregister?
    ensures !last.locked && |last.threads| == |s.threads| && last.ids == s.ids
    ensures forall t :: 0 <= t < |s.threads| && t != h ==> last.threads[t] == s.threads[t]
    ensures slot > 0 ==> last.threads[h].held == slot
    ensures slot == 0 ==>
      && last.table.names == s.table.names && s.threads[h].Scanning?
      && last.threads[h] == Refused(s.threads[h].held, s.threads[h].resume)
    ensures s.threads[h].Scanning? && !HasEmptyFrom(s.table.names, s.threads[h].index) ==> slot == 0
  {
    hide Conserved, Exclusive, Claimed, Leads;
    assert PhaseHolds(s.table, s.rowOf, s.threads[h]);
    if s.threads[h].Claiming? {
      slot := s.threads[h].slot;
      last := Apply(s, Claim(h, 0, 0));
      LeadsNowhere(last);
      LeadsFirst(s, Claim(h, 0, 0), [], last);
      steps := [Claim(h, 0, 0)] + [];
    } else {
      slot := EmptyFrom(s.table.names, s.threads[h].index);
      steps := ScanAlone(s, h, 0, 0);
      last := Scanned(s, h, slot, 0, 0);
      hide CanRun, Run;
      PlainLeads(s, steps);
    }
  }

  /** The lock is freed, and the threat remains. */
  lemma LockIsFreed(s: State, u: nat, c: nat) returns (steps: seq<Step>, last: State)
    requires IsThreat(s, u, c) && !IsBarren(s)
    ensures Leads(s, steps, last) && NamesAreVisible(steps) && IsThreat(last, u, c) && !IsBarren(last) && !last.locked
    ensures |last.threads| == |s.threads|
    ensures forall t :: 0 <= t < |s.threads| && s.threads[t].Ready? ==> last.threads[t] == s.threads[t]
  {
    if !s.locked {
      LeadsNowhere(s);
      steps, last := [], s;
    } else {
      var h :| 0 <= h < |s.threads| && s.threads[h].HasLock();
      hide Holds, IsBarren, Leads;
      steps, last := HolderIsDone(s, h, u, c);
    }
  }

  lemma HolderIsDone(s: State, h: nat, u: nat, c: nat) returns (steps: seq<Step>, last: State)
    requires IsThreat(s, u, c) && !IsBarren(s) && h < |s.threads| && s.threads[h].HasLock()
    ensures Leads(s, steps, last) && NamesAreVisible(steps) && IsThreat(last, u, c) && !IsBarren(last) && !last.locked
    ensures |last.threads| == |s.threads|
    ensures forall t :: 0 <= t < |s.threads| && s.threads[t].Ready? ==> last.threads[t] == s.threads[t]
  {
    hide Holds, Leads, IsDead;
    var slot;
    steps, last, slot := ScanEnds(s, h);
    if h == u {
      AliveStaysInRun(s, steps, last, c);
      RefusedIsRefusable(s, last, u, c);
    } else {
      assert AreApartFrom(steps, u);
      ThreatStays(s, steps, last, u, c);
    }
    hide IsRefusable;
    if slot == 0 {
      SameSlots(s, last);
    }
  }

  lemma SameSlots(s: State, last: State)
    requires !IsBarren(s) && |last.threads| == |s.threads| && last.table.names == s.table.names
    requires forall t :: 0 <= t < |s.threads| ==> last.threads[t].held == s.threads[t].held
    ensures !IsBarren(last)
  {
  }

  lemma RefusedIsRefusable(s: State, last: State, u: nat, c: nat)
    requires u < |s.threads| == |last.threads| && IsRefusable(s, u, c) && s.threads[u].Scanning?
    requires last.threads[u] == Refused(s.threads[u].held, s.threads[u].resume)
    ensures IsRefusable(last, u, c)
  {
  }

  function EmptySlots(names: seq<string>): set<nat> {
    set i: nat | i < |names| && names[i] == ""
  }

  lemma FewerEmpty(names: seq<string>, i: nat, name: string)
    requires i < |names| && names[i] == "" && name != ""
    ensures EmptySlots(names[i := name]) < EmptySlots(names)
  {
    assert i in EmptySlots(names) && i !in EmptySlots(names[i := name]);
  }

  lemma RegisteredFrame(s: State, f: nat)
    requires s.Valid() && f < |s.threads| && FirstEmpty(s.table.names) > 0
    ensures var s' := Registered(s, f, "", 0, 0);
            && s'.locked == s.locked && s'.threads == s.threads[f := Ready(FirstEmpty(s.table.names))]
            && EmptySlots(s'.table.names) < EmptySlots(s.table.names)
  {
    var slot := FirstEmpty(s.table.names);
    FirstIsEmpty(s.table.names);
    hide FirstEmpty, EmptySlots, Claimed;
    ClaimedFrame(s.table, slot);
  }

  lemma ClaimedFrame(table: Table, slot: nat)
    requires table.Valid() && 1 <= slot <= table.maxThreads && table.names[slot - 1] == ""
    ensures EmptySlots(Claimed(table, slot, "", 0, 0).names) < EmptySlots(table.names)
  {
    hide Stored, EmptySlots;
    UnknownIsNotEmpty();
    FewerEmpty(table.names, slot - 1, Stored("", MAX_THREAD_NAME_LENGTH));
  }

  lemma UnknownIsNotEmpty()
    ensures Stored("", MAX_THREAD_NAME_LENGTH) != ""
  {
    hide Stored;
    StoredIsVisible("", MAX_THREAD_NAME_LENGTH);
  }

  lemma FirstIsEmpty(names: seq<string>)
    ensures FirstEmpty(names) <= |names| && (FirstEmpty(names) > 0 ==> names[FirstEmpty(names) - 1] == "")
  {
  }

  /** A registration under the empty name, as steps that disturb nobody. */
  lemma RegistrationLeads(s: State, f: nat, u: nat) returns (steps: seq<Step>)
    requires s.Valid() && !s.locked && f < |s.threads| && f != u && s.threads[f].Ready?
    ensures Leads(s, steps, Registered(s, f, "", 0, 0)) && NamesAreVisible(steps) && AreApartFrom(steps, u)
  {
    steps := RegisterAlone(s, f, "", 0, 0);
    hide Registered, CanRun, Run, Leads;
    PlainLeads(s, steps);
  }

  /** A thread registers until no slot is empty. */
  lemma {:induction false} TableFills(s: State, f: nat, u: nat, c: nat) returns (steps: seq<Step>, last: State)
    requires IsThreat(s, u, c) && !s.locked && f < |s.threads| && f != u && s.threads[f].Ready?
    ensures Leads(s, steps, last) && NamesAreVisible(steps) && IsThreat(last, u, c) && !last.locked
    ensures |last.threads| == |s.threads| && FirstEmpty(last.table.names) == 0 && last.threads[f].Ready?
    ensures s.threads[f].held > 0 || FirstEmpty(s.table.names) > 0 ==> last.threads[f].held > 0
    decreases EmptySlots(s.table.names)
  {
    assert s.Valid();
    if FirstEmpty(s.table.names) == 0 {
      LeadsNowhere(s);
      steps, last := [], s;
    } else {
      var next := Registered(s, f, "", 0, 0);
      RegisteredFrame(s, f);
      hide IsThreat, Registered, Leads, EmptySlots, FirstEmpty, NamesAreVisible, AreApartFrom;
      var first := RegistrationLeads(s, f, u);
      ThreatStays(s, first, next, u, c);
      var more;
      more, last := TableFills(next, f, u, c);
      LeadsAppend(s, first, next, more, last);
      VisibleBoth(first, more);
      steps := first + more;
    }
  }

  /** How far a thread with a slot is from the end of its operation. */
  function Rank(phase: Phase): nat {
    match phase
    case Ready(_) => 0
    case Adding(_, _, _, _) => 1
    case Pointing(_, _, _) => 2
    case Choosing(_, _) => 3
    case Locating(_, _) => 4
    case Finding(_, _) => 5
    case _ => 6
  }

  lemma NextIsNearer(s: State, v: nat)
    requires Holds(s) && !s.locked && v < |s.threads| && s.threads[v].held > 0 && !s.threads[v].Ready?
    ensures var step := NextStep(s.threads[v], v, 0, 0);
            && IsEnabled(s, step) && IsPlain([step]) && step.t == v && !step.Unregister? && !step.Acquire?
            && Apply(s, step).table.names == s.table.names && !Apply(s, step).locked
            && |Apply(s, step).threads| == |s.threads| && Apply(s, step).threads[v].held > 0
            && Rank(Apply(s, step).threads[v]) < Rank(s.threads[v])
  {
    assert PhaseHolds(s.table, s.rowOf, s.threads[v]);
    assert !s.threads[v].HasLock();
    NoThreadIsBlocked(s, v, 0, 0);
    hide Conserved, PlaceOf, Peek, CellOf;
  }

  /** A thread with a slot finishes its operation. */
  lemma {:induction false} OperationEnds(s: State, v: nat, u: nat, c: nat) returns (steps: seq<Step>, last: State)
    requires IsThreat(s, u, c) && !s.locked && v < |s.threads| && v != u && s.threads[v].held > 0
    ensures Leads(s, steps, last) && NamesAreVisible(steps) && IsThreat(last, u, c) && !last.locked
    ensures last.table.names == s.table.names && |last.threads| == |s.threads|
    ensures last.threads[v].Ready? && last.threads[v].held > 0
    decreases Rank(s.threads[v])
  {
    if s.threads[v].Ready? {
      LeadsNowhere(s);
      steps, last := [], s;
    } else {
      var step := NextStep(s.threads[v], v, 0, 0);
      NextIsNearer(s, v);
      var next := Apply(s, step);
      hide Holds, IsDead, IsRefusable, IsEnabled, Apply, Leads, Rank;
      assert [step][0] == step;
      OneStepLeads(s, step, next);
      assert AreApartFrom([step], u);
      ThreatStays(s, [step], next, u, c);
      var more;
      more, last := OperationEnds(next, v, u, c);
      LeadsAppend(s, [step], next, more, last);
      steps := [step] + more;
    }
  }

  lemma OneStepLeads(s: State, step: Step, next: State)
    requires IsEnabled(s, step) && MayStartOrderly(s, step) && MayGiveUp(s, step) && next == Apply(s, step)
    ensures Leads(s, [step], next)
  {
    hide IsEnabled, Apply, MayStartOrderly, MayGiveUp, Leads;
    LeadsNowhere(next);
    LeadsFirst(s, step, [], next);
    assert [step] + [] == [step];
  }

  /** A lookup that can be refused is refused once the table is full. */
  lemma {:induction false} LookupIsRefused(s: State, u: nat, c: nat) returns (steps: seq<Step>, last: State)
    requires IsThreat(s, u, c) && !s.locked && FirstEmpty(s.table.names) == 0
    ensures Leads(s, steps, last) && NamesAreVisible(steps)
    ensures Holds(last) && c < |last.ids| && !IsDead(last, c) && |last.threads| == |s.threads|
    ensures last.threads[u].Failing? && last.threads[u].work.counter == c
    ensures forall t :: 0 <= t < |s.threads| && t != u ==> last.threads[t] == s.threads[t]
    decreases s.threads[u].Finding?
  {
    assert PhaseHolds(s.table, s.rowOf, s.threads[u]);
    if s.threads[u].Failing? {
      LeadsNowhere(s);
      steps, last := [], s;
    } else if s.threads[u].Finding? {
      var next := Apply(s, FindRow(u));
      OneStepLeads(s, FindRow(u), next);
      AliveStaysInRun(s, [FindRow(u)], next, c);
      hide Leads, Holds, IsDead;
      var more;
      more, last := LookupIsRefused(next, u, c);
      LeadsAppend(s, [FindRow(u)], next, more, last);
      steps := [FindRow(u)] + more;
    } else {
      assert !s.threads[u].HasLock();
      steps, last := WantingIsRefused(s, u);
      hide Leads, Holds, IsDead;
      AliveStaysInRun(s, steps, last, c);
    }
  }

  lemma WantingIsRefused(s: State, u: nat) returns (steps: seq<Step>, last: State)
    requires Holds(s) && !s.locked && FirstEmpty(s.table.names) == 0 && u < |s.threads| && s.threads[u].Wanting?
    ensures Leads(s, steps, last) && NamesAreVisible(steps) && IsPlain(steps)
    ensures |last.threads| == |s.threads| && last.threads[u] == Failing(0, s.threads[u].work)
    ensures forall t :: 0 <= t < |s.threads| && t != u ==> last.threads[t] == s.threads[t]
  {
    assert PhaseHolds(s.table, s.rowOf, s.threads[u]);
    hide Conserved, Exclusive, Leads;
    var s1 := Apply(s, AcquireFor(u));
    var scan := ScanAlone(s1, u, 0, 0);
    last := Scanned(s1, u, 0, 0, 0);
    assert s1.threads[u] == Scanning(0, "", 1, Some(s.threads[u].work));
    hide CanRun, Run;
    PlainLeads(s1, scan);
    LeadsFirst(s, AcquireFor(u), scan, last);
    steps := [AcquireFor(u)] + scan;
  }

  /** A thread with a slot starts an addition to a counter in use, and has tested the cached row,
      while the refused thread is about to clear it. */
  lemma RowIsTested(s: State, v: nat, u: nat, c: nat) returns (steps: seq<Step>, last: State)
    requires Holds(s) && c < |s.ids| && !IsDead(s, c) && u < |s.threads| && v < |s.threads| && v != u
    requires s.threads[v].Ready? && s.threads[v].held > 0 && s.threads[u].Failing? && s.threads[u].work.counter == c
    ensures Leads(s, steps, last) && NamesAreVisible(steps) && Holds(last) && |last.ids| == |s.ids|
    ensures last.rowOf == s.rowOf && |last.threads| == |s.threads|
    ensures last.threads[v] == Choosing(s.threads[v].held, Work(c, 1)) && last.threads[u] == s.threads[u]
  {
    var start := Start(v, Work(c, 1));
    var next := Apply(s, start);
    StepFrame(s, start);
    StepKeeps(s, start);
    AliveStays(s, start, c);
    if s.ids[c] == -1 { StartsFinding(s, v, Work(c, 1)); } else { StartsLocating(s, v, Work(c, 1)); }
    hide Holds, IsDead, Leads, Apply, IsEnabled, MayStart, MayGiveUp, NextPhase;
    var more;
    if s.ids[c] == -1 {
      more, last := RowIsLookedUp(next, v, u, c);
    } else {
      more, last := RowIsFound(next, v, u, c);
    }
    LeadsFirst(s, start, more, last);
    steps := [start] + more;
  }

  lemma RowIsLookedUp(s: State, v: nat, u: nat, c: nat) returns (steps: seq<Step>, last: State)
    requires Holds(s) && c < |s.ids| && !IsDead(s, c) && u < |s.threads| && v < |s.threads| && v != u
    requires s.threads[v].Finding? && s.threads[v].held > 0 && s.threads[v].work == Work(c, 1) && s.threads[u].Failing?
    ensures Leads(s, steps, last) && NamesAreVisible(steps) && Holds(last) && |last.ids| == |s.ids|
    ensures last.rowOf == s.rowOf && |last.threads| == |s.threads| && last.table == s.table
    ensures last.threads[v] == Choosing(s.threads[v].held, Work(c, 1)) && last.threads[u] == s.threads[u]
  {
    assert IsEnabled(s, FindRow(v));
    hide Holds, IsDead, Leads, Apply, IsEnabled;
    FindsRow(s, v, c);
    var more;
    more, last := PositiveIsTested(Apply(s, FindRow(v)), v, u, c);
    LeadsFirst(s, FindRow(v), more, last);
    steps := [FindRow(v)] + more;
  }

  lemma StartsFinding(s: State, v: nat, work: Work)
    requires IsEnabled(s, Start(v, work)) && s.ids[work.counter] == -1
    ensures Apply(s, Start(v, work)).threads[v] == Finding(s.threads[v].held, work)
    ensures IsEnabled(Apply(s, Start(v, work)), FindRow(v))
  {
  }

  lemma StartsLocating(s: State, v: nat, work: Work)
    requires IsEnabled(s, Start(v, work)) && s.ids[work.counter] != -1
    ensures Apply(s, Start(v, work)).threads[v] == Locating(s.threads[v].held, work)
    ensures Apply(s, Start(v, work)).ids == s.ids
  {
  }

  /** Looking a counter in use up caches its row. */
  lemma FindsRow(s: State, w: nat, c: nat)
    requires Holds(s) && IsEnabled(s, FindRow(w)) && s.threads[w].work.counter == c && !IsDead(s, c)
    ensures var s' := Apply(s, FindRow(w));
            && Holds(s') && |s'.ids| == |s.ids| && s'.ids[c] > 0 && |s'.threads| == |s.threads|
            && s'.rowOf == s.rowOf && s'.table == s.table
            && (forall t :: 0 <= t < |s.threads| && t != w ==> s'.threads[t] == s.threads[t])
            && (s.threads[w].held > 0 ==> s'.threads[w] == Locating(s.threads[w].held, s.threads[w].work))
  {
    StepKeeps(s, FindRow(w));
    StepFrame(s, FindRow(w));
    hide Holds;
  }

  lemma PositiveIsTested(s: State, v: nat, u: nat, c: nat) returns (steps: seq<Step>, last: State)
    requires Holds(s) && c < |s.ids| && s.ids[c] > 0 && u < |s.threads| && v < |s.threads| && v != u
    requires s.threads[v].Locating? && s.threads[v].held > 0 && s.threads[v].work == Work(c, 1)
    ensures Leads(s, steps, last) && NamesAreVisible(steps) && Holds(last) && |last.ids| == |s.ids|
    ensures last.rowOf == s.rowOf && |last.threads| == |s.threads| && last.table == s.table
    ensures last.threads[v] == Choosing(s.threads[v].held, Work(c, 1)) && last.threads[u] == s.threads[u]
  {
    last := Apply(s, TestRow(v));
    StepKeeps(s, TestRow(v));
    OneStepLeads(s, TestRow(v), last);
    steps := [TestRow(v)];
    hide Holds, Leads;
  }

  lemma RowIsFound(s: State, v: nat, u: nat, c: nat) returns (steps: seq<Step>, last: State)
    requires Holds(s) && c < |s.ids| && !IsDead(s, c) && s.ids[c] != -1 && u < |s.threads| && v < |s.threads| && v != u
    requires s.threads[v].Locating? && s.threads[v].held > 0 && s.threads[v].work == Work(c, 1) && s.threads[u].Failing?
    ensures Leads(s, steps, last) && NamesAreVisible(steps) && Holds(last) && |last.ids| == |s.ids|
    ensures last.rowOf == s.rowOf && |last.threads| == |s.threads| && last.table == s.table
    ensures last.threads[v] == Choosing(s.threads[v].held, Work(c, 1)) && last.threads[u] == s.threads[u]
  {
    if s.ids[c] == 0 {
      var w :| 0 <= w < |s.threads| && s.threads[w].Finding? && s.threads[w].work.counter == c;
      steps, last := FoundByAnother(s, w, v, u, c);
    } else {
      assert s.ids[c] > 0;
      hide Holds, Leads, IsDead;
      steps, last := PositiveIsTested(s, v, u, c);
    }
  }

  lemma FoundByAnother(s: State, w: nat, v: nat, u: nat, c: nat) returns (steps: seq<Step>, last: State)
    requires Holds(s) && c < |s.ids| && !IsDead(s, c) && u < |s.threads| && v < |s.threads| && v != u
    requires w < |s.threads| && s.threads[w].Finding? && s.threads[w].work.counter == c
    requires s.threads[v].Locating? && s.threads[v].held > 0 && s.threads[v].work == Work(c, 1) && s.threads[u].Failing?
    ensures Leads(s, steps, last) && NamesAreVisible(steps) && Holds(last) && |last.ids| == |s.ids|
    ensures last.rowOf == s.rowOf && |last.threads| == |s.threads| && last.table == s.table
    ensures last.threads[v] == Choosing(s.threads[v].held, Work(c, 1)) && last.threads[u] == s.threads[u]
  {
    FindsRow(s, w, c);
    assert IsEnabled(s, FindRow(w));
    hide Holds, Leads, Apply, IsDead, IsEnabled;
    var more;
    more, last := PositiveIsTested(Apply(s, FindRow(w)), v, u, c);
    LeadsFirst(s, FindRow(w), more, last);
    steps := [FindRow(w)] + more;
  }

  /** The refusal falls between the two reads. */
  lemma RefusalOvertakes(s: State, v: nat, u: nat, c: nat, held: nat) returns (steps: seq<Step>, last: State)
    requires Holds(s) && c < |s.ids| && u < |s.threads| && v < |s.threads| && v != u
    requires s.threads[v] == Choosing(held, Work(c, 1)) && s.threads[u].Failing? && s.threads[u].work.counter == c
    ensures Reaches(s, steps, last) && NamesAreVisible(steps) && last.table.Valid() && !Conserved(last)
  {
    assert PhaseHolds(s.table, s.rowOf, s.threads[v]);
    var s1 := Apply(s, GiveUp(u));
    SameDataConserved(s, s1);
    assert s1.threads[v] == s.threads[v] && s1.ids[c] == 0;
    hide Conserved;
    var rest;
    rest, last := WrongReadMisplaces(s1, v, held, Work(c, 1));
    assert Reaches(s1, rest, last);
    hide Apply, IsEnabled, Reaches, Leads;
    ReachesFirst(s, GiveUp(u), rest, last);
    steps := [GiveUp(u)] + rest;
  }

  /** Steps that can be taken, with additions started by threads with slots only. */
  ghost predicate Reaches(s: State, steps: seq<Step>, last: State) {
    CanRun(s, steps) && IsOrderly(s, steps) && Run(s, steps) == last
  }

  lemma ReachesFirst(s: State, step: Step, rest: seq<Step>, last: State)
    requires IsEnabled(s, step) && MayStartOrderly(s, step) && Reaches(Apply(s, step), rest, last)
    ensures Reaches(s, [step] + rest, last)
  {
    RunFirst(s, step, rest);
    assert ([step] + rest)[1..] == rest;
    hide IsEnabled, MayStartOrderly, Apply;
  }

  lemma {:induction false} OrderlyAppend(s: State, steps: seq<Step>, next: State, more: seq<Step>, last: State)
    requires Leads(s, steps, next) && Reaches(next, more, last)
    ensures Reaches(s, steps + more, last)
    decreases |steps|
  {
    hide IsEnabled, Apply, MayStartOrderly, MayGiveUp, Leads, Reaches;
    if steps == [] {
      LeadsNone(s, next);
      assert steps + more == more;
    } else {
      LeadsStep(s, steps, next);
      OrderlyAppend(Apply(s, steps[0]), steps[1..], next, more, last);
      ReachesFirst(s, steps[0], steps[1..] + more, last);
      assert [steps[0]] + (steps[1..] + more) == steps + more;
    }
  }

  lemma VisibleBoth(steps: seq<Step>, more: seq<Step>)
    requires NamesAreVisible(steps) && NamesAreVisible(more)
    ensures NamesAreVisible(steps + more)
  {
    hide IsVisible;
  }

  /** From a threat to a lost addition: some thread with a slot ends up between its two reads when
      the lookup is refused. */
  lemma ThreatIsCarriedOut(s: State, u: nat, c: nat, f: nat) returns (steps: seq<Step>, last: State)
    requires IsThreat(s, u, c) && !IsBarren(s) && f < |s.threads| && s.threads[f] == Ready(0)
    ensures Reaches(s, steps, last) && NamesAreVisible(steps) && last.table.Valid() && !Conserved(last)
  {
    ThreatHasNoSlot(s, u, c);
    hide Leads, IsRefusable, IsDead, Holds, Reaches, Conserved, NamesAreVisible;
    var first, s1 := LockIsFreed(s, u, c);
    ThreatHasNoSlot(s1, u, c);
    var second, s2, v := FullWithVictim(s1, u, c, f);
    LeadsAppend(s, first, s1, second, s2);
    VisibleBoth(first, second);
    var third;
    third, last := ThreatSucceeds(s2, v, u, c);
    OrderlyAppend(s, first + second, s2, third, last);
    VisibleBoth(first + second, third);
    steps := first + second + third;
  }

  /** No slot is empty any more, and a thread that is doing nothing holds one. */
  lemma FullWithVictim(s: State, u: nat, c: nat, f: nat) returns (steps: seq<Step>, last: State, v: nat)
    requires IsThreat(s, u, c) && !IsBarren(s) && !s.locked && f < |s.threads| && s.threads[f] == Ready(0) && f != u
    requires s.threads[u].held == 0
    ensures Leads(s, steps, last) && NamesAreVisible(steps) && IsThreat(last, u, c) && !last.locked
    ensures FirstEmpty(last.table.names) == 0 && v < |last.threads| && v != u
    ensures last.threads[v].Ready? && last.threads[v].held > 0
  {
    if FirstEmpty(s.table.names) > 0 {
      v := f;
      steps, last := TableFills(s, f, u, c);
    } else {
      v :| 0 <= v < |s.threads| && s.threads[v].held > 0;
      steps, last := OperationEnds(s, v, u, c);
    }
  }

  lemma ThreatSucceeds(s: State, v: nat, u: nat, c: nat) returns (steps: seq<Step>, last: State)
    requires IsThreat(s, u, c) && !s.locked && FirstEmpty(s.table.names) == 0 && v < |s.threads| && v != u
    requires s.threads[v].Ready? && s.threads[v].held > 0
    ensures Reaches(s, steps, last) && NamesAreVisible(steps) && last.table.Valid() && !Conserved(last)
  {
    hide Leads, IsRefusable, IsDead, Holds, Reaches, Conserved, NamesAreVisible;
    var first, s1 := LookupIsRefused(s, u, c);
    var second, s2 := RowIsTested(s1, v, u, c);
    LeadsAppend(s, first, s1, second, s2);
    VisibleBoth(first, second);
    var third;
    third, last := RefusalOvertakes(s2, v, u, c, s.threads[v].held);
    OrderlyAppend(s, first + second, s2, third, last);
    VisibleBoth(first + second, third);
    steps := first + second + third;
  }

  lemma DisturbedIsUnsafe(s: State)
    requires Holds(s) && !IsUndisturbed(s)
    ensures !IsSafe(s)
  {
    var c :| 0 <= c < |s.ids| && !IsDead(s, c) && !NoneIsRefusable(s, c) && !IsBarren(s);
    var u :| 0 <= u < |s.threads| && IsRefusable(s, u, c);
    var f := |s.threads|;
    var s1 := WithIdle(s, 1);
    IdleHolds(s, 1);
    assert s1.threads[f] == Ready(0);
    assert IsRefusable(s1, u, c);
    assert forall t :: 0 <= t < |s.threads| ==> s1.threads[t] == s.threads[t];
    assert !IsBarren(s1);
    ThreatLosesAddition(s, u, c);
  }

  lemma ThreatLosesAddition(s: State, u: nat, c: nat)
    requires IsThreat(WithIdle(s, 1), u, c) && !IsBarren(WithIdle(s, 1)) && |s.threads| < |WithIdle(s, 1).threads|
    requires WithIdle(s, 1).threads[|s.threads|] == Ready(0)
    ensures !IsSafe(s)
  {
    hide IsThreat, IsBarren, CanRun, Run, IsOrderly, Conserved, WithIdle;
    var steps, last := ThreatIsCarriedOut(WithIdle(s, 1), u, c, |s.threads|);
  }

  /** A state in which no read is wrong so far is safe exactly if no lookup of a counter in use can
      be refused, or nobody has or can get a slot at all. */
  lemma SafeIffUndisturbed(s: State)
    requires Holds(s)
    ensures IsSafe(s) <==> IsUndisturbed(s)
  {
    assert s.Valid();
    hide Holds, IsSafe, IsUndisturbed;
    if IsUndisturbed(s) {
      UndisturbedIsSafe(s);
    } else {
      DisturbedIsUnsafe(s);
    }
  }

  // ---------------------------------------------------------------------------------
  // Starting an addition
  // ---------------------------------------------------------------------------------

  lemma IdleNone(s: State)
    ensures WithIdle(s, 0) == s
  {
    assert s.threads + seq(0, _ => Ready(0)) == s.threads;
  }

  lemma ReachedIsUnsafe(s: State, steps: seq<Step>, last: State)
    requires Leads(s, steps, last) && NamesAreVisible(steps) && !(last.table.Valid() && Conserved(last))
    ensures !IsSafe(s)
  {
    IdleNone(s);
    hide CanRun, IsOrderly, Run, Conserved, WithIdle;
    assert CanRun(WithIdle(s, 0), steps);
  }

  /** A start by a thread without a slot, when the row is cached or about to be: some continuation
      loses the addition from its row. */
  lemma SlotlessStartIsUnsafe(s: State, t: nat, work: Work)
    requires Holds(s) && IsEnabled(s, Start(t, work)) && work.delta % 0x1_0000_0000 != 0 && !MayStart(s, Start(t, work))
    ensures !IsSafe(Apply(s, Start(t, work)))
  {
    hide Conserved, PhaseHolds, CellOf, Exclusive, IsSafe;
    var c := work.counter;
    var s1 := Apply(s, Start(t, work));
    SameDataConserved(s, s1);
    assert s1.threads[t] == Locating(0, work) && s1.ids == s.ids;
    if s.ids[c] > 0 {
      var steps, last := SlotZeroMisplaces(s1, t, work);
      ReachedIsUnsafe(s1, steps, last);
    } else {
      var u :| 0 <= u < |s.threads| && s.threads[u].Finding? && s.threads[u].work.counter == c;
      assert s1.threads[u] == s.threads[u] && u != t;
      var s2 := Apply(s1, FindRow(u));
      SameDataConserved(s1, s2);
      assert s2.ids[c] == s.rowOf[c] > 0 && s2.threads[t] == Locating(0, work);
      var rest, last := SlotZeroMisplaces(s2, t, work);
      hide IsEnabled, Apply, Holds, Leads;
      LeadsFirst(s1, FindRow(u), rest, last);
      ReachedIsUnsafe(s1, [FindRow(u)] + rest, last);
    }
  }

  /** What a start changes for the lookups that can be refused. */
  lemma StartFrame(s: State, t: nat, work: Work, c: nat)
    requires Holds(s) && IsEnabled(s, Start(t, work)) && c < |s.ids|
    ensures var s' := Apply(s, Start(t, work));
            && s'.Valid() && |s'.ids| == |s.ids| && (IsBarren(s') <==> IsBarren(s)) && (IsDead(s', c) <==> IsDead(s, c))
            && (NoneIsRefusable(s', c) <==>
                NoneIsRefusable(s, c) && !(s.threads[t].held == 0 && s.ids[c] == -1 && work.counter == c))
  {
    var s' := Apply(s, Start(t, work));
    hide TableHolds, HaveSlots, AreTested, HasEmptyFrom;
    assert s'.threads[t].held == s.threads[t].held && s.threads[t].Ready?;
    assert forall u :: 0 <= u < |s.threads| && u != t ==> s'.threads[u] == s.threads[u];
    assert forall u :: 0 <= u < |s.threads| && u != t ==> (IsRefusable(s', u, c) <==> IsRefusable(s, u, c));
    assert IsRefusable(s', t, c) <==> s.threads[t].held == 0 && s.ids[c] == -1 && work.counter == c;
    assert !IsRefusable(s, t, c);
    StartIsDead(s, t, work, c);
    if NoneIsRefusable(s', c) {
      assert forall u :: 0 <= u < |s.threads| ==> !IsRefusable(s, u, c);
    }
    if IsBarren(s') {
      assert forall u :: 0 <= u < |s.threads| ==> s.threads[u].held == s'.threads[u].held;
    }
  }

  lemma StartIsDead(s: State, t: nat, work: Work, c: nat)
    requires IsEnabled(s, Start(t, work)) && c < |s.ids|
    ensures IsDead(Apply(s, Start(t, work)), c) <==> IsDead(s, c)
  {
    var s' := Apply(s, Start(t, work));
    assert forall u :: 0 <= u < |s.threads| && u != t ==> s'.threads[u] == s.threads[u];
    if IsDead(s', c) && s.rowOf[c] != 0 {
      forall u | 0 <= u < |s.threads| && s.threads[u].Finding? ensures s.threads[u].work.counter != c {
        assert s'.threads[u] == s.threads[u];
      }
    }
  }

  lemma StartIsUndisturbed(s: State, t: nat, work: Work)
    requires Holds(s) && IsEnabled(s, Start(t, work)) && MayStart(s, Start(t, work))
    ensures var s' := Apply(s, Start(t, work));
            s'.Valid() && (IsUndisturbed(s') <==>
              IsUndisturbed(s) && (s.threads[t].held >= 1 || IsDead(s, work.counter) || (s.ids[work.counter] == -1 && IsBarren(s))))
  {
    var s' := Apply(s, Start(t, work));
    StartFrame(s, t, work, work.counter);
    hide Holds, Apply, IsDead, IsBarren, NoneIsRefusable;
    if IsUndisturbed(s') {
      forall c | 0 <= c < |s.ids| ensures IsDead(s, c) || NoneIsRefusable(s, c) || IsBarren(s) {
        StartFrame(s, t, work, c);
      }
    }
    if IsUndisturbed(s) && (s.threads[t].held >= 1 || IsDead(s, work.counter) || (s.ids[work.counter] == -1 && IsBarren(s))) {
      forall c | 0 <= c < |s'.ids| ensures IsDead(s', c) || NoneIsRefusable(s', c) || IsBarren(s') {
        StartFrame(s, t, work, c);
      }
    }
  }

  /** When an addition is started, the rows are certain to add up exactly if no lookup that is under
      way can be refused, and the thread has a slot, or the counter is out of use, or it is not
      looked up yet and nobody has or can get a slot. */
  lemma SafeStartIff(s: State, t: nat, work: Work)
    requires Holds(s) && IsEnabled(s, Start(t, work)) && work.delta % 0x1_0000_0000 != 0
    ensures IsSafe(Apply(s, Start(t, work))) <==>
      && IsUndisturbed(s)
      && (s.threads[t].held >= 1 || IsDead(s, work.counter) || (s.ids[work.counter] == -1 && IsBarren(s)))
  {
    assert MayGiveUp(s, Start(t, work));
    hide Holds, Apply, IsDead, IsSafe, IsBarren, IsUndisturbed;
    if MayStart(s, Start(t, work)) {
      StepKeeps(s, Start(t, work));
      StartIsUndisturbed(s, t, work);
      SafeIffUndisturbed(Apply(s, Start(t, work)));
    } else {
      SlotlessStartIsUnsafe(s, t, work);
    }
  }

  // ---------------------------------------------------------------------------------
  // Two runs from the beginning
  // ---------------------------------------------------------------------------------

  /** Steps in which additions are started by threads with slots or with a first lookup. */
  ghost predicate Timely(s: State, steps: seq<Step>, last: State) {
    CanRun(s, steps) && StartInTime(s, steps) && Run(s, steps) == last
  }

  lemma TimelyFirst(s: State, step: Step, rest: seq<Step>, last: State)
    requires IsEnabled(s, step) && MayStart(s, step) && Timely(Apply(s, step), rest, last)
    ensures Timely(s, [step] + rest, last)
  {
    RunFirst(s, step, rest);
    assert ([step] + rest)[1..] == rest;
    hide IsEnabled, MayStart, Apply;
  }

  const ONE: Work := Work(0, 1)

  /** A table of one slot and one row. */
  predicate IsSmall(s: State) {
    && s.Valid() && s.table.maxThreads == 1 && s.table.maxCounters == 1 && s.table.front == [0, 0] && s.table.data == [0]
    && s.rowOf == [1] && s.completed == []
  }

  /** The last steps of an addition that lands in front of the grid. */
  lemma LandsInFront(s: State, t: nat, held: nat, row: nat) returns (steps: seq<Step>, last: State)
    requires IsSmall(s) && t < |s.threads| && s.threads[t] == Pointing(held, row, ONE)
    requires (held == 0 && row == 1) || (held == 1 && row == 0)
    ensures Timely(s, steps, last) && NamesAreVisible(steps)
    ensures last.completed == [(1, 1)] && last.table.data == [0] && last.table.front == [1, 0]
  {
    var s1 := Apply(s, LoadCell(t));
    assert PlaceOf(s.table, row, held) == -1;
    assert s1.threads[t] == Adding(held, row, 0, ONE);
    last := Apply(s1, StoreCell(t));
    assert [0, 0][0 := 1] == [1, 0];
    assert Timely(last, [], last);
    hide IsEnabled, Apply, Timely;
    TimelyFirst(s1, StoreCell(t), [], last);
    TimelyFirst(s, LoadCell(t), [StoreCell(t)] + [], last);
    steps := [LoadCell(t)] + ([StoreCell(t)] + []);
  }

  /** A thread without a slot finds the row cached and is not registered: its addition changes the
      end of the counter name in front of the grid. */
  lemma LateThreadMisplaces() returns (steps: seq<Step>)
    ensures CanRun(Initial(1, 1, 2, [1]), steps) && NamesAreVisible(steps)
    ensures var last := Run(Initial(1, 1, 2, [1]), steps);
            last.completed == [(1, 1)] && last.table.data == [0] && last.table.front == [1, 0]
  {
    var s := Initial(1, 1, 2, [1]);
    assert IsSmall(s) && s.threads == [Ready(0), Ready(0)] && s.ids == [-1];
    hide Initial;
    FirstFinds(s);
    var s2 := s.(threads := [Wanting(0, ONE), Ready(0)], ids := [1]);
    SecondReads(s2);
    var s5 := s2.(threads := [Wanting(0, ONE), Pointing(0, 1, ONE)]);
    var rest, last := LandsInFront(s5, 1, 0, 1);
    hide IsEnabled, Apply, IsSmall;
    RunFirst(Apply(Apply(s2, Start(1, ONE)), TestRow(1)), ReadRow(1), rest);
    RunFirst(Apply(s2, Start(1, ONE)), TestRow(1), [ReadRow(1)] + rest);
    RunFirst(s2, Start(1, ONE), [TestRow(1)] + ([ReadRow(1)] + rest));
    var more := [Start(1, ONE)] + ([TestRow(1)] + ([ReadRow(1)] + rest));
    RunFirst(Apply(s, Start(0, ONE)), FindRow(0), more);
    RunFirst(s, Start(0, ONE), [FindRow(0)] + more);
    steps := [Start(0, ONE)] + ([FindRow(0)] + more);
  }

  lemma FirstFinds(s: State)
    requires s.Valid() && s.threads == [Ready(0), Ready(0)] && s.ids == [-1] && s.rowOf == [1]
    ensures IsEnabled(s, Start(0, ONE)) && IsEnabled(Apply(s, Start(0, ONE)), FindRow(0))
    ensures Apply(Apply(s, Start(0, ONE)), FindRow(0)) == s.(threads := [Wanting(0, ONE), Ready(0)], ids := [1])
  {
    var s1 := Apply(s, Start(0, ONE));
    assert s1 == s.(threads := [Finding(0, ONE), Ready(0)]);
  }

  lemma SecondReads(s: State)
    requires s.Valid() && s.threads == [Wanting(0, ONE), Ready(0)] && s.ids == [1]
    ensures IsEnabled(s, Start(1, ONE))
    ensures var s1 := Apply(s, Start(1, ONE));
            IsEnabled(s1, TestRow(1)) && IsEnabled(Apply(s1, TestRow(1)), ReadRow(1))
            && Apply(Apply(s1, TestRow(1)), ReadRow(1)) == s.(threads := [Wanting(0, ONE), Pointing(0, 1, ONE)])
  {
    var s1 := Apply(s, Start(1, ONE));
    assert s1 == s.(threads := [Wanting(0, ONE), Locating(0, ONE)]);
    var s2 := Apply(s1, TestRow(1));
    assert s2 == s.(threads := [Wanting(0, ONE), Choosing(0, ONE)]);
  }

  /** The second thread is refused a slot between the two reads of the first one, which has a slot:
      the addition of the first one changes the end of the counter name, although each thread had
      a slot or was among the first to look the counter up. */
  lemma RefusalMisplaces() returns (steps: seq<Step>)
    ensures CanRun(Initial(1, 1, 2, [1]), steps) && StartInTime(Initial(1, 1, 2, [1]), steps) && NamesAreVisible(steps)
    ensures var last := Run(Initial(1, 1, 2, [1]), steps);
            last.completed == [(1, 1)] && last.table.data == [0] && last.table.front == [1, 0]
  {
    var s1 := FirstRegisters(Initial(1, 1, 2, [1]));
    hide IsEnabled, Apply, IsSmall, Timely, Initial, NamesAreVisible;
    var rest, last := OvertakenWhileReading(s1);
    steps := FirstHasRegistered(Initial(1, 1, 2, [1]), s1, rest, last);
    TimelyRun(Initial(1, 1, 2, [1]), steps, last);
  }

  lemma OvertakenWhileReading(s: State) returns (steps: seq<Step>, last: State)
    requires IsSmall(s) && s.threads == [Ready(1), Ready(0)] && s.ids == [-1] && !s.locked && s.table.names[0] != ""
    ensures Timely(s, steps, last) && NamesAreVisible(steps)
    ensures last.completed == [(1, 1)] && last.table.data == [0] && last.table.front == [1, 0]
  {
    var s2 := s.(threads := [Choosing(1, ONE), Wanting(0, ONE)], ids := [1]);
    var s3 := s.(threads := [Choosing(1, ONE), Ready(0)], ids := [0]);
    assert IsSmall(s2) && IsSmall(s3);
    hide IsEnabled, Apply, IsSmall, Timely, NamesAreVisible;
    steps, last := ReadsZero(s3);
    steps := SecondIsRefused(s2, steps, last);
    steps := BothLookUp(s, steps, last);
  }

  lemma ReadsZero(s: State) returns (steps: seq<Step>, last: State)
    requires IsSmall(s) && s.threads == [Choosing(1, ONE), Ready(0)] && s.ids == [0]
    ensures Timely(s, steps, last) && NamesAreVisible(steps)
    ensures last.completed == [(1, 1)] && last.table.data == [0] && last.table.front == [1, 0]
  {
    var next := s.(threads := [Pointing(1, 0, ONE), Ready(0)]);
    assert IsEnabled(s, ReadRow(0)) && Apply(s, ReadRow(0)) == next;
    assert IsSmall(next);
    hide IsEnabled, Apply, IsSmall, Timely;
    steps, last := LandsInFront(next, 0, 1, 0);
    TimelyFirst(s, ReadRow(0), steps, last);
    steps := [ReadRow(0)] + steps;
  }

  lemma TimelyRun(s: State, steps: seq<Step>, last: State)
    requires Timely(s, steps, last)
    ensures CanRun(s, steps) && StartInTime(s, steps) && Run(s, steps) == last
  {
  }

  /** The state in which the first of two threads has the only slot. */
  lemma FirstRegisters(s: State) returns (next: State)
    requires s == Initial(1, 1, 2, [1])
    ensures IsEnabled(s, Acquire(0, "")) && IsEnabled(Apply(s, Acquire(0, "")), Look(0))
    ensures IsEnabled(Apply(Apply(s, Acquire(0, "")), Look(0)), Claim(0, 0, 0))
    ensures next == Apply(Apply(Apply(s, Acquire(0, "")), Look(0)), Claim(0, 0, 0))
    ensures IsSmall(next) && next.threads == [Ready(1), Ready(0)] && next.ids == [-1] && !next.locked && next.table.names[0] != ""
  {
    UnknownIsNotEmpty();
    hide Stored;
    assert s.threads == [Ready(0), Ready(0)] && s.ids == [-1] && s.table.names == [""];
    var s1 := Apply(s, Acquire(0, ""));
    assert s1.threads == [Scanning(0, "", 1, None), Ready(0)];
    var s2 := Apply(s1, Look(0));
    assert s2.threads == [Claiming(0, "", 1, None), Ready(0)];
    next := Apply(s2, Claim(0, 0, 0));
    assert next.threads == [Ready(1), Ready(0)];
    assert next.table.front == [0, 0] && next.table.data == [0];
  }

  lemma FirstHasRegistered(s: State, next: State, rest: seq<Step>, last: State) returns (steps: seq<Step>)
    requires IsEnabled(s, Acquire(0, "")) && IsEnabled(Apply(s, Acquire(0, "")), Look(0))
    requires IsEnabled(Apply(Apply(s, Acquire(0, "")), Look(0)), Claim(0, 0, 0))
    requires next == Apply(Apply(Apply(s, Acquire(0, "")), Look(0)), Claim(0, 0, 0))
    requires Timely(next, rest, last) && NamesAreVisible(rest)
    ensures Timely(s, steps, last) && NamesAreVisible(steps)
  {
    var s1 := Apply(s, Acquire(0, ""));
    hide IsEnabled, Apply, Timely;
    TimelyFirst(Apply(s1, Look(0)), Claim(0, 0, 0), rest, last);
    TimelyFirst(s1, Look(0), [Claim(0, 0, 0)] + rest, last);
    TimelyFirst(s, Acquire(0, ""), [Look(0)] + ([Claim(0, 0, 0)] + rest), last);
    steps := [Acquire(0, "")] + ([Look(0)] + ([Claim(0, 0, 0)] + rest));
  }

  lemma BothStart(s: State)
    requires IsSmall(s) && s.threads == [Ready(1), Ready(0)] && s.ids == [-1]
    ensures IsEnabled(s, Start(0, ONE)) && MayStart(s, Start(0, ONE))
    ensures var s1 := Apply(s, Start(0, ONE));
            IsEnabled(s1, Start(1, ONE)) && MayStart(s1, Start(1, ONE))
            && Apply(s1, Start(1, ONE)) == s.(threads := [Finding(1, ONE), Finding(0, ONE)])
  {
    assert Apply(s, Start(0, ONE)) == s.(threads := [Finding(1, ONE), Ready(0)]);
  }

  lemma BothFind(s: State)
    requires IsSmall(s) && s.threads == [Finding(1, ONE), Finding(0, ONE)] && s.ids == [-1]
    ensures IsEnabled(s, FindRow(0)) && IsEnabled(Apply(s, FindRow(0)), FindRow(1))
    ensures Apply(Apply(s, FindRow(0)), FindRow(1)) == s.(threads := [Locating(1, ONE), Wanting(0, ONE)], ids := [1])
  {
    assert Apply(s, FindRow(0)) == s.(threads := [Locating(1, ONE), Finding(0, ONE)], ids := [1]);
  }

  /** Both threads look the counter up, and the first one tests the cached row. */
  lemma BothLookUp(s: State, rest: seq<Step>, last: State) returns (steps: seq<Step>)
    requires IsSmall(s) && s.threads == [Ready(1), Ready(0)] && s.ids == [-1]
    requires Timely(s.(threads := [Choosing(1, ONE), Wanting(0, ONE)], ids := [1]), rest, last) && NamesAreVisible(rest)
    ensures Timely(s, steps, last) && NamesAreVisible(steps)
  {
    var s2 := s.(threads := [Finding(1, ONE), Finding(0, ONE)]);
    var s4 := s.(threads := [Locating(1, ONE), Wanting(0, ONE)], ids := [1]);
    assert IsSmall(s2);
    BothStart(s);
    BothFind(s2);
    assert IsEnabled(s4, TestRow(0)) && Apply(s4, TestRow(0)) == s.(threads := [Choosing(1, ONE), Wanting(0, ONE)], ids := [1]);
    hide IsEnabled, Apply, Timely, IsSmall;
    TimelyFirst(s4, TestRow(0), rest, last);
    TimelyFirst(Apply(s2, FindRow(0)), FindRow(1), [TestRow(0)] + rest, last);
    TimelyFirst(s2, FindRow(0), [FindRow(1)] + ([TestRow(0)] + rest), last);
    var more := [FindRow(0)] + ([FindRow(1)] + ([TestRow(0)] + rest));
    TimelyFirst(Apply(s, Start(0, ONE)), Start(1, ONE), more, last);
    TimelyFirst(s, Start(0, ONE), [Start(1, ONE)] + more, last);
    steps := [Start(0, ONE)] + ([Start(1, ONE)] + more);
  }

  /** The second thread finds the only slot taken and clears the cached row. */
  lemma SecondIsRefused(s: State, rest: seq<Step>, last: State) returns (steps: seq<Step>)
    requires IsSmall(s) && s.threads == [Choosing(1, ONE), Wanting(0, ONE)] && s.ids == [1] && !s.locked && s.table.names[0] != ""
    requires Timely(s.(threads := [Choosing(1, ONE), Ready(0)], ids := [0]), rest, last) && NamesAreVisible(rest)
    ensures Timely(s, steps, last) && NamesAreVisible(steps)
  {
    var s1 := s.(threads := [Choosing(1, ONE), Scanning(0, "", 1, Some(ONE))], locked := true);
    var s2 := s.(threads := [Choosing(1, ONE), Scanning(0, "", 2, Some(ONE))], locked := true);
    var s3 := s.(threads := [Choosing(1, ONE), Failing(0, ONE)]);
    assert IsEnabled(s, AcquireFor(1)) && Apply(s, AcquireFor(1)) == s1;
    assert IsEnabled(s1, Look(1)) && Apply(s1, Look(1)) == s2;
    assert IsEnabled(s2, Look(1)) && Apply(s2, Look(1)) == s3;
    assert IsEnabled(s3, GiveUp(1)) && Apply(s3, GiveUp(1)) == s.(threads := [Choosing(1, ONE), Ready(0)], ids := [0]);
    hide IsEnabled, Apply, Timely, IsSmall;
    TimelyFirst(s3, GiveUp(1), rest, last);
    TimelyFirst(s2, Look(1), [GiveUp(1)] + rest, last);
    TimelyFirst(s1, Look(1), [Look(1)] + ([GiveUp(1)] + rest), last);
    TimelyFirst(s, AcquireFor(1), [Look(1)] + ([Look(1)] + ([GiveUp(1)] + rest)), last);
    steps := [AcquireFor(1)] + ([Look(1)] + ([Look(1)] + ([GiveUp(1)] + rest)));
  }
}
