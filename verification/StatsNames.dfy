/** Counter names of src/chromium/metrics/stats_table.cc: rows of a shared table that any
    process may add to, and a cache of row numbers in each process.

    A lookup reads the cache, adds or finds a row under the shared-memory lock, and fills the
    cache, in three separate critical sections.
  */
module StatsNames {
  import opened CStrings
  import opened StatsLayout

  // ---------------------------------------------------------------------------------
  // Finding a row
  // ---------------------------------------------------------------------------------

  function Prefix(s: string, n: nat): string {
    if |s| <= n then s else s[..n]
  }

  /** `strncmp` finds no difference in the first `n` characters of two C strings. */
  predicate SameStart(a: string, b: string, n: nat) {
    Prefix(a, n) == Prefix(b, n)
  }

  predicate Matches(row: string, name: string) {
    SameStart(row, CString(name), MAX_COUNTER_NAME_LENGTH)
  }

  /** The search from row `index` on; `free` is the empty row that was noted, zero if none. */
  function RowFrom(rows: seq<string>, name: string, index: nat, free: nat): nat
    requires 1 <= index <= |rows| + 1
    decreases |rows| + 1 - index
  {
    if index > |rows| then free
    else if rows[index - 1] == "" && free == 0 then RowFrom(rows, name, index + 1, index)
    else if Matches(rows[index - 1], name) then index
    else RowFrom(rows, name, index + 1, free)
  }

  function FindRow(rows: seq<string>, name: string): nat {
    RowFrom(rows, name, 1, 0)
  }

  /** Rows after `AddCounter` has written the name to the row it found. */
  function AddRow(rows: seq<string>, name: string): seq<string> {
    var id := FindRow(rows, name);
    if 1 <= id <= |rows| then rows[id - 1 := Stored(name, MAX_COUNTER_NAME_LENGTH)] else rows
  }

  /** A name a row can hold whole: not empty, and short enough for the buffer. */
  predicate IsGoodName(name: string) {
    1 <= |CString(name)| < MAX_COUNTER_NAME_LENGTH
  }

  /** The table of rows: C strings that fit the buffer, no two alike but the empty ones. */
  predicate AreRows(rows: seq<string>) {
    && (forall i :: 0 <= i < |rows| ==> |rows[i]| < MAX_COUNTER_NAME_LENGTH)
    && (forall i, j :: 0 <= i < j < |rows| && rows[i] != "" ==> rows[i] != rows[j])
  }

  predicate IsRowOf(rows: seq<string>, name: string, id: nat) {
    1 <= id <= |rows| && rows[id - 1] == CString(name)
  }

  lemma GoodMatch(row: string, name: string)
    requires IsGoodName(name) && |row| < MAX_COUNTER_NAME_LENGTH
    ensures Matches(row, name) <==> row == CString(name)
  {
  }

  lemma GoodIsStored(name: string)
    requires IsGoodName(name)
    ensures Stored(name, MAX_COUNTER_NAME_LENGTH) == CString(name)
  {
  }

  /** Where the search ends for a good name: at the row that holds it, or else at the empty row
      that was noted or the first one further on. */
  lemma {:induction false} RowFromGood(rows: seq<string>, name: string, index: nat, free: nat)
    requires 1 <= index <= |rows| + 1 && IsGoodName(name) && AreRows(rows)
    requires free > 0 ==> free < index && rows[free - 1] == ""
    ensures var r := RowFrom(rows, name, index, free);
            r <= |rows| && (r > 0 ==> rows[r - 1] == CString(name) || rows[r - 1] == "")
            && (r == 0 ==> free == 0)
    ensures CString(name) in rows[index - 1..] ==>
      RowFrom(rows, name, index, free) > 0 && rows[RowFrom(rows, name, index, free) - 1] == CString(name)
    ensures free == 0 && "" in rows[index - 1..] ==> RowFrom(rows, name, index, free) > 0
    ensures CString(name) !in rows[index - 1..] ==>
      var r := RowFrom(rows, name, index, free);
      && (free > 0 ==> r == free)
      && (free == 0 && r > 0 ==> index <= r && rows[r - 1] == "" && "" !in rows[index - 1..r - 1])
    decreases |rows| + 1 - index
  {
    hide Matches, CString;
    if index <= |rows| {
      assert CString(name) != "" by { GoodIsNotEmpty(name); }
      GoodMatch(rows[index - 1], name);
      assert rows[index - 1..] == [rows[index - 1]] + rows[index..];
      if rows[index - 1] == "" && free == 0 {
        RowFromGood(rows, name, index + 1, index);
      } else if !Matches(rows[index - 1], name) {
        RowFromGood(rows, name, index + 1, free);
      }
    }
  }

  lemma GoodIsNotEmpty(name: string)
    requires IsGoodName(name)
    ensures CString(name) != ""
  {
  }

  /** Adding a good name keeps every row that is taken and leaves exactly one row with it,
      unless the table is full of others. */
  lemma AddRowGood(rows: seq<string>, name: string)
    requires IsGoodName(name) && AreRows(rows)
    ensures var (id, rows') := (FindRow(rows, name), AddRow(rows, name));
            && id <= |rows| && |rows'| == |rows| && AreRows(rows')
            && (forall i :: 0 <= i < |rows| && rows[i] != "" ==> rows'[i] == rows[i])
            && (id > 0 ==> IsRowOf(rows', name, id))
            && (id == 0 ==> rows' == rows && IsFullWithout(rows, name))
  {
    GoodIsStored(name);
    RowFromGood(rows, name, 1, 0);
    hide CString, Stored, RowFrom;
    var id, rows' := FindRow(rows, name), AddRow(rows, name);
    assert rows[0..] == rows;
    if id == 0 {
      assert "" !in rows && CString(name) !in rows;
    } else if rows[id - 1] == "" {
      assert CString(name) !in rows by { GoodIsNotEmpty(name); }
    }
  }

  /** No row is empty and none holds the name. */
  predicate IsFullWithout(rows: seq<string>, name: string) {
    forall i :: 0 <= i < |rows| ==> rows[i] != "" && rows[i] != CString(name)
  }

  // ---------------------------------------------------------------------------------
  // Lookups by many threads of many processes
  // ---------------------------------------------------------------------------------

  datatype Phase =
    | Idle
    | Looking(name: string)            // before the cache is read
    | Adding(name: string)             // it was not cached
    | Caching(name: string, id: nat)   // the row is known, before the cache is filled

  datatype State = State(rows: seq<string>, caches: seq<map<string, nat>>, processOf: seq<nat>, threads: seq<Phase>,
                         returned: seq<(string, nat)>)
  {
    predicate Valid() {
      |processOf| == |threads| && forall t :: 0 <= t < |processOf| ==> processOf[t] < |caches|
    }
  }

  datatype Step = Call(t: nat, name: string) | Look(t: nat) | Add(t: nat) | Cache(t: nat)

  function Initial(maxCounters: nat, processes: nat, processOf: seq<nat>): State {
    State(seq(maxCounters, _ => ""), seq(processes, _ => map[]), processOf, seq(|processOf|, _ => Idle), [])
  }

  predicate IsEnabled(s: State, step: Step) {
    && s.Valid() && step.t < |s.threads|
    && match step
       case Call(t, name) => s.threads[t].Idle?
       case Look(t) => s.threads[t].Looking?
       case Add(t) => s.threads[t].Adding?
       case Cache(t) => s.threads[t].Caching?
  }

  function Cached(cache: map<string, nat>, name: string, id: nat): map<string, nat> {
    cache[name := id]
  }

  function Return(s: State, t: nat, name: string, id: nat): State
    requires t < |s.threads|
  {
    s.(threads := s.threads[t := Idle], returned := s.returned + [(name, id)])
  }

  function Apply(s: State, step: Step): State
    requires IsEnabled(s, step)
  {
    var t, process := step.t, s.processOf[step.t];
    match step
    case Call(t, name) => s.(threads := s.threads[t := Looking(name)])
    case Look(t) =>
      var name := s.threads[t].name;
      if name in s.caches[process] then Return(s, t, name, s.caches[process][name])
      else s.(threads := s.threads[t := Adding(name)])
    case Add(t) =>
      var name := s.threads[t].name;
      var id := FindRow(s.rows, name);
      if id == 0 then Return(s, t, name, 0)
      else s.(rows := AddRow(s.rows, name), threads := s.threads[t := Caching(name, id)])
    case Cache(t) =>
      var (name, id) := (s.threads[t].name, s.threads[t].id);
      Return(s.(caches := s.caches[process := Cached(s.caches[process], name, id)]), t, name, id)
  }

  predicate CanRun(s: State, steps: seq<Step>)
    decreases |steps|
  {
    steps == [] || (IsEnabled(s, steps[0]) && CanRun(Apply(s, steps[0]), steps[1..]))
  }

  function Run(s: State, steps: seq<Step>): State
    requires CanRun(s, steps)
    decreases |steps|
  {
    if steps == [] then s else Run(Apply(s, steps[0]), steps[1..])
  }

  predicate NamesAreGood(steps: seq<Step>) {
    forall i :: 0 <= i < |steps| && steps[i].Call? ==> IsGoodName(steps[i].name)
  }

  // ---------------------------------------------------------------------------------
  // The invariant
  // ---------------------------------------------------------------------------------

  predicate PhaseHolds(rows: seq<string>, phase: Phase) {
    match phase
    case Idle => true
    case Looking(name) => IsGoodName(name)
    case Adding(name) => IsGoodName(name)
    case Caching(name, id) => IsGoodName(name) && IsRowOf(rows, name, id)
  }

  /** A result the table bears out: the row of the name, or none because the table is full. */
  predicate IsBorneOut(rows: seq<string>, name: string, id: nat) {
    if id > 0 then IsRowOf(rows, name, id) else IsFullWithout(rows, name)
  }

  predicate CacheHolds(rows: seq<string>, cache: map<string, nat>) {
    forall name :: name in cache ==> IsGoodName(name) && IsRowOf(rows, name, cache[name])
  }

  predicate Holds(s: State) {
    && s.Valid() && AreRows(s.rows)
    && (forall t :: 0 <= t < |s.threads| ==> PhaseHolds(s.rows, s.threads[t]))
    && (forall p :: 0 <= p < |s.caches| ==> CacheHolds(s.rows, s.caches[p]))
    && (forall i :: 0 <= i < |s.returned| ==> IsGoodName(s.returned[i].0) && IsBorneOut(s.rows, s.returned[i].0, s.returned[i].1))
  }

  /** Rows that are taken stay as they are. */
  predicate Grows(rows: seq<string>, rows': seq<string>) {
    |rows'| == |rows| && forall i :: 0 <= i < |rows| && rows[i] != "" ==> rows'[i] == rows[i]
  }

  lemma BorneOutStays(rows: seq<string>, rows': seq<string>, name: string, id: nat)
    requires Grows(rows, rows') && IsGoodName(name) && IsBorneOut(rows, name, id)
    ensures IsBorneOut(rows', name, id)
  {
    GoodIsNotEmpty(name);
    hide CString;
  }

  lemma PhaseStays(rows: seq<string>, rows': seq<string>, phase: Phase)
    requires Grows(rows, rows') && PhaseHolds(rows, phase)
    ensures PhaseHolds(rows', phase)
  {
    if phase.Caching? { BorneOutStays(rows, rows', phase.name, phase.id); }
  }

  lemma CacheStays(rows: seq<string>, rows': seq<string>, cache: map<string, nat>)
    requires Grows(rows, rows') && CacheHolds(rows, cache)
    ensures CacheHolds(rows', cache)
  {
    forall name | name in cache ensures IsRowOf(rows', name, cache[name]) {
      BorneOutStays(rows, rows', name, cache[name]);
    }
  }

  /** Everything but the acting thread, after rows were added. */
  lemma OthersStay(s: State, rows': seq<string>)
    requires Holds(s) && Grows(s.rows, rows')
    ensures forall t :: 0 <= t < |s.threads| ==> PhaseHolds(rows', s.threads[t])
    ensures forall p :: 0 <= p < |s.caches| ==> CacheHolds(rows', s.caches[p])
    ensures forall i :: 0 <= i < |s.returned| ==> IsBorneOut(rows', s.returned[i].0, s.returned[i].1)
  {
    hide PhaseHolds, CacheHolds, IsBorneOut, IsGoodName, Grows;
    forall t | 0 <= t < |s.threads| ensures PhaseHolds(rows', s.threads[t]) {
      PhaseStays(s.rows, rows', s.threads[t]);
    }
    forall p | 0 <= p < |s.caches| ensures CacheHolds(rows', s.caches[p]) {
      CacheStays(s.rows, rows', s.caches[p]);
    }
    forall i | 0 <= i < |s.returned| ensures IsBorneOut(rows', s.returned[i].0, s.returned[i].1) {
      BorneOutStays(s.rows, rows', s.returned[i].0, s.returned[i].1);
    }
  }

  lemma StepKeeps(s: State, step: Step)
    requires Holds(s) && IsEnabled(s, step) && (step.Call? ==> IsGoodName(step.name))
    ensures Holds(Apply(s, step)) && Grows(s.rows, Apply(s, step).rows)
  {
    hide IsGoodName, AreRows, FindRow, AddRow, CString;
    var s' := Apply(s, step);
    assert PhaseHolds(s.rows, s.threads[step.t]);
    assert CacheHolds(s.rows, s.caches[s.processOf[step.t]]);
    if step.Add? {
      AddRowGood(s.rows, s.threads[step.t].name);
      OthersStay(s, s'.rows);
    }
  }

  lemma {:induction false} RunKeeps(s: State, steps: seq<Step>)
    requires Holds(s) && CanRun(s, steps) && NamesAreGood(steps)
    ensures Holds(Run(s, steps)) && Grows(s.rows, Run(s, steps).rows)
    decreases |steps|
  {
    if steps != [] {
      hide Holds, Apply, IsEnabled;
      StepKeeps(s, steps[0]);
      RunKeeps(Apply(s, steps[0]), steps[1..]);
    }
  }

  predicate AreProcesses(processOf: seq<nat>, processes: nat) {
    forall t :: 0 <= t < |processOf| ==> processOf[t] < processes
  }

  lemma InitialHolds(maxCounters: nat, processes: nat, processOf: seq<nat>)
    requires AreProcesses(processOf, processes)
    ensures Holds(Initial(maxCounters, processes, processOf))
  {
  }

  /** In every run over good names: no two rows hold the same name, every cache entry is the row
      of its name, all lookups of one name return one row, or all of them none, and different
      names are never given one row. */
  lemma LookupsAgree(maxCounters: nat, processes: nat, processOf: seq<nat>, steps: seq<Step>)
    requires AreProcesses(processOf, processes) && CanRun(Initial(maxCounters, processes, processOf), steps)
    requires NamesAreGood(steps)
    ensures var s := Run(Initial(maxCounters, processes, processOf), steps);
            && AreRows(s.rows) && (forall p :: 0 <= p < |s.caches| ==> CacheHolds(s.rows, s.caches[p]))
            && Agree(s.returned) && AreApart(s.returned)
  {
    InitialHolds(maxCounters, processes, processOf);
    RunKeeps(Initial(maxCounters, processes, processOf), steps);
    var s := Run(Initial(maxCounters, processes, processOf), steps);
    hide Initial, CanRun, Run, CString, CacheHolds, PhaseHolds;
    forall i, j | 0 <= i < |s.returned| && 0 <= j < |s.returned| && s.returned[i].0 == s.returned[j].0
      ensures s.returned[i].1 == s.returned[j].1
    {
      SameRow(s.rows, s.returned[i].0, s.returned[i].1, s.returned[j].1);
    }
  }

  /** Names that are given one row are the same as C strings. */
  predicate AreApart(returned: seq<(string, nat)>) {
    forall i, j :: 0 <= i < |returned| && 0 <= j < |returned| && returned[i].1 == returned[j].1 > 0 ==>
      CString(returned[i].0) == CString(returned[j].0)
  }

  /** An answer that the table bears out is where a search would end now. */
  lemma AnswerIsFound(rows: seq<string>, name: string, id: nat)
    requires AreRows(rows) && IsGoodName(name) && IsBorneOut(rows, name, id)
    ensures FindRow(rows, name) == id
  {
    GoodIsNotEmpty(name);
    RowFromGood(rows, name, 1, 0);
    hide CString, RowFrom, Matches;
    assert rows[0..] == rows;
    if id > 0 {
      assert CString(name) in rows;
    }
  }

  /** A search depends on the name as a C string only. */
  lemma {:induction false} SameSearch(rows: seq<string>, name: string, other: string, index: nat, free: nat)
    requires CString(name) == CString(other) && 1 <= index <= |rows| + 1
    ensures RowFrom(rows, name, index, free) == RowFrom(rows, other, index, free)
    decreases |rows| + 1 - index
  {
    if index <= |rows| {
      SameSearch(rows, name, other, index + 1, index);
      SameSearch(rows, name, other, index + 1, free);
    }
  }

  /** In every run over good names, all answers ever given are one function of the name: where a
      search of the table ends after the run. */
  lemma AnswersAreRows(maxCounters: nat, processes: nat, processOf: seq<nat>, steps: seq<Step>)
    requires AreProcesses(processOf, processes) && CanRun(Initial(maxCounters, processes, processOf), steps)
    requires NamesAreGood(steps)
    ensures var s := Run(Initial(maxCounters, processes, processOf), steps);
            && AreRows(s.rows) && |s.rows| == maxCounters
            && forall i :: 0 <= i < |s.returned| ==>
                 && IsGoodName(s.returned[i].0) && IsBorneOut(s.rows, s.returned[i].0, s.returned[i].1)
                 && s.returned[i].1 == FindRow(s.rows, s.returned[i].0)
  {
    InitialHolds(maxCounters, processes, processOf);
    RunKeeps(Initial(maxCounters, processes, processOf), steps);
    var s := Run(Initial(maxCounters, processes, processOf), steps);
    assert |s.rows| == |Initial(maxCounters, processes, processOf).rows| == maxCounters;
    hide Initial, CanRun, Run, CString, CacheHolds, PhaseHolds, FindRow, AreRows;
    forall i | 0 <= i < |s.returned| ensures s.returned[i].1 == FindRow(s.rows, s.returned[i].0) {
      AnswerIsFound(s.rows, s.returned[i].0, s.returned[i].1);
    }
  }

  predicate Agree(returned: seq<(string, nat)>) {
    forall i, j :: 0 <= i < |returned| && 0 <= j < |returned| && returned[i].0 == returned[j].0 ==>
      returned[i].1 == returned[j].1
  }

  lemma SameRow(rows: seq<string>, name: string, id: nat, other: nat)
    requires AreRows(rows) && IsGoodName(name) && IsBorneOut(rows, name, id) && IsBorneOut(rows, name, other)
    ensures id == other
  {
    GoodIsNotEmpty(name);
    hide CString;
  }

  // ---------------------------------------------------------------------------------
  // Names a row cannot hold
  // ---------------------------------------------------------------------------------

  predicate NamesAreGoodOr(steps: seq<Step>, name: string) {
    forall i :: 0 <= i < |steps| && steps[i].Call? ==> steps[i].name == name || IsGoodName(steps[i].name)
  }

  /** Whether in every run over this name and good ones the lookups of a name agree, and different
      names are given different rows. */
  ghost predicate IsSafeName(name: string) {
    forall maxCounters: nat, processes: nat, processOf: seq<nat>, steps: seq<Step> ::
      (AreProcesses(processOf, processes) && CanRun(Initial(maxCounters, processes, processOf), steps) && NamesAreGoodOr(steps, name))
      ==> IsRight(Run(Initial(maxCounters, processes, processOf), steps).returned)
  }

  predicate IsRight(returned: seq<(string, nat)>) {
    Agree(returned) && AreApart(returned)
  }

  lemma RunFirst(s: State, step: Step, rest: seq<Step>)
    ensures CanRun(s, [step] + rest) <==> IsEnabled(s, step) && CanRun(Apply(s, step), rest)
    ensures CanRun(s, [step] + rest) ==> Run(s, [step] + rest) == Run(Apply(s, step), rest)
  {
    assert ([step] + rest)[1..] == rest;
  }

  function LookupSteps(t: nat, name: string): seq<Step> {
    [Call(t, name)] + ([Look(t)] + ([Add(t)] + ([Cache(t)] + [])))
  }

  /** A lookup that no other thread interrupts, of a name that is not cached. */
  lemma OneLookup(s: State, t: nat, name: string, rest: seq<Step>)
    requires s.Valid() && t < |s.threads| && s.threads[t] == Idle && name !in s.caches[s.processOf[t]]
    requires FindRow(s.rows, name) > 0
    ensures var s' := s.(rows := AddRow(s.rows, name),
                         caches := s.caches[s.processOf[t] := Cached(s.caches[s.processOf[t]], name, FindRow(s.rows, name))],
                         returned := s.returned + [(name, FindRow(s.rows, name))]);
            CanRun(s', rest) ==> CanRun(s, LookupSteps(t, name) + rest) && Run(s, LookupSteps(t, name) + rest) == Run(s', rest)
  {
    hide FindRow, AddRow, Run, CanRun;
    var s1 := Apply(s, Call(t, name));
    var s2 := Apply(s1, Look(t));
    var s3 := Apply(s2, Add(t));
    var s4 := Apply(s3, Cache(t));
    assert s4.threads == s.threads;
    var steps := [Call(t, name)] + ([Look(t)] + ([Add(t)] + ([Cache(t)] + rest)));
    assert LookupSteps(t, name) + rest == steps;
    hide Apply, IsEnabled;
    RunFirst(s3, Cache(t), rest);
    RunFirst(s2, Add(t), [Cache(t)] + rest);
    RunFirst(s1, Look(t), [Add(t)] + ([Cache(t)] + rest));
    RunFirst(s, Call(t, name), [Look(t)] + ([Add(t)] + ([Cache(t)] + rest)));
  }

  lemma {:induction false} PlainName(name: string)
    requires '\0' !in name
    ensures CString(name) == name
  {
    if name != "" { PlainName(name[1..]); }
  }

  /** One row of the search. */
  lemma RowStep(rows: seq<string>, name: string, index: nat, free: nat)
    requires 1 <= index <= |rows|
    ensures rows[index - 1] == "" && free == 0 ==> RowFrom(rows, name, index, free) == RowFrom(rows, name, index + 1, index)
    ensures !(rows[index - 1] == "" && free == 0) && Matches(rows[index - 1], name) ==> RowFrom(rows, name, index, free) == index
    ensures !(rows[index - 1] == "" && free == 0) && !Matches(rows[index - 1], name) ==>
      RowFrom(rows, name, index, free) == RowFrom(rows, name, index + 1, free)
    ensures RowFrom(rows, name, |rows| + 1, free) == free
  {
    hide Matches;
  }

  /** The search of a table of three rows. */
  lemma ThreeRows(rows: seq<string>, name: string)
    requires |rows| == 3
    ensures rows == ["", "", ""] ==> FindRow(rows, name) == if Matches("", name) then 2 else 1
    ensures rows == ["", "", ""] && !Matches("", name) ==> AddRow(rows, name) == [Stored(name, MAX_COUNTER_NAME_LENGTH), "", ""]
    ensures rows == ["", "", ""] && Matches("", name) ==> AddRow(rows, name) == ["", Stored(name, MAX_COUNTER_NAME_LENGTH), ""]
    ensures rows[0] != "" && rows[1] == rows[2] == "" && !Matches(rows[0], name) && !Matches("", name) ==> FindRow(rows, name) == 2
    ensures rows[0] == rows[2] == "" && rows[1] != "" && !Matches(rows[1], name) && Matches("", name) ==> FindRow(rows, name) == 3
  {
    hide RowFrom, Matches, Stored;
    RowStep(rows, name, 1, 0);
    RowStep(rows, name, 2, 0);
    RowStep(rows, name, 2, 1);
    RowStep(rows, name, 3, 1);
    RowStep(rows, name, 3, 2);
  }

  /** A name that does not fit is stored cut off, and found by no search. */
  lemma LongNameRows(name: string)
    requires |CString(name)| >= MAX_COUNTER_NAME_LENGTH
    ensures FindRow(["", "", ""], name) == 1 && FindRow(AddRow(["", "", ""], name), name) == 2
  {
    var cut := CString(name)[..MAX_COUNTER_NAME_LENGTH - 1];
    assert Stored(name, MAX_COUNTER_NAME_LENGTH) == cut;
    assert !Matches("", name) && !Matches(cut, name);
    hide Matches, Stored, CString, FindRow, AddRow;
    ThreeRows(["", "", ""], name);
    ThreeRows([cut, "", ""], name);
  }

  lemma UnknownIsStored()
    ensures Stored("", MAX_COUNTER_NAME_LENGTH) == UNKNOWN_NAME
    ensures Matches("", "") && !Matches(UNKNOWN_NAME, "")
  {
    PlainName(UNKNOWN_NAME);
  }

  /** The empty name matches the second empty row, which then holds another name. */
  lemma EmptyNameRows()
    ensures FindRow(["", "", ""], "") == 2 && FindRow(AddRow(["", "", ""], ""), "") == 3
  {
    UnknownIsStored();
    hide Matches, Stored, CString, FindRow, AddRow;
    ThreeRows(["", "", ""], "");
    ThreeRows(["", UNKNOWN_NAME, ""], "");
  }

  /** A name that starts with a NUL is given the second row and leaves it empty, so that it is
      given to another name. */
  lemma InvisibleNameRows(name: string)
    requires name != "" && CString(name) == ""
    ensures FindRow(["", "", ""], name) == 2 && AddRow(["", "", ""], name) == ["", "", ""]
    ensures FindRow(["", "", ""], "a") == 1 && AddRow(["", "", ""], "a") == ["a", "", ""]
    ensures FindRow(["a", "", ""], "b") == 2 && CString("b") != CString(name)
  {
    PlainName("a");
    PlainName("b");
    assert Stored(name, MAX_COUNTER_NAME_LENGTH) == "" && Stored("a", MAX_COUNTER_NAME_LENGTH) == "a";
    assert Matches("", name) && !Matches("", "a") && !Matches("", "b") && !Matches("a", "b") by {
      assert "a"[0] != "b"[0];
    }
    hide Matches, Stored, CString, FindRow, AddRow;
    ThreeRows(["", "", ""], name);
    ThreeRows(["", "", ""], "a");
    ThreeRows(["a", "", ""], "b");
  }

  /** Lookups by one process each, one after the other, from the `t`-th on. */
  function Lookups(names: seq<string>, t: nat): seq<Step>
    requires t <= |names|
    decreases |names| - t
  {
    if t == |names| then [] else LookupSteps(t, names[t]) + Lookups(names, t + 1)
  }

  /** The rows after the first lookups, each by a process of its own. */
  function RowsAfter(rows: seq<string>, names: seq<string>): seq<string> {
    if names == [] then rows else AddRow(RowsAfter(rows, names[..|names| - 1]), names[|names| - 1])
  }

  function Results(rows: seq<string>, names: seq<string>): (r: seq<(string, nat)>)
    ensures |r| == |names|
  {
    if names == [] then []
    else
      var front, last := names[..|names| - 1], names[|names| - 1];
      Results(rows, front) + [(last, FindRow(RowsAfter(rows, front), last))]
  }

  predicate AllFound(rows: seq<string>, names: seq<string>) {
    forall t :: 0 <= t < |names| ==> FindRow(RowsAfter(rows, names[..t]), names[t]) > 0
  }

  lemma PrefixMore(names: seq<string>, t: nat)
    requires t < |names|
    ensures names[..t + 1][..|names[..t + 1]| - 1] == names[..t] && names[..t + 1][|names[..t + 1]| - 1] == names[t]
  {
  }

  /** A table as it is after the first lookups: the processes from t on have cached nothing. */
  predicate IsAfter(s: State, rows: seq<string>, names: seq<string>, t: nat)
    requires t <= |names|
  {
    && s.rows == RowsAfter(rows, names[..t]) && s.returned == Results(rows, names[..t])
    && |s.threads| == |s.processOf| == |s.caches| == |names|
    && (forall u :: 0 <= u < |names| ==> s.threads[u] == Idle && s.processOf[u] == u)
    && (forall u :: t <= u < |names| ==> s.caches[u] == map[])
  }

  lemma {:induction false} LookupsRun(s: State, rows: seq<string>, names: seq<string>, t: nat)
    requires t <= |names| && IsAfter(s, rows, names, t) && AllFound(rows, names)
    ensures CanRun(s, Lookups(names, t)) && Run(s, Lookups(names, t)).returned == Results(rows, names)
    decreases |names| - t
  {
    hide FindRow, AddRow, CanRun, Run, LookupSteps, Cached;
    if t == |names| {
      assert names[..t] == names;
      RunNothing(s);
    } else {
      var id := FindRow(s.rows, names[t]);
      PrefixMore(names, t);
      var s' := s.(rows := AddRow(s.rows, names[t]), caches := s.caches[t := Cached(s.caches[t], names[t], id)],
                   returned := s.returned + [(names[t], id)]);
      LookupsRun(s', rows, names, t + 1);
      OneLookup(s, t, names[t], Lookups(names, t + 1));
    }
  }

  lemma RunNothing(s: State)
    ensures CanRun(s, []) && Run(s, []) == s
  {
  }

  function Numbers(n: nat): (r: seq<nat>)
    ensures |r| == n && forall i :: 0 <= i < n ==> r[i] == i
  {
    seq(n, i => i)
  }

  /** Processes that look names up one after the other, in a table of three rows. */
  lemma LookupsOfThree(names: seq<string>)
    requires AllFound(["", "", ""], names)
    ensures AreProcesses(Numbers(|names|), |names|)
    ensures CanRun(Initial(3, |names|, Numbers(|names|)), Lookups(names, 0))
    ensures Run(Initial(3, |names|, Numbers(|names|)), Lookups(names, 0)).returned == Results(["", "", ""], names)
  {
    hide AllFound, FindRow, AddRow, CanRun, Run;
    var s := Initial(3, |names|, Numbers(|names|));
    assert s.rows == ["", "", ""] && names[..0] == [];
    LookupsRun(s, ["", "", ""], names, 0);
  }

  lemma {:induction false} LookupNames(names: seq<string>, t: nat, name: string)
    requires t <= |names| && forall u :: 0 <= u < |names| ==> names[u] == name || IsGoodName(names[u])
    ensures NamesAreGoodOr(Lookups(names, t), name)
    decreases |names| - t
  {
    hide IsGoodName;
    if t < |names| {
      LookupNames(names, t + 1, name);
    }
  }

  /** One more lookup. */
  lemma ResultsMore(rows: seq<string>, names: seq<string>, last: string)
    ensures Results(rows, names + [last]) == Results(rows, names) + [(last, FindRow(RowsAfter(rows, names), last))]
    ensures RowsAfter(rows, names + [last]) == AddRow(RowsAfter(rows, names), last)
    ensures AllFound(rows, names) && FindRow(RowsAfter(rows, names), last) > 0 ==> AllFound(rows, names + [last])
  {
    hide FindRow, AddRow;
    var all := names + [last];
    assert all[..|all| - 1] == names;
    assert forall t :: 0 <= t < |names| ==> all[..t] == names[..t];
  }

  lemma NoResults(rows: seq<string>)
    ensures Results(rows, []) == [] && RowsAfter(rows, []) == rows && AllFound(rows, [])
  {
  }

  lemma TwoResults(name: string)
    ensures var rows := ["", "", ""];
            && (FindRow(rows, name) > 0 && FindRow(AddRow(rows, name), name) > 0 ==> AllFound(rows, [name, name]))
            && Results(rows, [name, name]) == [(name, FindRow(rows, name)), (name, FindRow(AddRow(rows, name), name))]
  {
    hide FindRow, AddRow, AllFound, Results, RowsAfter;
    assert [] + [name] == [name] && [name] + [name] == [name, name];
    NoResults(["", "", ""]);
    ResultsMore(["", "", ""], [], name);
    ResultsMore(["", "", ""], [name], name);
  }

  lemma ThreeResults(a: string, b: string, c: string)
    ensures var rows := ["", "", ""];
            && (FindRow(rows, a) > 0 && FindRow(AddRow(rows, a), b) > 0 && FindRow(AddRow(AddRow(rows, a), b), c) > 0
                ==> AllFound(rows, [a, b, c]))
            && Results(rows, [a, b, c])
               == [(a, FindRow(rows, a)), (b, FindRow(AddRow(rows, a), b)), (c, FindRow(AddRow(AddRow(rows, a), b), c))]
  {
    hide FindRow, AddRow, AllFound, Results, RowsAfter;
    assert [] + [a] == [a] && [a] + [b] == [a, b] && [a, b] + [c] == [a, b, c];
    NoResults(["", "", ""]);
    ResultsMore(["", "", ""], [], a);
    ResultsMore(["", "", ""], [a], b);
    ResultsMore(["", "", ""], [a, b], c);
  }

  /** Names whose lookups, by one process each, do not come out right. */
  lemma BadNameFails(name: string) returns (names: seq<string>)
    requires !IsGoodName(name)
    ensures AllFound(["", "", ""], names) && !IsRight(Results(["", "", ""], names))
    ensures forall u :: 0 <= u < |names| ==> names[u] == name || IsGoodName(names[u])
  {
    if name == "" || |CString(name)| >= MAX_COUNTER_NAME_LENGTH {
      if name == "" { EmptyNameRows(); } else { LongNameRows(name); }
      hide FindRow, AddRow, AllFound, Results, CString;
      names := [name, name];
      TwoResults(name);
      var r := Results(["", "", ""], names);
      assert r[0].0 == r[1].0 && r[0].1 != r[1].1;
    } else {
      InvisibleNameRows(name);
      ShortIsGood("a");
      ShortIsGood("b");
      hide FindRow, AddRow, AllFound, Results, CString, IsGoodName;
      names := [name, "a", "b"];
      ThreeResults(name, "a", "b");
      var r := Results(["", "", ""], names);
      assert r[0].1 == r[2].1 > 0 && CString(r[0].0) != CString(r[2].0);
    }
  }

  lemma ShortIsGood(name: string)
    requires |name| == 1 && name[0] != '\0'
    ensures IsGoodName(name)
  {
    PlainName(name);
  }

  /** Lookups of a name come out right in every run exactly if it has 1 to 63 characters before
      its first NUL. */
  lemma SafeIffGood(name: string)
    ensures IsSafeName(name) <==> 1 <= |CString(name)| < MAX_COUNTER_NAME_LENGTH
  {
    hide Agree, AreApart, CString;
    if IsGoodName(name) {
      forall maxCounters: nat, processes: nat, processOf: seq<nat>, steps: seq<Step>
        | AreProcesses(processOf, processes) && CanRun(Initial(maxCounters, processes, processOf), steps)
          && NamesAreGoodOr(steps, name)
        ensures IsRight(Run(Initial(maxCounters, processes, processOf), steps).returned)
      {
        LookupsAgree(maxCounters, processes, processOf, steps);
      }
    } else {
      var names := BadNameFails(name);
      LookupsOfThree(names);
      LookupNames(names, 0, name);
    }
  }

  // ---------------------------------------------------------------------------------
  // The methods
  // ---------------------------------------------------------------------------------

  /** The counter rows of a mapped table and one process's cache. */
  class CounterNames {
    const rows: array<string>
    var counters: map<string, nat>

    constructor (rows: array<string>)
      ensures Valid() && this.rows == rows && counters == map[]
    {
      this.rows := rows;
      counters := map[];
    }

    predicate Valid()
      reads this
    {
      forall name :: name in counters ==> counters[name] <= rows.Length
    }

    /** What a lookup would answer now. */
    function Answer(name: string): nat
      reads this, rows
    {
      if name in counters then counters[name] else FindRow(rows[..], name)
    }

    /** The rows a lookup would leave. */
    function RowsThen(name: string): seq<string>
      reads this, rows
    {
      if name in counters then rows[..] else AddRow(rows[..], name)
    }

    method FindCounterOrEmptyRow(name: string) returns (id: nat)
      ensures id == FindRow(rows[..], name) <= rows.Length
    {
      var freeSlot := 0;
      var index := 1;
      while index <= rows.Length
        invariant 1 <= index <= rows.Length + 1 && freeSlot <= rows.Length
        invariant FindRow(rows[..], name) == RowFrom(rows[..], name, index, freeSlot)
      {
        var rowName := rows[index - 1];
        if rowName == "" && freeSlot == 0 {
          freeSlot := index;
        } else if SameStart(rowName, CString(name), MAX_COUNTER_NAME_LENGTH) {
          return index;
        }
        index := index + 1;
      }
      return freeSlot;
    }

    method AddCounter(name: string) returns (counterId: nat)
      requires Valid()
      modifies this`counters, rows
      ensures Valid() && counterId == FindRow(old(rows[..]), name) <= rows.Length
      ensures rows[..] == AddRow(old(rows[..]), name)
      ensures counters == if counterId == 0 then old(counters) else old(counters)[name := counterId]
      ensures counterId > 0 ==> IsCopyOf(rows[counterId - 1], if name == "" then "<unknown>" else name, MAX_COUNTER_NAME_LENGTH)
    {
      StoredIsCopy(name, MAX_COUNTER_NAME_LENGTH);
      counterId := FindCounterOrEmptyRow(name);
      if counterId == 0 {
        return 0;
      }
      rows[counterId - 1] := Stored(name, MAX_COUNTER_NAME_LENGTH);
      counters := counters[name := counterId];
    }

    /** A lookup by a process that runs alone.  For a name of 1 to 63 characters the answer is the
        row of the name, and rows and cache stay right. */
    method FindCounter(name: string) returns (counterId: nat)
      requires Valid()
      modifies this`counters, rows
      ensures Valid() && counterId == old(Answer(name)) <= rows.Length && rows[..] == old(RowsThen(name))
      ensures counters == if counterId == 0 then old(counters) else old(counters)[name := counterId]
      ensures IsGoodName(name) && AreRows(old(rows[..])) && CacheHolds(old(rows[..]), old(counters)) ==>
        && AreRows(rows[..]) && CacheHolds(rows[..], counters) && Grows(old(rows[..]), rows[..])
        && IsBorneOut(rows[..], name, counterId)
    {
      if name in counters {
        assert counters[name := counters[name]] == counters;
        return counters[name];
      }
      hide CString, IsGoodName, FindRow, AddRow;
      ghost var before := rows[..];
      counterId := AddCounter(name);
      if IsGoodName(name) && AreRows(before) && CacheHolds(before, old(counters)) {
        AddRowGood(before, name);
        CacheStays(before, rows[..], old(counters));
      }
    }
  }
}
