/** The row walk of src/snmp_table.cc: rows that are only ever appended, and any number of
    walks over them, each with a context of its own in a list that all tables share.

    Rows are opaque but for the number of index columns that could be set.
  */
module SnmpTable {
  import opened Wrappers

  datatype Row = Row(instance: string, indexes: nat)
  {
    /** `setIndexedValues` succeeds. */
    predicate HasIndex() {
      indexes > 0
    }
  }

  /** An iterator into a list that is appended to: at an element, or at the end.  The end stays
      the end when elements are inserted before it. */
  datatype Cursor = At(index: nat) | End

  function Beginning(rows: seq<Row>): Cursor {
    if rows == [] then End else At(0)
  }

  function Next(rows: seq<Row>, index: nat): Cursor {
    if index + 1 < |rows| then At(index + 1) else End
  }

  // ---------------------------------------------------------------------------------
  // The methods
  // ---------------------------------------------------------------------------------

  class Table {
    var rows: seq<Row>

    constructor ()
      ensures rows == []
    {
      rows := [];
    }

    method AddRow(row: Row)
      modifies this
      ensures rows == old(rows) + [row]
    {
      rows := rows + [row];
    }
  }

  /** A walk: where it stands, the rows it took, the answers the caller was given before the
      first one that was nothing, and whether there was such a one. */
  datatype Walk = Walk(it: Cursor, given: seq<Row>, told: seq<Row>, over: bool)

  function NewWalk(rows: seq<Row>): Walk {
    Walk(Beginning(rows), [], [], false)
  }

  /** What `getNextDataPoint` gives the caller: a row without index values is not told. */
  function Answer(walk: Walk, rows: seq<Row>): Option<Row>
    requires walk.it.At? ==> walk.it.index < |rows|
  {
    if walk.it.At? && rows[walk.it.index].HasIndex() then Some(rows[walk.it.index]) else None
  }

  function Moved(walk: Walk, rows: seq<Row>): Walk
    requires walk.it.At? ==> walk.it.index < |rows|
  {
    var answer := Answer(walk, rows);
    Walk(if walk.it.End? then End else Next(rows, walk.it.index),
         if walk.it.End? then walk.given else walk.given + [rows[walk.it.index]],
         if answer.Some? && !walk.over then walk.told + [answer.value] else walk.told,
         walk.over || answer.None?)
  }

  /** The rows before the first one without index values. */
  function IndexedPrefix(rows: seq<Row>): (r: seq<Row>)
    ensures r <= rows && forall i :: 0 <= i < |r| ==> r[i].HasIndex()
    ensures |r| < |rows| ==> !rows[|r|].HasIndex()
  {
    if rows == [] || !rows[0].HasIndex() then [] else [rows[0]] + IndexedPrefix(rows[1..])
  }

  /** The walk took the rows up to its cursor, or at the end a first part of them.  The caller was
      told those before the first without an index; he was given nothing only at such a row or at
      the end. */
  ghost predicate IsWalk(walk: Walk, rows: seq<Row>) {
    && (walk.it.At? ==> walk.it.index < |rows| && walk.given == rows[..walk.it.index])
    && walk.given <= rows
    && walk.told == IndexedPrefix(walk.given)
    && (!walk.over ==> walk.told == walk.given)
    && (walk.over && walk.told == walk.given ==> walk.it.End?)
  }

  class Context {
    const table: Table
    var it: Cursor
    ghost var given: seq<Row>
    ghost var told: seq<Row>
    ghost var over: bool

    constructor (table: Table)
      ensures this.table == table && Value() == NewWalk(table.rows)
    {
      this.table := table;
      it := Beginning(table.rows);
      given, told, over := [], [], false;
    }

    ghost function Value(): Walk
      reads this
    {
      Walk(it, given, told, over)
    }

    ghost predicate Valid()
      reads this, table
    {
      IsWalk(Value(), table.rows)
    }
  }

  class Contexts {
    var globalList: seq<Context>

    constructor ()
      ensures globalList == []
    {
      globalList := [];
    }

    /** Every context is in the list once. */
    ghost predicate Valid()
      reads this
    {
      forall i, j :: 0 <= i < j < |globalList| ==> globalList[i] != globalList[j]
    }

    method GetFirstDataPoint(table: Table) returns (context: Option<Context>, row: Option<Row>)
      requires Valid()
      modifies this
      ensures Valid()
      ensures table.rows == [] ==> context == None && row == None && globalList == old(globalList)
      ensures table.rows != [] ==>
        && context.Some? && fresh(context.value) && context.value.table == table && context.value.Valid()
        && globalList == old(globalList) + [context.value]
        && row == Answer(NewWalk(table.rows), table.rows)
        && context.value.Value() == Moved(NewWalk(table.rows), table.rows)
    {
      var fresh_ := new Context(table);
      if fresh_.it == End {
        return None, None;
      }
      globalList := globalList + [fresh_];
      NewIsWalk(table.rows);
      row := GetNextDataPoint(fresh_);
      context := Some(fresh_);
    }

    /** Gives the row at the cursor and moves on.  A row without index values ends the walk as
        far as the caller can tell. */
    method GetNextDataPoint(context: Context) returns (row: Option<Row>)
      requires context.it.At? ==> context.it.index < |context.table.rows|
      modifies context
      ensures row == Answer(old(context.Value()), context.table.rows)
      ensures context.Value() == Moved(old(context.Value()), context.table.rows)
      ensures old(context.Valid()) ==> context.Valid()
    {
      hide IsWalk;
      ghost var was := context.Value();
      if IsWalk(was, context.table.rows) {
        MovedIsWalk(was, context.table.rows);
      }
      if context.it == End {
        context.over := true;
        return None;
      }
      var index := context.it.index;
      var next := context.table.rows[index];
      context.it := Next(context.table.rows, index);
      context.given := context.given + [next];
      if !next.HasIndex() {
        context.over := true;
        return None;
      }
      if !context.over {
        context.told := context.told + [next];
      }
      return Some(next);
    }

    /** Takes a context off the list: the others are moved up in order, and one place at the end
        is erased.  That is the right number because no context is in the list twice. */
    method FreeLoopContext(context: Context)
      requires Valid() && context in globalList
      modifies this
      ensures Valid() && globalList == Without(old(globalList), context)
      ensures context !in globalList && forall other :: other != context ==> (other in globalList <==> other in old(globalList))
    {
      ghost var before := globalList;
      var list := globalList;
      var kept := 0;
      for i := 0 to |list|
        invariant |list| == |before| && kept <= i && IsCompacted(list, before, kept, i, context)
      {
        CompactMore(list, before, kept, i, context);
        if list[i] != context {
          list := list[kept := list[i]];
          kept := kept + 1;
        }
      }
      assert before[..|before|] == before;
      WithoutOnce(before, context);
      globalList := list[..kept] + list[kept + 1..];
    }
  }

  /** The elements before position i but for x are moved to the front; the others are in place. */
  predicate IsCompacted<T(==)>(list: seq<T>, before: seq<T>, kept: nat, i: nat, x: T)
    requires |list| == |before| && kept <= i <= |list|
  {
    list[..kept] == Without(before[..i], x) && list[i..] == before[i..]
  }

  /** One round of removing: an element is moved up or left out. */
  lemma CompactMore<T>(list: seq<T>, before: seq<T>, kept: nat, i: nat, x: T)
    requires |list| == |before| && kept <= i < |list| && IsCompacted(list, before, kept, i, x)
    ensures list[i] == x ==> IsCompacted(list, before, kept, i + 1, x)
    ensures list[i] != x ==> IsCompacted(list[kept := list[i]], before, kept + 1, i + 1, x)
  {
    hide Without;
    assert before[..i + 1] == before[..i] + [before[i]];
    assert list[i] == list[i..][0] == before[i];
    WithoutMore(before[..i], before[i], x);
    var next := list[kept := list[i]];
    assert list[i + 1..] == list[i..][1..] && before[i + 1..] == before[i..][1..];
    assert next[..kept + 1] == list[..kept] + [list[i]] && next[i + 1..] == list[i + 1..];
  }

  function Without<T(==)>(list: seq<T>, x: T): seq<T> {
    if list == [] then []
    else
      var last := list[|list| - 1];
      Without(list[..|list| - 1], x) + if last == x then [] else [last]
  }

  lemma WithoutMore<T>(list: seq<T>, last: T, x: T)
    ensures Without(list + [last], x) == if last == x then Without(list, x) else Without(list, x) + [last]
  {
    assert (list + [last])[..|list|] == list;
  }

  predicate Distinct<T(==)>(list: seq<T>) {
    forall i, j :: 0 <= i < j < |list| ==> list[i] != list[j]
  }

  /** Removing an element of a list without repetitions shortens it by one and keeps the rest. */
  lemma {:induction false} WithoutOnce<T>(list: seq<T>, x: T)
    requires Distinct(list)
    ensures |Without(list, x)| == |list| - (if x in list then 1 else 0)
    ensures Distinct(Without(list, x)) && x !in Without(list, x)
    ensures forall y :: y != x ==> (y in Without(list, x) <==> y in list)
  {
    if list != [] {
      var front, last := list[..|list| - 1], list[|list| - 1];
      WithoutOnce(front, x);
      assert list == front + [last];
      assert last !in front;
    }
  }

  // ---------------------------------------------------------------------------------
  // Walks that are interleaved with each other and with new rows
  // ---------------------------------------------------------------------------------

  /** One table and the walks over it, by context. */
  datatype State = State(rows: seq<Row>, walks: map<nat, Walk>)

  datatype Step = Append(row: Row) | First(id: nat) | Following(id: nat) | Free(id: nat)

  predicate IsEnabled(s: State, step: Step) {
    match step
    case Append(row) => true
    case First(id) => id !in s.walks && s.rows != []
    case Following(id) => id in s.walks && (s.walks[id].it.At? ==> s.walks[id].it.index < |s.rows|)
    case Free(id) => id in s.walks
  }

  function Apply(s: State, step: Step): State
    requires IsEnabled(s, step)
  {
    match step
    case Append(row) => s.(rows := s.rows + [row])
    case First(id) => s.(walks := s.walks[id := Moved(NewWalk(s.rows), s.rows)])
    case Following(id) => s.(walks := s.walks[id := Moved(s.walks[id], s.rows)])
    case Free(id) => s.(walks := s.walks - {id})
  }

  predicate CanRun(s: State, steps: seq<Step>)
    decreases |steps|
  {
    steps == [] || (IsEnabled(s, steps[0]) && CanRun(Apply(s, steps[0]), steps[1..]))
  }

  function Run(s: State, steps: seq<Step>): State
    requires CanRun(s, steps)
    decreases |steps|
  {
    if steps == [] then s else Run(Apply(s, steps[0]), steps[1..])
  }

  ghost predicate Holds(s: State) {
    forall id :: id in s.walks ==> IsWalk(s.walks[id], s.rows)
  }

  lemma NewIsWalk(rows: seq<Row>)
    ensures IsWalk(NewWalk(rows), rows)
  {
  }

  lemma {:induction false} PrefixMore(rows: seq<Row>, row: Row)
    ensures IndexedPrefix(rows + [row]) ==
      if IndexedPrefix(rows) == rows && row.HasIndex() then rows + [row] else IndexedPrefix(rows)
  {
    if rows == [] {
      assert [] + [row] == [row] && IndexedPrefix([row][1..]) == [];
    } else {
      assert (rows + [row])[1..] == rows[1..] + [row];
      assert rows == [rows[0]] + rows[1..];
      PrefixMore(rows[1..], row);
      hide Row.HasIndex;
      if rows[0].HasIndex() {
        assert [rows[0]] + (rows[1..] + [row]) == rows + [row];
        assert IndexedPrefix(rows) == rows <==> IndexedPrefix(rows[1..]) == rows[1..] by {
          assert ([rows[0]] + IndexedPrefix(rows[1..]))[1..] == IndexedPrefix(rows[1..]);
        }
      }
    }
  }

  lemma MovedIsWalk(walk: Walk, rows: seq<Row>)
    requires IsWalk(walk, rows)
    ensures IsWalk(Moved(walk, rows), rows)
  {
    if walk.it.At? {
      assert rows[..walk.it.index + 1] == rows[..walk.it.index] + [rows[walk.it.index]];
      PrefixMore(walk.given, rows[walk.it.index]);
    }
  }

  lemma StepKeeps(s: State, step: Step)
    requires Holds(s) && IsEnabled(s, step)
    ensures Holds(Apply(s, step)) && s.rows <= Apply(s, step).rows
  {
    if step.First? {
      NewIsWalk(s.rows);
      MovedIsWalk(NewWalk(s.rows), s.rows);
    }
    if step.Following? {
      MovedIsWalk(s.walks[step.id], s.rows);
    }
    if step.Append? {
      forall id | id in s.walks ensures IsWalk(s.walks[id], s.rows + [step.row]) {
        assert IsWalk(s.walks[id], s.rows);
      }
    }
  }

  /** In every run, every walk took the rows of the table from the first one on, in order and each
      once, and its caller was told those before the first without an index. */
  lemma {:induction false} RunKeeps(s: State, steps: seq<Step>)
    requires Holds(s) && CanRun(s, steps)
    ensures Holds(Run(s, steps)) && s.rows <= Run(s, steps).rows
    decreases |steps|
  {
    if steps != [] {
      StepKeeps(s, steps[0]);
      hide Holds, Apply, IsEnabled;
      RunKeeps(Apply(s, steps[0]), steps[1..]);
    }
  }

  /** A walk can always be asked for its next row. */
  lemma WalkIsNeverBlocked(s: State, id: nat)
    requires Holds(s) && id in s.walks
    ensures IsEnabled(s, Following(id))
  {
    assert IsWalk(s.walks[id], s.rows);
  }

  predicate Keeps(steps: seq<Step>, id: nat) {
    forall i :: 0 <= i < |steps| ==> (steps[i].First? || steps[i].Free? ==> steps[i].id != id)
  }

  /** A walk at the end is given nothing more. */
  lemma {:induction false} EndStays(s: State, id: nat, steps: seq<Step>)
    requires CanRun(s, steps) && Keeps(steps, id) && id in s.walks && s.walks[id].it.End?
    ensures id in Run(s, steps).walks && Run(s, steps).walks[id].it.End? && Run(s, steps).walks[id].given == s.walks[id].given
    decreases |steps|
  {
    if steps != [] {
      assert Keeps(steps[1..], id);
      EndStays(Apply(s, steps[0]), id, steps[1..]);
    }
  }

  /** A walk that comes to the end was given all rows there were on its way. */
  lemma {:induction false} EndComesAfterAll(s: State, id: nat, steps: seq<Step>, n: nat)
    requires Holds(s) && CanRun(s, steps) && Keeps(steps, id)
    requires id in s.walks && s.walks[id].it.At? && n <= |s.rows|
    ensures id in Run(s, steps).walks
    ensures Run(s, steps).walks[id].it.End? ==> n <= |Run(s, steps).walks[id].given|
    decreases |steps|
  {
    if steps != [] {
      StepKeeps(s, steps[0]);
      assert Keeps(steps[1..], id);
      var s' := Apply(s, steps[0]);
      assert IsWalk(s.walks[id], s.rows);
      if s'.walks[id].it.End? {
        EndStays(s', id, steps[1..]);
      } else {
        EndComesAfterAll(s', id, steps[1..], n);
      }
    }
  }

  /** A row that is added during a walk is told the caller exactly if the walk had not taken the
      last row before, and this row and all before it have index values. */
  lemma AddedRowIsToldIff(s: State, id: nat, row: Row, steps: seq<Step>)
    requires Holds(s) && id in s.walks && CanRun(Apply(s, Append(row)), steps) && Keeps(steps, id)
    requires id in Run(Apply(s, Append(row)), steps).walks && Run(Apply(s, Append(row)), steps).walks[id].over
    ensures var told := Run(Apply(s, Append(row)), steps).walks[id].told;
            (|s.rows| < |told| && told[|s.rows|] == row) <==>
            s.walks[id].it.At? && row.HasIndex() && forall i :: 0 <= i < |s.rows| ==> s.rows[i].HasIndex()
  {
    var s' := Apply(s, Append(row));
    StepKeeps(s, Append(row));
    RunKeeps(s', steps);
    var last := Run(s', steps);
    var walk := last.walks[id];
    assert IsWalk(walk, last.rows) && IsWalk(s.walks[id], s.rows);
    assert s'.rows == s.rows + [row] && s'.rows <= last.rows;
    if s.walks[id].it.At? {
      if walk.it.End? {
        EndComesAfterAll(s', id, steps, |s'.rows|);
      }
      ToldReaches(walk, last.rows, s.rows, row);
    } else {
      EndStays(s', id, steps);
    }
  }

  /** How far the caller of a finished walk was told. */
  lemma ToldReaches(walk: Walk, all: seq<Row>, rows: seq<Row>, row: Row)
    requires IsWalk(walk, all) && walk.over && rows + [row] <= all
    requires walk.it.End? ==> |rows| < |walk.given|
    ensures (|rows| < |walk.told| && walk.told[|rows|] == row) <==> row.HasIndex() && forall i :: 0 <= i < |rows| ==> rows[i].HasIndex()
  {
    assert forall i :: 0 <= i < |rows| ==> all[i] == rows[i];
    assert all[|rows|] == row;
    if |walk.told| <= |rows| {
      assert walk.given[|walk.told|] == all[|walk.told|];
    } else {
      assert forall i :: 0 <= i < |walk.told| ==> walk.told[i] == all[i];
    }
  }

  predicate IsQuiet(steps: seq<Step>) {
    forall i :: 0 <= i < |steps| ==> !steps[i].Append?
  }

  predicate TookAll(s: State, id: nat) {
    id in s.walks && s.walks[id].it.End? ==> s.walks[id].given == s.rows
  }

  /** While no row is added, a walk at the end took all rows. */
  lemma {:induction false} QuietKeeps(s: State, id: nat, steps: seq<Step>)
    requires Holds(s) && CanRun(s, steps) && IsQuiet(steps) && TookAll(s, id)
    ensures Run(s, steps).rows == s.rows && TookAll(Run(s, steps), id)
    decreases |steps|
  {
    if steps != [] {
      var s' := Apply(s, steps[0]);
      StepKeeps(s, steps[0]);
      assert TookAll(s', id) by { TookAllStep(s, id, steps[0]); }
      hide Holds, Apply, IsEnabled, TookAll;
      QuietKeeps(s', id, steps[1..]);
    }
  }

  lemma MovedTookAll(walk: Walk, rows: seq<Row>)
    requires IsWalk(walk, rows) && (walk.it.End? ==> walk.given == rows)
    ensures Moved(walk, rows).it.End? ==> Moved(walk, rows).given == rows
  {
    if walk.it.At? {
      assert rows[..walk.it.index] + [rows[walk.it.index]] == rows[..walk.it.index + 1];
      assert rows[..|rows|] == rows;
    }
  }

  lemma TookAllStep(s: State, id: nat, step: Step)
    requires Holds(s) && IsEnabled(s, step) && !step.Append? && TookAll(s, id)
    ensures TookAll(Apply(s, step), id)
  {
    hide Moved, NewWalk, IsWalk;
    NewIsWalk(s.rows);
    NewTookAll(s.rows);
    MovedTookAll(NewWalk(s.rows), s.rows);
    if id in s.walks {
      assert IsWalk(s.walks[id], s.rows);
      MovedTookAll(s.walks[id], s.rows);
    }
  }

  lemma NewTookAll(rows: seq<Row>)
    ensures NewWalk(rows).it.End? ==> NewWalk(rows).given == rows
  {
  }

  /** Among any other walks, and as long as no row is added, the answers a caller gets up to the
      first that is nothing are the rows of the table in order.  They are all of them exactly if
      every row has an index; otherwise they stop right before the first row without one. */
  lemma CallerLearns(s: State, id: nat, steps: seq<Step>)
    requires Holds(s) && id !in s.walks && CanRun(s, steps) && IsQuiet(steps)
    requires id in Run(s, steps).walks && Run(s, steps).walks[id].over
    ensures var told := Run(s, steps).walks[id].told;
            && told <= s.rows
            && (told == s.rows <==> forall i :: 0 <= i < |s.rows| ==> s.rows[i].HasIndex())
            && (told != s.rows ==> !s.rows[|told|].HasIndex() && forall i :: 0 <= i < |told| ==> s.rows[i].HasIndex())
  {
    RunKeeps(s, steps);
    QuietKeeps(s, id, steps);
    var walk := Run(s, steps).walks[id];
    assert IsWalk(walk, s.rows);
    assert forall i :: 0 <= i < |walk.told| ==> walk.told[i] == s.rows[i];
    if walk.told != walk.given {
      assert walk.given[|walk.told|] == s.rows[|walk.told|];
    }
  }

  function Asks(id: nat, n: nat): seq<Step> {
    if n == 0 then [] else [Following(id)] + Asks(id, n - 1)
  }

  lemma RunFirst(s: State, step: Step, rest: seq<Step>)
    requires IsEnabled(s, step)
    ensures CanRun(s, [step] + rest) <==> CanRun(Apply(s, step), rest)
    ensures CanRun(s, [step] + rest) ==> Run(s, [step] + rest) == Run(Apply(s, step), rest)
  {
    hide IsEnabled, Apply;
    assert ([step] + rest)[1..] == rest;
  }

  /** How often a walk can be asked before it is at the end. */
  function Remaining(walk: Walk, rows: seq<Row>): nat {
    if walk.it.At? && walk.it.index < |rows| then |rows| - walk.it.index else 0
  }

  lemma MovedRemains(walk: Walk, rows: seq<Row>)
    requires IsWalk(walk, rows)
    ensures Remaining(walk, rows) > 0 ==> Remaining(Moved(walk, rows), rows) == Remaining(walk, rows) - 1
    ensures Remaining(walk, rows) == 0 ==> Moved(walk, rows).over
  {
  }

  lemma FollowingMoves(s: State, id: nat)
    requires Holds(s) && id in s.walks
    ensures IsEnabled(s, Following(id)) && Holds(Apply(s, Following(id))) && IsWalk(s.walks[id], s.rows)
    ensures Apply(s, Following(id)).rows == s.rows && id in Apply(s, Following(id)).walks
    ensures Apply(s, Following(id)).walks[id] == Moved(s.walks[id], s.rows)
  {
    assert IsWalk(s.walks[id], s.rows);
    hide IsWalk, Moved;
    WalkIsNeverBlocked(s, id);
    StepKeeps(s, Following(id));
  }

  /** Asked once more than there are rows left, a walk has told its caller of the end. */
  lemma {:induction false} WalkEnds(s: State, id: nat, n: nat)
    requires Holds(s) && id in s.walks && Remaining(s.walks[id], s.rows) < n
    ensures CanRun(s, Asks(id, n)) && id in Run(s, Asks(id, n)).walks && Run(s, Asks(id, n)).walks[id].over
    decreases n
  {
    hide IsWalk, Holds, IsEnabled, Apply, Moved, Remaining, Run, CanRun;
    FollowingMoves(s, id);
    MovedRemains(s.walks[id], s.rows);
    var s' := Apply(s, Following(id));
    RunFirst(s, Following(id), Asks(id, n - 1));
    if Remaining(s.walks[id], s.rows) == 0 {
      OverStays(s', id, n - 1);
    } else {
      WalkEnds(s', id, n - 1);
    }
  }

  lemma {:induction false} OverStays(s: State, id: nat, n: nat)
    requires Holds(s) && id in s.walks && s.walks[id].over
    ensures CanRun(s, Asks(id, n)) && id in Run(s, Asks(id, n)).walks && Run(s, Asks(id, n)).walks[id].over
    decreases n
  {
    if n > 0 {
      hide IsWalk, Holds, IsEnabled, Apply, Run, CanRun;
      FollowingMoves(s, id);
      var s' := Apply(s, Following(id));
      assert s'.walks[id].over;
      RunFirst(s, Following(id), Asks(id, n - 1));
      OverStays(s', id, n - 1);
    }
  }

  /** A row added after the last row was taken is never given, though the walk has not been told
      of the end. */
  lemma LateRowIsMissed(a: Row, b: Row)
    requires a != b && a.HasIndex()
    ensures var steps := [First(0), Append(b), Following(0)];
            CanRun(State([a], map[]), steps)
            && Run(State([a], map[]), steps) == State([a, b], map[0 := Walk(End, [a], [a], true)])
  {
    var s := State([a], map[]);
    var s1 := Apply(s, First(0));
    assert [] + [a] == [a];
    assert s1.walks == map[0 := Walk(End, [a], [a], false)];
    var s2 := Apply(s1, Append(b));
    var s3 := Apply(s2, Following(0));
    assert s3.rows == [a, b] && s3.walks == map[0 := Walk(End, [a], [a], true)];
    assert CanRun(s3, []) && Run(s3, []) == s3;
    assert CanRun(s2, [Following(0)]) && Run(s2, [Following(0)]) == s3;
    assert [Append(b), Following(0)][1..] == [Following(0)];
    assert CanRun(s1, [Append(b), Following(0)]) && Run(s1, [Append(b), Following(0)]) == s3;
    assert [First(0), Append(b), Following(0)][1..] == [Append(b), Following(0)];
  }

  /** A first row without an index hides all others: the first answer is nothing. */
  lemma RowsAreHidden(a: Row, b: Row)
    requires !a.HasIndex() && b.HasIndex()
    ensures CanRun(State([a, b], map[]), [First(0)])
    ensures Run(State([a, b], map[]), [First(0)]) == State([a, b], map[0 := Walk(At(1), [a], [], true)])
  {
    var s := State([a, b], map[]);
    var s1 := Apply(s, First(0));
    assert [] + [a] == [a];
    assert s1.walks == map[0 := Walk(At(1), [a], [], true)];
    assert CanRun(s1, []) && Run(s1, []) == s1 && [First(0)][1..] == [];
  }

  // ---------------------------------------------------------------------------------
  // Walks do not disturb each other
  // ---------------------------------------------------------------------------------

  predicate Concerns(step: Step, id: nat) {
    step.Append? || step.id == id
  }

  /** The steps of one walk, and the rows that were added meanwhile. */
  function OnlyOf(steps: seq<Step>, id: nat): seq<Step> {
    if steps == [] then []
    else if Concerns(steps[0], id) then [steps[0]] + OnlyOf(steps[1..], id)
    else OnlyOf(steps[1..], id)
  }

  predicate SameFor(s: State, s': State, id: nat) {
    s.rows == s'.rows && (id in s.walks <==> id in s'.walks) && (id in s.walks ==> s.walks[id] == s'.walks[id])
  }

  /** A walk goes as it would without the other walks. */
  lemma {:induction false} WalksAreIndependent(s: State, alone: State, id: nat, steps: seq<Step>)
    requires SameFor(s, alone, id) && CanRun(s, steps)
    ensures CanRun(alone, OnlyOf(steps, id)) && SameFor(Run(s, steps), Run(alone, OnlyOf(steps, id)), id)
    decreases |steps|
  {
    if steps != [] {
      var s' := Apply(s, steps[0]);
      if Concerns(steps[0], id) {
        var alone' := Apply(alone, steps[0]);
        WalksAreIndependent(s', alone', id, steps[1..]);
        assert OnlyOf(steps, id)[1..] == OnlyOf(steps[1..], id);
      } else {
        WalksAreIndependent(s', alone, id, steps[1..]);
      }
    }
  }
}
