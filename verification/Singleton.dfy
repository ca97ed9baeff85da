/** The once-initialisation of src/chromium/memory/singleton.hh and singleton.cc, as steps of
    any number of threads.  Each atomic operation on `instance_` is one step.
  */
module Singleton {
  const BEING_CREATED_MARKER: int := 1

  /** Where a thread is in `get`. */
  datatype Phase =
    | Calling            // before the first load
    | Trying             // before the compare-and-swap
    | Creating           // won it, New has not returned
    | Storing(made: int) // before the store
    | Waiting            // lost it, spins in WaitForInstance
    | Returned(value: int)
  {
    predicate IsCreator() {
      Creating? || Storing?
    }
  }

  /** `made` lists what calls of New have returned, `value` is the word `instance_`. */
  datatype State = State(instance: int, threads: seq<Phase>, made: seq<int>)

  datatype Step =
    | Load(t: nat)
    | CompareAndSwap(t: nat)
    | New(t: nat, pointer: int)
    | Store(t: nat)
    | Spin(t: nat)
    | CallAgain(t: nat)

  function Initial(threads: nat): State {
    State(0, seq(threads, _ => Calling), [])
  }

  predicate IsEnabled(s: State, step: Step) {
    && step.t < |s.threads|
    && match step
       case Load(t) => s.threads[t].Calling?
       case CompareAndSwap(t) => s.threads[t].Trying?
       case New(t, pointer) => s.threads[t].Creating?
       case Store(t) => s.threads[t].Storing?
       case Spin(t) => s.threads[t].Waiting?
       case CallAgain(t) => s.threads[t].Returned?
  }

  function To(s: State, t: nat, phase: Phase): State
    requires t < |s.threads|
  {
    s.(threads := s.threads[t := phase])
  }

  function Apply(s: State, step: Step): State
    requires IsEnabled(s, step)
  {
    match step
    case Load(t) =>
      if s.instance != 0 && s.instance != BEING_CREATED_MARKER then To(s, t, Returned(s.instance)) else To(s, t, Trying)
    case CompareAndSwap(t) =>
      if s.instance == 0 then To(s.(instance := BEING_CREATED_MARKER), t, Creating) else To(s, t, Waiting)
    case New(t, pointer) => To(s.(made := s.made + [pointer]), t, Storing(pointer))
    case Store(t) => To(s.(instance := s.threads[t].made), t, Returned(s.threads[t].made))
    case Spin(t) => if s.instance != BEING_CREATED_MARKER then To(s, t, Returned(s.instance)) else s
    case CallAgain(t) => To(s, t, Calling)
  }

  predicate CanRun(s: State, steps: seq<Step>)
    decreases |steps|
  {
    steps == [] || (IsEnabled(s, steps[0]) && CanRun(Apply(s, steps[0]), steps[1..]))
  }

  function Run(s: State, steps: seq<Step>): State
    requires CanRun(s, steps)
    decreases |steps|
  {
    if steps == [] then s else Run(Apply(s, steps[0]), steps[1..])
  }

  /** A pointer that New may return: neither null nor the marker. */
  predicate IsPointer(x: int) {
    x != 0 && x != BEING_CREATED_MARKER
  }

  predicate MakesPointers(steps: seq<Step>) {
    forall i :: 0 <= i < |steps| && steps[i].New? ==> IsPointer(steps[i].pointer)
  }

  // ---------------------------------------------------------------------------------
  // The invariant
  // ---------------------------------------------------------------------------------

  /** What each value of `instance_` says about a thread. */
  predicate PhaseHolds(s: State, phase: Phase) {
    match phase
    case Calling => true
    case Trying => true
    case Creating => s.instance == BEING_CREATED_MARKER && s.made == []
    case Storing(made) => s.instance == BEING_CREATED_MARKER && s.made == [made] && IsPointer(made)
    case Waiting => s.instance != 0
    case Returned(value) => IsPointer(value) && s.instance == value && s.made == [value]
  }

  ghost predicate Holds(s: State) {
    && (forall t :: 0 <= t < |s.threads| ==> PhaseHolds(s, s.threads[t]))
    && (forall t, u :: 0 <= t < |s.threads| && 0 <= u < |s.threads| && s.threads[t].IsCreator() && s.threads[u].IsCreator()
          ==> t == u)
    && (s.instance == 0 ==> s.made == [])
    && (s.instance == BEING_CREATED_MARKER ==> exists t :: 0 <= t < |s.threads| && s.threads[t].IsCreator())
    && (IsPointer(s.instance) ==> s.made == [s.instance])
  }

  /** The word goes from null to the marker to a pointer and no other way. */
  predicate Advances(before: int, after: int) {
    || after == before
    || (before == 0 && after == BEING_CREATED_MARKER)
    || (before == BEING_CREATED_MARKER && IsPointer(after))
  }

  lemma StepKeeps(s: State, step: Step)
    requires Holds(s) && IsEnabled(s, step) && (step.New? ==> IsPointer(step.pointer))
    ensures Holds(Apply(s, step)) && Advances(s.instance, Apply(s, step).instance)
  {
    var s' := Apply(s, step);
    var t := step.t;
    assert PhaseHolds(s, s.threads[t]);
    if s'.instance == BEING_CREATED_MARKER {
      if s.instance == BEING_CREATED_MARKER {
        var u :| 0 <= u < |s.threads| && s.threads[u].IsCreator();
        assert s'.threads[u].IsCreator();
      } else {
        assert s'.threads[t].IsCreator();
      }
    }
    forall u | 0 <= u < |s.threads| && u != t ensures PhaseHolds(s', s.threads[u]) {
      assert PhaseHolds(s, s.threads[u]);
    }
  }

  lemma {:induction false} RunKeeps(s: State, steps: seq<Step>)
    requires Holds(s) && CanRun(s, steps) && MakesPointers(steps)
    ensures Holds(Run(s, steps))
    ensures IsPointer(s.instance) ==> Run(s, steps).instance == s.instance
    decreases |steps|
  {
    if steps != [] {
      hide Holds, Apply, IsEnabled;
      StepKeeps(s, steps[0]);
      RunKeeps(Apply(s, steps[0]), steps[1..]);
    }
  }

  lemma InitialHolds(threads: nat)
    ensures Holds(Initial(threads))
  {
  }

  /** In every interleaving at most one thread is inside New or about to store its result, New
      returns at most once and is not called again after that, nobody returns before the pointer
      is stored, and everybody returns that pointer. */
  lemma OnceOnly(threads: nat, steps: seq<Step>)
    requires CanRun(Initial(threads), steps) && MakesPointers(steps)
    ensures var s := Run(Initial(threads), steps);
            && |s.made| <= 1
            && (forall t, u :: 0 <= t < |s.threads| && 0 <= u < |s.threads| && s.threads[t].IsCreator() && s.threads[u].IsCreator()
                  ==> t == u)
            && (forall t :: 0 <= t < |s.threads| && s.threads[t].Creating? ==> s.made == [])
            && (forall t :: 0 <= t < |s.threads| && s.threads[t].Returned? ==>
                  s.made == [s.threads[t].value] && s.instance == s.threads[t].value)
  {
    InitialHolds(threads);
    RunKeeps(Initial(threads), steps);
    var s := Run(Initial(threads), steps);
    hide Initial, Run, CanRun;
    forall t | 0 <= t < |s.threads| && s.threads[t].Returned?
      ensures s.made == [s.threads[t].value] && s.instance == s.threads[t].value
    {
      assert PhaseHolds(s, s.threads[t]);
    }
    forall t | 0 <= t < |s.threads| && s.threads[t].Creating? ensures s.made == [] {
      assert PhaseHolds(s, s.threads[t]);
    }
    if s.instance == BEING_CREATED_MARKER {
      var t :| 0 <= t < |s.threads| && s.threads[t].IsCreator();
      assert PhaseHolds(s, s.threads[t]);
    }
  }

  // ---------------------------------------------------------------------------------
  // Every call can return
  // ---------------------------------------------------------------------------------

  predicate MakesOnly(steps: seq<Step>, pointer: int) {
    forall i :: 0 <= i < |steps| && steps[i].New? ==> steps[i].pointer == pointer
  }

  ghost predicate CanReturn(s: State, t: nat, pointer: int)
    requires t < |s.threads|
  {
    exists more :: CanRun(s, more) && MakesOnly(more, pointer) && |Run(s, more).threads| == |s.threads|
      && Run(s, more).threads[t].Returned?
  }

  /** A step towards returning. */
  lemma ReturnAfter(s: State, step: Step, t: nat, pointer: int)
    requires t < |s.threads| && IsEnabled(s, step) && (step.New? ==> step.pointer == pointer)
    requires CanReturn(Apply(s, step), t, pointer)
    ensures CanReturn(s, t, pointer)
  {
    var s' := Apply(s, step);
    var more :| CanRun(s', more) && MakesOnly(more, pointer) && |Run(s', more).threads| == |s'.threads|
      && Run(s', more).threads[t].Returned?;
    var steps := [step] + more;
    assert steps[1..] == more;
    assert CanRun(s, steps) && Run(s, steps) == Run(s', more);
    assert MakesOnly(steps, pointer) by {
      forall i | 0 <= i < |steps| && steps[i].New? ensures steps[i].pointer == pointer {
        if i > 0 { assert steps[i] == more[i - 1]; }
      }
    }
  }

  lemma ReturnNow(s: State, t: nat, pointer: int)
    requires t < |s.threads| && s.threads[t].Returned?
    ensures CanReturn(s, t, pointer)
  {
    assert CanRun(s, []) && Run(s, []) == s && MakesOnly([], pointer);
  }

  /** With the pointer stored, a thread returns on its own. */
  lemma ReturnStored(s: State, t: nat, pointer: int)
    requires t < |s.threads| && IsPointer(s.instance) && !s.threads[t].IsCreator()
    ensures CanReturn(s, t, pointer)
  {
    hide CanReturn;
    match s.threads[t] {
      case Calling =>
        ReturnNow(Apply(s, Load(t)), t, pointer);
        ReturnAfter(s, Load(t), t, pointer);
      case Trying =>
        var s1 := Apply(s, CompareAndSwap(t));
        ReturnNow(Apply(s1, Spin(t)), t, pointer);
        ReturnAfter(s1, Spin(t), t, pointer);
        ReturnAfter(s, CompareAndSwap(t), t, pointer);
      case Waiting =>
        ReturnNow(Apply(s, Spin(t)), t, pointer);
        ReturnAfter(s, Spin(t), t, pointer);
      case Returned(value) => ReturnNow(s, t, pointer);
    }
  }

  /** Once the creator's pointer is made, it can be stored; then every thread can return. */
  lemma ReturnMade(s: State, creator: nat, t: nat, pointer: int)
    requires t < |s.threads| && creator < |s.threads| && s.threads[creator].Storing? && IsPointer(s.threads[creator].made)
    requires forall u :: 0 <= u < |s.threads| && s.threads[u].IsCreator() ==> u == creator
    ensures CanReturn(s, t, pointer)
  {
    hide CanReturn;
    ReturnStored(Apply(s, Store(creator)), t, pointer);
    ReturnAfter(s, Store(creator), t, pointer);
  }

  lemma ReturnCreating(s: State, creator: nat, t: nat, pointer: int)
    requires Holds(s) && t < |s.threads| && creator < |s.threads| && s.threads[creator].IsCreator() && IsPointer(pointer)
    ensures CanReturn(s, t, pointer)
  {
    hide CanReturn;
    assert PhaseHolds(s, s.threads[creator]);
    if s.threads[creator].Creating? {
      ReturnMade(Apply(s, New(creator, pointer)), creator, t, pointer);
      ReturnAfter(s, New(creator, pointer), t, pointer);
    } else {
      ReturnMade(s, creator, t, pointer);
    }
  }

  /** From every reachable state, every thread can get its call to return. */
  lemma EveryCallCanReturn(s: State, t: nat, pointer: int)
    requires Holds(s) && t < |s.threads| && IsPointer(pointer)
    ensures CanReturn(s, t, pointer)
  {
    hide CanReturn;
    assert PhaseHolds(s, s.threads[t]);
    if IsPointer(s.instance) {
      ReturnStored(s, t, pointer);
    } else if s.instance == BEING_CREATED_MARKER {
      var creator :| 0 <= creator < |s.threads| && s.threads[creator].IsCreator();
      ReturnCreating(s, creator, t, pointer);
    } else if s.threads[t].Calling? {
      StepKeeps(s, Load(t));
      EveryTrialCanReturn(Apply(s, Load(t)), t, pointer);
      ReturnAfter(s, Load(t), t, pointer);
    } else {
      EveryTrialCanReturn(s, t, pointer);
    }
  }

  lemma EveryTrialCanReturn(s: State, t: nat, pointer: int)
    requires Holds(s) && t < |s.threads| && s.threads[t].Trying? && s.instance == 0 && IsPointer(pointer)
    ensures CanReturn(s, t, pointer)
  {
    hide CanReturn;
    StepKeeps(s, CompareAndSwap(t));
    ReturnCreating(Apply(s, CompareAndSwap(t)), t, t, pointer);
    ReturnAfter(s, CompareAndSwap(t), t, pointer);
  }

  // ---------------------------------------------------------------------------------
  // What New must not return
  // ---------------------------------------------------------------------------------

  /** If New always returns `pointer`: it runs at most once, and every call can return. */
  ghost predicate IsSafeResult(pointer: int) {
    forall threads: nat, steps: seq<Step> :: (CanRun(Initial(threads), steps) && MakesOnly(steps, pointer)) ==>
      var s := Run(Initial(threads), steps);
      |s.made| <= 1 && forall t: nat :: t < |s.threads| ==> CanReturn(s, t, pointer)
  }

  lemma RunFirst(s: State, step: Step, rest: seq<Step>)
    ensures CanRun(s, [step] + rest) <==> IsEnabled(s, step) && CanRun(Apply(s, step), rest)
    ensures CanRun(s, [step] + rest) ==> Run(s, [step] + rest) == Run(Apply(s, step), rest)
  {
    assert ([step] + rest)[1..] == rest;
  }

  /** One thread that gets through creation and calls again. */
  function TwoCalls(pointer: int): seq<Step> {
    [Load(0)] + ([CompareAndSwap(0)] + ([New(0, pointer)] + ([Store(0)] + ([CallAgain(0)] +
    ([Load(0)] + ([CompareAndSwap(0)] + []))))))
  }

  /** After null or the marker was stored, a second call finds no pointer: it creates again, or
      waits. */
  lemma SecondCall(pointer: int)
    requires !IsPointer(pointer)
    ensures CanRun(Initial(1), TwoCalls(pointer)) && MakesOnly(TwoCalls(pointer), pointer)
    ensures Run(Initial(1), TwoCalls(pointer)) ==
            State(BEING_CREATED_MARKER, [if pointer == 0 then Creating else Waiting], [pointer])
  {
    hide Run, CanRun;
    var s1 := State(0, [Trying], []);
    var s2 := State(BEING_CREATED_MARKER, [Creating], []);
    var s3 := State(BEING_CREATED_MARKER, [Storing(pointer)], [pointer]);
    var s4 := State(pointer, [Returned(pointer)], [pointer]);
    var s5 := State(pointer, [Calling], [pointer]);
    var s6 := State(pointer, [Trying], [pointer]);
    var s7 := State(BEING_CREATED_MARKER, [if pointer == 0 then Creating else Waiting], [pointer]);
    assert Initial(1) == State(0, [Calling], []);
    assert Apply(Initial(1), Load(0)) == s1 && Apply(s1, CompareAndSwap(0)) == s2;
    assert Apply(s2, New(0, pointer)) == s3 && Apply(s3, Store(0)) == s4 && Apply(s4, CallAgain(0)) == s5;
    assert Apply(s5, Load(0)) == s6 && Apply(s6, CompareAndSwap(0)) == s7;
    RunNothing(s7);
    RunFirst(s6, CompareAndSwap(0), []);
    RunFirst(s5, Load(0), [CompareAndSwap(0)] + []);
    RunFirst(s4, CallAgain(0), [Load(0)] + ([CompareAndSwap(0)] + []));
    RunFirst(s3, Store(0), [CallAgain(0)] + ([Load(0)] + ([CompareAndSwap(0)] + [])));
    RunFirst(s2, New(0, pointer), [Store(0)] + ([CallAgain(0)] + ([Load(0)] + ([CompareAndSwap(0)] + []))));
    RunFirst(s1, CompareAndSwap(0),
             [New(0, pointer)] + ([Store(0)] + ([CallAgain(0)] + ([Load(0)] + ([CompareAndSwap(0)] + [])))));
    RunFirst(Initial(1), Load(0),
             [CompareAndSwap(0)] + ([New(0, pointer)] + ([Store(0)] + ([CallAgain(0)] + ([Load(0)] + ([CompareAndSwap(0)] + []))))));
  }

  lemma RunNothing(s: State)
    ensures CanRun(s, []) && Run(s, []) == s
  {
  }

  /** A lone waiter at the marker spins for ever. */
  lemma {:induction false} WaitsForEver(s: State, more: seq<Step>)
    requires s.instance == BEING_CREATED_MARKER && s.threads == [Waiting] && CanRun(s, more)
    ensures Run(s, more) == s
    decreases |more|
  {
    if more != [] {
      WaitsForEver(s, more[1..]);
    }
  }

  lemma {:induction false} RunAppend(s: State, steps: seq<Step>, more: seq<Step>)
    requires CanRun(s, steps) && CanRun(Run(s, steps), more)
    ensures CanRun(s, steps + more) && Run(s, steps + more) == Run(Run(s, steps), more)
    decreases |steps|
  {
    hide Apply, IsEnabled;
    if steps == [] {
      assert steps + more == more;
    } else {
      var step, rest := steps[0], steps[1..];
      assert steps == [step] + rest && steps + more == [step] + (rest + more);
      RunFirst(s, step, rest);
      RunFirst(s, step, rest + more);
      hide CanRun, Run;
      RunAppend(Apply(s, step), rest, more);
    }
  }

  /** The protocol works exactly for results that are neither null nor the marker. */
  lemma SafeIffPointer(pointer: int)
    ensures IsSafeResult(pointer) <==> IsPointer(pointer)
  {
    hide CanReturn;
    if IsPointer(pointer) {
      forall threads: nat, steps: seq<Step> | CanRun(Initial(threads), steps) && MakesOnly(steps, pointer)
        ensures |Run(Initial(threads), steps).made| <= 1
        ensures forall t: nat :: t < |Run(Initial(threads), steps).threads| ==> CanReturn(Run(Initial(threads), steps), t, pointer)
      {
        OnceOnly(threads, steps);
        InitialHolds(threads);
        RunKeeps(Initial(threads), steps);
        var s := Run(Initial(threads), steps);
        forall t: nat | t < |s.threads| ensures CanReturn(s, t, pointer) {
          EveryCallCanReturn(s, t, pointer);
        }
      }
    } else {
      Unsafe(pointer);
    }
  }

  lemma Unsafe(pointer: int)
    requires !IsPointer(pointer)
    ensures !IsSafeResult(pointer)
  {
    SecondCall(pointer);
    var s := Run(Initial(1), TwoCalls(pointer));
    if pointer == 0 {
      var more := [New(0, pointer)];
      var s' := Apply(s, New(0, pointer));
      RunNothing(s');
      RunFirst(s, New(0, pointer), []);
      assert [New(0, pointer)] + [] == more;
      RunAppend(Initial(1), TwoCalls(pointer), more);
      assert |Run(Initial(1), TwoCalls(pointer) + more).made| == 2;
      assert MakesOnly(TwoCalls(pointer) + more, pointer);
    } else {
      forall more | CanRun(s, more) ensures Run(s, more) == s {
        WaitsForEver(s, more);
      }
      assert !CanReturn(s, 0, pointer);
    }
  }
}
