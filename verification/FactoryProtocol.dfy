/** Threads that ask for histograms through static pointers: the macro at
    src/chromium/metrics/histogram.hh:118-132 around `FactoryGet`.

    A call finds, builds and registers in separate critical sections, and any other thread may
    run between two of them.  The recorder stays active throughout.
  */
module FactoryProtocol {
  import opened StatisticsRecorder
  import opened Wrappers

  /** A place in the program with its static pointer: the histogram it asks for. */
  datatype Site = Site(name: string, layout: seq<int>)

  datatype Phase =
    | Idle
    | Calling(site: nat)              // the static pointer was null
    | Missed(site: nat)               // no histogram of that name was registered
    | Built(site: nat, h: Address)    // a tentative histogram exists
    | Got(site: nat, h: Address)      // FactoryGet has returned
    | Using(site: nat, h: Address)

  datatype State = State(registry: Registry, pointers: map<nat, Address>, threads: seq<Phase>,
                         returned: seq<(string, Address)>)

  datatype Step =
    | Load(t: nat, site: nat)
    | FindIt(t: nat)
    | Build(t: nat, h: Address, r: Address)
    | RegisterIt(t: nat)
    | Store(t: nat)
    | Finish(t: nat)

  predicate AreSites(sites: seq<Site>) {
    forall i :: 0 <= i < |sites| ==> IsVector(sites[i].layout)
  }

  function Initial(threads: nat): State {
    State(Registry(map[], map[], map[], map[]), map[], seq(threads, _ => Idle), [])
  }

  /** A step that can be taken: its thread is in the right phase, and new objects get unused
      addresses. */
  predicate IsEnabled(s: State, step: Step, sites: seq<Site>) {
    && step.t < |s.threads|
    && match step
       case Load(t, site) => s.threads[t].Idle? && site < |sites|
       case FindIt(t) => s.threads[t].Calling? && s.threads[t].site < |sites|
       case Build(t, h, r) =>
         && s.threads[t].Missed? && s.threads[t].site < |sites|
         && h !in s.registry.histogramHeap && r !in s.registry.rangesHeap
       case RegisterIt(t) =>
         && s.threads[t].Built? && s.threads[t].site < |sites| && CanShare(s.registry, s.threads[t].h)
       case Store(t) => s.threads[t].Got?
       case Finish(t) => s.threads[t].Using?
  }

  function BuildIn(g: Registry, site: Site, h: Address, r: Address): Registry
    requires IsVector(site.layout)
  {
    g.(histogramHeap := g.histogramHeap[h := HistogramObject(site.name, CrcOf(site.layout), r)],
       rangesHeap := g.rangesHeap[r := RangesObject(site.layout, Crc(0))])
  }

  function Apply(s: State, step: Step, sites: seq<Site>): State
    requires AreSites(sites) && IsEnabled(s, step, sites)
  {
    match step
    case Load(t, site) =>
      var next := if site in s.pointers then Using(site, s.pointers[site]) else Calling(site);
      s.(threads := s.threads[t := next])
    case FindIt(t) =>
      var site := s.threads[t].site;
      var found := Find(s.registry, sites[site].name);
      if found.None? then s.(threads := s.threads[t := Missed(site)])
      else s.(threads := s.threads[t := Got(site, found.value)],
              returned := s.returned + [(sites[site].name, found.value)])
    case Build(t, h, r) =>
      var site := s.threads[t].site;
      s.(registry := BuildIn(s.registry, sites[site], h, r), threads := s.threads[t := Built(site, h)])
    case RegisterIt(t) =>
      var site := s.threads[t].site;
      var (g, h) := Register(s.registry, s.threads[t].h);
      s.(registry := g, threads := s.threads[t := Got(site, h)], returned := s.returned + [(sites[site].name, h)])
    case Store(t) =>
      var phase := s.threads[t];
      s.(pointers := s.pointers[phase.site := phase.h], threads := s.threads[t := Using(phase.site, phase.h)])
    case Finish(t) =>
      s.(threads := s.threads[t := Idle])
  }

  predicate CanRun(s: State, steps: seq<Step>, sites: seq<Site>)
    requires AreSites(sites)
    decreases |steps|
  {
    steps == [] || (IsEnabled(s, steps[0], sites) && CanRun(Apply(s, steps[0], sites), steps[1..], sites))
  }

  function Run(s: State, steps: seq<Step>, sites: seq<Site>): State
    requires AreSites(sites) && CanRun(s, steps, sites)
    decreases |steps|
  {
    if steps == [] then s else Run(Apply(s, steps[0], sites), steps[1..], sites)
  }

  // ---------------------------------------------------------------------------------
  // The invariant
  // ---------------------------------------------------------------------------------

  predicate IsAgreed(g: Registry, name: string, h: Address) {
    name in g.histograms && g.histograms[name] == h
  }

  ghost predicate PhaseHolds(g: Registry, phase: Phase, sites: seq<Site>) {
    match phase
    case Idle => true
    case Calling(site) => site < |sites|
    case Missed(site) => site < |sites|
    case Built(site, h) =>
      site < |sites| && IsTentative(g, h, sites[site].name) && RangesOf(g, h) == sites[site].layout
    case Got(site, h) => site < |sites| && IsAgreed(g, sites[site].name, h)
    case Using(site, h) => site < |sites| && IsAgreed(g, sites[site].name, h)
  }

  ghost predicate AllAlive(g: Registry) {
    forall h :: h in g.histogramHeap ==> HasRanges(g, h)
  }

  ghost predicate Holds(s: State, sites: seq<Site>) {
    && Sound(s.registry) && AllAlive(s.registry)
    && (forall t :: 0 <= t < |s.threads| ==> PhaseHolds(s.registry, s.threads[t], sites))
    && (forall t, u :: 0 <= t < |s.threads| && 0 <= u < |s.threads| && t != u && s.threads[t].Built? && s.threads[u].Built?
          ==> s.threads[t].h != s.threads[u].h)
    && (forall site :: site in s.pointers ==> site < |sites| && IsAgreed(s.registry, sites[site].name, s.pointers[site]))
    && (forall i :: 0 <= i < |s.returned| ==> IsAgreed(s.registry, s.returned[i].0, s.returned[i].1))
  }

  /** A thread's part of the invariant survives when its own histogram does, and names stay
      registered as they are. */
  lemma PhaseKept(g: Registry, g': Registry, phase: Phase, sites: seq<Site>)
    requires PhaseHolds(g, phase, sites)
    requires forall name :: name in g.histograms ==> name in g'.histograms && g'.histograms[name] == g.histograms[name]
    requires phase.Built? ==> IsTentative(g', phase.h, sites[phase.site].name) && RangesOf(g', phase.h) == RangesOf(g, phase.h)
    ensures PhaseHolds(g', phase, sites)
  {
    hide IsTentative, RangesOf;
  }

  /** Building changes no other object. */
  lemma BuildKeepsOther(g: Registry, site: Site, h: Address, r: Address, k: Address)
    requires IsVector(site.layout) && h !in g.histogramHeap && r !in g.rangesHeap && HasRanges(g, k)
    ensures IsKept(g, BuildIn(g, site, h, r), k) && HasRanges(BuildIn(g, site, h, r), k)
    ensures g.histogramHeap[k].cachedRanges != r && k != h
  {
    hide CrcOf;
  }

  lemma BuildIsSound(g: Registry, site: Site, h: Address, r: Address)
    requires IsVector(site.layout) && Sound(g) && AllAlive(g)
    requires h !in g.histogramHeap && r !in g.rangesHeap
    ensures var g' := BuildIn(g, site, h, r);
            && Sound(g') && g'.histograms == g.histograms
            && (forall k :: k in g.histogramHeap ==> k != h && HasRanges(g', k) && IsKept(g, g', k))
            && (forall c, q :: IsFiled(g', c, q) <==> IsFiled(g, c, q))
            && (forall c, q :: IsFiled(g, c, q) ==> q != r)
  {
    hide CrcOf;
    var g' := BuildIn(g, site, h, r);
    assert forall c, q :: IsFiled(g', c, q) <==> IsFiled(g, c, q);
    assert forall c, q :: IsFiled(g, c, q) ==> IsGoodVector(g, c, q) && q != r;
    assert forall q :: q != r ==> VectorAt(g', q) == VectorAt(g, q);
    assert Interning(g');
    hide Interning, BuildIn, HasRanges, IsKept, IsFiled, VectorAt, IsEntry;
    forall k | k in g.histogramHeap ensures IsKept(g, g', k) && HasRanges(g', k) && k != h {
      BuildKeepsOther(g, site, h, r, k);
    }
    forall n | n in g.histograms ensures IsEntry(g', n, g.histograms[n]) {
      assert IsEntry(g, n, g.histograms[n]);
      EntryIsAlive(g, n, g.histograms[n]);
      KeptEntry(g, g', n, g.histograms[n]);
    }
  }

  lemma EntryIsAlive(g: Registry, name: string, h: Address)
    requires IsEntry(g, name, h)
    ensures h in g.histogramHeap
  {
  }

  lemma BuildKeeps(g: Registry, site: Site, h: Address, r: Address)
    requires IsVector(site.layout) && Sound(g) && AllAlive(g)
    requires h !in g.histogramHeap && r !in g.rangesHeap
    ensures var g' := BuildIn(g, site, h, r);
            && Sound(g') && AllAlive(g') && g'.histograms == g.histograms
            && IsTentative(g', h, site.name) && RangesOf(g', h) == site.layout
            && (forall k :: k in g.histogramHeap ==> k != h && IsKept(g, g', k))
            && (forall c, q :: IsFiled(g', c, q) <==> IsFiled(g, c, q))
  {
    hide BuildIn, IsTentative, RangesOf, IsKept, IsFiled, Sound, HasRanges;
    BuildIsSound(g, site, h, r);
    BuildIsAlive(g, site, h, r);
    BuildIsTentative(g, site, h, r);
  }

  /** The new histogram is alive, and there is no other new one. */
  lemma BuildIsAlive(g: Registry, site: Site, h: Address, r: Address)
    requires IsVector(site.layout) && h !in g.histogramHeap && r !in g.rangesHeap
    ensures var g' := BuildIn(g, site, h, r);
            && HasRanges(g', h) && RangesOf(g', h) == site.layout
            && forall k :: k in g'.histogramHeap ==> k == h || k in g.histogramHeap
  {
    hide CrcOf;
  }

  lemma BuildIsTentative(g: Registry, site: Site, h: Address, r: Address)
    requires IsVector(site.layout) && Sound(g) && AllAlive(g)
    requires h !in g.histogramHeap && r !in g.rangesHeap
    requires forall c, q :: IsFiled(BuildIn(g, site, h, r), c, q) ==> q != r
    ensures IsTentative(BuildIn(g, site, h, r), h, site.name)
  {
    hide CrcOf, IsFiled, Sound, HasRanges, RangesOf;
    BuildIsAlive(g, site, h, r);
    forall k | k in g.histogramHeap ensures g.histogramHeap[k].cachedRanges != r {
      BuildKeepsOther(g, site, h, r, k);
    }
    forall n | n in g.histograms ensures g.histograms[n] != h {
      SoundIsAlive(g, n);
    }
  }

  lemma SoundIsAlive(g: Registry, name: string)
    requires Sound(g) && name in g.histograms
    ensures g.histograms[name] in g.histogramHeap
  {
    assert IsEntry(g, name, g.histograms[name]);
  }

  lemma BuildKeepsTentative(g: Registry, site: Site, h: Address, r: Address, k: Address, name: string)
    requires IsVector(site.layout) && h !in g.histogramHeap && r !in g.rangesHeap && IsTentative(g, k, name)
    ensures IsTentative(BuildIn(g, site, h, r), k, name)
    ensures RangesOf(BuildIn(g, site, h, r), k) == RangesOf(g, k)
  {
    hide CrcOf;
    var g' := BuildIn(g, site, h, r);
    assert forall c, q :: IsFiled(g', c, q) <==> IsFiled(g, c, q);
  }

  lemma RegisterKeepsTentative(g: Registry, h: Address, name: string, k: Address, other: string)
    requires Sound(g) && IsTentative(g, h, name) && CanShare(g, h) && IsTentative(g, k, other) && k != h
    ensures IsTentative(Register(g, h).0, k, other) && RangesOf(Register(g, h).0, k) == RangesOf(g, k)
  {
    hide Register, IsFiled, RangesOf, Sound, CanShare, IsTentative, IsKept;
    RegisterFrame(g, h);
    RegisterKeeps(g, h, name);
    TentativeIsAlive(g, h, name);
    TentativeIsAlive(g, k, other);
    TentativeByFrame(g, Register(g, h).0, h, k, other);
  }

  lemma TentativeByFrame(g: Registry, g': Registry, h: Address, k: Address, name: string)
    requires IsTentative(g, k, name) && h in g.histogramHeap && k != h && IsKept(g, g', k)
    requires forall c, q :: IsFiled(g', c, q) ==> IsFiled(g, c, q) || q == g.histogramHeap[h].cachedRanges
    requires forall j :: j in g'.histogramHeap ==>
      j in g.histogramHeap && (j != h ==> g'.histogramHeap[j] == g.histogramHeap[j])
    requires h in g'.histogramHeap ==>
      g'.histogramHeap[h].cachedRanges == g.histogramHeap[h].cachedRanges
      || IsFiled(g, g.histogramHeap[h].checksum, g'.histogramHeap[h].cachedRanges)
    requires forall n :: n in g'.histograms ==>
      g'.histograms[n] == h || (n in g.histograms && g'.histograms[n] == g.histograms[n])
    ensures IsTentative(g', k, name) && RangesOf(g', k) == RangesOf(g, k)
  {
    KeptHasRanges(g, g', k);
    hide CrcOf, IsFiled, VectorAt, HasRanges;
    assert forall c :: !IsFiled(g, c, g.histogramHeap[k].cachedRanges);
  }

  /** Registration keeps the registry sound and everything alive; the histogram it returns is
      the one of that name, and keeps its ranges if it is the thread's own. */
  lemma RegisterKeeps(g: Registry, h: Address, name: string)
    requires Sound(g) && IsTentative(g, h, name) && CanShare(g, h)
    ensures var (g', a) := Register(g, h);
            && Sound(g') && Keeps(g, g', h) && IsAgreed(g', name, a)
            && (a == h ==> h in g'.histogramHeap && RangesOf(g', h) == RangesOf(g, h))
  {
    if name in g.histograms {
      DuplicateKeeps(g, h, name);
    } else {
      FirstKeeps(g, h, name);
    }
    hide Register, Sound, RangesOf, IsKept, CanShare;
  }

  lemma RegisterKeepsAlive(g: Registry, h: Address, name: string)
    requires Sound(g) && IsTentative(g, h, name) && CanShare(g, h) && AllAlive(g)
    ensures AllAlive(Register(g, h).0)
  {
    RegisterFrame(g, h);
    RegisterKeeps(g, h, name);
    var g', a := Register(g, h).0, Register(g, h).1;
    hide CrcOf, Register, IsFiled, VectorAt, IsTentative;
    forall k | k in g'.histogramHeap ensures HasRanges(g', k) {
      if k != h {
        assert IsKept(g, g', k);
        KeptHasRanges(g, g', k);
      } else {
        assert IsEntry(g', name, h);
      }
    }
  }

  // ---------------------------------------------------------------------------------
  // Steps and runs
  // ---------------------------------------------------------------------------------

  /** The steps outside construction and registration change the registry not at all. */
  lemma QuietStep(s: State, step: Step, sites: seq<Site>)
    requires AreSites(sites) && Holds(s, sites) && IsEnabled(s, step, sites)
    requires !step.Build? && !step.RegisterIt?
    ensures Holds(Apply(s, step, sites), sites) && Apply(s, step, sites).registry == s.registry
  {
    hide Sound, AllAlive, IsTentative, RangesOf;
    var s' := Apply(s, step, sites);
    assert PhaseHolds(s.registry, s.threads[step.t], sites);
    assert PhaseHolds(s.registry, s'.threads[step.t], sites);
  }

  lemma BuildStep(s: State, step: Step, sites: seq<Site>)
    requires AreSites(sites) && Holds(s, sites) && IsEnabled(s, step, sites) && step.Build?
    ensures Holds(Apply(s, step, sites), sites)
  {
    hide Sound, AllAlive, IsTentative, RangesOf, BuildIn, IsKept, IsFiled;
    var g, site := s.registry, sites[s.threads[step.t].site];
    BuildKeeps(g, site, step.h, step.r);
    var s' := Apply(s, step, sites);
    forall u | 0 <= u < |s.threads| && u != step.t
      ensures PhaseHolds(s'.registry, s.threads[u], sites)
      ensures s.threads[u].Built? ==> s.threads[u].h != step.h
    {
      assert PhaseHolds(g, s.threads[u], sites);
      if s.threads[u].Built? {
        TentativeIsAlive(g, s.threads[u].h, sites[s.threads[u].site].name);
        BuildKeepsTentative(g, site, step.h, step.r, s.threads[u].h, sites[s.threads[u].site].name);
      }
      PhaseKept(g, s'.registry, s.threads[u], sites);
    }
    assert PhaseHolds(s'.registry, Built(s.threads[step.t].site, step.h), sites);
  }

  lemma TentativeIsAlive(g: Registry, h: Address, name: string)
    requires IsTentative(g, h, name)
    ensures h in g.histogramHeap && HasRanges(g, h)
  {
  }

  lemma RegisterStep(s: State, step: Step, sites: seq<Site>)
    requires AreSites(sites) && Holds(s, sites) && IsEnabled(s, step, sites) && step.RegisterIt?
    ensures Holds(Apply(s, step, sites), sites)
  {
    hide Sound, AllAlive, IsTentative, RangesOf, Register, CanShare, Keeps;
    var g, phase := s.registry, s.threads[step.t];
    var name := sites[phase.site].name;
    assert PhaseHolds(g, phase, sites);
    RegisterKeeps(g, phase.h, name);
    RegisterKeepsAlive(g, phase.h, name);
    KeepsNames(g, Register(g, phase.h).0, phase.h);
    var s' := Apply(s, step, sites);
    forall u | 0 <= u < |s.threads| && u != step.t ensures PhaseHolds(s'.registry, s.threads[u], sites) {
      if s.threads[u].Built? {
        RegisterKeepsTentative(g, phase.h, name, s.threads[u].h, sites[s.threads[u].site].name);
      }
      PhaseKept(g, s'.registry, s.threads[u], sites);
    }
  }

  lemma KeepsNames(g: Registry, g': Registry, h: Address)
    requires Keeps(g, g', h)
    ensures forall name :: name in g.histograms ==> name in g'.histograms && g'.histograms[name] == g.histograms[name]
  {
  }

  /** A thread that has built a histogram can always register it. */
  lemma RegistrationIsNeverBlocked(s: State, t: nat, sites: seq<Site>)
    requires AreSites(sites) && Holds(s, sites) && t < |s.threads| && s.threads[t].Built?
    ensures IsEnabled(s, RegisterIt(t), sites)
  {
    assert PhaseHolds(s.registry, s.threads[t], sites);
    hide Sound, IsTentative, CanShare;
    TentativeCanShare(s.registry, s.threads[t].h, sites[s.threads[t].site].name);
  }

  lemma StepKeeps(s: State, step: Step, sites: seq<Site>)
    requires AreSites(sites) && Holds(s, sites) && IsEnabled(s, step, sites)
    ensures Holds(Apply(s, step, sites), sites)
  {
    if step.Build? {
      BuildStep(s, step, sites);
    } else if step.RegisterIt? {
      RegisterStep(s, step, sites);
    } else {
      QuietStep(s, step, sites);
    }
  }

  lemma {:induction false} RunKeeps(s: State, steps: seq<Step>, sites: seq<Site>)
    requires AreSites(sites) && Holds(s, sites) && CanRun(s, steps, sites)
    ensures Holds(Run(s, steps, sites), sites)
    decreases |steps|
  {
    if steps != [] {
      hide Holds, Apply, IsEnabled;
      StepKeeps(s, steps[0], sites);
      RunKeeps(Apply(s, steps[0], sites), steps[1..], sites);
    }
  }

  lemma InitialHolds(threads: nat, sites: seq<Site>)
    ensures Holds(Initial(threads), sites)
  {
  }

  /** A static pointer never refers to anything but the histogram its site asks for. */
  lemma PointersAgree(threads: nat, steps: seq<Step>, sites: seq<Site>, site: nat)
    requires AreSites(sites) && CanRun(Initial(threads), steps, sites)
    requires site in Run(Initial(threads), steps, sites).pointers
    ensures var s := Run(Initial(threads), steps, sites);
            site < |sites| && IsAgreed(s.registry, sites[site].name, s.pointers[site])
            && HasRanges(s.registry, s.pointers[site])
  {
    InitialHolds(threads, sites);
    RunKeeps(Initial(threads), steps, sites);
    var s := Run(Initial(threads), steps, sites);
    hide Run, CanRun, Initial, HasRanges;
    assert IsEntry(s.registry, sites[site].name, s.pointers[site]);
  }

  /** In every reachable state, registered histograms share a vector object exactly when their
      ranges are equal. */
  lemma ReachableSharing(threads: nat, steps: seq<Step>, sites: seq<Site>, name: string, other: string)
    requires AreSites(sites) && CanRun(Initial(threads), steps, sites)
    requires var g := Run(Initial(threads), steps, sites).registry; name in g.histograms && other in g.histograms
    ensures var g := Run(Initial(threads), steps, sites).registry;
            var h, k := g.histograms[name], g.histograms[other];
            && h in g.histogramHeap && k in g.histogramHeap
            && (g.histogramHeap[h].cachedRanges == g.histogramHeap[k].cachedRanges <==> RangesOf(g, h) == RangesOf(g, k))
  {
    InitialHolds(threads, sites);
    RunKeeps(Initial(threads), steps, sites);
    SharedIffEqual(Run(Initial(threads), steps, sites).registry, name, other);
  }

  /** A registered histogram stays registered, alive and with the ranges it had. */
  ghost predicate IsStable(g: Registry, g': Registry, name: string) {
    name in g.histograms ==>
      && IsAgreed(g', name, g.histograms[name])
      && g.histograms[name] in g.histogramHeap && g.histograms[name] in g'.histogramHeap
      && RangesOf(g', g.histograms[name]) == RangesOf(g, g.histograms[name])
  }

  lemma KeptIsStable(g: Registry, g': Registry, name: string)
    requires name in g.histograms ==> name in g'.histograms && g'.histograms[name] == g.histograms[name]
    requires Sound(g)
    requires name in g.histograms && g.histograms[name] in g.histogramHeap ==> IsKept(g, g', g.histograms[name])
    ensures IsStable(g, g', name)
  {
    hide RangesOf;
    if name in g.histograms {
      assert IsEntry(g, name, g.histograms[name]);
    }
  }

  lemma RegisterIsStable(g: Registry, h: Address, own: string, name: string)
    requires Sound(g) && IsTentative(g, h, own) && CanShare(g, h)
    ensures IsStable(g, Register(g, h).0, name)
  {
    RegisterKeeps(g, h, own);
    hide RangesOf, Register, CanShare, Sound, IsKept;
    KeptIsStable(g, Register(g, h).0, name);
  }

  lemma StepIsStable(s: State, step: Step, sites: seq<Site>, name: string)
    requires AreSites(sites) && Holds(s, sites) && IsEnabled(s, step, sites)
    ensures IsStable(s.registry, Apply(s, step, sites).registry, name)
  {
    hide RangesOf, Register, BuildIn, CanShare, AllAlive, Sound, IsKept, IsStable, IsTentative;
    var g, phase := s.registry, s.threads[step.t];
    assert PhaseHolds(g, phase, sites);
    if step.Build? {
      BuildKeeps(g, sites[phase.site], step.h, step.r);
      KeptIsStable(g, BuildIn(g, sites[phase.site], step.h, step.r), name);
    } else if step.RegisterIt? {
      RegisterIsStable(g, phase.h, sites[phase.site].name, name);
    } else {
      QuietStep(s, step, sites);
      SameIsKept(g, name);
      KeptIsStable(g, g, name);
    }
  }

  lemma SameIsKept(g: Registry, name: string)
    ensures name in g.histograms && g.histograms[name] in g.histogramHeap ==> IsKept(g, g, g.histograms[name])
  {
  }

  lemma {:induction false} RunIsStable(s: State, steps: seq<Step>, sites: seq<Site>, name: string)
    requires AreSites(sites) && Holds(s, sites) && CanRun(s, steps, sites)
    ensures IsStable(s.registry, Run(s, steps, sites).registry, name)
    decreases |steps|
  {
    if steps == [] {
      if name in s.registry.histograms {
        assert IsEntry(s.registry, name, s.registry.histograms[name]);
      }
    } else {
      hide Holds, Apply, IsEnabled, RangesOf;
      StepKeeps(s, steps[0], sites);
      StepIsStable(s, steps[0], sites, name);
      RunIsStable(Apply(s, steps[0], sites), steps[1..], sites, name);
    }
  }

  // ---------------------------------------------------------------------------------
  // What the calls return
  // ---------------------------------------------------------------------------------

  /** The histogram of a name has the ranges that a site asks for under that name. */
  predicate IsFromSite(g: Registry, name: string, sites: seq<Site>) {
    name in g.histograms && g.histograms[name] in g.histogramHeap
    && exists site :: 0 <= site < |sites| && sites[site].name == name && sites[site].layout == RangesOf(g, g.histograms[name])
  }

  predicate AreFromSites(g: Registry, sites: seq<Site>) {
    forall name :: name in g.histograms ==> IsFromSite(g, name, sites)
  }

  lemma StableFromSite(g: Registry, g': Registry, name: string, sites: seq<Site>)
    requires IsFromSite(g, name, sites) && IsStable(g, g', name)
    ensures IsFromSite(g', name, sites)
  {
    hide RangesOf;
  }

  lemma RegisterAddsName(g: Registry, h: Address)
    requires CanShare(g, h)
    ensures forall name :: name in Register(g, h).0.histograms ==> name in g.histograms || name == g.histogramHeap[h].name
    ensures g.histogramHeap[h].name !in g.histograms ==> Register(g, h).1 == h
  {
    var named := g.(histograms := g.histograms[g.histogramHeap[h].name := h]);
    SharingKeepsNames(named, h);
    hide ShareRanges;
  }

  lemma SharingKeepsNames(g: Registry, h: Address)
    requires CanShare(g, h)
    ensures ShareRanges(g, h).histograms == g.histograms
  {
  }

  lemma StepKeepsSites(s: State, step: Step, sites: seq<Site>)
    requires AreSites(sites) && Holds(s, sites) && IsEnabled(s, step, sites) && AreFromSites(s.registry, sites)
    ensures AreFromSites(Apply(s, step, sites).registry, sites)
  {
    var g, g' := s.registry, Apply(s, step, sites).registry;
    hide Holds, Apply, IsEnabled, RangesOf, Register, IsStable, IsFromSite, CanShare, Sound, Keeps;
    forall name | name in g'.histograms ensures IsFromSite(g', name, sites) {
      if name in g.histograms {
        StepIsStable(s, step, sites, name);
        StableFromSite(g, g', name, sites);
      } else {
        StepAddsNames(s, step, sites, name);
      }
    }
  }

  /** A new name comes from the site of the registering thread. */
  lemma StepAddsNames(s: State, step: Step, sites: seq<Site>, name: string)
    requires AreSites(sites) && Holds(s, sites) && IsEnabled(s, step, sites)
    requires name !in s.registry.histograms && name in Apply(s, step, sites).registry.histograms
    ensures IsFromSite(Apply(s, step, sites).registry, name, sites)
  {
    hide RangesOf, Register, CanShare, Sound, Keeps, IsTentative, AllAlive;
    var g, phase := s.registry, s.threads[step.t];
    assert PhaseHolds(g, phase, sites);
    if step.RegisterIt? {
      NewName(g, phase.h, sites[phase.site].name, name);
    }
  }

  lemma NewName(g: Registry, h: Address, own: string, name: string)
    requires Sound(g) && IsTentative(g, h, own) && CanShare(g, h)
    requires name !in g.histograms && name in Register(g, h).0.histograms
    ensures var g' := Register(g, h).0;
            && name == own && g'.histograms[name] == h && h in g'.histogramHeap && RangesOf(g', h) == RangesOf(g, h)
  {
    RegisterAddsName(g, h);
    RegisterKeeps(g, h, own);
    hide RangesOf, Register, CanShare, Sound, Keeps;
  }

  lemma {:induction false} RunKeepsSites(s: State, steps: seq<Step>, sites: seq<Site>)
    requires AreSites(sites) && Holds(s, sites) && CanRun(s, steps, sites) && AreFromSites(s.registry, sites)
    ensures AreFromSites(Run(s, steps, sites).registry, sites)
    decreases |steps|
  {
    if steps != [] {
      hide Holds, Apply, IsEnabled, AreFromSites;
      StepKeeps(s, steps[0], sites);
      StepKeepsSites(s, steps[0], sites);
      RunKeepsSites(Apply(s, steps[0], sites), steps[1..], sites);
    }
  }

  /** Whatever the interleaving, two calls return one histogram exactly if they are for one name.
      It is alive, carries that name, and has the ranges that some site asks for under it. */
  lemma CallsAgree(threads: nat, steps: seq<Step>, sites: seq<Site>, i: nat, j: nat)
    requires AreSites(sites) && CanRun(Initial(threads), steps, sites)
    requires var s := Run(Initial(threads), steps, sites); i < |s.returned| && j < |s.returned|
    ensures var s := Run(Initial(threads), steps, sites);
            var (name, h) := s.returned[i];
            && (s.returned[j].0 == name <==> s.returned[j].1 == h)
            && HasRanges(s.registry, h) && s.registry.histogramHeap[h].name == name
            && exists site :: 0 <= site < |sites| && sites[site].name == name && sites[site].layout == RangesOf(s.registry, h)
  {
    InitialHolds(threads, sites);
    RunKeeps(Initial(threads), steps, sites);
    RunKeepsSites(Initial(threads), steps, sites);
    var s := Run(Initial(threads), steps, sites);
    hide Run, CanRun, Initial, HasRanges, RangesOf;
    assert IsAgreed(s.registry, s.returned[i].0, s.returned[i].1);
    assert IsAgreed(s.registry, s.returned[j].0, s.returned[j].1);
    assert IsFromSite(s.registry, s.returned[i].0, sites);
    assert IsEntry(s.registry, s.returned[i].0, s.returned[i].1);
    assert IsEntry(s.registry, s.returned[j].0, s.returned[j].1);
  }
}
