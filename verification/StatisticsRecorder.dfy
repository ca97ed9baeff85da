/** Registration of histograms in src/chromium/metrics/histogram.cc: a map from names to
    histograms, and range vectors that histograms share when they are equal.

    Objects live in explicit heaps so that sharing and deletion are visible: an address can be
    used again once its object was deleted.
  */
module StatisticsRecorder {
  import opened RangeChecksum
  import opened Wrappers

  type Address = nat

  /** A range checksum as a map key. */
  datatype Crc = Crc(bits: bv32)

  function CrcOf(ranges: seq<int>): Crc
    requires IsVector(ranges)
  {
    Crc(Checksum(ranges))
  }

  datatype HistogramObject = HistogramObject(name: string, checksum: Crc, cachedRanges: Address)

  datatype RangesObject = RangesObject(ranges: seq<int>, checksum: Crc)

  /** The recorder's two maps and the objects they refer to. */
  datatype Registry = Registry(histograms: map<string, Address>,
                               ranges: map<Crc, seq<Address>>,
                               histogramHeap: map<Address, HistogramObject>,
                               rangesHeap: map<Address, RangesObject>)

  predicate IsVector(ranges: seq<int>) {
    0 < |ranges| < 0x1_0000_0000
  }

  /** The vector at an address, if there is one. */
  function VectorAt(g: Registry, r: Address): seq<int> {
    if r in g.rangesHeap then g.rangesHeap[r].ranges else []
  }

  function RangesOf(g: Registry, h: Address): seq<int>
    requires h in g.histogramHeap
  {
    VectorAt(g, g.histogramHeap[h].cachedRanges)
  }

  /** The shared vectors of a checksum. */
  function ListOf(g: Registry, c: Crc): seq<Address> {
    if c in g.ranges then g.ranges[c] else []
  }

  predicate IsFiled(g: Registry, c: Crc, r: Address) {
    r in ListOf(g, c)
  }

  // ---------------------------------------------------------------------------------
  // What holds of the registry between critical sections
  // ---------------------------------------------------------------------------------

  /** A histogram whose ranges are alive and have the checksum it holds. */
  predicate HasRanges(g: Registry, h: Address) {
    && h in g.histogramHeap
    && g.histogramHeap[h].cachedRanges in g.rangesHeap
    && IsVector(RangesOf(g, h))
    && g.histogramHeap[h].checksum == CrcOf(RangesOf(g, h))
  }

  /** A vector that is alive and filed under its own checksum. */
  predicate IsGoodVector(g: Registry, c: Crc, r: Address) {
    r in g.rangesHeap && IsVector(VectorAt(g, r)) && g.rangesHeap[r].checksum == c == CrcOf(VectorAt(g, r))
  }

  /** Shared vectors are filed under their checksum, each vector once. */
  ghost predicate Interning(g: Registry) {
    && (forall c, r :: IsFiled(g, c, r) ==> IsGoodVector(g, c, r))
    && (forall c, r, q :: IsFiled(g, c, r) && IsFiled(g, c, q) && VectorAt(g, r) == VectorAt(g, q) ==> r == q)
  }

  /** A registered histogram is alive, carries its name and uses a shared vector. */
  predicate IsEntry(g: Registry, name: string, h: Address) {
    HasRanges(g, h) && g.histogramHeap[h].name == name
    && IsFiled(g, g.histogramHeap[h].checksum, g.histogramHeap[h].cachedRanges)
  }

  ghost predicate Sound(g: Registry) {
    Interning(g) && forall name :: name in g.histograms ==> IsEntry(g, name, g.histograms[name])
  }

  /** A histogram that was built and is not registered yet: nothing else uses its vector. */
  ghost predicate IsTentative(g: Registry, h: Address, name: string) {
    && HasRanges(g, h)
    && g.histogramHeap[h].name == name
    && (forall n :: n in g.histograms ==> g.histograms[n] != h)
    && (forall c :: !IsFiled(g, c, g.histogramHeap[h].cachedRanges))
    && (forall k :: k in g.histogramHeap && k != h ==>
          g.histogramHeap[k].cachedRanges != g.histogramHeap[h].cachedRanges)
  }

  /** Two registered histograms use one vector object exactly when their ranges are equal. */
  lemma SharedIffEqual(g: Registry, name: string, other: string)
    requires Sound(g) && name in g.histograms && other in g.histograms
    ensures var h, k := g.histograms[name], g.histograms[other];
            && h in g.histogramHeap && k in g.histogramHeap
            && (g.histogramHeap[h].cachedRanges == g.histogramHeap[k].cachedRanges <==> RangesOf(g, h) == RangesOf(g, k))
  {
    hide CrcOf, IsFiled, VectorAt;
    assert IsEntry(g, name, g.histograms[name]) && IsEntry(g, other, g.histograms[other]);
  }

  // ---------------------------------------------------------------------------------
  // The critical sections
  // ---------------------------------------------------------------------------------

  function Find(g: Registry, name: string): Option<Address> {
    if name in g.histograms then Some(g.histograms[name]) else None
  }

  /** The first vector of a list that equals an object, as `CachedRanges::Equals` compares. */
  function Match(heap: map<Address, RangesObject>, list: seq<Address>, own: RangesObject): Option<Address>
    requires forall q :: q in list ==> q in heap
  {
    if list == [] then None
    else if heap[list[0]] == own then Some(list[0])
    else Match(heap, list[1..], own)
  }

  lemma {:induction false} MatchFinds(heap: map<Address, RangesObject>, list: seq<Address>, own: RangesObject)
    requires forall q :: q in list ==> q in heap
    ensures Match(heap, list, own).Some? ==>
      Match(heap, list, own).value in list && heap[Match(heap, list, own).value] == own
    ensures Match(heap, list, own).None? ==> forall q :: q in list ==> heap[q] != own
  {
    if list != [] {
      MatchFinds(heap, list[1..], own);
      assert forall q :: q in list <==> q == list[0] || q in list[1..];
    }
  }

  /** What registration needs: the histogram and the filed vectors are alive. */
  predicate CanShare(g: Registry, h: Address) {
    && h in g.histogramHeap && g.histogramHeap[h].cachedRanges in g.rangesHeap
    && (forall q :: q in ListOf(g, g.histogramHeap[h].checksum) ==> q in g.rangesHeap)
  }

  function WithChecksum(g: Registry, h: Address): (g': Registry)
    requires CanShare(g, h)
    ensures CanShare(g', h)
  {
    var r := g.histogramHeap[h].cachedRanges;
    g.(rangesHeap := g.rangesHeap[r := g.rangesHeap[r].(checksum := g.histogramHeap[h].checksum)])
  }

  /** Files a histogram's vector, or replaces it by an equal one that is filed already. */
  function ShareRanges(g: Registry, h: Address): Registry
    requires CanShare(g, h)
  {
    var own := g.histogramHeap[h];
    var g' := WithChecksum(g, h);
    var list := ListOf(g', own.checksum);
    var existing := Match(g'.rangesHeap, list, g'.rangesHeap[own.cachedRanges]);
    if existing.Some? then UseVector(g', h, existing.value)
    else g'.(ranges := g'.ranges[own.checksum := [own.cachedRanges] + list])
  }

  function UseVector(g: Registry, h: Address, r: Address): Registry
    requires h in g.histogramHeap
  {
    var own := g.histogramHeap[h];
    g.(histogramHeap := g.histogramHeap[h := own.(cachedRanges := r)], rangesHeap := g.rangesHeap - {own.cachedRanges})
  }

  /** `RegisterOrDeleteDuplicate`: the new registry and the histogram to use. */
  function Register(g: Registry, h: Address): (Registry, Address)
    requires CanShare(g, h)
  {
    var name := g.histogramHeap[h].name;
    if name in g.histograms then (g.(histogramHeap := g.histogramHeap - {h}), g.histograms[name])
    else (ShareRanges(g.(histograms := g.histograms[name := h]), h), h)
  }

  // ---------------------------------------------------------------------------------
  // What registration keeps
  // ---------------------------------------------------------------------------------

  /** A histogram, and the ranges it has, are the same in both. */
  predicate IsKept(g: Registry, g': Registry, k: Address)
    requires k in g.histogramHeap
  {
    && k in g'.histogramHeap && g'.histogramHeap[k] == g.histogramHeap[k]
    && RangesOf(g', k) == RangesOf(g, k)
    && (g.histogramHeap[k].cachedRanges in g.rangesHeap ==> g'.histogramHeap[k].cachedRanges in g'.rangesHeap)
  }

  /** Registering `h` changes no other histogram and no earlier registration. */
  ghost predicate Keeps(g: Registry, g': Registry, h: Address) {
    && (forall k :: k in g.histogramHeap && k != h ==> IsKept(g, g', k))
    && (forall name :: name in g.histograms ==> name in g'.histograms && g'.histograms[name] == g.histograms[name])
  }

  lemma KeptHasRanges(g: Registry, g': Registry, k: Address)
    requires k in g.histogramHeap && IsKept(g, g', k) && HasRanges(g, k)
    ensures HasRanges(g', k)
  {
    hide CrcOf, VectorAt;
  }

  lemma KeptEntry(g: Registry, g': Registry, name: string, k: Address)
    requires IsEntry(g, name, k) && IsKept(g, g', k)
    requires forall c, r :: IsFiled(g, c, r) ==> IsFiled(g', c, r)
    ensures IsEntry(g', name, k)
  {
    KeptHasRanges(g, g', k);
    hide CrcOf, VectorAt, IsFiled, HasRanges;
  }

  lemma TentativeCanShare(g: Registry, h: Address, name: string)
    requires Sound(g) && IsTentative(g, h, name)
    ensures CanShare(g, h)
  {
    hide CrcOf;
    forall q | q in ListOf(g, g.histogramHeap[h].checksum) ensures q in g.rangesHeap {
      assert IsFiled(g, g.histogramHeap[h].checksum, q);
      assert IsGoodVector(g, g.histogramHeap[h].checksum, q);
    }
  }

  lemma DuplicateKeeps(g: Registry, h: Address, name: string)
    requires Sound(g) && IsTentative(g, h, name) && name in g.histograms && CanShare(g, h)
    ensures var g' := Register(g, h).0;
            Sound(g') && Keeps(g, g', h) && g'.histograms == g.histograms && h !in g'.histogramHeap
    ensures Register(g, h).1 == g.histograms[name]
  {
    hide CrcOf, ShareRanges;
    var g' := Register(g, h).0;
    assert forall c, r :: IsFiled(g', c, r) <==> IsFiled(g, c, r);
    assert forall r :: VectorAt(g', r) == VectorAt(g, r);
    forall n | n in g.histograms ensures IsEntry(g', n, g.histograms[n]) {
      KeptEntry(g, g', n, g.histograms[n]);
    }
    assert forall c, r :: IsFiled(g', c, r) ==> IsGoodVector(g, c, r);
  }

  /** Writing a checksum into a vector that is not filed. */
  lemma MarkKeeps(g: Registry, h: Address)
    requires Interning(g) && HasRanges(g, h) && CanShare(g, h)
    requires forall c :: !IsFiled(g, c, g.histogramHeap[h].cachedRanges)
    ensures var g' := WithChecksum(g, h);
            && Interning(g') && g'.histograms == g.histograms && g'.ranges == g.ranges
            && g'.histogramHeap == g.histogramHeap
            && IsGoodVector(g', g.histogramHeap[h].checksum, g.histogramHeap[h].cachedRanges)
            && (forall r :: r in g.rangesHeap <==> r in g'.rangesHeap)
            && (forall r :: VectorAt(g', r) == VectorAt(g, r))
            && (forall r :: r in g.rangesHeap && r != g.histogramHeap[h].cachedRanges ==> g'.rangesHeap[r] == g.rangesHeap[r])
  {
    hide CrcOf;
    var g' := WithChecksum(g, h);
    assert forall c, r :: IsFiled(g', c, r) <==> IsFiled(g, c, r);
    assert forall c, r :: IsFiled(g', c, r) ==> IsGoodVector(g, c, r);
  }

  /** Using an equal filed vector and deleting the histogram's own. */
  lemma UseKeeps(g: Registry, h: Address, q: Address)
    requires Interning(g) && HasRanges(g, h) && IsFiled(g, g.histogramHeap[h].checksum, q)
    requires forall c :: !IsFiled(g, c, g.histogramHeap[h].cachedRanges)
    requires VectorAt(g, q) == RangesOf(g, h)
    requires forall k :: k in g.histogramHeap && k != h ==>
               g.histogramHeap[k].cachedRanges != g.histogramHeap[h].cachedRanges
    ensures var g' := UseVector(g, h, q);
            && Interning(g') && g'.ranges == g.ranges && g'.histograms == g.histograms
            && IsEntry(g', g.histogramHeap[h].name, h) && RangesOf(g', h) == RangesOf(g, h)
            && (forall k :: k in g.histogramHeap && k != h ==> IsKept(g, g', k))
  {
    hide CrcOf;
    var g' := UseVector(g, h, q);
    assert forall c, r :: IsFiled(g', c, r) <==> IsFiled(g, c, r);
    assert forall c, r :: IsFiled(g, c, r) ==> IsGoodVector(g, c, r) && r != g.histogramHeap[h].cachedRanges;
    assert IsGoodVector(g, g.histogramHeap[h].checksum, q);
    assert forall r :: r != g.histogramHeap[h].cachedRanges ==> VectorAt(g', r) == VectorAt(g, r);
  }

  /** Filing a vector that equals none under its checksum. */
  lemma FileKeeps(g: Registry, h: Address)
    requires Interning(g) && HasRanges(g, h)
    requires IsGoodVector(g, g.histogramHeap[h].checksum, g.histogramHeap[h].cachedRanges)
    requires forall q :: IsFiled(g, g.histogramHeap[h].checksum, q) ==> VectorAt(g, q) != RangesOf(g, h)
    ensures var own := g.histogramHeap[h];
            var g' := g.(ranges := g.ranges[own.checksum := [own.cachedRanges] + ListOf(g, own.checksum)]);
            && Interning(g') && IsEntry(g', own.name, h)
            && (forall c, r :: IsFiled(g, c, r) ==> IsFiled(g', c, r))
            && (forall k :: k in g.histogramHeap ==> IsKept(g, g', k))
  {
    hide CrcOf;
    var own := g.histogramHeap[h];
    var g' := g.(ranges := g.ranges[own.checksum := [own.cachedRanges] + ListOf(g, own.checksum)]);
    forall c, r ensures IsFiled(g', c, r) <==> IsFiled(g, c, r) || (c == own.checksum && r == own.cachedRanges) {
      if c == own.checksum {
        assert ListOf(g', c) == [own.cachedRanges] + ListOf(g, c);
      } else {
        assert ListOf(g', c) == ListOf(g, c);
      }
    }
    assert forall c, r :: IsFiled(g, c, r) ==> IsGoodVector(g, c, r);
    assert forall r :: VectorAt(g', r) == VectorAt(g, r);
  }

  lemma ShareKeeps(g: Registry, h: Address)
    requires Interning(g) && HasRanges(g, h) && CanShare(g, h)
    requires forall c :: !IsFiled(g, c, g.histogramHeap[h].cachedRanges)
    requires forall k :: k in g.histogramHeap && k != h ==>
               g.histogramHeap[k].cachedRanges != g.histogramHeap[h].cachedRanges
    ensures var g' := ShareRanges(g, h);
            && Interning(g') && g'.histograms == g.histograms
            && IsEntry(g', g.histogramHeap[h].name, h) && RangesOf(g', h) == RangesOf(g, h)
            && (forall c, r :: IsFiled(g, c, r) ==> IsFiled(g', c, r))
            && (forall k :: k in g.histogramHeap && k != h ==> IsKept(g, g', k))
  {
    MarkKeeps(g, h);
    var marked := WithChecksum(g, h);
    var own := g.histogramHeap[h];
    var list := ListOf(g, own.checksum);
    MatchFinds(marked.rangesHeap, list, marked.rangesHeap[own.cachedRanges]);
    var existing := Match(marked.rangesHeap, list, marked.rangesHeap[own.cachedRanges]);
    assert HasRanges(marked, h);
    assert forall c, r :: IsFiled(marked, c, r) <==> IsFiled(g, c, r);
    hide CrcOf, WithChecksum, Match;
    if existing.Some? {
      assert IsFiled(marked, own.checksum, existing.value);
      UseKeeps(marked, h, existing.value);
    } else {
      forall q | IsFiled(marked, own.checksum, q) ensures VectorAt(marked, q) != RangesOf(marked, h) {
        assert IsGoodVector(marked, own.checksum, q);
      }
      FileKeeps(marked, h);
    }
  }

  lemma FirstKeeps(g: Registry, h: Address, name: string)
    requires Sound(g) && IsTentative(g, h, name) && name !in g.histograms && CanShare(g, h)
    ensures var g' := Register(g, h).0;
            && Sound(g') && Keeps(g, g', h) && g'.histograms == g.histograms[name := h]
            && h in g'.histogramHeap && RangesOf(g', h) == RangesOf(g, h)
    ensures Register(g, h).1 == h
  {
    hide CrcOf, ShareRanges, IsFiled, VectorAt, IsEntry, Interning, IsKept, CanShare;
    var named := Named(g, name, h);
    NamedIsSame(g, name, h);
    assert named.histogramHeap == g.histogramHeap;
    assert HasRanges(g, h);
    forall c ensures !IsFiled(named, c, g.histogramHeap[h].cachedRanges) {
      assert !IsFiled(g, c, g.histogramHeap[h].cachedRanges);
    }
    ShareKeeps(named, h);
    assert RangesOf(named, h) == RangesOf(g, h);
    var g' := ShareRanges(named, h);
    forall k | k in g.histogramHeap && k != h ensures IsKept(g, g', k) {
      NamedIsKept(g, name, h, g', k);
    }
    forall n | n in g'.histograms ensures IsEntry(g', n, g'.histograms[n]) {
      if n != name {
        assert IsEntry(g, n, g.histograms[n]);
        EntryIsAlive(g, n, g.histograms[n]);
        KeptEntry(g, g', n, g.histograms[n]);
      }
    }
    EntryIsAlive(g', name, h);
  }

  function Named(g: Registry, name: string, h: Address): Registry {
    g.(histograms := g.histograms[name := h])
  }

  lemma NamedIsSame(g: Registry, name: string, h: Address)
    ensures var g' := Named(g, name, h);
            && (Interning(g) ==> Interning(g')) && (CanShare(g, h) ==> CanShare(g', h))
            && (HasRanges(g, h) ==> HasRanges(g', h))
            && (forall c, r :: IsFiled(g', c, r) <==> IsFiled(g, c, r))
            && (h in g.histogramHeap ==> RangesOf(g', h) == RangesOf(g, h))
  {
    hide CrcOf;
    assert forall c, r :: IsFiled(Named(g, name, h), c, r) <==> IsFiled(g, c, r);
    assert forall c, r :: IsGoodVector(g, c, r) ==> IsGoodVector(Named(g, name, h), c, r);
  }

  lemma NamedIsKept(g: Registry, name: string, h: Address, g': Registry, k: Address)
    requires k in g.histogramHeap && IsKept(Named(g, name, h), g', k)
    ensures IsKept(g, g', k)
  {
  }

  lemma EntryIsAlive(g: Registry, name: string, h: Address)
    requires IsEntry(g, name, h)
    ensures h in g.histogramHeap && HasRanges(g, h)
  {
    hide CrcOf;
  }

  /** Registration files at most the histogram's own vector, leaves it with that or a filed
      one, and touches no other histogram object. */
  lemma RegisterFrame(g: Registry, h: Address)
    requires CanShare(g, h)
    ensures var g' := Register(g, h).0;
            var own := g.histogramHeap[h];
            && (forall c, q :: IsFiled(g', c, q) ==> IsFiled(g, c, q) || q == own.cachedRanges)
            && (forall k :: k in g'.histogramHeap ==> k in g.histogramHeap && (k != h ==> g'.histogramHeap[k] == g.histogramHeap[k]))
            && (h in g'.histogramHeap ==>
                  g'.histogramHeap[h].cachedRanges == own.cachedRanges || IsFiled(g, own.checksum, g'.histogramHeap[h].cachedRanges))
            && (forall n :: n in g'.histograms ==> g'.histograms[n] == h || (n in g.histograms && g'.histograms[n] == g.histograms[n]))
  {
    var own := g.histogramHeap[h];
    if own.name !in g.histograms {
      var named := Named(g, own.name, h);
      var marked := WithChecksum(named, h);
      var list := ListOf(marked, own.checksum);
      MatchFinds(marked.rangesHeap, list, marked.rangesHeap[own.cachedRanges]);
      assert ListOf(named, own.checksum) == ListOf(g, own.checksum) == list;
      ConsMembers(own.cachedRanges, list);
    }
  }

  lemma ConsMembers(a: Address, list: seq<Address>)
    ensures forall q :: q in [a] + list <==> q == a || q in list
  {
  }

  /** After a registration the name is found with the histogram that registration returned, and
      every other name is found as it was. */
  lemma RegisteredIsFound(g: Registry, h: Address, name: string, other: string)
    requires Sound(g) && IsTentative(g, h, name) && CanShare(g, h)
    ensures var (g', registered) := Register(g, h);
            && Find(g', name) == Some(registered) && HasRanges(g', registered)
            && g'.histogramHeap[registered].name == name
            && (other != name ==> Find(g', other) == Find(g, other))
  {
    if name in g.histograms {
      DuplicateKeeps(g, h, name);
    } else {
      FirstKeeps(g, h, name);
    }
    RegisterKeepsOthers(g, h, other);
    hide Register, ShareRanges, CrcOf, IsFiled, VectorAt, CanShare, IsKept, IsTentative, Interning, HasRanges;
    var g' := Register(g, h).0;
    assert IsEntry(g', name, g'.histograms[name]);
  }

  lemma RegisterKeepsOthers(g: Registry, h: Address, other: string)
    requires CanShare(g, h)
    ensures other != g.histogramHeap[h].name ==> Find(Register(g, h).0, other) == Find(g, other)
  {
  }

  // ---------------------------------------------------------------------------------
  // The recorder's methods, each one critical section
  // ---------------------------------------------------------------------------------

  /** The static maps of `StatisticsRecorder`, and the heaps. */
  class Recorder {
    var histograms: map<string, Address>
    var ranges: map<Crc, seq<Address>>
    var histogramHeap: map<Address, HistogramObject>
    var rangesHeap: map<Address, RangesObject>
    var numberOfVectorsSaved: nat

    constructor ()
      ensures Value() == Registry(map[], map[], map[], map[]) && Sound(Value())
    {
      histograms, ranges, histogramHeap, rangesHeap, numberOfVectorsSaved := map[], map[], map[], map[], 0;
    }

    function Value(): Registry
      reads this
    {
      Registry(histograms, ranges, histogramHeap, rangesHeap)
    }

    method FindHistogram(name: string) returns (found: Option<Address>)
      ensures found == Find(Value(), name)
      ensures Sound(Value()) && found.Some? ==> IsEntry(Value(), name, found.value)
    {
      if name !in histograms {
        return None;
      }
      return Some(histograms[name]);
    }

    /** `CachedRanges::Equals`. */
    method Equals(r: Address, other: Address) returns (equal: bool)
      requires r in rangesHeap && other in rangesHeap
      ensures equal == (rangesHeap[r] == rangesHeap[other])
    {
      var a, b := rangesHeap[r], rangesHeap[other];
      if a.checksum != b.checksum {
        return false;
      }
      if |a.ranges| != |b.ranges| {
        return false;
      }
      for index := 0 to |a.ranges|
        invariant a.ranges[..index] == b.ranges[..index]
      {
        if a.ranges[index] != b.ranges[index] {
          return false;
        }
      }
      assert a.ranges == a.ranges[..|a.ranges|] && b.ranges == b.ranges[..|b.ranges|];
      return true;
    }

    method RegisterOrDeleteDuplicateRanges(h: Address)
      requires CanShare(Value(), h)
      modifies this
      ensures Value() == old(ShareRanges(Value(), h))
    {
      ghost var before := Value();
      var own := histogramHeap[h];
      var checksum := own.checksum;
      rangesHeap := rangesHeap[own.cachedRanges := rangesHeap[own.cachedRanges].(checksum := checksum)];
      ghost var marked := Value();
      assert marked == WithChecksum(before, h);
      if checksum !in ranges {
        ranges := ranges[checksum := [own.cachedRanges]];
        assert [own.cachedRanges] + [] == [own.cachedRanges];
        return;
      }
      var list := ranges[checksum];
      for i := 0 to |list|
        invariant Value() == marked
        invariant Match(rangesHeap, list, rangesHeap[own.cachedRanges]) == Match(rangesHeap, list[i..], rangesHeap[own.cachedRanges])
      {
        assert list[i] in list;
        var existing := list[i];
        var equal := Equals(existing, own.cachedRanges);
        if equal {
          histogramHeap := histogramHeap[h := own.(cachedRanges := existing)];
          numberOfVectorsSaved := numberOfVectorsSaved + 1;
          rangesHeap := rangesHeap - {own.cachedRanges};
          return;
        }
        assert list[i..][1..] == list[i + 1..];
      }
      ranges := ranges[checksum := [own.cachedRanges] + list];
    }

    method RegisterOrDeleteDuplicate(h: Address) returns (registered: Address)
      requires CanShare(Value(), h)
      modifies this
      ensures (Value(), registered) == old(Register(Value(), h))
    {
      var name := histogramHeap[h].name;
      if name !in histograms {
        histograms := histograms[name := h];
        RegisterOrDeleteDuplicateRanges(h);
        return h;
      } else {
        histogramHeap := histogramHeap - {h};
        return histograms[name];
      }
    }
  }
}
