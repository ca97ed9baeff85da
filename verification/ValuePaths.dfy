/** What the dotted-path operations of src/chromium/values.cc do to the value of a dictionary. */
module ValuePaths {
  import opened ValueTree
  import opened Wrappers

  type Entries = map<string, Value>

  // ---------------------------------------------------------------------------------
  // Paths
  // ---------------------------------------------------------------------------------

  /** Where a path's first delimiter is; the length of the path if there is none. */
  function FirstDot(path: string): (i: nat)
    ensures i <= |path| && '.' !in path[..i] && (i < |path| ==> path[i] == '.')
  {
    if path == "" || path[0] == '.' then 0
    else
      var i := FirstDot(path[1..]);
      assert path[..i + 1] == [path[0]] + path[1..][..i];
      i + 1
  }

  /** The keys of a path; there is always one, which may be empty. */
  function Keys(path: string): (keys: seq<string>)
    ensures keys != []
    decreases |path|
  {
    var i := FirstDot(path);
    if i == |path| then [path] else [path[..i]] + Keys(path[i + 1..])
  }

  /** Keys with delimiters between them. */
  function Dotted(keys: seq<string>): string {
    if keys == [] then "" else if |keys| == 1 then keys[0] else keys[0] + ("." + Dotted(keys[1..]))
  }

  /** The keys of a path are what lies between its dots. */
  lemma {:induction false} KeysAreParts(path: string)
    ensures Dotted(Keys(path)) == path && forall i :: 0 <= i < |Keys(path)| ==> '.' !in Keys(path)[i]
    decreases |path|
  {
    hide FirstDot;
    var i := FirstDot(path);
    if i < |path| {
      var rest := path[i + 1..];
      KeysAreParts(rest);
      KeysFirst(path);
      assert path == path[..i] + ("." + rest);
      forall j | 0 <= j < |Keys(path)| ensures '.' !in Keys(path)[j] {
        if j > 0 { assert Keys(path)[j] == Keys(rest)[j - 1]; }
      }
    } else {
      assert path[..i] == path;
    }
  }

  lemma KeysFirst(path: string)
    requires FirstDot(path) < |path|
    ensures var rest := Keys(path[FirstDot(path) + 1..]);
            Keys(path) == [path[..FirstDot(path)]] + rest && Keys(path)[0] == path[..FirstDot(path)] && Keys(path)[1..] == rest && |Keys(path)| > 1
  {
    hide FirstDot;
  }

  /** Two paths go different ways before either ends. */
  predicate Diverge(p: seq<string>, q: seq<string>) {
    exists i :: 0 <= i < |p| && i < |q| && p[i] != q[i]
  }

  // ---------------------------------------------------------------------------------
  // Operations
  // ---------------------------------------------------------------------------------

  /** The dictionary under a key; an empty one if there is none. */
  function Below(d: Entries, key: string): Entries {
    if key in d && d[key].Dictionary? then d[key].entries else map[]
  }

  function Set(d: Entries, keys: seq<string>, v: Value): Entries
    requires keys != []
    decreases |keys|
  {
    if |keys| == 1 then d[keys[0] := v]
    else d[keys[0] := Dictionary(Set(Below(d, keys[0]), keys[1..], v))]
  }

  lemma SetFirst(d: Entries, key: string, rest: seq<string>, v: Value)
    requires rest != []
    ensures var child := d[key := Dictionary(Below(d, key))];
            Set(d, [key] + rest, v) == child[key := Dictionary(Set(Below(child, key), rest, v))]
  {
    assert ([key] + rest)[1..] == rest;
  }

  lemma SetLast(d: Entries, path: string, v: Value)
    requires FirstDot(path) == |path|
    ensures Set(d, Keys(path), v) == d[path := v]
  {
  }

  /** A set along a path with a delimiter. */
  lemma SetStep(d: Entries, path: string, v: Value)
    requires FirstDot(path) < |path|
    ensures var key := path[..FirstDot(path)];
            var rest := Keys(path[FirstDot(path) + 1..]);
            var child := d[key := Dictionary(Below(d, key))];
            && Set(d, Keys(path), v) == child[key := Dictionary(Set(Below(child, key), rest, v))]
  {
    hide FirstDot, Keys, Set, Below;
    var i := FirstDot(path);
    KeysFirst(path);
    SetFirst(d, path[..i], Keys(path[i + 1..]), v);
  }

  function Get(d: Entries, keys: seq<string>): Option<Value>
    requires keys != []
    decreases |keys|
  {
    if keys[0] !in d then None
    else if |keys| == 1 then Some(d[keys[0]])
    else if d[keys[0]].Dictionary? then Get(d[keys[0]].entries, keys[1..])
    else None
  }

  lemma GetStep(d: Entries, path: string)
    requires FirstDot(path) < |path|
    ensures var key := path[..FirstDot(path)];
            Get(d, Keys(path)) ==
            if key in d && d[key].Dictionary? then Get(d[key].entries, Keys(path[FirstDot(path) + 1..])) else None
  {
    hide FirstDot, Keys;
    KeysFirst(path);
  }

  lemma RemoveStep(d: Entries, path: string)
    requires FirstDot(path) < |path|
    ensures var key := path[..FirstDot(path)];
            Remove(d, Keys(path)) ==
            if key in d && d[key].Dictionary?
            then d[key := Dictionary(Remove(d[key].entries, Keys(path[FirstDot(path) + 1..])))] else d
  {
    hide FirstDot, Keys;
    KeysFirst(path);
  }

  function Remove(d: Entries, keys: seq<string>): Entries
    requires keys != []
    decreases |keys|
  {
    if |keys| == 1 then d - {keys[0]}
    else if keys[0] in d && d[keys[0]].Dictionary? then d[keys[0] := Dictionary(Remove(d[keys[0]].entries, keys[1..]))]
    else d
  }

  /** Entries of `e` win, except that a dictionary of `e` is merged into one of `d`. */
  function Merge(d: Entries, e: Entries): Entries
    decreases Dictionary(e)
  {
    map key | key in d.Keys + e.Keys ::
      if key !in e then d[key]
      else if e[key].Dictionary? && key in d && d[key].Dictionary? then Dictionary(Merge(d[key].entries, e[key].entries))
      else e[key]
  }

  // ---------------------------------------------------------------------------------
  // Laws
  // ---------------------------------------------------------------------------------

  /** What is read at `q` after a value was set at `p`: the value itself, a part of it, a
      dictionary on the way to it, or what was there before. */
  function Expected(d: Entries, p: seq<string>, v: Value, q: seq<string>): Option<Value>
    requires p != [] && q != []
  {
    if p == q then Some(v)
    else if p < q then if v.Dictionary? then Get(v.entries, q[|p|..]) else None
    else if q < p then
      var below := Get(d, q);
      Some(Dictionary(Set(if below.Some? && below.value.Dictionary? then below.value.entries else map[], p[|q|..], v)))
    else Get(d, q)
  }

  lemma {:induction false} GetOfEmpty(q: seq<string>)
    requires q != []
    ensures Get(map[], q) == None
  {
  }

  /** Every read after a set, for any pair of paths. */
  lemma {:induction false} GetAfterSet(d: Entries, p: seq<string>, v: Value, q: seq<string>)
    requires p != [] && q != []
    ensures Get(Set(d, p, v), q) == Expected(d, p, v, q)
    decreases |p|
  {
    if p[0] == q[0] && |p| > 1 && |q| > 1 {
      var below := Below(d, p[0]);
      GetAfterSet(below, p[1..], v, q[1..]);
      hide Expected;
      ExpectedBelow(d, p, v, q);
      assert Get(Set(d, p, v), q) == Get(Set(below, p[1..], v), q[1..]);
    }
  }

  lemma ExpectedBelow(d: Entries, p: seq<string>, v: Value, q: seq<string>)
    requires |p| > 1 && |q| > 1 && p[0] == q[0]
    ensures Expected(d, p, v, q) == Expected(Below(d, p[0]), p[1..], v, q[1..])
  {
    BelowIs(d, p[0], q[1..]);
    Tails(p, q);
    hide Get, Set, Below;
    if p < q { assert q[1..][|p[1..]|..] == q[|p|..]; }
    if q < p { assert p[1..][|q[1..]|..] == p[|q|..]; }
  }

  lemma BelowIs(d: Entries, key: string, rest: seq<string>)
    requires rest != []
    ensures Get(Below(d, key), rest) == Get(d, [key] + rest)
  {
    assert ([key] + rest)[1..] == rest;
    GetOfEmpty(rest);
  }

  lemma Tails(p: seq<string>, q: seq<string>)
    requires p != [] && q != [] && p[0] == q[0]
    ensures p == [p[0]] + p[1..] && q == [q[0]] + q[1..]
    ensures p == q <==> p[1..] == q[1..]
    ensures p < q <==> p[1..] < q[1..]
    ensures q < p <==> q[1..] < p[1..]
  {
  }

  /** A set is read back, and paths that diverge from it read what they did before, even when it
      replaced a value that was no dictionary on its way. */
  lemma SetIsLocal(d: Entries, p: seq<string>, v: Value, q: seq<string>)
    requires p != [] && q != []
    ensures Get(Set(d, p, v), p) == Some(v)
    ensures Diverge(p, q) ==> Get(Set(d, p, v), q) == Get(d, q)
  {
    GetAfterSet(d, p, v, p);
    GetAfterSet(d, p, v, q);
  }

  /** What is read at `q` after the path `p` was removed: nothing at it and below it, a dictionary
      without the rest of the path above it, and what was there before anywhere else. */
  function ExpectedWithout(d: Entries, p: seq<string>, q: seq<string>): Option<Value>
    requires p != [] && q != []
  {
    if p <= q then None
    else if q < p then
      var above := Get(d, q);
      if above.Some? && above.value.Dictionary? then Some(Dictionary(Remove(above.value.entries, p[|q|..]))) else above
    else Get(d, q)
  }

  /** Every read after a removal, for any pair of paths. */
  lemma {:induction false} GetAfterRemove(d: Entries, p: seq<string>, q: seq<string>)
    requires p != [] && q != []
    ensures Get(Remove(d, p), q) == ExpectedWithout(d, p, q)
    decreases |p|
  {
    if p[0] == q[0] {
      Tails(p, q);
      if |p| > 1 && |q| > 1 && p[0] in d && d[p[0]].Dictionary? {
        GetAfterRemove(d[p[0]].entries, p[1..], q[1..]);
        if q < p { assert p[1..][|q[1..]|..] == p[|q|..]; }
      } else if |q| == 1 && |p| > 1 {
        assert q < p;
      }
    }
  }

  /** `Remove` looks the parent up by all keys but the last and erases one entry of it. */
  lemma {:induction false} RemoveByParent(d: Entries, parent: seq<string>, key: string)
    requires parent != []
    ensures var below := Get(d, parent);
            Remove(d, parent + [key]) ==
            if below.Some? && below.value.Dictionary? then Set(d, parent, Dictionary(below.value.entries - {key})) else d
    decreases |parent|
  {
    var p := parent + [key];
    assert p[0] == parent[0] && p[1..] == parent[1..] + [key];
    if |parent| > 1 && parent[0] in d && d[parent[0]].Dictionary? {
      RemoveByParent(d[parent[0]].entries, parent[1..], key);
      var below := Get(d, parent);
      if !(below.Some? && below.value.Dictionary?) {
        assert d[parent[0] := d[parent[0]]] == d;
      }
    }
  }

  /** What is read at a path after a merge. */
  lemma {:induction false} GetAfterMerge(d: Entries, e: Entries, q: seq<string>)
    requires q != []
    ensures Get(e, q).None? && Blocks(e, q) ==> Get(Merge(d, e), q) == None
    ensures Get(e, q).None? && !Blocks(e, q) ==> Get(Merge(d, e), q) == Get(d, q)
    ensures Get(e, q).Some? ==> Get(Merge(d, e), q) == Some(MergedValue(Get(d, q), Get(e, q).value))
    decreases |q|
  {
    if |q| > 1 && q[0] in d && q[0] in e && d[q[0]].Dictionary? && e[q[0]].Dictionary? {
      GetAfterMerge(d[q[0]].entries, e[q[0]].entries, q[1..]);
    }
  }

  /** The value that wins at one path. */
  function MergedValue(before: Option<Value>, v: Value): Value {
    if v.Dictionary? && before.Some? && before.value.Dictionary?
    then Dictionary(Merge(before.value.entries, v.entries)) else v
  }

  /** Merging the same dictionary again changes nothing. */
  lemma {:induction false} MergeTwice(d: Entries, e: Entries)
    ensures Merge(Merge(d, e), e) == Merge(d, e)
    decreases Dictionary(e)
  {
    var merged := Merge(d, e);
    forall key | key in e && e[key].Dictionary? ensures Merge(merged, e)[key] == merged[key] {
      if key in d && d[key].Dictionary? {
        MergeTwice(d[key].entries, e[key].entries);
      } else {
        MergeItself(e[key].entries);
      }
    }
    assert Merge(merged, e).Keys == merged.Keys;
  }

  lemma {:induction false} MergeItself(d: Entries)
    ensures Merge(d, d) == d
    decreases Dictionary(d)
  {
    forall key | key in d && d[key].Dictionary? ensures Merge(d, d)[key] == d[key] {
      MergeItself(d[key].entries);
    }
  }

  /** So does merging some of its entries. */
  lemma MergePart(d: Entries, keys: set<string>)
    ensures Merge(d, d - keys) == d
  {
    forall key | key in d && d[key].Dictionary? ensures Merge(d[key].entries, d[key].entries) == d[key].entries {
      MergeItself(d[key].entries);
    }
  }

  lemma {:induction false} MergeEmpty(d: Entries)
    ensures Merge(d, map[]) == d && Merge(map[], d) == d
  {
  }

  /** A value that is no dictionary lies on the way. */
  predicate Blocks(e: Entries, q: seq<string>)
    requires q != []
    decreases |q|
  {
    |q| > 1 && q[0] in e && (if e[q[0]].Dictionary? then Blocks(e[q[0]].entries, q[1..]) else true)
  }

  // ---------------------------------------------------------------------------------
  // Working through the keys of a dictionary one by one
  // ---------------------------------------------------------------------------------

  lemma Without(d: Entries)
    ensures d - d.Keys == map[] && d - {} == d
  {
  }

  lemma WithoutLess(d: Entries, keys: set<string>, key: string)
    requires key in d && key in keys
    ensures d - (keys - {key}) == (d - keys)[key := d[key]]
  {
  }

  function MergedEntry(d: Entries, e: Entries, key: string): Value
    requires key in e
  {
    MergedValue(if key in d then Some(d[key]) else None, e[key])
  }

  /** Merging one key more. */
  lemma MergeMore(d: Entries, e: Entries, keys: set<string>, key: string)
    requires key in e && key in keys
    ensures var merged := Merge(d, e - keys);
            Merge(d, e - (keys - {key})) == merged[key := MergedEntry(merged, e, key)]
  {
    WithoutLess(e, keys, key);
  }
}
