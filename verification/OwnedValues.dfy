/** `DictionaryValue` of src/chromium/values.cc as objects: a dictionary owns the dictionaries
    it holds, and paths change the tree in place.

    Values other than dictionaries are immutable once they are in a tree and are kept as plain
    values.
  */
module OwnedValues {
  import opened ValuePaths
  import opened ValueTree
  import opened Wrappers

  datatype Item = Plain(value: Value) | Owned(child: DictionaryValue)

  class DictionaryValue {
    var dictionary: map<string, Item>
    /** This dictionary and all it owns. */
    ghost var repr: set<DictionaryValue>

    constructor ()
      ensures Valid() && fresh(repr) && Meaning() == map[]
    {
      dictionary := map[];
      repr := {this};
    }

    /** What the dictionary owns is a tree: no dictionary is owned twice. */
    ghost predicate Valid()
      reads this, repr
      ensures Valid() ==> this in repr
      decreases repr, 1
    {
      && this in repr
      && (forall key :: key in dictionary ==> Holds(dictionary[key]))
      && (forall key, other :: key in dictionary && other in dictionary && key != other ==>
            Apart(dictionary[key], dictionary[other]))
    }

    ghost predicate Holds(item: Item)
      reads this, repr
      decreases repr, 0
    {
      match item
      case Plain(value) => !value.Dictionary?
      case Owned(child) => child in repr && child.repr < repr && this !in child.repr && child.Valid()
    }

    ghost predicate Apart(item: Item, other: Item)
      reads this, repr
    {
      item.Owned? && other.Owned? && item.child in repr && other.child in repr ==> item.child.repr !! other.child.repr
    }

    ghost function Meaning(): (entries: Entries)
      requires Valid()
      reads this, repr
      ensures entries.Keys == dictionary.Keys
      decreases repr, 1
    {
      map key | key in dictionary :: MeaningOf(dictionary[key])
    }

    ghost function MeaningOf(item: Item): Value
      requires Holds(item)
      reads this, repr
      decreases repr, 0
    {
      match item
      case Plain(value) => value
      case Owned(child) => Dictionary(child.Meaning())
    }

    method SetPlain(key: string, value: Value)
      requires Valid() && !value.Dictionary?
      modifies this
      ensures Valid() && Meaning() == old(Meaning())[key := value] && repr == old(repr)
      ensures dictionary == old(dictionary)[key := Plain(value)]
    {
      dictionary := dictionary[key := Plain(value)];
    }

    method SetOwned(key: string, child: DictionaryValue)
      requires Valid() && child.Valid() && child.repr !! repr
      modifies this
      ensures Valid() && Meaning() == old(Meaning())[key := Dictionary(old(child.Meaning()))] && repr == old(repr) + child.repr
      ensures dictionary == old(dictionary)[key := Owned(child)]
    {
      dictionary := dictionary[key := Owned(child)];
      repr := repr + child.repr;
    }

    /** A value that can be handed over to this dictionary. */
    ghost predicate CanTake(item: Item)
      reads this, if item.Owned? then {item.child} + item.child.repr else {}
    {
      match item
      case Plain(value) => !value.Dictionary?
      case Owned(child) => child.Valid() && child.repr !! repr
    }

    method SetWithoutPathExpansion(key: string, item: Item)
      requires Valid() && CanTake(item)
      modifies this
      ensures Valid() && Meaning() == old(Meaning())[key := old(ValueOf(item))]
      ensures repr == old(repr) + Footprint(item)
      ensures dictionary == old(dictionary)[key := item]
    {
      match item {
        case Plain(value) => SetPlain(key, value);
        case Owned(child) => SetOwned(key, child);
      }
    }

    method Set(path: string, item: Item)
      requires Valid() && CanTake(item)
      modifies repr
      ensures Valid() && Meaning() == ValuePaths.Set(old(Meaning()), Keys(path), old(ValueOf(item)))
      ensures repr >= old(repr) && fresh(repr - old(repr) - old(Footprint(item)))
      decreases |path|, 0
    {
      hide FirstDot, ValuePaths.Set, Below, MeaningOf, Holds, Apart;
      var i := FirstDot(path);
      if i == |path| {
        SetLast(Meaning(), path, ValueOf(item));
        SetWithoutPathExpansion(path, item);
        return;
      }
      var key := path[..i];
      SetStep(Meaning(), path, ValueOf(item));
      Child(key);
      SetBelow(key, path[i + 1..], item);
    }

    /** Makes sure that there is a dictionary under a key. */
    method Child(key: string)
      requires Valid()
      modifies this
      ensures Valid() && Meaning() == old(Meaning())[key := Dictionary(Below(old(Meaning()), key))]
      ensures key in dictionary && dictionary[key].Owned?
      ensures repr >= old(repr) && fresh(repr - old(repr))
    {
      if !(key in dictionary && dictionary[key].Owned?) {
        assert key in dictionary ==> Holds(dictionary[key]);
        var child := new DictionaryValue();
        SetWithoutPathExpansion(key, Owned(child));
      } else {
        assert Holds(dictionary[key]);
        assert Meaning()[key := Meaning()[key]] == Meaning();
      }
    }

    /** The rest of a path, set in the dictionary under a key. */
    method SetBelow(key: string, rest: string, item: Item)
      requires Valid() && CanTake(item) && key in dictionary && dictionary[key].Owned?
      modifies repr
      ensures Valid()
      ensures Meaning() == old(Meaning())[key := Dictionary(ValuePaths.Set(Below(old(Meaning()), key), Keys(rest), old(ValueOf(item))))]
      ensures repr >= old(repr) && fresh(repr - old(repr) - old(Footprint(item)))
      decreases |rest|, 1
    {
      var child := dictionary[key].child;
      assert Holds(dictionary[key]) && Below(Meaning(), key) == child.Meaning();
      child.Set(rest, item);
      repr := repr + child.repr;
      ChildChanged(key, child.repr - old(child.repr));
    }

    method Get(path: string) returns (found: Option<Item>)
      requires Valid()
      ensures found.Some? ==> CanRead(found.value)
      ensures (if found.Some? then Some(ValueOf(found.value)) else None) == ValuePaths.Get(Meaning(), Keys(path))
    {
      var currentPath := path;
      var current := this;
      var i := FirstDot(currentPath);
      while i < |currentPath|
        invariant current in repr && current.repr <= repr && current.Valid() && i == FirstDot(currentPath)
        invariant ValuePaths.Get(current.Meaning(), Keys(currentPath)) == ValuePaths.Get(Meaning(), Keys(path))
        decreases |currentPath|
      {
        var key := currentPath[..i];
        GetStep(current.Meaning(), currentPath);
        if key !in current.dictionary || !current.dictionary[key].Owned? {
          assert key in current.dictionary ==> current.Holds(current.dictionary[key]);
          return None;
        }
        assert current.Holds(current.dictionary[key]);
        current := current.dictionary[key].child;
        currentPath := currentPath[i + 1..];
        i := FirstDot(currentPath);
      }
      if currentPath !in current.dictionary {
        return None;
      }
      assert current.Holds(current.dictionary[currentPath]);
      return Some(current.dictionary[currentPath]);
    }

    /** An item of this tree. */
    ghost predicate CanRead(item: Item)
      reads this, repr
    {
      item.Owned? ==> item.child in repr && item.child.repr <= repr && item.child.Valid()
    }

    method RemoveWithoutPathExpansion(key: string) returns (removed: bool)
      requires Valid()
      modifies this
      ensures Valid() && Meaning() == old(Meaning()) - {key} && repr == old(repr)
      ensures removed == (key in old(Meaning()))
    {
      if key !in dictionary {
        assert Meaning() - {key} == Meaning();
        return false;
      }
      dictionary := dictionary - {key};
      return true;
    }

    method Remove(path: string) returns (removed: bool)
      requires Valid()
      modifies repr
      ensures Valid() && Meaning() == ValuePaths.Remove(old(Meaning()), Keys(path)) && repr == old(repr)
      ensures removed == ValuePaths.Get(old(Meaning()), Keys(path)).Some?
      decreases |path|
    {
      var i := FirstDot(path);
      if i == |path| {
        removed := RemoveWithoutPathExpansion(path);
        return;
      }
      var key := path[..i];
      GetStep(Meaning(), path);
      RemoveStep(Meaning(), path);
      assert key in dictionary ==> Holds(dictionary[key]);
      if key !in dictionary || !dictionary[key].Owned? {
        return false;
      }
      var child := dictionary[key].child;
      removed := child.Remove(path[i + 1..]);
      assert repr == repr + child.repr;
      ChildChanged(key, {});
    }

    /** A copy that shares nothing with this dictionary. */
    method DeepCopy() returns (copy: DictionaryValue)
      requires Valid()
      ensures fresh(copy.repr) && copy.Valid() && copy.Meaning() == Meaning()
      decreases repr, 2
    {
      copy := new DictionaryValue();
      CopyAll(copy);
    }

    /** The loop of `DeepCopy`. */
    method CopyAll(copy: DictionaryValue)
      requires Valid() && copy.Valid() && copy.Meaning() == map[] && copy.repr !! repr
      modifies copy
      ensures copy.Valid() && copy.Meaning() == Meaning()
      ensures copy.repr >= old(copy.repr) && fresh(copy.repr - old(copy.repr))
      decreases repr, 1
    {
      Without(Meaning());
      var keys := dictionary.Keys;
      while keys != {}
        invariant keys <= dictionary.Keys
        invariant copy.repr >= old(copy.repr) && fresh(copy.repr - old(copy.repr))
        invariant copy.Valid() && copy.Meaning() == Meaning() - keys
        decreases keys
      {
        var key :| key in keys;
        WithoutLess(Meaning(), keys, key);
        CopyInto(copy, key);
        keys := keys - {key};
      }
    }

    /** Copies one entry into another dictionary, or a plain value onto itself. */
    method CopyInto(copy: DictionaryValue, key: string)
      requires Valid() && copy.Valid() && key in dictionary
      requires copy.repr !! repr || (copy == this && dictionary[key].Plain?)
      modifies copy
      ensures copy.Valid() && copy.Meaning() == old(copy.Meaning())[key := old(Meaning())[key]]
      ensures copy.repr >= old(copy.repr) && fresh(copy.repr - old(copy.repr))
      ensures copy == this ==> repr == old(repr)
      decreases repr, 0
    {
      assert Holds(dictionary[key]);
      match dictionary[key] {
        case Plain(value) => copy.SetPlain(key, value);
        case Owned(child) =>
          var childCopy := child.DeepCopy();
          copy.SetOwned(key, childCopy);
      }
    }

    /** Merges another tree into this one; the other one is only read, unless it is this one. */
    method MergeDictionary(other: DictionaryValue)
      requires Valid() && other.Valid() && (other == this || repr !! other.repr)
      modifies repr
      ensures Valid() && Meaning() == Merge(old(Meaning()), old(other.Meaning()))
      ensures repr >= old(repr) && fresh(repr - old(repr))
      ensures other == this ==> repr == old(repr) && Meaning() == old(Meaning())
      decreases other.repr, 2
    {
      ghost var before, source := Meaning(), other.Meaning();
      var keys := other.dictionary.Keys;
      Without(source);
      MergeEmpty(before);
      MergePart(before, {});
      hide Merge, MergedEntry;
      while keys != {}
        invariant keys <= source.Keys
        invariant Valid() && repr >= old(repr) && fresh(repr - old(repr))
        invariant Meaning() == Merge(before, source - keys)
        invariant other.Valid() && other.Meaning() == source && (if other == this then repr == old(repr) else repr !! other.repr)
        decreases keys
      {
        var key :| key in keys;
        MergeMore(before, source, keys, key);
        MergePart(before, keys - {key});
        MergeKey(key, other);
        keys := keys - {key};
      }
    }

    /** What a merged entry means: two dictionaries are merged, otherwise the other entry wins. */
    lemma MergedEntryMeans(key: string, other: DictionaryValue)
      requires Valid() && other.Valid() && key in other.dictionary
      ensures other.Holds(other.dictionary[key]) && (key in dictionary ==> Holds(dictionary[key]))
      ensures if key in dictionary && dictionary[key].Owned? && other.dictionary[key].Owned? then
                MergedEntry(Meaning(), other.Meaning(), key) ==
                Dictionary(Merge(dictionary[key].child.Meaning(), other.dictionary[key].child.Meaning()))
              else MergedEntry(Meaning(), other.Meaning(), key) == other.Meaning()[key]
    {
      assert other.Holds(other.dictionary[key]);
      assert key in dictionary ==> Holds(dictionary[key]);
      hide Merge;
    }

    /** Merges one entry. */
    method MergeKey(key: string, other: DictionaryValue)
      requires Valid() && other.Valid() && (other == this || repr !! other.repr) && key in other.dictionary
      modifies repr
      ensures Valid() && Meaning() == old(Meaning())[key := MergedEntry(old(Meaning()), old(other.Meaning()), key)]
      ensures repr >= old(repr) && fresh(repr - old(repr))
      ensures other == this ==> repr == old(repr)
      decreases other.repr, 1
    {
      MergedEntryMeans(key, other);
      hide MergedEntry, Merge;
      if key in dictionary && dictionary[key].Owned? && other.dictionary[key].Owned? {
        MergeChild(key, other.dictionary[key].child);
      } else {
        other.CopyInto(this, key);
      }
    }

    /** Merges a dictionary into one that this one owns. */
    method MergeChild(key: string, theirs: DictionaryValue)
      requires Valid() && key in dictionary && Holds(dictionary[key]) && dictionary[key].Owned?
      requires theirs.Valid() && (theirs == dictionary[key].child || repr !! theirs.repr)
      modifies repr
      ensures Valid() && repr >= old(repr) && fresh(repr - old(repr))
      ensures theirs == old(dictionary[key].child) ==> repr == old(repr)
      ensures Meaning() ==
        old(Meaning())[key := Dictionary(Merge(old(dictionary[key].child.Meaning()), old(theirs.Meaning())))]
      decreases theirs.repr, 3
    {
      hide Merge;
      var ours := dictionary[key].child;
      ours.MergeDictionary(theirs);
      repr := repr + ours.repr;
      ChildChanged(key, ours.repr - old(ours.repr));
    }

    /** An item none of whose dictionaries changed. */
    twostate lemma ItemKept(item: Item, new changed: set<DictionaryValue>)
      requires old(Holds(item)) && repr >= old(repr)
      requires item.Owned? ==> old(item.child.repr) !! changed
      requires forall d :: d in old(repr) && d !in changed ==> unchanged(d)
      ensures Holds(item) && MeaningOf(item) == old(MeaningOf(item))
      ensures item.Owned? ==> item.child.repr == old(item.child.repr)
    {
    }

    /** One owned dictionary changed and took in new ones. */
    twostate lemma ChildChanged(key: string, new extra: set<DictionaryValue>)
      requires old(Valid()) && dictionary == old(dictionary) && key in dictionary && dictionary[key].Owned?
      requires dictionary[key].child.Valid() && repr == old(repr) + dictionary[key].child.repr
      requires dictionary[key].child.repr <= old(dictionary[key].child.repr) + extra && extra !! old(repr)
      requires forall d :: d in old(repr) && d != this && d !in old(dictionary[key].child.repr) ==> unchanged(d)
      ensures Valid() && Meaning() == old(Meaning())[key := Dictionary(dictionary[key].child.Meaning())]
    {
      ghost var changed := old(dictionary[key].child.repr) + {this};
      forall k | k in dictionary && k != key
        ensures Holds(dictionary[k]) && MeaningOf(dictionary[k]) == old(MeaningOf(dictionary[k]))
        ensures dictionary[k].Owned? ==> dictionary[k].child.repr == old(dictionary[k].child.repr)
      {
        assert old(Holds(dictionary[k]) && Apart(dictionary[k], dictionary[key]));
        ItemKept(dictionary[k], changed);
      }
      assert old(Holds(dictionary[key]));
      assert Holds(dictionary[key]);
      forall k, j | k in dictionary && j in dictionary && k != j ensures Apart(dictionary[k], dictionary[j]) {
        assert old(Holds(dictionary[k]) && Holds(dictionary[j]) && Apart(dictionary[k], dictionary[j]));
      }
    }
  }

  ghost function Footprint(item: Item): set<DictionaryValue>
    reads if item.Owned? then {item.child} else {}
  {
    if item.Owned? then item.child.repr else {}
  }

  ghost function ValueOf(item: Item): Value
    requires item.Owned? ==> item.child.Valid()
    reads if item.Owned? then {item.child} + item.child.repr else {}
  {
    match item
    case Plain(value) => value
    case Owned(child) => Dictionary(child.Meaning())
  }
}
