/** Looking switches up whatever their case, against the lookups of src/chromium/command_line.cc. */
module SwitchNames {
  import opened Wrappers
  import opened Lines = CommandLine

  predicate IsUpper(c: char) {
    'A' <= c <= 'Z'
  }

  predicate IsLetter(c: char) {
    IsUpper(c) || 'a' <= c <= 'z'
  }

  function LowerChar(c: char): (l: char)
    ensures !IsUpper(l) && (l == c <==> !IsUpper(c))
  {
    if IsUpper(c) then (c as int + 32) as char else c
  }

  /** The other case of a letter. */
  function OtherCase(c: char): (o: char)
    requires IsLetter(c)
    ensures o != c && LowerChar(o) == LowerChar(c)
    ensures forall d :: LowerChar(d) == LowerChar(c) <==> d == c || d == o
  {
    if IsUpper(c) then (c as int + 32) as char else (c as int - 32) as char
  }

  /** Two characters are one up to case if they are equal, or a capital letter and the letter 32 above. */
  lemma SameLetter(c: char, d: char)
    ensures LowerChar(c) == LowerChar(d) <==>
      c == d || ('A' <= c <= 'Z' && d as int == c as int + 32) || ('A' <= d <= 'Z' && c as int == d as int + 32)
  {
  }

  function Lower(s: string): (l: string)
    ensures |l| == |s| && forall i :: 0 <= i < |s| ==> l[i] == LowerChar(s[i])
  {
    seq(|s|, i requires 0 <= i < |s| => LowerChar(s[i]))
  }

  /** A switch map whose keys are lower-cased: what a lookup that ignores case needs. */
  function Folded(switches: seq<string>): map<string, string> {
    if switches == [] then map[]
    else
      var last := switches[|switches| - 1];
      Folded(switches[..|switches| - 1])[Lower(SwitchKey(last)) := SwitchValue(last)]
  }

  function Lookup(switches: map<string, string>, key: string): Option<string> {
    if key in switches then Some(switches[key]) else None
  }

  /** The lookups of a parsed line for a key are the documented ones, which ignore case. */
  predicate IgnoresCase(switches: seq<string>, key: string) {
    Lookup(Valued(switches, map[]), key) == Lookup(Folded(switches), Lower(key))
  }

  /** The key of the last switch whose key is the given one up to case. */
  function LastSpelling(switches: seq<string>, key: string): Option<string> {
    if switches == [] then None
    else
      var last := SwitchKey(switches[|switches| - 1]);
      if Lower(last) == Lower(key) then Some(last) else LastSpelling(switches[..|switches| - 1], key)
  }

  /** The lookup that ignores case gives what the last spelling has. */
  lemma {:induction false} FoldedIsLastSpelling(switches: seq<string>, key: string)
    ensures var last := LastSpelling(switches, key);
            && (last.None? ==> Lower(key) !in Folded(switches) && key !in Valued(switches, map[]))
            && (last.Some? ==>
                  && Lower(last.value) == Lower(key)
                  && last.value in Valued(switches, map[])
                  && Lookup(Folded(switches), Lower(key)) == Some(Valued(switches, map[])[last.value]))
  {
    hide SwitchKey, SwitchValue, Lower;
    if switches != [] {
      FoldedIsLastSpelling(switches[..|switches| - 1], key);
    }
  }

  /** Both keys are there with the same value. */
  predicate SameEntry(values: map<string, string>, key: string, other: string) {
    key in values && other in values && values[key] == values[other]
  }

  /** A lookup ignores case exactly if no switch has the key in any spelling, or the looked-up
      spelling is there with the value of the last spelling. */
  lemma IgnoresCaseIff(switches: seq<string>, key: string)
    ensures IgnoresCase(switches, key) <==>
      var last := LastSpelling(switches, key);
      last.None? || SameEntry(Valued(switches, map[]), key, last.value)
  {
    hide Valued, Folded, LastSpelling, Lower;
    FoldedIsLastSpelling(switches, key);
  }

  /** A key with one letter in the other case. */
  function Toggled(key: string, i: nat): (t: string)
    requires i < |key| && IsLetter(key[i])
    ensures Lower(t) == Lower(key) && t != key
  {
    var t := key[i := OtherCase(key[i])];
    assert t[i] != key[i];
    t
  }

  /** Whichever letter of a key is turned into the other case, the result is a key with the same
      value. */
  predicate HasAllSpellings(values: map<string, string>) {
    forall key, i :: key in values && 0 <= i < |key| && IsLetter(key[i]) ==>
      SameEntry(values, Toggled(key, i), key)
  }

  lemma NextSpelling(from: string, to: string, i: nat)
    requires Lower(from) == Lower(to) && i < |from| && from[i + 1..] == to[i + 1..]
    ensures |from| == |to|
    ensures from[i] == to[i] ==> from[i..] == to[i..]
    ensures from[i] != to[i] ==> IsLetter(from[i]) && Toggled(from, i)[i..] == to[i..]
  {
    assert |from| == |Lower(from)| == |to|;
    assert from[i..] == [from[i]] + from[i + 1..] && to[i..] == [to[i]] + to[i + 1..];
    assert LowerChar(from[i]) == Lower(from)[i] == Lower(to)[i] == LowerChar(to[i]);
    if from[i] != to[i] {
      assert to[i] == OtherCase(from[i]);
      assert from[i := to[i]][i..] == [to[i]] + from[i + 1..];
    }
  }

  /** Letter by letter, every spelling of a key is reached. */
  lemma {:induction false} SpellingsReached(values: map<string, string>, from: string, to: string, n: nat)
    requires HasAllSpellings(values) && from in values && Lower(from) == Lower(to)
    requires n <= |from| && |from| == |to| && from[n..] == to[n..]
    ensures SameEntry(values, to, from)
    decreases n
  {
    hide Lower, IsLetter, Toggled;
    if n == 0 {
      assert from == from[0..] && to == to[0..];
    } else {
      var i := n - 1;
      NextSpelling(from, to, i);
      if from[i] == to[i] {
        SpellingsReached(values, from, to, i);
      } else {
        var next := Toggled(from, i);
        assert SameEntry(values, next, from);
        assert |next| == |Lower(next)| == |Lower(to)|;
        SpellingsReached(values, next, to, i);
      }
    }
  }

  /** All lookups of a parsed line ignore case exactly if its keys come in all spellings, with the
      same value: one letter at a time decides it. */
  lemma AllIgnoreCaseIff(switches: seq<string>)
    ensures (forall key :: IgnoresCase(switches, key)) <==> HasAllSpellings(Valued(switches, map[]))
  {
    var values := Valued(switches, map[]);
    hide Valued, Folded, LastSpelling, Lower;
    if HasAllSpellings(values) {
      forall key ensures IgnoresCase(switches, key) {
        FoldedIsLastSpelling(switches, key);
        var last := LastSpelling(switches, key);
        if last.Some? {
          assert |last.value| == |Lower(last.value)| == |key|;
          SpellingsReached(values, last.value, key, |key|);
        }
      }
    }
    if forall key :: IgnoresCase(switches, key) {
      forall key, i | key in values && 0 <= i < |key| && IsLetter(key[i])
        ensures SameEntry(values, Toggled(key, i), key)
      {
        var other := Toggled(key, i);
        assert IgnoresCase(switches, key) && IgnoresCase(switches, other);
      }
    }
  }

  /** If every switch is spelled in lower case, so may be every lookup. */
  lemma LowerCaseIsSafe(switches: seq<string>, key: string)
    requires Lower(key) == key
    requires forall i :: 0 <= i < |switches| ==> Lower(SwitchKey(switches[i])) == SwitchKey(switches[i])
    ensures IgnoresCase(switches, key)
  {
    FoldedIsLastSpelling(switches, key);
    LastSpellingIsGiven(switches, key);
  }

  lemma {:induction false} LastSpellingIsGiven(switches: seq<string>, key: string)
    ensures var last := LastSpelling(switches, key);
            last.Some? ==> HasKey(switches, last.value)
  {
    hide SwitchKey, Lower;
    if switches != [] {
      var front := switches[..|switches| - 1];
      LastSpellingIsGiven(front, key);
      assert forall k :: HasKey(front, k) ==> HasKey(switches, k);
      assert HasKey(switches, SwitchKey(switches[|switches| - 1]));
    }
  }

  lemma OneSwitchFound(program: string, s: string)
    requires IsTrimmed(s) && HasPrefix(s) && s != SWITCH_TERMINATOR
    ensures Parse([program, s]).switches == map[SwitchKey(s) := SwitchValue(s)]
    ensures Folded(Switches(TokensOf([program, s]))) == map[Lower(SwitchKey(s)) := SwitchValue(s)]
  {
    hide SwitchKey, SwitchValue, Switches, TokensOf, HasPrefix, IsTrimmed, Lower, Folded, Parse, HasBadSwitch, IsBad, Normal;
    OneSwitch(program, s);
    OneSwitchParsed(program, s);
    FoldedOne(s);
  }

  lemma FoldedOne(s: string)
    ensures Folded([s]) == map[Lower(SwitchKey(s)) := SwitchValue(s)]
  {
    hide SwitchKey, SwitchValue, Lower;
    assert [s][..0] == [] && Folded([]) == map[];
  }

  /** `--Foo` is not found as `foo`. */
  lemma CapitalIsMissed()
    ensures Lookup(Parse(["p", "--Foo=1"]).switches, "foo") == None
    ensures Lookup(Folded(Switches(TokensOf(["p", "--Foo=1"]))), Lower("foo")) == Some("1")
  {
    FirstEqualsIs("--Foo=1", 5);
    CutAtEquals("--Foo=1");
    OneSwitchFound("p", "--Foo=1");
    SameUpToCase();
    hide FirstEquals, SwitchKey, SwitchValue, Switches, TokensOf, HasPrefix, IsTrimmed, Lower, Folded, Parse;
  }

  lemma SameUpToCase()
    ensures "Foo" != "foo" && Lower("Foo") == Lower("foo")
  {
    assert "Foo"[0] != "foo"[0];
  }

  lemma CutAtEquals(s: string)
    requires s == "--Foo=1" && FirstEquals(s) == 5
    ensures SwitchKey(s) == "Foo" && SwitchValue(s) == "1"
  {
    hide FirstEquals;
    assert SwitchString(s) == s[..5] == "--Foo";
  }
}
