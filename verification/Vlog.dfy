/** Pattern matching and level lookup of src/chromium/vlog.cc. */
module Vlog {
  import opened Wrappers

  // ---------------------------------------------------------------------------------
  // The language of a pattern
  // ---------------------------------------------------------------------------------

  predicate IsSlash(c: char) {
    c == '/' || c == '\\'
  }

  /** What one pattern character stands for: `*` for any text, `?` for any character, a slash for
      either slash, and everything else for itself. */
  predicate Covers(p: char, piece: string) {
    p == '*' || (|piece| == 1 && CoversChar(p, piece[0]))
  }

  predicate CoversChar(p: char, c: char) {
    p == '?' || (IsSlash(p) && IsSlash(c)) || p == c
  }

  function Joined(pieces: seq<string>): string {
    if pieces == [] then "" else pieces[0] + Joined(pieces[1..])
  }

  /** The text can be cut into one piece per pattern character. */
  ghost predicate IsCut(s: string, pattern: string, pieces: seq<string>) {
    && |pieces| == |pattern| && Joined(pieces) == s
    && forall i :: 0 <= i < |pattern| ==> Covers(pattern[i], pieces[i])
  }

  ghost predicate InLanguage(s: string, pattern: string) {
    exists pieces :: IsCut(s, pattern, pieces)
  }

  /** The same, by the first pattern character. */
  ghost predicate Matches(s: string, pattern: string)
    decreases |pattern|, 0
  {
    if pattern == "" then s == ""
    else if pattern[0] == '*' then MatchesLater(s, pattern[1..])
    else s != "" && CoversChar(pattern[0], s[0]) && Matches(s[1..], pattern[1..])
  }

  ghost predicate MatchesLater(s: string, pattern: string)
    decreases |pattern|, 1
  {
    exists k :: 0 <= k <= |s| && Matches(s[k..], pattern)
  }

  lemma {:induction false} MatchesIsInLanguage(s: string, pattern: string)
    ensures Matches(s, pattern) <==> InLanguage(s, pattern)
    decreases |pattern|
  {
    if Matches(s, pattern) {
      var pieces := CutOf(s, pattern);
    }
    if InLanguage(s, pattern) {
      var pieces :| IsCut(s, pattern, pieces);
      CutMatches(s, pattern, pieces);
    }
  }

  lemma {:induction false} CutOf(s: string, pattern: string) returns (pieces: seq<string>)
    requires Matches(s, pattern)
    ensures IsCut(s, pattern, pieces)
    decreases |pattern|
  {
    if pattern == "" {
      pieces := [];
    } else if pattern[0] == '*' {
      var k :| 0 <= k <= |s| && Matches(s[k..], pattern[1..]);
      var rest := CutOf(s[k..], pattern[1..]);
      assert s == s[..k] + s[k..];
      pieces := [s[..k]] + rest;
    } else {
      var rest := CutOf(s[1..], pattern[1..]);
      assert s == [s[0]] + s[1..];
      pieces := [[s[0]]] + rest;
    }
  }

  lemma {:induction false} CutMatches(s: string, pattern: string, pieces: seq<string>)
    requires IsCut(s, pattern, pieces)
    ensures Matches(s, pattern)
    decreases |pattern|
  {
    if pattern != "" {
      var rest := Joined(pieces[1..]);
      assert s == pieces[0] + rest && s[|pieces[0]|..] == rest;
      CutMatches(rest, pattern[1..], pieces[1..]);
      assert Covers(pattern[0], pieces[0]);
    }
  }

  // ---------------------------------------------------------------------------------
  // The language, character by character
  // ---------------------------------------------------------------------------------

  /** What a pattern of one character matches. */
  lemma OneCharacter(s: string, p: char)
    ensures InLanguage(s, [p]) <==>
      if p == '*' then true
      else if p == '?' then |s| == 1
      else if p == '/' || p == '\\' then s == "/" || s == "\\"
      else s == [p]
  {
    assert Joined([s]) == s + Joined([]) == s;
    if Covers(p, s) {
      assert IsCut(s, [p], [s]);
    }
    if InLanguage(s, [p]) {
      var pieces :| IsCut(s, [p], pieces);
      assert pieces == [pieces[0]] && Joined(pieces) == pieces[0] + Joined([]) == pieces[0];
      assert Covers(p, s);
    }
  }

  lemma NoCharacter(s: string)
    ensures InLanguage(s, "") <==> s == ""
  {
    if s == "" {
      assert IsCut(s, "", []);
    }
  }

  lemma {:induction false} JoinedBoth(pieces: seq<string>, more: seq<string>)
    ensures Joined(pieces + more) == Joined(pieces) + Joined(more)
  {
    if pieces == [] {
      assert pieces + more == more;
    } else {
      JoinedBoth(pieces[1..], more);
      assert (pieces + more)[1..] == pieces[1..] + more;
    }
  }

  ghost predicate InBoth(s: string, k: int, pattern: string, more: string) {
    0 <= k <= |s| && InLanguage(s[..k], pattern) && InLanguage(s[k..], more)
  }

  /** A pattern behind another one matches what is behind a match of that. */
  lemma Concatenation(s: string, pattern: string, more: string)
    ensures InLanguage(s, pattern + more) <==> exists k :: InBoth(s, k, pattern, more)
  {
    if InLanguage(s, pattern + more) {
      var pieces :| IsCut(s, pattern + more, pieces);
      var first, second := pieces[..|pattern|], pieces[|pattern|..];
      assert pieces == first + second;
      JoinedBoth(first, second);
      var k := |Joined(first)|;
      assert s[..k] == Joined(first) && s[k..] == Joined(second);
      assert IsCut(s[..k], pattern, first) && IsCut(s[k..], more, second) by { CutsApart(pattern, more, first, second); }
      assert InBoth(s, k, pattern, more);
    }
    if exists k :: InBoth(s, k, pattern, more) {
      var k :| InBoth(s, k, pattern, more);
      var first :| IsCut(s[..k], pattern, first);
      var second :| IsCut(s[k..], more, second);
      JoinedBoth(first, second);
      assert s == s[..k] + s[k..];
      assert IsCut(s, pattern + more, first + second);
    }
  }

  lemma CutsApart(pattern: string, more: string, first: seq<string>, second: seq<string>)
    requires |first| == |pattern| && |second| == |more|
    requires forall i :: 0 <= i < |pattern + more| ==> Covers((pattern + more)[i], (first + second)[i])
    ensures IsCut(Joined(first), pattern, first) && IsCut(Joined(second), more, second)
  {
    hide Covers, Joined;
    forall i | 0 <= i < |more| ensures Covers(more[i], second[i]) {
      assert Covers((pattern + more)[|pattern| + i], (first + second)[|pattern| + i]);
    }
    forall i | 0 <= i < |pattern| ensures Covers(pattern[i], first[i]) {
      assert Covers((pattern + more)[i], (first + second)[i]);
    }
  }

  // ---------------------------------------------------------------------------------
  // The matcher
  // ---------------------------------------------------------------------------------

  /** Two stars match what one does. */
  lemma StarsCoalesce(s: string, pattern: string)
    requires pattern != "" && pattern[0] == '*'
    ensures MatchesLater(s, pattern) <==> MatchesLater(s, pattern[1..])
  {
    if MatchesLater(s, pattern) {
      var k :| 0 <= k <= |s| && Matches(s[k..], pattern);
      assert MatchesLater(s[k..], pattern[1..]);
      var j :| 0 <= j <= |s[k..]| && Matches(s[k..][j..], pattern[1..]);
      assert s[k..][j..] == s[k + j..];
    }
    if MatchesLater(s, pattern[1..]) {
      assert s[0..] == s;
      assert Matches(s[0..], pattern);
    }
  }

  lemma EverythingLater(s: string)
    ensures MatchesLater(s, "")
  {
    assert Matches(s[|s|..], "");
  }

  /** A match further on starts here or one character later. */
  lemma LaterStep(s: string, pattern: string)
    requires s != ""
    ensures MatchesLater(s, pattern) <==> Matches(s, pattern) || MatchesLater(s[1..], pattern)
  {
    if MatchesLater(s, pattern) {
      var k :| 0 <= k <= |s| && Matches(s[k..], pattern);
      if k == 0 { assert s[0..] == s; } else { assert s[1..][k - 1..] == s[k..]; }
    }
    if Matches(s, pattern) { assert s[0..] == s; }
    if MatchesLater(s[1..], pattern) {
      var k :| 0 <= k <= |s[1..]| && Matches(s[1..][k..], pattern);
      assert s[1..][k..] == s[k + 1..];
    }
  }

  lemma NothingLater(pattern: string)
    requires pattern != "" && pattern[0] != '*'
    ensures !MatchesLater("", pattern)
  {
  }

  /** Recursive calls are made on what follows at least one star. */
  method MatchVlogPattern(text: string, vlogPattern: string) returns (matched: bool)
    ensures matched <==> InLanguage(text, vlogPattern)
    decreases |vlogPattern|
  {
    MatchesIsInLanguage(text, vlogPattern);
    var p, s := vlogPattern, text;
    while p != "" && s != "" && p[0] != '*'
      invariant |p| <= |vlogPattern| && Matches(text, vlogPattern) == Matches(s, p)
      decreases |p|
    {
      match p[0] {
        case '/' => if s[0] != '/' && s[0] != '\\' { return false; }
        case '\\' => if s[0] != '/' && s[0] != '\\' { return false; }
        case '?' =>
        case _ => if p[0] != s[0] { return false; }
      }
      p, s := p[1..], s[1..];
    }
    if p == "" {
      return s == "";
    }
    // Either a star comes next, or the text is used up and nothing below finds a match.
    ghost var dropped := false;
    while p != "" && p[0] == '*'
      invariant dropped ==> |p| < |vlogPattern| && Matches(text, vlogPattern) == MatchesLater(s, p)
      invariant !dropped ==> p != "" && |p| <= |vlogPattern| && Matches(text, vlogPattern) == Matches(s, p)
      invariant !dropped ==> s == "" || p[0] == '*'
      decreases |p|
    {
      StarsCoalesce(s, p);
      p, dropped := p[1..], true;
    }
    if p == "" {
      EverythingLater(s);
      return true;
    }
    while s != ""
      invariant dropped || s == ""
      invariant Matches(text, vlogPattern) == if dropped then MatchesLater(s, p) else false
      decreases |s|
    {
      LaterStep(s, p);
      MatchesIsInLanguage(s, p);
      matched := MatchVlogPattern(s, p);
      if matched {
        return true;
      }
      s := s[1..];
    }
    NothingLater(p);
    return false;
  }

  // ---------------------------------------------------------------------------------
  // Levels
  // ---------------------------------------------------------------------------------

  /** Where the last character of a kind is, if there is one. */
  function LastIndex(s: string, wanted: char -> bool): (i: Option<nat>)
    ensures i.Some? ==> i.value < |s| && wanted(s[i.value]) && forall j :: i.value < j < |s| ==> !wanted(s[j])
    ensures i.None? ==> forall j :: 0 <= j < |s| ==> !wanted(s[j])
  {
    if s == "" then None
    else if wanted(s[|s| - 1]) then Some(|s| - 1)
    else LastIndex(s[..|s| - 1], wanted)
  }

  const INL_SUFFIX: string := "-inl"

  predicate HasInlSuffix(s: string) {
    |s| >= |INL_SUFFIX| && s[|s| - |INL_SUFFIX|..] == INL_SUFFIX
  }

  predicate EndsDirectory(directory: string) {
    directory == "" || IsSlash(directory[|directory| - 1])
  }

  /** The text after the last slash. */
  function BaseName(file: string): (base: string)
    ensures exists directory :: file == directory + base && EndsDirectory(directory)
    ensures forall i :: 0 <= i < |base| ==> !IsSlash(base[i])
  {
    var lastSlash := LastIndex(file, IsSlash);
    var base := if lastSlash.Some? then file[lastSlash.value + 1..] else file;
    assert file == file[..|file| - |base|] + base && EndsDirectory(file[..|file| - |base|]);
    base
  }

  /** The text before the last dot. */
  function Stem(base: string): (stem: string)
    ensures '.' !in base ==> stem == base
    ensures '.' in base ==> exists extension :: '.' !in extension && base == stem + ("." + extension)
  {
    var extensionStart := LastIndex(base, c => c == '.');
    if extensionStart.None? then base
    else
      var i := extensionStart.value;
      assert base == base[..i] + ("." + base[i + 1..]);
      base[..i]
  }

  function WithoutInl(stem: string): (module_: string)
    ensures stem == module_ + INL_SUFFIX || (stem == module_ && !HasInlSuffix(stem))
  {
    if HasInlSuffix(stem) then
      assert stem == stem[..|stem| - |INL_SUFFIX|] + INL_SUFFIX;
      stem[..|stem| - |INL_SUFFIX|]
    else stem
  }

  /** The module a path is for: `src/foo-inl.h` is for `foo`. */
  function Module(file: string): string {
    WithoutInl(Stem(BaseName(file)))
  }

  lemma {:induction false} LastIndexOf(before: string, c: char, after: string, wanted: char -> bool)
    requires wanted(c) && forall j :: 0 <= j < |after| ==> !wanted(after[j])
    ensures LastIndex(before + ([c] + after), wanted) == Some(|before|)
  {
    var whole := before + ([c] + after);
    assert whole[|before|] == c;
    assert forall j :: |before| < j < |whole| ==> whole[j] == after[j - |before| - 1];
  }

  /** Text without a wanted character after which nothing is wanted either. */
  lemma {:induction false} LastIndexNone(s: string, wanted: char -> bool)
    requires forall j :: 0 <= j < |s| ==> !wanted(s[j])
    ensures LastIndex(s, wanted) == None
  {
  }

  predicate IsExtension(extension: string) {
    extension == "" || (extension[0] == '.' && '.' !in extension[1..])
  }

  lemma BaseNameOfParts(directory: string, base: string)
    requires EndsDirectory(directory) && forall i :: 0 <= i < |base| ==> !IsSlash(base[i])
    ensures BaseName(directory + base) == base
  {
    if directory == "" {
      assert directory + base == base;
      LastIndexNone(base, IsSlash);
    } else {
      var last := |directory| - 1;
      assert directory + base == directory[..last] + ([directory[last]] + base);
      LastIndexOf(directory[..last], directory[last], base, IsSlash);
      assert (directory + base)[last + 1..] == base;
    }
  }

  lemma StemOfParts(name: string, extension: string)
    requires IsExtension(extension) && (extension == "" ==> '.' !in name)
    ensures Stem(name + extension) == name
  {
    if extension == "" {
      assert name + extension == name;
    } else {
      assert extension == ['.'] + extension[1..];
      assert forall j :: 0 <= j < |extension[1..]| ==> extension[1..][j] != '.';
      LastIndexOf(name, '.', extension[1..], c => c == '.');
      assert (name + extension)[..|name|] == name;
    }
  }

  /** Every path is put together from such parts. */
  lemma PathHasParts(file: string) returns (directory: string, name: string, extension: string)
    ensures EndsDirectory(directory) && IsExtension(extension) && (extension == "" ==> '.' !in name)
    ensures forall i :: 0 <= i < |name + extension| ==> !IsSlash((name + extension)[i])
    ensures file == directory + (name + extension)
  {
    var base := BaseName(file);
    directory :| file == directory + base && EndsDirectory(directory);
    name, extension := Stem(base), "";
    if '.' in base {
      var rest :| '.' !in rest && base == name + ("." + rest);
      extension := "." + rest;
    }
    assert name + extension == base;
  }

  lemma NameWithoutInl(name: string)
    ensures if |name| >= 4 && name[|name| - 4..] == "-inl" then name == WithoutInl(name) + "-inl" else name == WithoutInl(name)
  {
    if HasInlSuffix(name) {
      assert name == name[..|name| - 4] + "-inl";
    }
  }

  /** The module of a path, by the parts it is put together from. */
  lemma ModuleOfParts(directory: string, name: string, extension: string)
    requires EndsDirectory(directory) && IsExtension(extension) && (extension == "" ==> '.' !in name)
    requires forall i :: 0 <= i < |name + extension| ==> !IsSlash((name + extension)[i])
    ensures var module_ := Module(directory + (name + extension));
            if |name| >= 4 && name[|name| - 4..] == "-inl" then name == module_ + "-inl" else name == module_
  {
    NameWithoutInl(name);
    BaseNameOfParts(directory, name + extension);
    StemOfParts(name, extension);
    hide BaseName, Stem, WithoutInl;
  }

  datatype VmodulePattern = VmodulePattern(pattern: string, vlogLevel: int)
  {
    /** A pattern with a slash is for whole paths. */
    predicate IsForFile() {
      exists i :: 0 <= i < |pattern| && IsSlash(pattern[i])
    }
  }

  /** Whether an entry applies to a file. */
  ghost predicate Applies(entry: VmodulePattern, file: string) {
    InLanguage(if entry.IsForFile() then file else Module(file), entry.pattern)
  }

  /** The level of the first entry that applies, or else the general one. */
  ghost predicate IsFirstLevel(levels: seq<VmodulePattern>, general: int, file: string, level: int) {
    || (exists i :: 0 <= i < |levels| && Applies(levels[i], file) && level == levels[i].vlogLevel
          && forall j :: 0 <= j < i ==> !Applies(levels[j], file))
    || (level == general && forall j :: 0 <= j < |levels| ==> !Applies(levels[j], file))
  }

  class VlogInfo {
    var vmoduleLevels: seq<VmodulePattern>
    var minLogLevel: int

    constructor (levels: seq<(string, int)>, minLogLevel: int)
      ensures this.minLogLevel == minLogLevel && |vmoduleLevels| == |levels|
      ensures forall i :: 0 <= i < |levels| ==> vmoduleLevels[i] == VmodulePattern(levels[i].0, levels[i].1)
    {
      this.minLogLevel := minLogLevel;
      vmoduleLevels := [];
      new;
      for i := 0 to |levels|
        invariant this.minLogLevel == minLogLevel && |vmoduleLevels| == i
        invariant forall j :: 0 <= j < i ==> vmoduleLevels[j] == VmodulePattern(levels[j].0, levels[j].1)
      {
        vmoduleLevels := vmoduleLevels + [VmodulePattern(levels[i].0, levels[i].1)];
      }
    }

    method GetVlogLevel(file: string) returns (level: int)
      ensures IsFirstLevel(vmoduleLevels, -minLogLevel, file, level)
    {
      hide InLanguage, Module;
      if vmoduleLevels != [] {
        var module_ := Module(file);
        for i := 0 to |vmoduleLevels|
          invariant forall j :: 0 <= j < i ==> !Applies(vmoduleLevels[j], file)
        {
          var entry := vmoduleLevels[i];
          var target := if entry.IsForFile() then file else module_;
          var matched := MatchVlogPattern(target, entry.pattern);
          if matched {
            return entry.vlogLevel;
          }
        }
      }
      return -minLogLevel;
    }
  }
}
