/** Switches and arguments of src/chromium/command_line.cc. */
module CommandLine {
  // ---------------------------------------------------------------------------------
  // Tokens
  // ---------------------------------------------------------------------------------

  predicate IsWhitespace(c: char) {
    c == ' ' || (9 as char <= c <= 13 as char)
  }

  function TrimLeft(s: string): (t: string)
    ensures |t| <= |s| && t == s[|s| - |t|..] && (t != "" ==> !IsWhitespace(t[0]))
    ensures s != "" && !IsWhitespace(s[0]) ==> t == s
  {
    if s == "" || !IsWhitespace(s[0]) then s else TrimLeft(s[1..])
  }

  function TrimRight(s: string): (t: string)
    ensures |t| <= |s| && t == s[..|t|] && (t != "" ==> !IsWhitespace(t[|t| - 1]))
    ensures s != "" && !IsWhitespace(s[|s| - 1]) ==> t == s
  {
    if s == "" || !IsWhitespace(s[|s| - 1]) then s else TrimRight(s[..|s| - 1])
  }

  function TrimWhitespace(s: string): string {
    TrimRight(TrimLeft(s))
  }

  predicate IsTrimmed(s: string) {
    s == "" || (!IsWhitespace(s[0]) && !IsWhitespace(s[|s| - 1]))
  }

  lemma TrimIsTrimmed(s: string)
    ensures IsTrimmed(TrimWhitespace(s))
    ensures IsTrimmed(s) ==> TrimWhitespace(s) == s
  {
  }

  const SWITCH_TERMINATOR: string := "--"

  function PrefixLength(s: string): (n: nat)
    ensures n <= |s|
  {
    if "--" <= s then 2 else if "-" <= s then 1 else 0
  }

  predicate HasPrefix(s: string) {
    PrefixLength(s) > 0
  }

  /** Where the first `=` is; the length of the text if there is none. */
  function FirstEquals(s: string): (i: nat)
    ensures i <= |s| && '=' !in s[..i] && (i < |s| ==> s[i] == '=')
  {
    if s == "" || s[0] == '=' then 0
    else
      var i := FirstEquals(s[1..]);
      assert s[..i + 1] == [s[0]] + s[1..][..i];
      i + 1
  }

  lemma FirstEqualsIs(s: string, i: nat)
    requires i < |s| && s[i] == '=' && '=' !in s[..i]
    ensures FirstEquals(s) == i
  {
  }

  /** The part of a switch before its value, prefix included. */
  function SwitchString(s: string): string {
    s[..FirstEquals(s)]
  }

  function SwitchValue(s: string): string {
    if FirstEquals(s) < |s| then s[FirstEquals(s) + 1..] else ""
  }

  function SwitchKey(s: string): string {
    SwitchString(s)[PrefixLength(SwitchString(s))..]
  }

  /** How a switch is stored: an empty value loses its separator. */
  function Normal(s: string): string {
    if SwitchValue(s) == "" then SwitchString(s) else SwitchString(s) + ("=" + SwitchValue(s))
  }

  // ---------------------------------------------------------------------------------
  // What parsing a list of tokens gives
  // ---------------------------------------------------------------------------------

  /** No terminator up to here. */
  predicate IsLive(tokens: seq<string>) {
    SWITCH_TERMINATOR !in tokens
  }

  /** The tokens taken as switches, in order. */
  function Switches(tokens: seq<string>): seq<string> {
    if tokens == [] then []
    else
      var last := tokens[|tokens| - 1];
      Switches(tokens[..|tokens| - 1]) + if IsLive(tokens) && HasPrefix(last) then [last] else []
  }

  /** The other tokens, in order. */
  function Arguments(tokens: seq<string>): seq<string> {
    if tokens == [] then []
    else
      var last := tokens[|tokens| - 1];
      Arguments(tokens[..|tokens| - 1]) + if IsLive(tokens) && HasPrefix(last) then [] else [last]
  }

  function Normals(tokens: seq<string>): (r: seq<string>)
    ensures |r| == |tokens| && forall i :: 0 <= i < |r| ==> r[i] == Normal(tokens[i])
  {
    seq(|tokens|, i requires 0 <= i < |tokens| => Normal(tokens[i]))
  }

  function Trimmed(tokens: seq<string>): (r: seq<string>)
    ensures |r| == |tokens| && forall i :: 0 <= i < |r| ==> r[i] == TrimWhitespace(tokens[i])
  {
    seq(|tokens|, i requires 0 <= i < |tokens| => TrimWhitespace(tokens[i]))
  }

  /** A switch map after switches were added one by one. */
  function Valued(switches: seq<string>, before: map<string, string>): map<string, string> {
    if switches == [] then before
    else
      var last := switches[|switches| - 1];
      Valued(switches[..|switches| - 1], before)[SwitchKey(last) := SwitchValue(last)]
  }

  /** The tokens after the program name. */
  function TokensOf(argv: seq<string>): seq<string> {
    if argv == [] then [] else Trimmed(argv[1..])
  }

  lemma TokensCount(argv: seq<string>)
    ensures |TokensOf(argv)| == (if argv == [] then 0 else |argv| - 1) && IsLive(TokensOf(argv)[..0])
  {
  }

  lemma TokenAt(argv: seq<string>, i: nat)
    requires 1 <= i < |argv|
    ensures |TokensOf(argv)| == |argv| - 1
    ensures TokensOf(argv)[..i] == TokensOf(argv)[..i - 1] + [TrimWhitespace(argv[i])]
    ensures IsLive(TokensOf(argv)[..i]) <==> IsLive(TokensOf(argv)[..i - 1]) && TrimWhitespace(argv[i]) != SWITCH_TERMINATOR
  {
    hide TrimWhitespace;
  }

  /** The fields of a `CommandLine`. */
  datatype Line = Line(argv: seq<string>, beginArgs: nat, switches: map<string, string>)
  {
    predicate Valid() {
      1 <= beginArgs <= |argv|
    }

    function Front(): seq<string>
      requires Valid()
    {
      argv[..beginArgs]
    }

    function Back(): seq<string>
      requires Valid()
    {
      argv[beginArgs..]
    }
  }

  /** A line after tokens were appended: switches go behind the switches, arguments behind all. */
  function Appended(line: Line, tokens: seq<string>): (r: Line)
    requires line.Valid()
    ensures r.Valid()
  {
    Line(line.Front() + Normals(Switches(tokens)) + (line.Back() + Arguments(tokens)),
         line.beginArgs + |Switches(tokens)|, Valued(Switches(tokens), line.switches))
  }

  function WithSwitch(line: Line, s: string): (r: Line)
    requires line.Valid()
    ensures r.Valid()
  {
    Line(line.Front() + [Normal(s)] + line.Back(), line.beginArgs + 1, line.switches[SwitchKey(s) := SwitchValue(s)])
  }

  function WithArgument(line: Line, s: string): (r: Line)
    requires line.Valid()
    ensures r.Valid()
  {
    line.(argv := line.argv + [s])
  }

  function WithToken(line: Line, s: string, live: bool): (r: Line)
    requires line.Valid()
    ensures r.Valid()
  {
    if live && HasPrefix(s) then WithSwitch(line, s) else WithArgument(line, s)
  }

  lemma AppendedToken(line: Line, tokens: seq<string>, t: string)
    requires line.Valid()
    ensures Appended(line, tokens + [t]) == WithToken(Appended(line, tokens), t, IsLive(tokens + [t]))
  {
    hide HasPrefix, Appended, WithSwitch, WithArgument, IsLive;
    if IsLive(tokens + [t]) && HasPrefix(t) {
      AppendedSwitch(line, tokens, t);
    } else {
      AppendedArgument(line, tokens, t);
    }
  }

  lemma NormalsMore(tokens: seq<string>, t: string)
    ensures Normals(tokens + [t]) == Normals(tokens) + [Normal(t)]
  {
  }

  lemma AppendedNone(line: Line)
    requires line.Valid()
    ensures Appended(line, []) == line
  {
    assert line.Front() + [] + (line.Back() + []) == line.argv;
  }

  lemma AppendedSwitch(line: Line, tokens: seq<string>, t: string)
    requires line.Valid() && IsLive(tokens + [t]) && HasPrefix(t)
    ensures Appended(line, tokens + [t]) == WithSwitch(Appended(line, tokens), t)
  {
    hide Normal, SwitchKey, SwitchValue, HasPrefix;
    assert (tokens + [t])[..|tokens|] == tokens;
    assert Switches(tokens + [t]) == Switches(tokens) + [t] && Arguments(tokens + [t]) == Arguments(tokens);
    NormalsMore(Switches(tokens), t);
    var front := line.Front() + Normals(Switches(tokens));
    var back := line.Back() + Arguments(tokens);
    var now := Appended(line, tokens);
    assert now.argv == front + back && now.beginArgs == |front| && now.Front() == front && now.Back() == back;
    assert line.Front() + (Normals(Switches(tokens)) + [Normal(t)]) == front + [Normal(t)];
    assert (Switches(tokens) + [t])[..|Switches(tokens)|] == Switches(tokens);
  }

  lemma AppendedArgument(line: Line, tokens: seq<string>, t: string)
    requires line.Valid() && !(IsLive(tokens + [t]) && HasPrefix(t))
    ensures Appended(line, tokens + [t]) == WithArgument(Appended(line, tokens), t)
  {
    hide Normal, SwitchKey, SwitchValue, HasPrefix;
    assert (tokens + [t])[..|tokens|] == tokens;
    assert Switches(tokens + [t]) == Switches(tokens) + [] == Switches(tokens);
    assert Arguments(tokens + [t]) == Arguments(tokens) + [t];
    var front := line.Front() + Normals(Switches(tokens));
    assert front + (line.Back() + (Arguments(tokens) + [t])) == front + (line.Back() + Arguments(tokens)) + [t];
  }

  // ---------------------------------------------------------------------------------
  // Parsing by characters
  // ---------------------------------------------------------------------------------

  /** A blank, or one of the characters 9 to 13. */
  predicate AreBlank(s: string) {
    forall i :: 0 <= i < |s| ==> s[i] == ' ' || 9 <= s[i] as int <= 13
  }

  /** A text without the blanks at both ends. */
  ghost predicate IsTrimOf(t: string, s: string) {
    && (exists before, after :: s == before + (t + after) && AreBlank(before) && AreBlank(after))
    && (t != "" ==> !AreBlank(t[..1]) && !AreBlank(t[|t| - 1..]))
  }

  /** The tokens of a vector, trimmed; the first one is the program. */
  ghost predicate AreTokensOf(tokens: seq<string>, argv: seq<string>) {
    && |tokens| == (if argv == [] then 0 else |argv| - 1)
    && forall i :: 0 <= i < |tokens| ==> IsTrimOf(tokens[i], argv[i + 1])
  }

  predicate IsDashed(s: string) {
    s != "" && s[0] == '-'
  }

  /** A name without its two dashes, or else without its one dash. */
  predicate IsKeyOf(key: string, name: string) {
    if |name| > 1 && name[0] == '-' && name[1] == '-' then name == "--" + key
    else if IsDashed(name) then name == "-" + key
    else name == key
  }

  /** A text up to its first `=`, and what is behind that. */
  predicate IsNameAndValue(s: string, name: string, value: string) {
    '=' !in name && (s == name + ("=" + value) || (s == name && value == ""))
  }

  /** A line after one more token. */
  ghost predicate TakesToken(line: Line, s: string, live: bool, r: Line)
    requires line.Valid()
  {
    if live && IsDashed(s) then
      exists name, value, key :: IsNameAndValue(s, name, value) && IsKeyOf(key, name) && TakesSwitch(line, name, value, key, r)
    else r == Line(line.argv + [s], line.beginArgs, line.switches)
  }

  /** A line with one more switch, behind the others; an empty value has no `=`. */
  predicate TakesSwitch(line: Line, name: string, value: string, key: string, r: Line)
    requires line.Valid()
  {
    && r.argv == line.argv[..line.beginArgs] + [if value == "" then name else name + ("=" + value)] + line.argv[line.beginArgs..]
    && r.beginArgs == line.beginArgs + 1 && r.switches == line.switches[key := value]
  }

  predicate HasNoTerminator(tokens: seq<string>) {
    forall i :: 0 <= i < |tokens| ==> tokens[i] != "--"
  }

  /** A line after a list of tokens: from a token `--` on, none is a switch. */
  ghost predicate Takes(line: Line, tokens: seq<string>, r: Line)
    requires line.Valid()
    decreases |tokens|
  {
    if tokens == [] then r == line
    else
      var front, last := tokens[..|tokens| - 1], tokens[|tokens| - 1];
      exists m: Line :: m.Valid() && Takes(line, front, m) && TakesToken(m, last, HasNoTerminator(tokens), r)
  }

  lemma TrimIsTrimOf(s: string)
    ensures IsTrimOf(TrimWhitespace(s), s)
  {
    hide TrimLeft, TrimRight, AreBlank;
    var u := TrimLeft(s);
    var t := TrimRight(u);
    LeftIsBlank(s);
    RightIsBlank(u);
    assert s == s[..|s| - |u|] + u && u == t + u[|t|..];
    if t != "" {
      assert t[0] == u[0];
      NotBlank(t[..1], t[0]);
      NotBlank(t[|t| - 1..], t[|t| - 1]);
    }
  }

  lemma NotBlank(s: string, c: char)
    requires s == [c] && !IsWhitespace(c)
    ensures !AreBlank(s)
  {
    assert s[0] == c;
  }

  lemma {:induction false} LeftIsBlank(s: string)
    ensures AreBlank(s[..|s| - |TrimLeft(s)|])
  {
    if s != "" && IsWhitespace(s[0]) {
      LeftIsBlank(s[1..]);
      var n := |s| - |TrimLeft(s)|;
      assert s[..n] == [s[0]] + s[1..][..n - 1];
    }
  }

  lemma {:induction false} RightIsBlank(s: string)
    ensures AreBlank(s[|TrimRight(s)|..])
  {
    if s != "" && IsWhitespace(s[|s| - 1]) {
      var front := s[..|s| - 1];
      RightIsBlank(front);
      assert s[|TrimRight(front)|..] == front[|TrimRight(front)|..] + [s[|s| - 1]];
    }
  }

  lemma TokensAreTokensOf(argv: seq<string>)
    ensures AreTokensOf(TokensOf(argv), argv)
  {
    forall i | 0 <= i < |TokensOf(argv)| ensures IsTrimOf(TokensOf(argv)[i], argv[i + 1]) {
      TrimIsTrimOf(argv[i + 1]);
    }
  }

  lemma SwitchParts(s: string)
    ensures IsNameAndValue(s, SwitchString(s), SwitchValue(s)) && IsKeyOf(SwitchKey(s), SwitchString(s))
    ensures HasPrefix(s) <==> IsDashed(s)
  {
    var i := FirstEquals(s);
    if i < |s| {
      assert s == s[..i] + ([s[i]] + s[i + 1..]);
    } else {
      assert s[..i] == s;
    }
    KeyWithoutDashes(s[..i]);
    KeyWithoutDashes(s);
  }

  lemma KeyWithoutDashes(name: string)
    ensures IsKeyOf(name[PrefixLength(name)..], name)
    ensures HasPrefix(name) <==> IsDashed(name)
  {
    if "--" <= name {
      assert name == "--" + name[2..];
    } else if "-" <= name {
      assert name == "-" + name[1..];
    }
  }

  lemma TokenIsTaken(line: Line, s: string, live: bool)
    requires line.Valid()
    ensures TakesToken(line, s, live, WithToken(line, s, live))
  {
    SwitchParts(s);
    hide IsNameAndValue, IsKeyOf, SwitchString, SwitchKey, SwitchValue, HasPrefix, IsDashed;
    if live && IsDashed(s) {
      assert TakesSwitch(line, SwitchString(s), SwitchValue(s), SwitchKey(s), WithToken(line, s, live));
    }
  }

  /** What the tokens give is what they give by their characters. */
  lemma {:induction false} AppendedIsTaken(line: Line, tokens: seq<string>)
    requires line.Valid()
    ensures Takes(line, tokens, Appended(line, tokens))
    decreases |tokens|
  {
    hide Appended, WithToken, TakesToken, Line.Valid;
    if tokens == [] {
      AppendedNone(line);
    } else {
      var front, last := tokens[..|tokens| - 1], tokens[|tokens| - 1];
      assert tokens == front + [last];
      AppendedIsTaken(line, front);
      AppendedToken(line, front, last);
      TokenIsTaken(Appended(line, front), last, IsLive(tokens));
    }
  }

  // ---------------------------------------------------------------------------------
  // The class
  // ---------------------------------------------------------------------------------

  class CommandLine {
    var argv: seq<string>
    var beginArgs: nat
    var switches: map<string, string>

    ghost predicate Valid()
      reads this
    {
      Value().Valid()
    }

    function Value(): Line
      reads this
    {
      Line(argv, beginArgs, switches)
    }

    constructor ()
      ensures Valid() && Value() == Line([""], 1, map[])
    {
      argv, beginArgs, switches := [""], 1, map[];
    }

    method AppendSwitchNative(switchString: string, value: string)
      requires Valid()
      modifies this
      ensures Valid() && beginArgs == old(beginArgs) + 1
      ensures switches == old(switches)[switchString[PrefixLength(switchString)..] := value]
      ensures argv == old(argv)[..old(beginArgs)]
        + [(if HasPrefix(switchString) then switchString else "--" + switchString) + (if value != "" then "=" + value else "")]
        + old(argv)[old(beginArgs)..]
      ensures exists key :: (
        && IsKeyOf(key, switchString)
        && TakesSwitch(old(Value()), if IsDashed(switchString) then switchString else "--" + switchString, value, key, Value()))
    {
      KeyWithoutDashes(switchString);
      var combined := switchString;
      var prefixLength := PrefixLength(combined);
      switches := switches[switchString[prefixLength..] := value];
      if prefixLength == 0 {
        combined := "--" + combined;
      }
      if value != "" {
        combined := combined + ("=" + value);
      } else {
        assert combined + "" == combined;
      }
      argv := argv[..beginArgs] + [combined] + argv[beginArgs..];
      beginArgs := beginArgs + 1;
    }

    method AppendArgNative(value: string)
      requires Valid()
      modifies this`argv
      ensures Valid() && argv == old(argv) + [value]
    {
      argv := argv + [value];
    }

    /** One token of `AppendSwitchesAndArguments`. */
    method AppendToken(arg: string, parseSwitches: bool)
      requires Valid()
      modifies this
      ensures Valid()
      ensures Value() == WithToken(old(Value()), arg, parseSwitches)
    {
      if parseSwitches && HasPrefix(arg) {
        KeepsPrefix(arg);
        assert SwitchString(arg) + "" == SwitchString(arg);
        AppendSwitchNative(SwitchString(arg), SwitchValue(arg));
      } else {
        AppendArgNative(arg);
      }
    }

    /** Appends the tokens of another command line, keeping switches before arguments. */
    method AppendSwitchesAndArguments(other: seq<string>)
      requires Valid()
      modifies this
      ensures Valid() && Value() == Appended(old(Value()), TokensOf(other))
      ensures exists tokens :: AreTokensOf(tokens, other) && Takes(old(Value()), tokens, Value())
    {
      hide Appended, WithToken, TrimWhitespace, TokensOf, Trimmed, IsLive, Line.Valid;
      ghost var line, tokens := Value(), TokensOf(other);
      AppendedNone(line);
      TokensCount(other);
      var parseSwitches := true;
      var i := 1;
      while i < |other|
        invariant 1 <= i <= |tokens| + 1
        invariant Valid() && Value() == Appended(line, tokens[..i - 1])
        invariant parseSwitches == IsLive(tokens[..i - 1])
      {
        var arg := TrimWhitespace(other[i]);
        TokenAt(other, i);
        AppendedToken(line, tokens[..i - 1], arg);
        parseSwitches := parseSwitches && arg != SWITCH_TERMINATOR;
        AppendToken(arg, parseSwitches);
        i := i + 1;
      }
      assert tokens[..i - 1] == tokens;
      AppendedIsTaken(line, tokens);
      TokensAreTokensOf(other);
    }

    /** Parses an argument vector. The program name is dropped. The switch map is not cleared: the
        result is that of a new object exactly if every old key is given again. */
    method InitFromArgv(newArgv: seq<string>)
      modifies this
      ensures Valid() && Value() == Appended(Line([""], 1, old(switches)), TokensOf(newArgv))
      ensures exists tokens :: AreTokensOf(tokens, newArgv) && Takes(Line([""], 1, old(switches)), tokens, Value())
      ensures Value() == Parse(newArgv) <==> forall key :: key in old(switches) ==> HasKey(Switches(TokensOf(newArgv)), key)
    {
      ReuseIff(newArgv, switches);
      argv := [""];
      beginArgs := 1;
      AppendSwitchesAndArguments(newArgv);
    }

    method HasSwitch(key: string) returns (has: bool)
      ensures has == (key in switches)
    {
      return key in switches;
    }

    method GetSwitchValueNative(key: string) returns (value: string)
      ensures value == if key in switches then switches[key] else ""
    {
      return if key in switches then switches[key] else "";
    }

    /** All arguments; of terminators only the first is erased. */
    method GetArgs() returns (args: seq<string>)
      requires Valid()
      ensures args == WithoutTerminator(Value().Back())
      ensures if "--" in argv[beginArgs..] then
                exists i :: beginArgs <= i < |argv| && argv[i] == "--" && "--" !in argv[beginArgs..i] && args == argv[beginArgs..i] + argv[i + 1..]
              else args == argv[beginArgs..]
    {
      args := argv[beginArgs..];
      for i := 0 to |args|
        invariant args == argv[beginArgs..] && SWITCH_TERMINATOR !in args[..i]
      {
        if args[i] == SWITCH_TERMINATOR {
          WithoutTerminatorAt(args, i);
          assert argv[beginArgs..beginArgs + i] == args[..i] && argv[beginArgs + i] == "--" && argv[beginArgs + i + 1..] == args[i + 1..];
          args := args[..i] + args[i + 1..];
          return;
        }
      }
      assert args[..|args|] == args;
      NoTerminator(args);
    }
  }

  function WithoutTerminator(args: seq<string>): seq<string> {
    if args == [] then [] else if args[0] == SWITCH_TERMINATOR then args[1..] else [args[0]] + WithoutTerminator(args[1..])
  }

  lemma {:induction false} WithoutTerminatorAt(args: seq<string>, i: nat)
    requires i < |args| && args[i] == SWITCH_TERMINATOR && SWITCH_TERMINATOR !in args[..i]
    ensures WithoutTerminator(args) == args[..i] + args[i + 1..]
  {
    if i > 0 {
      assert args[..i][0] == args[0];
      assert args[1..][..i - 1] == args[..i][1..];
      WithoutTerminatorAt(args[1..], i - 1);
      assert args[..i] == [args[0]] + args[1..][..i - 1];
    }
  }

  lemma {:induction false} NoTerminator(args: seq<string>)
    requires SWITCH_TERMINATOR !in args
    ensures WithoutTerminator(args) == args
  {
    if args != [] {
      NoTerminator(args[1..]);
    }
  }

  /** Cutting the value off leaves the prefix. */
  lemma KeepsPrefix(s: string)
    requires HasPrefix(s)
    ensures HasPrefix(SwitchString(s))
  {
    var i := FirstEquals(s);
    assert i > 0;
    assert s[..i][0] == s[0] == '-';
  }

  // ---------------------------------------------------------------------------------
  // Order, count and values
  // ---------------------------------------------------------------------------------

  /** No token is lost or added. */
  lemma {:induction false} TokensConserved(tokens: seq<string>)
    ensures |Switches(tokens)| + |Arguments(tokens)| == |tokens|
  {
    if tokens != [] { TokensConserved(tokens[..|tokens| - 1]); }
  }

  predicate IsSwitchAt(tokens: seq<string>, i: nat)
    requires i < |tokens|
  {
    IsLive(tokens[..i + 1]) && HasPrefix(tokens[i])
  }

  /** The positions of the switches, or of the arguments, in order. */
  function Positions(tokens: seq<string>, switches: bool): seq<nat> {
    if tokens == [] then []
    else
      var last := |tokens| - 1;
      Positions(tokens[..last], switches) + if (IsLive(tokens) && HasPrefix(tokens[last])) == switches then [last] else []
  }

  predicate Ascending(s: seq<nat>) {
    forall i, j :: 0 <= i < j < |s| ==> s[i] < s[j]
  }

  /** Switches and arguments keep the order they were given in. */
  lemma {:induction false} OrderKept(tokens: seq<string>, switches: bool)
    ensures var picked := if switches then Switches(tokens) else Arguments(tokens);
            var at := Positions(tokens, switches);
            && |picked| == |at| && Ascending(at)
            && (forall i :: 0 <= i < |at| ==>
                  at[i] < |tokens| && picked[i] == tokens[at[i]] && IsSwitchAt(tokens, at[i]) == switches)
            && (forall k :: 0 <= k < |tokens| && IsSwitchAt(tokens, k) == switches ==> k in at)
  {
    hide HasPrefix, IsLive, IsSwitchAt;
    if tokens != [] {
      var last := |tokens| - 1;
      var front := tokens[..last];
      OrderKept(front, switches);
      assert tokens == front + [tokens[last]];
      SwitchAtFront(front, tokens[last]);
    }
  }

  /** A key that no switch has keeps what it had. */
  lemma {:induction false} OtherKeysKept(switches: seq<string>, before: map<string, string>, key: string)
    requires forall i :: 0 <= i < |switches| ==> SwitchKey(switches[i]) != key
    ensures key in Valued(switches, before) <==> key in before
    ensures key in before ==> Valued(switches, before)[key] == before[key]
  {
    hide SwitchKey, SwitchValue;
    if switches != [] {
      OtherKeysKept(switches[..|switches| - 1], before, key);
    }
  }

  /** A key has the value of the last switch with it. */
  lemma {:induction false} LastValueWins(switches: seq<string>, before: map<string, string>, i: nat)
    requires i < |switches|
    requires forall j :: i < j < |switches| ==> SwitchKey(switches[j]) != SwitchKey(switches[i])
    ensures SwitchKey(switches[i]) in Valued(switches, before)
    ensures Valued(switches, before)[SwitchKey(switches[i])] == SwitchValue(switches[i])
  {
    hide SwitchKey, SwitchValue;
    var last := |switches| - 1;
    if i < last {
      LastValueWins(switches[..last], before, i);
    }
  }

  predicate HasKey(switches: seq<string>, key: string) {
    exists i :: 0 <= i < |switches| && SwitchKey(switches[i]) == key
  }

  /** The keys of a parsed map are those of its switches, and they override what was there. */
  lemma {:induction false} ValuedOverrides(switches: seq<string>, before: map<string, string>)
    ensures Valued(switches, before) == before + Valued(switches, map[])
    ensures forall key :: key in Valued(switches, map[]) <==> HasKey(switches, key)
  {
    hide SwitchKey, SwitchValue, HasKey;
    if switches == [] {
      assert forall key :: !HasKey([], key) by { HasNoKey(); }
    } else {
      var front, last := switches[..|switches| - 1], switches[|switches| - 1];
      assert switches == front + [last];
      ValuedOverrides(front, before);
      forall key ensures HasKey(switches, key) <==> HasKey(front, key) || key == SwitchKey(last) {
        HasKeyMore(front, last, key);
      }
    }
  }

  lemma HasNoKey()
    ensures forall key :: !HasKey([], key)
  {
  }

  lemma HasKeyMore(switches: seq<string>, last: string, key: string)
    ensures HasKey(switches + [last], key) <==> HasKey(switches, key) || key == SwitchKey(last)
  {
    hide SwitchKey;
    var all := switches + [last];
    assert all[|switches|] == last;
    if HasKey(switches, key) {
      var i :| 0 <= i < |switches| && SwitchKey(switches[i]) == key;
      assert all[i] == switches[i];
    }
  }

  /** Old switches are without effect exactly if each of their keys is given again. */
  lemma ValuedIff(switches: seq<string>, before: map<string, string>)
    ensures Valued(switches, before) == Valued(switches, map[]) <==> forall key :: key in before ==> HasKey(switches, key)
  {
    ValuedOverrides(switches, before);
    hide Valued, HasKey;
    var added := Valued(switches, map[]);
    if forall key :: key in before ==> HasKey(switches, key) {
      assert before + added == added;
    } else {
      var key :| key in before && !HasKey(switches, key);
      assert key in before + added;
    }
  }

  // ---------------------------------------------------------------------------------
  // What parsing gives back
  // ---------------------------------------------------------------------------------

  function Parse(argv: seq<string>): Line {
    Appended(Line([""], 1, map[]), TokensOf(argv))
  }

  /** Parsing into a used object is parsing into a new one exactly if every old key is given again. */
  lemma ReuseIff(argv: seq<string>, before: map<string, string>)
    ensures Appended(Line([""], 1, before), TokensOf(argv)) == Parse(argv) <==>
      forall key :: key in before ==> HasKey(Switches(TokensOf(argv)), key)
  {
    ValuedIff(Switches(TokensOf(argv)), before);
  }

  /** A command line of one switch. */
  lemma OneSwitch(program: string, s: string)
    requires IsTrimmed(s) && HasPrefix(s) && s != SWITCH_TERMINATOR
    ensures TokensOf([program, s]) == [s] && Switches([s]) == [s] && Arguments([s]) == []
    ensures Valued([s], map[]) == map[SwitchKey(s) := SwitchValue(s)]
  {
    hide TrimWhitespace, IsTrimmed, HasPrefix, SwitchKey, SwitchValue;
    TrimIsTrimmed(s);
    assert [program, s][1..] == [s] && Trimmed([s]) == [s];
    assert [s][..0] == [] && Switches([]) == [] && Arguments([]) == [];
  }

  /** After `--a`, parsing an empty command line leaves the switch. */
  lemma ReuseKeepsSwitch()
    ensures var used := Parse(["", "--a"]).switches;
            && used == map["a" := ""]
            && Appended(Line([""], 1, used), TokensOf([""])).switches == used != Parse([""]).switches
  {
    OneSwitch("", "--a");
    KeyOfA();
    hide SwitchKey, SwitchValue, Switches, Arguments, HasPrefix, TrimWhitespace;
    NoTokens();
    assert TokensOf([""]) == [];
    assert "a" in map["a" := ""];
  }

  lemma KeyOfA()
    ensures SwitchKey("--a") == "a" && SwitchValue("--a") == ""
  {
    FirstEqualsOfNone("--a");
  }

  /** No switch stands behind an argument. */
  predicate SwitchesFirst(tokens: seq<string>) {
    forall i, j :: 0 <= i < j < |tokens| && IsSwitchAt(tokens, j) ==> IsSwitchAt(tokens, i)
  }

  /** The argument vectors that parsing gives back as they are: no program name, no token with
      white space around it, no switch whose first `=` is its last character, switches first. */
  predicate IsOriginal(argv: seq<string>) {
    && argv != [] && argv[0] == ""
    && (forall i :: 0 < i < |argv| ==> IsTrimmed(argv[i]))
    && (forall s :: s in Switches(argv[1..]) ==> FirstEquals(s) != |s| - 1)
    && SwitchesFirst(argv[1..])
  }

  function TotalLength(tokens: seq<string>): nat {
    if tokens == [] then 0 else TotalLength(tokens[..|tokens| - 1]) + |tokens[|tokens| - 1]|
  }

  lemma {:induction false} TotalOfBoth(tokens: seq<string>, more: seq<string>)
    ensures TotalLength(tokens + more) == TotalLength(tokens) + TotalLength(more)
  {
    if more == [] {
      assert tokens + more == tokens;
    } else {
      TotalOfBoth(tokens, more[..|more| - 1]);
      assert (tokens + more)[..|tokens + more| - 1] == tokens + more[..|more| - 1];
    }
  }

  /** Tokens that are no longer than others one by one are not longer together, and as long only
      if each is. */
  lemma {:induction false} TotalShrinks(tokens: seq<string>, shorter: seq<string>)
    requires |tokens| == |shorter|
    requires forall i :: 0 <= i < |tokens| ==> shorter[i] == tokens[i] || |shorter[i]| < |tokens[i]|
    ensures TotalLength(shorter) <= TotalLength(tokens)
    ensures TotalLength(shorter) == TotalLength(tokens) ==> shorter == tokens
  {
    if tokens != [] {
      var front, last := tokens[..|tokens| - 1], tokens[|tokens| - 1];
      TotalShrinks(front, shorter[..|tokens| - 1]);
      assert tokens == front + [last] && shorter == shorter[..|tokens| - 1] + [shorter[|tokens| - 1]];
    }
  }

  lemma {:induction false} TotalOfParts(tokens: seq<string>)
    ensures TotalLength(Switches(tokens)) + TotalLength(Arguments(tokens)) == TotalLength(tokens)
  {
    hide HasPrefix, IsLive, Switches, Arguments;
    if tokens == [] {
      NoTokens();
    } else {
      var front, last := tokens[..|tokens| - 1], tokens[|tokens| - 1];
      assert tokens == front + [last];
      TotalOfParts(front);
      LastToken(front, last);
      TotalOfBoth(Switches(front), [last]);
      TotalOfBoth(Arguments(front), [last]);
      assert TotalLength([last]) == TotalLength([last][..0]) + |last| == |last|;
    }
  }

  /** Before a terminator, what has the form of a switch is one. */
  lemma {:induction false} LiveArguments(tokens: seq<string>)
    requires IsLive(tokens)
    ensures forall i :: 0 <= i < |Arguments(tokens)| ==> !HasPrefix(Arguments(tokens)[i])
  {
    hide HasPrefix;
    if tokens != [] { LiveArguments(tokens[..|tokens| - 1]); }
  }

  lemma SwitchAtFront(tokens: seq<string>, last: string)
    ensures forall i :: 0 <= i < |tokens| ==> IsSwitchAt(tokens + [last], i) == IsSwitchAt(tokens, i)
    ensures IsSwitchAt(tokens + [last], |tokens|) <==> IsLive(tokens + [last]) && HasPrefix(last)
  {
    hide HasPrefix, IsLive;
    forall i | 0 <= i < |tokens| ensures IsSwitchAt(tokens + [last], i) == IsSwitchAt(tokens, i) {
      assert (tokens + [last])[..i + 1] == tokens[..i + 1];
    }
    assert (tokens + [last])[..|tokens| + 1] == tokens + [last];
  }

  lemma {:induction false} OnlySwitches(tokens: seq<string>)
    ensures Arguments(tokens) == [] <==> forall i :: 0 <= i < |tokens| ==> IsSwitchAt(tokens, i)
  {
    hide HasPrefix, IsLive, Switches, Arguments, IsSwitchAt;
    if tokens == [] {
      NoTokens();
    } else {
      var front, last := tokens[..|tokens| - 1], tokens[|tokens| - 1];
      assert tokens == front + [last];
      OnlySwitches(front);
      LastToken(front, last);
      SwitchAtFront(front, last);
    }
  }

  /** The tokens are their switches followed by their arguments exactly if no switch stands behind
      an argument. */
  lemma {:induction false} ArrangedIff(tokens: seq<string>)
    ensures tokens == Switches(tokens) + Arguments(tokens) <==> SwitchesFirst(tokens)
  {
    hide HasPrefix, IsLive, Switches, Arguments, IsSwitchAt;
    if tokens == [] {
      NoTokens();
    } else {
      var front, last := tokens[..|tokens| - 1], tokens[|tokens| - 1];
      assert tokens == front + [last];
      ArrangedIff(front);
      LastToken(front, last);
      LiveMore(front, last);
      SwitchAtFront(front, last);
      var switches, arguments := Switches(front), Arguments(front);
      if IsLive(tokens) && HasPrefix(last) {
        OnlySwitches(front);
        LiveArguments(front);
        if arguments == [] {
          TokensConserved(front);
          AllAreSwitches(front);
          assert front == switches && switches + [last] + [] == front + [last];
        } else {
          LastOfBoth(switches + [last], arguments);
          var i :| 0 <= i < |front| && !IsSwitchAt(front, i);
          assert !IsSwitchAt(tokens, i) && IsSwitchAt(tokens, |front|);
        }
      } else {
        assert switches + (arguments + [last]) == switches + arguments + [last];
        CutLast(front, switches + arguments, last);
        FirstMore(front, last);
      }
    }
  }

  lemma LastOfBoth(a: seq<string>, b: seq<string>)
    requires b != []
    ensures a + b != [] && (a + b)[|a + b| - 1] == b[|b| - 1]
  {
  }

  lemma CutLast(a: seq<string>, b: seq<string>, last: string)
    ensures a + [last] == b + [last] <==> a == b
  {
    assert a == (a + [last])[..|a + [last]| - 1] && b == (b + [last])[..|b + [last]| - 1];
  }

  /** An argument at the end does not matter. */
  lemma FirstMore(tokens: seq<string>, last: string)
    requires !IsSwitchAt(tokens + [last], |tokens|)
    ensures SwitchesFirst(tokens + [last]) <==> SwitchesFirst(tokens)
  {
    SwitchAtFront(tokens, last);
    hide IsSwitchAt;
    var all := tokens + [last];
    if SwitchesFirst(all) {
      forall i, j | 0 <= i < j < |tokens| && IsSwitchAt(tokens, j) ensures IsSwitchAt(tokens, i) {
        assert IsSwitchAt(all, j) && IsSwitchAt(all, i);
      }
    }
  }

  lemma TrimIsShorter(s: string)
    ensures TrimWhitespace(s) == s || |TrimWhitespace(s)| < |s|
    ensures TrimWhitespace(s) == s ==> IsTrimmed(s)
  {
    TrimIsTrimmed(s);
  }

  /** What tokens become: the switches as they are stored, then the arguments. */
  function Parts(given: seq<string>): seq<string> {
    Normals(Switches(Trimmed(given))) + Arguments(Trimmed(given))
  }

  /** If the tokens come back as they were, neither trimming nor storing changed one. */
  lemma NothingWasShortened(given: seq<string>)
    requires given == Parts(given)
    ensures Trimmed(given) == given && Normals(Switches(given)) == Switches(given)
  {
    hide Switches, Arguments, Normal, TrimWhitespace;
    var tokens := Trimmed(given);
    var switches := Switches(tokens);
    forall i | 0 <= i < |given| ensures tokens[i] == given[i] || |tokens[i]| < |given[i]| {
      TrimIsShorter(given[i]);
    }
    forall i | 0 <= i < |switches| ensures Normals(switches)[i] == switches[i] || |Normals(switches)[i]| < |switches[i]| {
      NormalIs(switches[i]);
    }
    TotalShrinks(given, tokens);
    TotalShrinks(switches, Normals(switches));
    TotalOfBoth(Normals(switches), Arguments(tokens));
    TotalOfParts(tokens);
  }

  /** Which switches are all stored as they are. */
  lemma NormalsIff(switches: seq<string>)
    ensures Normals(switches) == switches <==> forall s :: s in switches ==> FirstEquals(s) != |s| - 1
  {
    hide FirstEquals, Normal;
    var n := Normals(switches);
    if n == switches {
      forall s | s in switches ensures FirstEquals(s) != |s| - 1 {
        var i :| 0 <= i < |switches| && switches[i] == s;
        NormalIs(s);
        assert n[i] == Normal(s);
      }
    }
    if forall s :: s in switches ==> FirstEquals(s) != |s| - 1 {
      forall i | 0 <= i < |switches| ensures n[i] == switches[i] {
        NormalIs(switches[i]);
      }
    }
  }

  lemma TrimmedIff(tokens: seq<string>)
    ensures Trimmed(tokens) == tokens <==> forall i :: 0 <= i < |tokens| ==> IsTrimmed(tokens[i])
  {
    hide TrimWhitespace, IsTrimmed;
    var t := Trimmed(tokens);
    if t == tokens {
      forall i | 0 <= i < |tokens| ensures IsTrimmed(tokens[i]) {
        TrimIsTrimmed(tokens[i]);
        assert t[i] == tokens[i];
      }
    }
    if forall i :: 0 <= i < |tokens| ==> IsTrimmed(tokens[i]) {
      TrimmedTokens(tokens);
    }
  }

  lemma UnchangedIff(given: seq<string>)
    ensures given == Parts(given) <==>
      Trimmed(given) == given && Normals(Switches(given)) == Switches(given) && SwitchesFirst(given)
  {
    hide Switches, Arguments, Normals, Trimmed, SwitchesFirst;
    ArrangedIff(given);
    if given == Parts(given) {
      NothingWasShortened(given);
    }
  }

  /** Parsing gives an argument vector back exactly if it has no program name, its tokens are
      trimmed, no switch has its first `=` at its end, and no switch stands behind an argument. */
  lemma OriginalIff(argv: seq<string>)
    ensures Parse(argv).argv == argv <==> IsOriginal(argv)
  {
    hide Switches, Arguments, Normals, Trimmed, IsTrimmed, SwitchesFirst, FirstEquals, Parse, Parts;
    ParsedTokens(argv);
    if argv != [] && argv[0] == "" {
      var given := argv[1..];
      ParsedParts(argv);
      CutFirst(given, Parts(given));
      UnchangedIff(given);
      TrimmedIff(given);
      NormalsIff(Switches(given));
      TrimmedTail(argv);
    }
  }

  lemma ParsedParts(argv: seq<string>)
    requires argv != [] && argv[0] == ""
    ensures argv == [""] + argv[1..] && Parse(argv).argv == [""] + Parts(argv[1..])
  {
    hide Switches, Arguments, Normals, Trimmed, Parse;
    ParsedTokens(argv);
  }

  lemma TrimmedTail(argv: seq<string>)
    requires argv != []
    ensures (forall i :: 0 <= i < |argv[1..]| ==> IsTrimmed(argv[1..][i])) <==> (forall i :: 0 < i < |argv| ==> IsTrimmed(argv[i]))
  {
    hide IsTrimmed;
    if forall i :: 0 <= i < |argv[1..]| ==> IsTrimmed(argv[1..][i]) {
      forall i | 0 < i < |argv| ensures IsTrimmed(argv[i]) {
        assert argv[1..][i - 1] == argv[i];
      }
    }
  }

  lemma CutFirst(a: seq<string>, b: seq<string>)
    ensures [""] + a == [""] + b <==> a == b
  {
    assert a == ([""] + a)[1..] && b == ([""] + b)[1..];
  }

  /** The name of the program is not given back. */
  lemma ProgramNameIsLost()
    ensures Parse(["p"]).argv == [""] != ["p"]
  {
    ParsedTokens(["p"]);
    assert TokensOf(["p"]) == [];
  }

  // ---------------------------------------------------------------------------------
  // Parsing the parsed command line again
  // ---------------------------------------------------------------------------------

  /** A switch whose only `=` is its last character, and that without it is the terminator or
      ends in white space: its stored form is read differently. */
  predicate IsBad(s: string) {
    FirstEquals(s) == |s| - 1 &&
    (SwitchString(s) == SWITCH_TERMINATOR || (SwitchString(s) != "" && IsWhitespace(SwitchString(s)[|SwitchString(s)| - 1])))
  }

  predicate HasBadSwitch(argv: seq<string>) {
    exists i :: 0 <= i < |Switches(TokensOf(argv))| && IsBad(Switches(TokensOf(argv))[i])
  }

  lemma FirstEqualsOfNone(s: string)
    requires '=' !in s
    ensures FirstEquals(s) == |s| && SwitchString(s) == s && SwitchValue(s) == "" && Normal(s) == s
  {
    assert FirstEquals(s) == |s|;
    hide FirstEquals;
  }

  /** A switch that is not stored as it is loses its last character. */
  lemma NormalIs(s: string)
    ensures FirstEquals(s) != |s| - 1 ==> Normal(s) == s
    ensures FirstEquals(s) == |s| - 1 ==> Normal(s) == SwitchString(s) == s[..|s| - 1] && SwitchValue(s) == ""
  {
    var i := FirstEquals(s);
    hide FirstEquals;
    if i < |s| {
      CutAt(s, i);
    }
  }

  lemma CutAt(s: string, i: nat)
    requires i < |s|
    ensures s == s[..i] + ([s[i]] + s[i + 1..])
  {
  }

  /** The stored form of a switch that is not bad is a switch with the same key and value, and
      is stored as it is. */
  lemma GoodNormal(s: string)
    requires IsTrimmed(s) && HasPrefix(s) && s != SWITCH_TERMINATOR && !IsBad(s)
    ensures var n := Normal(s);
            && IsTrimmed(n) && HasPrefix(n) && n != SWITCH_TERMINATOR && Normal(n) == n
            && SwitchKey(n) == SwitchKey(s) && SwitchValue(n) == SwitchValue(s)
  {
    NormalIs(s);
    if FirstEquals(s) == |s| - 1 {
      hide Normal, SwitchKey, IsWhitespace;
      var n := SwitchString(s);
      KeepsPrefix(s);
      FirstEqualsOfNone(n);
      assert n[0] == s[0];
      assert SwitchKey(n) == n[PrefixLength(n)..] == SwitchKey(s) by { KeyOfNone(n); KeyIs(s); }
    }
  }

  lemma KeyIs(s: string)
    ensures SwitchKey(s) == SwitchString(s)[PrefixLength(SwitchString(s))..]
  {
  }

  lemma KeyOfNone(s: string)
    requires SwitchString(s) == s
    ensures SwitchKey(s) == s[PrefixLength(s)..]
  {
  }

  /** The stored form of a bad switch is read as the terminator, or as something shorter. */
  lemma BadNormal(s: string)
    requires IsTrimmed(s) && HasPrefix(s) && IsBad(s)
    ensures TrimWhitespace(Normal(s)) == SWITCH_TERMINATOR || Normal(TrimWhitespace(Normal(s))) != Normal(s)
  {
    var n := Normal(s);
    assert n == SwitchString(s);
    var t := TrimWhitespace(n);
    if n != SWITCH_TERMINATOR {
      TrimIsTrimmed(n);
      TrimIsInside(n, '=');
      FirstEqualsOfNone(t);
    } else {
      TrimIsTrimmed(n);
    }
  }

  lemma TrimIsInside(s: string, c: char)
    requires c !in s
    ensures c !in TrimWhitespace(s)
  {
  }

  lemma {:induction false} TrimmedTokens(tokens: seq<string>)
    requires forall i :: 0 <= i < |tokens| ==> IsTrimmed(tokens[i])
    ensures Trimmed(tokens) == tokens
  {
    forall i | 0 <= i < |tokens| ensures TrimWhitespace(tokens[i]) == tokens[i] {
      TrimIsTrimmed(tokens[i]);
    }
  }

  /** What holds of all tokens holds of switches and arguments. */
  lemma {:induction false} TokensAreTrimmed(tokens: seq<string>)
    requires forall i :: 0 <= i < |tokens| ==> IsTrimmed(tokens[i])
    ensures forall i :: 0 <= i < |Switches(tokens)| ==>
      IsTrimmed(Switches(tokens)[i]) && HasPrefix(Switches(tokens)[i]) && Switches(tokens)[i] != SWITCH_TERMINATOR
    ensures forall i :: 0 <= i < |Arguments(tokens)| ==> IsTrimmed(Arguments(tokens)[i])
  {
    hide IsTrimmed, HasPrefix;
    if tokens != [] { TokensAreTrimmed(tokens[..|tokens| - 1]); }
  }

  /** Arguments are not taken for switches when they are read again. */
  lemma {:induction false} ArgumentsStay(tokens: seq<string>)
    ensures Switches(Arguments(tokens)) == [] && Arguments(Arguments(tokens)) == Arguments(tokens)
    ensures IsLive(Arguments(tokens)) <==> IsLive(tokens)
  {
    hide HasPrefix, IsLive, Switches, Arguments;
    if tokens == [] {
      NoTokens();
    } else {
      var front, last := tokens[..|tokens| - 1], tokens[|tokens| - 1];
      ArgumentsStay(front);
      assert tokens == front + [last];
      LastToken(front, last);
      LastToken(Arguments(front), last);
      LiveMore(front, last);
      LiveMore(Arguments(front), last);
    }
  }

  lemma NoTokens()
    ensures Switches([]) == [] && Arguments([]) == [] && IsLive([])
  {
  }

  lemma LastToken(tokens: seq<string>, last: string)
    ensures IsLive(tokens + [last]) && HasPrefix(last) ==>
      Switches(tokens + [last]) == Switches(tokens) + [last] && Arguments(tokens + [last]) == Arguments(tokens)
    ensures !(IsLive(tokens + [last]) && HasPrefix(last)) ==>
      Switches(tokens + [last]) == Switches(tokens) && Arguments(tokens + [last]) == Arguments(tokens) + [last]
  {
    hide HasPrefix;
    assert (tokens + [last])[..|tokens|] == tokens;
    assert Arguments(tokens) + [] == Arguments(tokens) && Switches(tokens) + [] == Switches(tokens);
  }

  lemma LiveMore(tokens: seq<string>, last: string)
    ensures IsLive(tokens + [last]) <==> IsLive(tokens) && last != SWITCH_TERMINATOR
    ensures HasPrefix(SWITCH_TERMINATOR)
  {
  }

  /** Switches are switches when they are read again. */
  lemma {:induction false} SwitchesStay(tokens: seq<string>)
    requires forall i :: 0 <= i < |tokens| ==> HasPrefix(tokens[i]) && tokens[i] != SWITCH_TERMINATOR
    ensures Switches(tokens) == tokens && Arguments(tokens) == [] && IsLive(tokens)
  {
    if tokens == [] {
      NoTokens();
    } else {
      hide HasPrefix, Switches, Arguments, IsLive;
      var front, last := tokens[..|tokens| - 1], tokens[|tokens| - 1];
      assert tokens == front + [last];
      SwitchesStay(front);
      LastToken(front, last);
      LiveMore(front, last);
    }
  }

  /** Reading live tokens and then more. */
  lemma {:induction false} SplitTokens(tokens: seq<string>, more: seq<string>)
    requires IsLive(tokens)
    ensures Switches(tokens + more) == Switches(tokens) + Switches(more)
    ensures Arguments(tokens + more) == Arguments(tokens) + Arguments(more)
  {
    hide HasPrefix, IsLive, Switches, Arguments;
    if more == [] {
      NoTokens();
      assert tokens + more == tokens;
      assert Switches(tokens) + [] == Switches(tokens) && Arguments(tokens) + [] == Arguments(tokens);
    } else {
      var front, last := more[..|more| - 1], more[|more| - 1];
      SplitTokens(tokens, front);
      assert more == front + [last] && tokens + more == tokens + front + [last];
      LastToken(front, last);
      LastToken(tokens + front, last);
      LiveMore(front, last);
      LiveMore(tokens + front, last);
      LiveBoth(tokens, front);
      assert Switches(tokens) + (Switches(front) + [last]) == Switches(tokens) + Switches(front) + [last];
      assert Arguments(tokens) + (Arguments(front) + [last]) == Arguments(tokens) + Arguments(front) + [last];
    }
  }

  lemma LiveBoth(tokens: seq<string>, more: seq<string>)
    ensures IsLive(tokens + more) <==> IsLive(tokens) && IsLive(more)
  {
  }

  lemma ParsedTokens(argv: seq<string>)
    ensures var tokens := TokensOf(argv);
            && (forall i :: 0 <= i < |tokens| ==> IsTrimmed(tokens[i]))
            && Parse(argv).argv == [""] + (Normals(Switches(tokens)) + Arguments(tokens))
            && TokensOf(Parse(argv).argv) == Trimmed(Normals(Switches(tokens)) + Arguments(tokens))
  {
    hide TrimWhitespace, Normals, Switches, Arguments, IsTrimmed, Valued;
    var tokens := TokensOf(argv);
    forall i | 0 <= i < |tokens| ensures IsTrimmed(tokens[i]) {
      TrimIsTrimmed(argv[1..][i]);
    }
    var r := Normals(Switches(tokens)) + Arguments(tokens);
    assert [""] + Normals(Switches(tokens)) + ([] + Arguments(tokens)) == [""] + r;
    assert ([""] + r)[1..] == r;
  }

  lemma {:induction false} SameValues(switches: seq<string>, others: seq<string>, before: map<string, string>)
    requires |switches| == |others|
    requires forall i :: 0 <= i < |switches| ==>
      SwitchKey(switches[i]) == SwitchKey(others[i]) && SwitchValue(switches[i]) == SwitchValue(others[i])
    ensures Valued(switches, before) == Valued(others, before)
  {
    hide SwitchKey, SwitchValue;
    if switches != [] {
      SameValues(switches[..|switches| - 1], others[..|others| - 1], before);
    }
  }

  /** The result has as many tokens as there were; an empty vector gives the program name alone. */
  lemma ParseConserves(argv: seq<string>)
    ensures |Parse(argv).argv| == if argv == [] then 1 else |argv|
    ensures Parse(argv).beginArgs == 1 + |Switches(TokensOf(argv))|
  {
    ParsedTokens(argv);
    TokensConserved(TokensOf(argv));
  }

  /** Without bad switches, parsing the result again gives the same tokens, the same divider and
      the same switch map. */
  lemma GoodIsFixpoint(argv: seq<string>)
    requires !HasBadSwitch(argv)
    ensures Parse(Parse(argv).argv) == Parse(argv)
  {
    hide Switches, Arguments, TrimWhitespace, IsTrimmed, HasPrefix, Normal, SwitchKey, SwitchValue, IsBad, TokensOf, Valued, IsLive,
         Trimmed;
    var tokens := TokensOf(argv);
    ParsedTokens(argv);
    TokensAreTrimmed(tokens);
    var switches, arguments := Switches(tokens), Arguments(tokens);
    var n := Normals(switches);
    forall i | 0 <= i < |n|
      ensures IsTrimmed(n[i]) && HasPrefix(n[i]) && n[i] != SWITCH_TERMINATOR && Normal(n[i]) == n[i]
      ensures SwitchKey(n[i]) == SwitchKey(switches[i]) && SwitchValue(n[i]) == SwitchValue(switches[i])
    {
      GoodNormal(switches[i]);
    }
    TrimmedTokens(n + arguments);
    ReadAgain(n, tokens);
    assert Normals(n) == n;
    SameValues(n, switches, map[]);
  }

  /** Stored switches followed by old arguments are read as these switches and arguments. */
  lemma ReadAgain(switches: seq<string>, tokens: seq<string>)
    requires forall i :: 0 <= i < |switches| ==> HasPrefix(switches[i]) && switches[i] != SWITCH_TERMINATOR
    ensures Switches(switches + Arguments(tokens)) == switches
    ensures Arguments(switches + Arguments(tokens)) == Arguments(tokens)
  {
    hide Switches, Arguments, IsLive, HasPrefix;
    SwitchesStay(switches);
    ArgumentsStay(tokens);
    SplitTokens(switches, Arguments(tokens));
    assert switches + [] == switches && [] + Arguments(tokens) == Arguments(tokens);
  }

  /** With a bad switch, it does not. */
  lemma BadIsNoFixpoint(argv: seq<string>)
    requires HasBadSwitch(argv)
    ensures Parse(Parse(argv).argv) != Parse(argv)
  {
    var tokens := TokensOf(argv);
    var i :| 0 <= i < |Switches(tokens)| && IsBad(Switches(tokens)[i]);
    ParsedTokens(argv);
    hide Switches, Arguments, Trimmed, IsTrimmed, HasPrefix, Normals, IsBad, TokensOf, Valued, Parse;
    if Parse(Parse(argv).argv) == Parse(argv) {
      var n := Normals(Switches(tokens));
      ParsedTokens(Parse(argv).argv);
      ParseConserves(argv);
      ParseConserves(Parse(argv).argv);
      assert |Switches(Trimmed(n + Arguments(tokens)))| == |n|;
      StoredAgain(tokens);
      SameFront(Normals(Switches(Trimmed(n + Arguments(tokens)))), Arguments(Trimmed(n + Arguments(tokens))), n, Arguments(tokens));
      BadChanges(tokens, i);
      assert false;
    }
  }

  /** If the stored form has as many switches as there were, they are the stored forms, trimmed. */
  lemma StoredAgain(tokens: seq<string>)
    requires forall i :: 0 <= i < |tokens| ==> IsTrimmed(tokens[i])
    requires |Switches(Trimmed(Normals(Switches(tokens)) + Arguments(tokens)))| == |Switches(tokens)|
    ensures Switches(Trimmed(Normals(Switches(tokens)) + Arguments(tokens))) == Trimmed(Normals(Switches(tokens)))
    ensures SWITCH_TERMINATOR !in Trimmed(Normals(Switches(tokens)))
  {
    hide Switches, Arguments, TrimWhitespace, IsTrimmed, HasPrefix, Normal;
    var n := Normals(Switches(tokens));
    TokensAreTrimmed(tokens);
    TrimSplits(n, Arguments(tokens));
    TrimmedTokens(Arguments(tokens));
    SwitchesAmongFirst(Trimmed(n), tokens);
    var again := Trimmed(n + Arguments(tokens));
    forall i | 0 <= i < |again| ensures IsTrimmed(again[i]) {
      TrimIsTrimmed((n + Arguments(tokens))[i]);
    }
    TokensAreTrimmed(again);
  }

  lemma BadChanges(tokens: seq<string>, i: nat)
    requires forall i :: 0 <= i < |tokens| ==> IsTrimmed(tokens[i])
    requires i < |Switches(tokens)| && IsBad(Switches(tokens)[i])
    ensures Normals(Trimmed(Normals(Switches(tokens)))) != Normals(Switches(tokens)) || SWITCH_TERMINATOR in Trimmed(Normals(Switches(tokens)))
  {
    TokensAreTrimmed(tokens);
    BadNormal(Switches(tokens)[i]);
    hide Switches, TrimWhitespace, IsTrimmed, HasPrefix, Normal, IsBad;
    var n := Normals(Switches(tokens));
    var t := Trimmed(n);
    assert t[i] == TrimWhitespace(Normal(Switches(tokens)[i])) && Normals(t)[i] == Normal(t[i]);
    assert t[i] in t;
  }

  lemma SameFront(a: seq<string>, b: seq<string>, c: seq<string>, d: seq<string>)
    requires [""] + (a + b) == [""] + (c + d) && |a| == |c|
    ensures a == c && b == d
  {
    assert a + b == ([""] + (a + b))[1..] == c + d;
    assert a == (a + b)[..|a|] && c == (c + d)[..|c|] && b == (a + b)[|a|..] && d == (c + d)[|c|..];
  }

  lemma TrimSplits(a: seq<string>, b: seq<string>)
    ensures Trimmed(a + b) == Trimmed(a) + Trimmed(b)
  {
    hide TrimWhitespace;
  }

  /** If as many switches are found as tokens come before the old arguments, they are those
      tokens. */
  lemma SwitchesAmongFirst(front: seq<string>, tokens: seq<string>)
    requires |Switches(front + Arguments(tokens))| == |front|
    ensures Switches(front + Arguments(tokens)) == front
  {
    if IsLive(front) {
      SplitTokens(front, Arguments(tokens));
      ArgumentsStay(tokens);
      assert Switches(front) + [] == Switches(front);
      AllAreSwitches(front);
    } else {
      FewerSwitches(front, Arguments(tokens));
    }
  }

  lemma {:induction false} AllAreSwitches(tokens: seq<string>)
    ensures |Switches(tokens)| <= |tokens|
    ensures |Switches(tokens)| == |tokens| ==> Switches(tokens) == tokens
  {
    hide HasPrefix;
    if tokens != [] {
      AllAreSwitches(tokens[..|tokens| - 1]);
      assert tokens == tokens[..|tokens| - 1] + [tokens[|tokens| - 1]];
    }
  }

  /** A terminator among the first tokens is no switch, and none follow. */
  lemma {:induction false} FewerSwitches(front: seq<string>, more: seq<string>)
    requires !IsLive(front)
    ensures |Switches(front + more)| < |front|
  {
    hide HasPrefix;
    var all := front + more;
    if more == [] {
      assert all == front;
      AllAreSwitches(front[..|front| - 1]);
    } else {
      FewerSwitches(front, more[..|more| - 1]);
      assert all[..|all| - 1] == front + more[..|more| - 1];
      assert SWITCH_TERMINATOR in all;
    }
  }

  /** Parsing is a fixpoint on its own result exactly when no switch is bad. */
  lemma FixpointIffNoBadSwitch(argv: seq<string>)
    ensures Parse(Parse(argv).argv) == Parse(argv) <==> !HasBadSwitch(argv)
  {
    if HasBadSwitch(argv) {
      BadIsNoFixpoint(argv);
    } else {
      GoodIsFixpoint(argv);
    }
  }

  lemma OneSwitchParsed(program: string, s: string)
    requires IsTrimmed(s) && HasPrefix(s) && s != SWITCH_TERMINATOR
    ensures Parse([program, s]).argv == ["", Normal(s)]
    ensures Parse([program, s]).switches == map[SwitchKey(s) := SwitchValue(s)]
    ensures HasBadSwitch([program, s]) <==> IsBad(s)
  {
    hide SwitchKey, SwitchValue, Normal, TrimWhitespace, Switches, Arguments, HasPrefix, TokensOf, IsTrimmed, IsBad, Valued, Trimmed;
    OneSwitch(program, s);
    ParsedTokens([program, s]);
    assert Normals([s]) == [Normal(s)] && [Normal(s)] + [] == [Normal(s)];
    assert [s][0] == s;
  }

  /** The stored form of `--=` is the terminator: what was a switch is an argument the next time. */
  lemma SeparatorAloneIsBad()
    ensures HasBadSwitch(["p", "--="]) && Parse(["p", "--="]).switches == map["" := ""]
    ensures Parse(Parse(["p", "--="]).argv).switches == map[]
  {
    SeparatorAlone();
    OneSwitchParsed("p", "--=");
    TerminatorAlone();
    hide FirstEquals, SwitchKey, SwitchValue, Normal, HasBadSwitch, TrimWhitespace, Switches, Arguments, HasPrefix;
    assert ["", "--"][1..] == ["--"];
  }

  lemma TerminatorAlone()
    ensures Trimmed(["--"]) == ["--"] && Switches(["--"]) == []
  {
    hide TrimWhitespace, HasPrefix, Switches, Arguments;
    TrimIsTrimmed("--");
    LastToken([], "--");
    NoTokens();
    assert [] + ["--"] == ["--"];
  }

  lemma SeparatorAlone()
    ensures FirstEquals("--=") == 2 && SwitchString("--=") == "--" && SwitchKey("--=") == "" && SwitchValue("--=") == ""
    ensures Normal("--=") == "--"
  {
    FirstEqualsIs("--=", 2);
    hide FirstEquals;
    assert "--="[..2] == "--";
  }

  /** Tokens without white space other than `--=` are safe. */
  lemma PlainTokensAreSafe(argv: seq<string>)
    requires forall i :: 0 < i < |argv| ==> argv[i] != "--=" && forall j :: 0 <= j < |argv[i]| ==> !IsWhitespace(argv[i][j])
    ensures !HasBadSwitch(argv)
  {
    hide Switches, Positions, TrimWhitespace, IsBad;
    var tokens := TokensOf(argv);
    OrderKept(tokens, true);
    forall i | 0 <= i < |Switches(tokens)| ensures !IsBad(Switches(tokens)[i]) {
      var k := Positions(tokens, true)[i];
      assert Switches(tokens)[i] == tokens[k] == TrimWhitespace(argv[k + 1]);
      TrimIsTrimmed(argv[k + 1]);
      PlainIsGood(argv[k + 1]);
    }
  }

  lemma PlainIsGood(s: string)
    requires s != "--=" && forall j :: 0 <= j < |s| ==> !IsWhitespace(s[j])
    ensures IsTrimmed(s) && !IsBad(s)
  {
    hide IsWhitespace;
    var i := FirstEquals(s);
    if i == |s| - 1 {
      assert s == s[..i] + "=";
    }
  }
}
