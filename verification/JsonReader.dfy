/** The `JSONReader` class of src/chromium/json/json_reader.cc: positions, nesting depth and
    error fields that change while methods run.  Pointers into the text are offsets; reading
    a character needs proof that the offset is inside the text or at its terminator.
  */
module JsonReader {
  import opened JsonGrammar
  import opened JsonParser
  import JsonTexts
  import opened JsonTheorems
  import opened NumberConversions
  import opened ValueTree
  import opened Wrappers

  /** Line and column, both from one, right after a text. */
  function LineColumn(s: string): (nat, nat) {
    if s == "" then (1, 1)
    else
      var before := LineColumn(s[..|s| - 1]);
      if s[|s| - 1] == '\n' then (before.0 + 1, 1) else (before.0, before.1 + 1)
  }

  /** The line is one more than the line feeds, the column one more than the characters since the last
      of them. */
  predicate IsLineColumn(line: nat, column: nat, s: string) {
    && line == 1 + multiset(s)['\n']
    && 1 <= column <= |s| + 1 && '\n' !in s[|s| - (column - 1)..]
    && (column == |s| + 1 || s[|s| - column] == '\n')
  }

  lemma {:induction false} LineColumnIs(s: string)
    ensures IsLineColumn(LineColumn(s).0, LineColumn(s).1, s)
  {
    hide IsLineColumn;
    if s == "" {
      AtStart();
    } else {
      var front, last := s[..|s| - 1], s[|s| - 1];
      assert s == front + [last];
      LineColumnIs(front);
      if last == '\n' {
        AfterLineFeed(front, LineColumn(front).0, LineColumn(front).1);
      } else {
        AfterOther(front, last, LineColumn(front).0, LineColumn(front).1);
      }
    }
  }

  lemma AtStart()
    ensures IsLineColumn(1, 1, "")
  {
  }

  lemma AfterLineFeed(front: string, line: nat, column: nat)
    requires IsLineColumn(line, column, front)
    ensures IsLineColumn(line + 1, 1, front + "\n")
  {
    var s := front + "\n";
    assert s[|s| - 1] == '\n' && s[|s|..] == "";
  }

  lemma AfterOther(front: string, c: char, line: nat, column: nat)
    requires IsLineColumn(line, column, front) && c != '\n'
    ensures IsLineColumn(line, column + 1, front + [c])
  {
    var s := front + [c];
    assert s[|s| - column..] == front[|front| - (column - 1)..] + [c];
    assert column <= |front| ==> s[|s| - (column + 1)] == front[|front| - column];
  }

  /** What the three error fields hold. */
  datatype ErrorInfo = ErrorInfo(code: ErrorCode, position: (nat, nat))

  /** The text between the start and a point with `unread` characters after it. */
  function Taken(text: string, start: nat, unread: nat): string {
    if start + unread <= |text| then text[start..|text| - unread] else ""
  }

  /** The error fields after a fault, or as they were if there is none. */
  function ErrorAfter(fault: Fault, before: ErrorInfo, text: string, start: nat): ErrorInfo {
    match fault
    case NoFault => before
    case Fault(code, unread) => ErrorInfo(code, LineColumn(Taken(text, start, unread)))
  }

  lemma Advance(text: string, pos: nat, k: nat)
    requires pos <= |text| && k <= |text| - pos
    ensures text[pos..][k..] == text[pos + k..]
  {
  }

  lemma {:induction false} DigitCountIs(s: string, n: nat)
    requires n <= |s| && forall i :: 0 <= i < n ==> IsDigit(s[i])
    requires n < |s| ==> !IsDigit(s[n])
    ensures DigitCount(s) == n
  {
    if n > 0 {
      DigitCountIs(s[1..], n - 1);
    }
  }

  /** The character at an offset; the text is followed by one NUL character, and nothing
      beyond that may be read. */
  function CharAt(text: string, pos: nat): char
    requires pos <= |text|
  {
    At(text, pos)
  }

  function From(text: string, pos: nat): (s: string)
    requires pos <= |text|
    ensures |s| == |text| - pos
  {
    text[pos..]
  }

  lemma GapAt(text: string, pos: nat)
    requires pos < |text|
    ensures var s := From(text, pos);
            && (IsBlank(At(text, pos)) ==> AfterGap(s) == AfterGap(From(text, pos + 1)))
            && (At(text, pos) == '/' && StartsComment(s) ==> AfterGap(s) == AfterGap(AfterComment(s)))
            && (!IsBlank(At(text, pos)) && !(At(text, pos) == '/' && StartsComment(s)) ==> AfterGap(s) == s)
            && (StartsComment(s) ==> At(text, pos) == '/')
  {
    Advance(text, pos, 1);
  }

  lemma GapAtEnd(text: string)
    ensures AfterGap(From(text, |text|)) == From(text, |text|)
  {
  }

  lemma ExponentAt(text: string, pos: nat)
    requires pos <= |text|
    ensures var c := At(text, pos);
            var d := At(text, pos + 1);
            AfterExponent(From(text, pos)) ==
              if c != 'e' && c != 'E' then After(From(text, pos))
              else if d == '-' || d == '+' then AfterDigits(From(text, pos + 2), true)
              else AfterDigits(From(text, pos + 1), true)
  {
    hide AfterDigits;
    var s := From(text, pos);
    assert At(s, 0) == At(text, pos) && At(s, 1) == At(text, pos + 1);
    if |s| > 0 { Advance(text, pos, 1); }
    if |s| > 1 { Advance(text, pos, 2); }
  }

  lemma NumberAt(text: string, pos: nat)
    requires pos < |text|
    ensures AfterNumber(From(text, pos)) ==
            var whole := AfterDigits(if At(text, pos) == '-' then From(text, pos + 1) else From(text, pos), false);
            if whole.Malformed? then Malformed
            else
              var fraction := AfterFraction(whole.text);
              if fraction.Malformed? then Malformed else AfterExponent(fraction.text)
  {
    hide AfterDigits, AfterFraction, AfterExponent;
    Advance(text, pos, 1);
  }

  /** There are `n` hex digits from an offset on. */
  predicate AreHexDigits(text: string, pos: nat, n: nat)
    decreases n
  {
    n == 0 || (IsHexDigit(At(text, pos)) && AreHexDigits(text, pos + 1, n - 1))
  }

  /** An error seen while peeking at a token is seen again when the value is read. */
  lemma FaultSurfaces(s: string, depth: nat, rules: Rules)
    requires IsGapEnd(s) && TokenFault(s).Fault?
    ensures TokenAt(s).kind == InvalidToken
    ensures ParseValue(s, depth, false, rules).Err? && ParseValue(s, depth, false, rules).fault.Fault?
  {
    AfterGapStays(s);
    assert TokenAt(s).kind == InvalidToken;
    hide AfterGap, TokenAt, TokenFault, IsGapEnd;
  }

  /** The number of hex digits after an escape letter. */
  function EscapeLength(text: string, pos: nat): nat {
    if At(text, pos) == 'x' then 2 else if At(text, pos) == 'u' then 4 else 0
  }

  predicate IsGoodEscape(text: string, pos: nat) {
    if EscapeLength(text, pos) > 0 then AreHexDigits(text, pos + 1, EscapeLength(text, pos))
    else IsEscapeLetter(At(text, pos))
  }

  /** One step of the string scanner, at an offset. */
  lemma ScanAt(text: string, pos: nat)
    requires pos < |text|
    ensures text[pos] == '"' ==> ScanString(From(text, pos)) == Closed(From(text, pos + 1))
    ensures text[pos] != '"' && text[pos] != '\\' ==> ScanString(From(text, pos)) == ScanString(From(text, pos + 1))
    ensures text[pos] == '\\' && IsGoodEscape(text, pos + 1) ==>
      && pos + 2 + EscapeLength(text, pos + 1) <= |text|
      && ScanString(From(text, pos)) == ScanString(From(text, pos + 2 + EscapeLength(text, pos + 1)))
    ensures text[pos] == '\\' && !IsGoodEscape(text, pos + 1) ==>
      ScanString(From(text, pos)) == BadEscape(From(text, pos + 1))
  {
    var s := From(text, pos);
    assert At(s, 1) == At(text, pos + 1);
    Advance(text, pos, 1);
    if text[pos] == '\\' && pos + 1 < |text| {
      Advance(text, pos, 2);
      HexAhead(text, pos + 2);
      assert At(s, 2) == At(text, pos + 2) && At(s, 3) == At(text, pos + 3);
      assert At(s, 4) == At(text, pos + 4) && At(s, 5) == At(text, pos + 5);
      if pos + 4 <= |text| { Advance(text, pos, 4); }
      if pos + 6 <= |text| { Advance(text, pos, 6); }
    }
  }

  lemma HexAhead(text: string, pos: nat)
    ensures AreHexDigits(text, pos, 2) <==> IsHexDigit(At(text, pos)) && IsHexDigit(At(text, pos + 1))
    ensures AreHexDigits(text, pos, 4) <==>
            IsHexDigit(At(text, pos)) && IsHexDigit(At(text, pos + 1)) && IsHexDigit(At(text, pos + 2)) && IsHexDigit(At(text, pos + 3))
  {
    hide IsHexDigit, At;
    assert AreHexDigits(text, pos + 2, 2) <==> IsHexDigit(At(text, pos + 2)) && IsHexDigit(At(text, pos + 3));
  }

  // ---------------------------------------------------------------------------------
  // Helpers that extend a token; a token is the text between two offsets
  // ---------------------------------------------------------------------------------

  /** Reads the digits at `end`. */
  method ReadInt(text: string, end: nat, canHaveLeadingZeros: bool) returns (ok: bool, newEnd: nat)
    requires end <= |text|
    ensures end <= newEnd <= |text|
    ensures ok == AfterDigits(From(text, end), canHaveLeadingZeros).After?
    ensures ok ==> AfterDigits(From(text, end), canHaveLeadingZeros).text == From(text, newEnd)
  {
    newEnd := end;
    var first := CharAt(text, newEnd);
    var len := 0;
    ghost var s := From(text, end);
    while IsDigit(CharAt(text, newEnd))
      invariant newEnd == end + len <= |text|
      invariant forall i :: 0 <= i < len ==> IsDigit(s[i])
      decreases |text| - newEnd
    {
      newEnd := newEnd + 1;
      len := len + 1;
    }
    DigitCountIs(s, len);
    Advance(text, end, len);
    ok := len != 0 && (canHaveLeadingZeros || len <= 1 || '0' != first);
  }

  /** The optional fraction of `ParseNumberToken`. */
  method ReadFraction(text: string, end: nat) returns (ok: bool, newEnd: nat)
    requires end <= |text|
    ensures end <= newEnd <= |text|
    ensures ok == AfterFraction(From(text, end)).After?
    ensures ok ==> AfterFraction(From(text, end)).text == From(text, newEnd)
  {
    hide AfterDigits;
    ok, newEnd := true, end;
    if '.' == CharAt(text, end) {
      Advance(text, end, 1);
      ok, newEnd := ReadInt(text, end + 1, true);
    }
  }

  /** The optional exponent of `ParseNumberToken`. */
  method ReadExponent(text: string, end: nat) returns (ok: bool, newEnd: nat)
    requires end <= |text|
    ensures end <= newEnd <= |text|
    ensures ok == AfterExponent(From(text, end)).After?
    ensures ok ==> AfterExponent(From(text, end)).text == From(text, newEnd)
  {
    ExponentAt(text, end);
    hide AfterDigits, AfterExponent, From;
    ok, newEnd := true, end;
    var c := CharAt(text, end);
    if 'e' == c || 'E' == c {
      newEnd := end + 1;
      c := CharAt(text, newEnd);
      if '-' == c || '+' == c {
        newEnd := newEnd + 1;
      }
      ok, newEnd := ReadInt(text, newEnd, true);
    }
  }

  method ParseNumberToken(text: string, begin: nat) returns (token: Token)
    requires begin < |text|
    ensures begin + token.length <= |text|
    ensures token == if AfterNumber(From(text, begin)).After? then Token(NumberToken, token.length) else Token(InvalidToken, 0)
    ensures AfterNumber(From(text, begin)).After? ==>
      From(text, begin + token.length) == AfterNumber(From(text, begin)).text
  {
    NumberAt(text, begin);
    hide AfterDigits, AfterFraction, AfterExponent, AfterNumber, From;
    var end, ok := if '-' == CharAt(text, begin) then begin + 1 else begin, false;
    ok, end := ReadInt(text, end, false);
    if !ok {
      return Token(InvalidToken, 0);
    }
    ok, end := ReadFraction(text, end);
    if !ok {
      return Token(InvalidToken, 0);
    }
    ok, end := ReadExponent(text, end);
    if !ok {
      return Token(InvalidToken, 0);
    }
    return Token(NumberToken, end - begin);
  }

  /** Extends a token by hex digits after the character at `end`; it stops reading at the
      first other character. */
  method ReadHexDigits(text: string, end: nat, digits: nat) returns (ok: bool, newEnd: nat)
    requires end < |text|
    ensures ok == AreHexDigits(text, end + 1, digits)
    ensures newEnd == if ok then end + digits else end
    ensures ok ==> newEnd < |text|
  {
    for i := 1 to digits + 1
      invariant end + i <= |text|
      invariant AreHexDigits(text, end + 1, digits) == AreHexDigits(text, end + i, digits + 1 - i)
    {
      var c := CharAt(text, end + i);
      if !IsHexDigit(c) {
        return false, end;
      }
    }
    return true, end + digits;
  }

  /** The switch over escape letters; `end` moves to the last character of the escape. */
  method ReadEscape(text: string, end: nat) returns (ok: bool, newEnd: nat)
    requires end <= |text|
    ensures ok == IsGoodEscape(text, end)
    ensures newEnd == if ok then end + EscapeLength(text, end) else end
    ensures ok ==> newEnd < |text|
  {
    newEnd := end;
    var c := CharAt(text, end);
    if c == 'x' {
      ok, newEnd := ReadHexDigits(text, end, 2);
    } else if c == 'u' {
      ok, newEnd := ReadHexDigits(text, end, 4);
    } else {
      ok := IsEscapeLetter(c);
    }
  }

  datatype Found = Quote | Bad | Nothing

  function Scanned(text: string, end: nat, found: Found): Scan
    requires end <= |text|
  {
    match found
    case Quote => Closed(From(text, end))
    case Bad => BadEscape(From(text, end))
    case Nothing => Unterminated
  }

  /** The loop of `ParseStringToken`: where the string that opens at `begin` ends, or where
      its first bad escape is. */
  method ScanToken(text: string, begin: nat) returns (end: nat, found: Found)
    requires begin < |text|
    ensures begin < end <= |text|
    ensures ScanString(From(text, begin + 1)) == Scanned(text, end, found)
  {
    hide ScanString, From, IsGoodEscape, EscapeLength;
    ghost var scan := ScanString(From(text, begin + 1));
    end := begin + 1;
    while end < |text|
      invariant begin < end <= |text|
      invariant ScanString(From(text, end)) == scan
      decreases |text| - end
    {
      ScanAt(text, end);
      var c := CharAt(text, end);
      if '\\' == c {
        end := end + 1;
        var ok;
        ok, end := ReadEscape(text, end);
        if !ok {
          return end, Bad;
        }
      } else if '"' == c {
        return end + 1, Quote;
      }
      end := end + 1;
    }
    ScanNothing(text);
    return end, Nothing;
  }

  lemma ScanNothing(text: string)
    ensures ScanString(From(text, |text|)) == Unterminated
  {
  }

  lemma StringTokenAt(text: string, pos: nat)
    requires pos < |text| && text[pos] == '"'
    ensures var scan := ScanString(From(text, pos + 1));
            && TokenAt(From(text, pos)) ==
               (if scan.Closed? then Token(StringToken, |text| - pos - |scan.rest|) else Token(InvalidToken, 0))
            && TokenFault(From(text, pos)) ==
               (if scan.BadEscape? then Fault(InvalidEscape, |scan.rest|) else NoFault)
  {
    hide ScanString;
    Advance(text, pos, 1);
  }

  lemma NumberTokenLength(text: string, pos: nat)
    requires pos < |text| && (IsDigit(text[pos]) || text[pos] == '-')
    ensures var rest := AfterNumber(From(text, pos));
            TokenAt(From(text, pos)) ==
            if rest.After? then Token(NumberToken, |text| - pos - |rest.text|) else Token(InvalidToken, 0)
    ensures TokenFault(From(text, pos)) == NoFault
  {
    hide AfterNumber;
  }

  predicate NextStringMatch(text: string, pos: nat, str: string)
    requires pos <= |text|
  {
    str <= From(text, pos)
  }

  /** What comes after an item or member: the container goes on or ends at some text, or
      reading fails. */
  datatype Separator = GoOn(next: string) | End(next: string) | Fail(fault: Fault, unread: nat)

  function SeparatorAt(s: string, closing: TokenType, rules: Rules): Separator {
    var t := AfterGap(s);
    var after := TokenAt(t).kind;
    if after == closing then End(t)
    else if after != ListSeparator || |t| == 0 then Fail(TokenFault(t), |t|)
    else
      var u := AfterGap(From(t, 1));
      if TokenAt(u).kind != closing then GoOn(u)
      else if rules.trailingComma then End(u)
      else Fail(Fault(TrailingComma, |u|), |u|)
  }

  /** A value and what separates it from the next one: the value and the text the container goes
      on at, or reading fails. */
  datatype Element = Element(value: Value, next: string) | NoElement(fault: Fault, unread: nat)

  function ElementAt(s: string, depth: nat, closing: TokenType, rules: Rules): Element {
    var value := ParseValue(s, depth, false, rules);
    if value.Err? then NoElement(value.fault, value.unread)
    else
      match SeparatorAt(value.rest, closing, rules)
      case Fail(fault, unread) => NoElement(fault, unread)
      case End(t) => Element(value.value, t)
      case GoOn(t) => Element(value.value, t)
  }

  function ItemsAfter(e: Element, depth: nat, items: seq<Value>, rules: Rules): Parsed<Value> {
    match e
    case NoElement(fault, unread) => Err(fault, unread)
    case Element(value, t) => ParseItems(t, depth, items + [value], rules)
  }

  function MembersAfter(key: string, e: Element, depth: nat, entries: map<string, Value>, rules: Rules): Parsed<Value> {
    match e
    case NoElement(fault, unread) => Err(fault, unread)
    case Element(value, t) => ParseMembers(t, depth, entries[key := value], rules)
  }

  /** One round of the array loop. */
  lemma ItemsStep(s: string, depth: nat, items: seq<Value>, rules: Rules)
    ensures TokenAt(s).kind == ArrayEnd ==> s != "" && ParseItems(s, depth, items, rules) == Ok(List(items), From(s, 1))
    ensures TokenAt(s).kind != ArrayEnd ==>
      ParseItems(s, depth, items, rules) == ItemsAfter(ElementAt(s, depth, ArrayEnd, rules), depth, items, rules)
  {
    OpeningSound(s);
    var item := ParseValue(s, depth, false, rules);
    if item.Ok? {
      OpeningSound(AfterGap(item.rest));
    }
    hide TokenAt, AfterGap, ParseValue, TokenFault, IsGapEnd;
  }

  /** What a dictionary member's key leaves to read: the key and the text of its value, or
      reading fails. */
  datatype Key = Keyed(key: string, next: string) | NoKey(fault: Fault, unread: nat)

  function KeyAt(s: string): Key {
    if TokenAt(s).kind != StringToken then NoKey(Fault(UnquotedDictionaryKey, |s|), |s|)
    else if DecodeString(s).None? then NoKey(NoFault, |s|)
    else
      var t := AfterGap(From(s, TokenAt(s).length));
      if TokenAt(t).kind != PairSeparator || |t| == 0 then NoKey(TokenFault(t), |t|)
      else Keyed(DecodeString(s).value, AfterGap(From(t, 1)))
  }

  /** One round of the object loop, up to the value. */
  lemma MemberKeyStep(s: string, depth: nat, entries: map<string, Value>, rules: Rules)
    ensures TokenAt(s).kind == ObjectEnd ==>
      s != "" && ParseMembers(s, depth, entries, rules) == Ok(Dictionary(entries), From(s, 1))
    ensures TokenAt(s).kind != ObjectEnd && KeyAt(s).NoKey? ==>
      ParseMembers(s, depth, entries, rules) == Err(KeyAt(s).fault, KeyAt(s).unread)
    ensures TokenAt(s).kind == StringToken ==> TokenFault(s) == NoFault
    ensures TokenAt(s).kind != StringToken ==> KeyAt(s).NoKey? && KeyAt(s).fault.Fault?
    ensures KeyAt(s).Keyed? ==> TokenAt(s).kind == StringToken && IsGapEnd(KeyAt(s).next)
  {
    OpeningSound(s);
    if TokenAt(s).kind == StringToken {
      assert TokenFault(s) == NoFault;
      var t := AfterGap(From(s, TokenAt(s).length));
      OpeningSound(t);
      if |t| > 0 { AfterGapIsGapEnd(From(t, 1)); }
    }
    hide TokenAt, AfterGap, ParseValue, TokenFault, IsGapEnd, DecodeString;
  }

  lemma MemberKeyed(s: string, depth: nat, entries: map<string, Value>, rules: Rules)
    requires KeyAt(s).Keyed?
    ensures TokenAt(s).kind == StringToken && IsGapEnd(KeyAt(s).next)
    ensures ParseMembers(s, depth, entries, rules) ==
            var value := ParseValue(KeyAt(s).next, depth, false, rules);
            if value.Err? then value
            else ParseAfterMember(AfterGap(value.rest), depth, entries[KeyAt(s).key := value.value], rules)
  {
    MemberKeyStep(s, depth, entries, rules);
    hide TokenAt, AfterGap, ParseValue, TokenFault, IsGapEnd, DecodeString, ParseAfterMember;
  }

  /** The rest of that round. */
  lemma MemberValueStep(s: string, depth: nat, entries: map<string, Value>, rules: Rules)
    requires KeyAt(s).Keyed?
    ensures ParseMembers(s, depth, entries, rules) ==
            MembersAfter(KeyAt(s).key, ElementAt(KeyAt(s).next, depth, ObjectEnd, rules), depth, entries, rules)
  {
    MemberKeyed(s, depth, entries, rules);
    var value := ParseValue(KeyAt(s).next, depth, false, rules);
    if value.Ok? {
      OpeningSound(AfterGap(value.rest));
    }
    hide TokenAt, AfterGap, ParseValue, TokenFault, IsGapEnd, KeyAt;
  }

  predicate IsContainerStart(kind: TokenType) {
    kind == ObjectBegin || kind == ArrayBegin
  }

  /** Reading a value, token by token: `t` is the text after the gap. */
  lemma ValueStep(s: string, depth: nat, isRoot: bool, rules: Rules)
    ensures depth >= STACK_LIMIT ==> ParseValue(s, depth, isRoot, rules) == Err(Fault(TooMuchNesting, |s|), |s|)
    ensures var t := AfterGap(s);
            depth < STACK_LIMIT && isRoot && !IsContainerStart(TokenAt(t).kind) ==>
              ParseValue(s, depth, isRoot, rules) == Err(Fault(BadRootElementType, |t|), |t|)
    ensures var t := AfterGap(s);
            depth < STACK_LIMIT && !(isRoot && !IsContainerStart(TokenAt(t).kind)) ==>
              ParseValue(s, depth, isRoot, rules) == NodeAt(t, depth, rules)
  {
    OpeningSound(AfterGap(s));
    hide TokenAt, AfterGap, DecodeString, ParseItems, ParseMembers, NumberMeaning;
  }

  /** Past an opening bracket or brace. */
  lemma ContainerOpens(text: string, pos: nat)
    requires pos <= |text| && IsContainerStart(TokenAt(From(text, pos)).kind)
    ensures pos < |text| && From(From(text, pos), 1) == From(text, pos + 1)
    ensures TokenFault(From(text, pos)) == NoFault
  {
    OpeningSound(From(text, pos));
    hide TokenAt;
    Advance(text, pos, 1);
  }

  /** Any value, from its first token on. */
  function NodeAt(t: string, depth: nat, rules: Rules): Parsed<Value> {
    if TokenAt(t).kind == ArrayBegin then ParseItems(AfterGap(From(t, 1)), depth + 1, [], rules)
    else if TokenAt(t).kind == ObjectBegin then ParseMembers(AfterGap(From(t, 1)), depth + 1, map[], rules)
    else AtomAt(t, rules)
  }

  /** A value that is not a container. */
  function AtomAt(t: string, rules: Rules): (r: Parsed<Value>)
    ensures !IsContainerStart(TokenAt(t).kind) ==> (r.Ok? ==> TokenFault(t) == NoFault)
    ensures !IsContainerStart(TokenAt(t).kind) ==> (r.Err? ==> r.fault == TokenFault(t) && r.unread == |t|)
  {
    var token := TokenAt(t);
    match token.kind
    case NullToken => Ok(Null, From(t, token.length))
    case BoolTrue => Ok(Boolean(true), From(t, token.length))
    case BoolFalse => Ok(Boolean(false), From(t, token.length))
    case NumberToken =>
      var number := NumberMeaning(t[..token.length], rules);
      if number.Some? then Ok(number.value, From(t, token.length)) else Err(NoFault, |t|)
    case StringToken =>
      var text := DecodeString(t);
      if text.Some? then Ok(String(text.value), From(t, token.length)) else Err(NoFault, |t|)
    case _ => Err(TokenFault(t), |t|)
  }

  /** Past a one-character token. */
  lemma SeparatorStep(text: string, pos: nat)
    requires pos <= |text|
    requires var kind := TokenAt(From(text, pos)).kind;
             kind == ListSeparator || kind == ArrayEnd || kind == ObjectEnd || kind == PairSeparator
    ensures pos < |text| && From(text, pos + 1) == From(From(text, pos), 1)
    ensures TokenFault(From(text, pos)) == NoFault
  {
    OpeningSound(From(text, pos));
    hide TokenAt;
    Advance(text, pos, 1);
  }

  /** A decoded prefix put before the rest, if the rest decodes. */
  function Join(prefix: string, rest: Option<string>): Option<string> {
    if rest.Some? then Some(prefix + rest.value) else None
  }

  lemma JoinEnds(s: string, rest: Option<string>)
    ensures Join("", rest) == rest && Join(s, Some("")) == Some(s)
  {
    if rest.Some? {
      assert "" + rest.value == rest.value;
    }
    assert s + "" == s;
  }

  lemma JoinNone(prefix: string)
    ensures Join(prefix, None) == None
  {
  }

  lemma JoinStep(prefix: string, c: char, rest: Option<string>)
    ensures Join(prefix, Prepend(c, rest)) == Join(prefix + [c], rest)
  {
    if rest.Some? {
      assert prefix + ([c] + rest.value) == prefix + [c] + rest.value;
    }
  }

  /** One step of the decoder, at an offset inside the quotes. */
  lemma DecodeAt(text: string, pos: nat)
    requires pos < |text| && ScanString(From(text, pos)).Closed? && text[pos] != '"'
    ensures var s := From(text, pos);
            var scan := ScanString(s);
            var e := At(text, pos + 1);
            if text[pos] != '\\' then
              && scan == ScanString(From(text, pos + 1))
              && DecodePieces(Inner(s)) == Prepend(text[pos], DecodePieces(Inner(From(text, pos + 1))))
            else if IsEscapeLetter(e) then
              && pos + 2 <= |text| && scan == ScanString(From(text, pos + 2))
              && DecodePieces(Inner(s)) == Prepend(EscapeMeaning(e), DecodePieces(Inner(From(text, pos + 2))))
            else if e == 'x' then
              && pos + 4 <= |text| && scan == ScanString(From(text, pos + 4))
              && IsHexDigit(text[pos + 2]) && IsHexDigit(text[pos + 3])
              && DecodePieces(Inner(s)) ==
                 Prepend(HexMeaning(text[pos + 2], text[pos + 3]), DecodePieces(Inner(From(text, pos + 4))))
            else DecodePieces(Inner(s)) == None
  {
    var s := From(text, pos);
    assert At(s, 1) == At(text, pos + 1) && At(s, 2) == At(text, pos + 2) && At(s, 3) == At(text, pos + 3);
    Advance(text, pos, 1);
    if text[pos] != '\\' {
      RawSound(s);
    } else if IsEscapeLetter(At(text, pos + 1)) {
      EscapeSound(s);
      Advance(text, pos, 2);
    } else if At(text, pos + 1) == 'x' {
      HexSound(s);
      Advance(text, pos, 4);
    } else {
      assert At(s, 1) == 'u';
      UnicodeSound(s);
    }
  }

  lemma StringInner(text: string, begin: nat)
    requires begin <= |text| && TokenAt(From(text, begin)).kind == StringToken
    ensures begin < |text| && ScanString(From(text, begin + 1)).Closed?
    ensures |ScanString(From(text, begin + 1)).rest| == |text| - begin - TokenAt(From(text, begin)).length
    ensures DecodeString(From(text, begin)) == Decoded(text, begin + 1)
  {
    var s := From(text, begin);
    assert text[begin] == s[0];
    Advance(text, begin, 1);
    hide ScanString, DecodePieces;
    assert s[1..TokenAt(s).length - 1] == Inner(s[1..]);
  }

  /** No quote before the closing one. */
  lemma ScanWithin(text: string, pos: nat, end: nat)
    requires pos < end < |text| && ScanString(From(text, pos)).Closed?
    requires |ScanString(From(text, pos)).rest| == |text| - end - 1
    ensures text[pos] != '"'
  {
    ScanAt(text, pos);
  }

  lemma ScanOver(text: string, pos: nat, end: nat)
    requires end <= pos <= |text| && end < |text| && ScanString(From(text, pos)).Closed?
    requires |ScanString(From(text, pos)).rest| == |text| - end - 1
    ensures Decoded(text, pos) == Some("")
  {
    hide ScanString;
    assert Inner(From(text, pos)) == "";
  }

  /** One round of the decoder's loop: the character a unit denotes and where the next unit is. */
  method DecodeUnit(text: string, i: nat) returns (ok: bool, c: char, next: nat)
    requires i < |text| && ScanString(From(text, i)).Closed? && text[i] != '"'
    ensures ok ==> i < next <= |text| && ScanString(From(text, next)) == ScanString(From(text, i))
    ensures ok ==> Decoded(text, i) == Prepend(c, Decoded(text, next))
    ensures !ok ==> Decoded(text, i) == None
  {
    DecodeAt(text, i);
    hide ScanString, DecodePieces, Inner, From, IsEscapeLetter;
    ok, c, next := true, text[i], i;
    if '\\' == c {
      next := next + 1;
      c := CharAt(text, next);
      if IsEscapeLetter(c) {
        c := EscapeMeaning(c);
      } else if c == 'x' {
        c := HexMeaning(text[next + 1], text[next + 2]);
        next := next + 2;
      } else {
        return false, c, next;
      }
    }
    next := next + 1;
  }

  /** What the rest of a string's inner text denotes, from an offset on. */
  function Decoded(text: string, pos: nat): Option<string>
    requires pos <= |text| && ScanString(From(text, pos)).Closed?
  {
    DecodePieces(Inner(From(text, pos)))
  }

  /** What a string token denotes by its characters is what the decoder finds. */
  lemma TokenDenotes(text: string, begin: nat)
    requires begin <= |text| && TokenAt(From(text, begin)).kind == StringToken
    ensures begin + TokenAt(From(text, begin)).length <= |text|
    ensures forall s :: DecodeString(From(text, begin)) == Some(s) <==>
      JsonTexts.IsStringText(text[begin..begin + TokenAt(From(text, begin)).length], s)
  {
    hide TokenAt, DecodeString, JsonTexts.IsStringText;
    var t := From(text, begin);
    assert t[..TokenAt(t).length] == text[begin..begin + TokenAt(t).length];
    forall s ensures DecodeString(t) == Some(s) <==> JsonTexts.IsStringText(t[..TokenAt(t).length], s) {
      JsonTexts.DecodeStringIs(t, s);
    }
  }

  /** Decodes the string between the quotes of a token; the decoder stops at the first
      escape it does not know. */
  method DecodeStringToken(text: string, begin: nat, token: Token) returns (decoded: Option<string>)
    requires begin <= |text| && token == TokenAt(From(text, begin)) && token.kind == StringToken
    ensures decoded == DecodeString(From(text, begin))
    ensures begin + token.length <= |text|
    ensures forall s :: decoded == Some(s) <==> JsonTexts.IsStringText(text[begin..begin + token.length], s)
  {
    TokenDenotes(text, begin);
    StringInner(text, begin);
    hide ScanString, Decoded, TokenAt, DecodeString, From, Join, JsonTexts.IsStringText;
    ghost var whole := Decoded(text, begin + 1);
    ghost var scan := ScanString(From(text, begin + 1));
    JoinEnds("", whole);
    var result := "";
    var i := begin + 1;
    var end := begin + token.length - 1;
    while i < end
      invariant begin < i <= |text|
      invariant ScanString(From(text, i)) == scan
      invariant whole == Join(result, Decoded(text, i))
      decreases end - i
    {
      ScanWithin(text, i, end);
      var ok, c, next := DecodeUnit(text, i);
      if !ok {
        JoinNone(result);
        return None;
      }
      JoinStep(result, c, Decoded(text, next));
      result := result + [c];
      i := next;
    }
    ScanOver(text, i, end);
    JoinEnds(result, None);
    return Some(result);
  }

  /** Outcome, position and error fields are what reading should yield. */
  predicate Yields(expected: Parsed<Value>, v: Option<Value>, text: string, start: nat, pos: nat,
                   errors: ErrorInfo, before: ErrorInfo)
    requires pos <= |text|
  {
    match expected
    case Ok(value, rest) => v == Some(value) && From(text, pos) == rest && errors == before
    case Err(fault, unread) => v == None && |text| == pos + unread && errors == ErrorAfter(fault, before, text, start)
  }

  /** The length of a leading byte-order mark. */
  function MarkLength(text: string): (n: nat)
    ensures n <= |text|
  {
    if BYTE_ORDER_MARK <= text then 3 else 0
  }

  lemma MarkAt(text: string)
    ensures MarkLength(text) ==
            if |text| >= 3 && text[0] == 0xEF as char && text[1] == 0xBB as char && text[2] == 0xBF as char then 3 else 0
    ensures SkipMark(text) == From(text, MarkLength(text))
  {
    if |text| >= 3 {
      assert text[..3] == [text[0], text[1], text[2]];
    }
  }

  /** What the grammar says of a text, for the outcome the reader has. */
  lemma WholeText(text: string, checkRoot: bool, rules: Rules)
    ensures ParseDocument(text, checkRoot, rules).Success? ==>
      exists doc :: Derives(doc, text, ParseDocument(text, checkRoot, rules).value, checkRoot, rules)
    ensures ParseDocument(text, checkRoot, rules).Failure? ==>
      forall doc, w :: !Derives(doc, text, w, checkRoot, rules)
  {
    hide ParseDocument, Derives;
    var r := ParseDocument(text, checkRoot, rules);
    if r.Success? {
      ReaderMatchesGrammar(text, r.value, checkRoot, rules);
    } else {
      forall doc, w ensures !Derives(doc, text, w, checkRoot, rules) {
        ReaderMatchesGrammar(text, w, checkRoot, rules);
      }
    }
  }

  lemma EndHasNoFault(s: string)
    requires TokenAt(s).kind == EndOfInput
    ensures TokenFault(s) == NoFault
  {
  }

  /** The value is returned and no error is recorded, or the error is reported with the line
      and column where it was seen. */
  predicate Reports(outcome: Outcome, v: Option<Value>, text: string, errors: ErrorInfo) {
    match outcome
    case Success(value) => v == Some(value) && errors.code == NoError
    case Failure(code, unread) =>
      v == None && errors == ErrorInfo(code, LineColumn(Taken(text, MarkLength(text), unread)))
  }

  class Reader {
    var text: string
    var startPos: nat
    var jsonPos: nat
    var stackDepth: nat
    var allowTrailingComma: bool
    var errorCode: ErrorCode
    var errorLine: nat
    var errorCol: nat
    const toDouble: string -> Option<real>

    constructor (toDouble: string -> Option<real>)
      ensures Valid() && errorCode == NoError && this.toDouble == toDouble
    {
      this.toDouble := toDouble;
      text, startPos, jsonPos, stackDepth, allowTrailingComma := "", 0, 0, 0, false;
      errorCode, errorLine, errorCol := NoError, 0, 0;
    }

    ghost predicate Valid()
      reads this
    {
      startPos <= jsonPos <= |text|
    }

    function CurrentRules(): Rules
      reads this
    {
      Rules(allowTrailingComma, toDouble)
    }

    function Errors(): ErrorInfo
      reads this
    {
      ErrorInfo(errorCode, (errorLine, errorCol))
    }

    method SetErrorCode(error: ErrorCode, errorPos: nat)
      requires startPos <= errorPos <= |text|
      modifies this`errorCode, this`errorLine, this`errorCol
      ensures Errors() == ErrorInfo(error, LineColumn(Taken(text, startPos, |text| - errorPos)))
    {
      var lineNumber, columnNumber := 1, 1;
      var pos := startPos;
      while pos != errorPos
        invariant startPos <= pos <= errorPos
        invariant (lineNumber, columnNumber) == LineColumn(text[startPos..pos])
        decreases errorPos - pos
      {
        assert text[startPos..pos + 1][..pos - startPos] == text[startPos..pos];
        if text[pos] == '\n' {
          lineNumber := lineNumber + 1;
          columnNumber := 1;
        } else {
          columnNumber := columnNumber + 1;
        }
        pos := pos + 1;
      }
      errorLine := lineNumber;
      errorCol := columnNumber;
      errorCode := error;
    }

    // ---------------------------------------------------------------------------------
    // White space and comments
    // ---------------------------------------------------------------------------------

    /** The line comment case of `EatComment`: reads up to and including the line end. */
    method EatLine()
      requires Valid()
      modifies this`jsonPos
      ensures Valid() && jsonPos >= old(jsonPos)
      ensures From(text, jsonPos) == AfterLine(From(text, old(jsonPos)))
    {
      while jsonPos != |text|
        invariant Valid() && jsonPos >= old(jsonPos)
        invariant AfterLine(From(text, jsonPos)) == AfterLine(From(text, old(jsonPos)))
        decreases |text| - jsonPos
      {
        Advance(text, jsonPos, 1);
        var c := CharAt(text, jsonPos);
        jsonPos := jsonPos + 1;
        if IsLineEnd(c) {
          return;
        }
      }
    }

    /** The block comment case of `EatComment`: reads up to and including the terminator. */
    method EatBlock()
      requires Valid()
      modifies this`jsonPos
      ensures Valid() && jsonPos >= old(jsonPos)
      ensures From(text, jsonPos) == AfterBlock(From(text, old(jsonPos)))
    {
      while jsonPos != |text|
        invariant Valid() && jsonPos >= old(jsonPos)
        invariant AfterBlock(From(text, jsonPos)) == AfterBlock(From(text, old(jsonPos)))
        decreases |text| - jsonPos
      {
        Advance(text, jsonPos, 1);
        if '*' == CharAt(text, jsonPos) && '/' == CharAt(text, jsonPos + 1) {
          Advance(text, jsonPos, 2);
          jsonPos := jsonPos + 2;
          return;
        }
        jsonPos := jsonPos + 1;
      }
    }

    method EatComment() returns (eaten: bool)
      requires Valid() && jsonPos < |text|
      modifies this`jsonPos
      ensures Valid() && jsonPos >= old(jsonPos)
      ensures eaten == StartsComment(From(text, old(jsonPos)))
      ensures From(text, jsonPos) == if eaten then AfterComment(From(text, old(jsonPos))) else From(text, old(jsonPos))
    {
      hide AfterLine, AfterBlock;
      if '/' != CharAt(text, jsonPos) {
        return false;
      }
      var nextChar := CharAt(text, jsonPos + 1);
      if '/' == nextChar {
        Advance(text, jsonPos, 2);
        jsonPos := jsonPos + 2;
        EatLine();
        return true;
      } else if '*' == nextChar {
        Advance(text, jsonPos, 2);
        jsonPos := jsonPos + 2;
        EatBlock();
        return true;
      } else {
        return false;
      }
    }

    method EatWhitespaceAndComments()
      requires Valid()
      modifies this`jsonPos
      ensures Valid() && jsonPos >= old(jsonPos)
      ensures From(text, jsonPos) == AfterGap(From(text, old(jsonPos)))
    {
      hide AfterGap, StartsComment, AfterComment, From;
      ghost var rest := AfterGap(From(text, jsonPos));
      GapAtEnd(text);
      while jsonPos != |text|
        invariant Valid() && jsonPos >= old(jsonPos)
        invariant AfterGap(From(text, jsonPos)) == rest
        decreases |text| - jsonPos
      {
        GapAt(text, jsonPos);
        if IsBlank(CharAt(text, jsonPos)) {
          jsonPos := jsonPos + 1;
        } else if '/' == CharAt(text, jsonPos) {
          var eaten := EatComment();
          if !eaten {
            return;
          }
        } else {
          return;
        }
      }
    }

    // ---------------------------------------------------------------------------------
    // Tokens
    // ---------------------------------------------------------------------------------

    method ParseStringToken() returns (token: Token)
      requires Valid() && jsonPos < |text| && text[jsonPos] == '"'
      modifies this`errorCode, this`errorLine, this`errorCol
      ensures token == TokenAt(From(text, jsonPos))
      ensures Errors() == ErrorAfter(TokenFault(From(text, jsonPos)), old(Errors()), text, startPos)
    {
      StringTokenAt(text, jsonPos);
      hide ScanString, TokenAt, TokenFault;
      var end, found := ScanToken(text, jsonPos);
      match found {
        case Quote => token := Token(StringToken, end - jsonPos);
        case Bad =>
          SetErrorCode(InvalidEscape, end);
          token := Token(InvalidToken, 0);
        case Nothing => token := Token(InvalidToken, 0);
      }
    }

    /** Looks at the next token without consuming it; an invalid escape is recorded. */
    method ParseToken() returns (token: Token)
      requires Valid()
      modifies this`jsonPos, this`errorCode, this`errorLine, this`errorCol
      ensures Valid() && jsonPos >= old(jsonPos)
      ensures From(text, jsonPos) == AfterGap(From(text, old(jsonPos)))
      ensures token == TokenAt(From(text, jsonPos))
      ensures Errors() == ErrorAfter(TokenFault(From(text, jsonPos)), old(Errors()), text, startPos)
    {
      hide AfterGap;
      EatWhitespaceAndComments();
      hide ScanString, AfterNumber;
      token := Token(InvalidToken, 0);
      var c := CharAt(text, jsonPos);
      if c == '"' {
        token := ParseStringToken();
      } else if IsDigit(c) || c == '-' {
        token := ParseNumberToken(text, jsonPos);
        NumberTokenLength(text, jsonPos);
      } else {
        match c {
          case '\0' => token := Token(EndOfInput, 0);
          case 'n' => if NextStringMatch(text, jsonPos, "null") { token := Token(NullToken, 4); }
          case 't' => if NextStringMatch(text, jsonPos, "true") { token := Token(BoolTrue, 4); }
          case 'f' => if NextStringMatch(text, jsonPos, "false") { token := Token(BoolFalse, 5); }
          case '[' => token := Token(ArrayBegin, 1);
          case ']' => token := Token(ArrayEnd, 1);
          case ',' => token := Token(ListSeparator, 1);
          case '{' => token := Token(ObjectBegin, 1);
          case '}' => token := Token(ObjectEnd, 1);
          case ':' => token := Token(PairSeparator, 1);
          case _ =>
        }
      }
    }

    // ---------------------------------------------------------------------------------
    // Values
    // ---------------------------------------------------------------------------------

    /** The number a number token denotes. */
    method DecodeNumber(token: Token) returns (number: Option<Value>)
      requires Valid() && jsonPos + token.length <= |text|
      ensures number == NumberMeaning(text[jsonPos..jsonPos + token.length], CurrentRules())
    {
      var numString := text[jsonPos..jsonPos + token.length];
      var valid, numInt := StringToInt(numString, 4);
      if valid {
        return Some(Integer(numInt));
      }
      var numDouble := toDouble(numString);
      if numDouble.Some? {
        return Some(Double(numDouble.value));
      }
      return None;
    }

    /** After a list value or a member, a comma or the end is expected; a comma before the end
        is an error unless it is allowed.  Shared by the two container cases. */
    method ParseSeparator(closing: TokenType) returns (ok: bool, token: Token)
      requires Valid() && (closing == ArrayEnd || closing == ObjectEnd)
      modifies this`jsonPos, this`errorCode, this`errorLine, this`errorCol
      ensures Valid() && jsonPos >= old(jsonPos)
      ensures token == TokenAt(From(text, jsonPos)) && IsGapEnd(From(text, jsonPos))
      ensures match SeparatorAt(From(text, old(jsonPos)), closing, CurrentRules())
              case Fail(fault, unread) =>
                !ok && |text| == jsonPos + unread && Errors() == ErrorAfter(fault, old(Errors()), text, startPos)
              case End(t) =>
                ok && From(text, jsonPos) == t && token.kind == closing && TokenFault(t) == NoFault &&
                Errors() == old(Errors())
              case GoOn(t) =>
                ok && From(text, jsonPos) == t && token.kind != closing &&
                Errors() == ErrorAfter(TokenFault(t), old(Errors()), text, startPos)
    {
      hide AfterGap, TokenAt, TokenFault, From, IsGapEnd, LineColumn, Taken;
      ok := true;
      AfterGapIsGapEnd(From(text, jsonPos));
      token := ParseToken();
      if token.kind == ListSeparator {
        SeparatorStep(text, jsonPos);
        jsonPos := jsonPos + 1;
        AfterGapIsGapEnd(From(text, jsonPos));
        token := ParseToken();
        if token.kind == closing {
          SeparatorStep(text, jsonPos);
          if !allowTrailingComma {
            SetErrorCode(TrailingComma, jsonPos);
            ok := false;
          }
        }
      } else if token.kind != closing {
        ok := false;
      } else {
        SeparatorStep(text, jsonPos);
      }
    }

    /** A value of a container and what follows it, with the next token looked at.  `before` is
        what the error fields held before the value's own token was looked at. */
    method BuildElement(closing: TokenType, ghost before: ErrorInfo) returns (value: Option<Value>, token: Token)
      requires Valid() && (closing == ArrayEnd || closing == ObjectEnd) && IsGapEnd(From(text, jsonPos))
      requires Errors() == ErrorAfter(TokenFault(From(text, jsonPos)), before, text, startPos)
      modifies this`jsonPos, this`stackDepth, this`errorCode, this`errorLine, this`errorCol
      ensures Valid() && jsonPos >= old(jsonPos)
      ensures match ElementAt(From(text, old(jsonPos)), old(stackDepth), closing, CurrentRules())
              case NoElement(fault, unread) =>
                value == None && |text| == jsonPos + unread && Errors() == ErrorAfter(fault, before, text, startPos)
              case Element(v, t) =>
                value == Some(v) && From(text, jsonPos) == t && jsonPos > old(jsonPos) &&
                Errors() == ErrorAfter(TokenFault(t), before, text, startPos)
      ensures value.Some? ==> token == TokenAt(From(text, jsonPos)) && IsGapEnd(From(text, jsonPos))
      ensures if value.Some? then stackDepth == old(stackDepth) else stackDepth >= old(stackDepth)
      decreases |text| - jsonPos, 3
    {
      hide AfterGap, TokenAt, TokenFault, ParseValue, IsGapEnd, LineColumn, Taken, SeparatorAt;
      if TokenFault(From(text, jsonPos)).Fault? {
        FaultSurfaces(From(text, jsonPos), stackDepth, CurrentRules());
      }
      token := Token(InvalidToken, 0);
      value := BuildValue(false);
      if value.None? {
        return;
      }
      var ok;
      ok, token := ParseSeparator(closing);
      if !ok {
        value := None;
      }
    }

    /** The array case of `BuildValue`, from the opening bracket through the closing one. */
    method BuildArray() returns (v: Option<Value>)
      requires Valid() && jsonPos < |text| && 0 < stackDepth
      modifies this`jsonPos, this`stackDepth, this`errorCode, this`errorLine, this`errorCol
      ensures Valid() && jsonPos > old(jsonPos)
      ensures Yields(ParseItems(AfterGap(From(text, old(jsonPos) + 1)), old(stackDepth), [], CurrentRules()),
                     v, text, startPos, jsonPos, Errors(), old(Errors()))
      ensures if v.Some? then stackDepth == old(stackDepth) else stackDepth >= old(stackDepth)
      decreases |text| - jsonPos, 0
    {
      hide AfterGap, TokenAt, TokenFault, ParseItems, From, IsGapEnd, LineColumn, Taken, ElementAt;
      ghost var depth, rules := stackDepth, CurrentRules();
      ghost var start := From(text, jsonPos + 1);
      ghost var target := ParseItems(AfterGap(start), depth, [], rules);
      jsonPos := jsonPos + 1;
      var token := ParseToken();
      AfterGapIsGapEnd(start);
      var items: seq<Value> := [];
      while token.kind != ArrayEnd
        invariant Valid() && jsonPos > old(jsonPos) && stackDepth == depth
        invariant token == TokenAt(From(text, jsonPos)) && IsGapEnd(From(text, jsonPos))
        invariant Errors() == ErrorAfter(TokenFault(From(text, jsonPos)), old(Errors()), text, startPos)
        invariant ParseItems(From(text, jsonPos), depth, items, rules) == target
        decreases |text| - jsonPos
      {
        ItemsStep(From(text, jsonPos), depth, items, rules);
        var node;
        node, token := BuildElement(ArrayEnd, old(Errors()));
        if node.None? {
          return None;
        }
        items := items + [node.value];
      }
      ItemsStep(From(text, jsonPos), depth, items, rules);
      SeparatorStep(text, jsonPos);
      jsonPos := jsonPos + 1;
      return Some(List(items));
    }

    /** A member's key, its colon and a look at the token of its value. */
    method ParseKey(token: Token) returns (key: Option<string>)
      requires Valid() && token == TokenAt(From(text, jsonPos))
      modifies this`jsonPos, this`errorCode, this`errorLine, this`errorCol
      ensures Valid() && jsonPos >= old(jsonPos)
      ensures match KeyAt(From(text, old(jsonPos)))
              case NoKey(fault, unread) =>
                key == None && |text| == jsonPos + unread && Errors() == ErrorAfter(fault, old(Errors()), text, startPos)
              case Keyed(k, t) =>
                key == Some(k) && From(text, jsonPos) == t && jsonPos > old(jsonPos) &&
                Errors() == ErrorAfter(TokenFault(t), old(Errors()), text, startPos)
    {
      hide AfterGap, TokenAt, TokenFault, DecodeString, LineColumn, Taken, JsonTexts.IsStringText;
      if token.kind != StringToken {
        SetErrorCode(UnquotedDictionaryKey, jsonPos);
        return None;
      }
      key := DecodeStringToken(text, jsonPos, token);
      if key.None? {
        return None;
      }
      Advance(text, jsonPos, token.length);
      jsonPos := jsonPos + token.length;
      var next := ParseToken();
      if next.kind != PairSeparator {
        return None;
      }
      SeparatorStep(text, jsonPos);
      jsonPos := jsonPos + 1;
      next := ParseToken();
    }

    /** The object case of `BuildValue`, from the opening brace through the closing one. */
    method BuildObject() returns (v: Option<Value>)
      requires Valid() && jsonPos < |text| && 0 < stackDepth
      modifies this`jsonPos, this`stackDepth, this`errorCode, this`errorLine, this`errorCol
      ensures Valid() && jsonPos > old(jsonPos)
      ensures Yields(ParseMembers(AfterGap(From(text, old(jsonPos) + 1)), old(stackDepth), map[], CurrentRules()),
                     v, text, startPos, jsonPos, Errors(), old(Errors()))
      ensures if v.Some? then stackDepth == old(stackDepth) else stackDepth >= old(stackDepth)
      decreases |text| - jsonPos, 0
    {
      hide AfterGap, TokenAt, TokenFault, ParseMembers, From, IsGapEnd, LineColumn, Taken, ElementAt, KeyAt, SeparatorAt;
      ghost var depth, rules := stackDepth, CurrentRules();
      ghost var start := From(text, jsonPos + 1);
      ghost var target := ParseMembers(AfterGap(start), depth, map[], rules);
      jsonPos := jsonPos + 1;
      var token := ParseToken();
      var entries: map<string, Value> := map[];
      while token.kind != ObjectEnd
        invariant Valid() && jsonPos > old(jsonPos) && stackDepth == depth
        invariant token == TokenAt(From(text, jsonPos))
        invariant Errors() == ErrorAfter(TokenFault(From(text, jsonPos)), old(Errors()), text, startPos)
        invariant ParseMembers(From(text, jsonPos), depth, entries, rules) == target
        decreases |text| - jsonPos
      {
        ghost var here := From(text, jsonPos);
        MemberKeyStep(here, depth, entries, rules);
        var key := ParseKey(token);
        if key.None? {
          return None;
        }
        MemberValueStep(here, depth, entries, rules);
        var value;
        value, token := BuildElement(ObjectEnd, old(Errors()));
        if value.None? {
          return None;
        }
        entries := entries[key.value := value.value];
      }
      MemberKeyStep(From(text, jsonPos), depth, entries, rules);
      SeparatorStep(text, jsonPos);
      jsonPos := jsonPos + 1;
      return Some(Dictionary(entries));
    }

    /** The cases of `BuildValue` for values without parts. */
    method BuildAtom(token: Token) returns (v: Option<Value>)
      requires Valid() && token == TokenAt(From(text, jsonPos)) && !IsContainerStart(token.kind)
      modifies this`jsonPos
      ensures Valid() && jsonPos >= old(jsonPos)
      ensures match AtomAt(From(text, old(jsonPos)), CurrentRules())
              case Ok(value, rest) => v == Some(value) && From(text, jsonPos) == rest
              case Err(fault, unread) => v == None && jsonPos == old(jsonPos)
    {
      hide TokenAt, TokenFault, DecodeString, NumberMeaning, JsonTexts.IsStringText;
      match token.kind {
        case NullToken => v := Some(Null);
        case BoolTrue => v := Some(Boolean(true));
        case BoolFalse => v := Some(Boolean(false));
        case NumberToken =>
          assert text[jsonPos..jsonPos + token.length] == From(text, jsonPos)[..token.length];
          v := DecodeNumber(token);
        case StringToken =>
          var decoded := DecodeStringToken(text, jsonPos, token);
          v := if decoded.Some? then Some(String(decoded.value)) else None;
        case _ => v := None;
      }
      if v.Some? {
        Advance(text, jsonPos, token.length);
        jsonPos := jsonPos + token.length;
      }
    }

    /** The switch of `BuildValue`. */
    method BuildNode(token: Token, ghost before: ErrorInfo) returns (v: Option<Value>)
      requires Valid() && token == TokenAt(From(text, jsonPos)) && 0 < stackDepth
      requires Errors() == ErrorAfter(TokenFault(From(text, jsonPos)), before, text, startPos)
      modifies this`jsonPos, this`stackDepth, this`errorCode, this`errorLine, this`errorCol
      ensures Valid() && jsonPos >= old(jsonPos)
      ensures Yields(NodeAt(From(text, old(jsonPos)), old(stackDepth) - 1, CurrentRules()),
                     v, text, startPos, jsonPos, Errors(), before)
      ensures if v.Some? then stackDepth == old(stackDepth) else stackDepth >= old(stackDepth)
      decreases |text| - jsonPos, 1
    {
      hide AfterGap, TokenAt, TokenFault, ParseItems, ParseMembers, LineColumn, Taken, AtomAt, From;
      if token.kind == ArrayBegin {
        ContainerOpens(text, jsonPos);
        v := BuildArray();
      } else if token.kind == ObjectBegin {
        ContainerOpens(text, jsonPos);
        v := BuildObject();
      } else {
        v := BuildAtom(token);
      }
    }

    method BuildValue(isRoot: bool) returns (v: Option<Value>)
      requires Valid()
      modifies this`jsonPos, this`stackDepth, this`errorCode, this`errorLine, this`errorCol
      ensures Valid() && jsonPos >= old(jsonPos)
      ensures Yields(ParseValue(From(text, old(jsonPos)), old(stackDepth), isRoot, CurrentRules()),
                     v, text, startPos, jsonPos, Errors(), old(Errors()))
      ensures if v.Some? then stackDepth == old(stackDepth) else stackDepth > old(stackDepth)
      decreases |text| - jsonPos, 2
    {
      hide AfterGap, TokenAt, TokenFault, ParseValue, LineColumn, Taken, NodeAt, From;
      ValueStep(From(text, jsonPos), stackDepth, isRoot, CurrentRules());
      stackDepth := stackDepth + 1;
      if stackDepth > STACK_LIMIT {
        SetErrorCode(TooMuchNesting, jsonPos);
        return None;
      }
      var token := ParseToken();
      if isRoot && token.kind != ObjectBegin && token.kind != ArrayBegin {
        SetErrorCode(BadRootElementType, jsonPos);
        return None;
      }
      v := BuildNode(token, old(Errors()));
      if v.Some? {
        stackDepth := stackDepth - 1;
      }
    }

    /** `JsonToValue` from the start position on. */
    method BuildDocument(checkRoot: bool) returns (v: Option<Value>)
      requires startPos == jsonPos == MarkLength(text) && stackDepth == 0 && errorCode == NoError
      modifies this`jsonPos, this`stackDepth, this`errorCode, this`errorLine, this`errorCol
      ensures Valid()
      ensures Reports(ParseDocument(text, checkRoot, CurrentRules()), v, text, Errors())
      ensures v.Some? ==> stackDepth == 0
    {
      hide AfterGap, TokenAt, TokenFault, ParseValue, LineColumn, Taken, From;
      MarkAt(text);
      var root := BuildValue(checkRoot);
      if root.Some? {
        var token := ParseToken();
        if token.kind == EndOfInput {
          EndHasNoFault(From(text, jsonPos));
          return root;
        } else {
          SetErrorCode(UnexpectedDataAfterRoot, jsonPos);
        }
      }
      if errorCode == NoError {
        SetErrorCode(SyntaxError, jsonPos);
      }
      return None;
    }

    /** Reads a whole text.  The result is the value the grammar gives the text, if it gives
        one within the depth limit; the error fields tell where reading stopped. */
    method JsonToValue(json: string, checkRoot: bool, allowTrailingComma: bool) returns (v: Option<Value>)
      modifies this
      ensures Valid() && text == json && CurrentRules() == Rules(allowTrailingComma, toDouble)
      ensures Reports(ParseDocument(json, checkRoot, Rules(allowTrailingComma, toDouble)), v, json, Errors())
      ensures v.Some? ==> exists doc :: Derives(doc, json, v.value, checkRoot, Rules(allowTrailingComma, toDouble))
      ensures v.None? ==> forall doc, w :: !Derives(doc, json, w, checkRoot, Rules(allowTrailingComma, toDouble))
      ensures v.Some? ==> stackDepth == 0
      ensures forall w :: v == Some(w) <==>
        JsonTexts.IsDocumentOf(json, w, STACK_LIMIT, Rules(allowTrailingComma, toDouble)) && (checkRoot ==> w.List? || w.Dictionary?)
    {
      hide JsonTexts.IsDocumentOf, Derives, ParseDocument, LineColumn, Taken, MarkLength;
      text := json;
      startPos := 0;
      if |json| >= 3 && json[0] == 0xEF as char && json[1] == 0xBB as char && json[2] == 0xBF as char {
        startPos := startPos + 3;
      }
      MarkAt(json);
      jsonPos := startPos;
      this.allowTrailingComma := allowTrailingComma;
      stackDepth := 0;
      errorCode := NoError;
      v := BuildDocument(checkRoot);
      WholeText(json, checkRoot, Rules(allowTrailingComma, toDouble));
      ghost var rules := Rules(allowTrailingComma, toDouble);
      forall w ensures v == Some(w) <==>
          JsonTexts.IsDocumentOf(json, w, STACK_LIMIT, rules) && (checkRoot ==> w.List? || w.Dictionary?)
      {
        JsonTexts.ReaderMatchesTexts(json, w, checkRoot, rules);
      }
    }
  }
}
