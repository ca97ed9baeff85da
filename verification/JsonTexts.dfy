/** What JSON texts mean by their characters alone, and the proof that the reader of
    src/chromium/json/json_reader.cc finds that meaning.

    Nothing here refers to the meanings of the grammar: the texts of a value are described from the
    value on, each character of a string in any of its forms.
  */
module JsonTexts {
  import opened JsonGrammar
  import opened JsonParser
  import opened JsonTheorems
  import opened NumberConversions
  import opened ValueTree
  import opened Wrappers

  // ---------------------------------------------------------------------------------
  // Strings
  // ---------------------------------------------------------------------------------

  /** A hexadecimal digit, of either case, and its value. */
  predicate IsNibble(c: char, v: int) {
    var code := c as int;
    || (48 <= code <= 57 && v == code - 48)
    || (65 <= code <= 70 && v == code - 55)
    || (97 <= code <= 102 && v == code - 87)
  }

  /** The letter of a one-letter escape for a character: `"`, `\`, `/`, and 8 to 13 as `b`, `t`, `n`,
      `v`, `f` and `r`. */
  predicate IsLetterFor(letter: char, code: int) {
    match code
    case 34 => letter == '"'
    case 92 => letter == '\\'
    case 47 => letter == '/'
    case 8 => letter == 'b'
    case 9 => letter == 't'
    case 10 => letter == 'n'
    case 11 => letter == 'v'
    case 12 => letter == 'f'
    case 13 => letter == 'r'
    case _ => false
  }

  /** A way to write a character inside a string: as it is, with one letter, or with two digits. */
  predicate StandsFor(unit: string, c: char) {
    || (unit == [c] && c != '"' && c != '\\')
    || (|unit| == 2 && unit[0] == '\\' && IsLetterFor(unit[1], c as int))
    || (|unit| == 4 && unit[0] == '\\' && unit[1] == 'x' && IsNibble(unit[2], c as int / 16) && IsNibble(unit[3], c as int % 16))
  }

  function Concat(units: seq<string>): string {
    if units == [] then "" else units[0] + Concat(units[1..])
  }

  predicate AreUnitsOf(units: seq<string>, s: string) {
    |units| == |s| && forall i :: 0 <= i < |s| ==> StandsFor(units[i], s[i])
  }

  /** A string token of a string. */
  ghost predicate IsStringText(text: string, s: string) {
    exists units: seq<string> :: AreUnitsOf(units, s) && text == "\"" + (Concat(units) + "\"")
  }

  lemma NibbleIs(c: char, v: int)
    ensures IsNibble(c, v) <==> IsHexDigit(c) && HexValue(c) == v
  {
  }

  lemma LetterIs(letter: char, c: char)
    ensures IsLetterFor(letter, c as int) <==> IsEscapeLetter(letter) && EscapeMeaning(letter) == c
  {
  }

  lemma PieceStandsFor(p: Piece)
    requires p.Valid()
    ensures StandsFor(p.Text(), p.Meaning())
  {
    match p {
      case Raw(c) =>
      case Escape(letter) => LetterIs(letter, p.Meaning());
      case Hex(high, low) =>
        NibbleIs(high, HexValue(high));
        NibbleIs(low, HexValue(low));
    }
  }

  lemma PieceOf(unit: string, c: char) returns (p: Piece)
    requires StandsFor(unit, c)
    ensures p.Valid() && p.Text() == unit && p.Meaning() == c
  {
    if unit == [c] && c != '"' && c != '\\' {
      p := Raw(c);
    } else if |unit| == 2 {
      LetterIs(unit[1], c);
      p := Escape(unit[1]);
      assert unit == [unit[0], unit[1]];
    } else {
      NibbleIs(unit[2], c as int / 16);
      NibbleIs(unit[3], c as int % 16);
      p := Hex(unit[2], unit[3]);
      assert unit == [unit[0], unit[1], unit[2], unit[3]];
    }
  }

  lemma {:induction false} UnitsOfPieces(pieces: seq<Piece>) returns (units: seq<string>)
    requires ValidPieces(pieces)
    ensures AreUnitsOf(units, PiecesMeaning(pieces)) && Concat(units) == PiecesText(pieces)
  {
    hide Piece.Valid, Piece.Text, Piece.Meaning, StandsFor;
    if pieces == [] {
      units := [];
    } else {
      var more := UnitsOfPieces(pieces[1..]);
      PieceStandsFor(pieces[0]);
      units := [pieces[0].Text()] + more;
      assert units[1..] == more;
    }
  }

  lemma {:induction false} PiecesOfUnits(units: seq<string>, s: string) returns (pieces: seq<Piece>)
    requires AreUnitsOf(units, s)
    ensures ValidPieces(pieces) && PiecesMeaning(pieces) == s && PiecesText(pieces) == Concat(units)
  {
    hide Piece.Valid, Piece.Text, Piece.Meaning, StandsFor;
    if units == [] {
      pieces := [];
    } else {
      var more := PiecesOfUnits(units[1..], s[1..]);
      var p := PieceOf(units[0], s[0]);
      pieces := [p] + more;
      assert pieces[1..] == more;
    }
  }

  lemma PiecesOfText(text: string, s: string) returns (pieces: seq<Piece>)
    requires IsStringText(text, s)
    ensures ValidPieces(pieces) && PiecesMeaning(pieces) == s && Quoted(pieces) == text
  {
    hide AreUnitsOf, ValidPieces, PiecesMeaning, PiecesText, Concat;
    var units: seq<string> :| AreUnitsOf(units, s) && text == "\"" + (Concat(units) + "\"");
    pieces := PiecesOfUnits(units, s);
    assert "\"" + (Concat(units) + "\"") == "\"" + Concat(units) + "\"";
  }

  /** The decoder finds what the token stands for, and nothing exactly if it stands for nothing. */
  lemma DecodeStringIs(t: string, s: string)
    requires TokenAt(t).kind == StringToken
    ensures DecodeString(t) == Some(s) <==> IsStringText(t[..TokenAt(t).length], s)
  {
    hide TokenAt, DecodeString, DecodePieces, PiecesText, PiecesMeaning, ValidPieces, Quoted, AreUnitsOf, IsStringText;
    var n := TokenAt(t).length;
    if DecodeString(t) == Some(s) {
      var pieces := StringTokenSound(t);
      assert t[..n] == Quoted(pieces);
      QuotedIsText(pieces);
    }
    if IsStringText(t[..n], s) {
      var pieces := PiecesOfText(t[..n], s);
      ValidPiecesAreWellFormed(pieces);
      QuotedEnds(pieces, t[n..]);
      assert t == t[..n] + t[n..];
    }
  }

  lemma ValidPiecesAreWellFormed(pieces: seq<Piece>)
    requires ValidPieces(pieces)
    ensures WellFormedPieces(pieces)
  {
  }

  lemma QuotedIsText(pieces: seq<Piece>)
    requires ValidPieces(pieces)
    ensures IsStringText(Quoted(pieces), PiecesMeaning(pieces))
  {
    hide AreUnitsOf, ValidPieces, PiecesMeaning, PiecesText, Concat;
    var units := UnitsOfPieces(pieces);
    assert Quoted(pieces) == "\"" + (Concat(units) + "\"");
  }

  // ---------------------------------------------------------------------------------
  // Gaps
  // ---------------------------------------------------------------------------------

  predicate EndsLine(c: char) {
    c as int == 10 || c as int == 13
  }

  /** A tab, a line feed, a carriage return, a blank, or a comment of either kind with its end. */
  predicate IsGapUnit(u: string) {
    || (|u| == 1 && (u[0] as int == 9 || u[0] as int == 32 || EndsLine(u[0])))
    || (|u| > 2 && u[..2] == "//" && EndsLine(u[|u| - 1]) && forall i :: 2 <= i < |u| - 1 ==> !EndsLine(u[i]))
    || (|u| > 3 && u[..2] == "/*" && u[|u| - 2..] == "*/"
        && forall i :: 2 <= i < |u| - 3 ==> !(u[i] == '*' && u[i + 1] == '/'))
  }

  predicate AreGapUnits(units: seq<string>) {
    forall i :: 0 <= i < |units| ==> IsGapUnit(units[i])
  }

  ghost predicate IsGapText(g: string) {
    exists units: seq<string> :: AreGapUnits(units) && g == Concat(units)
  }

  lemma FillerOf(u: string) returns (filler: Filler)
    requires IsGapUnit(u)
    ensures filler.Valid() && filler.Text() == u
  {
    if |u| == 1 {
      filler := Blank(u[0]);
    } else if u[..2] == "//" {
      filler := LineComment(u[2..|u| - 1], u[|u| - 1]);
      assert u == u[..2] + u[2..|u| - 1] + [u[|u| - 1]];
    } else {
      filler := BlockComment(u[2..|u| - 2]);
      assert u == u[..2] + u[2..|u| - 2] + u[|u| - 2..];
    }
  }

  lemma {:induction false} GapOfUnits(units: seq<string>) returns (gap: Gap)
    requires AreGapUnits(units)
    ensures ValidGap(gap) && GapText(gap) == Concat(units)
  {
    hide IsGapUnit, Filler.Valid, Filler.Text;
    if units == [] {
      gap := [];
    } else {
      var filler := FillerOf(units[0]);
      var more := GapOfUnits(units[1..]);
      gap := [filler] + more;
      assert gap[1..] == more;
    }
  }

  lemma GapOf(g: string) returns (gap: Gap)
    requires IsGapText(g)
    ensures ValidGap(gap) && GapText(gap) == g
  {
    hide AreGapUnits, Concat, ValidGap, GapText;
    var units: seq<string> :| AreGapUnits(units) && g == Concat(units);
    gap := GapOfUnits(units);
  }

  lemma NoGap()
    ensures IsGapText("")
  {
    assert AreGapUnits([]) && Concat([]) == "";
  }

  // ---------------------------------------------------------------------------------
  // Values
  // ---------------------------------------------------------------------------------

  datatype Entry = Entry(key: string, value: Value)

  /** The entries of a list of members; of members with one key the last one counts. */
  function Entries(members: seq<Entry>): map<string, Value> {
    if members == [] then map[]
    else
      var last := members[|members| - 1];
      Entries(members[..|members| - 1])[last.key := last.value]
  }

  predicate AreDigits(s: string) {
    s != "" && forall i :: 0 <= i < |s| ==> '0' <= s[i] <= '9'
  }

  predicate IsFractionText(s: string) {
    s == "" || (s[0] == '.' && AreDigits(s[1..]))
  }

  predicate IsExponentText(s: string) {
    s == "" || ((s[0] == 'e' || s[0] == 'E') && (AreDigits(s[1..]) || (|s| > 1 && (s[1] == '+' || s[1] == '-') && AreDigits(s[2..]))))
  }

  /** Section 2.4 of RFC 4627: an optional minus, digits that do not start with a zero unless it is
      alone, an optional fraction and an optional exponent. */
  predicate AreNumberParts(minus: string, whole: string, fraction: string, exponent: string) {
    && (minus == "" || minus == "-") && AreDigits(whole) && (whole[0] == '0' ==> |whole| == 1)
    && IsFractionText(fraction) && IsExponentText(exponent)
  }

  ghost predicate IsNumberText(text: string) {
    exists minus, whole, fraction, exponent ::
      AreNumberParts(minus, whole, fraction, exponent) && text == minus + whole + fraction + exponent
  }

  lemma ExponentIsText(x: Exponent)
    requires (x.mark == 'e' || x.mark == 'E') && (x.sign == "" || x.sign == "+" || x.sign == "-") && IsDigits(x.digits)
    ensures IsExponentText([x.mark] + x.sign + x.digits)
  {
    var s := [x.mark] + x.sign + x.digits;
    assert s[1..] == x.sign + x.digits;
    if x.sign == "" {
      assert s[1..] == x.digits;
    } else {
      assert s[2..] == x.digits;
    }
  }

  lemma FractionIsText(digits: string)
    requires IsDigits(digits)
    ensures IsFractionText("." + digits)
  {
    assert ("." + digits)[1..] == digits;
  }

  lemma NumberIsText(number: Number)
    requires number.Valid()
    ensures IsNumberText(number.Text())
  {
    hide IsExponentText, IsFractionText;
    if number.exponent.Some? { ExponentIsText(number.exponent.value); } else { NothingIsText(); }
    if number.fraction.Some? { FractionIsText(number.fraction.value); } else { NothingIsText(); }
    assert AreNumberParts(if number.minus then "-" else "", number.whole, number.FractionText(), number.ExponentText());
  }

  lemma NothingIsText()
    ensures IsFractionText("") && IsExponentText("")
  {
  }

  lemma ExponentOf(s: string) returns (exponent: Option<Exponent>)
    requires IsExponentText(s)
    ensures exponent.Some? ==>
      && (exponent.value.mark == 'e' || exponent.value.mark == 'E')
      && (exponent.value.sign == "" || exponent.value.sign == "+" || exponent.value.sign == "-")
      && IsDigits(exponent.value.digits)
    ensures s == if exponent.Some? then [exponent.value.mark] + exponent.value.sign + exponent.value.digits else ""
  {
    if s == "" {
      exponent := None;
    } else if AreDigits(s[1..]) {
      exponent := Some(Exponent(s[0], "", s[1..]));
      assert s == [s[0]] + "" + s[1..];
    } else {
      exponent := Some(Exponent(s[0], [s[1]], s[2..]));
      assert s == [s[0]] + [s[1]] + s[2..];
    }
  }

  lemma NumberOf(text: string) returns (number: Number)
    requires IsNumberText(text)
    ensures number.Valid() && number.Text() == text
  {
    hide IsExponentText;
    var minus, whole, fraction, exponent :|
      AreNumberParts(minus, whole, fraction, exponent) && text == minus + whole + fraction + exponent;
    var x := ExponentOf(exponent);
    number := Number(minus == "-", whole, if fraction == "" then None else Some(fraction[1..]), x);
    if fraction != "" { assert fraction == "." + fraction[1..]; }
  }

  /** A text of a value of at most `n` levels: strings in any of their forms, gaps around every token,
      members in any order, and a comma behind the last part if the rules say so. */
  ghost predicate IsTextOf(text: string, v: Value, n: nat, rules: Rules)
    decreases n, 2, 0
  {
    n > 0 &&
    match v
    case Null => text == "null"
    case Boolean(b) => text == if b then "true" else "false"
    case Integer(i) => IsNumberText(text) && ParsedInt(text, 4) == Some(i)
    case Double(r) => IsNumberText(text) && ParsedInt(text, 4) == None && rules.toDouble(text) == Some(r)
    case String(s) => IsStringText(text, s)
    case List(items) => exists body: string :: text == "[" + (body + "]") && IsItemsText(body, items, n - 1, rules)
    case Dictionary(entries) =>
      exists body: string, members: seq<Entry> ::
        text == "{" + (body + "}") && entries == Entries(members) && IsMembersText(body, members, n - 1, rules)
  }

  /** A text of a value, with gaps before and after. */
  ghost predicate IsPadded(text: string, v: Value, n: nat, rules: Rules)
    decreases n, 3, 0
  {
    exists before, body, after ::
      text == before + (body + after) && IsGapText(before) && IsGapText(after) && IsTextOf(body, v, n, rules)
  }

  /** The last part, with a comma and a gap behind it or not. */
  ghost predicate EndsWith(text: string, last: string, rules: Rules) {
    text == last || (rules.trailingComma && exists gap :: IsGapText(gap) && text == last + ("," + gap))
  }

  ghost predicate IsItemsText(text: string, items: seq<Value>, n: nat, rules: Rules)
    decreases n, 4, |items|
  {
    if items == [] then IsGapText(text)
    else if |items| == 1 then exists last :: EndsWith(text, last, rules) && IsPadded(last, items[0], n, rules)
    else
      exists first, rest ::
        text == first + ("," + rest) && IsPadded(first, items[0], n, rules) && IsItemsText(rest, items[1..], n, rules)
  }

  /** A key and a value with a colon between them. */
  ghost predicate IsMemberText(text: string, m: Entry, n: nat, rules: Rules)
    decreases n, 4, 0
  {
    exists before, key, after, value ::
      && text == before + (key + (after + (":" + value))) && IsGapText(before) && IsGapText(after) && IsStringText(key, m.key)
      && IsPadded(value, m.value, n, rules)
  }

  ghost predicate IsMembersText(text: string, members: seq<Entry>, n: nat, rules: Rules)
    decreases n, 5, |members|
  {
    if members == [] then IsGapText(text)
    else if |members| == 1 then exists last :: EndsWith(text, last, rules) && IsMemberText(last, members[0], n, rules)
    else
      exists first, rest ::
        text == first + ("," + rest) && IsMemberText(first, members[0], n, rules) && IsMembersText(rest, members[1..], n, rules)
  }

  // ---------------------------------------------------------------------------------
  // Every such text is one of the grammar
  // ---------------------------------------------------------------------------------

  lemma IntIsNumberText(i: int)
    ensures IsNumberText(IntText(i))
  {
    hide NatText, DecimalValue;
    var minus, digits := if i < 0 then "-" else "", NatText(Abs(i));
    NatTextValue(Abs(i));
    assert AreNumberParts(minus, digits, "", "");
    assert minus + digits + "" + "" == minus + digits;
    assert "" + digits == digits;
  }

  /** The shortest decimal text of a 32-bit integer is one of its texts. */
  lemma IntIsText(i: int, n: nat, rules: Rules)
    requires -0x8000_0000 <= i < 0x8000_0000 && n > 0
    ensures IsTextOf(IntText(i), Integer(i), n, rules)
  {
    hide IsNumberText, ParsedInt, IntText;
    IntIsNumberText(i);
    IntTextRoundTrip(i, 4);
  }

  lemma {:induction false} EntriesFirst(members: seq<Entry>)
    requires members != []
    ensures Entries(members) == map[members[0].key := members[0].value] + Entries(members[1..])
  {
    var front, last := members[..|members| - 1], members[|members| - 1];
    if |members| == 1 {
      assert front == [] && members[1..] == [];
    } else {
      EntriesFirst(front);
      assert members[1..][..|members| - 2] == front[1..];
    }
  }

  lemma Push(a: string, b: string, t: string)
    ensures (a + b) + t == a + (b + t)
  {
  }

  lemma {:induction false} NodeOf(text: string, v: Value, n: nat, rules: Rules) returns (node: Node)
    requires IsTextOf(text, v, n, rules)
    ensures ValidNode(node, rules) && NodeText(node) == text && NodeMeaning(node, rules) == v && NodeDepth(node) <= n
    decreases n, 2, 0
  {
    hide IsStringText, IsNumberText, ValidPieces, PiecesMeaning, Quoted, IsItemsText, IsMembersText, IntText, Number.Valid, Number.Text, ParsedInt,
         ValidItems, ValidMembers, ItemsMeaning, MembersMeaning, ItemsText, MembersText, ItemsDepth, MembersDepth, Entries, GapText,
         ValidGap;
    match v {
      case Null => node := NullNode;
      case Boolean(b) => node := if b then TrueNode else FalseNode;
      case Integer(i) =>
        var number := NumberOf(text);
        node := NumberNode(number);
      case Double(r) =>
        var number := NumberOf(text);
        node := NumberNode(number);
      case String(s) =>
        var pieces := PiecesOfText(text, s);
        node := StringNode(pieces);
      case List(items) =>
        var body: string :| text == "[" + (body + "]") && IsItemsText(body, items, n - 1, rules);
        var lead, nodes := ItemsOf(body, items, n - 1, rules);
        node := ArrayNode(lead, nodes);
      case Dictionary(entries) =>
        var body: string, members: seq<Entry> :|
          text == "{" + (body + "}") && entries == Entries(members) && IsMembersText(body, members, n - 1, rules);
        var lead, nodes := MembersOf(body, members, map[], n - 1, rules);
        node := ObjectNode(lead, nodes);
        assert map[] + entries == entries;
    }
  }

  lemma {:induction false} PaddedNode(text: string, v: Value, n: nat, rules: Rules) returns (lead: Gap, node: Node, after: Gap)
    requires IsPadded(text, v, n, rules)
    ensures ValidGap(lead) && ValidGap(after) && text == GapText(lead) + (NodeText(node) + GapText(after))
    ensures ValidNode(node, rules) && NodeMeaning(node, rules) == v && NodeDepth(node) <= n
    decreases n, 3, 0
  {
    hide IsTextOf, IsGapText, ValidNode, NodeMeaning, NodeText, NodeDepth, ValidGap, GapText;
    var before, body, behind :|
      text == before + (body + behind) && IsGapText(before) && IsGapText(behind) && IsTextOf(body, v, n, rules);
    lead := GapOf(before);
    node := NodeOf(body, v, n, rules);
    after := GapOf(behind);
  }

  /** What follows the last part: nothing, or a comma and a gap. */
  lemma AfterLast(text: string, last: string, rules: Rules) returns (comma: bool, gap: Gap)
    requires EndsWith(text, last, rules)
    ensures ValidGap(gap) && text == last + SeparatorText(comma, gap) && (comma ==> rules.trailingComma) && (!comma ==> gap == [])
  {
    hide IsGapText, GapText;
    if text == last {
      comma, gap := false, [];
      assert last + "" == last;
    } else {
      var g :| IsGapText(g) && text == last + ("," + g);
      comma := true;
      gap := GapOf(g);
    }
  }

  lemma ItemPlaced(first: string, lead: Gap, node: Node, after: Gap, comma: bool, gap: Gap, rest: Items, rules: Rules)
    requires first == GapText(lead) + (NodeText(node) + GapText(after))
    requires ValidNode(node, rules) && ValidGap(after) && ValidGap(gap) && ValidItems(rest, rules)
    requires (!comma ==> rest.NoItems? && gap == []) && (comma && rest.NoItems? ==> rules.trailingComma)
    ensures var items := Item(node, after, comma, gap, rest);
            && ValidItems(items, rules)
            && GapText(lead) + ItemsText(items) == first + (SeparatorText(comma, gap) + ItemsText(rest))
            && ItemsMeaning(items, rules) == [NodeMeaning(node, rules)] + ItemsMeaning(rest, rules)
            && ItemsDepth(items) == Max(NodeDepth(node), ItemsDepth(rest))
  {
    hide ValidNode, NodeMeaning, NodeText, NodeDepth, ValidGap, GapText, SeparatorText;
    var tail := SeparatorText(comma, gap) + ItemsText(rest);
    Push(GapText(lead), NodeText(node) + GapText(after), tail);
    Push(NodeText(node), GapText(after), tail);
  }

  lemma NoItemsHere(rules: Rules)
    ensures ValidItems(NoItems, rules) && ItemsText(NoItems) == "]" && ItemsMeaning(NoItems, rules) == [] && ItemsDepth(NoItems) == 0
  {
  }

  lemma {:induction false} ItemsOf(text: string, items: seq<Value>, n: nat, rules: Rules) returns (lead: Gap, nodes: Items)
    requires IsItemsText(text, items, n, rules)
    ensures ValidGap(lead) && ValidItems(nodes, rules) && GapText(lead) + ItemsText(nodes) == text + "]"
    ensures ItemsMeaning(nodes, rules) == items && ItemsDepth(nodes) <= n && (items != [] ==> nodes.Item?)
    decreases n, 4, |items|
  {
    hide ValidNode, NodeMeaning, NodeText, NodeDepth, ItemsText, ValidItems, ItemsMeaning, ItemsDepth, ValidGap, GapText, IsGapText,
         IsPadded, EndsWith;
    NoItemsHere(rules);
    if items == [] {
      lead := GapOf(text);
      nodes := NoItems;
    } else if |items| == 1 {
      var last :| EndsWith(text, last, rules) && IsPadded(last, items[0], n, rules);
      var node, after;
      lead, node, after := PaddedNode(last, items[0], n, rules);
      var comma, gap := AfterLast(text, last, rules);
      nodes := Item(node, after, comma, gap, NoItems);
      ItemPlaced(last, lead, node, after, comma, gap, NoItems, rules);
      Push(last, SeparatorText(comma, gap), "]");
      assert items == [items[0]] + [];
    } else {
      var first, rest :|
        text == first + ("," + rest) && IsPadded(first, items[0], n, rules) && IsItemsText(rest, items[1..], n, rules);
      var node, after;
      lead, node, after := PaddedNode(first, items[0], n, rules);
      var gap, more := ItemsOf(rest, items[1..], n, rules);
      nodes := Item(node, after, true, gap, more);
      ItemPlaced(first, lead, node, after, true, gap, more, rules);
      CommaBetween(first, gap, ItemsText(more), rest, "]");
      assert items == [items[0]] + items[1..];
    }
  }

  lemma CommaBetween(first: string, gap: Gap, more: string, rest: string, end: string)
    requires GapText(gap) + more == rest + end
    ensures first + (SeparatorText(true, gap) + more) == (first + ("," + rest)) + end
  {
    hide GapText;
    Push(",", GapText(gap), more);
    Push(first, "," + rest, end);
    Push(",", rest, end);
  }

  /** The parts of a member. */
  lemma {:induction false} MemberParts(text: string, m: Entry, n: nat, rules: Rules)
    returns (lead: Gap, key: seq<Piece>, beforeColon: Gap, afterColon: Gap, node: Node, after: Gap)
    requires IsMemberText(text, m, n, rules)
    ensures ValidGap(lead) && ValidGap(beforeColon) && ValidGap(afterColon) && ValidGap(after)
    ensures text == MemberFront(lead, key, beforeColon, afterColon) + (NodeText(node) + GapText(after))
    ensures ValidPieces(key) && PiecesMeaning(key) == m.key
    ensures ValidNode(node, rules) && NodeMeaning(node, rules) == m.value && NodeDepth(node) <= n
    decreases n, 4, 0
  {
    hide IsPadded, IsGapText, IsStringText, ValidNode, NodeMeaning, NodeText, NodeDepth, ValidGap, GapText, ValidPieces, PiecesMeaning,
         Quoted;
    var before, keyText, behind, value :|
      && text == before + (keyText + (behind + (":" + value))) && IsGapText(before) && IsGapText(behind) && IsStringText(keyText, m.key)
      && IsPadded(value, m.value, n, rules);
    lead := GapOf(before);
    key := PiecesOfText(keyText, m.key);
    beforeColon := GapOf(behind);
    afterColon, node, after := PaddedNode(value, m.value, n, rules);
    var rest := NodeText(node) + GapText(after);
    FrontAndRest(before, keyText, behind, GapText(afterColon), rest);
  }

  /** What stands before the value of a member. */
  function MemberFront(lead: Gap, key: seq<Piece>, beforeColon: Gap, afterColon: Gap): string {
    GapText(lead) + (Quoted(key) + (GapText(beforeColon) + (":" + GapText(afterColon))))
  }

  lemma FrontAndRest(a: string, k: string, b: string, c: string, rest: string)
    ensures (a + (k + (b + (":" + c)))) + rest == a + (k + (b + (":" + (c + rest))))
  {
    Push(a, k + (b + (":" + c)), rest);
    Push(k, b + (":" + c), rest);
    Push(b, ":" + c, rest);
    Push(":", c, rest);
  }

  lemma MemberPlaced(lead: Gap, key: seq<Piece>, beforeColon: Gap, afterColon: Gap, node: Node, after: Gap, comma: bool, gap: Gap,
                     rest: Members)
    ensures GapText(lead) + MembersText(Member(key, beforeColon, afterColon, node, after, comma, gap, rest)) ==
            (MemberFront(lead, key, beforeColon, afterColon) + (NodeText(node) + GapText(after)))
            + (SeparatorText(comma, gap) + MembersText(rest))
  {
    hide NodeText, GapText, Quoted, SeparatorText;
    var tail := SeparatorText(comma, gap) + MembersText(rest);
    var front := MemberFront(lead, key, beforeColon, afterColon);
    Push(front, NodeText(node) + GapText(after), tail);
    Push(NodeText(node), GapText(after), tail);
    FrontAndRest(GapText(lead), Quoted(key), GapText(beforeColon), GapText(afterColon), NodeText(node) + (GapText(after) + tail));
  }

  lemma MemberMeans(key: seq<Piece>, beforeColon: Gap, afterColon: Gap, node: Node, after: Gap, comma: bool, gap: Gap,
                    rest: Members, before: map<string, Value>, rules: Rules)
    requires ValidPieces(key) && ValidGap(beforeColon) && ValidGap(afterColon)
    requires ValidNode(node, rules) && ValidGap(after) && ValidGap(gap) && ValidMembers(rest, rules)
    requires (!comma ==> rest.NoMembers? && gap == []) && (comma && rest.NoMembers? ==> rules.trailingComma)
    ensures var members := Member(key, beforeColon, afterColon, node, after, comma, gap, rest);
            && ValidMembers(members, rules)
            && MembersMeaning(members, before, rules) ==
               MembersMeaning(rest, before[PiecesMeaning(key) := NodeMeaning(node, rules)], rules)
            && MembersDepth(members) == Max(NodeDepth(node), MembersDepth(rest))
  {
    hide ValidNode, NodeMeaning, NodeDepth, ValidPieces, PiecesMeaning, ValidGap;
  }

  lemma NoMembersHere(before: map<string, Value>, rules: Rules)
    ensures ValidMembers(NoMembers, rules) && MembersText(NoMembers) == "}" && MembersMeaning(NoMembers, before, rules) == before
    ensures MembersDepth(NoMembers) == 0
  {
  }

  lemma {:induction false} MembersOf(text: string, members: seq<Entry>, before: map<string, Value>, n: nat, rules: Rules)
    returns (lead: Gap, nodes: Members)
    requires IsMembersText(text, members, n, rules)
    ensures ValidGap(lead) && ValidMembers(nodes, rules) && GapText(lead) + MembersText(nodes) == text + "}"
    ensures MembersMeaning(nodes, before, rules) == before + Entries(members) && MembersDepth(nodes) <= n
    ensures members != [] ==> nodes.Member?
    decreases n, 5, |members|
  {
    hide ValidNode, NodeMeaning, NodeText, NodeDepth, MembersText, ValidMembers, MembersMeaning, MembersDepth, ValidGap, GapText,
         IsGapText, IsMemberText, EndsWith, ValidPieces, PiecesMeaning, MemberFront, Entries;
    EntriesStep(members, before);
    if members == [] {
      lead := GapOf(text);
      nodes := NoMembers;
      NoMembersHere(before, rules);
    } else {
      var m := members[0];
      var more := before[m.key := m.value];
      var key, beforeColon, afterColon, node, after;
      if |members| == 1 {
        var last :| EndsWith(text, last, rules) && IsMemberText(last, m, n, rules);
        lead, key, beforeColon, afterColon, node, after := MemberParts(last, m, n, rules);
        var comma, gap := AfterLast(text, last, rules);
        nodes := Member(key, beforeColon, afterColon, node, after, comma, gap, NoMembers);
        NoMembersHere(more, rules);
        MemberMeans(key, beforeColon, afterColon, node, after, comma, gap, NoMembers, before, rules);
        MemberPlaced(lead, key, beforeColon, afterColon, node, after, comma, gap, NoMembers);
        Push(last, SeparatorText(comma, gap), "}");
        assert more + map[] == more;
      } else {
        var first, rest :|
          text == first + ("," + rest) && IsMemberText(first, m, n, rules) && IsMembersText(rest, members[1..], n, rules);
        lead, key, beforeColon, afterColon, node, after := MemberParts(first, m, n, rules);
        var gap, others := MembersOf(rest, members[1..], more, n, rules);
        nodes := Member(key, beforeColon, afterColon, node, after, true, gap, others);
        MemberMeans(key, beforeColon, afterColon, node, after, true, gap, others, before, rules);
        MemberPlaced(lead, key, beforeColon, afterColon, node, after, true, gap, others);
        CommaBetween(first, gap, MembersText(others), rest, "}");
      }
    }
  }

  lemma NoEntries()
    ensures Entries([]) == map[]
  {
  }

  lemma EntriesStep(members: seq<Entry>, before: map<string, Value>)
    ensures members == [] ==> before + Entries(members) == before
    ensures members != [] ==> before + Entries(members) == before[members[0].key := members[0].value] + Entries(members[1..])
    ensures |members| == 1 ==> Entries(members[1..]) == map[]
  {
    hide Entries;
    NoEntries();
    if members != [] {
      EntriesFirst(members);
      AddFirst(before, members[0].key, members[0].value, Entries(members[1..]));
      if |members| == 1 { assert members[1..] == []; }
    }
  }

  lemma AddFirst(before: map<string, Value>, key: string, value: Value, more: map<string, Value>)
    ensures before + (map[key := value] + more) == before[key := value] + more
  {
  }

  // ---------------------------------------------------------------------------------
  // Whole texts
  // ---------------------------------------------------------------------------------

  const MARK: string := [0xEF as char, 0xBB as char, 0xBF as char]

  /** What is not looked at: anything from a NUL character on, or a comment without its end. */
  predicate IsIgnored(junk: string) {
    || junk == "" || junk[0] == '\0'
    || (|junk| > 1 && junk[..2] == "//" && forall i :: 2 <= i < |junk| ==> !EndsLine(junk[i]))
    || (|junk| > 1 && junk[..2] == "/*" && forall i :: 2 <= i < |junk| - 1 ==> !(junk[i] == '*' && junk[i + 1] == '/'))
  }

  /** A text of a value with gaps around it, after a byte-order mark or not. */
  ghost predicate IsDocumentOf(text: string, v: Value, n: nat, rules: Rules) {
    exists mark, body, junk ::
      text == mark + (body + junk) && (mark == "" || mark == MARK) && IsIgnored(junk) && IsPadded(body, v, n, rules)
  }

  lemma NoItemsText(n: nat, rules: Rules)
    ensures IsItemsText("", [], n, rules)
  {
    NoGap();
  }

  lemma NextItemText(text: string, v: Value, rest: string, items: seq<Value>, n: nat, rules: Rules)
    requires IsPadded(text, v, n, rules) && items != [] && IsItemsText(rest, items, n, rules)
    ensures IsItemsText(text + ("," + rest), [v] + items, n, rules)
  {
    hide IsPadded;
    var all := [v] + items;
    assert all[0] == v && all[1..] == items;
    assert IsPadded(text, all[0], n, rules) && IsItemsText(rest, all[1..], n, rules);
  }

  lemma NoMembersText(n: nat, rules: Rules)
    ensures IsMembersText("", [], n, rules)
  {
    NoGap();
  }

  lemma NextMemberText(text: string, m: Entry, rest: string, members: seq<Entry>, n: nat, rules: Rules)
    requires IsMemberText(text, m, n, rules) && members != [] && IsMembersText(rest, members, n, rules)
    ensures IsMembersText(text + ("," + rest), [m] + members, n, rules)
  {
    hide IsMemberText;
    var all := [m] + members;
    assert all[0] == m && all[1..] == members;
    assert IsMemberText(text, all[0], n, rules) && IsMembersText(rest, all[1..], n, rules);
  }

  /** A text without gaps around it. */
  lemma PlainIsPadded(text: string, v: Value, n: nat, rules: Rules)
    requires IsTextOf(text, v, n, rules)
    ensures IsPadded(text, v, n, rules)
  {
    hide IsTextOf;
    NoGap();
    assert text == "" + (text + "");
  }

  lemma PlainMember(key: string, value: string, m: Entry, n: nat, rules: Rules)
    requires IsStringText(key, m.key) && IsTextOf(value, m.value, n, rules)
    ensures IsMemberText(key + (":" + value), m, n, rules)
  {
    hide IsTextOf, IsStringText, IsPadded;
    NoGap();
    PlainIsPadded(value, m.value, n, rules);
    assert key + (":" + value) == "" + (key + ("" + (":" + value)));
  }

  lemma TailOf(junk: string) returns (tail: Tail)
    requires IsIgnored(junk)
    ensures tail.Valid() && tail.Text() == junk
  {
    if junk == "" {
      tail := EndOfText;
    } else if junk[0] == '\0' {
      tail := AfterNul(junk[1..]);
    } else {
      tail := if junk[..2] == "//" then OpenLine(junk[2..]) else OpenBlock(junk[2..]);
      assert junk == junk[..2] + junk[2..];
    }
  }

  lemma TailIsIgnored(tail: Tail)
    requires tail.Valid()
    ensures IsIgnored(tail.Text())
  {
    var junk := tail.Text();
    if tail.OpenLine? || tail.OpenBlock? {
      assert junk[2..] == if tail.OpenLine? then tail.line else tail.block;
    }
  }

  /** Every text of a value of at most 100 levels is read as that value. */
  lemma TextIsRead(text: string, v: Value, checkRoot: bool, rules: Rules)
    requires IsDocumentOf(text, v, STACK_LIMIT, rules) && (checkRoot ==> v.List? || v.Dictionary?)
    ensures ParseDocument(text, checkRoot, rules) == Success(v)
  {
    hide NodeText, ValidNode, NodeMeaning, NodeDepth, ParseDocument, IsPadded, GapText, ValidGap, IsIgnored;
    var mark, body, junk :|
      text == mark + (body + junk) && (mark == "" || mark == MARK) && IsIgnored(junk) && IsPadded(body, v, STACK_LIMIT, rules);
    var lead, node, trail := PaddedNode(body, v, STACK_LIMIT, rules);
    ContainerNode(node, rules);
    var tail := TailOf(junk);
    var doc := Document(mark == MARK, lead, node, trail, tail);
    Push(GapText(lead), NodeText(node) + GapText(trail), junk);
    Push(NodeText(node), GapText(trail), junk);
    assert doc.Body() == body + junk;
    assert doc.Text() == text;
    DocumentRead(doc, checkRoot, rules);
  }

  lemma ContainerNode(node: Node, rules: Rules)
    requires ValidNode(node, rules)
    ensures node.ArrayNode? || node.ObjectNode? <==> NodeMeaning(node, rules).List? || NodeMeaning(node, rules).Dictionary?
  {
  }

  // ---------------------------------------------------------------------------------
  // Every text of the grammar is one of these
  // ---------------------------------------------------------------------------------

  lemma FillerIsUnit(filler: Filler)
    requires filler.Valid()
    ensures IsGapUnit(filler.Text())
  {
    var u := filler.Text();
    match filler {
      case Blank(c) =>
      case LineComment(line, end) => assert u[..2] == "//" && u[2..|u| - 1] == line && u[|u| - 1] == end;
      case BlockComment(block) => assert u[..2] == "/*" && u[2..|u| - 2] == block && u[|u| - 2..] == "*/";
    }
  }

  lemma {:induction false} UnitsOfGap(gap: Gap) returns (units: seq<string>)
    requires ValidGap(gap)
    ensures AreGapUnits(units) && Concat(units) == GapText(gap)
  {
    hide IsGapUnit, Filler.Valid, Filler.Text;
    if gap == [] {
      units := [];
    } else {
      FillerIsUnit(gap[0]);
      var more := UnitsOfGap(gap[1..]);
      units := [gap[0].Text()] + more;
      assert units[1..] == more;
    }
  }

  lemma GapIsText(gap: Gap)
    requires ValidGap(gap)
    ensures IsGapText(GapText(gap))
  {
    var units := UnitsOfGap(gap);
  }

  lemma {:induction false} NodeIsText(node: Node, n: nat, rules: Rules)
    requires ValidNode(node, rules) && NodeDepth(node) <= n
    ensures IsTextOf(NodeText(node), NodeMeaning(node, rules), n, rules)
    decreases node, 1
  {
    hide IsStringText, IsNumberText, ValidPieces, PiecesMeaning, Quoted, IsItemsText, IsMembersText, Number.Valid, Number.Text, ParsedInt,
         ValidItems, ValidMembers, ItemsMeaning, MembersMeaning, ItemsText, MembersText, ItemsDepth, MembersDepth, Entries, GapText,
         ValidGap;
    match node {
      case NumberNode(number) => NumberIsText(number);
      case StringNode(pieces) => QuotedIsText(pieces);
      case ArrayNode(inner, items) =>
        var body := ItemsAreText(inner, items, n - 1, rules);
        assert NodeText(node) == "[" + (body + "]");
      case ObjectNode(inner, members) =>
        var body, list := MembersAreText(inner, members, map[], n - 1, rules);
        assert NodeText(node) == "{" + (body + "}");
        assert map[] + Entries(list) == Entries(list);
      case _ =>
    }
  }

  lemma PaddedIsText(lead: Gap, node: Node, after: Gap, n: nat, rules: Rules)
    requires ValidGap(lead) && ValidGap(after) && ValidNode(node, rules)
    requires IsTextOf(NodeText(node), NodeMeaning(node, rules), n, rules)
    ensures IsPadded(GapText(lead) + (NodeText(node) + GapText(after)), NodeMeaning(node, rules), n, rules)
  {
    hide IsTextOf, IsGapText, ValidNode, NodeMeaning, NodeText, ValidGap, GapText;
    GapIsText(lead);
    GapIsText(after);
  }

  lemma {:induction false} ItemsAreText(lead: Gap, items: Items, n: nat, rules: Rules) returns (body: string)
    requires ValidGap(lead) && ValidItems(items, rules) && ItemsDepth(items) <= n
    ensures GapText(lead) + ItemsText(items) == body + "]" && IsItemsText(body, ItemsMeaning(items, rules), n, rules)
    ensures items.Item? ==> ItemsMeaning(items, rules) != []
    decreases items, 0
  {
    hide ValidNode, NodeMeaning, NodeText, NodeDepth, ItemsText, ValidGap, GapText, IsGapText, IsPadded, IsItemsText, IsTextOf;
    NoItemsHere(rules);
    if items.NoItems? {
      body := GapText(lead);
      GapIsText(lead);
      GapIsItems(body, n, rules);
    } else {
      var node, after, comma, gap, rest := items.node, items.after, items.comma, items.gap, items.rest;
      var first, v := GapText(lead) + (NodeText(node) + GapText(after)), NodeMeaning(node, rules);
      NodeIsText(node, n, rules);
      PaddedIsText(lead, node, after, n, rules);
      ItemPlaced(first, lead, node, after, comma, gap, rest, rules);
      if rest.NoItems? {
        body := first + SeparatorText(comma, gap);
        Push(first, SeparatorText(comma, gap), "]");
        SeparatorEnds(first, comma, gap, rules);
        LastItemEnds(body, first, v, n, rules);
        assert ItemsMeaning(items, rules) == [v];
      } else {
        var more := ItemsAreText(gap, rest, n, rules);
        body := first + ("," + more);
        CommaBetween(first, gap, ItemsText(rest), more, "]");
        NextItemText(first, v, more, ItemsMeaning(rest, rules), n, rules);
      }
    }
  }

  lemma GapIsItems(text: string, n: nat, rules: Rules)
    requires IsGapText(text)
    ensures IsItemsText(text, [], n, rules) && IsMembersText(text, [], n, rules)
  {
  }

  lemma SeparatorEnds(last: string, comma: bool, gap: Gap, rules: Rules)
    requires ValidGap(gap) && (comma ==> rules.trailingComma)
    ensures EndsWith(last + SeparatorText(comma, gap), last, rules)
  {
    hide IsGapText, GapText;
    if comma {
      GapIsText(gap);
    } else {
      assert last + "" == last;
    }
  }

  lemma LastItemEnds(text: string, last: string, v: Value, n: nat, rules: Rules)
    requires EndsWith(text, last, rules) && IsPadded(last, v, n, rules)
    ensures IsItemsText(text, [v], n, rules)
  {
    hide IsPadded, EndsWith;
    var all := [v];
    assert IsPadded(last, all[0], n, rules);
  }

  lemma LastMemberEnds(text: string, last: string, m: Entry, n: nat, rules: Rules)
    requires EndsWith(text, last, rules) && IsMemberText(last, m, n, rules)
    ensures IsMembersText(text, [m], n, rules)
  {
    hide IsMemberText, EndsWith;
    var all := [m];
    assert IsMemberText(last, all[0], n, rules);
  }

  lemma MemberIsText(lead: Gap, key: seq<Piece>, beforeColon: Gap, afterColon: Gap, node: Node, after: Gap, n: nat, rules: Rules)
    requires ValidGap(lead) && ValidGap(beforeColon) && ValidGap(afterColon) && ValidGap(after)
    requires ValidPieces(key) && ValidNode(node, rules) && IsTextOf(NodeText(node), NodeMeaning(node, rules), n, rules)
    ensures IsMemberText(MemberFront(lead, key, beforeColon, afterColon) + (NodeText(node) + GapText(after)),
                         Entry(PiecesMeaning(key), NodeMeaning(node, rules)), n, rules)
  {
    hide IsTextOf, IsGapText, IsStringText, IsPadded, ValidNode, NodeMeaning, NodeText, ValidGap, GapText, ValidPieces, PiecesMeaning,
         Quoted;
    GapIsText(lead);
    GapIsText(beforeColon);
    QuotedIsText(key);
    PaddedIsText(afterColon, node, after, n, rules);
    FrontAndRest(GapText(lead), Quoted(key), GapText(beforeColon), GapText(afterColon), NodeText(node) + GapText(after));
  }

  lemma {:induction false} MembersAreText(lead: Gap, members: Members, before: map<string, Value>, n: nat, rules: Rules)
    returns (body: string, list: seq<Entry>)
    requires ValidGap(lead) && ValidMembers(members, rules) && MembersDepth(members) <= n
    ensures GapText(lead) + MembersText(members) == body + "}" && IsMembersText(body, list, n, rules)
    ensures MembersMeaning(members, before, rules) == before + Entries(list) && (members.Member? ==> list != [])
    decreases members, 0
  {
    hide ValidNode, NodeMeaning, NodeText, NodeDepth, MembersText, ValidGap, GapText, IsGapText, IsMemberText, IsMembersText, IsTextOf,
         ValidPieces, PiecesMeaning, MemberFront, Entries;
    NoMembersHere(before, rules);
    if members.NoMembers? {
      body, list := GapText(lead), [];
      GapIsText(lead);
      GapIsItems(body, n, rules);
      EntriesStep([], before);
    } else {
      var key, beforeColon, afterColon := members.key, members.beforeColon, members.afterColon;
      var node, after, comma, gap, rest := members.node, members.after, members.comma, members.gap, members.rest;
      var m := Entry(PiecesMeaning(key), NodeMeaning(node, rules));
      var first := MemberFront(lead, key, beforeColon, afterColon) + (NodeText(node) + GapText(after));
      NodeIsText(node, n, rules);
      MemberIsText(lead, key, beforeColon, afterColon, node, after, n, rules);
      MemberPlaced(lead, key, beforeColon, afterColon, node, after, comma, gap, rest);
      if rest.NoMembers? {
        body, list := first + SeparatorText(comma, gap), [m];
        NoMembersHere(before[m.key := m.value], rules);
        Push(first, SeparatorText(comma, gap), "}");
        SeparatorEnds(first, comma, gap, rules);
        LastMemberEnds(body, first, m, n, rules);
        EntriesStep(list, before);
        assert before[m.key := m.value] + map[] == before[m.key := m.value];
      } else {
        var more, others := MembersAreText(gap, rest, before[m.key := m.value], n, rules);
        body, list := first + ("," + more), [m] + others;
        CommaBetween(first, gap, MembersText(rest), more, "}");
        NextMemberText(first, m, more, others, n, rules);
        EntriesStep(list, before);
        assert list[1..] == others;
      }
    }
  }

  /** The reader accepts a text with a value exactly if it is a text of that value, of at most 100
      levels, by its characters; with the root check, of a list or dictionary. */
  lemma ReaderMatchesTexts(text: string, v: Value, checkRoot: bool, rules: Rules)
    ensures ParseDocument(text, checkRoot, rules) == Success(v) <==>
      IsDocumentOf(text, v, STACK_LIMIT, rules) && (checkRoot ==> v.List? || v.Dictionary?)
  {
    hide ParseDocument, IsDocumentOf, Document.Text, NodeMeaning, NodeDepth, ValidNode;
    if ParseDocument(text, checkRoot, rules) == Success(v) {
      var doc := DocumentSound(text, checkRoot, rules);
      ContainerNode(doc.root, rules);
      DocumentIsText(doc, rules);
    }
    if IsDocumentOf(text, v, STACK_LIMIT, rules) && (checkRoot ==> v.List? || v.Dictionary?) {
      TextIsRead(text, v, checkRoot, rules);
    }
  }

  lemma DocumentIsText(doc: Document, rules: Rules)
    requires doc.Valid(rules) && NodeDepth(doc.root) <= STACK_LIMIT
    ensures IsDocumentOf(doc.Text(), NodeMeaning(doc.root, rules), STACK_LIMIT, rules)
  {
    hide NodeText, GapText, ValidGap, ValidNode, NodeMeaning, NodeDepth, IsPadded, IsIgnored, IsTextOf;
    var junk := doc.tail.Text();
    var body := GapText(doc.lead) + (NodeText(doc.root) + GapText(doc.trail));
    NodeIsText(doc.root, STACK_LIMIT, rules);
    PaddedIsText(doc.lead, doc.root, doc.trail, STACK_LIMIT, rules);
    TailIsIgnored(doc.tail);
    Push(GapText(doc.lead), NodeText(doc.root) + GapText(doc.trail), junk);
    Push(NodeText(doc.root), GapText(doc.trail), junk);
    assert doc.Text() == (if doc.mark then MARK else "") + (body + junk);
  }
}
