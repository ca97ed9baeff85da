/** The reader and the grammar agree: what the grammar derives is read with its meaning
    (completeness, and the exact role of the nesting limit), whatever is read was derived
    (soundness), and printed values are read back (round trip).
  */
module JsonTheorems {
  import opened JsonGrammar
  import opened JsonParser
  import opened NumberConversions
  import opened ValueTree
  import opened Wrappers

  // ---------------------------------------------------------------------------------
  // Completeness: gaps
  // ---------------------------------------------------------------------------------

  /** Text at which white space and comments have ended. */
  predicate IsGapEnd(s: string) {
    s == "" || (!IsBlank(s[0]) && !StartsComment(s))
  }

  lemma {:induction false} LineEnds(line: string, end: char, rest: string)
    requires IsLine(line) && IsLineEnd(end)
    ensures AfterLine(line + [end] + rest) == rest
  {
    var s := line + [end] + rest;
    if line == "" {
      assert s[1..] == rest;
    } else {
      LineEnds(line[1..], end, rest);
      assert s[1..] == line[1..] + [end] + rest;
    }
  }

  lemma {:induction false} OpenLineEnds(line: string)
    requires IsLine(line)
    ensures AfterLine(line) == ""
  {
    if line != "" {
      OpenLineEnds(line[1..]);
    }
  }

  lemma {:induction false} BlockEnds(block: string, rest: string)
    requires IsBlock(block)
    ensures AfterBlock(block + "*/" + rest) == rest
  {
    var s := block + "*/" + rest;
    if block == "" {
      assert s[2..] == rest;
    } else {
      assert IsBlock(block[1..]) by {
        forall i | 0 <= i < |block[1..]| - 1 ensures !(block[1..][i] == '*' && block[1..][i + 1] == '/') {
          assert !(block[i + 1] == '*' && block[i + 2] == '/');
        }
      }
      BlockEnds(block[1..], rest);
      assert s[1..] == block[1..] + "*/" + rest;
      assert |block| > 1 ==> !(block[0] == '*' && block[0 + 1] == '/');
    }
  }

  lemma {:induction false} OpenBlockEnds(block: string)
    requires IsBlock(block)
    ensures AfterBlock(block) == ""
  {
    if block != "" {
      assert IsBlock(block[1..]) by {
        forall i | 0 <= i < |block[1..]| - 1 ensures !(block[1..][i] == '*' && block[1..][i + 1] == '/') {
          assert !(block[i + 1] == '*' && block[i + 2] == '/');
        }
      }
      OpenBlockEnds(block[1..]);
      assert |block| > 1 ==> !(block[0] == '*' && block[0 + 1] == '/');
    }
  }

  lemma AfterGapOfComment(s: string)
    requires StartsComment(s)
    ensures AfterGap(s) == AfterGap(AfterComment(s))
  {
    hide AfterComment;
  }

  lemma FillerEnds(filler: Filler, rest: string)
    requires filler.Valid()
    ensures AfterGap(filler.Text() + rest) == AfterGap(rest)
  {
    var s := filler.Text() + rest;
    if filler.Blank? {
      assert s[1..] == rest;
    } else {
      hide AfterGap, AfterLine, AfterBlock, IsLine, IsBlock;
      AfterGapOfComment(s);
      if filler.LineComment? {
        assert s[2..] == filler.line + [filler.end] + rest;
        LineEnds(filler.line, filler.end, rest);
      } else {
        assert s[2..] == filler.block + "*/" + rest;
        BlockEnds(filler.block, rest);
      }
    }
  }

  lemma {:induction false} GapSkipped(gap: Gap, rest: string)
    requires ValidGap(gap)
    ensures AfterGap(GapText(gap) + rest) == AfterGap(rest)
  {
    if gap == [] {
      assert GapText(gap) + rest == rest;
    } else {
      assert GapText(gap) + rest == gap[0].Text() + (GapText(gap[1..]) + rest);
      FillerEnds(gap[0], GapText(gap[1..]) + rest);
      GapSkipped(gap[1..], rest);
    }
  }

  lemma GapEnds(gap: Gap, rest: string)
    requires ValidGap(gap) && IsGapEnd(rest)
    ensures AfterGap(GapText(gap) + rest) == rest
  {
    GapSkipped(gap, rest);
  }

  lemma TailEnds(gap: Gap, tail: Tail)
    requires ValidGap(gap) && tail.Valid()
    ensures TokenAt(AfterGap(GapText(gap) + tail.Text())).kind == EndOfInput
  {
    GapSkipped(gap, tail.Text());
    match tail {
      case EndOfText =>
      case OpenLine(line) =>
        assert tail.Text()[2..] == line;
        OpenLineEnds(line);
      case OpenBlock(block) =>
        assert tail.Text()[2..] == block;
        OpenBlockEnds(block);
      case AfterNul(junk) =>
    }
  }

  // ---------------------------------------------------------------------------------
  // Completeness: numbers and strings
  // ---------------------------------------------------------------------------------

  /** Text that cannot continue a number. */
  predicate IsDelimited(s: string) {
    s == "" || (!IsDigit(s[0]) && s[0] != '.' && s[0] != 'e' && s[0] != 'E')
  }

  lemma {:induction false} DigitsCounted(digits: string, rest: string)
    requires AllDigits(digits) && (rest == "" || !IsDigit(rest[0]))
    ensures DigitCount(digits + rest) == |digits|
  {
    var s := digits + rest;
    if digits != "" {
      DigitsCounted(digits[1..], rest);
      assert s[1..] == digits[1..] + rest;
    }
  }

  lemma DigitsEnd(digits: string, leadingZeros: bool, rest: string)
    requires IsDigits(digits) && (rest == "" || !IsDigit(rest[0]))
    requires leadingZeros || digits[0] != '0' || |digits| == 1
    ensures AfterDigits(digits + rest, leadingZeros) == After(rest)
  {
    DigitsCounted(digits, rest);
    assert (digits + rest)[|digits|..] == rest;
  }

  lemma SignedDigitsEnd(x: Exponent, rest: string)
    requires IsDigits(x.digits) && IsDelimited(rest)
    requires x.mark == 'e' || x.mark == 'E'
    requires x.sign == "" || x.sign == "+" || x.sign == "-"
    ensures AfterExponent([x.mark] + (x.sign + (x.digits + rest))) == After(rest)
  {
    DigitsEnd(x.digits, true, rest);
    hide AfterDigits, IsDelimited;
    var t := x.digits + rest;
    var s := [x.mark] + (x.sign + t);
    assert s[0] == x.mark && t[0] == x.digits[0];
    if x.sign == "" {
      assert s[1] == t[0] && s[1..] == t;
    } else {
      assert s[1] == x.sign[0] && s[2..] == t;
    }
  }

  lemma ExponentEnds(n: Number, rest: string)
    requires n.Valid() && IsDelimited(rest)
    ensures AfterExponent(n.ExponentText() + rest) == After(rest)
  {
    if n.exponent.None? {
      assert n.ExponentText() + rest == rest;
    } else {
      var x := n.exponent.value;
      assert n.ExponentText() + rest == [x.mark] + (x.sign + (x.digits + rest));
      SignedDigitsEnd(x, rest);
    }
  }

  /** Text that cannot continue a run of digits. */
  predicate IsDigitsEnd(s: string) {
    s == "" || !IsDigit(s[0])
  }

  /** An exponent or what follows it neither continues digits nor starts a fraction. */
  lemma ExponentDelimits(n: Number, rest: string)
    requires n.Valid() && IsDelimited(rest)
    ensures IsDigitsEnd(n.ExponentText() + rest) && At(n.ExponentText() + rest, 0) != '.'
  {
    if n.exponent.None? {
      assert n.ExponentText() + rest == rest;
    } else {
      assert (n.ExponentText() + rest)[0] == n.exponent.value.mark;
    }
  }

  lemma FractionEnds(n: Number, rest: string)
    requires n.Valid() && IsDelimited(rest)
    ensures AfterFraction(n.FractionText() + (n.ExponentText() + rest)) == After(n.ExponentText() + rest)
  {
    hide AfterDigits, IsDigits, Number.ExponentText, IsDelimited, IsDigitsEnd;
    var after := n.ExponentText() + rest;
    ExponentDelimits(n, rest);
    if n.fraction.None? {
      assert n.FractionText() + after == after;
    } else {
      Regroup(".", n.fraction.value, after);
      FractionAfterPoint(n.fraction.value + after);
      DigitsEnd(n.fraction.value, true, after);
    }
  }

  lemma FractionAfterPoint(s: string)
    ensures AfterFraction("." + s) == AfterDigits(s, true)
  {
    hide AfterDigits;
    assert ("." + s)[1..] == s;
  }

  lemma FractionDelimits(n: Number, rest: string)
    requires n.Valid() && IsDelimited(rest)
    ensures IsDigitsEnd(n.FractionText() + (n.ExponentText() + rest))
  {
    var after := n.ExponentText() + rest;
    ExponentDelimits(n, rest);
    if n.fraction.None? {
      assert n.FractionText() + after == after;
    } else {
      assert (n.FractionText() + after)[0] == '.';
    }
  }

  lemma WholeEnds(n: Number, tail: string)
    requires n.Valid() && IsDigitsEnd(tail)
    ensures var s := (if n.minus then "-" else "") + (n.whole + tail);
            AfterDigits(if At(s, 0) == '-' then s[1..] else s, false) == After(tail)
  {
    var s := (if n.minus then "-" else "") + (n.whole + tail);
    DigitsEnd(n.whole, false, tail);
    if n.minus {
      assert s[1..] == n.whole + tail;
    } else {
      assert s == n.whole + tail;
      assert s[0] == n.whole[0];
    }
  }

  lemma NumberEnds(n: Number, rest: string)
    requires n.Valid() && IsDelimited(rest)
    ensures AfterNumber(n.Text() + rest) == After(rest)
  {
    hide AfterDigits, AfterFraction, AfterExponent, Number.FractionText, Number.ExponentText, DigitCount, IsDigits;
    var tail := n.FractionText() + (n.ExponentText() + rest);
    assert n.Text() + rest == (if n.minus then "-" else "") + (n.whole + tail);
    FractionDelimits(n, rest);
    WholeEnds(n, tail);
    FractionEnds(n, rest);
    ExponentEnds(n, rest);
  }

  lemma NumberStart(n: Number)
    requires n.Valid()
    ensures n.Text() != "" && (IsDigit(n.Text()[0]) || n.Text()[0] == '-')
  {
    assert n.Text() == (if n.minus then "-" else "") + (n.whole + n.FractionText() + n.ExponentText());
  }

  /** One unit of string text is passed over. */
  lemma PiecePassed(p: Piece, rest: string)
    requires p.WellFormed()
    ensures ScanString(p.Text() + rest) == ScanString(rest)
  {
    var s := p.Text() + rest;
    assert s[|p.Text()|..] == rest;
    match p {
      case Raw(c) =>
        assert s[0] == c;
      case Escape(letter) =>
        assert s[0] == '\\' && s[1] == letter;
      case Hex(high, low) =>
        assert s[0] == '\\' && s[1] == 'x' && s[2] == high && s[3] == low;
      case Unicode(a, b, c, d) =>
        assert s[0] == '\\' && s[1] == 'u' && s[2] == a && s[3] == b && s[4] == c && s[5] == d;
    }
  }

  lemma QuoteEnds(rest: string)
    ensures ScanString("\"" + rest) == Closed(rest)
  {
    assert ("\"" + rest)[1..] == rest;
  }

  lemma PiecesSplit(pieces: seq<Piece>, rest: string)
    requires pieces != []
    ensures PiecesText(pieces) + rest == pieces[0].Text() + (PiecesText(pieces[1..]) + rest)
  {
    hide Piece.Text;
  }

  lemma {:induction false} StringEnds(pieces: seq<Piece>, rest: string)
    requires WellFormedPieces(pieces)
    ensures ScanString(PiecesText(pieces) + ("\"" + rest)) == Closed(rest)
  {
    hide Piece.Text, Piece.WellFormed, ScanString;
    if pieces == [] {
      assert PiecesText(pieces) + ("\"" + rest) == "\"" + rest;
      QuoteEnds(rest);
    } else {
      hide PiecesText;
      PiecesSplit(pieces, "\"" + rest);
      StringEnds(pieces[1..], rest);
      PiecePassed(pieces[0], PiecesText(pieces[1..]) + ("\"" + rest));
    }
  }

  lemma {:induction false} PiecesDecode(pieces: seq<Piece>)
    requires ValidPieces(pieces)
    ensures DecodePieces(PiecesText(pieces)) == Some(PiecesMeaning(pieces))
  {
    if pieces != [] {
      var p := pieces[0];
      var s := PiecesText(pieces);
      PiecesDecode(pieces[1..]);
      assert s[|p.Text()|..] == PiecesText(pieces[1..]);
    }
  }

  lemma QuotedParts(pieces: seq<Piece>, rest: string)
    ensures var s, n := Quoted(pieces) + rest, |Quoted(pieces)|;
            && |s| - |rest| == n >= 2 && s[0] == '"' && s[1..] == PiecesText(pieces) + ("\"" + rest)
            && s[1..n - 1] == PiecesText(pieces) && s[n..] == rest
  {
    hide PiecesText;
  }

  lemma QuotedTokenAt(s: string, rest: string)
    requires s != "" && s[0] == '"' && ScanString(s[1..]) == Closed(rest)
    ensures TokenAt(s) == Token(StringToken, |s| - |rest|)
    ensures DecodeString(s) == DecodePieces(s[1..|s| - |rest| - 1])
  {
    hide ScanString, AfterNumber, DecodePieces;
  }

  lemma QuotedEnds(pieces: seq<Piece>, rest: string)
    requires WellFormedPieces(pieces)
    ensures TokenAt(Quoted(pieces) + rest) == Token(StringToken, |Quoted(pieces)|)
    ensures DecodeString(Quoted(pieces) + rest) == DecodePieces(PiecesText(pieces))
    ensures ValidPieces(pieces) ==> DecodePieces(PiecesText(pieces)) == Some(PiecesMeaning(pieces))
    ensures (Quoted(pieces) + rest)[|Quoted(pieces)|..] == rest
  {
    hide ScanString, DecodePieces, PiecesText, TokenAt, Piece.Valid, Piece.WellFormed, PiecesMeaning, Quoted, DecodeString;
    QuotedParts(pieces, rest);
    StringEnds(pieces, rest);
    QuotedTokenAt(Quoted(pieces) + rest, rest);
    if ValidPieces(pieces) {
      PiecesDecode(pieces);
    }
  }

  // ---------------------------------------------------------------------------------
  // Completeness: values
  // ---------------------------------------------------------------------------------

  /** What reading must yield for a part of depth `nested` met at `depth`: its value when
      the limit allows it, and otherwise the nesting error. */
  predicate ReadAs(r: Parsed<Value>, depth: nat, nested: nat, value: Value, rest: string) {
    if depth + nested <= STACK_LIMIT then r == Ok(value, rest)
    else r.Err? && r.fault.Fault? && r.fault.code == TooMuchNesting
  }

  function NodeToken(node: Node): Token {
    match node
    case NullNode => Token(NullToken, 4)
    case TrueNode => Token(BoolTrue, 4)
    case FalseNode => Token(BoolFalse, 5)
    case NumberNode(number) => Token(NumberToken, |number.Text()|)
    case StringNode(pieces) => Token(StringToken, |Quoted(pieces)|)
    case ArrayNode(inner, items) => Token(ArrayBegin, 1)
    case ObjectNode(inner, members) => Token(ObjectBegin, 1)
  }

  lemma QuotedStart(pieces: seq<Piece>, rest: string)
    ensures Quoted(pieces) != "" && IsGapEnd(Quoted(pieces) + rest)
  {
    assert (Quoted(pieces) + rest)[0] == '"';
  }

  lemma NumberTokenAt(n: Number, rest: string)
    requires n.Valid() && IsDelimited(rest)
    ensures TokenAt(n.Text() + rest) == Token(NumberToken, |n.Text()|)
    ensures IsGapEnd(n.Text() + rest)
  {
    hide Number.Text, AfterNumber, Number.Valid;
    NumberStart(n);
    NumberEnds(n, rest);
    assert (n.Text() + rest)[0] == n.Text()[0];
  }

  /** The first token of a node's text tells its kind. */
  lemma NodeStart(node: Node, rest: string, rules: Rules)
    requires WellFormedNode(node, rules) && IsDelimited(rest)
    ensures NodeText(node) != "" && IsGapEnd(NodeText(node) + rest)
    ensures TokenAt(NodeText(node) + rest) == NodeToken(node)
  {
    hide Number.Text, Number.Valid, ScanString, AfterNumber, Quoted, DecodeString, GapText, ItemsText, MembersText,
         WellFormedItems, WellFormedMembers, ValidGap;
    var s := NodeText(node) + rest;
    match node {
      case NullNode => assert "null" <= s;
      case TrueNode => assert "true" <= s;
      case FalseNode => assert "false" <= s;
      case NumberNode(n) =>
        NumberStart(n);
        NumberTokenAt(n, rest);
      case StringNode(pieces) =>
        QuotedEnds(pieces, rest);
        QuotedStart(pieces, rest);
      case ArrayNode(inner, items) => assert s[0] == '[';
      case ObjectNode(inner, members) => assert s[0] == '{';
    }
  }

  lemma {:induction false} ValidIsWellFormed(node: Node, rules: Rules)
    requires ValidNode(node, rules)
    ensures WellFormedNode(node, rules)
    decreases node
  {
    match node {
      case ArrayNode(inner, items) => ItemsAreWellFormed(items, rules);
      case ObjectNode(inner, members) => MembersAreWellFormed(members, rules);
      case _ =>
    }
  }

  lemma {:induction false} ItemsAreWellFormed(items: Items, rules: Rules)
    requires ValidItems(items, rules)
    ensures WellFormedItems(items, rules)
    decreases items
  {
    if items.Item? {
      ValidIsWellFormed(items.node, rules);
      ItemsAreWellFormed(items.rest, rules);
    }
  }

  lemma {:induction false} MembersAreWellFormed(members: Members, rules: Rules)
    requires ValidMembers(members, rules)
    ensures WellFormedMembers(members, rules)
    decreases members
  {
    if members.Member? {
      ValidIsWellFormed(members.node, rules);
      MembersAreWellFormed(members.rest, rules);
    }
  }

  lemma AfterGapStays(s: string)
    requires IsGapEnd(s)
    ensures AfterGap(s) == s
  {
  }

  lemma AtomRead(node: Node, rest: string, depth: nat, rules: Rules)
    requires ValidNode(node, rules) && IsDelimited(rest) && depth < STACK_LIMIT
    requires !node.ArrayNode? && !node.ObjectNode?
    ensures ParseValue(NodeText(node) + rest, depth, false, rules) == Ok(NodeMeaning(node, rules), rest)
  {
    hide AfterGap, TokenAt, IsGapEnd, IsDelimited, Number.Text, Number.Valid, DecodeString, NumberMeaning, Quoted;
    var s := NodeText(node) + rest;
    ValidIsWellFormed(node, rules);
    NodeStart(node, rest, rules);
    AfterGapStays(s);
    assert s[|NodeText(node)|..] == rest;
    assert s[..|NodeText(node)|] == NodeText(node);
    if node.StringNode? {
      QuotedEnds(node.pieces, rest);
    }
  }

  lemma {:induction false} NodeRead(node: Node, rest: string, depth: nat, isRoot: bool, rules: Rules)
    requires ValidNode(node, rules) && IsDelimited(rest)
    requires isRoot ==> node.ArrayNode? || node.ObjectNode?
    ensures ReadAs(ParseValue(NodeText(node) + rest, depth, isRoot, rules),
                   depth, NodeDepth(node), NodeMeaning(node, rules), rest)
    decreases node, 1
  {
    hide AfterGap, TokenAt, IsGapEnd, IsDelimited, ItemsText, MembersText, GapText, ParseItems, ParseMembers,
         ValidItems, ValidMembers, ItemsMeaning, MembersMeaning;
    var s := NodeText(node) + rest;
    if depth < STACK_LIMIT {
      ValidIsWellFormed(node, rules);
      NodeStart(node, rest, rules);
      AfterGapStays(s);
      match node {
        case ArrayNode(inner, items) =>
          var t := ItemsText(items) + rest;
          assert s[1..] == GapText(inner) + t;
          ItemsStart(items, rest, rules);
          GapEnds(inner, t);
          ItemsRead(items, rest, depth + 1, [], rules);
          assert [] + ItemsMeaning(items, rules) == ItemsMeaning(items, rules);
        case ObjectNode(inner, members) =>
          var t := MembersText(members) + rest;
          assert s[1..] == GapText(inner) + t;
          MembersStart(members, rest);
          GapEnds(inner, t);
          MembersRead(members, rest, depth + 1, map[], rules);
        case _ =>
          hide ParseValue, NodeText, NodeMeaning;
          AtomRead(node, rest, depth, rules);
      }
    }
  }

  lemma Regroup(a: string, b: string, c: string)
    ensures a + b + c == a + (b + c)
  {
  }

  /** What follows an item inside its array. */
  function ItemTail(items: Items, rest: string): string
    requires items.Item?
  {
    if items.comma then "," + (GapText(items.gap) + (ItemsText(items.rest) + rest)) else "]" + rest
  }

  lemma ItemText(items: Items, rest: string)
    requires items.Item? && (!items.comma ==> items.rest.NoItems?)
    ensures ItemsText(items) + rest == NodeText(items.node) + (GapText(items.after) + ItemTail(items, rest))
  {
    hide NodeText, GapText;
    var node, after, separator, more :=
      NodeText(items.node), GapText(items.after), SeparatorText(items.comma, items.gap), ItemsText(items.rest);
    Regroup(node, after + (separator + more), rest);
    Regroup(after, separator + more, rest);
    Regroup(separator, more, rest);
    assert separator + (more + rest) == ItemTail(items, rest);
  }

  lemma ItemSplit(items: Items, rest: string, rules: Rules)
    requires items.Item? && WellFormedItems(items, rules)
    ensures ItemsText(items) + rest == NodeText(items.node) + (GapText(items.after) + ItemTail(items, rest))
    ensures IsGapEnd(ItemTail(items, rest)) && IsDelimited(GapText(items.after) + ItemTail(items, rest))
  {
    ItemText(items, rest);
    hide NodeText, GapText, WellFormedNode, ItemsText;
    GapDelimits(items.after, ItemTail(items, rest));
  }

  lemma ItemsStart(items: Items, rest: string, rules: Rules)
    requires WellFormedItems(items, rules)
    ensures IsGapEnd(ItemsText(items) + rest)
    ensures TokenAt(ItemsText(items) + rest).kind == ArrayEnd <==> items.NoItems?
  {
    if items.Item? {
      hide TokenAt, NodeText, GapText, WellFormedNode, ItemsText, ItemTail, IsGapEnd, IsDelimited;
      ItemSplit(items, rest, rules);
      NodeStart(items.node, GapText(items.after) + ItemTail(items, rest), rules);
    }
  }

  lemma MembersStart(members: Members, rest: string)
    ensures IsGapEnd(MembersText(members) + rest)
    ensures At(MembersText(members) + rest, 0) == if members.NoMembers? then '}' else '"'
  {
    if members.Member? {
      assert MembersText(members)[0] == Quoted(members.key)[0];
    }
  }

  /** A gap never starts like the rest of a number. */
  lemma GapDelimits(gap: Gap, rest: string)
    requires ValidGap(gap) && IsDelimited(rest)
    ensures IsDelimited(GapText(gap) + rest)
  {
    if gap == [] {
      assert GapText(gap) + rest == rest;
    } else {
      assert GapText(gap) == gap[0].Text() + GapText(gap[1..]);
    }
  }

  lemma ItemTailStep(items: Items, rest: string, rules: Rules)
    requires items.Item? && WellFormedItems(items, rules)
    ensures var t := ItemTail(items, rest);
            if items.comma then
              && TokenAt(t).kind == ListSeparator
              && AfterGap(t[1..]) == ItemsText(items.rest) + rest
              && !(TokenAt(AfterGap(t[1..])).kind == ArrayEnd && !rules.trailingComma)
            else TokenAt(t).kind == ArrayEnd && t[1..] == rest && items.rest.NoItems?
  {
    hide WellFormedNode, ItemsText, GapText, AfterGap, IsGapEnd;
    var t := ItemTail(items, rest);
    if items.comma {
      assert t[1..] == GapText(items.gap) + (ItemsText(items.rest) + rest);
      ItemsStart(items.rest, rest, rules);
      GapEnds(items.gap, ItemsText(items.rest) + rest);
    } else {
      assert t[1..] == rest;
    }
  }

  lemma {:induction false} ItemsRead(items: Items, rest: string, depth: nat, before: seq<Value>, rules: Rules)
    requires ValidItems(items, rules) && depth <= STACK_LIMIT
    ensures ReadAs(ParseItems(ItemsText(items) + rest, depth, before, rules),
                   depth, ItemsDepth(items), List(before + ItemsMeaning(items, rules)), rest)
    decreases items, 0
  {
    hide TokenAt, AfterGap, NodeText, GapText, ItemTail, ValidNode, IsGapEnd, IsDelimited, NodeMeaning, ParseValue;
    ItemsAreWellFormed(items, rules);
    ItemsStart(items, rest, rules);
    if items.NoItems? {
      assert (ItemsText(items) + rest)[1..] == rest;
      assert before + [] == before;
    } else {
      hide ItemsText;
      var tail := ItemTail(items, rest);
      ItemSplit(items, rest, rules);
      NodeRead(items.node, GapText(items.after) + tail, depth, false, rules);
      if depth + NodeDepth(items.node) <= STACK_LIMIT {
        GapEnds(items.after, tail);
        ItemTailStep(items, rest, rules);
        var value := NodeMeaning(items.node, rules);
        assert before + ItemsMeaning(items, rules) == before + [value] + ItemsMeaning(items.rest, rules);
        if items.comma {
          ItemsRead(items.rest, rest, depth, before + [value], rules);
        } else {
          assert ItemsMeaning(items, rules) == [value];
        }
      }
    }
  }

  lemma KeyRead(key: seq<Piece>, beforeColon: Gap, afterColon: Gap, rest: string,
                depth: nat, before: map<string, Value>, rules: Rules)
    requires ValidPieces(key) && ValidGap(beforeColon) && ValidGap(afterColon) && IsGapEnd(rest)
    ensures var s := Quoted(key) + (GapText(beforeColon) + (":" + (GapText(afterColon) + rest)));
            ParseMembers(s, depth, before, rules) ==
            var value := ParseValue(rest, depth, false, rules);
            if value.Err? then value
            else ParseAfterMember(AfterGap(value.rest), depth, before[PiecesMeaning(key) := value.value], rules)
  {
    hide TokenAt, AfterGap, GapText, Quoted, IsGapEnd, ParseValue, ParseAfterMember, PiecesMeaning, DecodeString;
    var colon := ":" + (GapText(afterColon) + rest);
    var t := GapText(beforeColon) + colon;
    QuotedEnds(key, t);
    ColonEnds(colon);
    GapEnds(beforeColon, colon);
    assert colon[1..] == GapText(afterColon) + rest;
    GapEnds(afterColon, rest);
    assert (Quoted(key) + t)[TokenAt(Quoted(key) + t).length..] == t;
  }

  lemma ColonEnds(s: string)
    requires s != "" && s[0] == ':'
    ensures IsGapEnd(s) && TokenAt(s).kind == PairSeparator
  {
  }

  /** What follows a member inside its object. */
  function MemberTail(members: Members, rest: string): string
    requires members.Member?
  {
    if members.comma then "," + (GapText(members.gap) + (MembersText(members.rest) + rest)) else "}" + rest
  }

  lemma MemberText(members: Members, rest: string)
    requires members.Member? && (!members.comma ==> members.rest.NoMembers?)
    ensures MembersText(members) + rest ==
            Quoted(members.key) + (GapText(members.beforeColon) + (":" + (GapText(members.afterColon) +
            (NodeText(members.node) + (GapText(members.after) + MemberTail(members, rest))))))
  {
    hide NodeText, GapText, Quoted;
    var key, g, h := Quoted(members.key), GapText(members.beforeColon), GapText(members.afterColon);
    var node, after, separator, more :=
      NodeText(members.node), GapText(members.after), SeparatorText(members.comma, members.gap), MembersText(members.rest);
    var t5 := separator + more;
    var t4 := after + t5;
    var t3 := node + t4;
    var t2 := h + t3;
    var t1 := ":" + t2;
    var t0 := g + t1;
    assert MembersText(members) == key + t0;
    hide MembersText, SeparatorText, MemberTail;
    Regroup(key, t0, rest);
    Regroup(g, t1, rest);
    Regroup(":", t2, rest);
    Regroup(h, t3, rest);
    Regroup(node, t4, rest);
    Regroup(after, t5, rest);
    MemberTailText(members, rest);
  }

  lemma MemberTailText(members: Members, rest: string)
    requires members.Member? && (!members.comma ==> members.rest.NoMembers?)
    ensures SeparatorText(members.comma, members.gap) + MembersText(members.rest) + rest == MemberTail(members, rest)
  {
    hide GapText;
    Regroup(SeparatorText(members.comma, members.gap), MembersText(members.rest), rest);
    if members.comma {
      Regroup(",", GapText(members.gap), MembersText(members.rest) + rest);
    }
  }

  lemma MemberSplit(members: Members, rest: string, rules: Rules)
    requires members.Member? && WellFormedMembers(members, rules)
    ensures IsGapEnd(MemberTail(members, rest)) && IsDelimited(GapText(members.after) + MemberTail(members, rest))
    ensures IsGapEnd(NodeText(members.node) + (GapText(members.after) + MemberTail(members, rest)))
  {
    hide NodeText, GapText, WellFormedNode, MembersText;
    GapDelimits(members.after, MemberTail(members, rest));
    NodeStart(members.node, GapText(members.after) + MemberTail(members, rest), rules);
  }

  lemma MemberTailStep(members: Members, rest: string, rules: Rules)
    requires members.Member? && WellFormedMembers(members, rules)
    ensures var t := MemberTail(members, rest);
            if members.comma then
              && TokenAt(t).kind == ListSeparator
              && AfterGap(t[1..]) == MembersText(members.rest) + rest
              && !(TokenAt(AfterGap(t[1..])).kind == ObjectEnd && !rules.trailingComma)
            else TokenAt(t).kind == ObjectEnd && t[1..] == rest && members.rest.NoMembers?
  {
    hide WellFormedNode, GapText, AfterGap, IsGapEnd;
    var t := MemberTail(members, rest);
    MembersStart(members.rest, rest);
    if members.comma {
      hide MembersText;
      assert t[1..] == GapText(members.gap) + (MembersText(members.rest) + rest);
      GapEnds(members.gap, MembersText(members.rest) + rest);
    } else {
      assert t[1..] == rest;
    }
  }

  lemma {:induction false} MembersRead(members: Members, rest: string, depth: nat, before: map<string, Value>, rules: Rules)
    requires ValidMembers(members, rules) && depth <= STACK_LIMIT
    ensures ReadAs(ParseMembers(MembersText(members) + rest, depth, before, rules),
                   depth, MembersDepth(members), Dictionary(MembersMeaning(members, before, rules)), rest)
    decreases members, 0
  {
    if members.NoMembers? {
      assert (MembersText(members) + rest)[1..] == rest;
    } else {
      hide TokenAt, AfterGap, NodeText, GapText, MemberTail, ValidNode, IsGapEnd, IsDelimited, NodeMeaning,
           ParseValue, ParseMembers, Quoted, MembersText, PiecesMeaning;
      var tail := MemberTail(members, rest);
      MembersAreWellFormed(members, rules);
      MemberText(members, rest);
      MemberSplit(members, rest, rules);
      KeyRead(members.key, members.beforeColon, members.afterColon,
              NodeText(members.node) + (GapText(members.after) + tail), depth, before, rules);
      NodeRead(members.node, GapText(members.after) + tail, depth, false, rules);
      if depth + NodeDepth(members.node) <= STACK_LIMIT {
        GapEnds(members.after, tail);
        MemberTailStep(members, rest, rules);
        if members.comma {
          MembersRead(members.rest, rest, depth,
                      before[PiecesMeaning(members.key) := NodeMeaning(members.node, rules)], rules);
        }
      }
    }
  }

  lemma TailDelimits(tail: Tail)
    ensures IsDelimited(tail.Text())
  {
  }

  predicate IsTokenStart(s: string) {
    s != "" && s[0] as int < 128
  }

  lemma NodeIsToken(node: Node, rest: string, rules: Rules)
    requires WellFormedNode(node, rules)
    ensures IsTokenStart(NodeText(node) + rest)
  {
    if node.NumberNode? {
      hide Number.Text, Number.Valid;
      NumberStart(node.number);
    }
  }

  lemma GapIsToken(gap: Gap, rest: string)
    requires ValidGap(gap) && IsTokenStart(rest)
    ensures IsTokenStart(GapText(gap) + rest)
  {
    if gap == [] {
      assert GapText(gap) + rest == rest;
    } else {
      assert GapText(gap) == gap[0].Text() + GapText(gap[1..]);
      assert gap[0].Valid();
    }
  }

  lemma MarkSkipped(doc: Document, rules: Rules)
    requires doc.WellFormed(rules)
    ensures SkipMark(doc.Text()) == doc.Body()
  {
    hide NodeText, GapText, WellFormedNode, Tail.Text, ValidGap;
    var tail := GapText(doc.trail) + doc.tail.Text();
    if doc.mark {
      assert doc.Text()[3..] == doc.Body();
    } else {
      assert doc.Text() == doc.Body();
      NodeIsToken(doc.root, tail, rules);
      GapIsToken(doc.lead, NodeText(doc.root) + tail);
    }
  }

  /** A gap before a value changes nothing below the limit. */
  lemma LeadingGap(gap: Gap, s: string, depth: nat, isRoot: bool, rules: Rules)
    requires ValidGap(gap)
    requires depth < STACK_LIMIT
    ensures ParseValue(GapText(gap) + s, depth, isRoot, rules) == ParseValue(s, depth, isRoot, rules)
  {
    GapSkipped(gap, s);
  }

  lemma AtomRefused(node: Node, rest: string, rules: Rules)
    requires WellFormedNode(node, rules) && IsDelimited(rest) && !node.ArrayNode? && !node.ObjectNode?
    ensures var r := ParseValue(NodeText(node) + rest, 0, true, rules);
            r.Err? && r.fault.Fault? && r.fault.code == BadRootElementType
  {
    hide AfterGap, TokenAt, IsGapEnd, IsDelimited, NodeText, WellFormedNode;
    NodeStart(node, rest, rules);
    AfterGapStays(NodeText(node) + rest);
  }

  /** Every document of the grammar is read with its meaning, except that one nested more
      than 100 deep is refused with the nesting error, and one whose root is not an array or
      object is refused when the caller asks for that check. */
  lemma DocumentRead(doc: Document, checkRoot: bool, rules: Rules)
    requires doc.Valid(rules)
    ensures var outcome := ParseDocument(doc.Text(), checkRoot, rules);
            if checkRoot && !doc.HasContainerRoot() then outcome.Failure? && outcome.code == BadRootElementType
            else if NodeDepth(doc.root) <= STACK_LIMIT then outcome == Success(NodeMeaning(doc.root, rules))
            else outcome.Failure? && outcome.code == TooMuchNesting
  {
    hide NodeText, GapText, ValidNode, Tail.Text, AfterGap, TokenAt, ParseValue, IsGapEnd, IsDelimited, SkipMark,
         Document.Text, NodeMeaning, NodeDepth;
    ValidIsWellFormed(doc.root, rules);
    MarkSkipped(doc, rules);
    var tail := GapText(doc.trail) + doc.tail.Text();
    TailDelimits(doc.tail);
    GapDelimits(doc.trail, doc.tail.Text());
    LeadingGap(doc.lead, NodeText(doc.root) + tail, 0, checkRoot, rules);
    if checkRoot && !doc.HasContainerRoot() {
      AtomRefused(doc.root, tail, rules);
    } else {
      NodeRead(doc.root, tail, 0, checkRoot, rules);
      TailEnds(doc.trail, doc.tail);
    }
  }

  // ---------------------------------------------------------------------------------
  // Soundness: gaps
  // ---------------------------------------------------------------------------------

  lemma {:induction false} LineSound(s: string) returns (line: string)
    ensures IsLine(line) && line <= s
    ensures |line| < |s| ==> IsLineEnd(s[|line|]) && AfterLine(s) == s[|line| + 1..]
    ensures |line| == |s| ==> AfterLine(s) == ""
  {
    line := "";
    if s != "" && !IsLineEnd(s[0]) {
      line := LineSound(s[1..]);
      line := [s[0]] + line;
    }
  }

  lemma {:induction false} BlockSound(s: string) returns (block: string)
    ensures IsBlock(block) && block <= s
    ensures |block| < |s| ==> block + "*/" <= s && AfterBlock(s) == s[|block| + 2..]
    ensures |block| == |s| ==> AfterBlock(s) == ""
  {
    block := "";
    if s != "" && !(s[0] == '*' && At(s, 1) == '/') {
      var inner := BlockSound(s[1..]);
      block := [s[0]] + inner;
      if |inner| < |s[1..]| {
        assert s[1..][|inner| + 2..] == s[|block| + 2..];
        assert s == [s[0]] + s[1..];
      }
    }
  }

  /** What AfterGap passes over is a gap, or, when nothing is left, a gap and a tail. */
  predicate IsPassed(s: string, gap: Gap, tail: Tail) {
    ValidGap(gap) && tail.Valid() && !tail.AfterNul? &&
    s == GapText(gap) + (if AfterGap(s) == "" then tail.Text() else AfterGap(s))
  }

  lemma LineCommentSound(s: string) returns (closed: bool, filler: Filler, tail: Tail)
    requires "//" <= s
    ensures closed ==> filler.Valid() && s == filler.Text() + AfterLine(s[2..])
    ensures !closed ==> AfterLine(s[2..]) == "" && tail == OpenLine(s[2..]) && tail.Valid()
  {
    hide IsLine, AfterLine;
    var t := s[2..];
    var line := LineSound(t);
    filler, tail, closed := Blank(' '), OpenLine(t), |line| < |t|;
    if closed {
      filler := LineComment(line, t[|line|]);
      assert t == line + [t[|line|]] + t[|line| + 1..];
      assert s == "//" + t;
      assert "//" + (line + [t[|line|]] + t[|line| + 1..]) == "//" + line + [t[|line|]] + t[|line| + 1..];
    } else {
      assert line == t;
    }
  }

  lemma BlockCommentSound(s: string) returns (closed: bool, filler: Filler, tail: Tail)
    requires "/*" <= s
    ensures closed ==> filler.Valid() && s == filler.Text() + AfterBlock(s[2..])
    ensures !closed ==> AfterBlock(s[2..]) == "" && tail == OpenBlock(s[2..]) && tail.Valid()
  {
    hide IsBlock, AfterBlock;
    var t := s[2..];
    var block := BlockSound(t);
    filler, tail, closed := Blank(' '), OpenBlock(t), |block| < |t|;
    if closed {
      filler := BlockComment(block);
      assert t == block + "*/" + t[|block| + 2..];
      assert s == "/*" + t;
      assert "/*" + (block + "*/" + t[|block| + 2..]) == "/*" + block + "*/" + t[|block| + 2..];
    } else {
      assert block == t;
    }
  }

  lemma CommentSound(s: string) returns (closed: bool, filler: Filler, tail: Tail)
    requires StartsComment(s)
    ensures closed ==> filler.Valid() && s == filler.Text() + AfterComment(s)
    ensures !closed ==> AfterComment(s) == "" && tail.Valid() && !tail.AfterNul? && tail.Text() == s
  {
    hide IsLine, IsBlock, AfterLine, AfterBlock, Filler.Text, Filler.Valid;
    if s[1] == '/' {
      closed, filler, tail := LineCommentSound(s);
      assert s == "//" + s[2..];
    } else {
      closed, filler, tail := BlockCommentSound(s);
      assert s == "/*" + s[2..];
    }
  }

  lemma GapTextCons(filler: Filler, gap: Gap, rest: string)
    ensures GapText([filler] + gap) + rest == filler.Text() + (GapText(gap) + rest)
  {
    hide Filler.Text;
    assert ([filler] + gap)[1..] == gap;
  }

  lemma {:induction false} GapSound(s: string) returns (gap: Gap, tail: Tail)
    ensures IsPassed(s, gap, tail)
    decreases |s|
  {
    gap, tail := [], EndOfText;
    if s == "" {
    } else if IsBlank(s[0]) {
      gap, tail := GapSound(s[1..]);
      GapTextCons(Blank(s[0]), gap, if AfterGap(s) == "" then tail.Text() else AfterGap(s));
      assert s == [s[0]] + s[1..];
      gap := [Blank(s[0])] + gap;
    } else if StartsComment(s) {
      var closed, filler, open := CommentSound(s);
      if closed {
        hide StartsComment, AfterComment, Filler.Text, Filler.Valid;
        gap, tail := GapSound(AfterComment(s));
        GapTextCons(filler, gap, if AfterGap(s) == "" then tail.Text() else AfterGap(s));
        gap := [filler] + gap;
      } else {
        tail := open;
      }
    }
  }

  // ---------------------------------------------------------------------------------
  // Soundness: numbers and strings
  // ---------------------------------------------------------------------------------

  lemma DigitsSound(s: string, leadingZeros: bool) returns (digits: string)
    requires AfterDigits(s, leadingZeros).After?
    ensures IsDigits(digits) && s == digits + AfterDigits(s, leadingZeros).text
    ensures !leadingZeros && digits[0] == '0' ==> |digits| == 1
  {
    digits := s[..DigitCount(s)];
  }

  lemma FractionSound(s: string) returns (fraction: Option<string>)
    requires AfterFraction(s).After?
    ensures fraction.Some? ==> IsDigits(fraction.value)
    ensures s == (if fraction.Some? then "." + fraction.value else "") + AfterFraction(s).text
  {
    hide AfterDigits, IsDigits;
    fraction := None;
    if At(s, 0) == '.' {
      var digits := DigitsSound(s[1..], true);
      assert s == "." + s[1..];
      Regroup(".", digits, AfterDigits(s[1..], true).text);
      fraction := Some(digits);
    }
  }

  predicate ValidExponent(x: Exponent) {
    && (x.mark == 'e' || x.mark == 'E')
    && (x.sign == "" || x.sign == "+" || x.sign == "-")
    && IsDigits(x.digits)
  }

  lemma SignedExponentSound(s: string) returns (x: Exponent)
    requires AfterExponent(s).After? && (At(s, 0) == 'e' || At(s, 0) == 'E')
    ensures ValidExponent(x)
    ensures s == [x.mark] + x.sign + x.digits + AfterExponent(s).text
  {
    hide AfterDigits, IsDigits;
    var signed := At(s, 1) == '-' || At(s, 1) == '+';
    var sign := if signed then [s[1]] else "";
    var t := s[if signed then 2 else 1..];
    assert s == [s[0]] + sign + t;
    var digits := DigitsSound(t, true);
    x := Exponent(s[0], sign, digits);
    Regroup([s[0]] + sign, digits, AfterExponent(s).text);
  }

  lemma ExponentSound(s: string) returns (x: Option<Exponent>)
    requires AfterExponent(s).After?
    ensures x.Some? ==> ValidExponent(x.value)
    ensures s == (if x.Some? then [x.value.mark] + x.value.sign + x.value.digits else "") + AfterExponent(s).text
  {
    if At(s, 0) == 'e' || At(s, 0) == 'E' {
      hide AfterExponent, ValidExponent;
      var exponent := SignedExponentSound(s);
      x := Some(exponent);
    } else {
      x := None;
    }
  }

  lemma NumberText(n: Number, rest: string)
    ensures n.Text() + rest ==
            (if n.minus then "-" else "") + (n.whole + (n.FractionText() + (n.ExponentText() + rest)))
  {
    hide Number.FractionText, Number.ExponentText;
    var sign := if n.minus then "-" else "";
    Regroup(sign + n.whole + n.FractionText(), n.ExponentText(), rest);
    Regroup(sign + n.whole, n.FractionText(), n.ExponentText() + rest);
    Regroup(sign, n.whole, n.FractionText() + (n.ExponentText() + rest));
  }

  lemma NumberSound(s: string) returns (n: Number)
    requires AfterNumber(s).After?
    ensures n.Valid() && s == n.Text() + AfterNumber(s).text
  {
    hide AfterDigits, AfterFraction, AfterExponent, IsDigits, Number.Text;
    var minus := At(s, 0) == '-';
    var t := if minus then s[1..] else s;
    assert s == (if minus then "-" else "") + t;
    var digits := DigitsSound(t, false);
    var u := AfterDigits(t, false).text;
    var fraction := FractionSound(u);
    var v := AfterFraction(u).text;
    var exponent := ExponentSound(v);
    n := Number(minus, digits, fraction, exponent);
    NumberText(n, AfterNumber(s).text);
  }

  /** The text between a string's quotes. */
  function Inner(s: string): string
    requires ScanString(s).Closed?
  {
    s[..|s| - |ScanString(s).rest| - 1]
  }

  lemma InnerDrop(s: string, k: nat)
    requires k <= |s| && ScanString(s).Closed? && ScanString(s) == ScanString(s[k..])
    ensures |Inner(s)| >= k && Inner(s)[..k] == s[..k] && Inner(s)[k..] == Inner(s[k..])
  {
    hide ScanString;
  }

  lemma RawSound(s: string)
    requires ScanString(s).Closed? && s[0] != '"' && s[0] != '\\'
    ensures ScanString(s) == ScanString(s[1..])
    ensures DecodePieces(Inner(s)) == Prepend(s[0], DecodePieces(Inner(s[1..])))
  {
    assert ScanString(s) == ScanString(s[1..]);
    InnerDrop(s, 1);
    hide ScanString, Inner;
    assert Inner(s)[0] == s[0];
  }

  lemma EscapeSound(s: string)
    requires ScanString(s).Closed? && s[0] == '\\' && IsEscapeLetter(At(s, 1))
    ensures ScanString(s) == ScanString(s[2..])
    ensures DecodePieces(Inner(s)) == Prepend(EscapeMeaning(s[1]), DecodePieces(Inner(s[2..])))
  {
    assert ScanString(s) == ScanString(s[2..]);
    InnerDrop(s, 2);
    hide ScanString, Inner, EscapeMeaning, IsEscapeLetter;
    assert Inner(s)[0] == s[..2][0] && Inner(s)[1] == s[..2][1];
  }

  lemma HexSound(s: string)
    requires ScanString(s).Closed? && s[0] == '\\' && At(s, 1) == 'x'
    ensures IsHexDigit(At(s, 2)) && IsHexDigit(At(s, 3))
    ensures ScanString(s) == ScanString(s[4..])
    ensures DecodePieces(Inner(s)) == Prepend(HexMeaning(s[2], s[3]), DecodePieces(Inner(s[4..])))
  {
    assert ScanString(s) == ScanString(s[4..]);
    InnerDrop(s, 4);
    hide ScanString, Inner, HexMeaning, IsHexDigit;
    assert forall i :: 0 <= i < 4 ==> Inner(s)[i] == s[..4][i];
    assert Inner(s)[0] == '\\' && Inner(s)[1] == 'x';
  }

  /** A four-digit escape passes the scanner but not the decoder. */
  lemma UnicodeSound(s: string)
    requires ScanString(s).Closed? && s[0] == '\\' && At(s, 1) == 'u'
    ensures DecodePieces(Inner(s)) == None
  {
    assert ScanString(s) == ScanString(s[6..]);
    InnerDrop(s, 6);
    hide ScanString, Inner;
    assert Inner(s)[0] == s[..6][0] && Inner(s)[1] == s[..6][1];
  }

  lemma PieceSound(s: string) returns (p: Piece)
    requires ScanString(s).Closed? && DecodePieces(Inner(s)).Some? && s[0] != '"'
    ensures p.Valid() && p.Text() <= s
    ensures ScanString(s) == ScanString(s[|p.Text()|..])
    ensures DecodePieces(Inner(s)) == Prepend(p.Meaning(), DecodePieces(Inner(s[|p.Text()|..])))
  {
    p := Raw(s[0]);
    if s[0] != '\\' {
      RawSound(s);
    } else {
      assert IsEscapeLetter(At(s, 1)) || At(s, 1) == 'x' || At(s, 1) == 'u';
      hide ScanString, DecodePieces, Inner;
      if IsEscapeLetter(At(s, 1)) {
        p := Escape(s[1]);
        EscapeSound(s);
      } else if At(s, 1) == 'x' {
        HexSound(s);
        p := Hex(s[2], s[3]);
      } else {
        UnicodeSound(s);
      }
    }
  }

  lemma PieceLength(p: Piece)
    ensures |p.Text()| > 0
  {
  }

  lemma PiecesCons(p: Piece, pieces: seq<Piece>, rest: string)
    requires p.Valid() && ValidPieces(pieces)
    ensures ValidPieces([p] + pieces)
    ensures PiecesText([p] + pieces) + rest == p.Text() + (PiecesText(pieces) + rest)
    ensures PiecesMeaning([p] + pieces) == [p.Meaning()] + PiecesMeaning(pieces)
  {
    hide Piece.Text, Piece.Valid, Piece.Meaning;
    assert ([p] + pieces)[1..] == pieces;
  }

  lemma EmptyStringSound(s: string)
    requires s != "" && s[0] == '"'
    ensures ScanString(s).Closed? && DecodePieces(Inner(s)) == Some("")
    ensures ValidPieces([]) && PiecesMeaning([]) == ""
    ensures s == PiecesText([]) + ("\"" + ScanString(s).rest)
  {
    assert Inner(s) == "";
    assert s == "\"" + s[1..];
    assert PiecesText([]) + s == s;
  }

  lemma {:induction false} StringSound(s: string) returns (pieces: seq<Piece>)
    requires ScanString(s).Closed? && DecodePieces(Inner(s)).Some?
    ensures ValidPieces(pieces) && s == PiecesText(pieces) + ("\"" + ScanString(s).rest)
    ensures DecodePieces(Inner(s)) == Some(PiecesMeaning(pieces))
    decreases |s|
  {
    hide Piece.Text, Piece.Valid, Piece.Meaning, ScanString, DecodePieces, Inner, PiecesText, PiecesMeaning, ValidPieces;
    if s[0] == '"' {
      EmptyStringSound(s);
      pieces := [];
    } else {
      var p := PieceSound(s);
      var rest := s[|p.Text()|..];
      PieceLength(p);
      var more := StringSound(rest);
      pieces := [p] + more;
      PiecesCons(p, more, "\"" + ScanString(s).rest);
      assert s == p.Text() + rest;
    }
  }

  // ---------------------------------------------------------------------------------
  // Soundness: values
  // ---------------------------------------------------------------------------------

  lemma StringTokenSound(s: string) returns (pieces: seq<Piece>)
    requires TokenAt(s).kind == StringToken && DecodeString(s).Some?
    ensures ValidPieces(pieces) && DecodeString(s) == Some(PiecesMeaning(pieces))
    ensures s == Quoted(pieces) + s[TokenAt(s).length..]
  {
    var t := s[1..];
    assert s == "\"" + t;
    assert s[1..TokenAt(s).length - 1] == Inner(t);
    hide DecodePieces, ScanString, Inner, ValidPieces, PiecesText, PiecesMeaning;
    pieces := StringSound(t);
    Regroup("\"" + PiecesText(pieces), "\"", ScanString(t).rest);
    Regroup("\"", PiecesText(pieces), "\"" + ScanString(t).rest);
  }

  lemma NumberTokenSound(s: string) returns (n: Number)
    requires TokenAt(s).kind == NumberToken
    ensures n.Valid() && n.Text() == s[..TokenAt(s).length]
  {
    n := NumberSound(s);
  }

  predicate IsAtom(kind: TokenType) {
    kind == NullToken || kind == BoolTrue || kind == BoolFalse || kind == NumberToken || kind == StringToken
  }

  lemma KeywordSound(s: string)
    ensures TokenAt(s).kind == NullToken ==> s[..TokenAt(s).length] == "null"
    ensures TokenAt(s).kind == BoolTrue ==> s[..TokenAt(s).length] == "true"
    ensures TokenAt(s).kind == BoolFalse ==> s[..TokenAt(s).length] == "false"
  {
  }

  lemma AtomNode(s: string, rules: Rules) returns (node: Node)
    requires IsAtom(TokenAt(s).kind)
    requires TokenAt(s).kind == NumberToken ==> NumberMeaning(s[..TokenAt(s).length], rules).Some?
    requires TokenAt(s).kind == StringToken ==> DecodeString(s).Some?
    ensures ValidNode(node, rules) && NodeDepth(node) == 1 && !node.ArrayNode? && !node.ObjectNode?
    ensures s == NodeText(node) + s[TokenAt(s).length..]
    ensures match TokenAt(s).kind
            case NumberToken => Some(NodeMeaning(node, rules)) == NumberMeaning(s[..TokenAt(s).length], rules)
            case StringToken => DecodeString(s).Some? && NodeMeaning(node, rules) == String(DecodeString(s).value)
            case NullToken => NodeMeaning(node, rules) == Null
            case BoolTrue => NodeMeaning(node, rules) == Boolean(true)
            case _ => NodeMeaning(node, rules) == Boolean(false)
  {
    KeywordSound(s);
    hide TokenAt, DecodeString, PiecesMeaning, ValidPieces, Number.Valid, NumberMeaning, Quoted, Number.Text;
    var token := TokenAt(s);
    assert s == s[..token.length] + s[token.length..];
    match token.kind {
      case NullToken => node := NullNode;
      case BoolTrue => node := TrueNode;
      case BoolFalse => node := FalseNode;
      case NumberToken =>
        var n := NumberTokenSound(s);
        node := NumberNode(n);
      case _ =>
        var pieces := StringTokenSound(s);
        node := StringNode(pieces);
    }
  }

  lemma AtomSound(s: string, depth: nat, isRoot: bool, rules: Rules) returns (node: Node)
    requires IsGapEnd(s) && IsAtom(TokenAt(s).kind)
    requires ParseValue(s, depth, isRoot, rules).Ok?
    ensures ValidNode(node, rules) && depth + NodeDepth(node) <= STACK_LIMIT && !isRoot
    ensures var r := ParseValue(s, depth, isRoot, rules);
            s == NodeText(node) + r.rest && NodeMeaning(node, rules) == r.value
  {
    AfterGapStays(s);
    hide AfterGap, IsGapEnd, TokenAt, DecodeString, NumberMeaning, ValidNode, NodeText, NodeMeaning;
    node := AtomNode(s, rules);
  }

  lemma OpeningSound(s: string)
    ensures TokenAt(s).kind == ArrayBegin ==> s == "[" + s[1..]
    ensures TokenAt(s).kind == ArrayEnd ==> s == "]" + s[1..]
    ensures TokenAt(s).kind == ObjectBegin ==> s == "{" + s[1..]
    ensures TokenAt(s).kind == ObjectEnd ==> s == "}" + s[1..]
    ensures TokenAt(s).kind == ListSeparator ==> s == "," + s[1..]
    ensures TokenAt(s).kind == PairSeparator ==> s == ":" + s[1..]
    ensures s == "" ==> TokenAt(s).kind == EndOfInput
  {
  }

  /** A gap with text after it. */
  lemma InnerGapSound(s: string) returns (gap: Gap)
    requires AfterGap(s) != ""
    ensures ValidGap(gap) && s == GapText(gap) + AfterGap(s)
  {
    var tail;
    gap, tail := GapSound(s);
  }

  lemma AfterGapIsGapEnd(s: string)
    ensures IsGapEnd(AfterGap(s))
  {
  }

  /** Whatever is read as a value is the text of a node that means it. */
  lemma {:induction false} ValueSound(s: string, depth: nat, isRoot: bool, rules: Rules) returns (node: Node)
    requires IsGapEnd(s) && ParseValue(s, depth, isRoot, rules).Ok?
    ensures ValidNode(node, rules) && depth + NodeDepth(node) <= STACK_LIMIT
    ensures isRoot ==> node.ArrayNode? || node.ObjectNode?
    ensures var r := ParseValue(s, depth, isRoot, rules);
            s == NodeText(node) + r.rest && NodeMeaning(node, rules) == r.value
    decreases |s|, 1
  {
    hide ParseValue, AfterGap, IsGapEnd, TokenAt, ParseItems, ParseMembers, GapText, ItemsText, MembersText,
         ItemsMeaning, MembersMeaning, ValidItems, ValidMembers, NodeText, NodeMeaning, ValidNode, NodeDepth;
    OpeningSound(s);
    ContainerStep(s, depth, isRoot, rules);
    var r := ParseValue(s, depth, isRoot, rules);
    var kind := TokenAt(s).kind;
    var t := AfterGap(s[1..]);
    AfterGapIsGapEnd(s[1..]);
    if kind == ArrayBegin {
      var items := ItemsSound(t, depth + 1, [], rules);
      var gap := InnerGapSound(s[1..]);
      node := ArrayNode(gap, items);
      ContainerText(node, r.rest, rules);
    } else if kind == ObjectBegin {
      var members := MembersSound(t, depth + 1, map[], rules);
      var gap := InnerGapSound(s[1..]);
      node := ObjectNode(gap, members);
      ContainerText(node, r.rest, rules);
    } else {
      node := AtomSound(s, depth, isRoot, rules);
    }
  }

  lemma ContainerText(node: Node, rest: string, rules: Rules)
    ensures node.ArrayNode? ==>
      && NodeText(node) + rest == "[" + (GapText(node.inner) + (ItemsText(node.items) + rest))
      && NodeDepth(node) == 1 + ItemsDepth(node.items)
      && ValidNode(node, rules) == (ValidGap(node.inner) && ValidItems(node.items, rules))
      && (ValidNode(node, rules) ==> NodeMeaning(node, rules) == List([] + ItemsMeaning(node.items, rules)))
    ensures node.ObjectNode? ==>
      && NodeText(node) + rest == "{" + (GapText(node.inner) + (MembersText(node.members) + rest))
      && NodeDepth(node) == 1 + MembersDepth(node.members)
      && ValidNode(node, rules) == (ValidGap(node.inner) && ValidMembers(node.members, rules))
      && (ValidNode(node, rules) ==> NodeMeaning(node, rules) == Dictionary(MembersMeaning(node.members, map[], rules)))
  {
    hide GapText, ItemsText, MembersText, ValidGap, ValidItems, ValidMembers, MembersMeaning;
    if node.ArrayNode? {
      Regroup(GapText(node.inner), ItemsText(node.items), rest);
      Regroup("[", GapText(node.inner) + ItemsText(node.items), rest);
    } else if node.ObjectNode? {
      Regroup(GapText(node.inner), MembersText(node.members), rest);
      Regroup("{", GapText(node.inner) + MembersText(node.members), rest);
    }
    if node.ArrayNode? && ValidNode(node, rules) {
      assert [] + ItemsMeaning(node.items, rules) == ItemsMeaning(node.items, rules);
    }
  }

  lemma ContainerStep(s: string, depth: nat, isRoot: bool, rules: Rules)
    requires IsGapEnd(s) && ParseValue(s, depth, isRoot, rules).Ok?
    ensures depth < STACK_LIMIT && s != ""
    ensures match TokenAt(s).kind
            case ArrayBegin =>
              ParseValue(s, depth, isRoot, rules) == ParseItems(AfterGap(s[1..]), depth + 1, [], rules)
            case ObjectBegin =>
              ParseValue(s, depth, isRoot, rules) == ParseMembers(AfterGap(s[1..]), depth + 1, map[], rules)
            case _ => IsAtom(TokenAt(s).kind)
  {
    AfterGapStays(s);
    hide AfterGap, IsGapEnd, TokenAt, DecodeString, NumberMeaning, ParseItems, ParseMembers;
  }

  /** The first item of an array that is read, and how the array goes on at `t`. */
  lemma {:induction false} ItemHead(s: string, depth: nat, before: seq<Value>, rules: Rules)
    returns (node: Node, after: Gap, t: string)
    requires IsGapEnd(s) && depth <= STACK_LIMIT && ParseItems(s, depth, before, rules).Ok?
    requires TokenAt(s).kind != ArrayEnd
    ensures ValidNode(node, rules) && depth + NodeDepth(node) <= STACK_LIMIT && ValidGap(after)
    ensures s == NodeText(node) + (GapText(after) + t) && 0 < |t| <= |s|
    ensures var r, all := ParseItems(s, depth, before, rules), before + [NodeMeaning(node, rules)];
            if TokenAt(t).kind == ArrayEnd then t == "]" + r.rest && r.value == List(all)
            else
              && t == "," + t[1..] && AfterGap(t[1..]) != "" && r == ParseItems(AfterGap(t[1..]), depth, all, rules)
              && (TokenAt(AfterGap(t[1..])).kind == ArrayEnd ==> rules.trailingComma)
    decreases |s|, 2
  {
    hide AfterGap, IsGapEnd, TokenAt, ParseValue, GapText, NodeText, ValidNode, NodeMeaning, NodeDepth;
    node := ValueSound(s, depth, false, rules);
    var item := ParseValue(s, depth, false, rules);
    t := AfterGap(item.rest);
    OpeningSound(t);
    after := InnerGapSound(item.rest);
    if TokenAt(t).kind != ArrayEnd {
      NotEmpty(AfterGap(t[1..]), depth, before + [item.value], rules);
    }
  }

  lemma NotEmpty(s: string, depth: nat, before: seq<Value>, rules: Rules)
    requires ParseItems(s, depth, before, rules).Ok?
    ensures s != ""
  {
    hide TokenAt, AfterGap;
  }

  lemma {:induction false} ItemsSound(s: string, depth: nat, before: seq<Value>, rules: Rules) returns (items: Items)
    requires IsGapEnd(s) && depth <= STACK_LIMIT && ParseItems(s, depth, before, rules).Ok?
    ensures s != "" && ValidItems(items, rules) && depth + ItemsDepth(items) <= STACK_LIMIT
    ensures items.NoItems? <==> TokenAt(s).kind == ArrayEnd
    ensures var r := ParseItems(s, depth, before, rules);
            s == ItemsText(items) + r.rest && r.value == List(before + ItemsMeaning(items, rules))
    decreases |s|, 3
  {
    hide AfterGap, IsGapEnd, TokenAt, ParseValue, GapText, NodeText, ValidNode, NodeMeaning, NodeDepth, Filler.Valid;
    if TokenAt(s).kind == ArrayEnd {
      OpeningSound(s);
      items := NoItems;
      assert before + [] == before;
    } else {
      hide ParseItems;
      var rest := ParseItems(s, depth, before, rules).rest;
      var node, after, t := ItemHead(s, depth, before, rules);
      if TokenAt(t).kind == ArrayEnd {
        items := Item(node, after, false, [], NoItems);
      } else {
        hide ItemsText, ItemsMeaning, ItemsDepth;
        AfterGapIsGapEnd(t[1..]);
        var more := ItemsSound(AfterGap(t[1..]), depth, before + [NodeMeaning(node, rules)], rules);
        var gap := InnerGapSound(t[1..]);
        items := Item(node, after, true, gap, more);
      }
      ItemText(items, rest);
      ItemMeaning(items, before, rules);
    }
  }

  lemma ItemMeaning(items: Items, before: seq<Value>, rules: Rules)
    requires items.Item? && ValidItems(items, rules)
    ensures before + ItemsMeaning(items, rules) ==
            before + [NodeMeaning(items.node, rules)] + ItemsMeaning(items.rest, rules)
    ensures ItemsDepth(items) == Max(NodeDepth(items.node), ItemsDepth(items.rest))
  {
    hide NodeMeaning, ValidNode;
  }

  /** The first member of an object that is read, and how the object goes on at `t`. */
  lemma {:induction false} MemberHead(s: string, depth: nat, before: map<string, Value>, rules: Rules)
    returns (key: seq<Piece>, beforeColon: Gap, afterColon: Gap, node: Node, after: Gap, t: string)
    requires IsGapEnd(s) && depth <= STACK_LIMIT && ParseMembers(s, depth, before, rules).Ok?
    requires TokenAt(s).kind != ObjectEnd
    ensures ValidPieces(key) && ValidGap(beforeColon) && ValidGap(afterColon) && ValidNode(node, rules) && ValidGap(after)
    ensures depth + NodeDepth(node) <= STACK_LIMIT && 0 < |t| <= |s|
    ensures s == Quoted(key) + (GapText(beforeColon) + (":" + (GapText(afterColon) + (NodeText(node) + (GapText(after) + t)))))
    ensures ParseMembers(s, depth, before, rules) ==
            ParseAfterMember(t, depth, before[PiecesMeaning(key) := NodeMeaning(node, rules)], rules)
    decreases |s|, 2
  {
    hide AfterGap, IsGapEnd, TokenAt, ParseValue, GapText, NodeText, ValidNode, NodeMeaning, NodeDepth,
         DecodeString, Quoted, PiecesMeaning, ValidPieces, ParseAfterMember;
    key := StringTokenSound(s);
    var t0 := s[TokenAt(s).length..];
    var u := AfterGap(t0);
    OpeningSound(u);
    beforeColon := InnerGapSound(t0);
    var v := AfterGap(u[1..]);
    AfterGapIsGapEnd(u[1..]);
    node := ValueSound(v, depth, false, rules);
    afterColon := InnerGapSound(u[1..]);
    var value := ParseValue(v, depth, false, rules);
    t := AfterGap(value.rest);
    AfterMemberNotEmpty(t, depth, before[PiecesMeaning(key) := value.value], rules);
    after := InnerGapSound(value.rest);
  }

  lemma AfterMemberNotEmpty(t: string, depth: nat, before: map<string, Value>, rules: Rules)
    requires ParseAfterMember(t, depth, before, rules).Ok?
    ensures t != ""
  {
    hide ParseMembers, AfterGap;
  }

  /** How an object goes on after a member. */
  lemma AfterMember(t: string, depth: nat, before: map<string, Value>, rules: Rules)
    requires ParseAfterMember(t, depth, before, rules).Ok?
    ensures var r := ParseAfterMember(t, depth, before, rules);
            if TokenAt(t).kind == ObjectEnd then t == "}" + r.rest && r.value == Dictionary(before)
            else
              && t == "," + t[1..] && AfterGap(t[1..]) != "" && r == ParseMembers(AfterGap(t[1..]), depth, before, rules)
              && (TokenAt(AfterGap(t[1..])).kind == ObjectEnd ==> rules.trailingComma)
  {
    hide TokenAt, AfterGap, ParseMembers;
    OpeningSound(t);
    if TokenAt(t).kind != ObjectEnd {
      MembersNotEmpty(AfterGap(t[1..]), depth, before, rules);
    }
  }

  lemma MembersNotEmpty(s: string, depth: nat, before: map<string, Value>, rules: Rules)
    requires ParseMembers(s, depth, before, rules).Ok?
    ensures s != ""
  {
    hide AfterGap, ParseAfterMember;
  }

  lemma {:induction false} MembersSound(s: string, depth: nat, before: map<string, Value>, rules: Rules)
    returns (members: Members)
    requires IsGapEnd(s) && depth <= STACK_LIMIT && ParseMembers(s, depth, before, rules).Ok?
    ensures s != "" && ValidMembers(members, rules) && depth + MembersDepth(members) <= STACK_LIMIT
    ensures members.NoMembers? <==> TokenAt(s).kind == ObjectEnd
    ensures var r := ParseMembers(s, depth, before, rules);
            s == MembersText(members) + r.rest && r.value == Dictionary(MembersMeaning(members, before, rules))
    decreases |s|, 3
  {
    hide AfterGap, IsGapEnd, TokenAt, ParseValue, GapText, NodeText, ValidNode, NodeMeaning, NodeDepth,
         DecodeString, Quoted, PiecesMeaning, ValidPieces, ParseAfterMember, Filler.Valid;
    if TokenAt(s).kind == ObjectEnd {
      OpeningSound(s);
      members := NoMembers;
    } else {
      hide ParseMembers;
      var rest := ParseMembers(s, depth, before, rules).rest;
      var key, beforeColon, afterColon, node, after, t := MemberHead(s, depth, before, rules);
      var entries := before[PiecesMeaning(key) := NodeMeaning(node, rules)];
      AfterMember(t, depth, entries, rules);
      if TokenAt(t).kind == ObjectEnd {
        members := Member(key, beforeColon, afterColon, node, after, false, [], NoMembers);
      } else {
        hide MembersText, MembersMeaning, MembersDepth;
        AfterGapIsGapEnd(t[1..]);
        var more := MembersSound(AfterGap(t[1..]), depth, entries, rules);
        var gap := InnerGapSound(t[1..]);
        members := Member(key, beforeColon, afterColon, node, after, true, gap, more);
      }
      MemberText(members, rest);
      MemberMeaning(members, before, rules);
    }
  }

  lemma MemberMeaning(members: Members, before: map<string, Value>, rules: Rules)
    requires members.Member? && ValidMembers(members, rules)
    ensures MembersMeaning(members, before, rules) ==
            MembersMeaning(members.rest, before[PiecesMeaning(members.key) := NodeMeaning(members.node, rules)], rules)
    ensures MembersDepth(members) == Max(NodeDepth(members.node), MembersDepth(members.rest))
  {
    hide NodeMeaning, ValidNode, PiecesMeaning;
  }

  // ---------------------------------------------------------------------------------
  // Main results
  // ---------------------------------------------------------------------------------

  /** `doc` derives `text` with value `v`, within the nesting limit. */
  ghost predicate Derives(doc: Document, text: string, v: Value, checkRoot: bool, rules: Rules) {
    && doc.Valid(rules)
    && doc.Text() == text
    && NodeMeaning(doc.root, rules) == v
    && NodeDepth(doc.root) <= STACK_LIMIT
    && (checkRoot ==> doc.HasContainerRoot())
  }

  lemma TailSound(s: string) returns (gap: Gap, tail: Tail)
    requires TokenAt(AfterGap(s)).kind == EndOfInput
    ensures ValidGap(gap) && tail.Valid() && s == GapText(gap) + tail.Text()
  {
    gap, tail := GapSound(s);
    var t := AfterGap(s);
    if t != "" {
      assert t[0] == '\0' by { EndSound(t); }
      assert t == "\0" + t[1..];
      tail := AfterNul(t[1..]);
    }
  }

  lemma EndSound(s: string)
    requires TokenAt(s).kind == EndOfInput
    ensures At(s, 0) == '\0'
  {
  }

  /** Whatever is accepted is a document of the grammar with the value that is returned. */
  lemma DocumentSound(text: string, checkRoot: bool, rules: Rules) returns (doc: Document)
    requires ParseDocument(text, checkRoot, rules).Success?
    ensures Derives(doc, text, ParseDocument(text, checkRoot, rules).value, checkRoot, rules)
  {
    hide ParseValue, TokenAt, AfterGap, NodeText, NodeMeaning, ValidNode, GapText, NodeDepth;
    var body := SkipMark(text);
    var lead, node, rest := RootSound(body, checkRoot, rules);
    var trail, tail := TailSound(rest);
    doc := Document(BYTE_ORDER_MARK <= text, lead, node, trail, tail);
    assert doc.mark ==> text == BYTE_ORDER_MARK + body;
  }

  lemma RootSound(body: string, checkRoot: bool, rules: Rules) returns (lead: Gap, node: Node, rest: string)
    requires ParseValue(body, 0, checkRoot, rules).Ok?
    ensures ValidGap(lead) && ValidNode(node, rules)
    ensures ParseValue(body, 0, checkRoot, rules) == Ok(NodeMeaning(node, rules), rest)
    ensures body == GapText(lead) + (NodeText(node) + rest)
    ensures NodeDepth(node) <= STACK_LIMIT && (checkRoot ==> node.ArrayNode? || node.ObjectNode?)
  {
    var s := AfterGap(body);
    SameAfterGap(body, checkRoot, rules);
    hide ParseValue, TokenAt, AfterGap, NodeText, NodeMeaning, ValidNode, GapText;
    AfterGapIsGapEnd(body);
    node := ValueSound(s, 0, checkRoot, rules);
    lead := InnerGapSound(body);
    rest := ParseValue(body, 0, checkRoot, rules).rest;
  }

  lemma SameAfterGap(body: string, checkRoot: bool, rules: Rules)
    requires ParseValue(body, 0, checkRoot, rules).Ok?
    ensures AfterGap(body) != ""
    ensures ParseValue(AfterGap(body), 0, checkRoot, rules) == ParseValue(body, 0, checkRoot, rules)
  {
    var s := AfterGap(body);
    OpeningSound(s);
    AfterGapIsGapEnd(body);
    AfterGapStays(s);
    hide AfterGap, TokenAt, ParseItems, ParseMembers, NumberMeaning, DecodeString;
  }

  /** The reader accepts a text with a value exactly when the grammar derives that text with
      that value and no more than 100 values are nested. */
  lemma ReaderMatchesGrammar(text: string, v: Value, checkRoot: bool, rules: Rules)
    ensures ParseDocument(text, checkRoot, rules) == Success(v)
            <==> exists doc :: Derives(doc, text, v, checkRoot, rules)
  {
    hide ParseDocument;
    if ParseDocument(text, checkRoot, rules) == Success(v) {
      var doc := DocumentSound(text, checkRoot, rules);
    }
    if exists doc :: Derives(doc, text, v, checkRoot, rules) {
      var doc :| Derives(doc, text, v, checkRoot, rules);
      DocumentRead(doc, checkRoot, rules);
    }
  }

  /** A text has at most one value, whichever way it is derived. */
  lemma GrammarIsUnambiguous(text: string, v: Value, w: Value, checkRoot: bool, rules: Rules)
    requires exists doc :: Derives(doc, text, v, checkRoot, rules)
    requires exists doc :: Derives(doc, text, w, checkRoot, rules)
    ensures v == w
  {
    hide ParseDocument, Derives;
    ReaderMatchesGrammar(text, v, checkRoot, rules);
    ReaderMatchesGrammar(text, w, checkRoot, rules);
  }
}
