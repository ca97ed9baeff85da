/** The texts of RFC 4627 itself, and what the reader of src/chromium/json/json_reader.cc makes of
    them.  Text is bytes; which byte sequences are UTF-8 is not looked at.
  */
module JsonStrict {
  import opened JsonGrammar
  import opened JsonParser
  import opened JsonTheorems
  import opened JsonUnique
  import opened NumberConversions
  import opened ValueTree
  import opened Wrappers

  // ---------------------------------------------------------------------------------
  // The strict grammar
  // ---------------------------------------------------------------------------------

  /** Section 2.5 of RFC 4627: no control characters, no vertical tab escape, no hex escapes other
      than the four-digit one. */
  predicate IsStrictPiece(p: Piece) {
    match p
    case Raw(c) => c != '"' && c != '\\' && c >= ' '
    case Escape(letter) => IsEscapeLetter(letter) && letter != 'v'
    case Hex(high, low) => false
    case Unicode(a, b, c, d) => p.WellFormed()
  }

  predicate AreStrictPieces(pieces: seq<Piece>) {
    forall i :: 0 <= i < |pieces| ==> IsStrictPiece(pieces[i])
  }

  /** White space and no comments. */
  predicate IsStrictGap(gap: Gap) {
    ValidGap(gap) && forall i :: 0 <= i < |gap| ==> gap[i].Blank?
  }

  predicate IsStrictNode(node: Node) {
    match node
    case NumberNode(number) => number.Valid()
    case StringNode(pieces) => AreStrictPieces(pieces)
    case ArrayNode(inner, items) => IsStrictGap(inner) && AreStrictItems(items)
    case ObjectNode(inner, members) => IsStrictGap(inner) && AreStrictMembers(members)
    case _ => true
  }

  /** A comma between items and nowhere else. */
  predicate AreStrictItems(items: Items) {
    match items
    case NoItems => true
    case Item(node, after, comma, gap, rest) =>
      && IsStrictNode(node) && IsStrictGap(after) && IsStrictGap(gap) && AreStrictItems(rest)
      && comma == rest.Item? && (!comma ==> gap == [])
  }

  predicate AreStrictMembers(members: Members) {
    match members
    case NoMembers => true
    case Member(key, beforeColon, afterColon, node, after, comma, gap, rest) =>
      && AreStrictPieces(key) && IsStrictGap(beforeColon) && IsStrictGap(afterColon)
      && IsStrictNode(node) && IsStrictGap(after) && IsStrictGap(gap) && AreStrictMembers(rest)
      && comma == rest.Member? && (!comma ==> gap == [])
  }

  /** An array or object with white space around it, and nothing else. */
  predicate IsStrict(doc: Document) {
    && !doc.mark && IsStrictGap(doc.lead) && IsStrictNode(doc.root) && IsStrictGap(doc.trail)
    && doc.tail == EndOfText && doc.HasContainerRoot()
  }

  ghost predicate IsStrictText(text: string) {
    exists doc :: IsStrict(doc) && doc.Text() == text
  }

  // ---------------------------------------------------------------------------------
  // What a strict text needs to be read
  // ---------------------------------------------------------------------------------

  predicate HaveUnicode(pieces: seq<Piece>) {
    exists i :: 0 <= i < |pieces| && pieces[i].Unicode?
  }

  /** There is a four-digit escape in a string or key. */
  predicate HasUnicode(node: Node) {
    match node
    case StringNode(pieces) => HaveUnicode(pieces)
    case ArrayNode(inner, items) => ItemsHaveUnicode(items)
    case ObjectNode(inner, members) => MembersHaveUnicode(members)
    case _ => false
  }

  predicate ItemsHaveUnicode(items: Items) {
    items.Item? && (HasUnicode(items.node) || ItemsHaveUnicode(items.rest))
  }

  predicate MembersHaveUnicode(members: Members) {
    members.Member? && (HaveUnicode(members.key) || HasUnicode(members.node) || MembersHaveUnicode(members.rest))
  }

  /** Every number is an int of 32 bits or a finite double. */
  predicate NumbersConvert(node: Node, rules: Rules) {
    match node
    case NumberNode(number) => NumberMeaning(number.Text(), rules).Some?
    case ArrayNode(inner, items) => ItemsConvert(items, rules)
    case ObjectNode(inner, members) => MembersConvert(members, rules)
    case _ => true
  }

  predicate ItemsConvert(items: Items, rules: Rules) {
    items.Item? ==> NumbersConvert(items.node, rules) && ItemsConvert(items.rest, rules)
  }

  predicate MembersConvert(members: Members, rules: Rules) {
    members.Member? ==> NumbersConvert(members.node, rules) && MembersConvert(members.rest, rules)
  }

  lemma StrictPieces(pieces: seq<Piece>)
    requires AreStrictPieces(pieces)
    ensures WellFormedPieces(pieces) && (ValidPieces(pieces) <==> !HaveUnicode(pieces))
  {
    forall i | 0 <= i < |pieces| ensures pieces[i].WellFormed() && (pieces[i].Valid() <==> !pieces[i].Unicode?) {
      assert IsStrictPiece(pieces[i]);
    }
  }

  /** A strict node is well formed under all rules, and has a meaning exactly if it has no
      four-digit escape and its numbers convert. */
  lemma {:induction false} StrictNode(node: Node, rules: Rules)
    requires IsStrictNode(node)
    ensures WellFormedNode(node, rules)
    ensures ValidNode(node, rules) <==> !HasUnicode(node) && NumbersConvert(node, rules)
    decreases node
  {
    hide ValidGap, NumberMeaning;
    match node {
      case StringNode(pieces) => StrictPieces(pieces);
      case ArrayNode(inner, items) => StrictItems(items, rules);
      case ObjectNode(inner, members) => StrictMembers(members, rules);
      case _ =>
    }
  }

  lemma {:induction false} StrictItems(items: Items, rules: Rules)
    requires AreStrictItems(items)
    ensures WellFormedItems(items, rules)
    ensures ValidItems(items, rules) <==> !ItemsHaveUnicode(items) && ItemsConvert(items, rules)
    decreases items
  {
    hide ValidGap, ValidNode, WellFormedNode, HasUnicode, NumbersConvert, IsStrictNode;
    if items.Item? {
      StrictNode(items.node, rules);
      StrictItems(items.rest, rules);
    }
  }

  lemma {:induction false} StrictMembers(members: Members, rules: Rules)
    requires AreStrictMembers(members)
    ensures WellFormedMembers(members, rules)
    ensures ValidMembers(members, rules) <==> !MembersHaveUnicode(members) && MembersConvert(members, rules)
    decreases members
  {
    hide ValidGap, ValidNode, WellFormedNode, HasUnicode, NumbersConvert, IsStrictNode, AreStrictPieces, ValidPieces,
         WellFormedPieces, HaveUnicode;
    if members.Member? {
      StrictPieces(members.key);
      StrictNode(members.node, rules);
      StrictMembers(members.rest, rules);
    }
  }

  // ---------------------------------------------------------------------------------
  // What has no meaning is refused
  // ---------------------------------------------------------------------------------

  lemma PieceDecodes(p: Piece, rest: string)
    requires p.WellFormed()
    ensures p.Valid() ==> DecodePieces(p.Text() + rest) == Prepend(p.Meaning(), DecodePieces(rest))
    ensures !p.Valid() ==> DecodePieces(p.Text() + rest) == None
  {
    var s := p.Text() + rest;
    assert s[|p.Text()|..] == rest;
    match p {
      case Raw(c) => assert s[0] == c;
      case Escape(letter) => assert s[0] == '\\' && s[1] == letter;
      case Hex(high, low) => assert s[0] == '\\' && s[1] == 'x' && s[2] == high && s[3] == low;
      case Unicode(a, b, c, d) => assert s[0] == '\\' && s[1] == 'u';
    }
  }

  lemma {:induction false} PiecesRefused(pieces: seq<Piece>)
    requires WellFormedPieces(pieces) && !ValidPieces(pieces)
    ensures DecodePieces(PiecesText(pieces)) == None
  {
    hide DecodePieces, Piece.Text, Piece.Valid, Piece.WellFormed;
    PieceDecodes(pieces[0], PiecesText(pieces[1..]));
    if pieces[0].Valid() {
      assert !ValidPieces(pieces[1..]) by {
        var i :| 0 <= i < |pieces| && !pieces[i].Valid();
        assert pieces[1..][i - 1] == pieces[i];
      }
      PiecesRefused(pieces[1..]);
    }
  }

  lemma LeafRefused(node: Node, rest: string, depth: nat, isRoot: bool, rules: Rules)
    requires WellFormedNode(node, rules) && IsDelimited(rest) && depth < STACK_LIMIT
    requires !node.ArrayNode? && !node.ObjectNode? && !ValidNode(node, rules)
    ensures ParseValue(NodeText(node) + rest, depth, isRoot, rules).Err?
  {
    hide AfterGap, TokenAt, IsGapEnd, IsDelimited, Number.Text, Number.Valid, DecodeString, NumberMeaning, Quoted;
    var s := NodeText(node) + rest;
    NodeStart(node, rest, rules);
    AfterGapStays(s);
    assert s[..|NodeText(node)|] == NodeText(node);
    if node.StringNode? {
      QuotedEnds(node.pieces, rest);
      PiecesRefused(node.pieces);
    }
  }

  /** A node of tokens in the right places that has no meaning, or is nested too deep, is
      refused. */
  lemma {:induction false} NodeRefused(node: Node, rest: string, depth: nat, isRoot: bool, rules: Rules)
    requires WellFormedNode(node, rules) && IsDelimited(rest)
    requires ValidNode(node, rules) ==> depth + NodeDepth(node) > STACK_LIMIT
    ensures ParseValue(NodeText(node) + rest, depth, isRoot, rules).Err?
    decreases node, 1
  {
    hide AfterGap, TokenAt, IsGapEnd, IsDelimited, ItemsText, MembersText, GapText, ParseItems, ParseMembers,
         WellFormedItems, WellFormedMembers, ValidItems, ValidMembers;
    var s := NodeText(node) + rest;
    if depth < STACK_LIMIT {
      NodeStart(node, rest, rules);
      AfterGapStays(s);
      match node {
        case ArrayNode(inner, items) =>
          var t := ItemsText(items) + rest;
          assert s[1..] == GapText(inner) + t;
          ItemsStart(items, rest, rules);
          GapEnds(inner, t);
          ItemsRefused(items, rest, depth + 1, [], rules);
        case ObjectNode(inner, members) =>
          var t := MembersText(members) + rest;
          assert s[1..] == GapText(inner) + t;
          MembersStart(members, rest);
          GapEnds(inner, t);
          MembersRefused(members, rest, depth + 1, map[], rules);
        case _ =>
          hide ParseValue, NodeText;
          LeafRefused(node, rest, depth, isRoot, rules);
      }
    }
  }

  lemma {:induction false} ItemsRefused(items: Items, rest: string, depth: nat, before: seq<Value>, rules: Rules)
    requires WellFormedItems(items, rules) && depth <= STACK_LIMIT
    requires ValidItems(items, rules) ==> depth + ItemsDepth(items) > STACK_LIMIT
    ensures ParseItems(ItemsText(items) + rest, depth, before, rules).Err?
    decreases items, 0
  {
    hide TokenAt, AfterGap, NodeText, GapText, ItemTail, ValidNode, WellFormedNode, IsGapEnd, IsDelimited, NodeMeaning,
         ParseValue, NodeDepth, ValidGap;
    ItemsStart(items, rest, rules);
    if items.Item? {
      hide ItemsText;
      var tail := ItemTail(items, rest);
      ItemSplit(items, rest, rules);
      if !ValidNode(items.node, rules) || depth + NodeDepth(items.node) > STACK_LIMIT {
        NodeRefused(items.node, GapText(items.after) + tail, depth, false, rules);
      } else {
        NodeRead(items.node, GapText(items.after) + tail, depth, false, rules);
        GapEnds(items.after, tail);
        ItemTailStep(items, rest, rules);
        if items.comma {
          ItemsRefused(items.rest, rest, depth, before + [NodeMeaning(items.node, rules)], rules);
        } else {
          LastItem(items, rules);
        }
      }
    }
  }

  lemma LastItem(items: Items, rules: Rules)
    requires items.Item? && !items.comma && WellFormedItems(items, rules) && ValidNode(items.node, rules)
    ensures ValidItems(items, rules) && ItemsDepth(items) == NodeDepth(items.node)
  {
    hide ValidNode, NodeDepth, ValidGap;
  }

  lemma LastMember(members: Members, rules: Rules)
    requires members.Member? && !members.comma && WellFormedMembers(members, rules)
    requires ValidPieces(members.key) && ValidNode(members.node, rules)
    ensures ValidMembers(members, rules) && MembersDepth(members) == NodeDepth(members.node)
  {
    hide ValidNode, NodeDepth, ValidGap;
  }

  lemma KeyRefused(key: seq<Piece>, rest: string, depth: nat, before: map<string, Value>, rules: Rules)
    requires WellFormedPieces(key) && !ValidPieces(key)
    ensures ParseMembers(Quoted(key) + rest, depth, before, rules).Err?
  {
    hide TokenAt, Quoted, DecodeString;
    QuotedEnds(key, rest);
    PiecesRefused(key);
  }

  lemma {:induction false} MembersRefused(members: Members, rest: string, depth: nat, before: map<string, Value>, rules: Rules)
    requires WellFormedMembers(members, rules) && depth <= STACK_LIMIT
    requires ValidMembers(members, rules) ==> depth + MembersDepth(members) > STACK_LIMIT
    ensures ParseMembers(MembersText(members) + rest, depth, before, rules).Err?
    decreases members, 0
  {
    hide TokenAt, AfterGap, NodeText, GapText, MemberTail, ValidNode, WellFormedNode, IsGapEnd, IsDelimited, NodeMeaning,
         ParseValue, ParseMembers, Quoted, MembersText, PiecesMeaning, NodeDepth, ValidGap, ValidPieces, WellFormedPieces;
    if members.Member? {
      var tail := MemberTail(members, rest);
      MemberText(members, rest);
      MemberSplit(members, rest, rules);
      var inner := NodeText(members.node) + (GapText(members.after) + tail);
      if !ValidPieces(members.key) {
        KeyRefused(members.key, GapText(members.beforeColon) + (":" + (GapText(members.afterColon) + inner)), depth, before, rules);
      } else {
        KeyRead(members.key, members.beforeColon, members.afterColon, inner, depth, before, rules);
        if !ValidNode(members.node, rules) || depth + NodeDepth(members.node) > STACK_LIMIT {
          NodeRefused(members.node, GapText(members.after) + tail, depth, false, rules);
        } else {
          MembersGoOn(members, rest, depth, before, rules);
          if members.comma {
            MembersRefused(members.rest, rest, depth,
                           before[PiecesMeaning(members.key) := NodeMeaning(members.node, rules)], rules);
          } else {
            LastMember(members, rules);
          }
        }
      }
    }
  }

  /** After a member that is read, the object goes on with the next one. */
  lemma MembersGoOn(members: Members, rest: string, depth: nat, before: map<string, Value>, rules: Rules)
    requires members.Member? && WellFormedMembers(members, rules) && ValidPieces(members.key)
    requires ValidNode(members.node, rules) && depth + NodeDepth(members.node) <= STACK_LIMIT
    ensures members.comma ==>
      ParseMembers(MembersText(members) + rest, depth, before, rules) ==
      ParseMembers(MembersText(members.rest) + rest, depth,
                   before[PiecesMeaning(members.key) := NodeMeaning(members.node, rules)], rules)
  {
    hide TokenAt, AfterGap, NodeText, GapText, MemberTail, ValidNode, WellFormedNode, IsGapEnd, IsDelimited, NodeMeaning,
         ParseValue, ParseMembers, Quoted, MembersText, PiecesMeaning, NodeDepth, ValidGap, ValidPieces, WellFormedPieces;
    var tail := MemberTail(members, rest);
    MemberText(members, rest);
    MemberSplit(members, rest, rules);
    KeyRead(members.key, members.beforeColon, members.afterColon,
            NodeText(members.node) + (GapText(members.after) + tail), depth, before, rules);
    NodeRead(members.node, GapText(members.after) + tail, depth, false, rules);
    GapEnds(members.after, tail);
    MemberTailStep(members, rest, rules);
  }

  // ---------------------------------------------------------------------------------
  // Main results
  // ---------------------------------------------------------------------------------

  lemma DocumentRefused(doc: Document, checkRoot: bool, rules: Rules)
    requires doc.WellFormed(rules) && doc.HasContainerRoot()
    requires ValidNode(doc.root, rules) ==> NodeDepth(doc.root) > STACK_LIMIT
    ensures ParseDocument(doc.Text(), checkRoot, rules).Failure?
  {
    hide NodeText, GapText, ValidNode, WellFormedNode, Tail.Text, AfterGap, TokenAt, ParseValue, IsGapEnd, IsDelimited,
         SkipMark, Document.Text, NodeDepth;
    MarkSkipped(doc, rules);
    var tail := GapText(doc.trail) + doc.tail.Text();
    TailDelimits(doc.tail);
    GapDelimits(doc.trail, doc.tail.Text());
    LeadingGap(doc.lead, NodeText(doc.root) + tail, 0, checkRoot, rules);
    NodeRefused(doc.root, tail, 0, checkRoot, rules);
  }

  /** A text of RFC 4627 is read exactly if it has no four-digit escape, no more than 100 values are
      nested, and its numbers convert; it is read with its meaning. */
  lemma StrictIsReadIff(doc: Document, checkRoot: bool, rules: Rules)
    requires IsStrict(doc)
    ensures ParseDocument(doc.Text(), checkRoot, rules).Success? <==>
      !HasUnicode(doc.root) && NodeDepth(doc.root) <= STACK_LIMIT && NumbersConvert(doc.root, rules)
    ensures ParseDocument(doc.Text(), checkRoot, rules).Success? ==>
      doc.Valid(rules) && ParseDocument(doc.Text(), checkRoot, rules).value == NodeMeaning(doc.root, rules)
  {
    StrictNode(doc.root, rules);
    hide ParseDocument, IsStrictNode, ValidNode, WellFormedNode, NodeDepth, HasUnicode, NumbersConvert, Document.Text, NodeMeaning;
    if ValidNode(doc.root, rules) && NodeDepth(doc.root) <= STACK_LIMIT {
      DocumentRead(doc, checkRoot, rules);
    } else {
      DocumentRefused(doc, checkRoot, rules);
    }
  }

  /** A derived text is a text of RFC 4627 exactly if its one derivation uses none of the
      extensions: byte-order mark, comments, `\v`, `\x`, raw control characters, trailing commas, a
      root that is no container, and text after a NUL character. */
  lemma AcceptedIsStrictIff(doc: Document, text: string, v: Value, checkRoot: bool, rules: Rules)
    requires Derives(doc, text, v, checkRoot, rules)
    ensures IsStrictText(text) <==> IsStrict(doc)
  {
    ValidIsWellFormed(doc.root, rules);
    hide Document.Text, IsStrictNode, ValidNode, WellFormedNode, NodeMeaning, NodeDepth;
    if IsStrictText(text) {
      var strict :| IsStrict(strict) && strict.Text() == text;
      StrictNode(strict.root, rules);
      DocumentIsUnique(doc, strict, rules);
    }
  }

  /** A text is derived in one way only, whatever its value. */
  lemma DerivationIsUnique(doc: Document, other: Document, text: string, v: Value, w: Value, checkRoot: bool, rules: Rules)
    requires Derives(doc, text, v, checkRoot, rules) && Derives(other, text, w, checkRoot, rules)
    ensures doc == other && v == w
  {
    ValidIsWellFormed(doc.root, rules);
    ValidIsWellFormed(other.root, rules);
    hide Document.Text, ValidNode, WellFormedNode, NodeMeaning, NodeDepth;
    DocumentIsUnique(doc, other, rules);
  }

  /** A text of RFC 4627 that is not read. */
  lemma UnicodeEscapeIsRefused(checkRoot: bool, rules: Rules)
    ensures IsStrictText("[\"\\u0041\"]") && ParseDocument("[\"\\u0041\"]", checkRoot, rules).Failure?
  {
    hide Quoted, ItemsText, IsStrict, Document.Text, ParseDocument, HasUnicode;
    var pieces := [Unicode('0', '0', '4', '1')];
    var items := Item(StringNode(pieces), [], false, [], NoItems);
    var doc := Document(false, [], ArrayNode([], items), [], EndOfText);
    UnicodeText(pieces);
    OneStringText(doc, items, pieces);
    assert "[" + ("\"\\u0041\"" + "]") == "[\"\\u0041\"]";
    StrictIsReadIff(doc, checkRoot, rules);
  }

  lemma OneStringText(doc: Document, items: Items, pieces: seq<Piece>)
    requires items == Item(StringNode(pieces), [], false, [], NoItems) && pieces != []
    requires doc == Document(false, [], ArrayNode([], items), [], EndOfText)
    requires AreStrictPieces(pieces) && pieces[0].Unicode?
    ensures doc.Text() == "[" + (Quoted(pieces) + "]") && IsStrict(doc) && HasUnicode(doc.root)
  {
    hide Quoted, AreStrictPieces;
    OneItemText(items);
    hide ItemsText;
    var t := ItemsText(items);
    assert t == Quoted(pieces) + "]";
    assert NodeText(doc.root) == "[" + ("" + t);
    assert "" + t == t && "[" + t + ("" + "") == "[" + t && "" + ("[" + t) == "[" + t;
    assert doc.Body() == "" + (NodeText(doc.root) + ("" + ""));
    assert IsStrictNode(items.node) && AreStrictItems(NoItems) && AreStrictItems(items);
    assert HaveUnicode(pieces) && HasUnicode(items.node) && ItemsHaveUnicode(items);
  }

  lemma UnicodeText(pieces: seq<Piece>)
    requires pieces == [Unicode('0', '0', '4', '1')]
    ensures Quoted(pieces) == "\"\\u0041\"" && AreStrictPieces(pieces)
  {
    assert pieces[1..] == [] && PiecesText([]) == "";
    assert pieces[0].Text() == "\\u0041";
    assert PiecesText(pieces) == "\\u0041" + "" == "\\u0041";
  }

  lemma OneItemText(items: Items)
    requires items.Item? && items.after == [] && !items.comma && items.rest == NoItems
    ensures ItemsText(items) == NodeText(items.node) + "]"
  {
    hide NodeText;
    assert "" + ("" + "]") == "]";
  }

  // ---------------------------------------------------------------------------------
  // Texts that are read although they are not strict
  // ---------------------------------------------------------------------------------

  lemma ExtensionIsAccepted(doc: Document, checkRoot: bool, rules: Rules)
    requires doc.Valid(rules) && NodeDepth(doc.root) <= STACK_LIMIT && doc.HasContainerRoot() && !IsStrict(doc)
    ensures ParseDocument(doc.Text(), checkRoot, rules) == Success(NodeMeaning(doc.root, rules))
    ensures !IsStrictText(doc.Text())
  {
    hide ParseDocument, Document.Text, IsStrict, ValidNode, NodeMeaning, NodeDepth;
    DocumentRead(doc, checkRoot, rules);
    AcceptedIsStrictIff(doc, doc.Text(), NodeMeaning(doc.root, rules), checkRoot, rules);
  }

  /** An empty array with something in it, and something behind it. */
  lemma EmptyArray(inner: Gap, tail: Tail, rules: Rules)
    requires ValidGap(inner) && tail.Valid()
    ensures var doc := Document(false, [], ArrayNode(inner, NoItems), [], tail);
            && doc.Valid(rules) && NodeDepth(doc.root) == 1 && NodeMeaning(doc.root, rules) == List([])
            && doc.Text() == "[" + GapText(inner) + "]" + tail.Text()
  {
    hide Tail.Text, Tail.Valid, GapText;
    assert ValidItems(NoItems, rules) && ItemsDepth(NoItems) == 0 && ItemsMeaning(NoItems, rules) == [];
    var doc := Document(false, [], ArrayNode(inner, NoItems), [], tail);
    assert GapText([]) == "" by { NoGap(""); assert GapText([]) + "" == GapText([]); }
    assert NodeText(doc.root) == "[" + (GapText(inner) + "]") == "[" + GapText(inner) + "]";
    assert doc.Body() == "" + (NodeText(doc.root) + ("" + tail.Text()));
    assert "" + tail.Text() == tail.Text();
    assert "" + (NodeText(doc.root) + tail.Text()) == NodeText(doc.root) + tail.Text();
    assert "" + doc.Body() == doc.Body();
  }

  /** A NUL character ends the text for the reader, whatever follows. */
  lemma NulTailIsAccepted(junk: string, checkRoot: bool, rules: Rules)
    ensures ParseDocument("[]\0" + junk, checkRoot, rules) == Success(List([])) && !IsStrictText("[]\0" + junk)
  {
    var doc := Document(false, [], ArrayNode([], NoItems), [], AfterNul(junk));
    EmptyArray([], AfterNul(junk), rules);
    assert "[" + "" + "]" + ("\0" + junk) == "[]\0" + junk;
    assert !IsStrict(doc);
    hide ParseDocument, Document.Text, IsStrict, ValidNode, NodeMeaning, NodeDepth, NodeText;
    ExtensionIsAccepted(doc, checkRoot, rules);
  }

  /** A comment. */
  lemma CommentIsAccepted(checkRoot: bool, rules: Rules)
    ensures ParseDocument("[/**/]", checkRoot, rules) == Success(List([])) && !IsStrictText("[/**/]")
  {
    var gap := [BlockComment("")];
    var doc := Document(false, [], ArrayNode(gap, NoItems), [], EndOfText);
    assert ValidGap(gap) && !gap[0].Blank?;
    assert GapText(gap) == "/**/" by { GapCons(gap, ""); assert GapText(gap) + "" == GapText(gap); }
    EmptyArray(gap, EndOfText, rules);
    assert "[" + "/**/" + "]" + "" == "[/**/]";
    assert !IsStrict(doc);
    hide ParseDocument, Document.Text, IsStrict, ValidNode, NodeMeaning, NodeDepth, NodeText, GapText;
    ExtensionIsAccepted(doc, checkRoot, rules);
  }

  /** An array of one string that has one unit. */
  lemma OneUnit(p: Piece, rules: Rules)
    requires p.Valid()
    ensures var doc := Document(false, [], ArrayNode([], Item(StringNode([p]), [], false, [], NoItems)), [], EndOfText);
            && doc.Valid(rules) && NodeDepth(doc.root) == 2 && NodeMeaning(doc.root, rules) == List([String([p.Meaning()])])
            && doc.Text() == "[\"" + p.Text() + "\"]" && (IsStrict(doc) <==> IsStrictPiece(p))
  {
    hide Piece.Text, Piece.Meaning, IsStrictPiece;
    var pieces := [p];
    var items := Item(StringNode(pieces), [], false, [], NoItems);
    var node := ArrayNode([], items);
    var doc := Document(false, [], node, [], EndOfText);
    OneUnitText(p);
    OneItemText(items);
    assert pieces[1..] == [] && PiecesMeaning([]) == "" && PiecesMeaning(pieces) == [p.Meaning()];
    hide Quoted, ItemsText, Piece.Valid, PiecesMeaning;
    assert ValidItems(NoItems, rules) && ItemsDepth(NoItems) == 0 && ItemsMeaning(NoItems, rules) == [];
    assert ValidNode(items.node, rules) && NodeMeaning(items.node, rules) == String([p.Meaning()]) && NodeDepth(items.node) == 1;
    assert ValidItems(items, rules) && ItemsDepth(items) == 1 && ItemsMeaning(items, rules) == [String([p.Meaning()])] + [];
    var t := ItemsText(items);
    assert NodeText(node) == "[" + ("" + t) && "" + t == t;
    assert "[" + ("\"" + p.Text() + "\"" + "]") == "[\"" + p.Text() + "\"]";
    assert doc.Body() == "" + (NodeText(node) + ("" + ""));
    assert "" + doc.Body() == doc.Body() == NodeText(node);
    assert AreStrictItems(NoItems) && (AreStrictPieces(pieces) <==> IsStrictPiece(pieces[0]));
    assert IsStrictNode(items.node) <==> AreStrictPieces(pieces);
    assert IsStrictGap([]) && (AreStrictItems(items) <==> IsStrictNode(items.node)) && (IsStrictNode(node) <==> AreStrictItems(items));
  }

  lemma OneUnitText(p: Piece)
    ensures Quoted([p]) == "\"" + p.Text() + "\""
  {
    hide Piece.Text;
    assert [p][1..] == [] && PiecesText([]) == "" && PiecesText([p]) == p.Text() + "" == p.Text();
  }

  /** A string with a vertical tab escape, with a two-digit escape, or with a raw control
      character. */
  lemma UnitIsAccepted(p: Piece, checkRoot: bool, rules: Rules)
    requires p == Escape('v') || p == Hex('0', 'b') || p == Raw(11 as char)
    ensures ParseDocument("[\"" + p.Text() + "\"]", checkRoot, rules) == Success(List([String([11 as char])]))
    ensures !IsStrictText("[\"" + p.Text() + "\"]")
  {
    assert p.Valid() && !IsStrictPiece(p);
    assert p.Meaning() == 11 as char by { ElevenIsHex(); }
    OneUnit(p, rules);
    hide ParseDocument, Document.Text, IsStrict, ValidNode, NodeMeaning, NodeDepth, NodeText, Piece.Text, Piece.Meaning;
    ExtensionIsAccepted(Document(false, [], ArrayNode([], Item(StringNode([p]), [], false, [], NoItems)), [], EndOfText),
                        checkRoot, rules);
  }

  lemma ElevenIsHex()
    ensures HexMeaning('0', 'b') == 11 as char
  {
  }
}
