/** The language src/chromium/json/json_reader.cc reads, as concrete syntax trees.

    A tree has a text and a meaning.  The rules are sections 2 to 2.5 of RFC 4627 with the
    reader's deviations: an optional byte-order mark, comments between tokens, a vertical
    tab escape and two-digit hex escapes, raw control characters inside strings,
    four-digit Unicode escapes without a meaning, an optional trailing comma, and the last
    value winning when a key is repeated.  Nothing here mentions how the reader works.
  */
module JsonGrammar {
  import opened NumberConversions
  import opened ValueTree
  import opened Wrappers

  /** What the reader is configured with.  `toDouble` stands for the floating-point
      conversion of the C++ library: the finite number a text denotes, if there is one. */
  datatype Rules = Rules(trailingComma: bool, toDouble: string -> Option<real>)

  // ---------------------------------------------------------------------------------
  // Gaps between tokens
  // ---------------------------------------------------------------------------------

  predicate IsBlank(c: char) {
    c == ' ' || c == '\n' || c == '\r' || c == '\t'
  }

  predicate IsLineEnd(c: char) {
    c == '\n' || c == '\r'
  }

  datatype Filler =
    | Blank(c: char)
    | LineComment(line: string, end: char)
    | BlockComment(block: string)
  {
    predicate Valid() {
      match this
      case Blank(c) => IsBlank(c)
      case LineComment(line, end) => IsLine(line) && IsLineEnd(end)
      case BlockComment(block) => IsBlock(block)
    }

    function Text(): string {
      match this
      case Blank(c) => [c]
      case LineComment(line, end) => "//" + line + [end]
      case BlockComment(block) => "/*" + block + "*/"
    }
  }

  predicate IsLine(line: string) {
    forall i :: 0 <= i < |line| ==> !IsLineEnd(line[i])
  }

  /** The comment terminator does not occur inside. */
  predicate IsBlock(block: string) {
    forall i :: 0 <= i < |block| - 1 ==> !(block[i] == '*' && block[i + 1] == '/')
  }

  type Gap = seq<Filler>

  predicate ValidGap(gap: Gap) {
    forall i :: 0 <= i < |gap| ==> gap[i].Valid()
  }

  function GapText(gap: Gap): string {
    if gap == [] then "" else gap[0].Text() + GapText(gap[1..])
  }

  // ---------------------------------------------------------------------------------
  // Numbers and strings
  // ---------------------------------------------------------------------------------

  datatype Exponent = Exponent(mark: char, sign: string, digits: string)

  /** Section 2.4 of RFC 4627: [minus] int [frac] [exp]. */
  datatype Number = Number(minus: bool, whole: string, fraction: Option<string>, exponent: Option<Exponent>)
  {
    predicate Valid() {
      && IsDigits(whole)
      && (whole[0] == '0' ==> |whole| == 1)
      && (fraction.Some? ==> IsDigits(fraction.value))
      && (exponent.Some? ==>
            && (exponent.value.mark == 'e' || exponent.value.mark == 'E')
            && (exponent.value.sign == "" || exponent.value.sign == "+" || exponent.value.sign == "-")
            && IsDigits(exponent.value.digits))
    }

    function ExponentText(): string {
      if exponent.Some? then [exponent.value.mark] + exponent.value.sign + exponent.value.digits else ""
    }

    function FractionText(): string {
      if fraction.Some? then "." + fraction.value else ""
    }

    function Text(): string {
      (if minus then "-" else "") + whole + FractionText() + ExponentText()
    }
  }

  predicate IsDigits(s: string) {
    s != [] && AllDigits(s)
  }

  /** A number text denotes an integer when it fits 32 bits, else a finite double. */
  function NumberMeaning(text: string, rules: Rules): Option<Value> {
    var whole := ParsedInt(text, 4);
    if whole.Some? then Some(Integer(whole.value))
    else
      var double := rules.toDouble(text);
      if double.Some? then Some(Double(double.value)) else None
  }

  /** One unit of string text: a character standing for itself, a one-letter escape, a two-digit
      hex escape, or a four-digit Unicode escape. */
  datatype Piece =
    | Raw(c: char)
    | Escape(letter: char)
    | Hex(high: char, low: char)
    | Unicode(a: char, b: char, c: char, d: char)
  {
    /** Whether the unit can stand in a string token. */
    predicate WellFormed() {
      match this
      case Raw(c) => c != '"' && c != '\\'
      case Escape(letter) => IsEscapeLetter(letter)
      case Hex(high, low) => IsHexDigit(high) && IsHexDigit(low)
      case Unicode(a, b, c, d) => IsHexDigit(a) && IsHexDigit(b) && IsHexDigit(c) && IsHexDigit(d)
    }

    /** Whether it has a meaning as well: a four-digit escape has none. */
    predicate Valid() {
      WellFormed() && !Unicode?
    }

    function Text(): string {
      match this
      case Raw(c) => [c]
      case Escape(letter) => ['\\', letter]
      case Hex(high, low) => ['\\', 'x', high, low]
      case Unicode(a, b, c, d) => ['\\', 'u', a, b, c, d]
    }

    function Meaning(): char
      requires Valid()
    {
      match this
      case Raw(c) => c
      case Escape(letter) => EscapeMeaning(letter)
      case Hex(high, low) => HexMeaning(high, low)
    }
  }

  predicate IsEscapeLetter(c: char) {
    c == '\\' || c == '/' || c == 'b' || c == 'f' || c == 'n' || c == 'r' || c == 't' || c == 'v' || c == '"'
  }

  function EscapeMeaning(c: char): char
    requires IsEscapeLetter(c)
  {
    match c
    case 'b' => 8 as char
    case 'f' => 12 as char
    case 'n' => '\n'
    case 'r' => '\r'
    case 't' => '\t'
    case 'v' => 11 as char
    case _ => c
  }

  function HexMeaning(high: char, low: char): char
    requires IsHexDigit(high) && IsHexDigit(low)
  {
    (16 * HexValue(high) + HexValue(low)) as char
  }

  predicate ValidPieces(pieces: seq<Piece>) {
    forall i :: 0 <= i < |pieces| ==> pieces[i].Valid()
  }

  predicate WellFormedPieces(pieces: seq<Piece>) {
    forall i :: 0 <= i < |pieces| ==> pieces[i].WellFormed()
  }

  function PiecesText(pieces: seq<Piece>): string {
    if pieces == [] then "" else pieces[0].Text() + PiecesText(pieces[1..])
  }

  function PiecesMeaning(pieces: seq<Piece>): string
    requires ValidPieces(pieces)
  {
    if pieces == [] then "" else [pieces[0].Meaning()] + PiecesMeaning(pieces[1..])
  }

  function Quoted(pieces: seq<Piece>): string {
    "\"" + PiecesText(pieces) + "\""
  }

  // ---------------------------------------------------------------------------------
  // Values
  // ---------------------------------------------------------------------------------

  datatype Node =
    | NullNode
    | TrueNode
    | FalseNode
    | NumberNode(number: Number)
    | StringNode(pieces: seq<Piece>)
    | ArrayNode(inner: Gap, items: Items)
    | ObjectNode(inner: Gap, members: Members)

  /** The rest of an array, from an item (or the closing bracket) on.  `comma` tells whether
      a comma and a gap follow the item. */
  datatype Items =
    | NoItems
    | Item(node: Node, after: Gap, comma: bool, gap: Gap, rest: Items)

  datatype Members =
    | NoMembers
    | Member(key: seq<Piece>, beforeColon: Gap, afterColon: Gap,
             node: Node, after: Gap, comma: bool, gap: Gap, rest: Members)

  function NodeText(node: Node): string {
    match node
    case NullNode => "null"
    case TrueNode => "true"
    case FalseNode => "false"
    case NumberNode(number) => number.Text()
    case StringNode(pieces) => Quoted(pieces)
    case ArrayNode(inner, items) => "[" + (GapText(inner) + ItemsText(items))
    case ObjectNode(inner, members) => "{" + (GapText(inner) + MembersText(members))
  }

  function SeparatorText(comma: bool, gap: Gap): string {
    if comma then "," + GapText(gap) else ""
  }

  function ItemsText(items: Items): string {
    match items
    case NoItems => "]"
    case Item(node, after, comma, gap, rest) =>
      NodeText(node) + (GapText(after) + (SeparatorText(comma, gap) + ItemsText(rest)))
  }

  function MembersText(members: Members): string {
    match members
    case NoMembers => "}"
    case Member(key, beforeColon, afterColon, node, after, comma, gap, rest) =>
      Quoted(key) + (GapText(beforeColon) + (":" + (GapText(afterColon) +
      (NodeText(node) + (GapText(after) + (SeparatorText(comma, gap) + MembersText(rest)))))))
  }

  /** The nodes whose text consists of tokens in the right places. */
  predicate WellFormedNode(node: Node, rules: Rules) {
    match node
    case NumberNode(number) => number.Valid()
    case StringNode(pieces) => WellFormedPieces(pieces)
    case ArrayNode(inner, items) => ValidGap(inner) && WellFormedItems(items, rules)
    case ObjectNode(inner, members) => ValidGap(inner) && WellFormedMembers(members, rules)
    case _ => true
  }

  /** Items are separated by commas; one may follow the last item if the rules say so. */
  predicate WellFormedItems(items: Items, rules: Rules) {
    match items
    case NoItems => true
    case Item(node, after, comma, gap, rest) =>
      && WellFormedNode(node, rules) && ValidGap(after) && ValidGap(gap) && WellFormedItems(rest, rules)
      && (!comma ==> rest.NoItems? && gap == [])
      && (comma && rest.NoItems? ==> rules.trailingComma)
  }

  predicate WellFormedMembers(members: Members, rules: Rules) {
    match members
    case NoMembers => true
    case Member(key, beforeColon, afterColon, node, after, comma, gap, rest) =>
      && WellFormedPieces(key) && ValidGap(beforeColon) && ValidGap(afterColon)
      && WellFormedNode(node, rules) && ValidGap(after) && ValidGap(gap) && WellFormedMembers(rest, rules)
      && (!comma ==> rest.NoMembers? && gap == [])
      && (comma && rest.NoMembers? ==> rules.trailingComma)
  }

  /** The nodes that have a meaning: their numbers convert, and their strings have no four-digit
      escape. */
  predicate ValidNode(node: Node, rules: Rules) {
    match node
    case NumberNode(number) => number.Valid() && NumberMeaning(number.Text(), rules).Some?
    case StringNode(pieces) => ValidPieces(pieces)
    case ArrayNode(inner, items) => ValidGap(inner) && ValidItems(items, rules)
    case ObjectNode(inner, members) => ValidGap(inner) && ValidMembers(members, rules)
    case _ => true
  }

  predicate ValidItems(items: Items, rules: Rules) {
    match items
    case NoItems => true
    case Item(node, after, comma, gap, rest) =>
      && ValidNode(node, rules) && ValidGap(after) && ValidGap(gap) && ValidItems(rest, rules)
      && (!comma ==> rest.NoItems? && gap == [])
      && (comma && rest.NoItems? ==> rules.trailingComma)
  }

  predicate ValidMembers(members: Members, rules: Rules) {
    match members
    case NoMembers => true
    case Member(key, beforeColon, afterColon, node, after, comma, gap, rest) =>
      && ValidPieces(key) && ValidGap(beforeColon) && ValidGap(afterColon)
      && ValidNode(node, rules) && ValidGap(after) && ValidGap(gap) && ValidMembers(rest, rules)
      && (!comma ==> rest.NoMembers? && gap == [])
      && (comma && rest.NoMembers? ==> rules.trailingComma)
  }

  function NodeMeaning(node: Node, rules: Rules): Value
    requires ValidNode(node, rules)
  {
    match node
    case NullNode => Null
    case TrueNode => Boolean(true)
    case FalseNode => Boolean(false)
    case NumberNode(number) => NumberMeaning(number.Text(), rules).value
    case StringNode(pieces) => String(PiecesMeaning(pieces))
    case ArrayNode(inner, items) => List(ItemsMeaning(items, rules))
    case ObjectNode(inner, members) => Dictionary(MembersMeaning(members, map[], rules))
  }

  function ItemsMeaning(items: Items, rules: Rules): seq<Value>
    requires ValidItems(items, rules)
  {
    match items
    case NoItems => []
    case Item(node, after, comma, gap, rest) => [NodeMeaning(node, rules)] + ItemsMeaning(rest, rules)
  }

  /** The entries of an object that already holds `before`: later members override. */
  function MembersMeaning(members: Members, before: map<string, Value>, rules: Rules): map<string, Value>
    requires ValidMembers(members, rules)
  {
    match members
    case NoMembers => before
    case Member(key, beforeColon, afterColon, node, after, comma, gap, rest) =>
      MembersMeaning(rest, before[PiecesMeaning(key) := NodeMeaning(node, rules)], rules)
  }

  function Max(a: nat, b: nat): nat {
    if a < b then b else a
  }

  /** The number of values nested in one another, the node itself included. */
  function NodeDepth(node: Node): nat {
    match node
    case ArrayNode(inner, items) => 1 + ItemsDepth(items)
    case ObjectNode(inner, members) => 1 + MembersDepth(members)
    case _ => 1
  }

  function ItemsDepth(items: Items): nat {
    match items
    case NoItems => 0
    case Item(node, after, comma, gap, rest) => Max(NodeDepth(node), ItemsDepth(rest))
  }

  function MembersDepth(members: Members): nat {
    match members
    case NoMembers => 0
    case Member(key, beforeColon, afterColon, node, after, comma, gap, rest) =>
      Max(NodeDepth(node), MembersDepth(rest))
  }

  // ---------------------------------------------------------------------------------
  // Documents
  // ---------------------------------------------------------------------------------

  const BYTE_ORDER_MARK: string := [0xEF as char, 0xBB as char, 0xBF as char]

  /** The unread end of a text: nothing, a comment without an end, or anything after a NUL
      character. */
  datatype Tail =
    | EndOfText
    | OpenLine(line: string)
    | OpenBlock(block: string)
    | AfterNul(junk: string)
  {
    predicate Valid() {
      match this
      case EndOfText => true
      case OpenLine(line) => IsLine(line)
      case OpenBlock(block) => IsBlock(block)
      case AfterNul(junk) => true
    }

    function Text(): string {
      match this
      case EndOfText => ""
      case OpenLine(line) => "//" + line
      case OpenBlock(block) => "/*" + block
      case AfterNul(junk) => "\0" + junk
    }
  }

  datatype Document = Document(mark: bool, lead: Gap, root: Node, trail: Gap, tail: Tail)
  {
    predicate WellFormed(rules: Rules) {
      ValidGap(lead) && WellFormedNode(root, rules) && ValidGap(trail) && tail.Valid()
    }

    predicate Valid(rules: Rules) {
      ValidGap(lead) && ValidNode(root, rules) && ValidGap(trail) && tail.Valid()
    }

    function Body(): string {
      GapText(lead) + (NodeText(root) + (GapText(trail) + tail.Text()))
    }

    function Text(): string {
      (if mark then BYTE_ORDER_MARK else "") + Body()
    }

    predicate HasContainerRoot() {
      root.ArrayNode? || root.ObjectNode?
    }
  }
}
