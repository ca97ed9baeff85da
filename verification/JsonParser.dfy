/** The reader of src/chromium/json/json_reader.cc as functions.

    Each function takes the unread part of the text and returns what is left of it.  These
    functions are the specification of the class in JsonReader.dfy; the theorems that tie
    them to the grammar are in JsonTheorems.dfy.
  */
module JsonParser {
  import opened JsonGrammar
  import opened NumberConversions
  import opened ValueTree
  import opened Wrappers

  const STACK_LIMIT: nat := 100

  datatype ErrorCode =
    | NoError
    | BadRootElementType
    | InvalidEscape
    | SyntaxError
    | TrailingComma
    | TooMuchNesting
    | UnexpectedDataAfterRoot
    | UnquotedDictionaryKey

  type RecordedCode = code: ErrorCode | code != NoError witness SyntaxError

  /** An error the reader recorded: its code and how much text was unread there. */
  datatype Fault = NoFault | Fault(code: RecordedCode, unread: nat)

  /** A value and the text after it, or the recorded error and how much text was unread when
      the reader gave up. */
  datatype Parsed<+T> = Ok(value: T, rest: string) | Err(fault: Fault, unread: nat)

  datatype TokenType =
    | ObjectBegin
    | ObjectEnd
    | ArrayBegin
    | ArrayEnd
    | StringToken
    | NumberToken
    | BoolTrue
    | BoolFalse
    | NullToken
    | ListSeparator
    | PairSeparator
    | EndOfInput
    | InvalidToken

  datatype Token = Token(kind: TokenType, length: nat)

  /** Text is followed by a NUL character in memory. */
  function At(s: string, i: nat): char {
    if i < |s| then s[i] else '\0'
  }

  // ---------------------------------------------------------------------------------
  // White space and comments
  // ---------------------------------------------------------------------------------

  /** What is left after a line comment's text. */
  function AfterLine(s: string): (rest: string)
    ensures |rest| <= |s|
  {
    if s == "" then "" else if IsLineEnd(s[0]) then s[1..] else AfterLine(s[1..])
  }

  /** What is left after a block comment's text. */
  function AfterBlock(s: string): (rest: string)
    ensures |rest| <= |s|
  {
    if s == "" then "" else if s[0] == '*' && At(s, 1) == '/' then s[2..] else AfterBlock(s[1..])
  }

  predicate StartsComment(s: string) {
    At(s, 0) == '/' && (At(s, 1) == '/' || At(s, 1) == '*')
  }

  function AfterComment(s: string): (rest: string)
    requires StartsComment(s)
    ensures |rest| < |s|
  {
    if s[1] == '/' then AfterLine(s[2..]) else AfterBlock(s[2..])
  }

  function AfterGap(s: string): (rest: string)
    ensures |rest| <= |s|
    ensures rest == "" || (!IsBlank(rest[0]) && !StartsComment(rest))
    decreases |s|
  {
    if s == "" then ""
    else if IsBlank(s[0]) then AfterGap(s[1..])
    else if StartsComment(s) then AfterGap(AfterComment(s))
    else s
  }

  // ---------------------------------------------------------------------------------
  // Tokens
  // ---------------------------------------------------------------------------------

  /** The text after a lexical unit, if the unit is well formed. */
  datatype Remainder = Malformed | After(text: string)

  /** What is left after one run of digits, if there is one and its zeros are allowed. */
  function AfterDigits(s: string, leadingZeros: bool): (rest: Remainder)
    ensures rest.After? ==> |rest.text| < |s|
  {
    var n := DigitCount(s);
    if n == 0 || (!leadingZeros && n > 1 && s[0] == '0') then Malformed else After(s[n..])
  }

  function AfterFraction(s: string): (rest: Remainder)
    ensures rest.After? ==> |rest.text| <= |s|
  {
    if At(s, 0) == '.' then AfterDigits(s[1..], true) else After(s)
  }

  function AfterExponent(s: string): (rest: Remainder)
    ensures rest.After? ==> |rest.text| <= |s|
  {
    if At(s, 0) == 'e' || At(s, 0) == 'E' then
      if At(s, 1) == '-' || At(s, 1) == '+' then AfterDigits(s[2..], true) else AfterDigits(s[1..], true)
    else After(s)
  }

  function AfterNumber(s: string): (rest: Remainder)
    ensures rest.After? ==> |rest.text| < |s|
  {
    var whole := AfterDigits(if At(s, 0) == '-' then s[1..] else s, false);
    if whole.Malformed? then Malformed else
    var fraction := AfterFraction(whole.text);
    if fraction.Malformed? then Malformed else
    AfterExponent(fraction.text)
  }

  datatype Scan = Closed(rest: string) | Unterminated | BadEscape(rest: string)

  /** What is left after a string's closing quote, or where its first bad escape is. */
  function ScanString(s: string): (scan: Scan)
    ensures scan.Closed? ==> |scan.rest| < |s|
    ensures scan.BadEscape? ==> |scan.rest| <= |s|
  {
    if s == "" then Unterminated
    else if s[0] == '"' then Closed(s[1..])
    else if s[0] != '\\' then ScanString(s[1..])
    else
      var escape := At(s, 1);
      if escape == 'x' then
        if IsHexDigit(At(s, 2)) && IsHexDigit(At(s, 3)) then ScanString(s[4..]) else BadEscape(s[1..])
      else if escape == 'u' then
        if IsHexDigit(At(s, 2)) && IsHexDigit(At(s, 3)) && IsHexDigit(At(s, 4)) && IsHexDigit(At(s, 5))
        then ScanString(s[6..]) else BadEscape(s[1..])
      else if IsEscapeLetter(escape) then ScanString(s[2..])
      else BadEscape(s[1..])
  }

  /** The token at the start of text without leading white space. */
  function TokenAt(s: string): (token: Token)
    ensures token.length <= |s|
    ensures token.kind == InvalidToken || token.kind == EndOfInput <==> token.length == 0
  {
    var c := At(s, 0);
    if c == '\0' then Token(EndOfInput, 0)
    else if c == 'n' then if "null" <= s then Token(NullToken, 4) else Token(InvalidToken, 0)
    else if c == 't' then if "true" <= s then Token(BoolTrue, 4) else Token(InvalidToken, 0)
    else if c == 'f' then if "false" <= s then Token(BoolFalse, 5) else Token(InvalidToken, 0)
    else if c == '[' then Token(ArrayBegin, 1)
    else if c == ']' then Token(ArrayEnd, 1)
    else if c == ',' then Token(ListSeparator, 1)
    else if c == '{' then Token(ObjectBegin, 1)
    else if c == '}' then Token(ObjectEnd, 1)
    else if c == ':' then Token(PairSeparator, 1)
    else if IsDigit(c) || c == '-' then
      var rest := AfterNumber(s);
      if rest.After? then Token(NumberToken, |s| - |rest.text|) else Token(InvalidToken, 0)
    else if c == '"' then
      var scan := ScanString(s[1..]);
      if scan.Closed? then Token(StringToken, |s| - |scan.rest|) else Token(InvalidToken, 0)
    else Token(InvalidToken, 0)
  }

  /** The error recorded while looking at that token. */
  function TokenFault(s: string): Fault {
    if At(s, 0) == '"' && ScanString(s[1..]).BadEscape?
    then Fault(InvalidEscape, |ScanString(s[1..]).rest|)
    else NoFault
  }

  /** The characters a string's inner text denotes; a four-digit escape has no decoding. */
  function DecodePieces(s: string): Option<string> {
    if s == "" then Some("")
    else if s[0] != '\\' then Prepend(s[0], DecodePieces(s[1..]))
    else if IsEscapeLetter(At(s, 1)) then Prepend(EscapeMeaning(s[1]), DecodePieces(s[2..]))
    else if At(s, 1) == 'x' && IsHexDigit(At(s, 2)) && IsHexDigit(At(s, 3)) then
      Prepend(HexMeaning(s[2], s[3]), DecodePieces(s[4..]))
    else None
  }

  function Prepend(c: char, s: Option<string>): Option<string> {
    if s.Some? then Some([c] + s.value) else None
  }

  /** The string a string token at the start of `s` denotes. */
  function DecodeString(s: string): Option<string>
    requires TokenAt(s).kind == StringToken
  {
    DecodePieces(s[1..TokenAt(s).length - 1])
  }

  // ---------------------------------------------------------------------------------
  // Values
  // ---------------------------------------------------------------------------------

  function ParseValue(s: string, depth: nat, isRoot: bool, rules: Rules): (r: Parsed<Value>)
    ensures r.Ok? ==> |r.rest| < |s|
    decreases |s|, 1
  {
    if depth >= STACK_LIMIT then Err(Fault(TooMuchNesting, |s|), |s|) else
    var t := AfterGap(s);
    var token := TokenAt(t);
    if isRoot && token.kind != ObjectBegin && token.kind != ArrayBegin then
      Err(Fault(BadRootElementType, |t|), |t|)
    else
      match token.kind
      case NullToken => Ok(Null, t[token.length..])
      case BoolTrue => Ok(Boolean(true), t[token.length..])
      case BoolFalse => Ok(Boolean(false), t[token.length..])
      case NumberToken =>
        var number := NumberMeaning(t[..token.length], rules);
        if number.Some? then Ok(number.value, t[token.length..]) else Err(NoFault, |t|)
      case StringToken =>
        var text := DecodeString(t);
        if text.Some? then Ok(String(text.value), t[token.length..]) else Err(NoFault, |t|)
      case ArrayBegin =>
        ParseItems(AfterGap(t[1..]), depth + 1, [], rules)
      case ObjectBegin =>
        ParseMembers(AfterGap(t[1..]), depth + 1, map[], rules)
      case _ => Err(TokenFault(t), |t|)
  }

  /** An array from an item or its closing bracket on; `items` came before. */
  function ParseItems(s: string, depth: nat, items: seq<Value>, rules: Rules): (r: Parsed<Value>)
    ensures r.Ok? ==> |r.rest| < |s|
    decreases |s|, 2
  {
    if TokenAt(s).kind == ArrayEnd then Ok(List(items), s[1..]) else
    var item := ParseValue(s, depth, false, rules);
    if item.Err? then item else
    var t := AfterGap(item.rest);
    var after := TokenAt(t).kind;
    if after == ArrayEnd then Ok(List(items + [item.value]), t[1..])
    else if after != ListSeparator then Err(TokenFault(t), |t|)
    else
      var u := AfterGap(t[1..]);
      if TokenAt(u).kind == ArrayEnd && !rules.trailingComma then Err(Fault(TrailingComma, |u|), |u|)
      else ParseItems(u, depth, items + [item.value], rules)
  }

  function ParseMembers(s: string, depth: nat, entries: map<string, Value>, rules: Rules): (r: Parsed<Value>)
    ensures r.Ok? ==> |r.rest| < |s|
    decreases |s|, 2
  {
    var token := TokenAt(s);
    if token.kind == ObjectEnd then Ok(Dictionary(entries), s[1..])
    else if token.kind != StringToken then Err(Fault(UnquotedDictionaryKey, |s|), |s|)
    else
      var key := DecodeString(s);
      if key.None? then Err(NoFault, |s|) else
      var t := AfterGap(s[token.length..]);
      if TokenAt(t).kind != PairSeparator then Err(TokenFault(t), |t|) else
      var value := ParseValue(AfterGap(t[1..]), depth, false, rules);
      if value.Err? then value else
      ParseAfterMember(AfterGap(value.rest), depth, entries[key.value := value.value], rules)
  }

  /** An object from the comma or closing brace after a member on. */
  function ParseAfterMember(t: string, depth: nat, entries: map<string, Value>, rules: Rules): (r: Parsed<Value>)
    ensures r.Ok? ==> |r.rest| < |t|
    decreases |t|, 3
  {
    var after := TokenAt(t).kind;
    if after == ObjectEnd then Ok(Dictionary(entries), t[1..])
    else if after != ListSeparator then Err(TokenFault(t), |t|)
    else
      var u := AfterGap(t[1..]);
      if TokenAt(u).kind == ObjectEnd && !rules.trailingComma then Err(Fault(TrailingComma, |u|), |u|)
      else ParseMembers(u, depth, entries, rules)
  }

  /** The outcome for a whole text: a value, or the error that is reported. */
  datatype Outcome = Success(value: Value) | Failure(code: RecordedCode, unread: nat)

  function SkipMark(text: string): (rest: string)
    ensures |rest| <= |text|
  {
    if BYTE_ORDER_MARK <= text then text[3..] else text
  }

  /** `JsonToValue`: a root value and then the end of the text.  An error nobody recorded is
      a syntax error where the reader stopped. */
  function ParseDocument(text: string, checkRoot: bool, rules: Rules): Outcome {
    var root := ParseValue(SkipMark(text), 0, checkRoot, rules);
    if root.Ok? then
      var t := AfterGap(root.rest);
      if TokenAt(t).kind == EndOfInput then Success(root.value)
      else Failure(UnexpectedDataAfterRoot, |t|)
    else if root.fault.Fault? then Failure(root.fault.code, root.fault.unread)
    else Failure(SyntaxError, root.unread)
  }
}
