/** Which error the reader of src/chromium/json/json_reader.cc reports, and where.

    A text is refused at its first defect, wherever that stands: inside arrays and objects that are
    open, behind items and members that are in order.
  */
module JsonErrors {
  import opened JsonGrammar
  import opened JsonParser
  import JsonTexts
  import opened JsonTheorems
  import opened NumberConversions
  import opened ValueTree
  import opened Wrappers

  // ---------------------------------------------------------------------------------
  // Behind parts that are in order
  // ---------------------------------------------------------------------------------

  /** An item of an array, with the comma behind it and gaps around that. */
  datatype ItemPart = ItemPart(node: Node, after: Gap, gap: Gap)
  {
    predicate Valid(depth: nat, rules: Rules) {
      ValidNode(node, rules) && depth + NodeDepth(node) <= STACK_LIMIT && ValidGap(after) && ValidGap(gap)
    }

    function Text(t: string): string {
      NodeText(node) + (GapText(after) + ("," + (GapText(gap) + t)))
    }
  }

  /** A key with the colon behind it and gaps around that. */
  datatype KeyPart = KeyPart(key: seq<Piece>, beforeColon: Gap, afterColon: Gap)
  {
    predicate Valid() {
      ValidPieces(key) && ValidGap(beforeColon) && ValidGap(afterColon)
    }

    function Text(t: string): string {
      Quoted(key) + (GapText(beforeColon) + (":" + (GapText(afterColon) + t)))
    }
  }

  /** A member of an object, with the comma behind it. */
  datatype MemberPart = MemberPart(key: KeyPart, item: ItemPart)
  {
    predicate Valid(depth: nat, rules: Rules) {
      key.Valid() && item.Valid(depth, rules)
    }

    function Text(t: string): string {
      key.Text(item.Text(t))
    }
  }

  predicate AreItems(items: seq<ItemPart>, depth: nat, rules: Rules) {
    forall i :: 0 <= i < |items| ==> items[i].Valid(depth, rules)
  }

  function ItemsBefore(items: seq<ItemPart>, t: string): string {
    if items == [] then t else items[0].Text(ItemsBefore(items[1..], t))
  }

  predicate AreMembers(members: seq<MemberPart>, depth: nat, rules: Rules) {
    forall i :: 0 <= i < |members| ==> members[i].Valid(depth, rules)
  }

  function MembersBefore(members: seq<MemberPart>, t: string): string {
    if members == [] then t else members[0].Text(MembersBefore(members[1..], t))
  }

  /** A comma, and where it leads. */
  lemma CommaEnds(gap: Gap, t: string)
    requires ValidGap(gap) && IsGapEnd(t)
    ensures var s := "," + (GapText(gap) + t);
            IsGapEnd(s) && IsDelimited(s) && TokenAt(s).kind == ListSeparator && AfterGap(s[1..]) == t
  {
    hide GapText, AfterGap;
    var s := "," + (GapText(gap) + t);
    assert s[0] == ',' && s[1..] == GapText(gap) + t;
    GapEnds(gap, t);
  }

  lemma ItemStarts(part: ItemPart, t: string, depth: nat, rules: Rules)
    requires part.Valid(depth, rules) && IsGapEnd(t)
    ensures IsGapEnd(part.Text(t)) && part.Text(t) != "" && TokenAt(part.Text(t)) == NodeToken(part.node)
    ensures IsDelimited(GapText(part.after) + ("," + (GapText(part.gap) + t)))
  {
    hide TokenAt, AfterGap, NodeText, GapText, ValidNode, IsGapEnd, IsDelimited, NodeDepth, ValidGap;
    ValidIsWellFormed(part.node, rules);
    CommaEnds(part.gap, t);
    GapDelimits(part.after, "," + (GapText(part.gap) + t));
    NodeStart(part.node, GapText(part.after) + ("," + (GapText(part.gap) + t)), rules);
  }

  /** Behind an item the array goes on, unless it ends there against the rules. */
  lemma ItemPassed(part: ItemPart, t: string, depth: nat, before: seq<Value>, rules: Rules)
    requires part.Valid(depth, rules) && IsGapEnd(t)
    ensures ParseItems(part.Text(t), depth, before, rules) ==
            if TokenAt(t).kind == ArrayEnd && !rules.trailingComma then Err(Fault(TrailingComma, |t|), |t|)
            else ParseItems(t, depth, before + [NodeMeaning(part.node, rules)], rules)
  {
    hide TokenAt, AfterGap, NodeText, GapText, ValidNode, IsGapEnd, IsDelimited, NodeMeaning, NodeDepth, ParseValue, ValidGap;
    ItemStarts(part, t, depth, rules);
    var comma := "," + (GapText(part.gap) + t);
    CommaEnds(part.gap, t);
    NodeRead(part.node, GapText(part.after) + comma, depth, false, rules);
    GapEnds(part.after, comma);
  }

  lemma MemberPassed(part: MemberPart, t: string, depth: nat, before: map<string, Value>, rules: Rules)
    requires part.Valid(depth, rules) && IsGapEnd(t)
    ensures ParseMembers(part.Text(t), depth, before, rules) ==
            if TokenAt(t).kind == ObjectEnd && !rules.trailingComma then Err(Fault(TrailingComma, |t|), |t|)
            else ParseMembers(t, depth, before[PiecesMeaning(part.key.key) := NodeMeaning(part.item.node, rules)], rules)
  {
    hide TokenAt, AfterGap, NodeText, GapText, ValidNode, IsGapEnd, IsDelimited, NodeMeaning, NodeDepth, ParseValue, ValidGap,
         ParseMembers, Quoted, PiecesMeaning, ValidPieces;
    ItemStarts(part.item, t, depth, rules);
    var comma := "," + (GapText(part.item.gap) + t);
    CommaEnds(part.item.gap, t);
    NodeRead(part.item.node, GapText(part.item.after) + comma, depth, false, rules);
    GapEnds(part.item.after, comma);
    KeyRead(part.key.key, part.key.beforeColon, part.key.afterColon, part.item.Text(t), depth, before, rules);
  }

  lemma {:induction false} ItemsPassed(items: seq<ItemPart>, t: string, depth: nat, before: seq<Value>, rules: Rules)
    returns (values: seq<Value>)
    requires AreItems(items, depth, rules) && IsGapEnd(t) && TokenAt(t).kind != ArrayEnd
    ensures ParseItems(ItemsBefore(items, t), depth, before, rules) == ParseItems(t, depth, values, rules)
    ensures IsGapEnd(ItemsBefore(items, t)) && TokenAt(ItemsBefore(items, t)).kind != ArrayEnd
    decreases |items|
  {
    hide TokenAt, IsGapEnd, ParseItems, ItemPart.Valid, ItemPart.Text, NodeMeaning;
    if items == [] {
      values := before;
    } else {
      var rest := ItemsBefore(items[1..], t);
      var none := ItemsPassed(items[1..], t, depth, before, rules);
      PartMeans(items[0], depth, rules);
      ItemPassed(items[0], rest, depth, before, rules);
      ItemStarts(items[0], rest, depth, rules);
      values := ItemsPassed(items[1..], t, depth, before + [NodeMeaning(items[0].node, rules)], rules);
    }
  }

  lemma PartMeans(part: ItemPart, depth: nat, rules: Rules)
    requires part.Valid(depth, rules)
    ensures ValidNode(part.node, rules)
  {
  }

  lemma {:induction false} MembersPassed(members: seq<MemberPart>, t: string, depth: nat, before: map<string, Value>, rules: Rules)
    returns (entries: map<string, Value>)
    requires AreMembers(members, depth, rules) && IsGapEnd(t) && TokenAt(t).kind != ObjectEnd
    ensures ParseMembers(MembersBefore(members, t), depth, before, rules) == ParseMembers(t, depth, entries, rules)
    ensures IsGapEnd(MembersBefore(members, t)) && TokenAt(MembersBefore(members, t)).kind != ObjectEnd
    decreases |members|
  {
    hide TokenAt, IsGapEnd, ParseMembers, MemberPart.Valid, MemberPart.Text, NodeMeaning, PiecesMeaning;
    if members == [] {
      entries := before;
    } else {
      var m, rest := members[0], MembersBefore(members[1..], t);
      var none := MembersPassed(members[1..], t, depth, before, rules);
      MemberStarts(m, rest, depth, rules);
      MemberPassed(m, rest, depth, before, rules);
      entries := MembersPassed(members[1..], t, depth, before[PiecesMeaning(m.key.key) := NodeMeaning(m.item.node, rules)], rules);
    }
  }

  lemma KeyStarts(key: KeyPart, t: string)
    requires key.Valid()
    ensures IsGapEnd(key.Text(t)) && key.Text(t) != "" && TokenAt(key.Text(t)).kind == StringToken
  {
    hide TokenAt, IsGapEnd, GapText, Quoted, ValidPieces;
    var rest := GapText(key.beforeColon) + (":" + (GapText(key.afterColon) + t));
    JsonTexts.ValidPiecesAreWellFormed(key.key);
    QuotedStart(key.key, rest);
    QuotedEnds(key.key, rest);
  }

  lemma MemberStarts(part: MemberPart, t: string, depth: nat, rules: Rules)
    requires part.Valid(depth, rules)
    ensures IsGapEnd(part.Text(t)) && TokenAt(part.Text(t)).kind == StringToken
    ensures ValidPieces(part.key.key) && ValidNode(part.item.node, rules)
  {
    hide TokenAt, IsGapEnd, KeyPart.Text, ValidPieces, ItemPart.Text;
    KeyStarts(part.key, part.item.Text(t));
  }

  // ---------------------------------------------------------------------------------
  // Inside arrays and objects
  // ---------------------------------------------------------------------------------

  /** The beginning of an array or object that is still open: what stands before an item, or before
      the value of a member. */
  datatype Frame = InArray(inner: Gap, items: seq<ItemPart>) | InObject(inner: Gap, members: seq<MemberPart>, key: KeyPart)
  {
    predicate Valid(depth: nat, rules: Rules) {
      match this
      case InArray(inner, items) => ValidGap(inner) && AreItems(items, depth + 1, rules)
      case InObject(inner, members, key) => ValidGap(inner) && AreMembers(members, depth + 1, rules) && key.Valid()
    }

    function Text(t: string): string {
      match this
      case InArray(inner, items) => "[" + (GapText(inner) + ItemsBefore(items, t))
      case InObject(inner, members, key) => "{" + (GapText(inner) + MembersBefore(members, key.Text(t)))
    }
  }

  /** Text at which a value may stand, and no array ends. */
  predicate IsPlace(t: string) {
    IsGapEnd(t) && TokenAt(t).kind != ArrayEnd
  }

  lemma FrameStarts(f: Frame, t: string)
    ensures IsPlace(f.Text(t)) && f.Text(t) != "" && f.Text(t)[0] as int < 128
  {
    hide ItemsBefore, MembersBefore, GapText;
    assert f.Text(t)[0] == if f.InArray? then '[' else '{';
  }

  lemma ArrayBegins(inner: Gap, t: string, depth: nat, isRoot: bool, rules: Rules)
    requires ValidGap(inner) && IsGapEnd(t) && depth < STACK_LIMIT
    ensures ParseValue("[" + (GapText(inner) + t), depth, isRoot, rules) == ParseItems(t, depth + 1, [], rules)
  {
    hide AfterGap, GapText, ParseItems, ParseMembers, NumberMeaning, DecodeString;
    var s := "[" + (GapText(inner) + t);
    assert s[0] == '[' && s[1..] == GapText(inner) + t;
    AfterGapStays(s);
    GapEnds(inner, t);
  }

  lemma ObjectBegins(inner: Gap, t: string, depth: nat, isRoot: bool, rules: Rules)
    requires ValidGap(inner) && IsGapEnd(t) && depth < STACK_LIMIT
    ensures ParseValue("{" + (GapText(inner) + t), depth, isRoot, rules) == ParseMembers(t, depth + 1, map[], rules)
  {
    hide AfterGap, GapText, ParseItems, ParseMembers, NumberMeaning, DecodeString;
    var s := "{" + (GapText(inner) + t);
    assert s[0] == '{' && s[1..] == GapText(inner) + t;
    AfterGapStays(s);
    GapEnds(inner, t);
  }

  /** An error inside an array or object is its error. */
  lemma FramePassed(f: Frame, t: string, depth: nat, isRoot: bool, rules: Rules)
    requires f.Valid(depth, rules) && depth < STACK_LIMIT && IsPlace(t) && ParseValue(t, depth + 1, false, rules).Err?
    ensures ParseValue(f.Text(t), depth, isRoot, rules) == ParseValue(t, depth + 1, false, rules)
  {
    hide TokenAt, IsGapEnd, ParseValue, ParseMembers, ItemsBefore, MembersBefore, AreItems, AreMembers, KeyPart.Text, KeyPart.Valid, GapText,
         ValidGap;
    match f {
      case InArray(inner, items) =>
        var values := ItemsPassed(items, t, depth + 1, [], rules);
        ArrayBegins(inner, ItemsBefore(items, t), depth, isRoot, rules);
      case InObject(inner, members, key) =>
        KeyStarts(key, t);
        var entries := MembersPassed(members, key.Text(t), depth + 1, map[], rules);
        ObjectBegins(inner, MembersBefore(members, key.Text(t)), depth, isRoot, rules);
        KeyLeads(key, t, depth + 1, entries, rules);
    }
  }

  lemma KeyLeads(key: KeyPart, t: string, depth: nat, before: map<string, Value>, rules: Rules)
    requires key.Valid() && IsGapEnd(t) && ParseValue(t, depth, false, rules).Err?
    ensures ParseMembers(key.Text(t), depth, before, rules) == ParseValue(t, depth, false, rules)
  {
    hide TokenAt, IsGapEnd, ParseValue, ParseMembers, GapText, ValidGap, ValidPieces, Quoted;
    KeyRead(key.key, key.beforeColon, key.afterColon, t, depth, before, rules);
  }

  /** A place in a text: behind an optional byte-order mark and a gap, inside arrays and objects, or at
      the root. */
  datatype Place = Place(mark: bool, lead: Gap, frames: seq<Frame>)
  {
    predicate Valid(rules: Rules) {
      ValidGap(lead) && |frames| <= STACK_LIMIT && AreFrames(frames, 0, rules)
    }

    function Text(t: string): string {
      (if mark then BYTE_ORDER_MARK else "") + (GapText(lead) + Inside(frames, t))
    }
  }

  predicate AreFrames(frames: seq<Frame>, depth: nat, rules: Rules) {
    frames == [] || (frames[0].Valid(depth, rules) && AreFrames(frames[1..], depth + 1, rules))
  }

  function Inside(frames: seq<Frame>, t: string): string {
    if frames == [] then t else frames[0].Text(Inside(frames[1..], t))
  }

  lemma {:induction false} FramesPassed(frames: seq<Frame>, t: string, depth: nat, isRoot: bool, rules: Rules)
    requires AreFrames(frames, depth, rules) && depth + |frames| <= STACK_LIMIT && frames != []
    requires IsPlace(t) && ParseValue(t, depth + |frames|, false, rules).Err?
    ensures ParseValue(Inside(frames, t), depth, isRoot, rules) == ParseValue(t, depth + |frames|, false, rules)
    decreases |frames|
  {
    hide IsPlace, ParseValue, Frame.Valid, Frame.Text;
    if |frames| == 1 {
      assert Inside(frames[1..], t) == t;
      FramePassed(frames[0], t, depth, isRoot, rules);
    } else {
      FramesPassed(frames[1..], t, depth + 1, false, rules);
      FrameStarts(frames[1], Inside(frames[2..], t));
      assert Inside(frames[1..], t) == frames[1].Text(Inside(frames[1..][1..], t)) && frames[1..][1..] == frames[2..];
      FramePassed(frames[0], Inside(frames[1..], t), depth, isRoot, rules);
    }
  }

  /** What is reported for an error at a place: its code, or a syntax error where the reader stopped. */
  function Reported(r: Parsed<Value>): Outcome
    requires r.Err?
  {
    if r.fault.Fault? then Failure(r.fault.code, r.fault.unread) else Failure(SyntaxError, r.unread)
  }

  lemma ErrorSurfaces(place: Place, t: string, checkRoot: bool, rules: Rules)
    requires place.Valid(rules) && IsPlace(t) && (place.frames != [] || StartsContainer(t))
    requires ParseValue(t, |place.frames|, false, rules).Err?
    ensures ParseDocument(place.Text(t), checkRoot, rules) == Reported(ParseValue(t, |place.frames|, false, rules))
  {
    hide IsPlace, ParseValue, AreFrames, Inside, Frame.Text, GapText, ValidGap, TokenAt, AfterGap, StartsContainer;
    if place.frames == [] {
      RootIsContainer(t, checkRoot, rules);
      InsideNone(t);
    } else {
      FramesPassed(place.frames, t, 0, checkRoot, rules);
    }
    MarkLeads(place, t);
    LeadingGap(place.lead, Inside(place.frames, t), 0, checkRoot, rules);
  }

  predicate StartsContainer(t: string) {
    t != "" && (t[0] == '[' || t[0] == '{')
  }

  lemma RootIsContainer(t: string, checkRoot: bool, rules: Rules)
    requires IsPlace(t) && StartsContainer(t)
    ensures ParseValue(t, 0, checkRoot, rules) == ParseValue(t, 0, false, rules)
  {
    hide AfterGap, ParseItems, ParseMembers, NumberMeaning, DecodeString;
    AfterGapStays(t);
  }

  lemma InsideNone(t: string)
    ensures Inside([], t) == t
  {
  }

  lemma MarkLeads(place: Place, t: string)
    requires ValidGap(place.lead) && (place.frames != [] || StartsContainer(t))
    ensures SkipMark(place.Text(t)) == GapText(place.lead) + Inside(place.frames, t)
  {
    hide IsPlace, Frame.Text, GapText, ValidGap;
    if place.frames != [] {
      FrameStarts(place.frames[0], Inside(place.frames[1..], t));
    }
    GapIsToken(place.lead, Inside(place.frames, t));
    MarkEnds(place.mark, GapText(place.lead) + Inside(place.frames, t));
  }

  lemma MarkEnds(mark: bool, body: string)
    requires IsTokenStart(body)
    ensures SkipMark((if mark then BYTE_ORDER_MARK else "") + body) == body
  {
    if mark {
      assert (BYTE_ORDER_MARK + body)[3..] == body;
    } else {
      assert "" + body == body;
    }
  }

  // ---------------------------------------------------------------------------------
  // The errors
  // ---------------------------------------------------------------------------------

  lemma {:induction false} LastItemPassed(items: seq<ItemPart>, t: string, depth: nat, before: seq<Value>, rules: Rules)
    requires AreItems(items, depth, rules) && items != [] && IsGapEnd(t) && TokenAt(t).kind == ArrayEnd && !rules.trailingComma
    ensures ParseItems(ItemsBefore(items, t), depth, before, rules) == Err(Fault(TrailingComma, |t|), |t|)
    ensures IsGapEnd(ItemsBefore(items, t)) && TokenAt(ItemsBefore(items, t)).kind != ArrayEnd
    decreases |items|
  {
    hide TokenAt, IsGapEnd, ParseItems, ItemPart.Valid, ItemPart.Text, NodeMeaning;
    var rest := ItemsBefore(items[1..], t);
    PartMeans(items[0], depth, rules);
    if |items| == 1 {
      assert rest == t;
    } else {
      LastItemPassed(items[1..], t, depth, before + [NodeMeaning(items[0].node, rules)], rules);
    }
    ItemPassed(items[0], rest, depth, before, rules);
    ItemStarts(items[0], rest, depth, rules);
  }

  lemma {:induction false} LastMemberPassed(members: seq<MemberPart>, t: string, depth: nat, before: map<string, Value>, rules: Rules)
    requires AreMembers(members, depth, rules) && members != [] && IsGapEnd(t) && TokenAt(t).kind == ObjectEnd && !rules.trailingComma
    ensures ParseMembers(MembersBefore(members, t), depth, before, rules) == Err(Fault(TrailingComma, |t|), |t|)
    ensures IsGapEnd(MembersBefore(members, t)) && TokenAt(MembersBefore(members, t)).kind != ObjectEnd
    decreases |members|
  {
    hide TokenAt, IsGapEnd, ParseMembers, MemberPart.Valid, MemberPart.Text, NodeMeaning, PiecesMeaning;
    var m, rest := members[0], MembersBefore(members[1..], t);
    MemberStarts(m, rest, depth, rules);
    if |members| == 1 {
      assert rest == t;
    } else {
      LastMemberPassed(members[1..], t, depth, before[PiecesMeaning(m.key.key) := NodeMeaning(m.item.node, rules)], rules);
    }
    MemberPassed(m, rest, depth, before, rules);
  }

  lemma CloserStarts(closer: char, rest: string)
    requires closer == ']' || closer == '}'
    ensures IsGapEnd([closer] + rest) && TokenAt([closer] + rest).kind == if closer == ']' then ArrayEnd else ObjectEnd
  {
    assert ([closer] + rest)[0] == closer;
  }

  /** A comma before the end of an array, without a rule that allows it: reported at the end. */
  lemma TrailingItemIsReported(place: Place, inner: Gap, items: seq<ItemPart>, rest: string, checkRoot: bool, rules: Rules)
    requires place.Valid(rules) && |place.frames| < STACK_LIMIT && !rules.trailingComma
    requires ValidGap(inner) && items != [] && AreItems(items, |place.frames| + 1, rules)
    ensures ParseDocument(place.Text("[" + (GapText(inner) + ItemsBefore(items, "]" + rest))), checkRoot, rules)
            == Failure(TrailingComma, |rest| + 1)
  {
    hide IsPlace, TokenAt, IsGapEnd, ParseValue, ParseItems, ItemsBefore, AreItems, GapText, ValidGap, ParseDocument, Place.Text,
         Place.Valid;
    var t := ItemsBefore(items, "]" + rest);
    CloserStarts(']', rest);
    LastItemPassed(items, "]" + rest, |place.frames| + 1, [], rules);
    ArrayBegins(inner, t, |place.frames|, false, rules);
    BracketStarts(GapText(inner) + t);
    ErrorSurfaces(place, "[" + (GapText(inner) + t), checkRoot, rules);
  }

  /** The same of an object. */
  lemma TrailingMemberIsReported(place: Place, inner: Gap, members: seq<MemberPart>, rest: string, checkRoot: bool, rules: Rules)
    requires place.Valid(rules) && |place.frames| < STACK_LIMIT && !rules.trailingComma
    requires ValidGap(inner) && members != [] && AreMembers(members, |place.frames| + 1, rules)
    ensures ParseDocument(place.Text("{" + (GapText(inner) + MembersBefore(members, "}" + rest))), checkRoot, rules)
            == Failure(TrailingComma, |rest| + 1)
  {
    hide IsPlace, TokenAt, IsGapEnd, ParseValue, ParseMembers, MembersBefore, AreMembers, GapText, ValidGap, ParseDocument, Place.Text,
         Place.Valid;
    var t := MembersBefore(members, "}" + rest);
    CloserStarts('}', rest);
    LastMemberPassed(members, "}" + rest, |place.frames| + 1, map[], rules);
    ObjectBegins(inner, t, |place.frames|, false, rules);
    BraceStarts(GapText(inner) + t);
    ErrorSurfaces(place, "{" + (GapText(inner) + t), checkRoot, rules);
  }

  lemma BracketStarts(t: string)
    ensures IsPlace("[" + t)
  {
    assert ("[" + t)[0] == '[';
  }

  lemma BraceStarts(t: string)
    ensures IsPlace("{" + t)
  {
    assert ("{" + t)[0] == '{';
  }

  /** Behind an opening brace or a comma of an object stands neither a quote nor the end: reported
      there. */
  lemma UnquotedKeyIsReported(place: Place, inner: Gap, members: seq<MemberPart>, rest: string, checkRoot: bool, rules: Rules)
    requires place.Valid(rules) && |place.frames| < STACK_LIMIT
    requires ValidGap(inner) && AreMembers(members, |place.frames| + 1, rules)
    requires IsGapEnd(rest) && (rest == "" || (rest[0] != '"' && rest[0] != '}'))
    ensures ParseDocument(place.Text("{" + (GapText(inner) + MembersBefore(members, rest))), checkRoot, rules)
            == Failure(UnquotedDictionaryKey, |rest|)
  {
    hide IsPlace, IsGapEnd, ParseValue, ParseMembers, MembersBefore, AreMembers, GapText, ValidGap, ParseDocument, Place.Text, Place.Valid,
         TokenAt;
    NoKeyThere(rest);
    var entries := MembersPassed(members, rest, |place.frames| + 1, map[], rules);
    KeyIsMissed(rest, |place.frames| + 1, entries, rules);
    ObjectBegins(inner, MembersBefore(members, rest), |place.frames|, false, rules);
    BraceStarts(GapText(inner) + MembersBefore(members, rest));
    ErrorSurfaces(place, "{" + (GapText(inner) + MembersBefore(members, rest)), checkRoot, rules);
  }

  lemma NoKeyThere(rest: string)
    requires rest == "" || (rest[0] != '"' && rest[0] != '}')
    ensures TokenAt(rest).kind != StringToken && TokenAt(rest).kind != ObjectEnd
  {
  }

  lemma KeyIsMissed(rest: string, depth: nat, entries: map<string, Value>, rules: Rules)
    requires TokenAt(rest).kind != StringToken && TokenAt(rest).kind != ObjectEnd
    ensures ParseMembers(rest, depth, entries, rules) == Err(Fault(UnquotedDictionaryKey, |rest|), |rest|)
  {
    hide TokenAt;
  }

  /** What follows a backslash: a letter that can, or hexadecimal digits behind `x` or `u`. */
  predicate IsEscapeTail(s: string) {
    s != "" &&
    if s[0] == 'x' then |s| > 2 && AreHex(s[1..3])
    else if s[0] == 'u' then |s| > 4 && AreHex(s[1..5])
    else s[0] == '"' || s[0] == '\\' || s[0] == '/' || s[0] == 'b' || s[0] == 'f' || s[0] == 'n' || s[0] == 'r' || s[0] == 't' || s[0] == 'v'
  }

  predicate AreHex(s: string) {
    forall i :: 0 <= i < |s| ==> '0' <= s[i] <= '9' || 'A' <= s[i] <= 'F' || 'a' <= s[i] <= 'f'
  }

  /** A backslash with something else behind it, in a string: reported behind the backslash. */
  lemma BadEscapeIsReported(place: Place, pieces: seq<Piece>, rest: string, checkRoot: bool, rules: Rules)
    requires place.Valid(rules) && 0 < |place.frames| < STACK_LIMIT && WellFormedPieces(pieces) && !IsEscapeTail(rest)
    ensures ParseDocument(place.Text("\"" + (PiecesText(pieces) + ("\\" + rest))), checkRoot, rules) == Failure(InvalidEscape, |rest|)
  {
    hide IsPlace, TokenAt, ParseValue, ParseDocument, Place.Text, Place.Valid, PiecesText, IsEscapeTail, WellFormedPieces, ScanString;
    var t := "\"" + (PiecesText(pieces) + ("\\" + rest));
    assert t[1..] == PiecesText(pieces) + ("\\" + rest);
    BadEscapeFound(pieces, rest);
    BadStringRead(t, |place.frames|, rules);
    ErrorSurfaces(place, t, checkRoot, rules);
  }

  lemma {:induction false} BadEscapeFound(pieces: seq<Piece>, rest: string)
    requires WellFormedPieces(pieces) && !IsEscapeTail(rest)
    ensures ScanString(PiecesText(pieces) + ("\\" + rest)) == BadEscape(rest)
  {
    hide Piece.Text, Piece.WellFormed, ScanString, IsEscapeTail;
    if pieces == [] {
      BadEscapeHere(rest);
      assert "" + ("\\" + rest) == "\\" + rest;
    } else {
      PiecesSplit(pieces, "\\" + rest);
      BadEscapeFound(pieces[1..], rest);
      PiecePassed(pieces[0], PiecesText(pieces[1..]) + ("\\" + rest));
    }
  }

  lemma BadEscapeHere(rest: string)
    requires !IsEscapeTail(rest)
    ensures ScanString("\\" + rest) == BadEscape(rest)
  {
    var s := "\\" + rest;
    assert s[1..] == rest && At(s, 1) == At(rest, 0);
    if rest != "" && (rest[0] == 'x' || rest[0] == 'u') {
      NotHex(s, rest);
    }
  }

  lemma NotHex(s: string, rest: string)
    requires s == "\\" + rest && rest != "" && !IsEscapeTail(rest)
    ensures rest[0] == 'x' ==> !(IsHexDigit(At(s, 2)) && IsHexDigit(At(s, 3)))
    ensures rest[0] == 'u' ==> !(IsHexDigit(At(s, 2)) && IsHexDigit(At(s, 3)) && IsHexDigit(At(s, 4)) && IsHexDigit(At(s, 5)))
  {
    assert forall i :: 0 <= i ==> At(s, i + 1) == At(rest, i);
  }

  lemma BadStringRead(t: string, depth: nat, rules: Rules)
    requires t != "" && t[0] == '"' && ScanString(t[1..]).BadEscape? && depth < STACK_LIMIT
    ensures IsPlace(t) && ParseValue(t, depth, false, rules) == Err(Fault(InvalidEscape, |ScanString(t[1..]).rest|), |t|)
  {
    hide ScanString, AfterGap, ParseItems, ParseMembers, NumberMeaning, DecodeString;
    AfterGapStays(t);
  }

  /** Nothing that could be a value: the end of the text or a character that starts none, or the start
      of a word that is not finished. */
  predicate StartsNoValue(s: string) {
    || s == ""
    || (s[0] == 'n' && !("null" <= s)) || (s[0] == 't' && !("true" <= s)) || (s[0] == 'f' && !("false" <= s))
    || (s[0] != 'n' && s[0] != 't' && s[0] != 'f' && s[0] != '[' && s[0] != '{' && s[0] != '"' && s[0] != '-' && !('0' <= s[0] <= '9'))
  }

  /** Reported as a syntax error there. */
  lemma NoValueIsReported(place: Place, rest: string, checkRoot: bool, rules: Rules)
    requires place.Valid(rules) && 0 < |place.frames| < STACK_LIMIT && IsGapEnd(rest)
    requires StartsNoValue(rest) && (rest == "" || rest[0] != ']')
    ensures ParseDocument(place.Text(rest), checkRoot, rules) == Failure(SyntaxError, |rest|)
  {
    hide ParseDocument, Place.Text, Place.Valid, ParseValue, TokenAt, IsGapEnd, StartsNoValue;
    NoValueRead(rest, |place.frames|, rules);
    ErrorSurfaces(place, rest, checkRoot, rules);
  }

  lemma NoValueRead(rest: string, depth: nat, rules: Rules)
    requires depth < STACK_LIMIT && IsGapEnd(rest) && StartsNoValue(rest) && (rest == "" || rest[0] != ']')
    ensures IsPlace(rest) && ParseValue(rest, depth, false, rules) == Err(NoFault, |rest|)
  {
    hide ScanString, AfterGap, ParseItems, ParseMembers, NumberMeaning, DecodeString, AfterNumber;
    AfterGapStays(rest);
  }

  /** Inside 100 arrays and objects, whatever stands there but the end of an array is nested too
      deep. */
  lemma NestingIsReported(place: Place, rest: string, checkRoot: bool, rules: Rules)
    requires place.Valid(rules) && |place.frames| == STACK_LIMIT && IsGapEnd(rest) && (rest == "" || rest[0] != ']')
    ensures ParseDocument(place.Text(rest), checkRoot, rules) == Failure(TooMuchNesting, |rest|)
  {
    hide ParseDocument, Place.Text, Place.Valid, IsGapEnd;
    ErrorSurfaces(place, rest, checkRoot, rules);
  }

  /** Behind the root stands something more: reported there. */
  lemma MoreDataIsReported(mark: bool, lead: Gap, root: Node, trail: Gap, rest: string, checkRoot: bool, rules: Rules)
    requires ValidGap(lead) && ValidNode(root, rules) && (root.ArrayNode? || root.ObjectNode?) && NodeDepth(root) <= STACK_LIMIT
    requires ValidGap(trail) && IsGapEnd(rest) && rest != "" && rest[0] != '\0'
    ensures ParseDocument((if mark then BYTE_ORDER_MARK else "") + (GapText(lead) + (NodeText(root) + (GapText(trail) + rest))), checkRoot, rules)
            == Failure(UnexpectedDataAfterRoot, |rest|)
  {
    hide NodeText, GapText, ValidNode, AfterGap, ParseValue, IsDelimited, NodeMeaning, NodeDepth, TokenAt, ValidGap, SkipMark;
    var tail := GapText(trail) + rest;
    ValidIsWellFormed(root, rules);
    RootLeads(mark, lead, root, tail, rules);
    LeadingGap(lead, NodeText(root) + tail, 0, checkRoot, rules);
    RootRead(root, tail, checkRoot, rules);
    GapEnds(trail, rest);
    NotTheEnd(rest);
  }

  /** An array or object is read whatever follows. */
  lemma RootRead(root: Node, rest: string, checkRoot: bool, rules: Rules)
    requires ValidNode(root, rules) && (root.ArrayNode? || root.ObjectNode?) && NodeDepth(root) <= STACK_LIMIT
    ensures ParseValue(NodeText(root) + rest, 0, checkRoot, rules) == Ok(NodeMeaning(root, rules), rest)
  {
    hide GapText, ParseValue, ParseItems, ParseMembers, ValidItems, ValidMembers, ItemsMeaning, MembersMeaning, ItemsText, MembersText,
         ItemsDepth, MembersDepth, IsGapEnd, ValidGap, TokenAt;
    match root {
      case ArrayNode(inner, items) =>
        var t := ItemsText(items) + rest;
        ItemsAreWellFormed(items, rules);
        ItemsStart(items, rest, rules);
        Bracketed("[", GapText(inner), ItemsText(items), rest);
        ArrayBegins(inner, t, 0, checkRoot, rules);
        ItemsRead(items, rest, 1, [], rules);
        assert [] + ItemsMeaning(items, rules) == ItemsMeaning(items, rules);
      case ObjectNode(inner, members) =>
        var t := MembersText(members) + rest;
        MembersStart(members, rest);
        Bracketed("{", GapText(inner), MembersText(members), rest);
        ObjectBegins(inner, t, 0, checkRoot, rules);
        MembersRead(members, rest, 1, map[], rules);
    }
  }

  lemma Bracketed(open: string, gap: string, body: string, rest: string)
    ensures (open + (gap + body)) + rest == open + (gap + (body + rest))
  {
  }

  lemma NotTheEnd(rest: string)
    requires rest != "" && rest[0] != '\0'
    ensures TokenAt(rest).kind != EndOfInput
  {
    hide AfterNumber, ScanString;
  }

  lemma RootLeads(mark: bool, lead: Gap, root: Node, tail: string, rules: Rules)
    requires ValidGap(lead) && WellFormedNode(root, rules)
    ensures SkipMark((if mark then BYTE_ORDER_MARK else "") + (GapText(lead) + (NodeText(root) + tail))) ==
            GapText(lead) + (NodeText(root) + tail)
  {
    hide NodeText, GapText, WellFormedNode, ValidGap;
    NodeIsToken(root, tail, rules);
    GapIsToken(lead, NodeText(root) + tail);
    MarkEnds(mark, GapText(lead) + (NodeText(root) + tail));
  }
}
