/** A printer for values without floating-point numbers, and the proof that
    src/chromium/json/json_reader.cc reads printed text back.  The repository has no JSON
    writer, so the printer is a specification: integers print as `IntToString` prints them,
    quotes, backslashes and control characters are escaped, entries come in some order.
  */
module JsonPrinter {
  import opened JsonGrammar
  import opened JsonParser
  import opened JsonTexts
  import JsonTheorems
  import opened NumberConversions
  import opened ValueTree
  import opened Wrappers

  /** Values of at most `n` levels made of null, booleans, 32-bit integers, strings, lists
      and dictionaries. */
  ghost predicate Printable(v: Value, n: nat)
    decreases n
  {
    n > 0 &&
    match v
    case Integer(i) => InRange(i, 4)
    case Double(r) => false
    case List(items) => forall i :: 0 <= i < |items| ==> Printable(items[i], n - 1)
    case Dictionary(entries) => forall k :: k in entries ==> Printable(entries[k], n - 1)
    case _ => true
  }

  function PrintInt(i: int): Number {
    Number(i < 0, NatText(Abs(i)), None, None)
  }

  function PrintChar(c: char): Piece {
    if c == '"' || c == '\\' then Escape(c)
    else if c as int < 32 then Hex(HexChar(c as int / 16), HexChar(c as int % 16))
    else Raw(c)
  }

  function PrintString(s: string): (pieces: seq<Piece>)
    ensures |pieces| == |s|
  {
    if s == "" then [] else [PrintChar(s[0])] + PrintString(s[1..])
  }

  ghost function Print(v: Value, n: nat): Node
    requires Printable(v, n)
    decreases n, 1, 0
  {
    match v
    case Null => NullNode
    case Boolean(b) => if b then TrueNode else FalseNode
    case Integer(i) => NumberNode(PrintInt(i))
    case String(s) => StringNode(PrintString(s))
    case List(items) => ArrayNode([], PrintItems(items, n - 1))
    case Dictionary(entries) => ObjectNode([], PrintMembers(entries, n - 1))
  }

  ghost function PrintItems(items: seq<Value>, n: nat): Items
    requires forall i :: 0 <= i < |items| ==> Printable(items[i], n)
    decreases n, 2, |items|
  {
    if items == [] then NoItems
    else Item(Print(items[0], n), [], |items| > 1, [], PrintItems(items[1..], n))
  }

  ghost function PrintMembers(entries: map<string, Value>, n: nat): Members
    requires forall k :: k in entries ==> Printable(entries[k], n)
    decreases n, 2, |entries|
  {
    if entries == map[] then NoMembers
    else
      var k :| k in entries;
      var rest := entries - {k};
      Member(PrintString(k), [], [], Print(entries[k], n), [], rest != map[], [], PrintMembers(rest, n))
  }

  lemma PrintIntCorrect(i: int, rules: Rules)
    requires InRange(i, 4)
    ensures PrintInt(i).Valid() && PrintInt(i).Text() == IntText(i)
    ensures NumberMeaning(PrintInt(i).Text(), rules) == Some(Integer(i))
  {
    PrintIntText(i);
    IntTextRoundTrip(i, 4);
    hide ParsedInt, PrintInt, IntText, Number.Text, Number.Valid;
  }

  lemma PrintIntText(i: int)
    ensures PrintInt(i).Valid() && PrintInt(i).Text() == IntText(i)
  {
    var digits := NatText(Abs(i));
    NatTextValue(Abs(i));
    hide NatText, DecimalValue;
    assert "" + digits == digits && digits + "" == digits && "-" + digits + "" == "-" + digits;
    assert PrintInt(i).Text() == (if i < 0 then "-" else "") + digits + "" + "";
  }

  lemma PrintCharCorrect(c: char)
    ensures PrintChar(c).Valid() && PrintChar(c).Meaning() == c
  {
  }

  lemma {:induction false} PrintStringCorrect(s: string)
    ensures ValidPieces(PrintString(s)) && PiecesMeaning(PrintString(s)) == s
  {
    if s != "" {
      PrintCharCorrect(s[0]);
      PrintStringCorrect(s[1..]);
      assert PrintString(s)[1..] == PrintString(s[1..]);
      forall i | 0 <= i < |s| ensures PrintString(s)[i].Valid() {
        if i > 0 { assert PrintString(s[1..])[i - 1].Valid(); }
      }
    }
  }

  lemma {:induction false} PrintCorrect(v: Value, n: nat, rules: Rules)
    requires Printable(v, n)
    ensures ValidNode(Print(v, n), rules) && NodeMeaning(Print(v, n), rules) == v
    ensures NodeDepth(Print(v, n)) <= n
    decreases n, 1, 0
  {
    hide Number.Valid, Number.Text, NumberMeaning, ValidPieces, PiecesMeaning, ValidItems, ValidMembers,
         ItemsMeaning, MembersMeaning, PrintItems, PrintMembers, PrintString, PrintInt, ItemsDepth, MembersDepth;
    match v {
      case Integer(i) => PrintIntCorrect(i, rules);
      case String(s) => PrintStringCorrect(s);
      case List(items) =>
        PrintItemsCorrect(items, n - 1, rules);
      case Dictionary(entries) =>
        PrintMembersCorrect(entries, map[], n - 1, rules);
        assert map[] + entries == entries;
      case _ =>
    }
  }

  lemma {:induction false} PrintItemsCorrect(items: seq<Value>, n: nat, rules: Rules)
    requires forall i :: 0 <= i < |items| ==> Printable(items[i], n)
    ensures ValidItems(PrintItems(items, n), rules)
    ensures ItemsMeaning(PrintItems(items, n), rules) == items
    ensures ItemsDepth(PrintItems(items, n)) <= n
    decreases n, 2, |items|
  {
    if items != [] {
      hide ValidNode, NodeMeaning, NodeDepth, Print, Printable;
      PrintCorrect(items[0], n, rules);
      PrintItemsCorrect(items[1..], n, rules);
    }
  }

  lemma {:induction false} PrintMembersCorrect(entries: map<string, Value>, before: map<string, Value>,
                                               n: nat, rules: Rules)
    requires forall k :: k in entries ==> Printable(entries[k], n)
    ensures ValidMembers(PrintMembers(entries, n), rules)
    ensures MembersMeaning(PrintMembers(entries, n), before, rules) == before + entries
    ensures MembersDepth(PrintMembers(entries, n)) <= n
    decreases n, 2, |entries|
  {
    if entries == map[] {
      PrintedNone(before, n, rules);
    } else {
      hide ValidNode, NodeMeaning, NodeDepth, Print, Printable, ValidPieces, PiecesMeaning, PrintMembers, PrintString,
           ValidMembers, MembersMeaning, MembersDepth;
      var k := PrintMembersStep(entries, n);
      var rest := entries - {k};
      PrintStringCorrect(k);
      PrintCorrect(entries[k], n, rules);
      MergeStep(before, entries, k);
      PrintMembersCorrect(rest, before[k := entries[k]], n, rules);
      PrintedMember(k, entries[k], rest, before, n, rules);
    }
  }

  lemma PrintedNone(before: map<string, Value>, n: nat, rules: Rules)
    ensures ValidMembers(PrintMembers(map[], n), rules) && MembersDepth(PrintMembers(map[], n)) <= n
    ensures MembersMeaning(PrintMembers(map[], n), before, rules) == before + map[]
  {
    assert before + map[] == before;
  }

  lemma MergeStep(before: map<string, Value>, entries: map<string, Value>, k: string)
    requires k in entries
    ensures before[k := entries[k]] + (entries - {k}) == before + entries
    ensures |entries - {k}| < |entries|
  {
    assert (entries - {k}).Keys == entries.Keys - {k};
  }

  lemma PrintMembersStep(entries: map<string, Value>, n: nat) returns (k: string)
    requires entries != map[] && forall k :: k in entries ==> Printable(entries[k], n)
    ensures k in entries
    ensures PrintMembers(entries, n) ==
      Member(PrintString(k), [], [], Print(entries[k], n), [], entries - {k} != map[], [], PrintMembers(entries - {k}, n))
  {
    hide Print, PrintString, Printable;
    k :| k in entries && PrintMembers(entries, n) ==
      Member(PrintString(k), [], [], Print(entries[k], n), [], entries - {k} != map[], [], PrintMembers(entries - {k}, n));
  }

  lemma PrintedMember(k: string, v: Value, rest: map<string, Value>, before: map<string, Value>, n: nat, rules: Rules)
    requires Printable(v, n) && forall j :: j in rest ==> Printable(rest[j], n)
    requires ValidPieces(PrintString(k)) && ValidNode(Print(v, n), rules) && ValidMembers(PrintMembers(rest, n), rules)
    ensures var members := Member(PrintString(k), [], [], Print(v, n), [], rest != map[], [], PrintMembers(rest, n));
      && ValidMembers(members, rules)
      && MembersMeaning(members, before, rules) ==
         MembersMeaning(PrintMembers(rest, n), before[PiecesMeaning(PrintString(k)) := NodeMeaning(Print(v, n), rules)], rules)
      && MembersDepth(members) == Max(NodeDepth(Print(v, n)), MembersDepth(PrintMembers(rest, n)))
  {
    hide ValidNode, NodeMeaning, NodeDepth, Print, Printable, ValidPieces, PiecesMeaning, PrintString;
  }

  /** What is printed is a text of the value by its characters. */
  lemma {:induction false} PrintedIsText(v: Value, n: nat, rules: Rules)
    requires Printable(v, n)
    ensures IsTextOf(NodeText(Print(v, n)), v, n, rules)
    decreases n, 1, 0
  {
    hide IsItemsText, IsMembersText, IntText, PrintItems, PrintMembers, PrintString, PrintInt, ItemsText, MembersText, IsStringText,
         Quoted, ValidPieces, PiecesMeaning, Entries;
    match v {
      case Integer(i) =>
        PrintIntText(i);
        IntIsText(i, n, rules);
      case String(s) =>
        PrintStringCorrect(s);
        QuotedIsText(PrintString(s));
      case List(items) =>
        var body := PrintedItems(items, n - 1, rules);
        assert NodeText(Print(v, n)) == "[" + (body + "]");
      case Dictionary(entries) =>
        var body, members := PrintedMembers(entries, n - 1, rules);
        assert NodeText(Print(v, n)) == "{" + (body + "}");
      case _ =>
    }
  }

  lemma {:induction false} PrintedItems(items: seq<Value>, n: nat, rules: Rules) returns (body: string)
    requires forall i :: 0 <= i < |items| ==> Printable(items[i], n)
    ensures IsItemsText(body, items, n, rules) && ItemsText(PrintItems(items, n)) == body + "]"
    decreases n, 2, |items|
  {
    hide IsTextOf, IsPadded, NodeText, Print, Printable, IsItemsText, ItemsText, PrintItems;
    if items == [] {
      body := "";
      NoItemsText(n, rules);
      NoItemsPrinted(n);
    } else {
      var text := NodeText(Print(items[0], n));
      PrintedIsText(items[0], n, rules);
      PlainIsPadded(text, items[0], n, rules);
      FirstItemPrinted(items, n);
      var rest := PrintedItems(items[1..], n, rules);
      if |items| == 1 {
        body := text;
        LastItemEnds(text, text, items[0], n, rules);
        NoItemsPrinted(n);
        assert items == [items[0]] && items[1..] == [];
      } else {
        body := text + ("," + rest);
        NextItemText(text, items[0], rest, items[1..], n, rules);
        Push(text, "," + rest, "]");
        assert items == [items[0]] + items[1..];
      }
    }
  }

  lemma NoItemsPrinted(n: nat)
    ensures ItemsText(PrintItems([], n)) == "]"
  {
  }

  lemma FirstItemPrinted(items: seq<Value>, n: nat)
    requires items != [] && forall i :: 0 <= i < |items| ==> Printable(items[i], n)
    ensures ItemsText(PrintItems(items, n)) ==
            NodeText(Print(items[0], n)) + ((if |items| > 1 then "," else "") + ItemsText(PrintItems(items[1..], n)))
  {
    hide Printable, Print, NodeText;
    var rest := ItemsText(PrintItems(items[1..], n));
    assert "," + "" == "," && "" + ("," + rest) == "," + rest && "" + ("" + rest) == rest && "" + rest == rest;
  }

  lemma NothingPrinted(n: nat)
    ensures Entries([]) == map[] && MembersText(PrintMembers(map[], n)) == "}"
  {
  }

  lemma PlainMemberText(key: seq<Piece>, node: Node, comma: bool, rest: Members)
    ensures MembersText(Member(key, [], [], node, [], comma, [], rest)) ==
            (Quoted(key) + (":" + NodeText(node))) + ((if comma then "," else "") + MembersText(rest))
  {
    assert SeparatorText(comma, []) == if comma then "," else "";
    hide NodeText, Quoted, SeparatorText;
    MemberPlaced([], key, [], [], node, [], comma, [], rest);
    var text := NodeText(node);
    assert ":" + "" == ":" && text + "" == text && "" + (":" + "") == ":";
    assert MemberFront([], key, [], []) == Quoted(key) + ":";
    Push(Quoted(key), ":", text);
    assert "" + MembersText(Member(key, [], [], node, [], comma, [], rest)) == MembersText(Member(key, [], [], node, [], comma, [], rest));
  }

  lemma {:induction false} PrintedMembers(entries: map<string, Value>, n: nat, rules: Rules)
    returns (body: string, members: seq<Entry>)
    requires forall k :: k in entries ==> Printable(entries[k], n)
    ensures IsMembersText(body, members, n, rules) && Entries(members) == entries && (members == [] <==> entries == map[])
    ensures MembersText(PrintMembers(entries, n)) == body + "}"
    decreases n, 2, |entries|
  {
    hide IsTextOf, IsStringText, IsMemberText, NodeText, Print, Printable, PrintMembers, PrintString, Quoted, Entries, ValidPieces,
         PiecesMeaning, MembersText, IsMembersText;
    NothingPrinted(n);
    if entries == map[] {
      body, members := "", [];
      NoMembersText(n, rules);
    } else {
      var k := PrintMembersStep(entries, n);
      var rest := entries - {k};
      MergeStep(map[], entries, k);
      var key, node := PrintString(k), Print(entries[k], n);
      PrintStringCorrect(k);
      QuotedIsText(key);
      PrintedIsText(entries[k], n, rules);
      var m, text := Entry(k, entries[k]), Quoted(key) + (":" + NodeText(node));
      PlainMember(Quoted(key), NodeText(node), m, n, rules);
      var more, others := PrintedMembers(rest, n, rules);
      PlainMemberText(key, node, rest != map[], PrintMembers(rest, n));
      members := [m] + others;
      EntriesFirst(members);
      assert members[1..] == others && map[k := entries[k]] + rest == entries;
      if rest == map[] {
        body := text;
        LastMemberEnds(text, text, m, n, rules);
        assert members == [m];
      } else {
        body := text + ("," + more);
        NextMemberText(text, m, more, others, n, rules);
        Push(text, "," + more, "}");
      }
    }
  }

  /** A list or dictionary of at most 100 levels is read back from its printed text, whatever
      the reader's rules are. */
  lemma PrintedIsRead(v: Value, rules: Rules)
    requires Printable(v, STACK_LIMIT) && (v.List? || v.Dictionary?)
    ensures ParseDocument(NodeText(Print(v, STACK_LIMIT)), true, rules) == Success(v)
  {
    hide NodeText, ValidNode, NodeMeaning, NodeDepth, ParseDocument;
    var doc := Document(false, [], Print(v, STACK_LIMIT), [], EndOfText);
    PrintCorrect(v, STACK_LIMIT, rules);
    assert doc.Text() == NodeText(doc.root) by {
      assert doc.Body() == "" + (NodeText(doc.root) + ("" + ""));
    }
    JsonTheorems.DocumentRead(doc, true, rules);
  }
}
