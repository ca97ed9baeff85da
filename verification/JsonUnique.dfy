/** A text has at most one concrete syntax tree: gaps, tokens, separators and the unread end are
    cut in one way only.
  */
module JsonUnique {
  import opened JsonGrammar
  import opened JsonParser
  import opened JsonTheorems
  import opened NumberConversions
  import opened Wrappers

  lemma SameCut(a: string, r: string, b: string, q: string)
    requires a + r == b + q && |a| == |b|
    ensures a == b && r == q
  {
    assert a == (a + r)[..|a|] && b == (b + q)[..|b|] && r == (a + r)[|a|..] && q == (b + q)[|b|..];
  }

  // ---------------------------------------------------------------------------------
  // Gaps and the unread end
  // ---------------------------------------------------------------------------------

  lemma FillerStart(f: Filler, r: string)
    requires f.Valid()
    ensures f.Text() + r != "" && !IsGapEnd(f.Text() + r)
    ensures f.Blank? <==> IsBlank((f.Text() + r)[0])
    ensures !f.Blank? ==> (f.Text() + r)[0] == '/' && |f.Text() + r| > 1
    ensures !f.Blank? ==> (f.LineComment? <==> (f.Text() + r)[1] == '/')
  {
  }

  lemma LineUnique(line: string, end: char, r: string, other: string, otherEnd: char, q: string)
    requires IsLine(line) && IsLineEnd(end) && IsLine(other) && IsLineEnd(otherEnd)
    requires line + [end] + r == other + [otherEnd] + q
    ensures line == other && end == otherEnd && r == q
  {
    LineEnds(line, end, r);
    LineEnds(other, otherEnd, q);
    hide AfterLine, IsLine, IsLineEnd;
    SameCut(line + [end], r, other + [otherEnd], q);
    SameCut(line, [end], other, [otherEnd]);
  }

  lemma BlockUnique(block: string, r: string, other: string, q: string)
    requires IsBlock(block) && IsBlock(other) && block + "*/" + r == other + "*/" + q
    ensures block == other && r == q
  {
    BlockEnds(block, r);
    BlockEnds(other, q);
    hide AfterBlock, IsBlock;
    SameCut(block + "*/", r, other + "*/", q);
    SameCut(block, "*/", other, "*/");
  }

  lemma FillerRest(f: Filler, r: string)
    requires f.Valid()
    ensures f.Blank? ==> f.Text() + r == [f.c] + r
    ensures f.LineComment? ==> f.Text() + r == "//" + (f.line + [f.end] + r)
    ensures f.BlockComment? ==> f.Text() + r == "/*" + (f.block + "*/" + r)
  {
  }

  lemma FillerUnique(f: Filler, r: string, g: Filler, q: string)
    requires f.Valid() && g.Valid() && f.Text() + r == g.Text() + q
    ensures f == g && r == q
  {
    FillerStart(f, r);
    FillerStart(g, q);
    FillerRest(f, r);
    FillerRest(g, q);
    hide Filler.Text, IsLine, IsBlock, IsLineEnd, IsBlank;
    if f.Blank? {
      SameCut([f.c], r, [g.c], q);
      assert [f.c][0] == [g.c][0];
    } else if f.LineComment? {
      SameCut("//", f.line + [f.end] + r, "//", g.line + [g.end] + q);
      LineUnique(f.line, f.end, r, g.line, g.end, q);
    } else {
      SameCut("/*", f.block + "*/" + r, "/*", g.block + "*/" + q);
      BlockUnique(f.block, r, g.block, q);
    }
  }

  lemma GapCons(gap: Gap, r: string)
    requires gap != []
    ensures GapText(gap) + r == gap[0].Text() + (GapText(gap[1..]) + r)
  {
    hide Filler.Text;
  }

  lemma NoGap(r: string)
    ensures GapText([]) + r == r
  {
  }

  lemma {:induction false} GapUnique(gap: Gap, r: string, other: Gap, q: string)
    requires ValidGap(gap) && ValidGap(other) && IsGapEnd(r) && IsGapEnd(q)
    requires GapText(gap) + r == GapText(other) + q
    ensures gap == other && r == q
  {
    hide GapText, Filler.Text, Filler.Valid, IsGapEnd;
    if gap == [] || other == [] {
      NoGap(r);
      NoGap(q);
      if gap != [] {
        GapCons(gap, r);
        FillerStart(gap[0], GapText(gap[1..]) + r);
      }
      if other != [] {
        GapCons(other, q);
        FillerStart(other[0], GapText(other[1..]) + q);
      }
    } else {
      GapCons(gap, r);
      GapCons(other, q);
      FillerUnique(gap[0], GapText(gap[1..]) + r, other[0], GapText(other[1..]) + q);
      GapUnique(gap[1..], r, other[1..], q);
      assert gap == [gap[0]] + gap[1..] && other == [other[0]] + other[1..];
    }
  }

  lemma SamePrefix(p: string, a: string, b: string)
    ensures p + a == p + b <==> a == b
  {
    assert a == (p + a)[|p|..] && b == (p + b)[|p|..];
  }

  lemma LineHasNoEnd(line: string, before: string, end: char, r: string)
    requires IsLine(line) && IsLineEnd(end)
    ensures line != before + [end] + r
  {
    assert (before + [end] + r)[|before|] == end;
  }

  lemma BlockHasNoEnd(block: string, before: string, r: string)
    requires IsBlock(block)
    ensures block != before + "*/" + r
  {
    var t := before + "*/" + r;
    assert t[|before|] == '*' && t[|before| + 1] == '/';
  }

  /** What is left open is not closed. */
  lemma OpenIsNotClosed(tail: Tail, f: Filler, r: string)
    requires tail.Valid() && f.Valid()
    ensures tail.Text() != f.Text() + r
  {
    FillerStart(f, r);
    FillerRest(f, r);
    hide Filler.Text, IsLine, IsBlock, IsLineEnd;
    if tail.OpenLine? && f.LineComment? {
      LineHasNoEnd(tail.line, f.line, f.end, r);
      SamePrefix("//", tail.line, f.line + [f.end] + r);
    } else if tail.OpenBlock? && f.BlockComment? {
      BlockHasNoEnd(tail.block, f.block, r);
      SamePrefix("/*", tail.block, f.block + "*/" + r);
    }
  }

  lemma TailStart(tail: Tail)
    ensures tail.EndOfText? <==> tail.Text() == ""
    ensures tail.AfterNul? <==> tail.Text() != "" && tail.Text()[0] == '\0'
    ensures tail.OpenLine? <==> |tail.Text()| > 1 && tail.Text()[0] == '/' && tail.Text()[1] == '/'
    ensures tail.OpenBlock? <==> |tail.Text()| > 1 && tail.Text()[0] == '/' && tail.Text()[1] == '*'
  {
  }

  lemma OpenUnique(tail: Tail, other: Tail)
    requires tail.Text() == other.Text()
    ensures tail == other
  {
    TailStart(tail);
    TailStart(other);
    match tail {
      case EndOfText =>
      case OpenLine(line) => SamePrefix("//", line, other.line);
      case OpenBlock(block) => SamePrefix("/*", block, other.block);
      case AfterNul(junk) => SamePrefix("\0", junk, other.junk);
    }
  }

  lemma {:induction false} TailUnique(gap: Gap, tail: Tail, other: Gap, otherTail: Tail)
    requires ValidGap(gap) && ValidGap(other) && tail.Valid() && otherTail.Valid()
    requires GapText(gap) + tail.Text() == GapText(other) + otherTail.Text()
    ensures gap == other && tail == otherTail
  {
    hide GapText, Filler.Text, Filler.Valid, Tail.Text, Tail.Valid;
    var r, q := tail.Text(), otherTail.Text();
    if gap == [] || other == [] {
      NoGap(r);
      NoGap(q);
      if gap != [] {
        GapCons(gap, r);
        OpenIsNotClosed(otherTail, gap[0], GapText(gap[1..]) + r);
      } else if other != [] {
        GapCons(other, q);
        OpenIsNotClosed(tail, other[0], GapText(other[1..]) + q);
      } else {
        OpenUnique(tail, otherTail);
      }
    } else {
      GapCons(gap, r);
      GapCons(other, q);
      FillerUnique(gap[0], GapText(gap[1..]) + r, other[0], GapText(other[1..]) + q);
      TailUnique(gap[1..], tail, other[1..], otherTail);
      assert gap == [gap[0]] + gap[1..] && other == [other[0]] + other[1..];
    }
  }

  // ---------------------------------------------------------------------------------
  // Strings and numbers
  // ---------------------------------------------------------------------------------

  lemma PieceUnique(p: Piece, r: string, o: Piece, q: string)
    requires p.WellFormed() && o.WellFormed() && p.Text() + r == o.Text() + q
    ensures p == o && r == q
  {
    var s := p.Text() + r;
    assert s[0] == p.Text()[0] == o.Text()[0];
    if !p.Raw? && !o.Raw? {
      assert s[1] == p.Text()[1] == o.Text()[1];
    }
    SameCut(p.Text(), r, o.Text(), q);
    if p.Hex? {
      assert p.Text()[2] == o.Text()[2] && p.Text()[3] == o.Text()[3];
    }
    if p.Unicode? {
      assert p.Text()[2] == o.Text()[2] && p.Text()[3] == o.Text()[3] && p.Text()[4] == o.Text()[4] && p.Text()[5] == o.Text()[5];
    }
  }

  lemma {:induction false} PiecesUnique(pieces: seq<Piece>, other: seq<Piece>)
    requires WellFormedPieces(pieces) && WellFormedPieces(other) && PiecesText(pieces) == PiecesText(other)
    ensures pieces == other
  {
    hide Piece.Text, Piece.WellFormed;
    if pieces != [] && other != [] {
      PieceUnique(pieces[0], PiecesText(pieces[1..]), other[0], PiecesText(other[1..]));
      PiecesUnique(pieces[1..], other[1..]);
      assert pieces == [pieces[0]] + pieces[1..] && other == [other[0]] + other[1..];
    } else if pieces != [] {
      PieceLength(pieces[0]);
    } else if other != [] {
      PieceLength(other[0]);
    }
  }

  lemma QuotedUnique(pieces: seq<Piece>, r: string, other: seq<Piece>, q: string)
    requires WellFormedPieces(pieces) && WellFormedPieces(other) && Quoted(pieces) + r == Quoted(other) + q
    ensures pieces == other && r == q
  {
    hide TokenAt, PiecesText, DecodeString, WellFormedPieces;
    QuotedEnds(pieces, r);
    QuotedEnds(other, q);
    SameCut(Quoted(pieces), r, Quoted(other), q);
    QuotedInside(pieces);
    QuotedInside(other);
    PiecesUnique(pieces, other);
  }

  lemma QuotedInside(pieces: seq<Piece>)
    ensures |Quoted(pieces)| >= 2 && Quoted(pieces)[1..|Quoted(pieces)| - 1] == PiecesText(pieces)
  {
    hide PiecesText;
  }

  lemma DigitsUnique(a: string, r: string, b: string, q: string)
    requires AllDigits(a) && AllDigits(b) && a + r == b + q
    requires (r == "" || !IsDigit(r[0])) && (q == "" || !IsDigit(q[0]))
    ensures a == b && r == q
  {
    DigitsCounted(a, r);
    DigitsCounted(b, q);
    hide AllDigits, DigitCount;
    SameCut(a, r, b, q);
  }

  lemma ExponentStart(n: Number)
    requires n.Valid()
    ensures n.exponent.Some? <==> n.ExponentText() != ""
    ensures n.ExponentText() != "" ==> n.ExponentText()[0] == n.exponent.value.mark && !IsDigit(n.exponent.value.mark)
    ensures n.ExponentText() != "" ==> n.ExponentText()[0] != '.'
  {
  }

  lemma ExponentUnique(n: Number, m: Number)
    requires n.Valid() && m.Valid() && n.ExponentText() == m.ExponentText()
    ensures n.exponent == m.exponent
  {
    ExponentStart(n);
    ExponentStart(m);
    if n.exponent.Some? {
      var x, y := n.exponent.value, m.exponent.value;
      assert n.ExponentText() == [x.mark] + (x.sign + x.digits) && m.ExponentText() == [y.mark] + (y.sign + y.digits);
      SameCut([x.mark], x.sign + x.digits, [y.mark], y.sign + y.digits);
      assert (x.sign + x.digits)[0] == if x.sign == "" then x.digits[0] else x.sign[0];
      assert (y.sign + y.digits)[0] == if y.sign == "" then y.digits[0] else y.sign[0];
      assert IsDigit(x.digits[0]) && IsDigit(y.digits[0]);
      assert |x.sign| == |y.sign|;
      SameCut(x.sign, x.digits, y.sign, y.digits);
    }
  }

  lemma FractionStart(n: Number)
    requires n.Valid()
    ensures var t := n.FractionText() + n.ExponentText();
            && (t == "" || !IsDigit(t[0]))
            && (n.fraction.Some? <==> t != "" && t[0] == '.')
            && (n.fraction.Some? ==> t == "." + (n.fraction.value + n.ExponentText()))
            && (n.fraction.None? ==> t == n.ExponentText())
  {
    ExponentStart(n);
    hide Number.ExponentText;
  }

  lemma FractionUnique(n: Number, m: Number)
    requires n.Valid() && m.Valid() && n.FractionText() + n.ExponentText() == m.FractionText() + m.ExponentText()
    ensures n.fraction == m.fraction && n.exponent == m.exponent
  {
    FractionStart(n);
    FractionStart(m);
    if n.fraction.Some? {
      SameCut(".", n.fraction.value + n.ExponentText(), ".", m.fraction.value + m.ExponentText());
      ExponentStart(n);
      ExponentStart(m);
      DigitsUnique(n.fraction.value, n.ExponentText(), m.fraction.value, m.ExponentText());
    }
    ExponentUnique(n, m);
  }

  lemma NumberUnique(n: Number, m: Number)
    requires n.Valid() && m.Valid() && n.Text() == m.Text()
    ensures n == m
  {
    WholeText(n);
    WholeText(m);
    FractionStart(n);
    FractionStart(m);
    hide Number.Text, Number.FractionText, Number.ExponentText;
    var t, u := n.FractionText() + n.ExponentText(), m.FractionText() + m.ExponentText();
    assert n.Valid() && m.Valid();
    if n.minus {
      SameCut("-", n.whole + t, "-", m.whole + u);
    }
    DigitsUnique(n.whole, t, m.whole, u);
    FractionUnique(n, m);
  }

  lemma WholeText(n: Number)
    requires n.Valid()
    ensures var t := n.whole + (n.FractionText() + n.ExponentText());
            && n.Text() == (if n.minus then "-" + t else t) && t != "" && t[0] != '-'
  {
    hide Number.FractionText, Number.ExponentText;
    assert n.whole[0] != '-';
  }

  // ---------------------------------------------------------------------------------
  // Values
  // ---------------------------------------------------------------------------------

  lemma LeafUnique(node: Node, r: string, other: Node, q: string, rules: Rules)
    requires WellFormedNode(node, rules) && WellFormedNode(other, rules) && NodeToken(node) == NodeToken(other)
    requires NodeText(node) + r == NodeText(other) + q && !node.ArrayNode? && !node.ObjectNode?
    ensures node == other && r == q
  {
    hide Number.Text, Number.Valid, Quoted;
    if node.StringNode? {
      QuotedUnique(node.pieces, r, other.pieces, q);
    } else {
      SameCut(NodeText(node), r, NodeText(other), q);
      if node.NumberNode? {
        NumberUnique(node.number, other.number);
      }
    }
  }

  lemma ContainerStart(node: Node, r: string)
    ensures node.ArrayNode? ==> NodeText(node) + r == "[" + (GapText(node.inner) + (ItemsText(node.items) + r))
    ensures node.ObjectNode? ==> NodeText(node) + r == "{" + (GapText(node.inner) + (MembersText(node.members) + r))
  {
    hide GapText, ItemsText, MembersText;
    if node.ArrayNode? {
      Regroup("[", GapText(node.inner) + ItemsText(node.items), r);
      Regroup(GapText(node.inner), ItemsText(node.items), r);
    }
    if node.ObjectNode? {
      Regroup("{", GapText(node.inner) + MembersText(node.members), r);
      Regroup(GapText(node.inner), MembersText(node.members), r);
    }
  }

  lemma {:induction false} NodeUnique(node: Node, r: string, other: Node, q: string, rules: Rules)
    requires WellFormedNode(node, rules) && WellFormedNode(other, rules) && IsDelimited(r) && IsDelimited(q)
    requires NodeText(node) + r == NodeText(other) + q
    ensures node == other && r == q
    decreases node
  {
    hide NodeText, GapText, ItemsText, MembersText, TokenAt, IsGapEnd, IsDelimited, Number.Text, Quoted, WellFormedItems,
         WellFormedMembers, ValidGap;
    NodeStart(node, r, rules);
    NodeStart(other, q, rules);
    if node.ArrayNode? {
      ContainerStart(node, r);
      ContainerStart(other, q);
      SameCut("[", GapText(node.inner) + (ItemsText(node.items) + r), "[", GapText(other.inner) + (ItemsText(other.items) + q));
      ItemsStart(node.items, r, rules);
      ItemsStart(other.items, q, rules);
      GapUnique(node.inner, ItemsText(node.items) + r, other.inner, ItemsText(other.items) + q);
      ItemsUnique(node.items, r, other.items, q, rules);
    } else if node.ObjectNode? {
      ContainerStart(node, r);
      ContainerStart(other, q);
      SameCut("{", GapText(node.inner) + (MembersText(node.members) + r), "{", GapText(other.inner) + (MembersText(other.members) + q));
      MembersStart(node.members, r);
      MembersStart(other.members, q);
      GapUnique(node.inner, MembersText(node.members) + r, other.inner, MembersText(other.members) + q);
      MembersUnique(node.members, r, other.members, q, rules);
    } else {
      LeafUnique(node, r, other, q, rules);
    }
  }

  lemma ItemTailUnique(items: Items, r: string, other: Items, q: string)
    requires items.Item? && other.Item? && ItemTail(items, r) == ItemTail(other, q)
    ensures items.comma == other.comma
    ensures items.comma ==> GapText(items.gap) + (ItemsText(items.rest) + r) == GapText(other.gap) + (ItemsText(other.rest) + q)
    ensures !items.comma ==> r == q
  {
    hide GapText, ItemsText;
    var s, t := ItemTail(items, r), ItemTail(other, q);
    assert s[0] == t[0];
    assert s[1..] == if items.comma then GapText(items.gap) + (ItemsText(items.rest) + r) else r;
    assert t[1..] == if other.comma then GapText(other.gap) + (ItemsText(other.rest) + q) else q;
  }

  lemma {:induction false} ItemsUnique(items: Items, r: string, other: Items, q: string, rules: Rules)
    requires WellFormedItems(items, rules) && WellFormedItems(other, rules)
    requires ItemsText(items) + r == ItemsText(other) + q
    ensures items == other && r == q
    decreases items
  {
    hide NodeText, GapText, ItemTail, TokenAt, IsGapEnd, IsDelimited, WellFormedNode, ValidGap;
    ItemsStart(items, r, rules);
    ItemsStart(other, q, rules);
    if items.NoItems? {
      SameCut("]", r, "]", q);
    } else {
      hide ItemsText;
      ItemSplit(items, r, rules);
      ItemSplit(other, q, rules);
      NodeUnique(items.node, GapText(items.after) + ItemTail(items, r), other.node, GapText(other.after) + ItemTail(other, q), rules);
      GapUnique(items.after, ItemTail(items, r), other.after, ItemTail(other, q));
      ItemTailUnique(items, r, other, q);
      if items.comma {
        ItemsStart(items.rest, r, rules);
        ItemsStart(other.rest, q, rules);
        GapUnique(items.gap, ItemsText(items.rest) + r, other.gap, ItemsText(other.rest) + q);
        ItemsUnique(items.rest, r, other.rest, q, rules);
      }
    }
  }

  lemma MemberTailUnique(members: Members, r: string, other: Members, q: string)
    requires members.Member? && other.Member? && MemberTail(members, r) == MemberTail(other, q)
    ensures members.comma == other.comma
    ensures members.comma ==>
      GapText(members.gap) + (MembersText(members.rest) + r) == GapText(other.gap) + (MembersText(other.rest) + q)
    ensures !members.comma ==> r == q
  {
    hide GapText, MembersText;
    var s, t := MemberTail(members, r), MemberTail(other, q);
    assert s[0] == t[0];
    assert s[1..] == if members.comma then GapText(members.gap) + (MembersText(members.rest) + r) else r;
    assert t[1..] == if other.comma then GapText(other.gap) + (MembersText(other.rest) + q) else q;
  }

  /** The key of a member, with the gaps around the colon. */
  lemma KeyUnique(key: seq<Piece>, g: Gap, h: Gap, r: string, other: seq<Piece>, g': Gap, h': Gap, q: string)
    requires WellFormedPieces(key) && WellFormedPieces(other)
    requires ValidGap(g) && ValidGap(h) && ValidGap(g') && ValidGap(h') && IsGapEnd(r) && IsGapEnd(q)
    requires Quoted(key) + (GapText(g) + (":" + (GapText(h) + r))) == Quoted(other) + (GapText(g') + (":" + (GapText(h') + q)))
    ensures key == other && g == g' && h == h' && r == q
  {
    hide Quoted, GapText, IsGapEnd, TokenAt, WellFormedPieces, ValidGap;
    var t, u := ":" + (GapText(h) + r), ":" + (GapText(h') + q);
    QuotedUnique(key, GapText(g) + t, other, GapText(g') + u);
    ColonEnds(t);
    ColonEnds(u);
    GapUnique(g, t, g', u);
    SameCut(":", GapText(h) + r, ":", GapText(h') + q);
    GapUnique(h, r, h', q);
  }

  lemma {:induction false} MembersUnique(members: Members, r: string, other: Members, q: string, rules: Rules)
    requires WellFormedMembers(members, rules) && WellFormedMembers(other, rules)
    requires MembersText(members) + r == MembersText(other) + q
    ensures members == other && r == q
    decreases members
  {
    hide NodeText, GapText, MemberTail, TokenAt, IsGapEnd, IsDelimited, WellFormedNode, ValidGap, Quoted, WellFormedPieces;
    MembersStart(members, r);
    MembersStart(other, q);
    if members.NoMembers? {
      SameCut("}", r, "}", q);
    } else {
      hide MembersText;
      MemberText(members, r);
      MemberText(other, q);
      MemberSplit(members, r, rules);
      MemberSplit(other, q, rules);
      var s := NodeText(members.node) + (GapText(members.after) + MemberTail(members, r));
      var t := NodeText(other.node) + (GapText(other.after) + MemberTail(other, q));
      KeyUnique(members.key, members.beforeColon, members.afterColon, s, other.key, other.beforeColon, other.afterColon, t);
      NodeUnique(members.node, GapText(members.after) + MemberTail(members, r),
                 other.node, GapText(other.after) + MemberTail(other, q), rules);
      GapUnique(members.after, MemberTail(members, r), other.after, MemberTail(other, q));
      MemberTailUnique(members, r, other, q);
      if members.comma {
        MembersStart(members.rest, r);
        MembersStart(other.rest, q);
        GapUnique(members.gap, MembersText(members.rest) + r, other.gap, MembersText(other.rest) + q);
        MembersUnique(members.rest, r, other.rest, q, rules);
      }
    }
  }

  // ---------------------------------------------------------------------------------
  // Documents
  // ---------------------------------------------------------------------------------

  lemma MarkUnique(doc: Document, other: Document, rules: Rules)
    requires doc.WellFormed(rules) && other.WellFormed(rules) && doc.Text() == other.Text()
    ensures doc.mark == other.mark && doc.Body() == other.Body()
  {
    hide WellFormedNode, Document.Body;
    MarkSkipped(doc, rules);
    MarkSkipped(other, rules);
    assert |doc.Text()| == |doc.Body()| + (if doc.mark then 3 else 0);
    assert |other.Text()| == |other.Body()| + (if other.mark then 3 else 0);
  }

  lemma RootIsGapEnd(doc: Document, rules: Rules)
    requires doc.WellFormed(rules)
    ensures var rest := GapText(doc.trail) + doc.tail.Text();
            IsDelimited(rest) && IsGapEnd(NodeText(doc.root) + rest)
  {
    hide NodeText, GapText, WellFormedNode, IsGapEnd, IsDelimited, Tail.Text, Tail.Valid;
    TailDelimits(doc.tail);
    GapDelimits(doc.trail, doc.tail.Text());
    NodeStart(doc.root, GapText(doc.trail) + doc.tail.Text(), rules);
  }

  /** Two documents with one text are the same. */
  lemma DocumentIsUnique(doc: Document, other: Document, rules: Rules)
    requires doc.WellFormed(rules) && other.WellFormed(rules) && doc.Text() == other.Text()
    ensures doc == other
  {
    hide NodeText, GapText, WellFormedNode, IsGapEnd, IsDelimited, Tail.Text, Tail.Valid, Document.Text, ValidGap;
    MarkUnique(doc, other, rules);
    RootIsGapEnd(doc, rules);
    RootIsGapEnd(other, rules);
    var r, q := GapText(doc.trail) + doc.tail.Text(), GapText(other.trail) + other.tail.Text();
    GapUnique(doc.lead, NodeText(doc.root) + r, other.lead, NodeText(other.root) + q);
    NodeUnique(doc.root, r, other.root, q, rules);
    TailUnique(doc.trail, doc.tail, other.trail, other.tail);
  }
}
